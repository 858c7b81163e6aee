/**
 The completion plan: task-state rules, the dependency check, state and summary checks, and what
 an accepted plan guarantees about completion order and about work that remains.
 */
module DelegationPlan {
  import opened Outcomes
  import opened Ordering
  import opened DependencyGraph

  datatype State = ArchitectRequired | Blocked | Delegable | Complete | HumanOnly

  datatype Tier = Architect | BoundedImplementer | MechanicalEvidence | HumanOrExternal

  datatype Task = Task(
    id: string,
    state: State,
    tier: Tier,
    deps: seq<string>,
    unresolved: Option<string>,
    evidence: seq<string>,
    decision: string,
    oraclePath: string,
    oracleAvailable: bool)

  datatype Plan = Plan(
    tasks: seq<Task>,
    handoffReady: bool,
    handoffRequired: seq<string>,
    productionReady: bool,
    blanketDelegationReady: bool,
    safeNow: seq<string>)

  datatype PlanError =
    | NoTasks
    | UnexpectedId(expected: string)
    | TierMismatch(id: string)
    | MalformedDeps(id: string)
    | BlankUnresolved(id: string)
    | MalformedEvidence(id: string)
    | NeedsUnresolved(id: string)
    | RetainsUnresolved(id: string)
    | NeedsEvidence(id: string)
    | BadGraph(error: GraphError)
    | BlockedWithoutReason(id: string)
    | PrematurelyDelegable(id: string)
    | DelegableUnresolved(id: string)
    | OracleUnavailable(id: string)
    | PrematurelyComplete(id: string)
    | MissingFile(id: string, path: string)
    | MalformedHandoff
    | UnknownHandoffTasks
    | HandoffDisagrees
    | ClaimsProduction
    | BlanketDisagrees
    | MalformedSafeNow
    | SafeNowDisagrees

  // ----- sequential identifiers -----

  function Decimal(n: nat): string {
    if n < 10 then [DigitChar(n)] else Decimal(n / 10) + [DigitChar(n % 10)]
  }

  function DigitChar(d: nat): char
    requires d < 10
  {
    '0' + d as char
  }

  /** At least three digits, zero padded. */
  function Padded(n: nat): string {
    var digits := Decimal(n);
    if |digits| == 1 then "00" + digits else if |digits| == 2 then "0" + digits else digits
  }

  const TASK_PREFIX := "ZRM-TASK-"

  function ExpectedId(index: nat): string {
    TASK_PREFIX + Padded(index)
  }

  ghost function Value(digits: string): int {
    if digits == "" then 0 else Value(digits[..|digits| - 1]) * 10 + (digits[|digits| - 1] as int - '0' as int)
  }

  lemma {:induction false} DecimalValue(n: nat)
    ensures Value(Decimal(n)) == n
  {
    if n >= 10 {
      DecimalValue(n / 10);
      assert Decimal(n)[..|Decimal(n)| - 1] == Decimal(n / 10);
    } else {
      assert Decimal(n)[..0] == "";
    }
  }

  lemma {:induction false} LeadingZero(digits: string)
    ensures Value("0" + digits) == Value(digits)
  {
    var all := "0" + digits;
    if digits == "" {
      assert all[..0] == "";
    } else {
      LeadingZero(digits[..|digits| - 1]);
      assert all[..|all| - 1] == "0" + digits[..|digits| - 1];
    }
  }

  lemma ExpectedIdInjective(a: nat, b: nat)
    ensures ExpectedId(a) == ExpectedId(b) <==> a == b
  {
    assert ExpectedId(a)[|TASK_PREFIX|..] == Padded(a) && ExpectedId(b)[|TASK_PREFIX|..] == Padded(b);
    PaddedValue(a);
    PaddedValue(b);
  }

  lemma PaddedValue(n: nat)
    ensures Value(Padded(n)) == n
  {
    var digits := Decimal(n);
    DecimalValue(n);
    LeadingZero(digits);
    LeadingZero("0" + digits);
    assert "00" + digits == "0" + ("0" + digits);
  }

  // ----- one task -----

  /** White space, as stripping removes it. */
  predicate IsSpace(c: char) {
    var code := c as int;
    || 0x09 <= code <= 0x0D || 0x1C <= code <= 0x20 || code == 0x85 || code == 0xA0 || code == 0x1680
    || 0x2000 <= code <= 0x200A || code == 0x2028 || code == 0x2029 || code == 0x202F || code == 0x205F || code == 0x3000
  }

  /** Nothing is left of the text once it is stripped. */
  predicate Blank(text: string) {
    forall i :: 0 <= i < |text| ==> IsSpace(text[i])
  }

  /** A duplicate-free list of strings that are not blank. */
  predicate IsStringList(values: seq<string>) {
    (forall i :: 0 <= i < |values| ==> !Blank(values[i])) && Distinct(values)
  }

  /** The task carries an unresolved decision that is more than white space. */
  predicate NamesDecision(task: Task) {
    task.unresolved.Some? && !Blank(task.unresolved.value)
  }

  function CheckTask(task: Task, expectedId: string): Result<(), PlanError> {
    if task.id != expectedId then Err(UnexpectedId(expectedId))
    else if !IsStringList(task.deps) then Err(MalformedDeps(task.id))
    else if task.unresolved.Some? && Blank(task.unresolved.value) then Err(BlankUnresolved(task.id))
    else if !IsStringList(task.evidence) then Err(MalformedEvidence(task.id))
    else match task.state
      case ArchitectRequired =>
        if task.tier != Architect then Err(TierMismatch(task.id))
        else if task.unresolved == None then Err(NeedsUnresolved(task.id))
        else Ok(())
      case HumanOnly =>
        if task.tier != HumanOrExternal then Err(TierMismatch(task.id)) else Ok(())
      case Blocked | Delegable =>
        if task.tier != BoundedImplementer && task.tier != MechanicalEvidence then Err(TierMismatch(task.id)) else Ok(())
      case Complete =>
        if task.unresolved != None then Err(RetainsUnresolved(task.id))
        else if task.evidence == [] then Err(NeedsEvidence(task.id))
        else Ok(())
  }

  /** The tasks' own check, as the list is numbered from one. */
  function CheckTasks(tasks: seq<Task>): Result<(), PlanError> {
    if tasks == [] then Ok(())
    else
      var _ :- CheckTasks(tasks[..|tasks| - 1]);
      CheckTask(tasks[|tasks| - 1], ExpectedId(|tasks|))
  }

  ghost predicate TasksPass(tasks: seq<Task>) {
    forall i :: 0 <= i < |tasks| ==> CheckTask(tasks[i], ExpectedId(i + 1)).Ok?
  }

  /** The list is accepted iff every task passes at its own position; otherwise the first failure is reported. */
  lemma {:induction false} CheckTasksAccepts(tasks: seq<Task>)
    ensures CheckTasks(tasks).Ok? <==> TasksPass(tasks)
    ensures CheckTasks(tasks).Err? ==>
              exists i :: 0 <= i < |tasks| && TasksPass(tasks[..i]) && CheckTasks(tasks) == CheckTask(tasks[i], ExpectedId(i + 1))
  {
    if tasks != [] {
      var n := |tasks| - 1;
      CheckTasksAccepts(tasks[..n]);
      if TasksPass(tasks[..n]) {
        PassExtends(tasks, n);
      } else {
        var i :| 0 <= i < n && TasksPass(tasks[..n][..i]) && CheckTasks(tasks[..n]) == CheckTask(tasks[..n][i], ExpectedId(i + 1));
        assert tasks[..n][..i] == tasks[..i];
        assert CheckTask(tasks[i], ExpectedId(i + 1)).Err?;
      }
    }
  }

  lemma PassExtends(tasks: seq<Task>, n: nat)
    requires n + 1 == |tasks| && TasksPass(tasks[..n])
    ensures TasksPass(tasks) <==> CheckTask(tasks[n], ExpectedId(n + 1)).Ok?
  {
    forall i | 0 <= i < n ensures CheckTask(tasks[i], ExpectedId(i + 1)).Ok? { assert tasks[..n][i] == tasks[i]; }
  }

  // ----- states -----

  function ById(tasks: seq<Task>): map<string, Task> {
    if tasks == [] then map[] else ById(tasks[..|tasks| - 1])[tasks[|tasks| - 1].id := tasks[|tasks| - 1]]
  }

  predicate Incomplete(byId: map<string, Task>, dep: string) {
    dep in byId && byId[dep].state != Complete
  }

  predicate HasIncomplete(byId: map<string, Task>, deps: seq<string>) {
    exists i :: 0 <= i < |deps| && Incomplete(byId, deps[i])
  }

  function MissingEvidence(task: Task, files: set<string>, from: nat): Result<(), PlanError>
    requires from <= |task.evidence|
    decreases |task.evidence| - from
  {
    if from == |task.evidence| then Ok(())
    else if task.evidence[from] !in files then Err(MissingFile(task.id, task.evidence[from]))
    else MissingEvidence(task, files, from + 1)
  }

  /** One task's state rules; `files` are the references that name an existing repository file. */
  function CheckState(task: Task, byId: map<string, Task>, files: set<string>): Result<(), PlanError> {
    var incomplete := HasIncomplete(byId, task.deps);
    var _ :- match task.state
      case Blocked =>
        if incomplete || task.unresolved != None then Ok(()) else Err(BlockedWithoutReason(task.id))
      case Delegable =>
        if incomplete then Err(PrematurelyDelegable(task.id))
        else if task.unresolved != None then Err(DelegableUnresolved(task.id))
        else if !task.oracleAvailable then Err(OracleUnavailable(task.id))
        else if task.decision !in files then Err(MissingFile(task.id, task.decision))
        else if task.oraclePath !in files then Err(MissingFile(task.id, task.oraclePath))
        else Ok(())
      case Complete =>
        if incomplete then Err(PrematurelyComplete(task.id)) else MissingEvidence(task, files, 0)
      case _ => Ok(());
    if task.oracleAvailable && task.oraclePath !in files then Err(MissingFile(task.id, task.oraclePath)) else Ok(())
  }

  function CheckStatesFrom(tasks: seq<Task>, byId: map<string, Task>, files: set<string>): Result<(), PlanError> {
    if tasks == [] then Ok(())
    else
      var _ :- CheckState(tasks[0], byId, files);
      CheckStatesFrom(tasks[1..], byId, files)
  }

  method ValidateStates(tasks: seq<Task>, files: set<string>) returns (r: Result<(), PlanError>)
    ensures r == CheckStatesFrom(tasks, ById(tasks), files)
  {
    var byId := ById(tasks);
    for i := 0 to |tasks|
      invariant CheckStatesFrom(tasks, byId, files) == CheckStatesFrom(tasks[i..], byId, files)
    {
      assert tasks[i..][1..] == tasks[i + 1..];
      var step := CheckState(tasks[i], byId, files);
      if step.Err? {
        return step;
      }
    }
    return Ok(());
  }

  lemma {:induction false} CheckStatesAccepts(tasks: seq<Task>, byId: map<string, Task>, files: set<string>)
    ensures CheckStatesFrom(tasks, byId, files).Ok? <==> forall t :: t in tasks ==> CheckState(t, byId, files).Ok?
  {
    if tasks != [] {
      CheckStatesAccepts(tasks[1..], byId, files);
      assert tasks == [tasks[0]] + tasks[1..];
    }
  }

  // ----- summaries -----

  function DelegableIds(tasks: seq<Task>): seq<string> {
    if tasks == [] then []
    else DelegableIds(tasks[..|tasks| - 1]) + (if tasks[|tasks| - 1].state == Delegable then [tasks[|tasks| - 1].id] else [])
  }

  function CheckSummaries(plan: Plan): Result<(), PlanError> {
    var byId := ById(plan.tasks);
    if !IsStringList(plan.handoffRequired) || plan.handoffRequired == [] then Err(MalformedHandoff)
    else if exists i :: 0 <= i < |plan.handoffRequired| && plan.handoffRequired[i] !in byId then Err(UnknownHandoffTasks)
    else if plan.handoffReady != (forall i :: 0 <= i < |plan.handoffRequired| ==> byId[plan.handoffRequired[i]].state == Complete)
    then Err(HandoffDisagrees)
    else if plan.productionReady then Err(ClaimsProduction)
    else if plan.blanketDelegationReady != plan.handoffReady then Err(BlanketDisagrees)
    else if !IsStringList(plan.safeNow) then Err(MalformedSafeNow)
    else if plan.safeNow != DelegableIds(plan.tasks) then Err(SafeNowDisagrees)
    else Ok(())
  }

  // ----- the whole plan -----

  function NodesOf(tasks: seq<Task>): (nodes: seq<Node>)
    ensures |nodes| == |tasks| && forall i :: 0 <= i < |tasks| ==> nodes[i] == Node(tasks[i].id, tasks[i].deps)
  {
    seq(|tasks|, i requires 0 <= i < |tasks| => Node(tasks[i].id, tasks[i].deps))
  }

  ghost predicate AcceptedPlan(plan: Plan, files: set<string>) {
    && plan.tasks != []
    && CheckTasks(plan.tasks).Ok?
    && Accepts(NodesOf(plan.tasks))
    && CheckStatesFrom(plan.tasks, ById(plan.tasks), files).Ok?
    && CheckSummaries(plan).Ok?
  }

  /** The first local defect or, when there is none, a node that reaches itself. */
  ghost predicate IsGraphError(nodes: seq<Node>, error: GraphError) {
    match FirstLocalDefect(nodes, Ids(nodes))
    case Some(defect) => error == defect
    case None => error.CycleReaches? && Reaches(GraphOf(nodes), error.id, error.id)
  }

  method ValidatePlan(plan: Plan, files: set<string>) returns (r: Result<(), PlanError>)
    ensures r.Ok? <==> AcceptedPlan(plan, files)
    ensures plan.tasks != [] && CheckTasks(plan.tasks).Err? ==> r == CheckTasks(plan.tasks)
    ensures plan.tasks == [] ==> r == Err(NoTasks)
    ensures plan.tasks != [] && CheckTasks(plan.tasks).Ok? && !Accepts(NodesOf(plan.tasks)) ==>
              r.Err? && r.error.BadGraph? && IsGraphError(NodesOf(plan.tasks), r.error.error)
    ensures plan.tasks != [] && CheckTasks(plan.tasks).Ok? && Accepts(NodesOf(plan.tasks)) ==>
              r == var states := CheckStatesFrom(plan.tasks, ById(plan.tasks), files);
                   if states.Err? then states else CheckSummaries(plan)
  {
    if plan.tasks == [] {
      return Err(NoTasks);
    }
    for i := 0 to |plan.tasks|
      invariant CheckTasks(plan.tasks[..i]).Ok?
    {
      assert plan.tasks[..i + 1][..i] == plan.tasks[..i];
      var step := CheckTask(plan.tasks[i], ExpectedId(i + 1));
      if step.Err? {
        CheckTasksFails(plan.tasks, i + 1);
        return step;
      }
    }
    assert plan.tasks[..|plan.tasks|] == plan.tasks;
    var graph := ValidateGraph(NodesOf(plan.tasks));
    if graph.Err? {
      return Err(BadGraph(graph.error));
    }
    var states := ValidateStates(plan.tasks, files);
    if states.Err? {
      return states;
    }
    return CheckSummaries(plan);
  }

  lemma {:induction false} CheckTasksFails(tasks: seq<Task>, n: nat)
    requires n <= |tasks| && CheckTasks(tasks[..n]).Err?
    ensures CheckTasks(tasks) == CheckTasks(tasks[..n])
  {
    if n < |tasks| {
      assert tasks[..|tasks| - 1][..n] == tasks[..n];
      CheckTasksFails(tasks[..|tasks| - 1], n);
    } else {
      assert tasks[..n] == tasks;
    }
  }

  // ----- what acceptance guarantees -----

  lemma NamedApart(tasks: seq<Task>, name: nat -> string)
    requires forall a, b :: name(a) == name(b) ==> a == b
    requires forall i :: 0 <= i < |tasks| ==> tasks[i].id == name(i + 1)
    ensures DistinctIds(NodesOf(tasks))
  {
    forall i, j | 0 <= i < j < |tasks| ensures tasks[i].id != tasks[j].id {
      assert name(i + 1) != name(j + 1);
    }
  }

  /** Sequential numbering makes identifiers unique. */
  lemma SequentialIdsDistinct(tasks: seq<Task>)
    requires CheckTasks(tasks).Ok?
    ensures DistinctIds(NodesOf(tasks))
  {
    CheckTasksAccepts(tasks);
    forall a: nat, b: nat ensures ExpectedId(a) == ExpectedId(b) ==> a == b { ExpectedIdInjective(a, b); }
    NamedApart(tasks, ExpectedId);
  }

  lemma {:induction false} ByIdHoldsTasks(tasks: seq<Task>)
    ensures forall id :: id in ById(tasks) ==> ById(tasks)[id] in tasks && ById(tasks)[id].id == id
  {
    if tasks != [] { ByIdHoldsTasks(tasks[..|tasks| - 1]); }
  }

  lemma {:induction false} ByIdFindsEach(tasks: seq<Task>, i: nat)
    requires i < |tasks| && forall j :: i < j < |tasks| ==> tasks[j].id != tasks[i].id
    ensures tasks[i].id in ById(tasks) && ById(tasks)[tasks[i].id] == tasks[i]
  {
    var n := |tasks| - 1;
    if i < n { ByIdFindsEach(tasks[..n], i); }
  }

  lemma LaterIdsDiffer(tasks: seq<Task>, i: nat, j: nat)
    requires DistinctIds(NodesOf(tasks)) && i < j < |tasks|
    ensures tasks[j].id != tasks[i].id
  {
    assert NodesOf(tasks)[i].id != NodesOf(tasks)[j].id;
  }

  lemma ByIdFinds(tasks: seq<Task>)
    requires DistinctIds(NodesOf(tasks))
    ensures forall t :: t in tasks ==> t.id in ById(tasks) && ById(tasks)[t.id] == t
  {
    forall t | t in tasks ensures t.id in ById(tasks) && ById(tasks)[t.id] == t {
      var i :| 0 <= i < |tasks| && tasks[i] == t;
      forall j | i < j < |tasks| ensures tasks[j].id != tasks[i].id { LaterIdsDiffer(tasks, i, j); }
      ByIdFindsEach(tasks, i);
    }
  }

  /** The graph, the dictionary and the task list tell the same story. */
  ghost predicate SameTasks(tasks: seq<Task>, byId: map<string, Task>, g: Graph) {
    && g.Keys == byId.Keys
    && (forall id :: id in byId ==> g[id] == byId[id].deps && byId[id].id == id && byId[id] in tasks)
    && (forall t :: t in tasks ==> t.id in byId && byId[t.id] == t)
  }

  lemma {:induction false} GraphMatchesTasks(tasks: seq<Task>)
    ensures GraphOf(NodesOf(tasks)).Keys == ById(tasks).Keys
    ensures forall id :: id in ById(tasks) ==> GraphOf(NodesOf(tasks))[id] == ById(tasks)[id].deps
  {
    if tasks != [] {
      var n := |tasks| - 1;
      GraphMatchesTasks(tasks[..n]);
      assert NodesOf(tasks)[..n] == NodesOf(tasks[..n]);
    }
  }

  lemma DistinctGivesSameTasks(tasks: seq<Task>)
    requires DistinctIds(NodesOf(tasks))
    ensures SameTasks(tasks, ById(tasks), GraphOf(NodesOf(tasks)))
  {
    ByIdHoldsTasks(tasks);
    ByIdFinds(tasks);
    GraphMatchesTasks(tasks);
  }

  /** The rules of `state` that the guarantees rest on. */
  ghost predicate StateRule(task: Task, byId: map<string, Task>) {
    && (task.state == Complete || task.state == Delegable ==> forall d :: d in task.deps ==> !Incomplete(byId, d))
    && (task.state == Blocked ==> NamesDecision(task) || exists d :: d in task.deps && Incomplete(byId, d))
    && (task.state == ArchitectRequired ==> NamesDecision(task))
  }

  lemma ChecksGiveStateRule(task: Task, expectedId: string, byId: map<string, Task>, files: set<string>)
    requires CheckTask(task, expectedId).Ok? && CheckState(task, byId, files).Ok?
    ensures StateRule(task, byId)
  {
    if HasIncomplete(byId, task.deps) {
      var i :| 0 <= i < |task.deps| && Incomplete(byId, task.deps[i]);
      assert task.deps[i] in task.deps;
    }
  }

  ghost predicate Coherent(tasks: seq<Task>, byId: map<string, Task>, g: Graph) {
    SameTasks(tasks, byId, g) && Closed(g) && Acyclic(g) && forall id :: id in byId ==> StateRule(byId[id], byId)
  }

  lemma AcceptedIsCoherent(plan: Plan, files: set<string>)
    requires AcceptedPlan(plan, files)
    ensures Coherent(plan.tasks, ById(plan.tasks), GraphOf(NodesOf(plan.tasks)))
  {
    var tasks := plan.tasks;
    var byId := ById(tasks);
    SequentialIdsDistinct(tasks);
    DistinctGivesSameTasks(tasks);
    KnownGraphIsClosed(NodesOf(tasks));
    CheckTasksAccepts(tasks);
    CheckStatesAccepts(tasks, byId, files);
    forall id | id in byId ensures StateRule(byId[id], byId) {
      var i :| 0 <= i < |tasks| && tasks[i] == byId[id];
      ChecksGiveStateRule(tasks[i], ExpectedId(i + 1), byId, files);
    }
  }

  predicate Ready(task: Task) {
    task.state == Complete || task.state == Delegable
  }

  ghost predicate IsComplete(tasks: seq<Task>, id: string) {
    exists t :: t in tasks && t.id == id && t.state == Complete
  }

  lemma {:induction false} PathComplete(tasks: seq<Task>, byId: map<string, Task>, g: Graph, p: seq<string>)
    requires Coherent(tasks, byId, g) && IsPath(g, p) && |p| >= 2 && Ready(byId[p[0]])
    ensures p[|p| - 1] in byId && byId[p[|p| - 1]].state == Complete
    decreases |p|
  {
    assert p[1] in byId[p[0]].deps && !Incomplete(byId, p[1]);
    if |p| > 2 {
      PathTail(g, p);
      PathComplete(tasks, byId, g, p[1..]);
    }
  }

  /** Everything a complete or delegable task depends on, however indirectly, is complete. */
  lemma DependenciesOfReadyWorkAreComplete(plan: Plan, files: set<string>, task: Task, dep: string)
    requires AcceptedPlan(plan, files) && task in plan.tasks && Ready(task)
    requires Reaches(GraphOf(NodesOf(plan.tasks)), task.id, dep)
    ensures IsComplete(plan.tasks, dep)
  {
    AcceptedIsCoherent(plan, files);
    ReadyClosure(plan.tasks, ById(plan.tasks), GraphOf(NodesOf(plan.tasks)), task, dep);
  }

  lemma ReadyClosure(tasks: seq<Task>, byId: map<string, Task>, g: Graph, task: Task, dep: string)
    requires Coherent(tasks, byId, g) && task in tasks && Ready(task) && Reaches(g, task.id, dep)
    ensures IsComplete(tasks, dep)
  {
    var p :| IsPath(g, p) && |p| >= 2 && p[0] == task.id && p[|p| - 1] == dep;
    PathComplete(tasks, byId, g, p);
    assert byId[dep] in tasks && byId[dep].id == dep;
  }

  /** The task can move now, or says which decision or person it waits for. */
  predicate Actionable(task: Task) {
    task.state == Delegable || task.state == HumanOnly || NamesDecision(task)
  }

  /** No silent deadlock: unfinished plans hold an unfinished task with finished dependencies that is actionable. */
  lemma NoSilentDeadlock(plan: Plan, files: set<string>) returns (task: Task)
    requires AcceptedPlan(plan, files)
    requires exists t :: t in plan.tasks && t.state != Complete
    ensures task in plan.tasks && task.state != Complete && Actionable(task)
    ensures forall d :: d in task.deps ==> IsComplete(plan.tasks, d)
  {
    AcceptedIsCoherent(plan, files);
    task := FirstUnfinished(plan.tasks, ById(plan.tasks), GraphOf(NodesOf(plan.tasks)));
  }

  lemma FirstUnfinished(tasks: seq<Task>, byId: map<string, Task>, g: Graph) returns (task: Task)
    requires Coherent(tasks, byId, g) && exists t :: t in tasks && t.state != Complete
    ensures task in tasks && task.state != Complete && Actionable(task)
    ensures forall d :: d in task.deps ==> IsComplete(tasks, d)
  {
    var open := set id | id in byId && byId[id].state != Complete;
    var t :| t in tasks && t.state != Complete;
    assert t.id in open;
    var id := MinimalNode(g, open);
    task := byId[id];
    forall d | d in task.deps ensures IsComplete(tasks, d) && !Incomplete(byId, d) {
      assert d in g[id] && d !in open;
      assert byId[d] in tasks && byId[d].id == d;
    }
  }

  lemma {:induction false} DelegableIdsExact(tasks: seq<Task>, id: string)
    ensures id in DelegableIds(tasks) <==> exists t :: t in tasks && t.id == id && t.state == Delegable
  {
    if tasks != [] {
      var n := |tasks| - 1;
      DelegableIdsExact(tasks[..n], id);
      assert tasks == tasks[..n] + [tasks[n]];
    }
  }

  /** Whatever the plan advertises as safe now rests on complete work only. */
  lemma SafeNowRestsOnCompleteWork(plan: Plan, files: set<string>, id: string, dep: string)
    requires AcceptedPlan(plan, files) && id in plan.safeNow
    requires Reaches(GraphOf(NodesOf(plan.tasks)), id, dep)
    ensures IsComplete(plan.tasks, dep)
  {
    DelegableIdsExact(plan.tasks, id);
    var task :| task in plan.tasks && task.id == id && task.state == Delegable;
    DependenciesOfReadyWorkAreComplete(plan, files, task, dep);
  }

  /** The task and everything below it are complete. */
  ghost predicate CompleteBelow(plan: Plan, id: string) {
    && IsComplete(plan.tasks, id)
    && forall dep :: Reaches(GraphOf(NodesOf(plan.tasks)), id, dep) ==> IsComplete(plan.tasks, dep)
  }

  /** The handoff flag is raised iff every required task, with everything below it, is complete. */
  lemma HandoffMeansClosure(plan: Plan, files: set<string>)
    requires AcceptedPlan(plan, files)
    ensures plan.handoffRequired != []
    ensures plan.handoffReady <==> forall id :: id in plan.handoffRequired ==> CompleteBelow(plan, id)
  {
    var byId := ById(plan.tasks);
    AcceptedIsCoherent(plan, files);
    if plan.handoffReady {
      forall id | id in plan.handoffRequired ensures CompleteBelow(plan, id) {
        assert byId[id] in plan.tasks && byId[id].id == id && byId[id].state == Complete;
        forall dep | Reaches(GraphOf(NodesOf(plan.tasks)), id, dep) ensures IsComplete(plan.tasks, dep) {
          DependenciesOfReadyWorkAreComplete(plan, files, byId[id], dep);
        }
      }
    } else {
      var i :| 0 <= i < |plan.handoffRequired| && byId[plan.handoffRequired[i]].state != Complete;
      assert plan.handoffRequired[i] in plan.handoffRequired;
      assert !IsComplete(plan.tasks, plan.handoffRequired[i]);
    }
  }
}
