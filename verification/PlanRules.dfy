/**
 The rules of the completion plan on the tasks' own fields: which single tasks pass, which states a
 task may have among the others, and which plans are accepted, each as an equivalence.
 */
module PlanRules {
  import opened Outcomes
  import opened Ordering
  import opened DependencyGraph
  import opened DelegationPlan

  // ----- numbered identifiers -----

  predicate AllDigits(digits: string) {
    forall i :: 0 <= i < |digits| ==> '0' <= digits[i] <= '9'
  }

  /** At least three digits, and no zero in front of more than three, that read as `n`. */
  ghost predicate IsPaddedNumber(digits: string, n: nat) {
    |digits| >= 3 && AllDigits(digits) && (|digits| > 3 ==> digits[0] != '0') && Value(digits) == n
  }

  lemma {:induction false} ValueOfDigits(digits: string)
    requires AllDigits(digits)
    ensures Value(digits) >= 0 && (digits != "" && digits[0] != '0' ==> Value(digits) >= 1)
  {
    if digits != "" { ValueOfDigits(digits[..|digits| - 1]); }
  }

  lemma {:induction false} DecimalDigits(n: nat)
    ensures Decimal(n) != "" && AllDigits(Decimal(n)) && (|Decimal(n)| > 1 ==> Decimal(n)[0] != '0') && (n > 0 ==> Decimal(n)[0] != '0')
  {
    if n >= 10 { DecimalDigits(n / 10); }
  }

  /** Digits without a zero in front are the decimal text of their value. */
  lemma {:induction false} DecimalOfValue(digits: string)
    requires digits != "" && AllDigits(digits) && (|digits| > 1 ==> digits[0] != '0')
    ensures Value(digits) >= 0 && Decimal(Value(digits)) == digits
  {
    var front, last := digits[..|digits| - 1], digits[|digits| - 1];
    ValueOfDigits(front);
    if front == "" {
      assert digits == [last];
    } else {
      DecimalOfValue(front);
      DigitAppended(Value(front), last);
      assert digits == front + [last];
    }
  }

  lemma DigitAppended(n: nat, last: char)
    requires n >= 1 && '0' <= last <= '9'
    ensures Decimal(n * 10 + (last as int - '0' as int)) == Decimal(n) + [last]
  {
    var d := last as int - '0' as int;
    assert (n * 10 + d) / 10 == n && (n * 10 + d) % 10 == d;
  }

  lemma ZeroInFront(digits: string)
    requires digits != "" && digits[0] == '0'
    ensures Value(digits) == Value(digits[1..])
  {
    assert digits == "0" + digits[1..];
    LeadingZero(digits[1..]);
  }

  lemma PaddedThree(digits: string)
    requires |digits| == 3 && AllDigits(digits)
    ensures Value(digits) >= 0 && Padded(Value(digits)) == digits
  {
    ValueOfDigits(digits);
    if digits[0] != '0' {
      DecimalOfValue(digits);
    } else if digits[1] != '0' {
      ZeroInFront(digits);
      DecimalOfValue(digits[1..]);
      assert digits == "0" + digits[1..];
    } else {
      ZeroInFront(digits);
      ZeroInFront(digits[1..]);
      assert digits[1..][1..] == digits[2..];
      DecimalOfValue(digits[2..]);
      assert digits == "00" + digits[2..];
    }
  }

  lemma PaddedExact(digits: string, n: nat)
    ensures digits == Padded(n) <==> IsPaddedNumber(digits, n)
  {
    PaddedValue(n);
    DecimalDigits(n);
    if IsPaddedNumber(digits, n) {
      if |digits| == 3 { PaddedThree(digits); } else { DecimalOfValue(digits); }
    }
  }

  ghost predicate IsNumbered(id: string, n: nat) {
    |id| >= 9 && id[..9] == "ZRM-TASK-" && IsPaddedNumber(id[9..], n)
  }

  /** A position's identifier is the prefix and its number, padded to three digits, and no other text. */
  lemma ExpectedIdExact(id: string, n: nat)
    ensures id == ExpectedId(n) <==> IsNumbered(id, n)
  {
    assert ExpectedId(n)[..9] == "ZRM-TASK-" && ExpectedId(n)[9..] == Padded(n);
    PaddedExact(Padded(n), n);
    if IsNumbered(id, n) {
      PaddedExact(id[9..], n);
      assert id == id[..9] + id[9..];
    }
  }

  // ----- one task -----

  /** The twenty-nine characters that count as white space, by code point. */
  lemma WhiteSpaceExact(c: char)
    ensures IsSpace(c)
            <==> c as int in {9, 10, 11, 12, 13, 28, 29, 30, 31, 32, 133, 160, 5760, 8192, 8193, 8194, 8195, 8196, 8197, 8198,
                              8199, 8200, 8201, 8202, 8232, 8233, 8239, 8287, 12288}
  {
  }

  /** Something is left of the text once it is stripped. */
  ghost predicate Says(text: string) {
    exists i :: 0 <= i < |text| && !IsSpace(text[i])
  }

  ghost predicate IsNameList(values: seq<string>) {
    && (forall i :: 0 <= i < |values| ==> Says(values[i]))
    && forall i, j :: 0 <= i < j < |values| ==> values[i] != values[j]
  }

  ghost predicate TierFits(task: Task) {
    && (task.state == ArchitectRequired ==> task.tier == Architect)
    && (task.state == HumanOnly ==> task.tier == HumanOrExternal)
    && (task.state == Blocked || task.state == Delegable ==> task.tier == BoundedImplementer || task.tier == MechanicalEvidence)
  }

  /** What one task must satisfy whatever the others are. */
  ghost predicate TaskMeets(task: Task) {
    && IsNameList(task.deps) && IsNameList(task.evidence) && TierFits(task)
    && (task.unresolved.Some? ==> Says(task.unresolved.value))
    && (task.state == ArchitectRequired ==> task.unresolved.Some?)
    && (task.state == Complete ==> task.unresolved == None && task.evidence != [])
  }

  lemma SaysExact(text: string)
    ensures Blank(text) <==> !Says(text)
  {
  }

  lemma ListExact(values: seq<string>)
    ensures IsStringList(values) <==> IsNameList(values)
  {
    forall i | 0 <= i < |values| ensures Blank(values[i]) <==> !Says(values[i]) { SaysExact(values[i]); }
  }

  /** One task passes iff it has the expected identifier and its own fields fit together. */
  lemma TaskExact(task: Task, expectedId: string)
    ensures CheckTask(task, expectedId).Ok? <==> task.id == expectedId && TaskMeets(task)
  {
    ListExact(task.deps);
    ListExact(task.evidence);
    if task.unresolved.Some? { SaysExact(task.unresolved.value); }
  }

  /** The first thing wrong with a task that does not pass, and that nothing checked earlier is wrong. */
  lemma TaskErrorExact(task: Task, expectedId: string)
    requires CheckTask(task, expectedId).Err?
    ensures var error := CheckTask(task, expectedId).error;
            if task.id != expectedId then error == UnexpectedId(expectedId)
            else if !IsNameList(task.deps) then error == MalformedDeps(task.id)
            else if task.unresolved.Some? && !Says(task.unresolved.value) then error == BlankUnresolved(task.id)
            else if !IsNameList(task.evidence) then error == MalformedEvidence(task.id)
            else if !TierFits(task) then error == TierMismatch(task.id)
            else if task.state == ArchitectRequired then error == NeedsUnresolved(task.id) && task.unresolved == None
            else if task.unresolved.Some? then error == RetainsUnresolved(task.id)
            else error == NeedsEvidence(task.id) && task.evidence == []
  {
    ListExact(task.deps);
    ListExact(task.evidence);
    if task.unresolved.Some? { SaysExact(task.unresolved.value); }
  }

  // ----- one task among the others -----

  /** Some task of the list has the identifier and is not complete. */
  ghost predicate Waits(tasks: seq<Task>, id: string) {
    exists t :: t in tasks && t.id == id && t.state != Complete
  }

  ghost predicate AllDone(tasks: seq<Task>, deps: seq<string>) {
    forall d :: d in deps ==> !Waits(tasks, d)
  }

  /** What a task's state asks of its dependencies, its oracle and the repository's files. */
  ghost predicate StateMeets(task: Task, tasks: seq<Task>, files: set<string>) {
    && (task.state == Delegable ==>
          && AllDone(tasks, task.deps) && task.unresolved == None && task.oracleAvailable
          && task.decision in files && task.oraclePath in files)
    && (task.state == Complete ==> AllDone(tasks, task.deps) && EvidenceStands(task, files))
    && (task.state == Blocked ==> task.unresolved.Some? || !AllDone(tasks, task.deps))
    && (task.oracleAvailable ==> task.oraclePath in files)
  }

  /** The dictionary holds exactly the tasks of the list, each under its own identifier. */
  ghost predicate Indexes(byId: map<string, Task>, tasks: seq<Task>) {
    && (forall id :: id in byId ==> byId[id] in tasks && byId[id].id == id)
    && forall t :: t in tasks ==> t.id in byId && byId[t.id] == t
  }

  lemma DoneExact(byId: map<string, Task>, tasks: seq<Task>, deps: seq<string>)
    requires Indexes(byId, tasks)
    ensures HasIncomplete(byId, deps) <==> !AllDone(tasks, deps)
  {
    forall d ensures Incomplete(byId, d) <==> Waits(tasks, d) { }
    if d :| d in deps && Waits(tasks, d) {
      var i :| 0 <= i < |deps| && deps[i] == d;
      assert Incomplete(byId, deps[i]);
    }
  }

  /** The evidence scan reports the first reference that names no file. */
  ghost predicate FirstMissing(task: Task, files: set<string>, from: nat, i: nat) {
    from <= i < |task.evidence| && task.evidence[i] !in files && forall j :: from <= j < i ==> task.evidence[j] in files
  }

  ghost predicate ReportsMissing(task: Task, files: set<string>, error: PlanError) {
    exists i: nat :: FirstMissing(task, files, 0, i) && error == MissingFile(task.id, task.evidence[i])
  }

  lemma {:induction false} EvidenceExact(task: Task, files: set<string>, from: nat)
    requires from <= |task.evidence|
    ensures match MissingEvidence(task, files, from)
            case Ok(_) => forall j :: from <= j < |task.evidence| ==> task.evidence[j] in files
            case Err(error) => exists i: nat :: FirstMissing(task, files, from, i) && error == MissingFile(task.id, task.evidence[i])
    decreases |task.evidence| - from
  {
    if from < |task.evidence| {
      EvidenceExact(task, files, from + 1);
      if task.evidence[from] !in files {
        assert FirstMissing(task, files, from, from);
      } else if MissingEvidence(task, files, from + 1).Err? {
        var i: nat :| FirstMissing(task, files, from + 1, i) && MissingEvidence(task, files, from + 1).error == MissingFile(task.id, task.evidence[i]);
        assert FirstMissing(task, files, from, i);
      }
    }
  }

  ghost predicate EvidenceStands(task: Task, files: set<string>) {
    forall e :: e in task.evidence ==> e in files
  }

  lemma EvidenceAccepts(task: Task, files: set<string>, from: nat)
    requires from == 0
    ensures MissingEvidence(task, files, from).Ok? <==> EvidenceStands(task, files)
  {
    EvidenceExact(task, files, from);
    if EvidenceStands(task, files) {
      forall j | 0 <= j < |task.evidence| ensures task.evidence[j] in files { assert task.evidence[j] in task.evidence; }
    }
  }

  /** A task's state passes iff its dependencies, oracle and files are as the state asks. */
  lemma StateExact(task: Task, byId: map<string, Task>, tasks: seq<Task>, files: set<string>)
    requires Indexes(byId, tasks)
    ensures CheckState(task, byId, files).Ok? <==> StateMeets(task, tasks, files)
  {
    DoneExact(byId, tasks, task.deps);
    EvidenceAccepts(task, files, 0);
  }

  /** The first thing wrong with a state that does not pass, and that nothing checked earlier is wrong. */
  lemma StateErrorExact(task: Task, byId: map<string, Task>, tasks: seq<Task>, files: set<string>)
    requires Indexes(byId, tasks) && CheckState(task, byId, files).Err?
    ensures var error := CheckState(task, byId, files).error;
            match task.state
            case Blocked =>
              if AllDone(tasks, task.deps) && task.unresolved == None then error == BlockedWithoutReason(task.id)
              else error == MissingFile(task.id, task.oraclePath) && task.oraclePath !in files
            case Delegable =>
              if !AllDone(tasks, task.deps) then error == PrematurelyDelegable(task.id)
              else if task.unresolved.Some? then error == DelegableUnresolved(task.id)
              else if !task.oracleAvailable then error == OracleUnavailable(task.id)
              else if task.decision !in files then error == MissingFile(task.id, task.decision)
              else error == MissingFile(task.id, task.oraclePath) && task.oraclePath !in files
            case Complete =>
              if !AllDone(tasks, task.deps) then error == PrematurelyComplete(task.id)
              else if EvidenceStands(task, files) then error == MissingFile(task.id, task.oraclePath) && task.oraclePath !in files
              else ReportsMissing(task, files, error)
            case _ => error == MissingFile(task.id, task.oraclePath) && task.oraclePath !in files
  {
    DoneExact(byId, tasks, task.deps);
    EvidenceAccepts(task, files, 0);
    EvidenceExact(task, files, 0);
  }

  // ----- the whole plan -----

  ghost predicate Knows(tasks: seq<Task>, id: string) {
    exists t :: t in tasks && t.id == id
  }

  /** Each task of the chain is one that the task before it depends on. */
  ghost predicate IsChain(tasks: seq<Task>, chain: seq<Task>) {
    && (forall k :: 0 <= k < |chain| ==> chain[k] in tasks)
    && forall k :: 0 <= k < |chain| - 1 ==> chain[k + 1].id in chain[k].deps
  }

  ghost predicate IsCircle(tasks: seq<Task>, chain: seq<Task>) {
    IsChain(tasks, chain) && |chain| >= 2 && chain[0] == chain[|chain| - 1]
  }

  /** Dependencies name tasks of the plan, and no chain of them comes back to where it began. */
  ghost predicate DepsMeet(tasks: seq<Task>) {
    (forall t, d :: t in tasks && d in t.deps ==> Knows(tasks, d)) && !exists chain :: IsCircle(tasks, chain)
  }

  lemma CircleReaches(tasks: seq<Task>, byId: map<string, Task>, g: Graph, chain: seq<Task>)
    requires SameTasks(tasks, byId, g) && IsCircle(tasks, chain)
    ensures !Acyclic(g)
  {
    var p := seq(|chain|, k requires 0 <= k < |chain| => chain[k].id);
    forall k | 0 <= k < |p| - 1 ensures p[k] in g && p[k + 1] in g[p[k]] { assert chain[k] in tasks; }
    assert Reaches(g, p[0], p[0]);
  }

  lemma CycleIsCircle(tasks: seq<Task>, byId: map<string, Task>, g: Graph, p: seq<string>)
    requires SameTasks(tasks, byId, g) && IsPath(g, p) && |p| >= 2 && p[0] == p[|p| - 1]
    ensures exists chain :: IsCircle(tasks, chain)
  {
    forall k | 0 <= k < |p| ensures p[k] in byId { if k < |p| - 1 { assert p[k] in g; } else { assert p[0] in g; } }
    var chain := seq(|p|, k requires 0 <= k < |p| => byId[p[k]]);
    forall k | 0 <= k < |chain| - 1 ensures chain[k + 1].id in chain[k].deps { assert p[k + 1] in g[p[k]]; }
    assert IsCircle(tasks, chain);
  }

  lemma CirclesExact(tasks: seq<Task>, byId: map<string, Task>, g: Graph)
    requires SameTasks(tasks, byId, g)
    ensures Acyclic(g) <==> !exists chain :: IsCircle(tasks, chain)
  {
    if n :| Reaches(g, n, n) {
      var p :| IsPath(g, p) && |p| >= 2 && p[0] == n && p[|p| - 1] == n;
      CycleIsCircle(tasks, byId, g, p);
    }
    if chain :| IsCircle(tasks, chain) { CircleReaches(tasks, byId, g, chain); }
  }

  lemma NodesKnow(tasks: seq<Task>, id: string)
    ensures id in Ids(NodesOf(tasks)) <==> Knows(tasks, id)
  {
    if t :| t in tasks && t.id == id {
      var i :| 0 <= i < |tasks| && tasks[i] == t;
      assert NodesOf(tasks)[i].id == id;
    }
    if i :| 0 <= i < |tasks| && NodesOf(tasks)[i].id == id { assert tasks[i] in tasks; }
  }

  lemma KnownExact(tasks: seq<Task>)
    ensures (forall n :: n in NodesOf(tasks) ==> Elements(n.dependencies) <= Ids(NodesOf(tasks)))
            <==> forall t, d :: t in tasks && d in t.deps ==> Knows(tasks, d)
  {
    var nodes := NodesOf(tasks);
    forall id ensures id in Ids(nodes) <==> Knows(tasks, id) { NodesKnow(tasks, id); }
    if forall n :: n in nodes ==> Elements(n.dependencies) <= Ids(nodes) {
      forall t, d | t in tasks && d in t.deps ensures Knows(tasks, d) {
        var i :| 0 <= i < |tasks| && tasks[i] == t;
        assert nodes[i] in nodes && d in Elements(nodes[i].dependencies);
      }
    }
  }

  lemma GraphExact(tasks: seq<Task>)
    requires DistinctIds(NodesOf(tasks))
    ensures Accepts(NodesOf(tasks)) <==> DepsMeet(tasks)
  {
    AcceptsKnownAcyclic(NodesOf(tasks));
    DistinctGivesSameTasks(tasks);
    CirclesExact(tasks, ById(tasks), GraphOf(NodesOf(tasks)));
    KnownExact(tasks);
  }

  /** Every task passes on its own and carries the number of its place, counted from one. */
  ghost predicate TasksMeet(tasks: seq<Task>) {
    forall i :: 0 <= i < |tasks| ==> IsNumbered(tasks[i].id, i + 1) && TaskMeets(tasks[i])
  }

  lemma TasksExact(tasks: seq<Task>)
    ensures CheckTasks(tasks).Ok? <==> TasksMeet(tasks)
  {
    CheckTasksAccepts(tasks);
    forall i | 0 <= i < |tasks|
      ensures CheckTask(tasks[i], ExpectedId(i + 1)).Ok? <==> IsNumbered(tasks[i].id, i + 1) && TaskMeets(tasks[i])
    {
      ExpectedIdExact(tasks[i].id, i + 1);
      TaskExact(tasks[i], ExpectedId(i + 1));
    }
  }

  ghost predicate StatesMeet(tasks: seq<Task>, files: set<string>) {
    forall t :: t in tasks ==> StateMeets(t, tasks, files)
  }

  lemma StatesExact(tasks: seq<Task>, byId: map<string, Task>, files: set<string>)
    requires Indexes(byId, tasks)
    ensures CheckStatesFrom(tasks, byId, files).Ok? <==> StatesMeet(tasks, files)
  {
    CheckStatesAccepts(tasks, byId, files);
    forall t | t in tasks ensures CheckState(t, byId, files).Ok? <==> StateMeets(t, tasks, files) {
      StateExact(t, byId, tasks, files);
    }
  }

  /** The first task whose state does not pass. */
  ghost predicate FirstFailing(tasks: seq<Task>, all: seq<Task>, files: set<string>, i: nat) {
    i < |tasks| && !StateMeets(tasks[i], all, files) && forall j :: 0 <= j < i ==> StateMeets(tasks[j], all, files)
  }

  /** The loop over the states fails with the error of the first task whose state does not pass. */
  lemma {:induction false} FirstFailureReported(tasks: seq<Task>, all: seq<Task>, byId: map<string, Task>, files: set<string>, i: nat)
    requires Indexes(byId, all) && FirstFailing(tasks, all, files, i)
    ensures CheckStatesFrom(tasks, byId, files) == CheckState(tasks[i], byId, files)
    decreases i
  {
    StateExact(tasks[0], byId, all, files);
    if i > 0 { FirstFailureReported(tasks[1..], all, byId, files, i - 1); }
  }

  // ----- the summaries -----

  /** `at` lists the places of the delegable tasks in order, and `ids` their identifiers. */
  ghost predicate ListsDelegable(tasks: seq<Task>, at: seq<nat>, ids: seq<string>) {
    && |at| == |ids| && Ascending(Earlier, at)
    && (forall i: nat :: i in at <==> i < |tasks| && tasks[i].state == Delegable)
    && forall k :: 0 <= k < |at| ==> at[k] < |tasks| && ids[k] == tasks[at[k]].id
  }

  predicate Earlier(a: nat, b: nat) {
    a < b
  }

  ghost predicate AreDelegable(tasks: seq<Task>, ids: seq<string>) {
    exists at :: ListsDelegable(tasks, at, ids)
  }

  lemma {:induction false} DelegablePlaces(tasks: seq<Task>) returns (at: seq<nat>)
    ensures ListsDelegable(tasks, at, DelegableIds(tasks))
  {
    at := [];
    if tasks != [] {
      var n := |tasks| - 1;
      at := DelegablePlaces(tasks[..n]);
      PlaceAppended(tasks, n, at, DelegableIds(tasks[..n]));
      if tasks[n].state == Delegable { at := at + [n]; }
    }
  }

  lemma PlaceAppended(tasks: seq<Task>, n: nat, at: seq<nat>, ids: seq<string>)
    requires n + 1 == |tasks| && ListsDelegable(tasks[..n], at, ids)
    ensures if tasks[n].state == Delegable then ListsDelegable(tasks, at + [n], ids + [tasks[n].id])
            else ListsDelegable(tasks, at, ids)
  {
    forall k | 0 <= k < |at| ensures at[k] < n && ids[k] == tasks[at[k]].id { assert at[k] in at; }
    forall i: nat ensures i in at <==> i < n && tasks[i].state == Delegable { }
  }

  lemma PlacesUnique(tasks: seq<Task>, at: seq<nat>, ids: seq<string>, at': seq<nat>, ids': seq<string>)
    requires ListsDelegable(tasks, at, ids) && ListsDelegable(tasks, at', ids')
    ensures ids == ids'
  {
    forall i: nat ensures i in at <==> i in at' { }
    AscendingUnique(Earlier, at, at');
  }

  lemma DelegableExact(tasks: seq<Task>, ids: seq<string>)
    ensures ids == DelegableIds(tasks) <==> AreDelegable(tasks, ids)
  {
    var at := DelegablePlaces(tasks);
    if at' :| ListsDelegable(tasks, at', ids) { PlacesUnique(tasks, at, DelegableIds(tasks), at', ids); }
  }

  ghost predicate AllKnown(tasks: seq<Task>, ids: seq<string>) {
    forall id :: id in ids ==> Knows(tasks, id)
  }

  ghost predicate AllComplete(tasks: seq<Task>, ids: seq<string>) {
    forall id :: id in ids ==> IsComplete(tasks, id)
  }

  /** What the summaries must say of the tasks. */
  ghost predicate SummariesMeet(plan: Plan) {
    && IsNameList(plan.handoffRequired) && plan.handoffRequired != [] && AllKnown(plan.tasks, plan.handoffRequired)
    && (plan.handoffReady <==> AllComplete(plan.tasks, plan.handoffRequired))
    && !plan.productionReady && plan.blanketDelegationReady == plan.handoffReady
    && IsNameList(plan.safeNow) && AreDelegable(plan.tasks, plan.safeNow)
  }

  lemma RequiredExact(tasks: seq<Task>, byId: map<string, Task>, ids: seq<string>)
    requires Indexes(byId, tasks)
    ensures (exists i :: 0 <= i < |ids| && ids[i] !in byId) <==> !AllKnown(tasks, ids)
    ensures AllKnown(tasks, ids) ==>
              (forall i :: 0 <= i < |ids| ==> ids[i] in byId)
              && ((forall i :: 0 <= i < |ids| ==> byId[ids[i]].state == Complete) <==> AllComplete(tasks, ids))
  {
    forall id ensures id in byId <==> Knows(tasks, id) { }
    forall id | id in byId ensures byId[id].state == Complete <==> IsComplete(tasks, id) { }
    forall i | 0 <= i < |ids| ensures ids[i] in ids { }
    if AllComplete(tasks, ids) { forall i | 0 <= i < |ids| ensures IsComplete(tasks, ids[i]) { assert ids[i] in ids; } }
  }

  /** The summaries pass iff they say of the tasks what is so, and otherwise the first wrong one is reported. */
  lemma SummariesExact(plan: Plan)
    requires Indexes(ById(plan.tasks), plan.tasks)
    ensures CheckSummaries(plan).Ok? <==> SummariesMeet(plan)
    ensures CheckSummaries(plan).Err? ==>
              var error := CheckSummaries(plan).error;
              if !IsNameList(plan.handoffRequired) || plan.handoffRequired == [] then error == MalformedHandoff
              else if !AllKnown(plan.tasks, plan.handoffRequired) then error == UnknownHandoffTasks
              else if plan.handoffReady != AllComplete(plan.tasks, plan.handoffRequired) then error == HandoffDisagrees
              else if plan.productionReady then error == ClaimsProduction
              else if plan.blanketDelegationReady != plan.handoffReady then error == BlanketDisagrees
              else if !IsNameList(plan.safeNow) then error == MalformedSafeNow
              else error == SafeNowDisagrees
  {
    ListExact(plan.handoffRequired);
    ListExact(plan.safeNow);
    RequiredExact(plan.tasks, ById(plan.tasks), plan.handoffRequired);
    DelegableExact(plan.tasks, plan.safeNow);
  }

  /** A plan is accepted iff its tasks, dependencies, states and summaries are all as they should be. */
  lemma AcceptanceExact(plan: Plan, files: set<string>)
    ensures AcceptedPlan(plan, files)
            <==> plan.tasks != [] && TasksMeet(plan.tasks) && DepsMeet(plan.tasks) && StatesMeet(plan.tasks, files) && SummariesMeet(plan)
  {
    TasksExact(plan.tasks);
    if CheckTasks(plan.tasks).Ok? {
      SequentialIdsDistinct(plan.tasks);
      DistinctGivesSameTasks(plan.tasks);
      GraphExact(plan.tasks);
      StatesExact(plan.tasks, ById(plan.tasks), files);
      SummariesExact(plan);
    }
  }
}
