/**
 Bounded canonical partition of resource identifiers into three roles, position lookup, and the
 binding of a resource body to its place. Identifiers are ordered by their bytes.
 */
module ResourceRoles {
  import opened Outcomes
  import opened Ordering
  import opened Bytes
  import opened IntrinsicResource

  type ResourceId = Nonzero32

  datatype Role = Consumed | Referenced | Created

  datatype Candidate = Candidate(consumed: seq<ResourceId>, referenced: seq<ResourceId>, created: seq<ResourceId>)

  /** The policy limits used here; a validated policy keeps each at 256 or below. */
  datatype Limits = Limits(maxConsumed: u16, maxReferenced: u16, maxCreated: u16)

  datatype Allocation = Allocation(consumed: bool, referenced: bool, created: bool)

  datatype PartitionError =
    | CountLimitExceeded(role: Role, maximum: u16)
    | CapacityUnavailable(role: Role)
    | DuplicateResourceId(role: Role)
    | ResourceRoleCollision(firstRole: Role, secondRole: Role)

  datatype Position = Position(resourceId: ResourceId, role: Role, ordinal: u32)

  datatype CanonicalRoles = CanonicalRoles(
    consumed: seq<ResourceId>,
    referenced: seq<ResourceId>,
    created: seq<ResourceId>,
    consumedCount: u16,
    referencedCount: u16,
    createdCount: u16)

  predicate IdLess(a: ResourceId, b: ResourceId) {
    LexLess(a, b)
  }

  lemma IdIsStrictTotal()
    ensures StrictTotal(IdLess)
  {
    LexIsStrictTotal();
  }

  /** The order of identifiers: the smaller byte at the first difference. */
  ghost predicate BytesBefore(a: ResourceId, b: ResourceId) {
    exists k :: 0 <= k < 32 && a[..k] == b[..k] && a[k] < b[k]
  }

  lemma IdLessExact(a: ResourceId, b: ResourceId)
    ensures IdLess(a, b) <==> BytesBefore(a, b)
  {
    var x: seq<int>, y: seq<int> := a, b;
    LexExact(x, y);
    if DiffersBelow(x, y) {
      var k :| 0 <= k < |x| && k < |y| && x[..k] == y[..k] && x[k] < y[k];
      assert a[..k] == b[..k] && a[k] < b[k];
    }
    if BytesBefore(a, b) {
      var k :| 0 <= k < 32 && a[..k] == b[..k] && a[k] < b[k];
      assert x[..k] == y[..k] && x[k] < y[k];
    }
  }

  function SaturatingSucc(n: u16): u16 {
    if n == 0xFFFF then 0xFFFF else n + 1
  }

  // ----- the pieces of construction -----

  function RoleCount(actual: nat, role: Role, maximum: u16): Result<u16, PartitionError> {
    if actual >= 0x1_0000 then Err(CountLimitExceeded(role, maximum))
    else if actual > maximum then Err(CountLimitExceeded(role, maximum))
    else Ok(actual)
  }

  method ValidateDuplicates(resources: seq<ResourceId>, role: Role) returns (r: Result<(), PartitionError>)
    ensures r == if Distinct(resources) then Ok(()) else Err(DuplicateResourceId(role))
  {
    var remaining := resources;
    ghost var seen := 0;
    while remaining != []
      invariant seen <= |resources| && remaining == resources[seen..]
      invariant forall i, j :: 0 <= i < seen && i < j < |resources| ==> resources[i] != resources[j]
      decreases |remaining|
    {
      var resourceId, tail := remaining[0], remaining[1..];
      if resourceId in tail {
        ghost var k :| 0 <= k < |tail| && tail[k] == resourceId;
        assert resources[seen] == resources[seen + 1 + k];
        return Err(DuplicateResourceId(role));
      }
      forall j | seen < j < |resources| ensures resources[seen] != resources[j] {
        assert tail[j - seen - 1] == resources[j];
      }
      remaining := tail;
      seen := seen + 1;
    }
    return Ok(());
  }

  ghost predicate Apart<T>(a: seq<T>, b: seq<T>) {
    forall x :: x in a ==> x !in b
  }

  method ValidateDisjoint(first: seq<ResourceId>, second: seq<ResourceId>, firstRole: Role, secondRole: Role)
    returns (r: Result<(), PartitionError>)
    ensures r == if Apart(first, second) then Ok(()) else Err(ResourceRoleCollision(firstRole, secondRole))
  {
    for i := 0 to |first|
      invariant forall j :: 0 <= j < i ==> first[j] !in second
    {
      if first[i] in second {
        return Err(ResourceRoleCollision(firstRole, secondRole));
      }
    }
    return Ok(());
  }

  /** The first place holding a greater identifier. The u16 cursor never saturates on a bounded list. */
  method InsertionPosition(resources: seq<ResourceId>, resourceId: ResourceId) returns (position: nat)
    requires |resources| <= 0xFFFF
    ensures position <= |resources|
    ensures forall k :: 0 <= k < position ==> !IdLess(resourceId, resources[k])
    ensures position < |resources| ==> IdLess(resourceId, resources[position])
  {
    var cursor: u16 := 0;
    while cursor < |resources| && !IdLess(resourceId, resources[cursor])
      invariant cursor <= |resources|
      invariant forall k :: 0 <= k < cursor ==> !IdLess(resourceId, resources[k])
      decreases |resources| - cursor
    {
      cursor := SaturatingSucc(cursor);
    }
    return cursor;
  }

  lemma {:induction false} InsertAt(s: seq<ResourceId>, x: ResourceId, position: nat)
    requires position <= |s| && forall k :: 0 <= k < position ==> !IdLess(x, s[k])
    requires position < |s| ==> IdLess(x, s[position])
    ensures Insert(IdLess, s, x) == s[..position] + [x] + s[position..]
  {
    if position > 0 {
      assert forall k :: 0 <= k < position - 1 ==> s[1..][k] == s[k + 1];
      InsertAt(s[1..], x, position - 1);
      assert s[..position] == [s[0]] + s[1..][..position - 1];
    }
  }

  method CopyAndSort(role: Role, candidates: seq<ResourceId>, capacityAvailable: bool) returns (r: Result<seq<ResourceId>, PartitionError>)
    requires |candidates| <= 0xFFFF
    ensures r == if capacityAvailable then Ok(Sort(IdLess, candidates)) else Err(CapacityUnavailable(role))
  {
    if !capacityAvailable {
      return Err(CapacityUnavailable(role));
    }
    var canonical: seq<ResourceId> := [];
    for i := 0 to |candidates|
      invariant canonical == Sort(IdLess, candidates[..i]) && |canonical| == i
    {
      var position := InsertionPosition(canonical, candidates[i]);
      InsertAt(canonical, candidates[i], position);
      assert candidates[..i + 1][..i] == candidates[..i];
      canonical := canonical[..position] + [candidates[i]] + canonical[position..];
    }
    assert candidates[..|candidates|] == candidates;
    return Ok(canonical);
  }

  // ----- construction -----

  /** Counts, duplicates, then collisions, each in role order; the first failure wins. */
  ghost function StructuralError(c: Candidate, limits: Limits): Option<PartitionError> {
    if |c.consumed| > limits.maxConsumed then Some(CountLimitExceeded(Consumed, limits.maxConsumed))
    else if |c.referenced| > limits.maxReferenced then Some(CountLimitExceeded(Referenced, limits.maxReferenced))
    else if |c.created| > limits.maxCreated then Some(CountLimitExceeded(Created, limits.maxCreated))
    else if !Distinct(c.consumed) then Some(DuplicateResourceId(Consumed))
    else if !Distinct(c.referenced) then Some(DuplicateResourceId(Referenced))
    else if !Distinct(c.created) then Some(DuplicateResourceId(Created))
    else if !Apart(c.consumed, c.referenced) then Some(ResourceRoleCollision(Consumed, Referenced))
    else if !Apart(c.consumed, c.created) then Some(ResourceRoleCollision(Consumed, Created))
    else if !Apart(c.referenced, c.created) then Some(ResourceRoleCollision(Referenced, Created))
    else None
  }

  ghost function CapacityError(allocation: Allocation): Option<PartitionError> {
    if !allocation.consumed then Some(CapacityUnavailable(Consumed))
    else if !allocation.referenced then Some(CapacityUnavailable(Referenced))
    else if !allocation.created then Some(CapacityUnavailable(Created))
    else None
  }

  /** What `TryNew` computes. */
  ghost function Partition(c: Candidate, limits: Limits, allocation: Allocation): Result<CanonicalRoles, PartitionError> {
    if StructuralError(c, limits).Some? then Err(StructuralError(c, limits).value)
    else if CapacityError(allocation).Some? then Err(CapacityError(allocation).value)
    else Ok(CanonicalRoles(Sort(IdLess, c.consumed), Sort(IdLess, c.referenced), Sort(IdLess, c.created),
                           |c.consumed|, |c.referenced|, |c.created|))
  }

  method TryNew(c: Candidate, limits: Limits, allocation: Allocation) returns (r: Result<CanonicalRoles, PartitionError>)
    ensures r == Partition(c, limits, allocation)
  {
    var consumedCount :- RoleCount(|c.consumed|, Consumed, limits.maxConsumed);
    var referencedCount :- RoleCount(|c.referenced|, Referenced, limits.maxReferenced);
    var createdCount :- RoleCount(|c.created|, Created, limits.maxCreated);
    var _ :- ValidateDuplicates(c.consumed, Consumed);
    var _ :- ValidateDuplicates(c.referenced, Referenced);
    var _ :- ValidateDuplicates(c.created, Created);
    var _ :- ValidateDisjoint(c.consumed, c.referenced, Consumed, Referenced);
    var _ :- ValidateDisjoint(c.consumed, c.created, Consumed, Created);
    var _ :- ValidateDisjoint(c.referenced, c.created, Referenced, Created);
    var consumed :- CopyAndSort(Consumed, c.consumed, allocation.consumed);
    var referenced :- CopyAndSort(Referenced, c.referenced, allocation.referenced);
    var created :- CopyAndSort(Created, c.created, allocation.created);
    return Ok(CanonicalRoles(consumed, referenced, created, consumedCount, referencedCount, createdCount));
  }

  /** What every constructed partition satisfies. */
  ghost predicate Canonical(p: CanonicalRoles) {
    && Ascending(IdLess, p.consumed) && Ascending(IdLess, p.referenced) && Ascending(IdLess, p.created)
    && Apart(p.consumed, p.referenced) && Apart(p.consumed, p.created) && Apart(p.referenced, p.created)
    && p.consumedCount == |p.consumed| && p.referencedCount == |p.referenced| && p.createdCount == |p.created|
  }

  /** Success gives strictly ascending, pairwise disjoint lists of exactly the proposed identifiers, within policy. */
  lemma PartitionIsCanonical(c: Candidate, limits: Limits, allocation: Allocation)
    requires Partition(c, limits, allocation).Ok?
    ensures var p := Partition(c, limits, allocation).value;
            && Canonical(p)
            && multiset(p.consumed) == multiset(c.consumed)
            && multiset(p.referenced) == multiset(c.referenced)
            && multiset(p.created) == multiset(c.created)
            && p.consumedCount <= limits.maxConsumed && p.referencedCount <= limits.maxReferenced && p.createdCount <= limits.maxCreated
  {
    IdIsStrictTotal();
    SortedRole(c.consumed);
    SortedRole(c.referenced);
    SortedRole(c.created);
  }

  ghost predicate IdsAscend(ids: seq<ResourceId>) {
    forall i, j :: 0 <= i < j < |ids| ==> BytesBefore(ids[i], ids[j])
  }

  lemma AscendingIds(ids: seq<ResourceId>)
    ensures Ascending(IdLess, ids) <==> IdsAscend(ids)
  {
    forall i, j | 0 <= i < j < |ids| ensures IdLess(ids[i], ids[j]) <==> BytesBefore(ids[i], ids[j]) {
      IdLessExact(ids[i], ids[j]);
    }
  }

  /** The lists of a partition ascend by bytes, the first difference deciding. */
  lemma PartitionAscendsByBytes(c: Candidate, limits: Limits, allocation: Allocation)
    requires Partition(c, limits, allocation).Ok?
    ensures var p := Partition(c, limits, allocation).value;
            IdsAscend(p.consumed) && IdsAscend(p.referenced) && IdsAscend(p.created)
  {
    PartitionIsCanonical(c, limits, allocation);
    var p := Partition(c, limits, allocation).value;
    AscendingIds(p.consumed);
    AscendingIds(p.referenced);
    AscendingIds(p.created);
  }

  /** Some identifier is listed twice. */
  ghost predicate Repeats(ids: seq<ResourceId>) {
    exists i, j :: 0 <= i < j < |ids| && ids[i] == ids[j]
  }

  /** Some identifier is in both lists. */
  ghost predicate Share(a: seq<ResourceId>, b: seq<ResourceId>) {
    exists i, j :: 0 <= i < |a| && 0 <= j < |b| && a[i] == b[j]
  }

  lemma RepeatsIff(ids: seq<ResourceId>)
    ensures Repeats(ids) <==> !Distinct(ids)
  {
  }

  lemma ShareIff(a: seq<ResourceId>, b: seq<ResourceId>)
    ensures Share(a, b) <==> !Apart(a, b)
  {
    if !Apart(a, b) {
      var x :| x in a && x in b;
      var i, j :| 0 <= i < |a| && 0 <= j < |b| && a[i] == x && b[j] == x;
      assert a[i] == b[j];
    }
    if i, j :| 0 <= i < |a| && 0 <= j < |b| && a[i] == b[j] { assert a[i] in a && a[i] in b; }
  }

  /** Which error is reported: counts before duplicates before collisions before storage, each in role order. */
  lemma FirstFailureReported(c: Candidate, limits: Limits, allocation: Allocation)
    ensures var r := Partition(c, limits, allocation);
            if |c.consumed| > limits.maxConsumed then r == Err(CountLimitExceeded(Consumed, limits.maxConsumed))
            else if |c.referenced| > limits.maxReferenced then r == Err(CountLimitExceeded(Referenced, limits.maxReferenced))
            else if |c.created| > limits.maxCreated then r == Err(CountLimitExceeded(Created, limits.maxCreated))
            else if Repeats(c.consumed) then r == Err(DuplicateResourceId(Consumed))
            else if Repeats(c.referenced) then r == Err(DuplicateResourceId(Referenced))
            else if Repeats(c.created) then r == Err(DuplicateResourceId(Created))
            else if Share(c.consumed, c.referenced) then r == Err(ResourceRoleCollision(Consumed, Referenced))
            else if Share(c.consumed, c.created) then r == Err(ResourceRoleCollision(Consumed, Created))
            else if Share(c.referenced, c.created) then r == Err(ResourceRoleCollision(Referenced, Created))
            else if !allocation.consumed then r == Err(CapacityUnavailable(Consumed))
            else if !allocation.referenced then r == Err(CapacityUnavailable(Referenced))
            else if !allocation.created then r == Err(CapacityUnavailable(Created))
            else r.Ok?
  {
    RepeatsIff(c.consumed);
    RepeatsIff(c.referenced);
    RepeatsIff(c.created);
    ShareIff(c.consumed, c.referenced);
    ShareIff(c.consumed, c.created);
    ShareIff(c.referenced, c.created);
  }

  lemma SortedRole(ids: seq<ResourceId>)
    requires Distinct(ids)
    ensures Ascending(IdLess, Sort(IdLess, ids)) && |Sort(IdLess, ids)| == |ids|
    ensures multiset(Sort(IdLess, ids)) == multiset(ids)
    ensures forall x :: x in Sort(IdLess, ids) <==> x in ids
  {
    IdIsStrictTotal();
    SortDistinct(IdLess, ids);
    SortProperties(IdLess, ids);
    forall x ensures x in Sort(IdLess, ids) <==> x in ids {
      assert x in Elements(Sort(IdLess, ids)) <==> x in Elements(ids);
    }
  }

  /** Both verdict and value ignore the order in which identifiers are proposed. */
  lemma PartitionIgnoresOrder(c: Candidate, d: Candidate, limits: Limits, allocation: Allocation)
    requires multiset(c.consumed) == multiset(d.consumed)
    requires multiset(c.referenced) == multiset(d.referenced)
    requires multiset(c.created) == multiset(d.created)
    ensures Partition(c, limits, allocation) == Partition(d, limits, allocation)
  {
    SameRole(c.consumed, d.consumed);
    SameRole(c.referenced, d.referenced);
    SameRole(c.created, d.created);
  }

  lemma SameRole(a: seq<ResourceId>, b: seq<ResourceId>)
    requires multiset(a) == multiset(b)
    ensures |a| == |b| && (Distinct(a) <==> Distinct(b)) && Sort(IdLess, a) == Sort(IdLess, b)
    ensures forall x :: x in a <==> x in b
  {
    IdIsStrictTotal();
    SameElements(a, b);
    DistinctCounts(a);
    DistinctCounts(b);
    SortUnique(IdLess, a, b);
    forall x ensures x in a <==> x in b { assert x in Elements(a) <==> x in Elements(b); }
  }

  // ----- positions -----

  method PositionIn(role: Role, resources: seq<ResourceId>, resourceId: ResourceId) returns (r: Option<Position>)
    requires |resources| <= 0xFFFF
    ensures r.None? <==> resourceId !in resources
    ensures r.Some? ==>
              var i := r.value.ordinal;
              r.value.role == role && r.value.resourceId == resourceId
              && i < |resources| && resources[i] == resourceId && resourceId !in resources[..i]
  {
    var ordinal: u16 := 0;
    while ordinal < |resources|
      invariant ordinal <= |resources|
      invariant resourceId !in resources[..ordinal]
      decreases |resources| - ordinal
    {
      if resources[ordinal] == resourceId {
        return Some(Position(resources[ordinal], role, ordinal));
      }
      ordinal := SaturatingSucc(ordinal);
    }
    return None;
  }

  function Ids(p: CanonicalRoles, role: Role): seq<ResourceId> {
    match role
    case Consumed => p.consumed
    case Referenced => p.referenced
    case Created => p.created
  }

  function Count(p: CanonicalRoles, role: Role): u16 {
    match role
    case Consumed => p.consumedCount
    case Referenced => p.referencedCount
    case Created => p.createdCount
  }

  predicate Present(p: CanonicalRoles, id: ResourceId) {
    id in p.consumed || id in p.referenced || id in p.created
  }

  /** `position` names the place where `id` stands. */
  ghost predicate PlacedAt(p: CanonicalRoles, id: ResourceId, position: Position) {
    && position.resourceId == id
    && position.ordinal < |Ids(p, position.role)|
    && Ids(p, position.role)[position.ordinal] == id
  }

  ghost predicate StandsIn(ids: seq<ResourceId>, id: ResourceId, ordinal: u32) {
    ordinal < |ids| && ids[ordinal] == id
  }

  /** The place is in the consumed, the referenced or the created list, as its role says, at its ordinal counted from zero. */
  lemma PlaceExact(p: CanonicalRoles, id: ResourceId, position: Position)
    ensures PlacedAt(p, id, position)
            <==> && position.resourceId == id
                 && (position.role == Consumed ==> StandsIn(p.consumed, id, position.ordinal))
                 && (position.role == Referenced ==> StandsIn(p.referenced, id, position.ordinal))
                 && (position.role == Created ==> StandsIn(p.created, id, position.ordinal))
  {
  }

  method PositionOf(p: CanonicalRoles, resourceId: ResourceId) returns (r: Option<Position>)
    requires Canonical(p)
    ensures r.Some? <==> Present(p, resourceId)
    ensures r.Some? ==> PlacedAt(p, resourceId, r.value)
  {
    r := PositionIn(Consumed, p.consumed, resourceId);
    if r.None? {
      r := PositionIn(Referenced, p.referenced, resourceId);
      if r.None? {
        r := PositionIn(Created, p.created, resourceId);
      }
    }
  }

  lemma NoRepeats(ids: seq<ResourceId>, i: nat, j: nat)
    requires Ascending(IdLess, ids) && i < |ids| && j < |ids| && ids[i] == ids[j]
    ensures i == j
  {
    IdIsStrictTotal();
    AscendingIsSortedDistinct(IdLess, ids);
  }

  /** An identifier stands in one place only, so the postconditions of `PositionOf` fix its result. */
  lemma PlaceIsUnique(p: CanonicalRoles, id: ResourceId, a: Position, b: Position)
    requires Canonical(p) && PlacedAt(p, id, a) && PlacedAt(p, id, b)
    ensures a == b
  {
    assert id in Ids(p, a.role) && id in Ids(p, b.role);
    assert a.role == b.role;
    NoRepeats(Ids(p, a.role), a.ordinal, b.ordinal);
  }

  /** Every (role, ordinal below the role's count) pair is the place of exactly one identifier. */
  lemma EveryPlaceIsTaken(p: CanonicalRoles, role: Role, ordinal: u32)
    requires Canonical(p)
    ensures ordinal < Count(p, role) <==> exists id :: PlacedAt(p, id, Position(id, role, ordinal))
    ensures forall x, y :: PlacedAt(p, x, Position(x, role, ordinal)) && PlacedAt(p, y, Position(y, role, ordinal)) ==> x == y
  {
    if ordinal < Count(p, role) {
      var id := Ids(p, role)[ordinal];
      assert PlacedAt(p, id, Position(id, role, ordinal));
    }
  }

  /** The ordinal is the number of identifiers of the role that are smaller. */
  lemma OrdinalCountsSmaller(p: CanonicalRoles, id: ResourceId, position: Position)
    requires Canonical(p) && PlacedAt(p, id, position)
    ensures |set x | x in Ids(p, position.role) && IdLess(x, id)| == position.ordinal
  {
    var ids := Ids(p, position.role);
    var prefix := ids[..position.ordinal];
    SmallerComeFirst(ids, position.ordinal);
    DistinctCounts(prefix);
  }

  lemma SmallerComeFirst(ids: seq<ResourceId>, i: nat)
    requires Ascending(IdLess, ids) && i < |ids|
    ensures Distinct(ids[..i])
    ensures Elements(ids[..i]) == set x | x in ids && IdLess(x, ids[i])
  {
    var smaller := set x | x in ids && IdLess(x, ids[i]);
    IdIsStrictTotal();
    forall k | 0 <= k < |ids| ensures k < i <==> IdLess(ids[k], ids[i]) { OrderOfPlaces(IdLess, ids, k, i); }
    forall j, k | 0 <= j < k < i ensures ids[..i][j] != ids[..i][k] { OrderOfPlaces(IdLess, ids, k, j); }
    forall x | x in smaller ensures x in ids[..i] {
      var k :| 0 <= k < |ids| && ids[k] == x;
      assert ids[..i][k] == x;
    }
  }

  // ----- binding a body -----

  datatype BindingError = ResourceAbsentFromRoles

  datatype BoundResource = BoundResource(resource: Resource, position: Position)

  /** The lookup key is always the body's own derived identifier. */
  method BindIntrinsic(p: CanonicalRoles, resource: Resource) returns (r: Result<BoundResource, BindingError>)
    requires Canonical(p)
    ensures r.Ok? <==> Present(p, resource.resourceId)
    ensures r.Ok? ==> r.value.resource == resource && PlacedAt(p, resource.resourceId, r.value.position)
  {
    var position := PositionOf(p, resource.resourceId);
    if position.None? {
      return Err(ResourceAbsentFromRoles);
    }
    return Ok(BoundResource(resource, position.value));
  }
}
