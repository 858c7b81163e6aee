/**
 Strict total orders, the lexicographic orders used by the repository (text by code point,
 identifiers by byte), and sorting. Sorted results are unique, which is what turns equal
 contents into equal sequences everywhere else.
 */
module Ordering {

  // ----- orders -----

  ghost predicate StrictTotal<T(!new)>(less: (T, T) -> bool) {
    && (forall x :: !less(x, x))
    && (forall x, y, z :: less(x, y) && less(y, z) ==> less(x, z))
    && (forall x, y :: x == y || less(x, y) || less(y, x))
  }

  predicate LexLess(a: seq<int>, b: seq<int>) {
    b != [] && (a == [] || a[0] < b[0] || (a[0] == b[0] && LexLess(a[1..], b[1..])))
  }

  lemma {:induction false} LexIrreflexive(a: seq<int>)
    ensures !LexLess(a, a)
  {
    if a != [] { LexIrreflexive(a[1..]); }
  }

  lemma {:induction false} LexTransitive(a: seq<int>, b: seq<int>, c: seq<int>)
    requires LexLess(a, b) && LexLess(b, c)
    ensures LexLess(a, c)
  {
    if a != [] && a[0] == b[0] == c[0] { LexTransitive(a[1..], b[1..], c[1..]); }
  }

  lemma {:induction false} LexTotal(a: seq<int>, b: seq<int>)
    ensures a == b || LexLess(a, b) || LexLess(b, a)
  {
    if a != [] && b != [] && a[0] == b[0] {
      LexTotal(a[1..], b[1..]);
      if a[1..] == b[1..] { assert a == [a[0]] + a[1..] == b; }
    }
  }

  lemma LexIsStrictTotal()
    ensures StrictTotal(LexLess)
  {
    forall x { LexIrreflexive(x); }
    forall x, y, z | LexLess(x, y) && LexLess(y, z) { LexTransitive(x, y, z); }
    forall x, y ensures x == y || LexLess(x, y) || LexLess(y, x) { LexTotal(x, y); }
  }

  function Codes(s: string): (r: seq<int>)
    ensures |r| == |s| && forall i :: 0 <= i < |s| ==> r[i] == s[i] as int
  {
    seq(|s|, i requires 0 <= i < |s| => s[i] as int)
  }

  lemma CodesInjective(a: string, b: string)
    requires Codes(a) == Codes(b)
    ensures a == b
  {
    assert |a| == |b|;
    forall i | 0 <= i < |a| ensures a[i] == b[i] {
      assert Codes(a)[i] == Codes(b)[i];
    }
  }

  /** Order of text by code point. */
  predicate TextLess(a: string, b: string) {
    LexLess(Codes(a), Codes(b))
  }

  lemma TextIsStrictTotal()
    ensures StrictTotal(TextLess)
  {
    forall x { LexIrreflexive(Codes(x)); }
    forall x, y, z | TextLess(x, y) && TextLess(y, z) { LexTransitive(Codes(x), Codes(y), Codes(z)); }
    forall x, y ensures x == y || TextLess(x, y) || TextLess(y, x) {
      LexTotal(Codes(x), Codes(y));
      if Codes(x) == Codes(y) { CodesInjective(x, y); }
    }
  }

  // ----- what the orders are -----

  /** The sequences agree up to some place, and there `a` holds the smaller number. */
  ghost predicate DiffersBelow(a: seq<int>, b: seq<int>) {
    exists k :: 0 <= k < |a| && k < |b| && a[..k] == b[..k] && a[k] < b[k]
  }

  lemma DiffersBelowTail(a: seq<int>, b: seq<int>)
    requires a != [] && b != [] && a[0] == b[0]
    ensures DiffersBelow(a, b) <==> DiffersBelow(a[1..], b[1..])
  {
    if DiffersBelow(a, b) {
      var k :| 0 <= k < |a| && k < |b| && a[..k] == b[..k] && a[k] < b[k];
      assert a[1..][..k - 1] == a[..k][1..] && b[1..][..k - 1] == b[..k][1..];
      assert a[1..][k - 1] < b[1..][k - 1];
    }
    if DiffersBelow(a[1..], b[1..]) {
      var k :| 0 <= k < |a[1..]| && k < |b[1..]| && a[1..][..k] == b[1..][..k] && a[1..][k] < b[1..][k];
      assert a[..k + 1] == [a[0]] + a[1..][..k] && b[..k + 1] == [b[0]] + b[1..][..k];
      assert a[k + 1] < b[k + 1];
    }
  }

  lemma PrefixTail(a: seq<int>, b: seq<int>)
    requires a != [] && b != [] && a[0] == b[0]
    ensures |a| < |b| && a == b[..|a|] <==> |a[1..]| < |b[1..]| && a[1..] == b[1..][..|a[1..]|]
  {
    if |a| < |b| {
      assert b[..|a|] == [b[0]] + b[1..][..|a| - 1];
      assert a == [a[0]] + a[1..];
    }
  }

  /** Smaller at the first difference, or a proper prefix. */
  lemma {:induction false} LexExact(a: seq<int>, b: seq<int>)
    ensures LexLess(a, b) <==> DiffersBelow(a, b) || (|a| < |b| && a == b[..|a|])
  {
    if a == [] || b == [] {
    } else if a[0] == b[0] {
      LexExact(a[1..], b[1..]);
      DiffersBelowTail(a, b);
      PrefixTail(a, b);
    } else {
      DifferentHeads(a, b);
    }
  }

  lemma DifferentHeads(a: seq<int>, b: seq<int>)
    requires a != [] && b != [] && a[0] != b[0]
    ensures DiffersBelow(a, b) <==> a[0] < b[0]
    ensures !(|a| < |b| && a == b[..|a|])
  {
    if a[0] < b[0] { assert a[..0] == b[..0]; }
    if k :| 0 <= k < |a| && k < |b| && a[..k] == b[..k] && a[k] < b[k] {
      if k > 0 { assert a[..k][0] == b[..k][0]; }
    }
  }

  /** Smaller code point at the first difference, or a proper prefix. */
  ghost predicate TextBefore(a: string, b: string) {
    || (|a| < |b| && a == b[..|a|])
    || exists k :: 0 <= k < |a| && k < |b| && a[..k] == b[..k] && a[k] < b[k]
  }

  lemma CodesPrefix(a: string, b: string, k: nat)
    requires k <= |a| && k <= |b|
    ensures Codes(a)[..k] == Codes(b)[..k] <==> a[..k] == b[..k]
  {
    if Codes(a)[..k] == Codes(b)[..k] {
      forall i | 0 <= i < k ensures a[i] == b[i] { assert Codes(a)[..k][i] == Codes(b)[..k][i]; }
    } else if a[..k] == b[..k] {
      forall i | 0 <= i < k ensures Codes(a)[i] == Codes(b)[i] { assert a[..k][i] == b[..k][i]; }
    }
  }

  lemma TextLessExact(a: string, b: string)
    ensures TextLess(a, b) <==> TextBefore(a, b)
  {
    var ca, cb := Codes(a), Codes(b);
    LexExact(ca, cb);
    if |a| < |b| {
      CodesPrefix(a, b, |a|);
      assert a[..|a|] == a && ca[..|a|] == ca;
    }
    forall k | 0 <= k < |a| && k < |b|
      ensures ca[..k] == cb[..k] && ca[k] < cb[k] <==> a[..k] == b[..k] && a[k] < b[k]
    {
      CodesPrefix(a, b, k);
    }
    if DiffersBelow(ca, cb) {
      var k :| 0 <= k < |ca| && k < |cb| && ca[..k] == cb[..k] && ca[k] < cb[k];
      assert a[..k] == b[..k] && a[k] < b[k];
    }
    if k :| 0 <= k < |a| && k < |b| && a[..k] == b[..k] && a[k] < b[k] {
      assert ca[..k] == cb[..k] && ca[k] < cb[k];
    }
  }

  /** Each text stands before every later one. */
  ghost predicate TextsAscend(s: seq<string>) {
    forall i, j :: 0 <= i < j < |s| ==> TextBefore(s[i], s[j])
  }

  lemma AscendingTexts(s: seq<string>)
    ensures Ascending(TextLess, s) <==> TextsAscend(s)
  {
    forall i, j | 0 <= i < j < |s| ensures TextLess(s[i], s[j]) <==> TextBefore(s[i], s[j]) { TextLessExact(s[i], s[j]); }
  }

  // ----- sorted sequences -----

  function Elements<T>(s: seq<T>): set<T> {
    set x | x in s
  }

  predicate Distinct<T(==)>(s: seq<T>) {
    forall i, j :: 0 <= i < j < |s| ==> s[i] != s[j]
  }

  /** Strictly ascending. */
  predicate Ascending<T>(less: (T, T) -> bool, s: seq<T>) {
    forall i, j :: 0 <= i < j < |s| ==> less(s[i], s[j])
  }

  /** Sorted, with equal neighbours allowed. */
  predicate Nondescending<T>(less: (T, T) -> bool, s: seq<T>) {
    forall i, j :: 0 <= i < j < |s| ==> !less(s[j], s[i])
  }

  function Insert<T>(less: (T, T) -> bool, s: seq<T>, x: T): seq<T> {
    if s == [] || less(x, s[0]) then [x] + s else [s[0]] + Insert(less, s[1..], x)
  }

  function Sort<T>(less: (T, T) -> bool, s: seq<T>): seq<T> {
    if s == [] then [] else Insert(less, Sort(less, s[..|s| - 1]), s[|s| - 1])
  }

  lemma {:induction false} InsertContents<T>(less: (T, T) -> bool, s: seq<T>, x: T)
    ensures multiset(Insert(less, s, x)) == multiset(s) + multiset{x}
  {
    if s != [] && !less(x, s[0]) {
      InsertContents(less, s[1..], x);
      assert s == [s[0]] + s[1..];
    }
  }

  lemma HeadIsLeast<T(!new)>(less: (T, T) -> bool, s: seq<T>, x: T)
    requires StrictTotal(less) && Nondescending(less, s) && x in s
    ensures !less(x, s[0])
  {
    var i :| 0 <= i < |s| && s[i] == x;
  }

  lemma {:induction false} InsertSorted<T(!new)>(less: (T, T) -> bool, s: seq<T>, x: T)
    requires StrictTotal(less) && Nondescending(less, s)
    ensures Nondescending(less, Insert(less, s, x))
  {
    if s == [] || less(x, s[0]) {
      forall j | 0 <= j < |s| ensures !less(s[j], x) {
        HeadIsLeast(less, s, s[j]);
      }
    } else {
      var t := Insert(less, s[1..], x);
      InsertSorted(less, s[1..], x);
      forall y | y in t ensures !less(y, s[0]) {
        InsertContents(less, s[1..], x);
        assert y in multiset(t);
        if y != x { assert y in multiset(s[1..]); var k :| 0 <= k < |s[1..]| && s[1..][k] == y; assert s[k + 1] == y; }
      }
    }
  }

  lemma {:induction false} SortProperties<T(!new)>(less: (T, T) -> bool, s: seq<T>)
    requires StrictTotal(less)
    ensures multiset(Sort(less, s)) == multiset(s)
    ensures Nondescending(less, Sort(less, s))
  {
    if s != [] {
      var n := |s| - 1;
      SortProperties(less, s[..n]);
      InsertContents(less, Sort(less, s[..n]), s[n]);
      InsertSorted(less, Sort(less, s[..n]), s[n]);
      assert s == s[..n] + [s[n]];
    }
  }

  lemma SameElements<T>(s: seq<T>, t: seq<T>)
    requires multiset(s) == multiset(t)
    ensures |s| == |t| && Elements(s) == Elements(t)
  {
    assert |multiset(s)| == |s| && |multiset(t)| == |t|;
    forall x ensures x in s <==> x in t {
      assert x in s <==> x in multiset(s);
      assert x in t <==> x in multiset(t);
    }
  }

  lemma TailContents<T>(s: seq<T>)
    requires s != []
    ensures s == [s[0]] + s[1..]
    ensures multiset(s[1..]) == multiset(s) - multiset{s[0]}
  {
    assert s == [s[0]] + s[1..];
  }

  lemma {:induction false} NondescendingUnique<T(!new)>(less: (T, T) -> bool, s: seq<T>, t: seq<T>)
    requires StrictTotal(less) && Nondescending(less, s) && Nondescending(less, t)
    requires multiset(s) == multiset(t)
    ensures s == t
  {
    SameElements(s, t);
    if s != [] {
      assert s[0] in Elements(t) && t[0] in Elements(s);
      HeadIsLeast(less, t, s[0]);
      HeadIsLeast(less, s, t[0]);
      TailContents(s);
      TailContents(t);
      NondescendingUnique(less, s[1..], t[1..]);
    }
  }

  /** Sorting depends on the contents alone, and leaves sorted input as it is. */
  lemma SortUnique<T(!new)>(less: (T, T) -> bool, s: seq<T>, t: seq<T>)
    requires StrictTotal(less) && multiset(s) == multiset(t)
    ensures Sort(less, s) == Sort(less, t)
    ensures Nondescending(less, t) ==> Sort(less, s) == t
  {
    SortProperties(less, s);
    SortProperties(less, t);
    NondescendingUnique(less, Sort(less, s), Sort(less, t));
    if Nondescending(less, t) { NondescendingUnique(less, Sort(less, s), t); }
  }

  lemma SortFixpoint<T(!new)>(less: (T, T) -> bool, s: seq<T>)
    requires StrictTotal(less)
    ensures Sort(less, s) == s <==> Nondescending(less, s)
  {
    SortProperties(less, s);
    SortUnique(less, s, s);
  }

  lemma AscendingIsSortedDistinct<T(!new)>(less: (T, T) -> bool, s: seq<T>)
    requires StrictTotal(less)
    ensures Ascending(less, s) <==> Nondescending(less, s) && Distinct(s)
  {
  }

  lemma OrderOfPlaces<T(!new)>(less: (T, T) -> bool, s: seq<T>, k: nat, i: nat)
    requires StrictTotal(less) && Ascending(less, s) && i < |s| && k < |s|
    ensures k < i <==> less(s[k], s[i])
    ensures k != i ==> s[k] != s[i]
  {
  }

  lemma DistinctInit<T>(s: seq<T>)
    requires s != []
    ensures var n := |s| - 1; Distinct(s) <==> Distinct(s[..n]) && s[n] !in s[..n]
  {
    var n := |s| - 1;
    var r := s[..n];
    if Distinct(r) && s[n] !in r {
      forall i, j | 0 <= i < j < |s| ensures s[i] != s[j] { assert s[i] == r[i] && (j < n ==> s[j] == r[j]); }
    }
  }

  lemma {:induction false} DistinctCardinality<T>(s: seq<T>)
    ensures |Elements(s)| <= |s|
    ensures Distinct(s) <==> |Elements(s)| == |s|
  {
    if s != [] {
      var n := |s| - 1;
      DistinctCardinality(s[..n]);
      DistinctInit(s);
      assert Elements(s) == Elements(s[..n]) + {s[n]};
    }
  }

  lemma LastMultiplicity<T>(s: seq<T>, x: T)
    requires s != []
    ensures var n := |s| - 1; multiset(s)[x] == multiset(s[..n])[x] + if x == s[n] then 1 else 0
  {
    assert s == s[..|s| - 1] + [s[|s| - 1]];
  }

  lemma {:induction false} DistinctMultiplicity<T>(s: seq<T>, x: T)
    requires Distinct(s) && x in s
    ensures multiset(s)[x] == 1
  {
    var n := |s| - 1;
    DistinctInit(s);
    LastMultiplicity(s, x);
    if x in s[..n] {
      DistinctMultiplicity(s[..n], x);
    } else {
      assert x !in multiset(s[..n]);
    }
  }

  lemma {:induction false} RepeatMultiplicity<T>(s: seq<T>) returns (x: T)
    requires !Distinct(s)
    ensures x in s && multiset(s)[x] >= 2
  {
    var n := |s| - 1;
    DistinctInit(s);
    if s[n] in s[..n] {
      x := s[n];
      assert x in multiset(s[..n]);
    } else {
      x := RepeatMultiplicity(s[..n]);
    }
    LastMultiplicity(s, x);
  }

  lemma DistinctCounts<T>(s: seq<T>)
    ensures Distinct(s) <==> forall x :: x in s ==> multiset(s)[x] == 1
    ensures |Elements(s)| <= |s|
    ensures Distinct(s) <==> |Elements(s)| == |s|
  {
    DistinctCardinality(s);
    if Distinct(s) {
      forall x | x in s ensures multiset(s)[x] == 1 { DistinctMultiplicity(s, x); }
    } else {
      var x := RepeatMultiplicity(s);
    }
  }

  lemma NoElements<T>(s: seq<T>)
    ensures s == [] <==> Elements(s) == {}
  {
    if s != [] { assert s[0] in Elements(s); }
  }

  /** A strictly ascending sequence is determined by its set of elements. */
  lemma {:induction false} AscendingUnique<T(!new)>(less: (T, T) -> bool, s: seq<T>, t: seq<T>)
    requires StrictTotal(less) && Ascending(less, s) && Ascending(less, t)
    requires Elements(s) == Elements(t)
    ensures s == t
  {
    NoElements(s);
    NoElements(t);
    if s != [] && t != [] {
      assert s[0] in Elements(t) && t[0] in Elements(s);
      AscendingIsSortedDistinct(less, s);
      AscendingIsSortedDistinct(less, t);
      HeadIsLeast(less, t, s[0]);
      HeadIsLeast(less, s, t[0]);
      assert Elements(s[1..]) == Elements(s) - {s[0]};
      assert Elements(t[1..]) == Elements(t) - {t[0]};
      AscendingUnique(less, s[1..], t[1..]);
    }
  }

  /** Sorting a duplicate-free sequence gives the ascending sequence of its elements. */
  lemma SortDistinct<T(!new)>(less: (T, T) -> bool, s: seq<T>)
    requires StrictTotal(less) && Distinct(s)
    ensures Ascending(less, Sort(less, s)) && Elements(Sort(less, s)) == Elements(s) && |Sort(less, s)| == |s|
  {
    SortProperties(less, s);
    SameElements(s, Sort(less, s));
    DistinctCounts(s);
    DistinctCounts(Sort(less, s));
    AscendingIsSortedDistinct(less, Sort(less, s));
  }
}
