/**
 A composition carrier of nonzero residues that refuses the additive identity, and the search
 for two bracketings that disagree about being defined.
 */
module ScalarCarrier {
  import opened Outcomes

  datatype CarrierError = ModulusTooSmall | NotNonzeroResidue | NoCounterexample

  function ComposeNonzero(left: int, right: int, modulus: int): Result<Option<int>, CarrierError> {
    if modulus <= 1 then Err(ModulusTooSmall)
    else if !(0 < left < modulus && 0 < right < modulus) then Err(NotNonzeroResidue)
    else
      var result := (left + right) % modulus;
      Ok(if result == 0 then None else Some(result))
  }

  function Parenthesizations(a: int, b: int, c: int, modulus: int): Result<(Option<int>, Option<int>), CarrierError> {
    var leftFirst :- ComposeNonzero(a, b, modulus);
    var left :- if leftFirst == None then Ok(None) else ComposeNonzero(leftFirst.value, c, modulus);
    var rightFirst :- ComposeNonzero(b, c, modulus);
    var right :- if rightFirst == None then Ok(None) else ComposeNonzero(a, rightFirst.value, modulus);
    Ok((left, right))
  }

  /** Two numbers compose iff both are nonzero residues, to their residue or, when that is zero, to nothing. */
  lemma ComposeExact(left: int, right: int, modulus: int)
    ensures ComposeNonzero(left, right, modulus)
            == if modulus < 2 then Err(ModulusTooSmall)
               else if left <= 0 || left >= modulus || right <= 0 || right >= modulus then Err(NotNonzeroResidue)
               else if left + right == modulus then Ok(None)
               else Ok(Some(if left + right < modulus then left + right else left + right - modulus))
  {
    if 0 < left < modulus && 0 < right < modulus { PairSum(left, right, modulus); }
  }

  lemma SmallMultiple(k: int, m: int)
    requires m > 0
    ensures -m < k * m < m ==> k == 0
  {
    if k >= 1 { assert k * m >= m; }
    if k <= -1 { assert (-k) * m >= m; }
  }

  lemma ModUnique(x: int, m: int, q: int, r: int)
    requires 0 <= r < m && x == q * m + r
    ensures x % m == r
  {
    var k := x / m - q;
    assert k * m == (x / m) * m - q * m == r - x % m;
    SmallMultiple(k, m);
  }

  /** Residue of a sum of three residues, without division. */
  lemma ModOfThree(x: int, m: int)
    requires m > 0 && 0 <= x < 3 * m
    ensures x % m == if x < m then x else if x < 2 * m then x - m else x - 2 * m
  {
    if x < m {
      ModUnique(x, m, 0, x);
    } else if x < 2 * m {
      ModUnique(x, m, 1, x - m);
    } else {
      ModUnique(x, m, 2, x - 2 * m);
    }
  }

  /** The sum of two nonzero residues vanishes only when they add up to the modulus itself. */
  lemma PairSum(x: int, y: int, m: int)
    requires 0 < x < m && 0 < y < m
    ensures (x + y) % m == if x + y < m then x + y else x + y - m
    ensures (x + y) % m == 0 <==> x + y == m
  {
    ModOfThree(x + y, m);
  }

  /**
   Where both bracketings get past their inner sum they agree, on the common value of
   `a + b + c`; they differ exactly when one inner sum vanishes and the other does not.
   */
  lemma BracketingsCompared(a: int, b: int, c: int, m: int)
    requires 0 < a < m && 0 < b < m && 0 < c < m
    ensures Parenthesizations(a, b, c, m).Ok?
    ensures var (left, right) := Parenthesizations(a, b, c, m).value;
            && (left.Some? && right.Some? ==> left == right)
            && (left.Some? ==> left.value == (a + b + c) % m)
            && (right.Some? ==> right.value == (a + b + c) % m)
            && (left == None <==> (a + b) % m == 0 || (a + b + c) % m == 0)
            && (right == None <==> (b + c) % m == 0 || (a + b + c) % m == 0)
            && (left != right <==> ((a + b) % m == 0) != ((b + c) % m == 0))
  {
    PairSum(a, b, m);
    PairSum(b, c, m);
    ModOfThree(a + b + c, m);
    var ab, bc := (a + b) % m, (b + c) % m;
    if ab != 0 { PairSum(ab, c, m); }
    if bc != 0 { PairSum(a, bc, m); }
  }

  method FindPartialAssociativityCounterexample(modulus: int)
    returns (r: Result<(int, int, int, Option<int>, Option<int>), CarrierError>)
    ensures r == if modulus >= 3 then Ok((1, 1, modulus - 1, Some(1), None)) else Err(NoCounterexample)
  {
    var a := 1;
    while a < modulus
      invariant 1 <= a && (a == 1 || modulus <= 2)
      decreases modulus - a
    {
      var b := 1;
      while b < modulus
        invariant 1 <= b && (b == 1 || modulus <= 2)
        decreases modulus - b
      {
        var c := 1;
        while c < modulus
          invariant 1 <= c && (c < modulus || modulus <= 2)
          decreases modulus - c
        {
          BracketingsCompared(a, b, c, modulus);
          PairSum(a, b, modulus);
          PairSum(b, c, modulus);
          var (left, right) := Parenthesizations(a, b, c, modulus).value;
          if left != right {
            assert a == 1 && b == 1 && c == modulus - 1 && modulus >= 3;
            ModOfThree(a + b + c, modulus);
            return Ok((a, b, c, left, right));
          }
          c := c + 1;
        }
        b := b + 1;
      }
      a := a + 1;
    }
    return Err(NoCounterexample);
  }
}
