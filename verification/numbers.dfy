/** Arithmetic shared by the statistics and the selection strategies. */
module Numbers {

  function Max(a: int, b: int): int
  {
    if a < b then b else a
  }

  /** Left-to-right sum, as an accumulating `+=` loop computes it. */
  function Sum(s: seq<real>): real
  {
    if |s| == 0 then 0.0 else s[0] + Sum(s[1..])
  }

  lemma {:induction false} SumAppend(a: seq<real>, b: seq<real>)
    ensures Sum(a + b) == Sum(a) + Sum(b)
  {
    if |a| == 0 {
      assert a + b == b;
    } else {
      assert (a + b)[1..] == a[1..] + b;
      SumAppend(a[1..], b);
    }
  }

  lemma SumSnoc(s: seq<real>, x: real)
    ensures Sum(s + [x]) == Sum(s) + x
  {
    SumAppend(s, [x]);
  }

  lemma {:induction false} SumNonNegative(s: seq<real>)
    requires forall i :: 0 <= i < |s| ==> 0.0 <= s[i]
    ensures 0.0 <= Sum(s)
  {
    if |s| > 0 {
      SumNonNegative(s[1..]);
    }
  }

  /** Over non-negative terms a longer prefix sums to at least as much. */
  lemma PrefixSumsGrow(s: seq<real>, i: nat, j: nat)
    requires forall k :: 0 <= k < |s| ==> 0.0 <= s[k]
    requires i <= j <= |s|
    ensures Sum(s[..i]) <= Sum(s[..j])
  {
    assert s[..j] == s[..i] + s[i..j];
    SumAppend(s[..i], s[i..j]);
    SumNonNegative(s[i..j]);
  }

  lemma {:induction false} SumNonPositive(s: seq<real>)
    requires forall i :: 0 <= i < |s| ==> s[i] <= 0.0
    ensures Sum(s) <= 0.0
  {
    if |s| > 0 {
      SumNonPositive(s[1..]);
    }
  }

  lemma {:induction false} SumNegative(s: seq<real>)
    requires |s| > 0
    requires forall i :: 0 <= i < |s| ==> s[i] < 0.0
    ensures Sum(s) < 0.0
  {
    SumNonPositive(s[1..]);
  }

  /** The number of naturals below `x`: how many times the body of
      `for (var i = 0; i < x; i++)` runs when `x` need not be whole. */
  function Slots(x: real): (n: nat)
    ensures x <= 0.0 ==> n == 0
    ensures 0.0 < x ==> x <= n as real < x + 1.0
  {
    if x <= 0.0 then 0 else -((-x).Floor)
  }

  lemma SlotsBelow(x: real, k: nat)
    ensures k < Slots(x) <==> (k as real) < x
  {
  }

  lemma SlotsMonotone(x: real, y: real)
    requires x <= y
    ensures Slots(x) <= Slots(y)
  {
  }

  /** For a whole number of slots `Slots` is the identity. */
  lemma SlotsOfWhole(n: nat)
    ensures Slots(n as real) == n
  {
  }

  lemma DivThenMul(a: real, n: real)
    requires n != 0.0
    ensures (a / n) * n == a
  {
  }
}
