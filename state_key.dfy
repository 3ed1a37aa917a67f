/** The state key of swap_puzzle/grid.py (Grid.id): a flattened grid read as
    the digits of a number in base m*n+1, least significant digit first, and a
    decoder that inverts it. */
module StateKey {
  import opened GridState

  function Pow(b: int, e: nat): int {
    if e == 0 then 1 else b * Pow(b, e - 1)
  }

  /** The sum l[0]*base^0 + l[1]*base^1 + ... + l[|l|-1]*base^(|l|-1). */
  function KeySum(l: seq<int>, base: int): int {
    if l == [] then 0 else KeySum(l[..|l| - 1], base) + l[|l| - 1] * Pow(base, |l| - 1)
  }

  /** Every entry is a digit of the base: 0 <= d < base. */
  predicate Digits(l: seq<int>, base: int) {
    forall k :: 0 <= k < |l| ==> 0 <= l[k] < base
  }

  /** Reads len digits off a key, least significant first. */
  function Decode(key: int, base: int, len: nat): (r: seq<int>)
    requires base >= 2
    ensures |r| == len && Digits(r, base)
    decreases len
  {
    if len == 0 then [] else [key % base] + Decode(key / base, base, len - 1)
  }

  /** The sum, regrouped from its lowest digit: l[0] + base * (key of the rest). */
  lemma {:induction false} Horner(l: seq<int>, base: int)
    requires |l| > 0
    ensures KeySum(l, base) == l[0] + base * KeySum(l[1..], base)
  {
    var len := |l|;
    if len == 1 {
      assert l[..0] == [] && l[1..] == [];
    } else {
      var init := l[..len - 1];
      Horner(init, base);
      assert init[1..] == l[1..][..len - 2];
      var x := KeySum(init[1..], base);
      var top := l[len - 1];
      var p := Pow(base, len - 2);
      assert KeySum(l[1..], base) == x + top * p;
      assert Pow(base, len - 1) == base * p;
      calc {
        KeySum(l, base);
        KeySum(init, base) + top * (base * p);
        l[0] + base * x + top * (base * p);
        { assert top * (base * p) == base * (top * p); }
        l[0] + base * x + base * (top * p);
        l[0] + base * (x + top * p);
      }
    }
  }

  lemma MulAtLeast(b: int, t: int)
    requires b > 0 && t >= 1
    ensures b * t >= b
    decreases t
  {
    if t > 1 {
      MulAtLeast(b, t - 1);
      assert b * t == b * (t - 1) + b;
    }
  }

  /** Euclidean division by the base recovers the lowest digit and the rest. */
  lemma DivModDigit(d: int, q: int, b: int)
    requires 0 <= d < b
    ensures (d + b * q) % b == d && (d + b * q) / b == q
  {
    var k := d + b * q;
    var q', d' := k / b, k % b;
    assert k == b * q' + d';
    if q' < q {
      MulAtLeast(b, q - q');
    } else if q < q' {
      MulAtLeast(b, q' - q);
    }
  }

  /** Decoding the key of a digit sequence gives the sequence back. */
  lemma {:induction false} DecodeKeySum(l: seq<int>, base: int)
    requires base >= 2 && Digits(l, base)
    ensures KeySum(l, base) >= 0
    ensures Decode(KeySum(l, base), base, |l|) == l
  {
    if l != [] {
      Horner(l, base);
      DecodeKeySum(l[1..], base);
      DivModDigit(l[0], KeySum(l[1..], base), base);
    }
  }

  /** Digit sequences of one length with equal keys are equal. */
  lemma KeySumInjective(a: seq<int>, b: seq<int>, base: int)
    requires base >= 2 && |a| == |b| && Digits(a, base) && Digits(b, base)
    requires KeySum(a, base) == KeySum(b, base)
    ensures a == b
  {
    DecodeKeySum(a, base);
    DecodeKeySum(b, base);
  }

  /** Grid.id is an injection: two m x n states whose tiles all lie in
      [0, m*n] and whose flattenings have the same key are the same state. */
  lemma StateKeyInjective(s1: State, s2: State, m: nat, n: nat)
    requires Shaped(s1, m, n) && Shaped(s2, m, n)
    requires Digits(Flat(s1), m * n + 1) && Digits(Flat(s2), m * n + 1)
    requires KeySum(Flat(s1), m * n + 1) == KeySum(Flat(s2), m * n + 1)
    ensures s1 == s2
  {
    FlatLength(s1, m, n);
    FlatLength(s2, m, n);
    if m * n == 0 {
      assert Flat(s1) == [] == Flat(s2);
    } else {
      KeySumInjective(Flat(s1), Flat(s2), m * n + 1);
    }
    FlatInjective(s1, s2, m, n);
  }
}
