/** Words bit by bit: what the bit operations and shifts do to each bit. */
module Bits {
  import opened Words

  /** Bit `i` of a word, counted from the lowest. */
  predicate Bit(x: nat, i: nat)
    decreases i
  {
    if i == 0 then x % 2 == 1 else Bit(x / 2, i - 1)
  }

  lemma {:induction false} ZeroBit(i: nat)
    ensures !Bit(0, i)
    decreases i
  {
    if i > 0 {
      ZeroBit(i - 1);
    }
  }

  /** A word is its bits. */
  lemma {:induction false} SameBits(x: nat, y: nat, n: nat)
    requires x < Pow2(n) && y < Pow2(n)
    requires forall i: nat :: i < n ==> Bit(x, i) == Bit(y, i)
    ensures x == y
    decreases n
  {
    if n > 0 {
      forall i: nat | i < n - 1 ensures Bit(x / 2, i) == Bit(y / 2, i) {
        var i' := i + 1;
        assert Bit(x, i') == Bit(y, i');
      }
      SameBits(x / 2, y / 2, n - 1);
      assert Bit(x, 0) == Bit(y, 0);
    }
  }

  lemma {:induction false} AndBit(a: nat, b: nat, i: nat)
    ensures Bit(And(a, b), i) <==> Bit(a, i) && Bit(b, i)
    decreases i
  {
    if a == 0 || b == 0 {
      ZeroBit(i);
    } else if i > 0 {
      assert And(a, b) / 2 == And(a / 2, b / 2);
      AndBit(a / 2, b / 2, i - 1);
    }
  }

  lemma AndHalf(a: nat, b: nat)
    ensures And(a, b) % 2 == (if a % 2 == 1 && b % 2 == 1 then 1 else 0) && And(a, b) / 2 == And(a / 2, b / 2)
  {
  }

  lemma {:induction false} OrBit(a: nat, b: nat, i: nat)
    ensures Bit(a + b - And(a, b), i) <==> Bit(a, i) || Bit(b, i)
    decreases i
  {
    AndHalf(a, b);
    if i > 0 {
      OrBit(a / 2, b / 2, i - 1);
      assert (a + b - And(a, b)) / 2 == a / 2 + b / 2 - And(a / 2, b / 2);
    }
  }

  lemma {:induction false} XorBit(a: nat, b: nat, i: nat)
    ensures a + b - 2 * And(a, b) >= 0
    ensures Bit(a + b - 2 * And(a, b), i) <==> Bit(a, i) != Bit(b, i)
    decreases i
  {
    AndHalf(a, b);
    if i > 0 {
      XorBit(a / 2, b / 2, i - 1);
      assert (a + b - 2 * And(a, b)) / 2 == a / 2 + b / 2 - 2 * And(a / 2, b / 2);
    }
  }

  /** A mask catches a word exactly if they have a bit in common. */
  lemma {:induction false} CommonBit(a: nat, b: nat) returns (i: nat)
    requires And(a, b) != 0
    ensures Bit(a, i) && Bit(b, i)
    decreases a
  {
    if a % 2 == 1 && b % 2 == 1 {
      i := 0;
    } else {
      var j := CommonBit(a / 2, b / 2);
      i := j + 1;
    }
  }

  predicate Share(a: nat, b: nat, i: nat) { Bit(a, i) && Bit(b, i) }

  lemma MaskIff(a: nat, b: nat)
    ensures And(a, b) != 0 <==> exists i: nat :: Share(a, b, i)
  {
    if And(a, b) != 0 {
      var i := CommonBit(a, b);
      assert Share(a, b, i);
    } else if exists i: nat :: Share(a, b, i) {
      var i: nat :| Share(a, b, i);
      AndBit(a, b, i);
      ZeroBit(i);
    }
  }

  function Div(x: nat, p: nat): nat
    requires p > 0
  {
    x / p
  }

  /** Dropping the low `k` bits. */
  lemma {:induction false} ShiftDownBit(x: nat, k: nat, i: nat)
    ensures Bit(Div(x, Pow2(k)), i) <==> Bit(x, i + k)
    decreases k
  {
    if k > 0 {
      var p := Pow2(k - 1);
      ShiftDownBit(x / 2, k - 1, i);
      HalfThenShift(x, p);
      assert Pow2(k) == 2 * p;
      hide Pow2;
      assert Bit(x, i + k) == Bit(x / 2, i + k - 1);
    }
  }

  lemma HalfThenShift(x: nat, p: nat)
    requires p > 0
    ensures x / 2 / p == x / (2 * p)
  {
    var q, r := x / 2 / p, x / 2 % p;
    assert x == 2 * (q * p + r) + x % 2;
    assert x == (2 * p) * q + (2 * r + x % 2);
    DivIs(x, 2 * p, q, 2 * r + x % 2);
  }

  lemma DivIs(x: nat, d: nat, q: nat, r: nat)
    requires r < d && x == d * q + r
    ensures x / d == q
  {
    var q', r' := x / d, x % d;
    assert x == d * q' + r';
    if q < q' {
      assert d * (q + 1) <= d * q' by { MulMono(d, q + 1, q'); }
    } else if q' < q {
      assert d * (q' + 1) <= d * q by { MulMono(d, q' + 1, q); }
    }
  }

  lemma MulMono(d: nat, a: nat, b: nat)
    requires a <= b
    ensures d * a <= d * b
  {
  }

  /** Putting `k` zeros below. */
  lemma {:induction false} ShiftUpBit(x: nat, k: nat, i: nat)
    ensures Bit(x * Pow2(k), i) <==> i >= k && Bit(x, i - k)
    decreases k
  {
    if k > 0 {
      var y := x * Pow2(k - 1);
      assert x * Pow2(k) == 2 * y;
      if i > 0 {
        ShiftUpBit(x, k - 1, i - 1);
        assert 2 * y / 2 == y;
      }
    }
  }

  /** Keeping the low `n` bits. */
  lemma {:induction false} LowBits(x: nat, n: nat, i: nat)
    ensures Bit(x % Pow2(n), i) <==> i < n && Bit(x, i)
    decreases n
  {
    if n == 0 {
      ZeroBit(i);
    } else {
      ModHalf(x, Pow2(n - 1));
      if i > 0 {
        LowBits(x / 2, n - 1, i - 1);
      }
    }
  }

  lemma ModHalf(x: nat, p: nat)
    requires p > 0
    ensures x % (2 * p) % 2 == x % 2 && x % (2 * p) / 2 == x / 2 % p
  {
    var q, r := x / 2 / p, x / 2 % p;
    assert x == (2 * p) * q + (2 * r + x % 2);
    DivIs(x, 2 * p, q, 2 * r + x % 2);
    assert x % (2 * p) == 2 * r + x % 2;
  }

  lemma {:induction false} PowerBit(k: nat, i: nat)
    ensures Bit(Pow2(k), i) <==> i == k
    decreases k
  {
    if k == 0 {
      if i > 0 {
        ZeroBit(i - 1);
      }
    } else if i > 0 {
      PowerBit(k - 1, i - 1);
      assert Pow2(k) / 2 == Pow2(k - 1);
    }
  }

  /** Adding a bit that is not there sets it. */
  lemma {:induction false} AddedBit(m: nat, k: nat, i: nat)
    requires !Bit(m, k)
    ensures Bit(m + Pow2(k), i) <==> Bit(m, i) || i == k
    decreases k
  {
    if k == 0 {
      assert (m + 1) / 2 == m / 2;
    } else {
      var p := Pow2(k - 1);
      assert Pow2(k) == 2 * p && (m + 2 * p) / 2 == m / 2 + p && (m + 2 * p) % 2 == m % 2;
      if i > 0 {
        AddedBit(m / 2, k - 1, i - 1);
      }
    }
  }

  /** The word with exactly these bits. */
  function FromBits(bits: seq<nat>): nat {
    if bits == [] then 0 else FromBits(bits[..|bits| - 1]) + Pow2(bits[|bits| - 1])
  }

  lemma {:induction false} FromBitsHas(bits: seq<nat>, i: nat)
    requires forall j, k :: 0 <= j < k < |bits| ==> bits[j] != bits[k]
    ensures Bit(FromBits(bits), i) <==> i in bits
    decreases |bits|
  {
    if bits == [] {
      ZeroBit(i);
    } else {
      var rest, last := bits[..|bits| - 1], bits[|bits| - 1];
      assert bits == rest + [last];
      FromBitsHas(rest, i);
      FromBitsHas(rest, last);
      AddedBit(FromBits(rest), last, i);
    }
  }
}
