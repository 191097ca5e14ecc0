/** Integer division: the truncating quotient of C++ and of BigInt, and facts about floors. */
module Division {

  import opened Bits

  /** The quotient, by repeated subtraction. */
  function Quotient(a: nat, b: nat): nat
    requires b > 0
  {
    if a < b then 0 else 1 + Quotient(a - b, b)
  }

  lemma {:induction false} QuotientIsDiv(a: nat, b: nat)
    requires b > 0
    ensures Quotient(a, b) == a / b
  {
    if a >= b {
      QuotientIsDiv(a - b, b);
      DivShift(a - b, 1, b);
    } else {
      ModUnique(a, 0, a, b);
    }
  }

  /** The quotient truncated toward zero. */
  function TruncDiv(a: int, b: int): int
    requires b > 0
  {
    if a >= 0 then Quotient(a, b) else 0 - Quotient(0 - a, b)
  }

  lemma TruncDivMeaning(a: int, b: int)
    requires b > 0
    ensures TruncDiv(a, b) == if a >= 0 then a / b else -((-a) / b)
  {
    QuotientIsDiv(if a >= 0 then a else 0 - a, b);
  }

  lemma DivMonotone(a: int, b: int, w: nat)
    requires w > 0 && a <= b
    ensures a / w <= b / w
  {
    var d := a / w - b / w;
    assert w * d <= b % w - a % w by {
      assert w * d == w * (a / w) - w * (b / w);
    }
    MultipleBelow(w, d);
  }

  lemma DivShift(a: int, k: int, w: nat)
    requires w > 0
    ensures (a + k * w) / w == a / w + k
  {
    assert a + k * w == w * (a / w + k) + a % w by {
      assert w * (a / w + k) == w * (a / w) + w * k;
    }
    ModUnique(a + k * w, a / w + k, a % w, w);
  }

  /** Advancing by `s` advances the floor by the floor or the ceiling of `s / w`. */
  lemma FloorGap(a: int, s: int, w: nat)
    requires w > 0
    ensures s / w <= (a + s) / w - a / w <= (if s % w == 0 then s / w else s / w + 1)
  {
    var q, r := a / w + s / w, a % w + s % w;
    assert a + s == w * q + r by {
      assert w * q == w * (a / w) + w * (s / w);
    }
    if r < w {
      ModUnique(a + s, q, r, w);
    } else {
      assert w * (q + 1) == w * q + w;
      ModUnique(a + s, q + 1, r - w, w);
    }
  }
}
