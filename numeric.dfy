/** Byte type and the facts about Euclidean division that the pixel and
    texture arithmetic relies on. */
module Numeric {

  /** An unsigned 8-bit value, Rust's `u8`. */
  newtype u8 = x: int | 0 <= x < 256

  /** Division is determined by any quotient/remainder pair with the
      remainder in range. */
  lemma DivModUnique(a: int, b: int, q: int, r: int)
    requires 0 < b && 0 <= r < b && a == b * q + r
    ensures a / b == q && a % b == r
  {
    var q', r' := a / b, a % b;
    assert a == b * q' + r' && 0 <= r' < b;
    if q' != q {
      var d := if q' < q then q - q' else q' - q;
      MulAtLeast(b, d);
    }
  }

  lemma MulAtLeast(b: int, d: int)
    requires b > 0 && d >= 1
    ensures b * d >= b
  {
    assert b * d == b * (d - 1) + b;
  }

  /** Multiplying by a non-negative number preserves order. */
  lemma MulMonotone(w: int, a: int, b: int)
    requires w >= 0 && a <= b
    ensures w * a <= w * b
  {
    assert w * b == w * a + w * (b - a);
  }

  /** Byte offset `3 * k` is a multiple of the row stride `3 * w` exactly
      when pixel `k` starts a row of width `w`. */
  lemma ScaledModZero(k: nat, w: nat)
    requires w > 0
    ensures (3 * k) % (w * 3) == 0 <==> k % w == 0
  {
    DivModUnique(3 * k, w * 3, k / w, 3 * (k % w));
  }

  /** In `n` entries cut into rows of `w`, cell `c` of row `r` that lies
      within the rows' shape (full rows before the last, the last as long
      as what remains) is entry `w * r + c`, which lies below `n`. */
  lemma CellInRange(n: int, w: int, r: int, c: int)
    requires w > 0 && n > 0 && 0 <= r <= (n - 1) / w && 0 <= c
    requires r < (n - 1) / w ==> c < w
    requires r == (n - 1) / w ==> c < (n - 1) % w + 1
    ensures w * r + c < n && (w * r + c) / w == r && (w * r + c) % w == c
  {
    var last := (n - 1) / w;
    assert n - 1 == w * last + (n - 1) % w;
    if r < last {
      MulMonotone(w, r + 1, last);
    }
    DivModUnique(w * r + c, w, r, c);
  }

  /** Stepping back from a pixel index by one moves within a row, or to the
      last column of the previous row when the index starts a row. */
  lemma PredDivMod(n: nat, w: nat)
    requires w > 0 && n > 0
    ensures n % w != 0 ==> (n - 1) / w == n / w && (n - 1) % w == n % w - 1
    ensures n % w == 0 ==> (n - 1) / w == n / w - 1 && (n - 1) % w == w - 1
  {
    if n % w != 0 {
      DivModUnique(n - 1, w, n / w, n % w - 1);
    } else {
      DivModUnique(n - 1, w, n / w - 1, w - 1);
    }
  }
}
