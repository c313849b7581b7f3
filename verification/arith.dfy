/** Facts about floor division and multiplication by a positive width,
    each proved on its own so that no larger proof has to search for them. */
module Arith {

  lemma MulAtLeast(a: int, w: nat)
    ensures a >= 1 ==> a * w >= w
  {
    assert a * w == w + (a - 1) * w;
  }

  /** Quotient and remainder are the only ones that fit. */
  lemma DivUnique(n: int, w: nat, q: int, r: int)
    requires w > 0 && n == q * w + r && 0 <= r < w
    ensures n / w == q && n % w == r
  {
    var q' := n / w;
    var r' := n % w;
    assert (q - q') * w == r' - r;
    MulAtLeast(q - q', w);
    MulAtLeast(q' - q, w);
    assert (q' - q) * w == r - r';
  }

  lemma MulDiv(k: int, w: nat)
    requires w > 0
    ensures (k * w) / w == k && (k * w) % w == 0
  {
    DivUnique(k * w, w, k, 0);
  }

  lemma MulLe(a: int, b: int, w: nat)
    ensures a <= b ==> a * w <= b * w
  {
    assert b * w - a * w == (b - a) * w;
  }

  lemma MulNext(k: int, w: nat)
    ensures (k + 1) * w == k * w + w
  {
  }

  /** `t` lies in the width-`w` cell that starts at `(t / w) * w`. */
  lemma Floor(t: int, w: nat)
    requires w > 0
    ensures (t / w) * w <= t < (t / w) * w + w
  {
  }

  lemma FloorMono(s: int, t: int, w: nat)
    requires w > 0 && s <= t
    ensures s / w <= t / w
  {
    MulLe(t / w + 1, s / w, w);
    MulNext(t / w, w);
  }

  /** A multiple of `w` is its quotient times `w`. */
  lemma Multiple(m: int, w: nat)
    requires w > 0 && m % w == 0
    ensures (m / w) * w == m
  {
  }
}
