/** Throughput columns: bits per second per row, floored, then divided by
    the display unit, and the row where each column peaks. */
module Throughput {
  import opened Series
  import opened Arith

  /** The display units offered for the vertical axis. */
  datatype Unit = Bps | Kbps | Mbps | Gbps

  function UnitName(u: Unit): string {
    match u
    case Bps => "bps"
    case Kbps => "kbps"
    case Mbps => "Mbps"
    case Gbps => "Gbps"
  }

  /** The if/elif chain that picks the divisor from the unit's name; any
      other name leaves the divisor unbound, an error in the source. */
  function UnitOf(name: string): (u: Option<Unit>)
    ensures u.Some? <==> name in {"bps", "kbps", "Mbps", "Gbps"}
    ensures u.Some? ==> UnitName(u.value) == name
  {
    if name == "bps" then Some(Bps)
    else if name == "kbps" then Some(Kbps)
    else if name == "Mbps" then Some(Mbps)
    else if name == "Gbps" then Some(Gbps)
    else None
  }

  function Divisor(u: Unit): (d: nat)
    ensures d >= 1
  {
    match u
    case Bps => 1
    case Kbps => 1_000
    case Mbps => 1_000_000
    case Gbps => 1_000_000_000
  }

  /** A row is usable for throughput unless it carries bytes over a zero
      gap, which the source turns into an infinite rate. */
  predicate Finite(bytes: nat, delta: Option<nat>) {
    delta == Some(0) ==> bytes == 0
  }

  /** `bytes * 8 // delta_seconds` in bits per second, with the gap held in
      microseconds: undefined (NaN) when the gap is undefined or zero. */
  function Rate(bytes: nat, delta: Option<nat>): (r: Option<nat>)
    requires Finite(bytes, delta)
    ensures r.None? <==> delta.None? || delta == Some(0)
    ensures r.Some? ==>
      r.value * delta.value <= bytes * 8 * MicrosPerSecond < r.value * delta.value + delta.value
  {
    match delta
    case None => None
    case Some(d) =>
      if d == 0 then None
      else
        Floor(bytes * 8 * MicrosPerSecond, d);
        Some(bytes * 8 * MicrosPerSecond / d)
  }

  /** The rate expressed in unit `u`: a true division of the floored rate. */
  function Scaled(rate: nat, u: Unit): (x: real)
    ensures x >= 0.0
    ensures x * Divisor(u) as real == rate as real
  {
    rate as real / Divisor(u) as real
  }

  /** A rate column: one entry per row, None where pandas has NaN. */
  type Rates = seq<Option<real>>

  predicate HasValue(xs: Rates) {
    exists i :: 0 <= i < |xs| && xs[i].Some?
  }

  /** Position `k` holds the column's maximum (NaN skipped) and no earlier
      position holds the same value: `df[df[col] == col.max()].index[0]`. */
  predicate IsFirstMax(xs: Rates, k: nat) {
    && k < |xs| && xs[k].Some?
    && (forall j :: 0 <= j < |xs| && xs[j].Some? ==> xs[j].value <= xs[k].value)
    && (forall j :: 0 <= j < k && xs[j].Some? ==> xs[j].value != xs[k].value)
  }

  /** The row where the column first reaches its maximum. */
  function FirstMax(xs: Rates): (k: nat)
    requires HasValue(xs)
    ensures IsFirstMax(xs, k)
    decreases |xs|
  {
    var n := |xs|;
    var init := xs[..n - 1];
    assert forall j :: 0 <= j < n - 1 ==> init[j] == xs[j];
    if !HasValue(init) then
      n - 1
    else
      var k := FirstMax(init);
      if xs[n - 1].Some? && xs[n - 1].value > xs[k].value then n - 1 else k
  }

  /** The first maximum is unique: any position with its defining property
      is the one FirstMax finds. */
  lemma FirstMaxUnique(xs: Rates, k: nat, k': nat)
    requires IsFirstMax(xs, k) && IsFirstMax(xs, k')
    ensures k == k'
  {
    assert xs[k].value <= xs[k'].value && xs[k'].value <= xs[k].value;
  }

  /** Every entry divided by the same positive amount. */
  function Scale(xs: Rates, d: real): (ys: Rates)
    requires d > 0.0
    ensures |ys| == |xs|
    ensures forall i :: 0 <= i < |xs| ==> ys[i].Some? == xs[i].Some?
    ensures forall i :: 0 <= i < |xs| && xs[i].Some? ==> ys[i].value == xs[i].value / d
  {
    seq(|xs|, i requires 0 <= i < |xs| => if xs[i].Some? then Some(xs[i].value / d) else None)
  }

  lemma DivOrder(a: real, b: real, d: real)
    requires d > 0.0
    ensures a <= b <==> a / d <= b / d
    ensures a == b <==> a / d == b / d
  {
    assert a == (a / d) * d && b == (b / d) * d;
    if a / d <= b / d {
      assert (a / d) * d <= (b / d) * d;
    }
  }

  /** Dividing a whole column by the unit moves neither its maximum's
      position nor which row is reported. */
  lemma ScalingKeepsFirstMax(xs: Rates, d: real)
    requires d > 0.0 && HasValue(xs)
    ensures HasValue(Scale(xs, d))
    ensures FirstMax(Scale(xs, d)) == FirstMax(xs)
  {
    var ys := Scale(xs, d);
    var k := FirstMax(xs);
    assert ys[k].Some?;
    forall j | 0 <= j < |ys| && ys[j].Some?
      ensures ys[j].value <= ys[k].value
    {
      DivOrder(xs[j].value, xs[k].value, d);
    }
    forall j | 0 <= j < k && ys[j].Some?
      ensures ys[j].value != ys[k].value
    {
      DivOrder(xs[j].value, xs[k].value, d);
    }
    FirstMaxUnique(ys, k, FirstMax(ys));
  }
}
