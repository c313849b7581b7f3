/** The maximum-throughput summary lines of the aggregation view:
    `f'{x:,.3f}'` for Mbps and Gbps, `f'{int(x):,}'` for bps and kbps, and
    both numbers right-aligned to the longer of the two. */
module Format {
  import opened Series
  import opened Text
  import opened Throughput
  import opened Arith

  /** `rate / div` rounded to the nearest thousandth, a tie going up,
      counted in thousandths. */
  function Thousandths(rate: nat, div: nat): (t: nat)
    requires div >= 1
    ensures 2 * t * div <= 2000 * rate + div < 2 * t * div + 2 * div
  {
    var n := 2000 * rate + div;
    var d := 2 * div;
    assert (n / d) * d <= n < (n / d) * d + d;
    n / d
  }

  /** No other count of thousandths lies closer to `rate / div`. */
  lemma ThousandthsNearest(rate: nat, div: nat, u: int)
    requires div >= 1
    ensures var t := Thousandths(rate, div);
      Dist(t * div, 1000 * rate) <= Dist(u * div, 1000 * rate)
  {
    var t := Thousandths(rate, div);
    MulLe(t + 1, u, div);
    MulNext(t, div);
    MulLe(u, t as int - 1, div);
    MulNext(t as int - 1, div);
    assert u * div >= t * div + div || u * div <= t * div - div || u * div == t * div;
    CloserStep(u * div, t * div, 1000 * rate, div);
  }

  /** A multiple of `d` at least `d` away from the rounded one is no closer. */
  lemma CloserStep(a: int, b: int, x: int, d: int)
    requires 2 * b <= 2 * x + d < 2 * b + 2 * d
    requires a >= b + d || a <= b - d || a == b
    ensures Dist(b, x) <= Dist(a, x)
  {
  }

  function Dist(a: int, b: int): nat {
    if a >= b then a - b else b - a
  }

  /** Whether a unit shows three decimals. */
  predicate ShowsDecimals(u: Unit) {
    u == Mbps || u == Gbps
  }

  /** The text of a maximum rate `rate` (bits per second) in unit `u`. */
  function MaxText(rate: nat, u: Unit): (s: string)
    ensures ShowsDecimals(u) ==>
      && |s| >= 5 && s[|s| - 4] == '.' && AllDigits(s[|s| - 3..])
      && AllDigits(Ungroup(s[..|s| - 4]))
      && DigitsValue(Ungroup(s[..|s| - 4])) * 1000 + DigitsValue(s[|s| - 3..]) == Thousandths(rate, Divisor(u))
      && s[..|s| - 4] == Grouped(Thousandths(rate, Divisor(u)) / 1000)
    ensures !ShowsDecimals(u) ==>
      && AllDigits(Ungroup(s))
      && DigitsValue(Ungroup(s)) == rate / Divisor(u)
      && s == Grouped(rate / Divisor(u))
    ensures !ShowsDecimals(u) ==> '.' !in s
  {
    if ShowsDecimals(u) then
      var t := Thousandths(rate, Divisor(u));
      var whole := Grouped(t / 1000);
      DecimalShort(t % 1000);
      var frac := ZeroPadded(t % 1000, 3);
      GroupedRoundTrip(t / 1000);
      Concat3(whole, ".", frac);
      whole + "." + frac
    else
      GroupedRoundTrip(rate / Divisor(u));
      Grouped(rate / Divisor(u))
  }

  const RecvLabel: string := "受信MAX: "
  const SendLabel: string := "送信MAX: "

  /** The layout of a summary line: caption, then `value` right-aligned
      in a field of `width` characters (spaces before it), then a space,
      the unit and the time in parentheses. */
  predicate LaidOut(line: string, caption: string, value: string, width: nat, u: Unit, at: string)
    requires |value| <= width
  {
    && |line| == |caption| + width + |UnitName(u)| + |at| + 4
    && line[..|caption|] == caption
    && line[|caption| + width - |value|..|caption| + width] == value
    && (forall i :: |caption| <= i < |caption| + width - |value| ==> line[i] == ' ')
    && line[|caption| + width..] == " " + UnitName(u) + " (" + at + ")"
  }

  /** One summary line: caption, the value right-aligned in `width`, the
      unit, and the time of the maximum in parentheses. */
  function MaxLine(caption: string, value: string, width: nat, u: Unit, at: string): (line: string)
    requires |value| <= width
    ensures LaidOut(line, caption, value, width, u, at)
  {
    var field := PadLeft(value, width);
    var tail := " " + UnitName(u) + " (" + at + ")";
    Concat3(caption, field, tail);
    var line := caption + field + tail;
    forall i | 0 <= i < |value|
      ensures line[|caption| + width - |value| + i] == value[i]
    {
      assert field[width - |value| + i] == field[width - |value|..][i];
    }
    line
  }

  /** The two maximum lines, aligned: the value fields have the same
      width, that of the longer text, so the unit names line up. */
  function MaxLines(recv: string, send: string, u: Unit, recvAt: string, sendAt: string)
    : (lines: (string, string))
    ensures var width := if |recv| >= |send| then |recv| else |send|;
      && LaidOut(lines.0, RecvLabel, recv, width, u, recvAt)
      && LaidOut(lines.1, SendLabel, send, width, u, sendAt)
      && (|recv| >= |send| ==> lines.0[|RecvLabel|..|RecvLabel| + width] == recv)
      && (|send| >= |recv| ==> lines.1[|SendLabel|..|SendLabel| + width] == send)
  {
    var width := if |recv| >= |send| then |recv| else |send|;
    (MaxLine(RecvLabel, recv, width, u, recvAt), MaxLine(SendLabel, send, width, u, sendAt))
  }

  /** The value fields end in the same column, the longer text is not
      padded at all, and the dates start at the same offset from the end
      of each line. */
  lemma MaxLinesAlign(recv: string, send: string, u: Unit, recvAt: string, sendAt: string)
    ensures var lines := MaxLines(recv, send, u, recvAt, sendAt);
      var width := if |recv| >= |send| then |recv| else |send|;
      && |RecvLabel| == |SendLabel|
      && lines.0[|RecvLabel| + width..|RecvLabel| + width + |UnitName(u)| + 3] ==
         lines.1[|SendLabel| + width..|SendLabel| + width + |UnitName(u)| + 3]
      && (|recv| >= |send| ==> lines.0[|RecvLabel|..|RecvLabel| + width] == recv)
      && (|send| >= |recv| ==> lines.1[|SendLabel|..|SendLabel| + width] == send)
  {
    var lines := MaxLines(recv, send, u, recvAt, sendAt);
    var width := if |recv| >= |send| then |recv| else |send|;
    var n := |UnitName(u)| + 3;
    UnitHead(u, recvAt);
    UnitHead(u, sendAt);
    SliceOfTail(lines.0, |RecvLabel| + width, n);
    SliceOfTail(lines.1, |SendLabel| + width, n);
  }

  /** The text after a value field starts with the unit and an opening
      parenthesis, whatever the time. */
  lemma UnitHead(u: Unit, at: string)
    ensures |" " + UnitName(u) + " (" + at + ")"| >= |UnitName(u)| + 3
    ensures (" " + UnitName(u) + " (" + at + ")")[..|UnitName(u)| + 3] == " " + UnitName(u) + " ("
  {
    var head := " " + UnitName(u) + " (";
    assert " " + UnitName(u) + " (" + at + ")" == head + (at + ")");
  }
}
