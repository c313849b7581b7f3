/** Character-level helpers used by the STG log pipeline: Python's
    `str.split(',')` and `str.rstrip()`, the August month fix applied to
    date strings, decimal rendering with thousands separators (the `,`
    format option), and right alignment (the `>` format option). */
module Text {

  // ---------------------------------------------------------------------
  // Whitespace and rstrip
  // ---------------------------------------------------------------------

  /** Python's `str.isspace` for a single character. */
  predicate IsSpace(c: char) {
    || ('\t' <= c <= '\r')
    || ('\U{1c}' <= c <= '\U{1f}')
    || c == ' ' || c == '\U{85}' || c == '\U{a0}' || c == '\U{1680}'
    || ('\U{2000}' <= c <= '\U{200a}')
    || c == '\U{2028}' || c == '\U{2029}' || c == '\U{202f}'
    || c == '\U{205f}' || c == '\U{3000}'
  }

  /** `s.rstrip()`: the longest prefix of `s` that does not end in whitespace
      and after which only whitespace follows. */
  function RStrip(s: string): (r: string)
    ensures r <= s
    ensures |r| == 0 || !IsSpace(r[|r| - 1])
    ensures forall i :: |r| <= i < |s| ==> IsSpace(s[i])
  {
    if |s| > 0 && IsSpace(s[|s| - 1]) then RStrip(s[..|s| - 1]) else s
  }

  predicate StartsWith(s: string, prefix: string) {
    prefix <= s
  }

  // ---------------------------------------------------------------------
  // Splitting on a separator
  // ---------------------------------------------------------------------

  /** Index of the first `c` in `s`, or `|s|` when `s` has none. */
  function IndexOf(s: string, c: char): (i: nat)
    ensures i <= |s|
    ensures i < |s| ==> s[i] == c
    ensures forall j :: 0 <= j < i ==> s[j] != c
  {
    if |s| == 0 then 0 else if s[0] == c then 0 else 1 + IndexOf(s[1..], c)
  }

  /** `s.split(sep)`: the pieces between separators, always at least one. */
  function Split(s: string, sep: char): (fields: seq<string>)
    ensures |fields| >= 1
    ensures forall k :: 0 <= k < |fields| ==> sep !in fields[k]
    decreases |s|
  {
    var i := IndexOf(s, sep);
    if i == |s| then [s] else [s[..i]] + Split(s[i + 1..], sep)
  }

  /** `sep.join(fields)`, the inverse of Split. */
  function Join(fields: seq<string>, sep: char): string
    requires |fields| >= 1
  {
    if |fields| == 1 then fields[0] else fields[0] + [sep] + Join(fields[1..], sep)
  }

  /** Number of occurrences of `c` in `s`. */
  function Count(s: string, c: char): nat {
    if |s| == 0 then 0 else (if s[0] == c then 1 else 0) + Count(s[1..], c)
  }

  lemma {:induction false} CountAppend(a: string, b: string, c: char)
    ensures Count(a + b, c) == Count(a, c) + Count(b, c)
    decreases |a|
  {
    if |a| == 0 {
      assert a + b == b;
    } else {
      assert (a + b)[1..] == a[1..] + b;
      CountAppend(a[1..], b, c);
    }
  }

  lemma {:induction false} CountAbsent(s: string, c: char)
    requires c !in s
    ensures Count(s, c) == 0
    decreases |s|
  {
    if |s| > 0 {
      assert c !in s[1..];
      CountAbsent(s[1..], c);
    }
  }

  /** Joining the pieces of a split gives the original string back. */
  lemma {:induction false} JoinSplit(s: string, sep: char)
    ensures Join(Split(s, sep), sep) == s
    decreases |s|
  {
    var i := IndexOf(s, sep);
    if i < |s| {
      var rest := s[i + 1..];
      var tail := Split(rest, sep);
      var fields := [s[..i]] + tail;
      SplitAt(s, sep, i);
      assert fields[0] == s[..i] && fields[1..] == tail;
      JoinSplit(rest, sep);
      assert Join(fields, sep) == s[..i] + [sep] + Join(tail, sep);
      assert s == s[..i] + [sep] + rest;
    }
  }

  /** Splitting a join of separator-free pieces gives the pieces back. */
  lemma {:induction false} SplitJoin(fields: seq<string>, sep: char)
    requires |fields| >= 1
    requires forall k :: 0 <= k < |fields| ==> sep !in fields[k]
    ensures Split(Join(fields, sep), sep) == fields
    decreases |fields|
  {
    if |fields| == 1 {
      IndexOfAbsent(fields[0], sep);
    } else {
      JoinStep(fields, sep);
      SplitJoin(fields[1..], sep);
      assert fields == [fields[0]] + fields[1..];
    }
  }

  /** Splitting a join of two or more fields peels off the first field. */
  lemma JoinStep(fields: seq<string>, sep: char)
    requires |fields| >= 2 && sep !in fields[0]
    ensures Split(Join(fields, sep), sep) == [fields[0]] + Split(Join(fields[1..], sep), sep)
  {
    var s := Join(fields, sep);
    var f := fields[0];
    var rest := Join(fields[1..], sep);
    assert s == f + [sep] + rest;
    Concat3(f, [sep], rest);
    SplitAt(s, sep, |f|);
  }

  /** The first separator is the one with none before it. */
  lemma IndexOfIs(s: string, c: char, i: nat)
    requires i <= |s| && (i < |s| ==> s[i] == c)
    requires forall j :: 0 <= j < i ==> s[j] != c
    ensures IndexOf(s, c) == i
  {
    var k := IndexOf(s, c);
    assert k < |s| ==> s[k] == c;
    assert i < |s| ==> s[i] == c;
  }

  lemma IndexOfAbsent(s: string, c: char)
    requires c !in s
    ensures IndexOf(s, c) == |s|
  {
  }

  /** The number of pieces is one more than the number of separators. */
  lemma {:induction false} SplitCount(s: string, sep: char)
    ensures |Split(s, sep)| == Count(s, sep) + 1
    decreases |s|
  {
    var i := IndexOf(s, sep);
    if i == |s| {
      assert sep !in s;
      CountAbsent(s, sep);
    } else {
      SplitCount(s[i + 1..], sep);
      assert s == s[..i] + ([sep] + s[i + 1..]);
      assert sep !in s[..i];
      CountAppend(s[..i], [sep] + s[i + 1..], sep);
      CountAbsent(s[..i], sep);
      assert ([sep] + s[i + 1..])[1..] == s[i + 1..];
    }
  }

  /** Appending one separator and a separator-free piece appends one field. */
  lemma {:induction false} SplitSnoc(a: string, b: string, sep: char)
    requires sep !in b
    ensures Split(a + [sep] + b, sep) == Split(a, sep) + [b]
    decreases |a|
  {
    var i := IndexOf(a, sep);
    if i == |a| {
      SplitPair(a, b, sep);
    } else {
      var head := a[..i];
      var rest := a[i + 1..];
      SplitShift(a, b, sep);
      SplitSnoc(rest, b, sep);
      assert [head] + (Split(rest, sep) + [b]) == ([head] + Split(rest, sep)) + [b];
    }
  }

  /** Two separator-free pieces around one separator split into two fields. */
  lemma SplitPair(a: string, b: string, sep: char)
    requires sep !in b && IndexOf(a, sep) == |a|
    ensures Split(a, sep) == [a]
    ensures Split(a + [sep] + b, sep) == [a, b]
  {
    var s := a + [sep] + b;
    assert forall j :: 0 <= j < |a| ==> s[j] == a[j];
    IndexOfIs(s, sep, |a|);
    assert s[..|a|] == a;
    assert s[|a| + 1..] == b;
    IndexOfAbsent(b, sep);
  }

  /** A separator inside `a` splits `a + [sep] + b` at the same place as `a`. */
  lemma SplitShift(a: string, b: string, sep: char)
    requires IndexOf(a, sep) < |a|
    ensures var i := IndexOf(a, sep);
      && Split(a, sep) == [a[..i]] + Split(a[i + 1..], sep)
      && Split(a + [sep] + b, sep) == [a[..i]] + Split(a[i + 1..] + [sep] + b, sep)
  {
    var i := IndexOf(a, sep);
    Pieces(a, sep, b, i);
    SplitAt(a, sep, i);
    SplitAt(a + [sep] + b, sep, i);
  }

  /** Cutting `a + [sep] + b` inside `a`. */
  lemma Pieces(a: string, sep: char, b: string, i: nat)
    requires i < |a|
    ensures (a + [sep] + b)[..i] == a[..i] && (a + [sep] + b)[i] == a[i]
    ensures (a + [sep] + b)[i + 1..] == a[i + 1..] + [sep] + b
    ensures forall j :: 0 <= j < i ==> (a + [sep] + b)[j] == a[j]
  {
  }

  /** Splitting at the first separator. */
  lemma SplitAt(s: string, sep: char, i: nat)
    requires i < |s| && s[i] == sep
    requires forall j :: 0 <= j < i ==> s[j] != sep
    ensures Split(s, sep) == [s[..i]] + Split(s[i + 1..], sep)
  {
    IndexOfIs(s, sep, i);
  }

  // ---------------------------------------------------------------------
  // The month fix: STG writes "Avg" where it means "Aug"
  // ---------------------------------------------------------------------

  /** There is an "Avg" starting at position `i` of `s`. */
  predicate AvgAt(s: string, i: int) {
    0 <= i && i + 3 <= |s| && s[i] == 'A' && s[i + 1] == 'v' && s[i + 2] == 'g'
  }

  /** `s.replace('Avg', 'Aug')`: left-to-right, non-overlapping. Only the
      middle letter of a match changes, so the length is kept. */
  function FixMonth(s: string): (r: string)
    ensures |r| == |s|
    ensures forall i :: 0 <= i < |s| ==> r[i] == s[i] || (s[i] == 'v' && r[i] == 'u')
    decreases |s|
  {
    if |s| < 3 then s
    else if AvgAt(s, 0) then "Aug" + FixMonth(s[3..])
    else [s[0]] + FixMonth(s[1..])
  }

  /** Exactly the `v` of each "Avg" becomes `u`; every other character,
      including a `v` elsewhere (as in "Nov"), is kept. */
  lemma {:induction false} FixMonthChanges(s: string)
    ensures forall i :: 0 <= i < |s| ==> FixMonth(s)[i] == if AvgAt(s, i - 1) then 'u' else s[i]
    decreases |s|
  {
    var r := FixMonth(s);
    if |s| < 3 {
      forall i | 0 <= i < |s|
        ensures r[i] == if AvgAt(s, i - 1) then 'u' else s[i]
      {
        assert !AvgAt(s, i - 1);
      }
    } else if AvgAt(s, 0) {
      var u := s[3..];
      FixMonthChanges(u);
      assert r == "Aug" + FixMonth(u);
      forall i | 0 <= i < |s|
        ensures r[i] == if AvgAt(s, i - 1) then 'u' else s[i]
      {
        if i >= 3 {
          assert r[i] == FixMonth(u)[i - 3];
          assert AvgAt(s, i - 1) <==> AvgAt(u, i - 4);
          assert s[i] == u[i - 3];
        }
      }
    } else {
      var u := s[1..];
      FixMonthChanges(u);
      assert r == [s[0]] + FixMonth(u);
      forall i | 0 <= i < |s|
        ensures r[i] == if AvgAt(s, i - 1) then 'u' else s[i]
      {
        if i >= 1 {
          assert r[i] == FixMonth(u)[i - 1];
          assert AvgAt(s, i - 1) <==> AvgAt(u, i - 2);
          assert s[i] == u[i - 1];
        }
      }
    }
  }

  /** After the fix no "Avg" is left anywhere in the string. */
  lemma {:induction false} FixMonthLeavesNoAvg(s: string)
    ensures forall i :: !AvgAt(FixMonth(s), i)
    decreases |s|
  {
    var r := FixMonth(s);
    if |s| < 3 {
    } else if AvgAt(s, 0) {
      var t := FixMonth(s[3..]);
      FixMonthLeavesNoAvg(s[3..]);
      assert r == "Aug" + t;
      forall i
        ensures !AvgAt(r, i)
      {
        if i >= 3 {
          assert AvgAt(r, i) ==> AvgAt(t, i - 3);
        }
      }
    } else {
      var t := FixMonth(s[1..]);
      FixMonthLeavesNoAvg(s[1..]);
      assert r == [s[0]] + t;
      forall i
        ensures !AvgAt(r, i)
      {
        if i >= 1 {
          assert AvgAt(r, i) ==> AvgAt(t, i - 1);
        } else if i == 0 && |r| >= 3 {
          assert t[0] == s[1] || (s[1] == 'v' && t[0] == 'u');
          assert t[1] == s[2] || (s[2] == 'v' && t[1] == 'u');
        }
      }
    }
  }

  /** A string without "Avg" is left untouched. */
  lemma {:induction false} FixMonthKeepsAvgFree(s: string)
    requires forall i :: !AvgAt(s, i)
    ensures FixMonth(s) == s
    decreases |s|
  {
    if |s| >= 3 {
      assert !AvgAt(s, 0);
      forall i ensures !AvgAt(s[1..], i) {
        assert AvgAt(s[1..], i) ==> AvgAt(s, i + 1);
      }
      FixMonthKeepsAvgFree(s[1..]);
      assert s == [s[0]] + s[1..];
    }
  }

  /** Fixing twice is the same as fixing once. */
  lemma FixMonthIdempotent(s: string)
    ensures FixMonth(FixMonth(s)) == FixMonth(s)
  {
    FixMonthLeavesNoAvg(s);
    FixMonthKeepsAvgFree(FixMonth(s));
  }

  // ---------------------------------------------------------------------
  // Decimal numbers
  // ---------------------------------------------------------------------

  predicate IsDigit(c: char) {
    '0' <= c <= '9'
  }

  predicate AllDigits(s: string) {
    forall i :: 0 <= i < |s| ==> IsDigit(s[i])
  }

  function DigitChar(d: nat): (c: char)
    requires d < 10
    ensures IsDigit(c)
    ensures c as int - '0' as int == d
  {
    ('0' as int + d) as char
  }

  /** Value of a string of decimal digits (leading zeros allowed). */
  function DigitsValue(s: string): nat
    requires AllDigits(s)
  {
    if |s| == 0 then 0
    else DigitsValue(s[..|s| - 1]) * 10 + (s[|s| - 1] as int - '0' as int)
  }

  function Pow10(k: nat): nat {
    if k == 0 then 1 else 10 * Pow10(k - 1)
  }

  /** Appending digits shifts the value of the prefix left. */
  lemma {:induction false} DigitsValueAppend(a: string, b: string)
    requires AllDigits(a) && AllDigits(b)
    ensures AllDigits(a + b)
    ensures DigitsValue(a + b) == DigitsValue(a) * Pow10(|b|) + DigitsValue(b)
    decreases |b|
  {
    var s := a + b;
    if |b| == 0 {
      assert s == a;
    } else {
      var b' := b[..|b| - 1];
      assert s[..|s| - 1] == a + b';
      DigitsValueAppend(a, b');
      var d := b[|b| - 1] as int - '0' as int;
      assert DigitsValue(s) == DigitsValue(a + b') * 10 + d;
      assert DigitsValue(b) == DigitsValue(b') * 10 + d;
      assert Pow10(|b|) == 10 * Pow10(|b'|);
      ShiftDigit(DigitsValue(a), Pow10(|b'|), DigitsValue(b'), d);
    }
  }

  lemma ShiftDigit(x: int, p: int, y: int, d: int)
    ensures (x * p + y) * 10 + d == x * (10 * p) + (y * 10 + d)
  {
  }

  /** The shortest decimal rendering of `n`, as `str(n)` writes it. */
  function Decimal(n: nat): (r: string)
    ensures |r| >= 1 && AllDigits(r)
    ensures DigitsValue(r) == n
    ensures r[0] == '0' ==> n == 0
  {
    if n < 10 then [DigitChar(n)]
    else
      var p := Decimal(n / 10);
      var r := p + [DigitChar(n % 10)];
      assert r[..|r| - 1] == p;
      r
  }

  /** `n` rendered with at least `width` digits, zero-filled on the left. */
  function ZeroPadded(n: nat, width: nat): (r: string)
    ensures AllDigits(r)
    ensures DigitsValue(r) == n
    ensures |r| == if |Decimal(n)| >= width then |Decimal(n)| else width
  {
    var d := Decimal(n);
    if |d| >= width then d
    else
      var zeros := seq(width - |d|, _ => '0');
      ZerosValue(zeros);
      DigitsValueAppend(zeros, d);
      zeros + d
  }

  lemma {:induction false} ZerosValue(z: string)
    requires forall i :: 0 <= i < |z| ==> z[i] == '0'
    ensures AllDigits(z) && DigitsValue(z) == 0
    decreases |z|
  {
    if |z| > 0 {
      ZerosValue(z[..|z| - 1]);
    }
  }

  /** A number below `10^k` needs at most `k` digits. */
  lemma {:induction false} DecimalFits(n: nat, k: nat)
    requires k >= 1 && n < Pow10(k)
    ensures |Decimal(n)| <= k
  {
    if n >= 10 {
      assert k >= 2;
      DecimalFits(n / 10, k - 1);
    }
  }

  lemma DecimalShort(n: nat)
    requires n < 1000
    ensures |Decimal(n)| <= 3
  {
    if n >= 10 {
      DecimalShort(n / 10);
    }
  }

  // ---------------------------------------------------------------------
  // Thousands separators
  // ---------------------------------------------------------------------

  /** `f'{n:,}'`: the decimal rendering with a ',' before every group of
      three digits counted from the right. */
  function Grouped(n: nat): (r: string)
    ensures |r| >= 1
    ensures forall i :: 0 <= i < |r| ==> IsDigit(r[i]) || r[i] == ','
    ensures IsDigit(r[0]) && (r[0] == '0' ==> n == 0)
  {
    if n < 1000 then Decimal(n)
    else Grouped(n / 1000) + "," + ZeroPadded(n % 1000, 3)
  }

  /** `s` with every ',' removed. */
  function Ungroup(s: string): (r: string)
    ensures |r| <= |s|
  {
    if |s| == 0 then ""
    else Ungroup(s[..|s| - 1]) + (if s[|s| - 1] == ',' then "" else [s[|s| - 1]])
  }

  lemma {:induction false} UngroupAppend(a: string, b: string)
    ensures Ungroup(a + b) == Ungroup(a) + Ungroup(b)
    decreases |b|
  {
    if |b| == 0 {
      assert a + b == a;
    } else {
      assert (a + b)[..|a + b| - 1] == a + b[..|b| - 1];
      UngroupAppend(a, b[..|b| - 1]);
    }
  }

  lemma {:induction false} UngroupDigits(s: string)
    requires AllDigits(s)
    ensures Ungroup(s) == s
    decreases |s|
  {
    if |s| > 0 {
      UngroupDigits(s[..|s| - 1]);
    }
  }

  /** Reading a grouped rendering back, ignoring the separators, gives `n`. */
  lemma {:induction false} GroupedRoundTrip(n: nat)
    ensures AllDigits(Ungroup(Grouped(n)))
    ensures DigitsValue(Ungroup(Grouped(n))) == n
    decreases n
  {
    if n < 1000 {
      UngroupDigits(Decimal(n));
    } else {
      var hi := Grouped(n / 1000);
      var lo := ZeroPadded(n % 1000, 3);
      var u := Ungroup(hi);
      GroupedRoundTrip(n / 1000);
      UngroupGroupedStep(n);
      DecimalShort(n % 1000);
      assert |lo| == 3;
      assert Pow10(3) == 1000 by {
        assert Pow10(2) == 100;
      }
      DigitsValueAppend(u, lo);
      assert DigitsValue(u + lo) == DigitsValue(u) * 1000 + DigitsValue(lo);
    }
  }

  lemma UngroupGroupedStep(n: nat)
    requires n >= 1000
    ensures Ungroup(Grouped(n)) == Ungroup(Grouped(n / 1000)) + ZeroPadded(n % 1000, 3)
  {
    UngroupSeparated(Grouped(n / 1000), ZeroPadded(n % 1000, 3));
  }

  lemma {:induction false} UngroupSeparated(hi: string, lo: string)
    requires AllDigits(lo)
    ensures Ungroup(hi + "," + lo) == Ungroup(hi) + lo
  {
    var h := hi + ",";
    assert hi + "," + lo == h + lo;
    UngroupAppend(h, lo);
    UngroupAppend(hi, ",");
    assert ","[..0] == "";
    assert Ungroup(",") == "";
    UngroupDigits(lo);
  }

  /** The separators sit between groups: the leading group has one to three
      digits and every later group exactly three. */
  lemma {:induction false} GroupedShape(n: nat)
    ensures var groups := Split(Grouped(n), ',');
      && 1 <= |groups[0]| <= 3
      && (forall k :: 1 <= k < |groups| ==> |groups[k]| == 3)
      && (n < 1000 <==> |groups| == 1)
    decreases n
  {
    if n < 1000 {
      DecimalShort(n);
      assert ',' !in Decimal(n);
      IndexOfAbsent(Decimal(n), ',');
    } else {
      var lo := ZeroPadded(n % 1000, 3);
      DecimalShort(n % 1000);
      assert ',' !in lo;
      SplitSnoc(Grouped(n / 1000), lo, ',');
      GroupedShape(n / 1000);
    }
  }

  /** The three parts of a concatenation can be cut back out of it. */
  lemma Concat3(a: string, b: string, c: string)
    ensures var s := a + b + c;
      && |s| == |a| + |b| + |c|
      && s[..|a|] == a && s[|a|..|a| + |b|] == b && s[|a| + |b|..] == c
      && (forall i :: 0 <= i < |b| ==> s[|a| + i] == b[i])
  {
  }

  /** A slice is a prefix of the tail it starts. */
  lemma SliceOfTail(s: string, k: nat, n: nat)
    requires k + n <= |s|
    ensures s[k..k + n] == s[k..][..n]
  {
  }

  // ---------------------------------------------------------------------
  // Right alignment
  // ---------------------------------------------------------------------

  /** `f'{s:>{width}}'`: `s` preceded by spaces up to `width` characters;
      a longer `s` is left as it is. */
  function PadLeft(s: string, width: nat): (r: string)
    ensures |r| == if |s| >= width then |s| else width
    ensures r[|r| - |s|..] == s
    ensures forall i :: 0 <= i < |r| - |s| ==> r[i] == ' '
  {
    if |s| >= width then s else seq(width - |s|, _ => ' ') + s
  }
}
