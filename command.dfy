/** The duration converter `fruttaCmd`: read the leading integer of the duration
    string, scale it to milliseconds by its unit letter and refuse any result that
    is not positive; a positive result starts the timer. */
module Command {
  import opened Decimal

  /** A JavaScript number as this code uses it: `parseInt` yields an integer or
      `NaN`, and `NaN` stays `NaN` under multiplication. */
  datatype Num = NaN | Int(v: int)

  function Times(x: Num, k: int): (r: Num)
    ensures r.NaN? <==> x.NaN?
    ensures r.Int? ==> r.v == x.v * k
  {
    match x
    case NaN => NaN
    case Int(v) => Int(v * k)
  }

  /** `x > 0`; every comparison with `NaN` is false. */
  predicate IsPositive(x: Num) {
    x.Int? && x.v > 0
  }

  /** The longest prefix of `s` made of decimal digits. */
  function LeadingDigits(s: string): (d: string)
    ensures d <= s && AllDigits(d)
    ensures |d| < |s| ==> !IsDigit(s[|d|])
  {
    if s == [] || !IsDigit(s[0]) then [] else [s[0]] + LeadingDigits(s[1..])
  }

  /** The white space `parseInt` skips before the number: tab, vertical tab, form
      feed, the byte-order mark, every space separator of Unicode category Zs, and
      the four line terminators. */
  predicate IsJsWhiteSpace(c: char) {
    || c == '\t' || c == '\U{000B}' || c == '\U{000C}' || c == '\U{FEFF}'
    || c == ' ' || c == '\U{00A0}' || c == '\U{1680}' || ('\U{2000}' <= c <= '\U{200A}')
    || c == '\U{202F}' || c == '\U{205F}' || c == '\U{3000}'
    || c == '\n' || c == '\r' || c == '\U{2028}' || c == '\U{2029}'
  }

  /** `s` without its leading white space. */
  function TrimStart(s: string): (t: string)
    ensures |t| <= |s|
  {
    if s != [] && IsJsWhiteSpace(s[0]) then TrimStart(s[1..]) else s
  }

  /** What is skipped is the longest prefix of `s` made only of white space. */
  lemma {:induction false} TrimStartSkipsWhiteSpace(s: string)
    ensures TrimStart(s) == s[|s| - |TrimStart(s)|..]
    ensures forall i :: 0 <= i < |s| - |TrimStart(s)| ==> IsJsWhiteSpace(s[i])
    ensures TrimStart(s) == [] || !IsJsWhiteSpace(TrimStart(s)[0])
  {
    if s != [] && IsJsWhiteSpace(s[0]) {
      TrimStartSkipsWhiteSpace(s[1..]);
      assert forall i :: 1 <= i < |s| ==> s[i] == s[1..][i - 1];
      assert s[1..][|s| - 1 - |TrimStart(s)|..] == s[|s| - |TrimStart(s)|..];
    }
  }

  /** `parseInt(s, 10)`: skip leading white space, read an optional sign, then the
      leading run of digits; `NaN` when there is no digit to read. */
  function ParseInt(s: string): (r: Num)
    ensures var t := TrimStart(s);
      r.Int? <==> (|t| > 0 && IsDigit(t[0])) || (|t| > 1 && (t[0] == '-' || t[0] == '+') && IsDigit(t[1]))
    ensures var t := TrimStart(s);
      r.Int? && IsDigit(t[0]) ==> r.v == DigitsValue(LeadingDigits(t))
    ensures var t := TrimStart(s);
      r.Int? && t[0] == '+' ==> r.v == DigitsValue(LeadingDigits(t[1..]))
    ensures var t := TrimStart(s);
      r.Int? && t[0] == '-' ==> r.v == -(DigitsValue(LeadingDigits(t[1..])) as int)
  {
    var t := TrimStart(s);
    var negative := |t| > 0 && t[0] == '-';
    var rest := if |t| > 0 && (t[0] == '-' || t[0] == '+') then t[1..] else t;
    var digits := LeadingDigits(rest);
    if digits == [] then NaN
    else if negative then Int(-(DigitsValue(digits) as int))
    else Int(DigitsValue(digits))
  }

  /** The leading digit run is exactly the digits that come before the first
      non-digit. */
  lemma {:induction false} LeadingDigitsExact(digits: string, rest: string)
    requires AllDigits(digits)
    requires rest == [] || !IsDigit(rest[0])
    ensures LeadingDigits(digits + rest) == digits
  {
    if digits != [] {
      assert (digits + rest)[1..] == digits[1..] + rest;
      LeadingDigitsExact(digits[1..], rest);
    } else {
      assert digits + rest == rest;
    }
  }

  /** The unit a duration string names by its last letter; anything that does
      not end in `h` or `s` counts as minutes. */
  datatype Unit = Hours | Minutes | Seconds

  function UnitOf(s: string): (u: Unit)
    ensures u == Hours <==> |s| > 0 && s[|s| - 1] == 'h'
    ensures u == Seconds <==> |s| > 0 && s[|s| - 1] == 's'
  {
    if |s| > 0 && s[|s| - 1] == 'h' then Hours
    else if |s| > 0 && s[|s| - 1] == 's' then Seconds
    else Minutes
  }

  function MsPerUnit(u: Unit): (ms: nat)
    ensures ms > 0 && ms % 1000 == 0
  {
    match u
    case Hours => 1000 * 60 * 60
    case Minutes => 1000 * 60
    case Seconds => 1000
  }

  /** The number of milliseconds the duration string asks for. */
  function DurationMs(s: string): Num {
    Times(ParseInt(s), MsPerUnit(UnitOf(s)))
  }

  /** What the command does next: run the timer for a duration, or end the
      process with an exit status. */
  datatype Action = Run(durationMs: int) | Exit(status: int)

  /** The conversion and check shared by both versions of `fruttaCmd`. */
  method ConvertDuration(durationStr: string) returns (r: Action)
    ensures r.Run? <==> IsPositive(DurationMs(durationStr))
    ensures r.Run? ==> r.durationMs == DurationMs(durationStr).v
    ensures r.Run? ==> r.durationMs > 0 && r.durationMs % 1000 == 0
    ensures r.Exit? ==> r.status == 1
  {
    var duration := ParseInt(durationStr);
    if |durationStr| > 0 && durationStr[|durationStr| - 1] == 'h' {
      duration := Times(duration, 1000 * 60 * 60);
    } else if |durationStr| > 0 && durationStr[|durationStr| - 1] == 's' {
      duration := Times(duration, 1000);
    } else {
      duration := Times(duration, 1000 * 60);
    }

    if !IsPositive(duration) {
      return Exit(1);
    }
    var n, u := ParseInt(durationStr).v, UnitOf(durationStr);
    assert duration.v == n * MsPerUnit(u);
    MultipleOfSecond(n, u);
    return Run(duration.v);
  }

  lemma MultipleOfSecond(n: int, u: Unit)
    ensures (n * MsPerUnit(u)) % 1000 == 0
  {
    var k := MsPerUnit(u) / 1000;
    assert n * MsPerUnit(u) == (n * k) * 1000;
  }

  /** `fruttaCmd(args)`: exactly one argument is accepted; any other count shows
      the usage text and exits with status 1. */
  method FruttaCmd(args: seq<string>) returns (r: Action)
    ensures |args| != 1 ==> r == Exit(1)
    ensures r.Run? <==> |args| == 1 && IsPositive(DurationMs(args[0]))
    ensures r.Run? ==> r.durationMs == DurationMs(args[0]).v && r.durationMs % 1000 == 0
    ensures r.Exit? ==> r.status == 1
  {
    if |args| != 1 {
      return Exit(1);
    }
    r := ConvertDuration(args[0]);
  }

  /** The duration is the leading integer times the unit's milliseconds, and the
      timer starts exactly when that integer is positive. */
  lemma {:induction false} DurationScaling(s: string)
    requires ParseInt(s).Int?
    ensures DurationMs(s) == Int(ParseInt(s).v * MsPerUnit(UnitOf(s)))
    ensures IsPositive(DurationMs(s)) <==> ParseInt(s).v > 0
  {
    SignOfProduct(ParseInt(s).v, MsPerUnit(UnitOf(s)));
  }

  lemma SignOfProduct(n: int, k: nat)
    requires k > 0
    ensures n * k > 0 <==> n > 0
  {
    if n > 0 {
      assert n * k >= k;
    } else {
      assert n * k <= 0;
    }
  }

  /** A string with nothing to read as an integer is never a duration. */
  lemma NoDigitsRejected(s: string)
    requires var t := TrimStart(s);
      |t| == 0 || (!IsDigit(t[0]) && (|t| == 1 || !IsDigit(t[1]) || (t[0] != '-' && t[0] != '+')))
    ensures DurationMs(s) == NaN && !IsPositive(DurationMs(s))
  {
  }

  /** A string that starts with a digit is read from its first character. */
  lemma ReadFromStart(s: string)
    requires |s| > 0 && IsDigit(s[0])
    ensures ParseInt(s) == Int(DigitsValue(LeadingDigits(s)))
  {
    assert !IsJsWhiteSpace(s[0]) && s[0] != '-' && s[0] != '+';
    assert TrimStart(s) == s;
    assert LeadingDigits(s) != [];
  }

  /** Trimming reads past any white space put in front. */
  lemma {:induction false} TrimStartPrefix(w: string, s: string)
    requires forall i :: 0 <= i < |w| ==> IsJsWhiteSpace(w[i])
    ensures TrimStart(w + s) == TrimStart(s)
  {
    if w != [] {
      assert (w + s)[1..] == w[1..] + s;
      TrimStartPrefix(w[1..], s);
    } else {
      assert w + s == s;
    }
  }

  /** White space in front of a duration changes nothing. */
  lemma LeadingWhiteSpaceIgnored(w: string, s: string)
    requires forall i :: 0 <= i < |w| ==> IsJsWhiteSpace(w[i])
    ensures ParseInt(w + s) == ParseInt(s)
    ensures DurationMs(w + s) == DurationMs(s)
  {
    TrimStartPrefix(w, s);
    if w == [] {
      assert w + s == s;
    } else if s == [] {
      assert w + s == w;
    } else {
      assert (w + s)[|w + s| - 1] == s[|s| - 1];
    }
  }

  /** A `+` in front of a number is read past; in front of anything else it leaves
      nothing to read. */
  lemma PlusSign(s: string)
    ensures ParseInt("+" + s) == if |s| > 0 && IsDigit(s[0]) then ParseInt(s) else NaN
    ensures |s| > 0 && IsDigit(s[0]) ==> DurationMs("+" + s) == DurationMs(s)
    ensures !(|s| > 0 && IsDigit(s[0])) ==> DurationMs("+" + s) == NaN
  {
    var t := "+" + s;
    assert TrimStart(t) == t;
    assert t[1..] == s;
    if |s| > 0 && IsDigit(s[0]) {
      ReadFromStart(s);
    }
    assert |s| > 0 ==> UnitOf(t) == UnitOf(s);
  }

  /** A `-` in front of a number negates it. */
  lemma MinusSign(s: string)
    requires |s| > 0 && IsDigit(s[0])
    ensures ParseInt(s).Int? && ParseInt(s).v >= 0 && ParseInt("-" + s) == Int(-ParseInt(s).v)
  {
    var t := "-" + s;
    assert TrimStart(t) == t;
    assert t[1..] == s;
    ReadFromStart(s);
  }

  /** A negative duration is the positive one negated, and it is refused. */
  lemma NegativeRefused(s: string)
    requires |s| > 0 && IsDigit(s[0])
    ensures DurationMs(s).Int? && DurationMs("-" + s) == Int(-DurationMs(s).v)
    ensures !IsPositive(DurationMs("-" + s))
  {
    var t := "-" + s;
    MinusSign(s);
    DurationScaling(s);
    DurationScaling(t);
    assert UnitOf(t) == UnitOf(s);
    NegatedProduct(ParseInt(s).v, MsPerUnit(UnitOf(s)));
  }

  lemma NegatedProduct(n: int, k: int)
    requires n >= 0 && k >= 0
    ensures (-n) * k == -(n * k) && n * k >= 0
  {
  }

  /** A number written out in decimal, followed by anything that is not a digit,
      reads back as that number. */
  lemma ReadRendered(n: nat, rest: string)
    requires rest == [] || !IsDigit(rest[0])
    ensures ParseInt(NatToString(n) + rest) == Int(n)
  {
    var d := NatToString(n);
    var s := d + rest;
    assert s[0] == d[0];
    ReadFromStart(s);
    LeadingDigitsExact(d, rest);
    NatToStringRoundTrip(n);
  }

  /** A number written out in decimal, with or without a unit letter, reads back as
      that many units; a letter other than `h` and `s` means minutes. */
  lemma RenderedDuration(n: nat, unit: string)
    requires |unit| <= 1 && (unit == [] || !IsDigit(unit[0]))
    ensures DurationMs(NatToString(n) + unit) == Int(n * MsPerUnit(UnitOf(unit)))
  {
    var s := NatToString(n) + unit;
    assert UnitOf(s) == UnitOf(unit) by {
      if unit == [] {
        assert s == NatToString(n);
        assert IsDigit(s[|s| - 1]);
      } else {
        assert s[|s| - 1] == unit[0];
      }
    }
    ReadRendered(n, unit);
    DurationScaling(s);
  }

  /** Units agree with each other: ten minutes are six hundred seconds, one hour is
      sixty minutes, and an unknown unit letter or none at all means minutes. */
  lemma UnitEquivalences(n: nat)
    ensures DurationMs(NatToString(10 * n) + "m") == DurationMs(NatToString(600 * n) + "s") == Int(600000 * n)
    ensures DurationMs(NatToString(n) + "h") == DurationMs(NatToString(60 * n) + "m") == Int(3600000 * n)
    ensures DurationMs(NatToString(n)) == DurationMs(NatToString(n) + "x") == DurationMs(NatToString(n) + "m")
  {
    assert MsPerUnit(UnitOf("m")) == 60000 && MsPerUnit(UnitOf("x")) == 60000;
    assert MsPerUnit(UnitOf("s")) == 1000 && MsPerUnit(UnitOf("h")) == 3600000;
    assert MsPerUnit(UnitOf("")) == 60000;
    assert (10 * n) * 60000 == 600000 * n == (600 * n) * 1000;
    assert (60 * n) * 60000 == 3600000 * n == n * 3600000;
    RenderedDuration(10 * n, "m");
    RenderedDuration(600 * n, "s");
    RenderedDuration(n, "h");
    RenderedDuration(60 * n, "m");
    RenderedDuration(n, "");
    RenderedDuration(n, "x");
    RenderedDuration(n, "m");
    assert NatToString(n) + "" == NatToString(n);
  }
}
