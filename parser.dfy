/** The command-line classifier `parseCommandLine`: an argv array (program
    path, script path, then the user's arguments) becomes one of four requests. */
module Parser {
  import opened Decimal

  /** The four results; `StartTimer` carries the duration string unchanged. */
  datatype Request =
    | ShowHelp
    | ShowVersion
    | StartTimer(duration: string)
    | Error(message: string)

  predicate IsUnitSuffix(c: char) {
    c == 'h' || c == 'm' || c == 's'
  }

  /** The regular expression `^\d+[hms]?$`: one or more digits, then at most one
      unit letter, and nothing else. */
  predicate IsDurationPattern(s: string) {
    || (|s| > 0 && AllDigits(s))
    || (|s| > 1 && IsUnitSuffix(s[|s| - 1]) && AllDigits(s[..|s| - 1]))
  }

  predicate IsHelpFlag(arg: string) {
    arg == "-h" || arg == "--help"
  }

  predicate IsVersionFlag(arg: string) {
    arg == "-v" || arg == "--version"
  }

  /** The digits of a duration string, without its unit letter. */
  function DurationDigits(s: string): (d: string)
    requires IsDurationPattern(s)
    ensures |d| > 0 && AllDigits(d)
    ensures d == s || (d + [s[|s| - 1]] == s && IsUnitSuffix(s[|s| - 1]))
  {
    if AllDigits(s) then s else s[..|s| - 1]
  }

  function ParseCommandLine(argv: seq<string>): (r: Request)
    ensures r == ShowHelp <==> |argv| == 2 || (|argv| == 3 && IsHelpFlag(argv[2]))
    ensures r == ShowVersion <==> |argv| == 3 && IsVersionFlag(argv[2])
    ensures r.StartTimer? <==> |argv| == 3 && IsDurationPattern(argv[2])
    ensures r.StartTimer? ==> r.duration == argv[2]
    ensures r.Error? && |argv| == 3 ==> r.message == "Invalid duration: " + argv[2]
    ensures r.Error? && |argv| != 3 ==> r.message == "Expected 1 argument, got " + IntToString(|argv| - 2)
  {
    if |argv| == 2 then
      ShowHelp
    else if |argv| == 3 then
      var arg := argv[2];
      if IsHelpFlag(arg) then FlagsAreNotDurations(arg); ShowHelp
      else if IsVersionFlag(arg) then FlagsAreNotDurations(arg); ShowVersion
      else if !IsDurationPattern(arg) then Error("Invalid duration: " + arg)
      else StartTimer(arg)
    else
      Error("Expected 1 argument, got " + IntToString(|argv| - 2))
  }

  /** No flag is a duration, so the flags are never read as a timer request. */
  lemma FlagsAreNotDurations(arg: string)
    requires IsHelpFlag(arg) || IsVersionFlag(arg)
    ensures !IsDurationPattern(arg)
  {
    assert !IsDigit(arg[0]);
  }

  /** Exactly one kind of result per argument count: help for none, the argument's
      own classification for one, a count error for any other number. */
  lemma ArgumentCountError(argv: seq<string>)
    requires |argv| != 2 && |argv| != 3
    ensures var r := ParseCommandLine(argv);
      && r.Error?
      && (|argv| > 3 ==> DigitsValue(r.message[25..]) == |argv| - 2)
      && (|argv| < 2 ==> r.message[25] == '-' && DigitsValue(r.message[26..]) == 2 - |argv|)
  {
    var r := ParseCommandLine(argv);
    var n := IntToString(|argv| - 2);
    assert |"Expected 1 argument, got "| == 25;
    assert r.message[25..] == n;
    if |argv| < 2 {
      assert r.message[26..] == n[1..];
    }
  }

  /** Every decimal number, bare or with a unit letter, is accepted as it is. */
  lemma {:induction false} RenderedDurationsAccepted(n: nat, unit: string)
    requires unit == "" || unit == "h" || unit == "m" || unit == "s"
    ensures ParseCommandLine(["node", "frutta", NatToString(n) + unit]) == StartTimer(NatToString(n) + unit)
    ensures DurationDigits(NatToString(n) + unit) == NatToString(n)
  {
    var s := NatToString(n) + unit;
    if unit != "" {
      assert s[..|s| - 1] == NatToString(n);
      assert !IsDigit(s[|s| - 1]);
    } else {
      assert s == NatToString(n);
    }
  }
}
