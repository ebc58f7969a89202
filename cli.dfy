/** The program's entry point: classify the command line, then print the version,
    print the help, report the error, or convert the duration and start the timer. */
module Cli {
  import opened Decimal
  import opened Parser
  import Command

  /** What a run of the program does, and with which exit status it ends. */
  datatype Outcome =
    | Fail(message: string)     // the message is printed, exit status 1
    | Version                   // the version line is printed
    | Help                      // the help text is printed
    | Rejected                  // the duration is not positive, exit status 1
    | Timer(durationMs: int)    // the progress timer runs for this long

  function ExitStatus(o: Outcome): (status: int)
    ensures status == 1 <==> o.Fail? || o.Rejected?
    ensures status != 1 ==> status == 0
  {
    match o
    case Fail(_) => 1
    case Rejected => 1
    case _ => 0
  }

  /** A string the classifier accepts is read as its digits times the unit its
      last letter names; a bare number means minutes. */
  lemma AcceptedDurationValue(s: string)
    requires IsDurationPattern(s)
    ensures Command.ParseInt(s) == Command.Int(DigitsValue(DurationDigits(s)))
    ensures Command.DurationMs(s)
      == Command.Int(DigitsValue(DurationDigits(s)) * Command.MsPerUnit(Command.UnitOf(s)))
    ensures Command.UnitOf(s) == Command.Hours <==> s[|s| - 1] == 'h'
    ensures Command.UnitOf(s) == Command.Seconds <==> s[|s| - 1] == 's'
    ensures Command.IsPositive(Command.DurationMs(s)) <==> DigitsValue(DurationDigits(s)) > 0
  {
    var d := DurationDigits(s);
    assert s[0] == d[0];
    Command.ReadFromStart(s);
    if d == s {
      assert s == d + [];
      Command.LeadingDigitsExact(d, []);
    } else {
      Command.LeadingDigitsExact(d, [s[|s| - 1]]);
    }
    Command.DurationScaling(s);
  }

  /** An accepted duration is refused exactly when all its digits are zeros, as
      in `0`, `0m` or `00s`. */
  lemma ZeroDurationsRejected(s: string)
    requires IsDurationPattern(s)
    ensures !Command.IsPositive(Command.DurationMs(s))
      <==> forall i :: 0 <= i < |DurationDigits(s)| ==> DurationDigits(s)[i] == '0'
  {
    AcceptedDurationValue(s);
    DigitsValueZero(DurationDigits(s));
  }

  /** `frutta` run with `argv`. */
  method Frutta(argv: seq<string>) returns (r: Outcome)
    ensures r == Help <==> ParseCommandLine(argv) == ShowHelp
    ensures r == Version <==> ParseCommandLine(argv) == ShowVersion
    ensures r.Fail? <==> ParseCommandLine(argv).Error?
    ensures r.Fail? ==> r.message == ParseCommandLine(argv).message
    ensures r.Timer? <==> |argv| == 3 && IsDurationPattern(argv[2]) && DigitsValue(DurationDigits(argv[2])) > 0
    ensures r.Timer? ==>
      && r.durationMs == DigitsValue(DurationDigits(argv[2])) * Command.MsPerUnit(Command.UnitOf(argv[2]))
      && r.durationMs > 0 && r.durationMs % 1000 == 0
    ensures r.Rejected? <==> |argv| == 3 && IsDurationPattern(argv[2]) && DigitsValue(DurationDigits(argv[2])) == 0
    ensures ExitStatus(r) == 1 <==>
      (|| ParseCommandLine(argv).Error?
       || (|argv| == 3 && IsDurationPattern(argv[2]) && DigitsValue(DurationDigits(argv[2])) == 0))
  {
    var request := ParseCommandLine(argv);
    match request {
      case Error(message) =>
        r := Fail(message);
      case ShowVersion =>
        r := Version;
      case StartTimer(duration) =>
        AcceptedDurationValue(duration);
        var converted := Command.ConvertDuration(duration);
        if converted.Run? {
          r := Timer(converted.durationMs);
        } else {
          r := Rejected;
        }
      case ShowHelp =>
        r := Help;
    }
  }
}
