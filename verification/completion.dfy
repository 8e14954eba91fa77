/** The closing screen's duration text: whole seconds shown as "{m}m {s}s", or
    just "{s}s" under a minute. */
module Completion {
  import opened Seqs
  import opened Decimal

  /** Splits a number of seconds into whole minutes and leftover seconds. */
  function MinutesAndSeconds(seconds: nat): (r: (nat, nat))
    ensures r.0 * 60 + r.1 == seconds && r.1 < 60
    ensures r.0 > 0 <==> seconds >= 60
  {
    (seconds / 60, seconds % 60)
  }

  function FormatTime(seconds: nat): (text: string)
    ensures seconds >= 60 ==>
              text == NatToString(MinutesAndSeconds(seconds).0) + "m "
                      + NatToString(MinutesAndSeconds(seconds).1) + "s"
    ensures seconds < 60 ==> text == NatToString(seconds) + "s"
  {
    var split := MinutesAndSeconds(seconds);
    if split.0 > 0 then NatToString(split.0) + "m " + NatToString(split.1) + "s"
    else NatToString(split.1) + "s"
  }

  lemma FormatTimeExample()
    ensures FormatTime(65) == "1m 5s"
    ensures FormatTime(59) == "59s"
  {
    assert MinutesAndSeconds(65) == (1, 5);
    assert NatToString(1) == "1" && NatToString(5) == "5";
    assert NatToString(59) == "59" by {
      assert NatToString(5) == "5";
    }
  }

  /** The number the text starts with: minutes from one minute on, else seconds. */
  function Lead(seconds: nat): nat {
    var split := MinutesAndSeconds(seconds);
    if split.0 > 0 then split.0 else split.1
  }

  /** What follows the leading number. */
  function Rest(seconds: nat): string {
    var split := MinutesAndSeconds(seconds);
    if split.0 > 0 then "m " + (NatToString(split.1) + "s") else "s"
  }

  lemma FormatTimeSplits(seconds: nat)
    ensures FormatTime(seconds) == NatToString(Lead(seconds)) + Rest(seconds)
    ensures |Rest(seconds)| > 0 && !IsDigit(Rest(seconds)[0])
    ensures Rest(seconds)[0] == 'm' <==> seconds >= 60
  {
  }

  /** Different durations never read the same. */
  lemma FormatTimeInjective(a: nat, b: nat)
    requires FormatTime(a) == FormatTime(b)
    ensures a == b
  {
    FormatTimeSplits(a);
    FormatTimeSplits(b);
    SplitAfterNumber(Lead(a), Rest(a), Lead(b), Rest(b));
    if a >= 60 {
      var sa, sb := MinutesAndSeconds(a).1, MinutesAndSeconds(b).1;
      CancelPrefix("m ", NatToString(sa) + "s", NatToString(sb) + "s");
      SplitAfterNumber(sa, "s", sb, "s");
    }
  }
}
