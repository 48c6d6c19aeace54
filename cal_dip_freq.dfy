/** The caldipfreq variable: how often the dipole is computed, any integer. */
module CalDipFreqVar {
  import opened Ctrl
  import Text

  const Name: string := "caldipfreq"

  class CalDipFreq {
    const s: Control

    constructor (sample: Control)
      modifies sample`caldipfreq
      ensures s == sample && s.caldipfreq == -1
    {
      s := sample;
      new;
      s.caldipfreq := -1;
    }

    /** `caldipfreq n`: a wrong count gives 1 and changes nothing; otherwise
        the parsed integer is stored without a range check. */
    method Set(argv: seq<string>, atoi: string -> int) returns (status: int)
      modifies s`caldipfreq
      ensures status == 1 <==> |argv| != 2
      ensures status == 0 <==> |argv| == 2
      ensures status == 1 ==> s.caldipfreq == old(s.caldipfreq)
      ensures status == 0 ==> s.caldipfreq == atoi(argv[1])
    {
      if |argv| != 2 {
        return 1;
      }
      var v := atoi(argv[1]);
      s.caldipfreq := v;
      return 0;
    }

    /** The name, two spaces after a colon, then the value in decimal. */
    function Print(): (text: string)
      reads this, s
      ensures |text| > |Name| + 3 && text[..|Name| + 3] == Name + ":  "
    {
      Name + ":  " + Text.IntToString(s.caldipfreq)
    }
  }

  /** The printed value reads back as the stored one. */
  lemma PrintReadsBack(v: CalDipFreq)
    ensures Text.IntValue(v.Print()[|Name| + 3..]) == v.s.caldipfreq
  {
    assert v.Print()[|Name| + 3..] == Text.IntToString(v.s.caldipfreq);
    Text.IntRoundTrip(v.s.caldipfreq);
  }
}
