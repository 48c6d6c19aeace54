/** The gauss_field variable: a Gaussian pulse t0, full width at half
    maximum and frequency, the last two given in eV. */
module GaussFieldVar {
  import opened Ctrl

  /** eV to atomic units. */
  const Ev2au: real := 0.0367493
  /** 2 sqrt(2 ln 2): full width at half maximum over sigma. */
  const Sig: real := 2.3548

  /** The width stored for a given full width at half maximum. */
  function Width(fwhm: real): (w: real)
    requires fwhm != 0.0
    ensures w < 0.0 <==> fwhm < 0.0
    ensures w * (fwhm * Ev2au) == Sig
  {
    Sig / (fwhm * Ev2au)
  }

  class GaussField {
    const s: Control

    /** Clears the flag and the three values. */
    constructor (sample: Control)
      requires sample.Valid()
      modifies sample`computeGaussianField, sample.gaussField
      ensures s == sample && s.Valid()
      ensures !s.computeGaussianField && s.gaussField[..] == [0.0, 0.0, 0.0]
    {
      s := sample;
      new;
      s.computeGaussianField := false;
      s.gaussField[0] := 0.0;
      s.gaussField[1] := 0.0;
      s.gaussField[2] := 0.0;
    }

    /**
     * `gauss_field t0 fwhm freq`: 1 (nothing changed) for a wrong argument
     * count or a negative width; otherwise the flag is set and the three
     * values are t0, Width(fwhm) and freq in atomic units.
     */
    method Set(argv: seq<string>, atof: string -> real) returns (status: int)
      requires s.Valid()
      requires |argv| == 4 ==> atof(argv[2]) != 0.0
      modifies s`computeGaussianField, s.gaussField
      ensures status == 0 || status == 1
      ensures status == 1 <==> |argv| != 4 || atof(argv[2]) < 0.0
      ensures status == 1 ==> s.computeGaussianField == old(s.computeGaussianField)
                              && s.gaussField[..] == old(s.gaussField[..])
      ensures status == 0 ==> s.computeGaussianField
      ensures status == 0 ==> s.gaussField[..] == [atof(argv[1]), Width(atof(argv[2])), atof(argv[3]) * Ev2au]
    {
      if |argv| != 4 {
        return 1;
      }
      var convert := atof(argv[2]) * Ev2au;
      var v0 := atof(argv[1]);
      var v1 := Sig / convert;
      var v2 := atof(argv[3]) * Ev2au;
      assert v1 == Width(atof(argv[2]));
      if v1 < 0.0 {
        return 1;
      }
      s.computeGaussianField := true;
      s.gaussField[0] := v0;
      s.gaussField[1] := v1;
      s.gaussField[2] := v2;
      return 0;
    }
  }
}
