/** The sine_field variable: switches the sine field on with a given
    non-negative value. */
module SineFieldVar {
  import opened Ctrl

  class SineField {
    const s: Control

    constructor (sample: Control)
      modifies sample`computeSineField, sample`sineField
      ensures s == sample && !s.computeSineField && s.sineField == 1.0
    {
      s := sample;
      new;
      s.computeSineField := false;
      s.sineField := 1.0;
    }

    /** `sine_field v`: 1 (nothing changed) for a wrong count or v < 0;
        v == 0 is accepted. */
    method Set(argv: seq<string>, atof: string -> real) returns (status: int)
      modifies s`computeSineField, s`sineField
      ensures status == 1 <==> |argv| != 2 || atof(argv[1]) < 0.0
      ensures status == 0 || status == 1
      ensures status == 1 ==> s.computeSineField == old(s.computeSineField) && s.sineField == old(s.sineField)
      ensures status == 0 ==> s.computeSineField && s.sineField == atof(argv[1]) && s.sineField >= 0.0
    {
      if |argv| != 2 {
        return 1;
      }
      var v := atof(argv[1]);
      if v < 0.0 {
        return 1;
      }
      s.computeSineField := true;
      s.sineField := v;
      return 0;
    }
  }
}
