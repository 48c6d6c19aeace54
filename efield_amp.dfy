/** The efield_amp variable: the amplitude vector of the applied field. */
module EfieldAmpVar {
  import opened Ctrl
  import opened Numbers

  class EfieldAmp {
    const s: Control

    constructor (sample: Control)
      modifies sample`efieldAmp
      ensures s == sample && s.efieldAmp == Zero3
    {
      s := sample;
      new;
      s.efieldAmp := Vec3(0.0, 0.0, 0.0);
    }

    /** `efield_amp x y z`: a wrong count gives 1 and changes nothing;
        otherwise the vector is stored and nothing else changes. */
    method Set(argv: seq<string>, atof: string -> real) returns (status: int)
      modifies s`efieldAmp
      ensures status == 1 <==> |argv| != 4
      ensures status == 0 <==> |argv| == 4
      ensures status == 1 ==> s.efieldAmp == old(s.efieldAmp)
      ensures status == 0 ==> s.efieldAmp == Vec3(atof(argv[1]), atof(argv[2]), atof(argv[3]))
    {
      if |argv| != 4 {
        return 1;
      }
      var v := Vec3(atof(argv[1]), atof(argv[2]), atof(argv[3]));
      s.efieldAmp := v;
      return 0;
    }
  }
}
