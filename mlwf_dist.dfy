/** The MLWFDist variable: the distance threshold of the localised-orbital
    pair pruning. */
module MlwfDistVar {
  import opened Ctrl

  class MLWFDist {
    const s: Control

    constructor (sample: Control)
      modifies sample`mlwfDist
      ensures s == sample && s.mlwfDist == 100000.0
    {
      s := sample;
      new;
      s.mlwfDist := 100000.0;
    }

    /** `MLWFDist v`: 1 (nothing changed) for a wrong count or v < 0;
        v == 0 is accepted. */
    method Set(argv: seq<string>, atof: string -> real) returns (status: int)
      modifies s`mlwfDist
      ensures status == 1 <==> |argv| != 2 || atof(argv[1]) < 0.0
      ensures status == 0 || status == 1
      ensures status == 1 ==> s.mlwfDist == old(s.mlwfDist)
      ensures status == 0 ==> s.mlwfDist == atof(argv[1]) && s.mlwfDist >= 0.0
    {
      if |argv| != 2 {
        return 1;
      }
      var v := atof(argv[1]);
      if v < 0.0 {
        return 1;
      }
      s.mlwfDist := v;
      return 0;
    }
  }
}
