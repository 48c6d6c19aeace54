/** The isolated_electrostatic variable: only the Martyna-Tuckerman scheme
    "mt" is accepted. */
module IsolatedElectrostaticVar {
  import opened Ctrl

  class IsolatedElectrostatic {
    const s: Control

    constructor (sample: Control)
      modifies sample`isolatedElectrostatic
      ensures s == sample && s.isolatedElectrostatic == ""
    {
      s := sample;
      new;
      s.isolatedElectrostatic := "";
    }

    /** `isolated_electrostatic mt`: any other count or value gives 1 and
        changes nothing. */
    method Set(argv: seq<string>) returns (status: int)
      modifies s`isolatedElectrostatic
      ensures status == 0 <==> |argv| == 2 && argv[1] == "mt"
      ensures status == 1 <==> !(|argv| == 2 && argv[1] == "mt")
      ensures status == 0 ==> s.isolatedElectrostatic == "mt"
      ensures status == 1 ==> s.isolatedElectrostatic == old(s.isolatedElectrostatic)
    {
      if |argv| != 2 {
        return 1;
      }
      var v := argv[1];
      if !(v == "mt") {
        return 1;
      }
      s.isolatedElectrostatic := v;
      return 0;
    }
  }
}
