/** The xc variable: the exchange-correlation functional by name (the build
    without the external functional library). */
module XcVar {
  import opened Ctrl

  /** The accepted functional names. */
  predicate Known(v: string)
  {
    v in {"LDA", "PBE", "PBEsol", "PBErev", "BLYP", "HF", "PBE0", "RSH"}
  }

  class Xc {
    const s: Control

    constructor (sample: Control)
      modifies sample`xc, sample`hf
      ensures s == sample && s.xc == "LDA" && s.hf == 0.0
    {
      s := sample;
      new;
      s.xc := "LDA";
      s.hf := 0.0;
    }

    /**
     * `xc name`: 1 (nothing changed) for a wrong argument count or an
     * unknown name; otherwise the name is stored and Hartree-Fock sets the
     * exact-exchange fraction to 1, leaving it alone for every other name.
     * argv[1] is read before the count is checked, so it must exist.
     */
    method Set(argv: seq<string>) returns (status: int)
      requires |argv| >= 2
      modifies s`xc, s`hf
      ensures status == 1 <==> |argv| != 2 || !Known(argv[1])
      ensures status == 1 ==> s.xc == old(s.xc) && s.hf == old(s.hf)
      ensures status == 0 ==> s.xc == argv[1]
      ensures status == 0 ==> s.hf == (if argv[1] == "HF" then 1.0 else old(s.hf))
      ensures status == 0 || status == 1
    {
      var v := argv[1];
      if |argv| != 2 {
        return 1;
      } else if !(v == "LDA" || v == "PBE" || v == "PBEsol" || v == "PBErev" || v == "BLYP"
                  || v == "HF" || v == "PBE0" || v == "RSH") {
        return 1;
      }
      s.xc := v;
      if v == "HF" {
        s.hf := 1.0;
      }
      return 0;
    }
  }
}
