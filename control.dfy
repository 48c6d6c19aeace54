/**
 * The control record of a sample: the settings the command variables write.
 * Only the fields the modelled variables and commands touch are present.
 */
module Ctrl {
  import opened Numbers

  class Control {
    /** gauss_field holds three values: t0, width and frequency. */
    const gaussField: array<real>
    var computeGaussianField: bool
    var xc: string
    var hf: real
    var isolatedElectrostatic: string
    var computeSineField: bool
    var sineField: real
    var caldipfreq: int
    var mlwfDist: real
    var efieldAmp: Vec3
    var ultrasoft: bool
    var nlcc: bool

    ghost predicate Valid()
      reads this
    {
      gaussField.Length == 3
    }

    constructor ()
      ensures Valid() && fresh(gaussField)
    {
      gaussField := new real[3](_ => 0.0);
    }
  }
}
