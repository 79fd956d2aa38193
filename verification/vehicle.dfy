/** Model of class `Vehicle`: a brand and a color fixed at construction, and
    a `started` flag that `Start` raises and `Stop` lowers. */
module Vehicles {

  class Vehicle {
    var brand: string
    var color: string
    var started: bool

    /** A new vehicle has the given brand and color and is not started. */
    constructor (brand: string, color: string)
      ensures this.brand == brand && this.color == color
      ensures !started
    {
      this.brand := brand;
      this.color := color;
      started := false;
    }

    /** Raises the flag, whatever it was; brand and color stay. */
    method Start()
      modifies this`started
      ensures started
      ensures brand == old(brand) && color == old(color)
    {
      started := true;
    }

    /** Lowers the flag, whatever it was; brand and color stay. */
    method Stop()
      modifies this`started
      ensures !started
      ensures brand == old(brand) && color == old(color)
    {
      started := false;
    }
  }

  /** Starting any vehicle twice leaves it as starting it once does:
      started, with its brand and color unchanged. */
  method StartTwice(v: Vehicle)
    modifies v
    ensures v.started
    ensures v.brand == old(v.brand) && v.color == old(v.color)
  {
    v.Start();
    v.Start();
  }

  /** Stopping any vehicle twice leaves it as stopping it once does:
      not started, with its brand and color unchanged. */
  method StopTwice(v: Vehicle)
    modifies v
    ensures !v.started
    ensures v.brand == old(v.brand) && v.color == old(v.color)
  {
    v.Stop();
    v.Stop();
  }
}
