/** The driver's front object: owns the registry of thermometers and forwards
    `update` to it. */
module RooOneWire {
  import opened Temperatures
  import opened BusEnv
  import opened Registry

  class OneWire {
    const thermometers: Thermometers

    /** A driver with an empty registry and no conversion pending. */
    constructor()
      ensures fresh(thermometers) && thermometers.Valid()
      ensures thermometers.RomCodes() == [] && thermometers.listeners == {}
      ensures !thermometers.IsConversionPending() && thermometers.LastReadingTime() == Start
    {
      thermometers := new Thermometers();
    }

    /** Returns exactly what the registry's `update` returns: true while a
        conversion is pending, and otherwise whether the reset before the
        convert command was answered, however many thermometers were
        identified. */
    method Update(now: Uptime, bus: Bus) returns (ok: bool)
      requires thermometers.Valid()
      modifies thermometers
      ensures thermometers.Valid()
      ensures UpdateEffect(thermometers, now, bus, ok)
      ensures ok <==> old(thermometers.IsConversionPending()) || bus.convertPresence
    {
      ok := thermometers.Update(now, bus);
    }
  }
}
