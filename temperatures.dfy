/** Time and temperature values shared by the driver layers. */
module Temperatures {
  import opened Wrappers

  /** A temperature in degrees Celsius; `None` is the "unknown" temperature. */
  type Temperature = Option<real>

  /** Milliseconds since boot. */
  type Uptime = nat

  /** The earliest uptime; a pending-conversion deadline equal to it means
      that no conversion is pending. */
  const Start: Uptime := 0

  /** How long a temperature conversion is given before the results are
      collected, in milliseconds. */
  const ConversionDelay: nat := 750

  /** A temperature together with the time it was taken. */
  datatype Reading = Reading(value: Temperature, time: Uptime)

  /** The reading a role holds before it is given one: unknown, at `Start`. */
  const NoReading: Reading := Reading(None, Start)
}
