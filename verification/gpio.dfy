/** Digital levels and the BCM pin numbers the plant monitor uses. */
module Gpio {

  /** A level read from or written to a digital line. */
  type Level = b: int | b == 0 || b == 1

  const LOW: Level := 0
  const HIGH: Level := 1

  const FAN_PIN := 24
  const PUMP_PIN := 23

  /** The fan is switched on from this temperature (degrees Celsius) up, by main's loop and by the actuator script alike. */
  const FAN_ON_TEMPERATURE := 25

  /** The level last written to each output pin. */
  type PinMap = map<int, Level>
}
