/**
 * The fan and pump decision script: the fan follows the DHT11 temperature,
 * the pump follows the soil line, both through active-low relays.
 */
module Actuators {
  import opened Wrappers
  import opened Gpio
  import opened Dht11Frame

  /**
   * The script's top-level statements over the pin levels last written. With
   * no DHT11 result the fan pin is left as it was and its status is "Unknown";
   * the pump decision reads only the soil line (1 = dry).
   */
  method SetActuators(pins: PinMap, dht: Option<Reading>, soilState: int)
    returns (out: PinMap, fanStatus: string, pumpStatus: string)
    ensures dht.Some? && dht.value.temperature >= FAN_ON_TEMPERATURE ==>
              FAN_PIN in out && out[FAN_PIN] == LOW && fanStatus == "ON"
    ensures dht.Some? && dht.value.temperature < FAN_ON_TEMPERATURE ==>
              FAN_PIN in out && out[FAN_PIN] == HIGH && fanStatus == "OFF"
    ensures dht.None? ==>
              fanStatus == "Unknown" &&
              (FAN_PIN in out <==> FAN_PIN in pins) &&
              (FAN_PIN in pins ==> out[FAN_PIN] == pins[FAN_PIN])
    ensures soilState == 1 ==> PUMP_PIN in out && out[PUMP_PIN] == LOW && pumpStatus == "ON"
    ensures soilState != 1 ==> PUMP_PIN in out && out[PUMP_PIN] == HIGH && pumpStatus == "OFF"
    ensures forall p :: p != FAN_PIN && p != PUMP_PIN ==>
              (p in out <==> p in pins) && (p in pins ==> out[p] == pins[p])
  {
    out := pins;
    if dht.Some? {
      var temperature := dht.value.temperature;
      if temperature >= FAN_ON_TEMPERATURE {
        out := out[FAN_PIN := LOW];
        fanStatus := "ON";
      } else {
        out := out[FAN_PIN := HIGH];
        fanStatus := "OFF";
      }
    } else {
      fanStatus := "Unknown";
    }

    if soilState == 1 {
      out := out[PUMP_PIN := LOW];
      pumpStatus := "ON";
    } else {
      out := out[PUMP_PIN := HIGH];
      pumpStatus := "OFF";
    }
  }

}
