/** Eight-bit values and the few sequence helpers every other module uses. */
module Bytes {

  type byte = x: int | 0 <= x < 256

  datatype Option<+T> = None | Some(value: T)

  /** Conversion to uint8_t: the value modulo 256. */
  function U8(x: int): byte {
    x % 256
  }

  const SYSEX_START: byte := 0xF0
  const SYSEX_END: byte := 0xF7

  predicate IsData(b: byte) {
    b < 0x80
  }

  predicate IsRealtime(b: byte) {
    b >= 0xF8
  }

  /** The number of MIDI ports, NUM_MIDI_PORTS. */
  const PORTS: nat := 8

  /** A capture sweep runs on every third Timer0 tick, BOARD_T0_PRESCALE. */
  const PRESCALE: byte := 3

  /** The largest bulk packet of EP2, MIDI_EP_MAXPKT. */
  const MAXPKT := 64
}
