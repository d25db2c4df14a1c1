/**
 * The monitor record of the xrandr block, the machine integers it is made
 * of, and the errors the block propagates.
 */
module Monitors {

  const U32Modulus: int := 0x1_0000_0000

  /** Rust's `u32`. */
  type u32 = x: int | 0 <= x < 0x1_0000_0000

  /** Rust's `i32`. */
  type i32 = x: int | -0x8000_0000 <= x < 0x8000_0000

  /** The errors the block returns with `?`. */
  datatype Error =
    | CommandFailed         // running xrandr failed, or its output was not UTF-8
    | InvalidMonitorName    // `RegexSet::new` rejected one of the patterns
    | UnparsableBrightness  // the value after `Brightness:` is not a number
    | IndexUnderflow        // `monitors.len() - 1` with no monitors (a panic)

  /** One output: its name, its brightness in percent and its resolution label. */
  datatype Monitor = Monitor(name: string, brightness: u32, resolution: string)

  /** `x as i32` for a `u32`: the same 32 bits read as two's complement. */
  function AsI32(x: u32): (r: i32)
    ensures (r - x) % U32Modulus == 0
  {
    if x < 0x8000_0000 then x else x - U32Modulus
  }

  /** `x as u32` for an `i32`: the same 32 bits read as unsigned. */
  function AsU32(x: i32): (r: u32)
    ensures (r - x) % U32Modulus == 0
  {
    x % U32Modulus
  }

  /** `a + b` on `i32` as an optimised build computes it: wrapping on overflow. */
  function WrappingAdd(a: i32, b: i32): (r: i32)
    ensures (r - (a + b)) % U32Modulus == 0
  {
    var s := (a + b) % U32Modulus;
    if s < 0x8000_0000 then s else s - U32Modulus
  }

  /**
   * The state half of `Monitor::set_brightness`:
   * `brightness = (brightness as i32 + step) as u32`. The result is the sum
   * modulo 2^32, which is the exact sum whenever that fits in a `u32`.
   */
  function SetBrightness(m: Monitor, step: i32): (m': Monitor)
    ensures m'.name == m.name && m'.resolution == m.resolution
    ensures m'.brightness == (m.brightness + step) % U32Modulus
    ensures 0 <= m.brightness + step < U32Modulus ==> m'.brightness == m.brightness + step
  {
    m.(brightness := AsU32(WrappingAdd(AsI32(m.brightness), step)))
  }
}
