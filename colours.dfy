/** The colour value the converter produces: System.Drawing.Color built from four channels. */
module Colours {
  import opened Wrappers

  /** Alpha, red, green and blue channels, as the ints handed to Color.FromArgb. */
  datatype Argb = Argb(a: int, r: int, g: int, b: int) {
    /** Every channel is a byte. */
    predicate InRange() {
      0 <= a <= 255 && 0 <= r <= 255 && 0 <= g <= 255 && 0 <= b <= 255
    }
  }

  /** Color.FromArgb(alpha, red, green, blue): refuses (with an ArgumentException) any channel outside 0..255. */
  function FromArgb(alpha: int, red: int, green: int, blue: int): (r: Option<Argb>)
    ensures r.Some? <==> Argb(alpha, red, green, blue).InRange()
    ensures r.Some? ==> r.value == Argb(alpha, red, green, blue)
  {
    var c := Argb(alpha, red, green, blue);
    if c.InRange() then Some(c) else None
  }
}
