/** The engine's colour value: four 8-bit channels and their lossless packing
    into one 32-bit word (alpha in the high byte, blue in the low byte), the
    four pixel modes, and the named colour constants. */
module Pixels {

  datatype Pixel = Pixel(a: bv8, r: bv8, g: bv8, b: bv8)

  /** How `draw` composites a pixel into the draw target. */
  datatype PixelMode = Normal | Mask | Alpha | Custom

  /** An opaque colour. */
  function Rgb(r: bv8, g: bv8, b: bv8): (p: Pixel)
    ensures p.a == 255 && p.r == r && p.g == g && p.b == b
  {
    Pixel(255, r, g, b)
  }

  /** A colour with an explicit alpha; the arguments come in the order r, g, b, a. */
  function Rgba(r: bv8, g: bv8, b: bv8, a: bv8): (p: Pixel)
    ensures p.a == a && p.r == r && p.g == g && p.b == b
  {
    Pixel(a, r, g, b)
  }

  /** `Pixel::default()`: opaque black, not the all-zero word. */
  function Default(): (p: Pixel)
  {
    Rgb(0, 0, 0)
  }

  function Pack(p: Pixel): bv32
  {
    ((p.a as bv32) << 24) | ((p.r as bv32) << 16) | ((p.g as bv32) << 8) | (p.b as bv32)
  }

  /** Each channel is the corresponding byte of the word (`as u8` keeps the low byte). */
  function Unpack(v: bv32): Pixel
  {
    Pixel(((v >> 24) & 0xFF) as bv8, ((v >> 16) & 0xFF) as bv8,
          ((v >> 8) & 0xFF) as bv8, (v & 0xFF) as bv8)
  }

  lemma UnpackPack(p: Pixel)
    ensures Unpack(Pack(p)) == p
  {
  }

  lemma PackUnpack(v: bv32)
    ensures Pack(Unpack(v)) == v
  {
  }

  /** Alpha, red, green and blue occupy the packed word's bytes from the
      high byte down. */
  lemma PackLayout(p: Pixel)
    ensures Pack(p) >> 24 == p.a as bv32
    ensures (Pack(p) >> 16) & 0xFF == p.r as bv32
    ensures (Pack(p) >> 8) & 0xFF == p.g as bv32
    ensures Pack(p) & 0xFF == p.b as bv32
    ensures Pack(Pixel(p.a, 0, 0, 0)) == (p.a as bv32) * 0x100_0000
  {
  }

  lemma DefaultIsOpaqueBlack()
    ensures Pack(Default()) == 0xFF00_0000 && Pack(Default()) != 0
  {
  }

  const GREY: Pixel              := Pixel(255, 192, 192, 192)
  const DARK_GREY: Pixel         := Pixel(255, 128, 128, 128)
  const VERY_DARK_GREY: Pixel    := Pixel(255, 64, 64, 64)
  const RED: Pixel               := Pixel(255, 255, 0, 0)
  const DARK_RED: Pixel          := Pixel(255, 128, 0, 0)
  const VERY_DARK_RED: Pixel     := Pixel(255, 64, 0, 0)
  const YELLOW: Pixel            := Pixel(255, 255, 255, 0)
  const DARK_YELLOW: Pixel       := Pixel(255, 128, 128, 0)
  const VERY_DARK_YELLOW: Pixel  := Pixel(255, 64, 64, 0)
  const GREEN: Pixel             := Pixel(255, 0, 255, 0)
  const DARK_GREEN: Pixel        := Pixel(255, 0, 128, 0)
  const VERY_DARK_GREEN: Pixel   := Pixel(255, 0, 64, 0)
  const CYAN: Pixel              := Pixel(255, 0, 255, 255)
  const DARK_CYAN: Pixel         := Pixel(255, 0, 128, 128)
  const VERY_DARK_CYAN: Pixel    := Pixel(255, 0, 64, 64)
  const BLUE: Pixel              := Pixel(255, 0, 0, 255)
  const DARK_BLUE: Pixel         := Pixel(255, 0, 0, 128)
  const VERY_DARK_BLUE: Pixel    := Pixel(255, 0, 0, 64)
  const MAGENTA: Pixel           := Pixel(255, 255, 0, 255)
  const DARK_MAGENTA: Pixel      := Pixel(255, 128, 0, 128)
  const VERY_DARK_MAGENTA: Pixel := Pixel(255, 64, 0, 64)
  const WHITE: Pixel             := Pixel(255, 255, 255, 255)
  const BLACK: Pixel             := Pixel(255, 0, 0, 0)
  const BLANK: Pixel             := Pixel(0, 0, 0, 0)

  /** Every named colour, in declaration order. */
  const Palette: seq<Pixel> := [
    GREY, DARK_GREY, VERY_DARK_GREY, RED, DARK_RED, VERY_DARK_RED,
    YELLOW, DARK_YELLOW, VERY_DARK_YELLOW, GREEN, DARK_GREEN, VERY_DARK_GREEN,
    CYAN, DARK_CYAN, VERY_DARK_CYAN, BLUE, DARK_BLUE, VERY_DARK_BLUE,
    MAGENTA, DARK_MAGENTA, VERY_DARK_MAGENTA, WHITE, BLACK, BLANK]

  /** BLANK is transparent black, packs to the all-zero word, and is the only
      named colour that is not fully opaque. */
  lemma BlankIsOnlyTranslucentColour()
    ensures Pack(BLANK) == 0 && Unpack(0) == BLANK
    ensures forall i :: 0 <= i < |Palette| ==> (Palette[i].a != 255 <==> Palette[i] == BLANK)
  {
  }
}
