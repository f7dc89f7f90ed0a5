/** Packed 32-bit ARGB pixels, as `BufferedImage.getRGB` and `setRGB` exchange them. */
module Pixels {

  /** The unsigned reading of a packed ARGB word: alpha in bits 24-31, red in 16-23,
      green in 8-15, blue in 0-7. Java holds the same bits in a signed `int`. */
  type Argb = v: int | 0 <= v < 0x1_0000_0000

  /** One 8-bit channel value. */
  type Byte = v: int | 0 <= v < 256

  datatype Channel = Alpha | Red | Green | Blue

  /** `(rgb >> shift) & 0xFF` with shifts 24, 16, 8 and 0: on the unsigned reading, each
      shift by 8 is a division by 256 and the mask a remainder modulo 256. */
  function ChannelOf(p: Argb, c: Channel): Byte
  {
    match c
    case Alpha => p / 256 / 256 / 256 % 256
    case Red => p / 256 / 256 % 256
    case Green => p / 256 % 256
    case Blue => p % 256
  }

  /** `(a << 24) | (r << 16) | (g << 8) | b`: the four bytes do not overlap, so the
      bitwise or is a sum of the shifted bytes. */
  function Pack(a: Byte, r: Byte, g: Byte, b: Byte): Argb
  {
    ((a * 256 + r) * 256 + g) * 256 + b
  }

  /** `Color.BLACK.getRGB()`: opaque black. */
  const Black: Argb := 0xFF00_0000

  /** `Color.WHITE.getRGB()`: opaque white. */
  const White: Argb := 0xFFFF_FFFF

  /** Unpacking a packed pixel gives back each of the four bytes. */
  lemma UnpackPack(a: Byte, r: Byte, g: Byte, b: Byte)
    ensures ChannelOf(Pack(a, r, g, b), Alpha) == a
    ensures ChannelOf(Pack(a, r, g, b), Red) == r
    ensures ChannelOf(Pack(a, r, g, b), Green) == g
    ensures ChannelOf(Pack(a, r, g, b), Blue) == b
  {
    ShiftByte((a * 256 + r) * 256 + g, b);
    ShiftByte(a * 256 + r, g);
    ShiftByte(a, r);
  }

  /** Shifting a byte in from the right and back out again. */
  lemma ShiftByte(q: nat, v: Byte)
    ensures (q * 256 + v) / 256 == q && (q * 256 + v) % 256 == v
  {
  }

  /** Packing the four channels of a pixel gives back the pixel. */
  lemma PackUnpack(p: Argb)
    ensures Pack(ChannelOf(p, Alpha), ChannelOf(p, Red), ChannelOf(p, Green), ChannelOf(p, Blue)) == p
  {
  }
}
