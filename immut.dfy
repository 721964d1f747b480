/**
 * The bit layout of `ImmutableRGB.getRGB`: three bytes packed into a 32-bit
 * int, red in bits 16..23, green in bits 8..15, blue in bits 0..7.
 */
module RgbBits {

  /** `(red << 16) | (green << 8) | blue` on 32-bit ints whose values fit in a byte. */
  function Pack(red: bv8, green: bv8, blue: bv8): (packed: bv32)
  {
    (red as bv32 << 16) | (green as bv32 << 8) | blue as bv32
  }

  /** The shifted bytes occupy disjoint bits, so or-ing them adds them: the packed int is a base-256 numeral. */
  lemma PackValue(red: bv8, green: bv8, blue: bv8)
    ensures Pack(red, green, blue) as int == red as int * 0x1_0000 + green as int * 0x100 + blue as int
    ensures Pack(red, green, blue) as int <= 0xFF_FFFF
  {
    ShiftedDigits(red, green, blue);
  }

  /** `PackValue` for the packing expression written out, where the solver decides it by bit-blasting. */
  lemma ShiftedDigits(red: bv8, green: bv8, blue: bv8)
    ensures ((red as bv32 << 16) | (green as bv32 << 8) | blue as bv32) as int ==
      red as int * 0x1_0000 + green as int * 0x100 + blue as int
  {
  }

  /** Shifting and masking takes each byte back out. */
  lemma Unpack(red: bv8, green: bv8, blue: bv8)
    ensures (Pack(red, green, blue) >> 16) & 0xFF == red as bv32
    ensures (Pack(red, green, blue) >> 8) & 0xFF == green as bv32
    ensures Pack(red, green, blue) & 0xFF == blue as bv32
  {
  }

  /** On a byte, subtracting from 0xFF never wraps, so it is 255 minus the value. */
  lemma ComplementValue(x: bv8)
    ensures (0xFF - x) as int == 255 - x as int
  {
  }

  /** Complementing every byte complements the packed value within 24 bits. */
  lemma PackComplement(red: bv8, green: bv8, blue: bv8)
    ensures Pack(0xFF - red, 0xFF - green, 0xFF - blue) == 0xFF_FFFF - Pack(red, green, blue)
  {
  }
}

/**
 * `ImmutableRGB`: a colour with three components and a name, fixed at
 * construction. Instances are values; "changing" one means building a new
 * one, as `Invert` does. The constructor admits only components in 0..255,
 * so each `int` field holds a value that fits in one byte and is kept here
 * as that byte (`bv8`); `red as int` is the Java field's value.
 */
module Immut {
  import opened Options
  import RgbBits

  datatype ImmutableRGB = ImmutableRGB(red: bv8, green: bv8, blue: bv8, name: string)

  datatype Exception = IllegalArgumentException

  /** A component value the constructor accepts. */
  predicate InRange(component: int)
  {
    0 <= component <= 255
  }

  /** `check`: the exception thrown when some component lies outside 0..255. */
  function Check(red: int, green: int, blue: int): (thrown: Option<Exception>)
    ensures thrown.None? <==> InRange(red) && InRange(green) && InRange(blue)
  {
    if red < 0 || red > 255 ||
       green < 0 || green > 255 ||
       blue < 0 || blue > 255
    then Some(IllegalArgumentException)
    else None
  }

  /**
   * The byte holding a component in 0..255. It is the conversion `component as bv8`,
   * written as a count up in 8-bit arithmetic because the solver relates such a
   * recursion to its `int` value far more cheaply than the direct conversion.
   */
  function Byte(component: int): (b: bv8)
    requires InRange(component)
    ensures b as int == component
  {
    if component == 0 then 0 else Byte(component - 1) + 1
  }

  /** The constructor: an instance exactly when every component is in range, otherwise the exception. */
  function New(red: int, green: int, blue: int, name: string): (r: Result<ImmutableRGB, Exception>)
    ensures r.Ok? <==> InRange(red) && InRange(green) && InRange(blue)
    ensures r.Ok? ==> r.value.red as int == red && r.value.green as int == green && r.value.blue as int == blue
    ensures r.Ok? ==> r.value.name == name
    ensures r.Err? ==> r.error == IllegalArgumentException
  {
    match Check(red, green, blue)
    case Some(e) => Err(e)
    case None => Ok(ImmutableRGB(Byte(red), Byte(green), Byte(blue), name))
  }

  /** `getRGB`: the 32-bit int `(red << 16) | (green << 8) | blue`; its top byte is clear, so it is never negative. */
  function GetRGB(c: ImmutableRGB): (rgb: bv32)
    ensures rgb >> 24 == 0
  {
    RgbBits.Pack(c.red, c.green, c.blue)
  }

  /** The packed int is red * 65536 + green * 256 + blue, and lies in 0..0xFFFFFF. */
  lemma GetRGBValue(c: ImmutableRGB)
    ensures GetRGB(c) as int == c.red as int * 0x1_0000 + c.green as int * 0x100 + c.blue as int
    ensures 0 <= GetRGB(c) as int <= 0xFF_FFFF
  {
    RgbBits.PackValue(c.red, c.green, c.blue);
  }

  /** Shifting and masking the packed value gives back each component. */
  lemma PackRoundTrip(c: ImmutableRGB)
    ensures (GetRGB(c) >> 16) & 0xFF == c.red as bv32
    ensures (GetRGB(c) >> 8) & 0xFF == c.green as bv32
    ensures GetRGB(c) & 0xFF == c.blue as bv32
  {
    RgbBits.Unpack(c.red, c.green, c.blue);
  }

  /** Two bytes with the same value are the same byte. */
  lemma SameByte(a: bv8, b: bv8)
    requires a as int == b as int
    ensures a == b
  {
  }

  /** Converting 255 minus a byte's value gives the byte's complement. */
  lemma ByteComplement(x: bv8)
    ensures Byte(255 - x as int) == 0xFF - x
  {
    RgbBits.ComplementValue(x);
    SameByte(Byte(255 - x as int), 0xFF - x);
  }

  /** `invert`: a new instance with every component replaced by 255 minus it; it never throws. */
  function Invert(c: ImmutableRGB): (r: Result<ImmutableRGB, Exception>)
    ensures r.Ok?
    ensures r.value.red == 0xFF - c.red
    ensures r.value.green == 0xFF - c.green
    ensures r.value.blue == 0xFF - c.blue
    ensures r.value.name == "Inverse of " + c.name
  {
    ByteComplement(c.red);
    ByteComplement(c.green);
    ByteComplement(c.blue);
    New(255 - c.red as int, 255 - c.green as int, 255 - c.blue as int, "Inverse of " + c.name)
  }

  /** Inverting twice restores every component; only the name records the two inversions. */
  lemma InvertTwice(c: ImmutableRGB)
    ensures Invert(Invert(c).value).value.red == c.red
    ensures Invert(Invert(c).value).value.green == c.green
    ensures Invert(Invert(c).value).value.blue == c.blue
    ensures Invert(Invert(c).value).value.name == "Inverse of Inverse of " + c.name
  {
  }

  /** The inverse's packed value is the packed value's complement within 24 bits. */
  lemma InvertPacked(c: ImmutableRGB)
    ensures GetRGB(Invert(c).value) == 0xFF_FFFF - GetRGB(c)
  {
    RgbBits.PackComplement(c.red, c.green, c.blue);
  }
}
