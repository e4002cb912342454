/**
  The ARGB `Color` struct of the Photoshop file library.  A colour is a
  packed value (a C# `long`) and a state word.  `FromArgb` range-checks its
  components and packs them as `(a << 24) + (r << 16) + (g << 8) + b` in
  32-bit int arithmetic, so an alpha of 128 or more gives a negative value.
  The byte getters shift the long arithmetically (Dafny's `/` by a positive
  constant is that floor shift) and keep the low 8 bits (`% 256`).
 */
module Colors {
  import opened CSharpInt
  import opened Wrappers

  /** The `ColorType` flags stored in the state word. */
  const KnownFlag: bv64 := 1
  const ArgbFlag: bv64 := 2
  const NamedFlag: bv64 := 4
  const SystemFlag: bv64 := 8

  const Shift8: int := 0x100
  const Shift16: int := 0x1_0000
  const Shift24: int := 0x100_0000

  datatype Color = Color(value: int, state: bv64) {

    /** `A`: `(byte)(Value >> 24)`. */
    function A(): int { (value / Shift24) % 256 }

    /** `R`: `(byte)(Value >> 16)`. */
    function R(): int { (value / Shift16) % 256 }

    /** `G`: `(byte)(Value >> 8)`. */
    function G(): int { (value / Shift8) % 256 }

    /** `B`: `(byte)Value`. */
    function B(): int { value % 256 }

    predicate IsEmpty() { state == 0 }

    predicate IsKnownColor() { state & KnownFlag != 0 }

    predicate IsNamedColor() { state & (KnownFlag | NamedFlag) != 0 }

    predicate IsSystemColor() { state & SystemFlag != 0 }

    /** `ToArgb()`: `(int)Value`, the low 32 bits of the long. */
    function ToArgb(): Int32 { Wrap(value) }
  }

  /** `Color.Empty`: the default struct. */
  const Empty: Color := Color(0, 0)

  /** Which component failed the range check (the `ArgumentException`'s parameter name). */
  datatype ColorError = OutOfRange(component: string, given: int)

  predicate IsByte(v: int) { 0 <= v <= 255 }

  /** `(alpha << 24) + (red << 16) + (green << 8) + blue` in 32-bit int arithmetic. */
  function Pack(a: int, r: int, g: int, b: int): Int32 {
    Wrap(a * Shift24 + r * Shift16 + g * Shift8 + b)
  }

  /**
    `FromArgb(alpha, red, green, blue)`: `CheckARGBValues` tests alpha, then
    red, green and blue, and throws for the first component outside 0..255;
    otherwise the colour has state ARGB (2) and the packed value.
   */
  function FromArgb(alpha: Int32, red: Int32, green: Int32, blue: Int32): (r: Result<Color, ColorError>)
    ensures r.Success? <==> IsByte(alpha) && IsByte(red) && IsByte(green) && IsByte(blue)
    ensures r.Success? ==>
      r.value.A() == alpha && r.value.R() == red && r.value.G() == green && r.value.B() == blue
    ensures r.Success? ==> r.value.state == ArgbFlag && MinInt <= r.value.value <= MaxInt
    ensures !IsByte(alpha) ==> r == Failure(OutOfRange("alpha", alpha))
    ensures IsByte(alpha) && !IsByte(red) ==> r == Failure(OutOfRange("red", red))
    ensures IsByte(alpha) && IsByte(red) && !IsByte(green) ==> r == Failure(OutOfRange("green", green))
    ensures IsByte(alpha) && IsByte(red) && IsByte(green) && !IsByte(blue) ==> r == Failure(OutOfRange("blue", blue))
  {
    if alpha > 255 || alpha < 0 then Failure(OutOfRange("alpha", alpha))
    else if red > 255 || red < 0 then Failure(OutOfRange("red", red))
    else if green > 255 || green < 0 then Failure(OutOfRange("green", green))
    else if blue > 255 || blue < 0 then Failure(OutOfRange("blue", blue))
    else
      PackUnpack(alpha, red, green, blue);
      Success(Color(Pack(alpha, red, green, blue), ArgbFlag))
  }

  /** `FromArgb(red, green, blue)`: delegates with alpha 255. */
  function FromRgb(red: Int32, green: Int32, blue: Int32): Result<Color, ColorError> {
    FromArgb(255, red, green, blue)
  }

  /** The four bytes `argb >> 24 & 255`, `argb >> 16 & 255`, `argb >> 8 & 255`, `argb & 255`. */
  function WordBytes(argb: Int32): (int, int, int, int) {
    ((argb / Shift24) % 256, (argb / Shift16) % 256, (argb / Shift8) % 256, argb % 256)
  }

  /** `FromArgb(int argb)`: splits the word into its four bytes; the range checks cannot fail. */
  function FromArgbWord(argb: Int32): (c: Color)
    ensures c.state == ArgbFlag
    ensures (c.A(), c.R(), c.G(), c.B()) == WordBytes(argb)
  {
    var (a, r, g, b) := WordBytes(argb);
    FromArgb(a, r, g, b).value
  }

  /** `FromArgb(int alpha, Color baseColor)`. */
  function FromAlphaAndBase(alpha: Int32, baseColor: Color): Result<Color, ColorError> {
    FromArgb(alpha, baseColor.R(), baseColor.G(), baseColor.B())
  }

  /** `operator ==`: same packed value and same System and Empty flags. */
  predicate ColorEq(left: Color, right: Color) {
    left.value == right.value && left.IsSystemColor() == right.IsSystemColor() && left.IsEmpty() == right.IsEmpty()
  }

  /** `operator !=`. */
  predicate ColorNotEq(left: Color, right: Color) {
    !ColorEq(left, right)
  }

  // ---------------------------------------------------------------------
  // Properties

  /** Unpacking a packed word gives back the four components. */
  lemma PackUnpack(a: int, r: int, g: int, b: int)
    requires IsByte(a) && IsByte(r) && IsByte(g) && IsByte(b)
    ensures var c := Color(Pack(a, r, g, b), ArgbFlag);
      c.A() == a && c.R() == r && c.G() == g && c.B() == b
  {
    var low := r * Shift16 + g * Shift8 + b;
    var x := a * Shift24 + low;
    var top := if a >= 128 then a - 256 else a;
    var v := top * Shift24 + low;
    if a >= 128 {
      WrapCongruent(x, v);
    }
    WrapInRange(v);
    assert Pack(a, r, g, b) == v;
    DivModUnique(v, Shift24, top, low);
    DivModUnique(top, 256, if a >= 128 then -1 else 0, a);
    DivModUnique(v, Shift16, top * 256 + r, g * Shift8 + b);
    DivModUnique(top * 256 + r, 256, top, r);
    DivModUnique(v, Shift8, (top * 256 + r) * 256 + g, b);
    DivModUnique((top * 256 + r) * 256 + g, 256, top * 256 + r, g);
    DivModUnique(v, 256, (top * 256 + r) * 256 + g, b);
  }

  /** Packing the four bytes of an int gives back the int. */
  lemma UnpackPack(v: Int32)
    ensures var (a, r, g, b) := WordBytes(v); Pack(a, r, g, b) == v
  {
    var (a, r, g, b) := WordBytes(v);
    var v1, v2, v3 := v / 256, v / Shift16, v / Shift24;
    assert v == v1 * 256 + b;
    DivModUnique(v1, 256, v1 / 256, v1 % 256);
    DivModUnique(v, Shift16, v1 / 256, (v1 % 256) * 256 + b);
    assert v2 == v1 / 256 && g == v1 % 256;
    DivModUnique(v, Shift24, v2 / 256, (v2 % 256) * Shift16 + g * 256 + b);
    assert v3 == v2 / 256 && r == v2 % 256;
    var v4 := v3 / 256;
    assert v3 == v4 * 256 + a;
    assert v == v4 * Modulus + (a * Shift24 + r * Shift16 + g * Shift8 + b);
    WrapCongruent(v, a * Shift24 + r * Shift16 + g * Shift8 + b);
    WrapInRange(v);
  }

  /** The three-argument `FromArgb` is opaque: alpha 255 and the given R, G, B. */
  lemma FromRgbIsOpaque(red: Int32, green: Int32, blue: Int32)
    requires IsByte(red) && IsByte(green) && IsByte(blue)
    ensures FromRgb(red, green, blue).Success?
    ensures var c := FromRgb(red, green, blue).value;
      c.A() == 255 && c.R() == red && c.G() == green && c.B() == blue
  {
  }

  /** `FromArgb(int)` keeps every bit of its argument: its packed value is the argument. */
  lemma FromArgbWordValue(argb: Int32)
    ensures FromArgbWord(argb).value == argb
    ensures FromArgbWord(argb).ToArgb() == argb
  {
    UnpackPack(argb);
    WrapInRange(argb);
  }

  /** `ToArgb` and `FromArgb(int)` are inverse on every colour `FromArgb` builds. */
  lemma ToArgbRoundTrip(alpha: Int32, red: Int32, green: Int32, blue: Int32)
    requires FromArgb(alpha, red, green, blue).Success?
    ensures var c := FromArgb(alpha, red, green, blue).value;
      FromArgbWord(c.ToArgb()) == c
  {
    var c := FromArgb(alpha, red, green, blue).value;
    WrapInRange(c.value);
    FromArgbWordValue(c.value);
  }

  /** `FromArgb(alpha, base)` keeps base's R, G, B and sets A. */
  lemma FromAlphaKeepsRgb(alpha: Int32, baseColor: Color)
    requires IsByte(alpha)
    ensures FromAlphaAndBase(alpha, baseColor).Success?
    ensures var c := FromAlphaAndBase(alpha, baseColor).value;
      c.A() == alpha && c.R() == baseColor.R() && c.G() == baseColor.G() && c.B() == baseColor.B()
  {
  }

  /** Built colours have state ARGB only: not empty, not known, not named, not system; Empty is empty. */
  lemma BuiltColorState(alpha: Int32, red: Int32, green: Int32, blue: Int32)
    requires FromArgb(alpha, red, green, blue).Success?
    ensures var c := FromArgb(alpha, red, green, blue).value;
      !c.IsEmpty() && !c.IsKnownColor() && !c.IsNamedColor() && !c.IsSystemColor()
    ensures Empty.IsEmpty() && !Empty.IsKnownColor() && !Empty.IsSystemColor()
  {
  }

  /** Between built colours, `==` holds exactly when all four components agree; `!=` is its negation. */
  lemma BuiltColorEquality(c: Color, d: Color)
    requires c.state == ArgbFlag && d.state == ArgbFlag
    requires MinInt <= c.value <= MaxInt && MinInt <= d.value <= MaxInt
    ensures ColorEq(c, d) <==> c == d
    ensures ColorEq(c, d) <==> c.A() == d.A() && c.R() == d.R() && c.G() == d.G() && c.B() == d.B()
    ensures ColorNotEq(c, d) <==> !ColorEq(c, d)
  {
    UnpackPack(c.value);
    UnpackPack(d.value);
  }

  /** A built colour never equals `Color.Empty`, not even transparent black. */
  lemma BuiltIsNotEmpty(alpha: Int32, red: Int32, green: Int32, blue: Int32)
    requires FromArgb(alpha, red, green, blue).Success?
    ensures ColorNotEq(FromArgb(alpha, red, green, blue).value, Empty)
  {
  }
}
