/**
  Packed 32-bit RGBA colours: `Snowy.rgba` and the `Integer` refinements
  of `Snowy::Extentions` (red in bits 24..31, green 16..23, blue 8..15,
  alpha 0..7).
 */
module Colors {
  import opened Bits
  import opened Bytes

  /** `Numeric#clamp(min, max)` as the refinement defines it. */
  function Clamp(v: int, min: int, max: int): (r: int)
    ensures min <= max ==> min <= r <= max
    ensures min <= v <= max ==> r == v
    ensures v < min ==> r == min
    ensures v > max && min <= max ==> r == max
  {
    if v < min then min
    else if v > max then max
    else v
  }

  /** One colour component: `v.to_i.clamp(0, 255)`. */
  function Component(v: int): (c: byte)
  {
    Clamp(v, 0, 255)
  }

  /** `Snowy.rgba(r, g, b, a = 255)`. */
  function Rgba(r: int, g: int, b: int, a: int := 255): nat
  {
    Or(Or(Or(Shl(Component(r), 24), Shl(Component(g), 16)), Shl(Component(b), 8)), Component(a))
  }

  function GetRed(c: nat): nat { And(0xff, Shr(c, 24)) }

  function GetGreen(c: nat): nat { And(0xff, Shr(c, 16)) }

  function GetBlue(c: nat): nat { And(0xff, Shr(c, 8)) }

  function GetAlpha(c: nat): nat { And(0xff, c) }

  /** `[c >> 24, c >> 16, c >> 8].pack("C3")`. */
  function PackRgb(c: nat): (s: seq<byte>)
    ensures |s| == 3
  {
    [PackC(Shr(c, 24)), PackC(Shr(c, 16)), PackC(Shr(c, 8))]
  }

  /** `[c].pack("N")`. */
  function PackRgba(c: nat): (s: seq<byte>)
    ensures |s| == 4
  {
    PackN(c)
  }

  /** Bit `k` of a packed colour, by the field that holds it. */
  lemma BitRgba(r: int, g: int, b: int, a: int, k: nat)
    ensures Bit(Rgba(r, g, b, a), k) ==
      if k < 8 then Bit(Component(a), k)
      else if k < 16 then Bit(Component(b), k - 8)
      else if k < 24 then Bit(Component(g), k - 16)
      else if k < 32 then Bit(Component(r), k - 24)
      else 0
  {
    var R, G, B, A := Component(r), Component(g), Component(b), Component(a);
    BitOr(Or(Or(Shl(R, 24), Shl(G, 16)), Shl(B, 8)), A, k);
    BitOr(Or(Shl(R, 24), Shl(G, 16)), Shl(B, 8), k);
    BitOr(Shl(R, 24), Shl(G, 16), k);
    BitShl(R, 24, k);
    BitShl(G, 16, k);
    BitShl(B, 8, k);
    if k >= 8 { ByteHighBits(A, k); }
    if k >= 16 { ByteHighBits(B, k - 8); }
    if k >= 24 { ByteHighBits(G, k - 16); }
    if k >= 32 { ByteHighBits(R, k - 24); }
  }

  /** Every packed colour fits in 32 bits. */
  lemma RgbaBound(r: int, g: int, b: int, a: int)
    ensures Rgba(r, g, b, a) < 0x1_0000_0000
  {
    forall k: nat | k >= 32 ensures Bit(Rgba(r, g, b, a), k) == 0 {
      BitRgba(r, g, b, a, k);
    }
    BelowFromBits(Rgba(r, g, b, a), 32);
    Pow2Values();
  }

  /** Unpacking the byte at bit offset `sh` of a colour gives that field. */
  lemma {:induction false} FieldOf(c: nat, sh: nat, v: byte)
    requires forall k: nat :: k < 8 ==> Bit(c, k + sh) == Bit(v, k)
    ensures And(0xff, Shr(c, sh)) == v
    ensures PackC(Shr(c, sh)) == v
  {
    Pow2Values();
    AndComm(0xff, Shr(c, sh));
    forall k: nat ensures Bit(And(Shr(c, sh), Mask(8)), k) == Bit(v, k) {
      BitAndMask(Shr(c, sh), 8, k);
      BitShr(c, sh, k);
      if k >= 8 { ByteHighBits(v, k); }
    }
    BitsEqual(And(Shr(c, sh), Mask(8)), v);
  }

  /**
    Round trip: the `get_*` refinements of `rgba(r, g, b, a)` give back
    the clamped components, and `pack_rgb` / `pack_rgba` their bytes.
   */
  lemma {:induction false} RgbaRoundTrip(r: int, g: int, b: int, a: int)
    ensures GetRed(Rgba(r, g, b, a)) == Clamp(r, 0, 255)
    ensures GetGreen(Rgba(r, g, b, a)) == Clamp(g, 0, 255)
    ensures GetBlue(Rgba(r, g, b, a)) == Clamp(b, 0, 255)
    ensures GetAlpha(Rgba(r, g, b, a)) == Clamp(a, 0, 255)
    ensures PackRgb(Rgba(r, g, b, a)) == [Clamp(r, 0, 255), Clamp(g, 0, 255), Clamp(b, 0, 255)]
    ensures PackRgba(Rgba(r, g, b, a)) == [Clamp(r, 0, 255), Clamp(g, 0, 255), Clamp(b, 0, 255), Clamp(a, 0, 255)]
  {
    var c := Rgba(r, g, b, a);
    forall k: nat | k < 8
      ensures Bit(c, k + 24) == Bit(Component(r), k)
      ensures Bit(c, k + 16) == Bit(Component(g), k)
      ensures Bit(c, k + 8) == Bit(Component(b), k)
      ensures Bit(c, k + 0) == Bit(Component(a), k)
    {
      BitRgba(r, g, b, a, k + 24);
      BitRgba(r, g, b, a, k + 16);
      BitRgba(r, g, b, a, k + 8);
      BitRgba(r, g, b, a, k);
    }
    FieldOf(c, 24, Component(r));
    FieldOf(c, 16, Component(g));
    FieldOf(c, 8, Component(b));
    FieldOf(c, 0, Component(a));
    assert Shr(c, 0) == c;
  }

  /** `pack_rgb` writes exactly the red, green and blue components, in that order. */
  lemma PackRgbComponents(c: nat)
    ensures PackRgb(c) == [GetRed(c), GetGreen(c), GetBlue(c)]
    ensures PackRgba(c)[..3] == PackRgb(c) && PackRgba(c)[3] == GetAlpha(c)
  {
    Pow2Values();
    AndComm(0xff, Shr(c, 24));
    AndComm(0xff, Shr(c, 16));
    AndComm(0xff, Shr(c, 8));
    AndComm(0xff, c);
  }
}
