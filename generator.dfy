/**
  `Snowy.generate_to_png` up to the hand-off to the renderer: turns a
  code into the colours and the triangle list of one wedge of the
  snowflake.
 */
module Generator {
  import opened Bits
  import opened Bytes
  import opened Wrappers
  import opened Colors
  import opened Pattern
  import Crc32

  /** The `code` argument: an Integer, or a String hashed with `Zlib.crc32`. */
  datatype Code = Number(n: nat) | Text(s: seq<byte>)

  /**
    The `outline:` argument: `nil` (derive one from the fill), `false` (no
    outline: the renderer adds no third palette entry and skips its outline
    pass), or a colour.
   */
  datatype OutlineArg = Derive | NoOutline | Given(color: nat)

  /**
    What `generate_to_png` passes to `driver.render` (besides `size` and
    `angle`); `outline` is `None` for `false`.
   */
  datatype Design = Design(triangles: seq<Triangle>, background: nat, fill: nat, outline: Option<nat>)

  function CodeValue(code: Code): nat
  {
    match code
    case Number(n) => n
    case Text(s) => Crc32.Crc(s) as int
  }

  /** Bits `lo .. lo+w-1` of `n`, read as a `w`-bit number. */
  function Field(n: nat, lo: nat, w: nat): (r: nat)
    ensures r < Pow2(w)
    decreases w
  {
    if w == 0 then 0 else Bit(n, lo) + 2 * Field(n, lo + 1, w - 1)
  }

  /** With `extendcap`: `code ^ (code >> 16) ^ ((code & 0xffff) << 16)`. */
  function Mix(code: nat): nat
  {
    Xor(Xor(code, Shr(code, 16)), Shl(And(code, 0xffff), 16))
  }

  /** The code whose bits the rings read. */
  function WorkingCode(code: nat, extendcap: bool): nat
  {
    if extendcap then Mix(code) else code
  }

  /**
    Bit `k` of the mixed code is bit `k` of the code, flipped by bit
    `k + 16` and, for `16 <= k < 32`, by bit `k - 16`.
   */
  lemma MixBit(code: nat, k: nat)
    ensures Bit(Mix(code), k) == (Bit(code, k) + Bit(code, k + 16) + (if 16 <= k < 32 then Bit(code, k - 16) else 0)) % 2
  {
    var low := And(code, 0xffff);
    var upper := Shl(low, 16);
    var folded := Xor(code, Shr(code, 16));
    BitXor(code, Shr(code, 16), k);
    BitShr(code, 16, k);
    assert Bit(folded, k) == (Bit(code, k) + Bit(code, k + 16)) % 2;
    BitShl(low, 16, k);
    if k >= 16 {
      MaskValues();
      BitAndMask(code, 16, k - 16);
    }
    assert Bit(upper, k) == if 16 <= k < 32 then Bit(code, k - 16) else 0;
    BitXor(folded, upper, k);
    Parity(Bit(code, k), Bit(code, k + 16), Bit(upper, k));
  }

  lemma Parity(x: nat, y: nat, z: nat)
    requires x <= 1 && y <= 1 && z <= 1
    ensures ((x + y) % 2 + z) % 2 == (x + y + z) % 2
  {
  }

  /**
    For a 32-bit code the mixed code is 32 bits wide and its two halves
    are equal: bit `k + 16` repeats bit `k`, so with `extendcap` ring
    bits 16..27 repeat bits 0..11.
   */
  lemma MixHalves(code: nat)
    requires code < 0x1_0000_0000
    ensures Mix(code) < 0x1_0000_0000
    ensures forall k: nat :: k < 16 ==> Bit(Mix(code), k + 16) == Bit(Mix(code), k)
  {
    Pow2Values();
    forall k: nat | k >= 32 ensures Bit(code, k) == 0 {
      BitAboveWidth(code, 32, k);
    }
    forall k: nat | k >= 32 ensures Bit(Mix(code), k) == 0 {
      MixBit(code, k);
    }
    BelowFromBits(Mix(code), 32);
    forall k: nat | k < 16 ensures Bit(Mix(code), k + 16) == Bit(Mix(code), k) {
      MixBit(code, k);
      MixBit(code, k + 16);
    }
  }

  lemma {:induction false} BitField(n: nat, lo: nat, w: nat, k: nat)
    ensures Bit(Field(n, lo, w), k) == if k < w then Bit(n, lo + k) else 0
    decreases w
  {
    if w == 0 {
      BitOfZero(k);
    } else if k > 0 {
      BitField(n, lo + 1, w - 1, k - 1);
    }
  }

  /** `(n >> lo) & (2^w - 1)` is the field of bits `lo .. lo+w-1`. */
  lemma ShrMaskIsField(n: nat, lo: nat, w: nat)
    ensures And(Shr(n, lo), Mask(w)) == Field(n, lo, w)
  {
    forall k: nat ensures Bit(And(Shr(n, lo), Mask(w)), k) == Bit(Field(n, lo, w), k) {
      BitAndMask(Shr(n, lo), w, k);
      BitShr(n, lo, k);
      BitField(n, lo, w, k);
    }
    BitsEqual(And(Shr(n, lo), Mask(w)), Field(n, lo, w));
  }

  /** `(nibble << 3) | 0x80` for a 4-bit `nibble` is `128 + 8 * nibble`. */
  lemma ShadeValue(nibble: nat)
    requires nibble < 16
    ensures Or(Shl(nibble, 3), 0x80) == 128 + 8 * nibble
  {
    Pow2Values();
    ShlIsProduct(nibble, 3);
    ShlIsProduct(1, 7);
    assert Pow2(7) == 128;
    forall k: nat ensures Bit(Shl(nibble, 3), k) == 0 || Bit(0x80, k) == 0 {
      BitShl(nibble, 3, k);
      BitShl(1, 7, k);
      if k >= 7 { BitAboveWidth(nibble, 4, k - 3); }
      if k != 7 && k >= 7 { BitOfZero(k - 7 - 1); }
    }
    OrDisjoint(Shl(nibble, 3), 0x80);
  }

  /**
    The colour a code derives when none is given: red, green and blue are
    `128 + 8 * n` for `n` the code's bits 28..31, 24..27 and 20..23.
   */
  function DerivedShade(code: nat, lo: nat): nat
  {
    128 + 8 * Field(code, lo, 4)
  }

  /**
    The fill and outline colours of `generate_to_png`: a given `color` is
    kept, otherwise the code's top three nibbles become light shades; only
    a `nil` outline is derived, as the fill darkened to seven eighths with
    the fill's alpha; `false` stays "no outline".
   */
  method PickColors(code: nat, color: Option<nat>, outline: OutlineArg) returns (fill: nat, line: Option<nat>)
    ensures color.Some? ==> fill == color.value
    ensures color.None? ==>
      && GetRed(fill) == DerivedShade(code, 28)
      && GetGreen(fill) == DerivedShade(code, 24)
      && GetBlue(fill) == DerivedShade(code, 20)
      && GetAlpha(fill) == 255
    ensures line.None? <==> outline == NoOutline
    ensures outline.Given? ==> line == Some(outline.color)
    ensures outline == Derive ==>
      && line.Some?
      && GetRed(line.value) == GetRed(fill) * 7 / 8
      && GetGreen(line.value) == GetGreen(fill) * 7 / 8
      && GetBlue(line.value) == GetBlue(fill) * 7 / 8
      && GetAlpha(line.value) == GetAlpha(fill)
  {
    var r: nat, g: nat, b: nat := 0, 0, 0;
    var a: Option<nat> := None;
    if color.Some? {
      fill := color.value;
      if outline == Derive {
        r := GetRed(fill);
        g := GetGreen(fill);
        b := GetBlue(fill);
        a := Some(GetAlpha(fill));
      }
    } else {
      r := And(Shr(code, 28), 0x0f);
      g := And(Shr(code, 24), 0x0f);
      b := And(Shr(code, 20), 0x0f);
      Pow2Values();
      ShrMaskIsField(code, 28, 4);
      ShrMaskIsField(code, 24, 4);
      ShrMaskIsField(code, 20, 4);
      ShadeValue(r);
      ShadeValue(g);
      ShadeValue(b);
      r := Or(Shl(r, 3), 0x80);
      g := Or(Shl(g, 3), 0x80);
      b := Or(Shl(b, 3), 0x80);
      fill := Rgba(r, g, b);
      RgbaRoundTrip(r, g, b, 255);
    }

    match outline
    case Derive =>
      var alpha := if a.Some? then a.value else 0xff;
      line := Some(Rgba(r * 7 / 8, g * 7 / 8, b * 7 / 8, alpha));
      RgbaRoundTrip(r * 7 / 8, g * 7 / 8, b * 7 / 8, alpha);
    case NoOutline =>
      line := None;
    case Given(c) =>
      line := Some(c);
  }

  /** One pass of the inner `layer.times` loop: appends ring `level` to `triangles`. */
  method WalkRing(code: nat, extendcap: bool, level: nat, triangles: seq<Triangle>) returns (out: seq<Triangle>)
    requires level < Depth(extendcap)
    ensures out == triangles + Ring(code, extendcap, level)
  {
    out := triangles;
    var depth := if extendcap then 7 else 6;
    var level1 := level + 1;
    var layer := level * 2 + 1;
    ghost var first := if Shortened(extendcap, level) then 1 else 0;
    var n := 0;
    while n < layer
      invariant 0 <= n <= layer
      invariant Shortened(extendcap, level) ==> n <= layer - 2
      invariant out == triangles + RingUpTo(code, extendcap, level, n + first)
    {
      var i := n;
      if !extendcap && level1 == depth {
        i := i + 1;
        if i + 1 == layer {
          break;
        }
      }
      ExtendRing(code, extendcap, level, i, triangles);
      out := VisitColumn(code, extendcap, level, i, out);
      n := n + 1;
    }
    if Shortened(extendcap, level) {
      assert Emit(code, extendcap, level, layer - 1) == [];
      assert RingUpTo(code, extendcap, level, layer) == RingUpTo(code, extendcap, level, layer - 1) + [];
    }
  }

  /**
    The body of the inner loop for column `i`: skip the column when the
    code bit it reads is clear, else append its lattice triangle.
   */
  method VisitColumn(code: nat, extendcap: bool, level: nat, i: int, triangles: seq<Triangle>)
    returns (out: seq<Triangle>)
    requires IsColumn(extendcap, level, i)
    ensures out == triangles + Emit(code, extendcap, level, i)
  {
    out := triangles;
    var level1 := level + 1;
    var off := ColumnOffset(extendcap, level, i);
    if Bit(code, off) != 0 {
      var m: int := i - level;
      if i % 2 == 0 {
        out := out + [Triangle(m, level, m + 1, level1, m - 1, level1)];
      } else {
        out := out + [Triangle(m, level1, m + 1, level, m - 1, level)];
      }
    } else {
      assert triangles + [] == triangles;
    }
  }

  lemma ExtendRing(code: nat, extendcap: bool, level: nat, i: nat, triangles: seq<Triangle>)
    ensures triangles + RingUpTo(code, extendcap, level, i + 1) ==
      (triangles + RingUpTo(code, extendcap, level, i)) + Emit(code, extendcap, level, i)
  {
    assert RingUpTo(code, extendcap, level, i + 1) == RingUpTo(code, extendcap, level, i) + Emit(code, extendcap, level, i);
  }

  /**
    The code bit column `i` of ring `level` reads: `offbase + i` up to the
    pivot, mirrored beyond it, one lower in the shortened outer ring.
   */
  function ColumnOffset(extendcap: bool, level: nat, i: int): (off: int)
    requires IsColumn(extendcap, level, i)
    ensures off == BitIndex(extendcap, level, i)
  {
    var level1 := level + 1;
    var layer := level * 2 + 1;
    var offbase := (level * level1) / 2;
    var offpivot := (layer + 1) / 2 - 1;
    OffbaseIsTriangular(level);
    var off := if i > offpivot then offbase + (layer - i - 1) else offbase + i;
    if !extendcap && level1 == Depth(extendcap) then off - 1 else off
  }

  /**
    The triangle half of `generate_to_png`: mixes the code when
    `extendcap` is set, walks the rings from the innermost out, and
    appends the two cap triangles when `cap` is set.
   */
  method BuildTriangles(code: nat, cap: bool, extendcap: bool) returns (triangles: seq<Triangle>)
    ensures triangles == Triangles(WorkingCode(code, extendcap), cap, extendcap)
  {
    var c := code;

    if extendcap {
      c := Xor(Xor(c, Shr(c, 16)), Shl(And(c, 0xffff), 16));
    }

    var depth := if extendcap then 7 else 6;
    triangles := [];
    var level := 0;
    while level < depth
      invariant 0 <= level <= depth == Depth(extendcap)
      invariant triangles == Rings(c, extendcap, level)
    {
      triangles := WalkRing(c, extendcap, level, triangles);
      assert triangles == Rings(c, extendcap, level + 1);
      level := level + 1;
    }
    ghost var rings := triangles;
    assert rings == Rings(c, extendcap, Depth(extendcap));

    if cap {
      if extendcap {
        triangles := triangles + [Triangle(-5, 7, -3, 7, -4, 8)];
        triangles := triangles + [Triangle(5, 7, 4, 8, 3, 7)];
      } else {
        triangles := triangles + [Triangle(-4, 6, -2, 6, -3, 7)];
        triangles := triangles + [Triangle(4, 6, 3, 7, 2, 6)];
      }
      assert triangles == rings + Caps(extendcap);
    }

    assert c == WorkingCode(code, extendcap);
  }

  /**
    Models `generate_to_png(code, cap:, extendcap:, color:, outline:)`
    up to its `driver.render` call: the colours, then the code mixing and
    the walk over the rings.
   */
  method GenerateToPng(code: Code, cap: bool := true, extendcap: bool := true,
                       color: Option<nat> := None, outline: OutlineArg := Derive)
    returns (design: Design)
    ensures design.triangles == Triangles(WorkingCode(CodeValue(code), extendcap), cap, extendcap)
    ensures design.background == Rgba(255, 255, 255, 0)
    ensures color.Some? ==> design.fill == color.value
    ensures color.None? ==>
      && GetRed(design.fill) == DerivedShade(CodeValue(code), 28)
      && GetGreen(design.fill) == DerivedShade(CodeValue(code), 24)
      && GetBlue(design.fill) == DerivedShade(CodeValue(code), 20)
      && GetAlpha(design.fill) == 255
    ensures design.outline.None? <==> outline == NoOutline
    ensures outline.Given? ==> design.outline == Some(outline.color)
    ensures outline == Derive ==>
      && design.outline.Some?
      && GetRed(design.outline.value) == GetRed(design.fill) * 7 / 8
      && GetGreen(design.outline.value) == GetGreen(design.fill) * 7 / 8
      && GetBlue(design.outline.value) == GetBlue(design.fill) * 7 / 8
      && GetAlpha(design.outline.value) == GetAlpha(design.fill)
  {
    var c: nat := CodeValue(code);
    var fill, line := PickColors(c, color, outline);
    var triangles := BuildTriangles(c, cap, extendcap);
    design := Design(triangles, Rgba(255, 255, 255, 0), fill, line);
  }
}
