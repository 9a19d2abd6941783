/**
  Byte strings as Ruby's `pack` produces them: `"C"` (one byte, the low
  eight bits) and `"N"` (32-bit big-endian, the low 32 bits).
 */
module Bytes {
  import opened Bits

  type byte = b: int | 0 <= b < 256

  /** `[n].pack("C")`: the low byte of `n`. */
  function PackC(n: nat): (b: byte)
    ensures n < 256 ==> b == n
  {
    LowByte(n);
    And(n, Mask(8))
  }

  lemma LowByte(n: nat)
    ensures And(n, Mask(8)) < 256
    ensures n < 256 ==> And(n, Mask(8)) == n
  {
    Pow2Values();
    AndMaskBound(n, 8);
    if n < 256 { AndMaskSmall(n, 8); }
  }

  /** `[n].pack("N")`: the low 32 bits of `n`, most significant byte first. */
  function PackN(n: nat): (s: seq<byte>)
    ensures |s| == 4
  {
    [PackC(Shr(n, 24)), PackC(Shr(n, 16)), PackC(Shr(n, 8)), PackC(n)]
  }

  /** Reads a 32-bit big-endian number: `s[0] << 24 | s[1] << 16 | s[2] << 8 | s[3]`. */
  function ReadN(s: seq<byte>): nat
    requires |s| == 4
  {
    Or(Or(Or(Shl(s[0], 24), Shl(s[1], 16)), Shl(s[2], 8)), s[3])
  }

  /** Bit `k` of a byte, for `k` at or above 8, is zero. */
  lemma ByteHighBits(b: byte, k: nat)
    requires k >= 8
    ensures Bit(b, k) == 0
  {
    Pow2Values();
    BitAboveWidth(b, 8, k);
  }

  /** Bit `k` of `PackC(n)` is bit `k` of `n` below 8, zero above. */
  lemma BitPackC(n: nat, k: nat)
    ensures Bit(PackC(n), k) == if k < 8 then Bit(n, k) else 0
  {
    BitAndMask(n, 8, k);
  }

  /** Bit `k` of `ReadN(s)` is bit `k mod 8` of the byte `3 - k / 8`. */
  lemma BitReadN(s: seq<byte>, k: nat)
    requires |s| == 4
    ensures Bit(ReadN(s), k) ==
      if k < 8 then Bit(s[3], k)
      else if k < 16 then Bit(s[2], k - 8)
      else if k < 24 then Bit(s[1], k - 16)
      else if k < 32 then Bit(s[0], k - 24)
      else 0
  {
    var a := Shl(s[0], 24);
    var b := Shl(s[1], 16);
    var c := Shl(s[2], 8);
    BitOr(Or(Or(a, b), c), s[3], k);
    BitOr(Or(a, b), c, k);
    BitOr(a, b, k);
    BitShl(s[0], 24, k);
    BitShl(s[1], 16, k);
    BitShl(s[2], 8, k);
    if k >= 8 { ByteHighBits(s[3], k); }
    if k >= 16 { ByteHighBits(s[2], k - 8); }
    if k >= 24 { ByteHighBits(s[1], k - 16); }
    if k >= 32 { ByteHighBits(s[0], k - 24); }
  }

  /** Reading back `pack("N")` gives the low 32 bits of the number. */
  lemma {:induction false} ReadPackN(n: nat)
    ensures ReadN(PackN(n)) == And(n, Mask(32))
    ensures n < 0x1_0000_0000 ==> ReadN(PackN(n)) == n
  {
    var s := PackN(n);
    forall k: nat ensures Bit(ReadN(s), k) == Bit(And(n, Mask(32)), k) {
      BitReadN(s, k);
      BitAndMask(n, 32, k);
      if k < 32 {
        if k < 8 {
          BitPackC(n, k);
        } else if k < 16 {
          BitPackC(Shr(n, 8), k - 8);
          BitShr(n, 8, k - 8);
        } else if k < 24 {
          BitPackC(Shr(n, 16), k - 16);
          BitShr(n, 16, k - 16);
        } else {
          BitPackC(Shr(n, 24), k - 24);
          BitShr(n, 24, k - 24);
        }
      }
    }
    BitsEqual(ReadN(s), And(n, Mask(32)));
    Pow2Values();
    if n < 0x1_0000_0000 { AndMaskSmall(n, 32); }
  }

  /** Reading any four bytes gives a number below 2^32, and packing it gives the bytes back. */
  lemma {:induction false} PackReadN(s: seq<byte>)
    requires |s| == 4
    ensures ReadN(s) < 0x1_0000_0000
    ensures PackN(ReadN(s)) == s
  {
    var n := ReadN(s);
    forall k: nat | k >= 32 ensures Bit(n, k) == 0 { BitReadN(s, k); }
    BelowFromBits(n, 32);
    Pow2Values();
    var p := PackN(n);
    forall i | 0 <= i < 4 ensures p[i] == s[i] {
      forall k: nat ensures Bit(p[i], k) == Bit(s[i], k) {
        var sh := 24 - 8 * i;
        BitPackC(Shr(n, sh), k);
        if k < 8 {
          BitShr(n, sh, k);
          BitReadN(s, k + sh);
        } else {
          ByteHighBits(s[i], k);
        }
      }
      BitsEqual(p[i], s[i]);
    }
  }

  /** A string of one-byte characters as its bytes (every string in this model is ASCII). */
  function Latin1(s: string): (r: seq<byte>)
    ensures |r| == |s|
    ensures forall i :: 0 <= i < |s| && (s[i] as int) < 256 ==> r[i] == s[i] as int
  {
    seq(|s|, i requires 0 <= i < |s| => (s[i] as int) % 256)
  }
}
