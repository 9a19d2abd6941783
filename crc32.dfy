/**
  CRC-32 as Annex D of the PNG specification (ISO/IEC 15948) and zlib's
  `crc32` compute it: reflected polynomial 0xEDB88320, register preset to
  all ones, result complemented. `Continue(crc, data)` is zlib's
  `crc32(data, crc)`, which resumes from an earlier result.
 */
module Crc32 {
  import opened Bytes

  const Polynomial: bv32 := 0xEDB8_8320

  /** One bit of the shift register. */
  function Step(c: bv32): bv32
  {
    if c & 1 == 1 then Polynomial ^ (c >> 1) else c >> 1
  }

  /** Feeds one byte, low bit first. */
  function Feed(c: bv32, b: byte): bv32
  {
    var x := c ^ (b as bv32);
    Step(Step(Step(Step(Step(Step(Step(Step(x))))))))
  }

  function Update(c: bv32, data: seq<byte>): bv32
    decreases |data|
  {
    if |data| == 0 then c else Update(Feed(c, data[0]), data[1..])
  }

  /** `Zlib.crc32(data)`. */
  function Crc(data: seq<byte>): bv32
  {
    Update(0xFFFF_FFFF, data) ^ 0xFFFF_FFFF
  }

  /** `Zlib.crc32(data, crc)`: the CRC of what `crc` covered followed by `data`. */
  function Continue(crc: bv32, data: seq<byte>): bv32
  {
    Update(crc ^ 0xFFFF_FFFF, data) ^ 0xFFFF_FFFF
  }

  lemma {:induction false} UpdateAppend(c: bv32, a: seq<byte>, b: seq<byte>)
    ensures Update(c, a + b) == Update(Update(c, a), b)
    decreases |a|
  {
    if |a| == 0 {
      assert a + b == b;
    } else {
      assert (a + b)[1..] == a[1..] + b;
      UpdateAppend(Feed(c, a[0]), a[1..], b);
    }
  }

  lemma XorTwice(u: bv32)
    ensures (u ^ 0xFFFF_FFFF) ^ 0xFFFF_FFFF == u
  {
  }

  /** Resuming from `crc32(a)` resumes the shift register where `a` left it. */
  lemma ContinueResumes(a: seq<byte>, b: seq<byte>)
    ensures Continue(Crc(a), b) == Update(Update(0xFFFF_FFFF, a), b) ^ 0xFFFF_FFFF
  {
    var u := Update(0xFFFF_FFFF, a);
    XorTwice(u);
    assert Crc(a) ^ 0xFFFF_FFFF == u;
  }

  /** Chaining: `crc32(b, crc32(a)) == crc32(a + b)`. */
  lemma ContinueChains(a: seq<byte>, b: seq<byte>)
    ensures Continue(Crc(a), b) == Crc(a + b)
  {
    ContinueResumes(a, b);
    UpdateAppend(0xFFFF_FFFF, a, b);
  }
}
