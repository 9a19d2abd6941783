/**
  The PNG file `Canvas#export_to_png` writes: an 8-bit palette image
  (colour type 3) with PLTE, tRNS, two iTXt chunks, one IDAT chunk holding
  unfiltered scanlines, and IEND, laid out as the PNG specification
  (ISO/IEC 15948, section 5) describes. Each chunk is framed by its
  length and its CRC-32; `ParseChunks` reads the frames back.
 */
module Png {
  import opened Wrappers
  import opened Bits
  import opened Bytes
  import opened Colors
  import opened Crc32

  const Signature: seq<byte> := [0x89, 0x50, 0x4E, 0x47, 0x0D, 0x0A, 0x1A, 0x0A]

  const Ihdr: seq<byte> := Latin1("IHDR")
  const Plte: seq<byte> := Latin1("PLTE")
  const Trns: seq<byte> := Latin1("tRNS")
  const Itxt: seq<byte> := Latin1("iTXt")
  const Idat: seq<byte> := Latin1("IDAT")
  const Iend: seq<byte> := Latin1("IEND")

  const SnowyText: seq<byte> :=
    Latin1("This image is generated by snowy <https://rubygems.org/gems/snowy>\n")
  const LicenseText: seq<byte> :=
    Latin1("Creative Commons License Zero (CC0 / Public Domain)\nSee <https://creativecommons.org/publicdomain/zero/1.0/>\n")

  /** A chunk's type code and its data. */
  datatype ChunkData = ChunkData(code: seq<byte>, data: seq<byte>)

  /** `storechunk[code, data]`: length, type, data, then the CRC-32 of type and data. */
  function Chunk(c: ChunkData): (r: seq<byte>)
    ensures |r| == 8 + |c.code| + |c.data|
  {
    PackN(|c.data|) + c.code + c.data + PackN(Continue(Crc(c.code), c.data) as int)
  }

  /** Every chunk's bytes in order. */
  function Chunks(cs: seq<ChunkData>): (r: seq<byte>)
  {
    if cs == [] then [] else Chunk(cs[0]) + Chunks(cs[1..])
  }

  /** Reads one chunk frame and checks its CRC; gives the chunk and the bytes after it. */
  function ParseChunk(s: seq<byte>): (r: Option<(ChunkData, seq<byte>)>)
    ensures r.Some? ==> |r.value.1| < |s|
  {
    if |s| < 12 then None
    else
      var n := ReadN(s[..4]);
      if |s| < 12 + n then None
      else
        var code, data := s[4..8], s[8..8 + n];
        if ReadN(s[8 + n..12 + n]) != Continue(Crc(code), data) as int then None
        else Some((ChunkData(code, data), s[12 + n..]))
  }

  /** Reads chunk frames up to the end of the input. */
  function ParseChunks(s: seq<byte>): (r: Option<seq<ChunkData>>)
    decreases |s|
  {
    if s == [] then Some([])
    else match ParseChunk(s)
      case None => None
      case Some((c, rest)) =>
        match ParseChunks(rest)
        case None => None
        case Some(cs) => Some([c] + cs)
  }

  /** A chunk with a four-byte type and data shorter than 2^32 bytes can be framed. */
  predicate Framable(c: ChunkData)
  {
    |c.code| == 4 && |c.data| < 0x1_0000_0000
  }

  /** Where the parts of a chunk frame lie. */
  lemma FrameParts(len: seq<byte>, code: seq<byte>, data: seq<byte>, crc: seq<byte>, rest: seq<byte>)
    requires |len| == 4 && |code| == 4 && |crc| == 4
    ensures var s, n := len + code + data + crc + rest, |data|;
      && s[..4] == len && s[4..8] == code && s[8..8 + n] == data
      && s[8 + n..12 + n] == crc && s[12 + n..] == rest
  {
    var s, n := len + code + data + crc + rest, |data|;
    assert s[..4] == len;
    assert s[4..8] == code;
    assert s[8..8 + n] == data;
    assert s[8 + n..12 + n] == crc;
  }

  /** A well-formed frame parses to its type and data. */
  lemma ParseFrame(len: seq<byte>, code: seq<byte>, data: seq<byte>, crc: seq<byte>, rest: seq<byte>)
    requires |len| == 4 && |code| == 4 && |crc| == 4
    requires ReadN(len) == |data| && ReadN(crc) == Continue(Crc(code), data) as int
    ensures ParseChunk(len + code + data + crc + rest) == Some((ChunkData(code, data), rest))
  {
    FrameParts(len, code, data, crc, rest);
  }

  /** Reading a chunk frame gives back the chunk and leaves what follows it. */
  lemma ParseChunkRoundTrip(c: ChunkData, rest: seq<byte>)
    requires Framable(c)
    ensures ParseChunk(Chunk(c) + rest) == Some((c, rest))
  {
    var len, crc := PackN(|c.data|), PackN(Continue(Crc(c.code), c.data) as int);
    ReadPackN(|c.data|);
    ReadPackN(Continue(Crc(c.code), c.data) as int);
    ParseFrame(len, c.code, c.data, crc, rest);
  }

  /** Reading chunk frames reads the first, then the rest. */
  lemma ParseChunksStep(s: seq<byte>, c: ChunkData, rest: seq<byte>, cs: seq<ChunkData>)
    requires s != [] && ParseChunk(s) == Some((c, rest)) && ParseChunks(rest) == Some(cs)
    ensures ParseChunks(s) == Some([c] + cs)
  {
  }

  /** A chunk in front of readable frames. */
  lemma ParseChunksCons(c: ChunkData, rest: seq<byte>, cs: seq<ChunkData>)
    requires Framable(c) && ParseChunks(rest) == Some(cs)
    ensures ParseChunks(Chunk(c) + rest) == Some([c] + cs)
  {
    ParseChunkRoundTrip(c, rest);
    ParseChunksStep(Chunk(c) + rest, c, rest, cs);
  }

  /** A framable chunk in front of a list that reads back reads back too. */
  lemma ParseChunksRoundTripStep(cs: seq<ChunkData>)
    requires cs != [] && Framable(cs[0]) && ParseChunks(Chunks(cs[1..])) == Some(cs[1..])
    ensures ParseChunks(Chunks(cs)) == Some(cs)
  {
    var c, tail := cs[0], cs[1..];
    assert cs == [c] + tail;
    var s, t := Chunks(cs), Chunks(tail);
    assert s == Chunk(c) + t;
    ParseChunksCons(c, t, tail);
  }

  /** Reading the frames of a chunk list gives back the list. */
  lemma {:induction false} ParseChunksRoundTrip(cs: seq<ChunkData>)
    requires forall i | 0 <= i < |cs| :: Framable(cs[i])
    ensures ParseChunks(Chunks(cs)) == Some(cs)
    decreases |cs|
  {
    if cs != [] {
      ParseChunksRoundTrip(cs[1..]);
      ParseChunksRoundTripStep(cs);
    }
  }

  /** IHDR data: width, height, bit depth 8, colour type 3, then three zero method bytes. */
  function IhdrData(width: nat, height: nat): (r: seq<byte>)
    ensures |r| == 13 && r[8..] == [8, 3, 0, 0, 0]
    ensures width < 0x1_0000_0000 ==> ReadN(r[..4]) == width
    ensures height < 0x1_0000_0000 ==> ReadN(r[4..8]) == height
  {
    ReadPackN(width);
    ReadPackN(height);
    var r := PackN(width) + PackN(height) + [8, 3, 0, 0, 0];
    assert r[..4] == PackN(width) && r[4..8] == PackN(height);
    r
  }

  /** PLTE data: each palette colour's red, green and blue bytes, in palette order. */
  function PlteData(palette: seq<nat>): (r: seq<byte>)
    ensures |r| == 3 * |palette|
  {
    if palette == [] then [] else PackRgb(palette[0]) + PlteData(palette[1..])
  }

  /** Entry `i` of the palette is bytes `3i`, `3i + 1` and `3i + 2` of PLTE. */
  lemma {:induction false} PlteEntry(palette: seq<nat>, i: nat)
    requires i < |palette|
    ensures PlteData(palette)[3 * i..3 * i + 3] == [GetRed(palette[i]), GetGreen(palette[i]), GetBlue(palette[i])]
    decreases i
  {
    if i == 0 {
      PackRgbComponents(palette[0]);
    } else {
      PlteEntry(palette[1..], i - 1);
      assert PlteData(palette)[3 * i..3 * i + 3] == PlteData(palette[1..])[3 * (i - 1)..3 * (i - 1) + 3];
    }
  }

  /** tRNS data: each palette colour's alpha byte, in palette order. */
  function TrnsData(palette: seq<nat>): (r: seq<byte>)
    ensures |r| == |palette|
    ensures forall i :: 0 <= i < |palette| ==> r[i] == GetAlpha(palette[i])
  {
    seq(|palette|, i requires 0 <= i < |palette| =>
      PackRgbComponents(palette[i]);
      PackC(GetAlpha(palette[i])))
  }

  /**
    iTXt data as `pack("a*xCCxxa*")` lays it out: keyword, a null
    separator, compression flag 0 and method 0, an empty language tag and
    an empty translated keyword (each closed by a null), then the text.
   */
  function ItxtData(keyword: seq<byte>, text: seq<byte>): (r: seq<byte>)
    ensures |r| == |keyword| + 5 + |text|
    ensures r[..|keyword|] == keyword && r[|keyword| + 5..] == text
    ensures r[|keyword|..|keyword| + 5] == [0, 0, 0, 0, 0]
  {
    keyword + [0] + [0, 0] + [0, 0] + text
  }

  /** Removing the first row of a `width x height` buffer leaves `height - 1` rows. */
  lemma FewerRows(width: nat, height: nat)
    requires height > 0
    ensures width * height - width == width * (height - 1) && width <= width * height
  {
  }

  /** The unfiltered scanlines of a `width x height` buffer: each row preceded by filter type 0. */
  function RawScanlines(pixels: seq<byte>, width: nat, height: nat): (r: seq<byte>)
    requires |pixels| == width * height
    decreases height
  {
    if height == 0 then []
    else
      FewerRows(width, height);
      [0] + pixels[..width] + RawScanlines(pixels[width..], width, height - 1)
  }

  /** One byte more per row than the buffer. */
  lemma {:induction false} RawScanlinesLength(pixels: seq<byte>, width: nat, height: nat)
    requires |pixels| == width * height
    ensures |RawScanlines(pixels, width, height)| == height * (width + 1)
    decreases height
  {
    if height > 0 {
      FewerRows(width, height);
      RawScanlinesLength(pixels[width..], width, height - 1);
    }
  }

  /** The slices of a buffer of `a + width` bytes, `a = b + width`, that the row recursion meets. */
  lemma SnocParts(pixels: seq<byte>, width: nat, a: nat, b: nat)
    requires a == b + width && |pixels| == a + width
    ensures pixels[width..][..b] == pixels[..a][width..]
    ensures pixels[width..][b..] == pixels[a..]
    ensures pixels[..a][..width] == pixels[..width]
  {
  }

  /** Row `height` appended after the first `height` rows. */
  lemma {:induction false} RawScanlinesSnoc(pixels: seq<byte>, width: nat, height: nat)
    requires |pixels| == width * height + width
    ensures |pixels| == width * (height + 1)
    ensures RawScanlines(pixels, width, height + 1)
         == RawScanlines(pixels[..width * height], width, height) + [0] + pixels[width * height..]
    decreases height
  {
    FewerRows(width, height + 1);
    if height > 0 {
      FewerRows(width, height);
      var a, b := width * height, width * (height - 1);
      SnocParts(pixels, width, a, b);
      RawScanlinesSnoc(pixels[width..], width, height - 1);
    }
  }

  /** Undoes `RawScanlines`: checks each filter byte is 0 and strips it. */
  function Unfilter(raw: seq<byte>, width: nat): (r: Option<seq<byte>>)
    decreases |raw|
  {
    if raw == [] then Some([])
    else if |raw| < width + 1 || raw[0] != 0 then None
    else match Unfilter(raw[width + 1..], width)
      case None => None
      case Some(rest) => Some(raw[1..width + 1] + rest)
  }

  /** Unfiltering a row in front of more scanlines. */
  lemma UnfilterRow(row: seq<byte>, tail: seq<byte>, width: nat)
    requires |row| == width && Unfilter(tail, width).Some?
    ensures Unfilter([0] + row + tail, width) == Some(row + Unfilter(tail, width).value)
  {
    var raw := [0] + row + tail;
    assert raw[width + 1..] == tail;
    assert raw[1..width + 1] == row;
  }

  /** The scanlines hold exactly the pixel buffer. */
  lemma {:induction false} UnfilterRawScanlines(pixels: seq<byte>, width: nat, height: nat)
    requires |pixels| == width * height
    ensures Unfilter(RawScanlines(pixels, width, height), width) == Some(pixels)
    decreases height
  {
    if height > 0 {
      var first, rest := pixels[..width], pixels[width..];
      FewerRows(width, height);
      UnfilterRawScanlines(rest, width, height - 1);
      UnfilterRow(first, RawScanlines(rest, width, height - 1), width);
      assert first + rest == pixels;
    }
  }

  /** IHDR: the image size, 8-bit palette indices. */
  function HeaderChunk(width: nat, height: nat): ChunkData
  {
    ChunkData(Ihdr, IhdrData(width, height))
  }

  /** PLTE: the palette colours. */
  function PaletteChunk(palette: seq<nat>): ChunkData
  {
    ChunkData(Plte, PlteData(palette))
  }

  /** tRNS: the palette alphas. */
  function AlphaChunk(palette: seq<nat>): ChunkData
  {
    ChunkData(Trns, TrnsData(palette))
  }

  /** The two iTXt chunks: where the image comes from, and its licence. */
  const SnowyChunk := ChunkData(Itxt, ItxtData(Latin1("snowy"), SnowyText))
  const LicenseChunk := ChunkData(Itxt, ItxtData(Latin1("LICENSING"), LicenseText))

  /** IDAT: the compressed scanlines. */
  function DataChunk(idat: seq<byte>): ChunkData
  {
    ChunkData(Idat, idat)
  }

  /** IEND: no data. */
  const EndChunk := ChunkData(Iend, [])

  /** The chunks `export_to_png` writes, in order, around the compressed scanlines `idat`. */
  function FileChunks(width: nat, height: nat, palette: seq<nat>, idat: seq<byte>): (cs: seq<ChunkData>)
    ensures |cs| == 7
    ensures cs[0] == HeaderChunk(width, height) && cs[1] == PaletteChunk(palette) && cs[2] == AlphaChunk(palette)
    ensures cs[0].code == Ihdr && cs[1].code == Plte && cs[2].code == Trns && cs[3].code == Itxt
    ensures cs[4].code == Itxt && cs[5].code == Idat && cs[5].data == idat && cs[6] == EndChunk
  {
    [HeaderChunk(width, height), PaletteChunk(palette), AlphaChunk(palette),
     SnowyChunk, LicenseChunk, DataChunk(idat), EndChunk]
  }

  /**
    The whole file as `export_to_png` appends it: the signature, then each
    chunk's frame in turn.
   */
  function File(width: nat, height: nat, palette: seq<nat>, idat: seq<byte>): (r: seq<byte>)
  {
    Signature + Chunk(HeaderChunk(width, height)) + Chunk(PaletteChunk(palette))
      + Chunk(AlphaChunk(palette)) + Chunk(SnowyChunk) + Chunk(LicenseChunk)
      + Chunk(DataChunk(idat)) + Chunk(EndChunk)
  }

  lemma Associative(a: seq<byte>, b: seq<byte>, c: seq<byte>)
    ensures a + (b + c) == (a + b) + c
  {
  }

  lemma DropFirstAppend<T>(xs: seq<T>, x: T)
    requires xs != []
    ensures (xs + [x])[0] == xs[0] && (xs + [x])[1..] == xs[1..] + [x]
  {
  }

  /** The bytes of a list of chunks are the chunks' frames one after another. */
  lemma {:induction false} ChunksAppend(cs: seq<ChunkData>, c: ChunkData)
    ensures Chunks(cs + [c]) == Chunks(cs) + Chunk(c)
    decreases |cs|
  {
    if cs == [] {
      var d := Chunk(c);
      assert cs + [c] == [c];
      assert [c][1..] == [];
      assert Chunks([c]) == d + [];
      assert d + [] == d;
    } else {
      var head, tail := Chunk(cs[0]), cs[1..];
      DropFirstAppend(cs, c);
      ChunksAppend(tail, c);
      assert Chunks(cs + [c]) == head + (Chunks(tail) + Chunk(c));
      Associative(head, Chunks(tail), Chunk(c));
    }
  }

  /** Appending one more chunk's frame after the signature and some chunks. */
  lemma SignedAppend(cs: seq<ChunkData>, c: ChunkData)
    ensures Signature + Chunks(cs + [c]) == Signature + Chunks(cs) + Chunk(c)
  {
    ChunksAppend(cs, c);
    Associative(Signature, Chunks(cs), Chunk(c));
  }

  lemma Prefixes<T>(xs: seq<T>)
    requires |xs| == 7
    ensures xs == xs[..6] + [xs[6]] && xs[..6] == xs[..5] + [xs[5]] && xs[..5] == xs[..4] + [xs[4]]
    ensures xs[..4] == xs[..3] + [xs[3]] && xs[..3] == xs[..2] + [xs[2]] && xs[..2] == xs[..1] + [xs[1]]
    ensures xs[..1] == [] + [xs[0]]
  {
  }

  /** The file is the signature followed by the frames of its seven chunks. */
  lemma FileIsChunks(width: nat, height: nat, palette: seq<nat>, idat: seq<byte>)
    ensures File(width, height, palette, idat) == Signature + Chunks(FileChunks(width, height, palette, idat))
  {
    var cs := FileChunks(width, height, palette, idat);
    Prefixes(cs);
    assert Signature + Chunks([]) == Signature;
    SignedAppend([], cs[0]);
    SignedAppend(cs[..1], cs[1]);
    SignedAppend(cs[..2], cs[2]);
    SignedAppend(cs[..3], cs[3]);
    SignedAppend(cs[..4], cs[4]);
    SignedAppend(cs[..5], cs[5]);
    SignedAppend(cs[..6], cs[6]);
  }

  /** Checks the signature and reads the chunks after it. */
  function ParseFile(s: seq<byte>): Option<seq<ChunkData>>
  {
    if |s| < 8 || s[..8] != Signature then None else ParseChunks(s[8..])
  }

  /** Every chunk of the file but IDAT has a four-byte type and short data. */
  lemma FixedChunksFramable(width: nat, height: nat, palette: seq<nat>)
    requires 3 * |palette| < 0x1_0000_0000
    ensures Framable(HeaderChunk(width, height)) && Framable(PaletteChunk(palette))
    ensures Framable(AlphaChunk(palette)) && Framable(SnowyChunk) && Framable(LicenseChunk)
    ensures Framable(EndChunk) && |Idat| == 4
  {
    assert |Ihdr| == |Plte| == |Trns| == |Itxt| == |Idat| == |Iend| == 4;
  }

  /** A signature followed by readable frames reads back as those frames. */
  lemma ParseSignedFile(s: seq<byte>, cs: seq<ChunkData>)
    requires |s| >= 8 && s[..8] == Signature && ParseChunks(s[8..]) == Some(cs)
    ensures ParseFile(s) == Some(cs)
  {
  }

  /** A signature followed by framable chunks reads back as those chunks. */
  lemma SignedChunksRoundTrip(cs: seq<ChunkData>)
    requires forall i | 0 <= i < |cs| :: Framable(cs[i])
    ensures ParseFile(Signature + Chunks(cs)) == Some(cs)
  {
    var s := Signature + Chunks(cs);
    ParseChunksRoundTrip(cs);
    assert s[..8] == Signature && s[8..] == Chunks(cs);
    ParseSignedFile(s, cs);
  }

  /** Seven framable chunks after the signature read back as those chunks. */
  lemma SevenChunksRoundTrip(c0: ChunkData, c1: ChunkData, c2: ChunkData, c3: ChunkData,
                             c4: ChunkData, c5: ChunkData, c6: ChunkData)
    requires Framable(c0) && Framable(c1) && Framable(c2) && Framable(c3)
    requires Framable(c4) && Framable(c5) && Framable(c6)
    ensures ParseFile(Signature + Chunks([c0, c1, c2, c3, c4, c5, c6])) == Some([c0, c1, c2, c3, c4, c5, c6])
  {
    var cs := [c0, c1, c2, c3, c4, c5, c6];
    forall i | 0 <= i < |cs|
      ensures Framable(cs[i])
    {
      if i < 4 { assert i == 0 || i == 1 || i == 2 || i == 3; } else { assert i == 4 || i == 5 || i == 6; }
    }
    SignedChunksRoundTrip(cs);
  }

  /**
    A written file reads back as its seven chunks, as long as the palette
    and the compressed data fit a chunk.
   */
  lemma FileRoundTrip(width: nat, height: nat, palette: seq<nat>, idat: seq<byte>)
    requires 3 * |palette| < 0x1_0000_0000 && |idat| < 0x1_0000_0000
    ensures ParseFile(File(width, height, palette, idat)) == Some(FileChunks(width, height, palette, idat))
  {
    FileIsChunks(width, height, palette, idat);
    FixedChunksFramable(width, height, palette);
    SevenChunksRoundTrip(HeaderChunk(width, height), PaletteChunk(palette), AlphaChunk(palette),
                         SnowyChunk, LicenseChunk, DataChunk(idat), EndChunk);
  }

  /**
    What a reader of the file finds: the image size in IHDR, the palette in
    PLTE and tRNS, and, once IDAT is inflated and unfiltered, the pixel
    buffer itself.
   */
  lemma FileHoldsImage(width: nat, height: nat, palette: seq<nat>, pixels: seq<byte>,
                       idat: seq<byte>, inflate: seq<byte> -> seq<byte>)
    requires |pixels| == width * height && width < 0x1_0000_0000 && height < 0x1_0000_0000
    requires 3 * |palette| < 0x1_0000_0000 && |idat| < 0x1_0000_0000
    requires inflate(idat) == RawScanlines(pixels, width, height)
    ensures ParseFile(File(width, height, palette, idat)) == Some(FileChunks(width, height, palette, idat))
    ensures var cs := FileChunks(width, height, palette, idat);
      && ReadN(cs[0].data[..4]) == width && ReadN(cs[0].data[4..8]) == height
      && cs[1].data == PlteData(palette) && cs[2].data == TrnsData(palette)
      && Unfilter(inflate(cs[5].data), width) == Some(pixels)
  {
    FileRoundTrip(width, height, palette, idat);
    UnfilterRawScanlines(pixels, width, height);
  }

  /** The register after each byte of the type code `IEND`, one bit-step at a time. */
  lemma IendRegister()
    ensures Update(0xFFFF_FFFF, [73, 69, 78, 68]) == 0x51BD_9F7D
  {
    assert Feed(0xFFFF_FFFF, 73) == 0x22FD_E946 by {
      assert Step(0xFFFF_FFB6) == 0x7FFF_FFDB;
      assert Step(0x7FFF_FFDB) == 0xD247_7CCD;
      assert Step(0xD247_7CCD) == 0x849B_3D46;
      assert Step(0x849B_3D46) == 0x424D_9EA3;
      assert Step(0x424D_9EA3) == 0xCC9E_4C71;
      assert Step(0xCC9E_4C71) == 0x8BF7_A518;
      assert Step(0x8BF7_A518) == 0x45FB_D28C;
      assert Step(0x45FB_D28C) == 0x22FD_E946;
    }
    assert Feed(0x22FD_E946, 69) == 0x992B_AC53 by {
      assert Step(0x22FD_E903) == 0xFCC6_77A1;
      assert Step(0xFCC6_77A1) == 0x93DB_B8F0;
      assert Step(0x93DB_B8F0) == 0x49ED_DC78;
      assert Step(0x49ED_DC78) == 0x24F6_EE3C;
      assert Step(0x24F6_EE3C) == 0x127B_771E;
      assert Step(0x127B_771E) == 0x093D_BB8F;
      assert Step(0x093D_BB8F) == 0xE926_5EE7;
      assert Step(0xE926_5EE7) == 0x992B_AC53;
    }
    assert Feed(0x992B_AC53, 78) == 0x639F_4775 by {
      assert Step(0x992B_AC1D) == 0xA12D_552E;
      assert Step(0xA12D_552E) == 0x5096_AA97;
      assert Step(0x5096_AA97) == 0xC5F3_D66B;
      assert Step(0xC5F3_D66B) == 0x8F41_6815;
      assert Step(0x8F41_6815) == 0xAA18_372A;
      assert Step(0xAA18_372A) == 0x550C_1B95;
      assert Step(0x550C_1B95) == 0xC73E_8EEA;
      assert Step(0xC73E_8EEA) == 0x639F_4775;
    }
    assert Feed(0x639F_4775, 68) == 0x51BD_9F7D by {
      assert Step(0x639F_4731) == 0xDC77_20B8;
      assert Step(0xDC77_20B8) == 0x6E3B_905C;
      assert Step(0x6E3B_905C) == 0x371D_C82E;
      assert Step(0x371D_C82E) == 0x1B8E_E417;
      assert Step(0x1B8E_E417) == 0xE07F_F12B;
      assert Step(0xE07F_F12B) == 0x9D87_7BB5;
      assert Step(0x9D87_7BB5) == 0xA37B_3EFA;
      assert Step(0xA37B_3EFA) == 0x51BD_9F7D;
    }
    assert Update(0x639F_4775, [68]) == Update(0x51BD_9F7D, []);
    assert Update(0x992B_AC53, [78, 68]) == Update(0x639F_4775, [68]);
    assert Update(0x22FD_E946, [69, 78, 68]) == Update(0x992B_AC53, [78, 68]);
    assert Update(0xFFFF_FFFF, [73, 69, 78, 68]) == Update(0x22FD_E946, [69, 78, 68]);
  }

  /**
    The IEND chunk every PNG file ends with carries the CRC-32 0xAE426082
    of its type code.
   */
  lemma IendChunk()
    ensures Continue(Crc(Iend), []) == 0xAE42_6082
  {
    assert Iend == [73, 69, 78, 68];
    IendRegister();
  }
}
