# snowy — a Dafny model of the identicon core

snowy draws a six-fold "snowflake" identicon for a 32-bit code (or for a
string, through its CRC-32) and writes it as an 8-bit palette PNG. This
project models, in Dafny, the part of the gem that decides what is drawn
and how it is stored:

- `Generator` — `Snowy.generate_to_png` up to its hand-off to the renderer:
  the string-to-code hash, the fill and outline colours taken from the
  code's top nibbles, the `extendcap` bit mixing, and the walk over the
  rings of the triangular lattice that yields the triangle list.
- `Pattern` — the same triangle list stated declaratively (which bit each
  lattice column reads, which triangle it contributes), with the
  properties the design relies on: mirror symmetry about the wedge's
  axis, the bit window each variant reads, the triangle counts and the
  band each triangle lies in.
- `Colors`, `Bits`, `Bytes` — the `rgba` packing and the Integer
  refinements (`get_red` … `pack_rgba`, `clamp`), on unbounded naturals
  with the bitwise operators defined bit by bit.
- `Canvases` — `Snowy::Canvas`: a class whose byte buffer `pixels` the
  methods update in place (`setpixel`, `fill`, `plotscanline`,
  `dot_by_char`, `triangle`, `halfdown!`, the outline pass of
  `DefaultDriver.render`, `export_to_png`), each proved against a
  function on the buffer (`Raster`).
- `Affine` — `Snowy::Matrix`, a class holding a 3x3 matrix of reals that
  `load`, `reset`, `mult!`, `translate` and `scale` update in place, proved
  against matrix product and application. `mult!` reads its argument row
  by row while it overwrites its own rows, so given the matrix's own rows
  (`m.mult!(m.matrix)`, or `m.mult(m)`, since `Matrix[m]` is `m`) it does
  not compute the square (`Affine.Matrix.MultBySelf`).
- `Png`, `Crc32` — the byte layout `export_to_png` produces: chunk framing
  with length and CRC-32, the IHDR/PLTE/tRNS/iTXt/IDAT/IEND chunks, and a
  reader that parses the file back, proved to recover the chunks, the
  image size, the palette and (given an inflater that undoes the deflater)
  the pixel buffer.

Conventions of the model:

- The output stream `io` of `export_to_png` is a byte sequence that the
  method returns extended; `Zlib.deflate` is a function parameter
  (`deflate(lines, level)`), and `Zlib.crc32` is the `Crc32` module (the
  reflected polynomial 0xEDB88320, as in ISO 3309 and section 5.5 of the
  PNG specification).
- Ruby Integers are unbounded, as Dafny's are; `setbyte` and
  `pack("C")` keep the low byte (`Raster.ByteOf`, `Bytes.PackC`), and
  `pack("N")` the low 32 bits (`Bytes.PackN`).
- Float coordinates are `real`; `Float#round` rounds halves away from zero
  (`Raster.Round`).

Where a prose description of the gem and its code differ, the model
follows the code:

- a string code is reduced with `Zlib.crc32` (lib/snowy/common.rb:72-74),
  not with an MD5 digest;
- the code is used as given, with no remapping away from degenerate
  patterns: a code with no bit set in the window the rings read draws no
  ring triangle at all (`Pattern.ZeroWindowIsEmpty`);
- a colour derived from the code takes each of red, green and blue from a
  nibble `n` of bits 20..31 as `(n << 3) | 0x80`, that is `128 + 8n`
  (`Generator.ShadeValue`), and the default outline is each component times
  7 / 8 with the fill's alpha;
- the tRNS chunk is always written, one alpha byte per palette entry;
- nothing checks the palette size or the chunk lengths, so there is no
  encoding error; the file reads back when every chunk length fits the
  32-bit length field (`Png.FileRoundTrip`).

One consequence of the code that the model makes explicit
(`Generator.MixHalves`): for a code below 2^32 the `extendcap` mixing
`code ^ (code >> 16) ^ ((code & 0xffff) << 16)` yields a value whose bit
`k + 16` equals bit `k` for every `k < 16`, so the rings above bit 15 repeat
the bits below it.

## Model

| member | source | states |
|---|---|---|
| Colors.Clamp | lib/snowy/common.rb:5-18 | the result lies in `min..max`, is `v` when `v` is in range, `min` below it and `max` above it |
| Colors.RgbaRoundTrip | lib/snowy/common.rb:21-55 | `get_red`/`get_green`/`get_blue`/`get_alpha` of `rgba(r, g, b, a)` give back each argument clamped to 0..255, and `pack_rgb`/`pack_rgba` give those bytes in order |
| Colors.RgbaBound | lib/snowy/common.rb:50-55 | an `rgba` colour always fits in 32 bits |
| Colors.BitRgba | lib/snowy/common.rb:50-55 | bit `k` of `rgba(r, g, b, a)` is bit `k mod 8` of the clamped component that owns byte `k / 8` |
| Colors.FieldOf | lib/snowy/common.rb:21-35 | shifting a packed colour right by a byte boundary and masking with 0xff recovers the byte stored there |
| Colors.PackRgbComponents | lib/snowy/common.rb:37-43 | `pack_rgb` is `[get_red, get_green, get_blue]` and `pack_rgba` is those bytes followed by `get_alpha` |
| Colors.PackRgb | lib/snowy/common.rb:37-39 | `pack_rgb` yields three bytes |
| Colors.PackRgba | lib/snowy/common.rb:41-43 | `pack_rgba` (`pack("N")`) yields four bytes |
| Bits.BitAnd | lib/snowy/common.rb:22 | semantics of Ruby's `Integer#&`: bit `k` of `a & b` is set exactly when bit `k` is set in both |
| Bits.BitOr | lib/snowy/common.rb:51-54 | semantics of `Integer#\|`: bit `k` of `a \| b` is set exactly when it is set in either |
| Bits.BitXor | lib/snowy/common.rb:97 | semantics of `Integer#^`: bit `k` of `a ^ b` is the sum of the two bits modulo 2 |
| Bits.BitShr | lib/snowy/common.rb:22 | semantics of `Integer#>>` on non-negative integers: bit `k` of `n >> s` is bit `k + s` of `n` |
| Bits.BitShl | lib/snowy/common.rb:51 | semantics of `Integer#<<`: bit `k` of `n << s` is 0 below `s` and bit `k - s` of `n` above |
| Bits.ShlIsProduct | lib/snowy/common.rb:51 | semantics of `Integer#<<`: `n << s` is `n * 2^s` |
| Bits.BitMask | lib/snowy/common.rb:84 | semantics of the mask literals (`0x0f`, `0xff`, `0xffff`): `2^w - 1` has exactly bits `0 .. w-1` set |
| Bits.BitAndMask | lib/snowy/common.rb:84 | semantics of `Integer#&` with a mask: masking with `2^w - 1` keeps bits below `w` and clears the rest |
| Bits.AndMaskBound | lib/snowy/common.rb:84 | semantics of `Integer#&` with a mask: a value masked to `w` bits is below `2^w` |
| Bits.AndMaskSmall | lib/snowy/common.rb:84 | semantics of `Integer#&` with a mask: masking a value already below `2^w` leaves it unchanged |
| Bits.AndComm | lib/snowy/common.rb:22 | semantics of `Integer#&`: it is commutative, so `0xff & x` and `x & 0xff` agree |
| Bits.OrDisjoint | lib/snowy/common.rb:87 | semantics of `Integer#\|`: of two values with no common bit it is their sum |
| Bits.BitsEqual | lib/snowy/common.rb:97 | operator semantics: two non-negative Integers with the same bits are equal |
| Bits.BelowFromBits | lib/snowy/common.rb:97 | operator semantics: a non-negative Integer with no bit set at or above `w` is below `2^w` |
| Bits.BitAboveWidth | lib/snowy/common.rb:97 | operator semantics: a non-negative Integer below `2^w` has no bit set at or above `w` |
| Bits.BitOfZero | lib/snowy/common.rb:126 | semantics of `Integer#[]` (the bit read `code[off]`): every bit of 0 is clear |
| Bits.And | lib/snowy/common.rb:22 | semantics of `Integer#&` on non-negative integers: `a & b` is at most each operand |
| Bytes.PackC | lib/snowy.rb:81 | `pack("C")` keeps a value below 256 unchanged |
| Bytes.PackN | lib/snowy.rb:346 | `pack("N")` yields four bytes |
| Bytes.LowByte | lib/snowy.rb:81 | the low byte of `n` is below 256 and is `n` itself when `n` already is |
| Bytes.BitPackC | lib/snowy.rb:81 | bit `k` of `pack("C")` of `n` is bit `k` of `n` below 8 and clear above |
| Bytes.BitReadN | lib/snowy.rb:346-348 | bit `k` of a big-endian 32-bit read is the matching bit of the byte that holds it |
| Bytes.ReadPackN | lib/snowy.rb:346-348 | reading back `pack("N")` of `n` gives `n` modulo 2^32, so `n` itself below 2^32 |
| Bytes.PackReadN | lib/snowy.rb:346-348 | every four bytes are `pack("N")` of the 32-bit number they encode |
| Bytes.Latin1 | lib/snowy.rb:361 | a chunk type or keyword string becomes one byte per character, each its code point |
| Crc32.UpdateAppend | lib/snowy.rb:345 | the CRC register over `a + b` is the register over `a` continued over `b` |
| Crc32.ContinueResumes | lib/snowy.rb:345 | `Zlib.crc32(data, crc)` undoes the final inversion of `crc` and resumes the register |
| Crc32.ContinueChains | lib/snowy.rb:345 | `crc32(chunk, crc32(code))` equals `crc32(code + chunk)`, the CRC over type and data that PNG prescribes |
| Crc32.XorTwice | lib/snowy.rb:345 | inverting the register twice restores it |
| Generator.Field | lib/snowy/common.rb:84-86 | a `w`-bit field of the code is below `2^w` |
| Generator.MixBit | lib/snowy/common.rb:97 | bit `k` of the mixed code is bit `k` xor bit `k + 16`, and for `16 <= k < 32` also xor bit `k - 16` |
| Generator.MixHalves | lib/snowy/common.rb:97 | for a code below 2^32 the mixed code is below 2^32 and its upper half repeats its lower half |
| Generator.BitField | lib/snowy/common.rb:84-86 | bit `k` of a field is bit `lo + k` of the code inside the field and clear outside |
| Generator.ShrMaskIsField | lib/snowy/common.rb:84-86 | `(code >> lo) & (2^w - 1)` is the `w`-bit field starting at `lo` |
| Generator.ShadeValue | lib/snowy/common.rb:87-89 | `(n << 3) \| 0x80` of a nibble is `128 + 8n` |
| Generator.PickColors | lib/snowy/common.rb:76-95 | a given colour or outline is kept; a missing colour is opaque with components `128 + 8n` for the nibbles at bits 28, 24 and 20; only a `nil` outline is derived, as the fill's components times 7/8 (rounded down) with the fill's alpha; there is no outline exactly when the argument is `false` |
| Generator.WalkRing | lib/snowy/common.rb:105-134 | one pass of the column loop, including the shortened outermost ring and its early `break`, appends exactly the declarative ring `Pattern.Ring` |
| Generator.VisitColumn | lib/snowy/common.rb:118-133 | one column appends its lattice triangle when its code bit is set and nothing when it is clear |
| Generator.ExtendRing | lib/snowy/common.rb:110-134 | appending one column's output extends the ring prefix by that column |
| Generator.ColumnOffset | lib/snowy/common.rb:108-125 | the bit index the loop computes (`offbase`, the pivot mirror, the `off -= 1` shift) is the declarative `Pattern.BitIndex` |
| Generator.BuildTriangles | lib/snowy/common.rb:97-146 | the triangle list built by the loops is `Pattern.Triangles` of the (mixed when `extendcap`) code |
| Generator.GenerateToPng | lib/snowy/common.rb:71-148 | the triangles, the transparent white background and the fill and outline colours handed to the renderer, as `PickColors` and `BuildTriangles` state them, for an Integer code or the CRC-32 of a string; `outline: false` reaches the renderer as no outline |
| Pattern.BitIndexInWindow | lib/snowy/common.rb:108-125 | every column reads a code bit below 28 with `extendcap` and below 20 without |
| Pattern.OffbaseMonotone | lib/snowy/common.rb:108 | the highest bit a ring reads, `offbase + level`, never falls from one ring to the next further out |
| Pattern.OffbaseIsTriangular | lib/snowy/common.rb:108 | ring `level` starts at bit `level * (level + 1) / 2` |
| Pattern.MirrorColumn | lib/snowy/common.rb:117-123 | column `c` and column `2 * level - c` read the same bit, have the same parity, and their triangles are mirror images in `x = 0` |
| Pattern.LatticeShape | lib/snowy/common.rb:128-133 | a column's triangle lies in its ring's band, apex up on even columns and apex down on odd ones |
| Pattern.RingUpToMember | lib/snowy/common.rb:110-134 | a triangle is in a ring prefix exactly when some column of the prefix draws it |
| Pattern.RingUpToWitness | lib/snowy/common.rb:110-134 | every triangle in a ring prefix is drawn by a column of that prefix |
| Pattern.RingUpToDrawn | lib/snowy/common.rb:110-134 | every triangle a column of the prefix draws is in the prefix |
| Pattern.RingsMember | lib/snowy/common.rb:101-135 | a triangle is among the first `n` rings exactly when some column of one of them draws it |
| Pattern.RingsWitness | lib/snowy/common.rb:101-135 | every triangle of the rings is drawn by some column of some ring |
| Pattern.RingsDrawn | lib/snowy/common.rb:101-135 | every triangle some column draws is among the rings |
| Pattern.MirrorDraws | lib/snowy/common.rb:117-133 | when a column draws a triangle, the mirrored column draws its mirror image |
| Pattern.MirrorInRings | lib/snowy/common.rb:101-135 | the mirror image of a drawn triangle is among the rings |
| Pattern.RingsMirror | lib/snowy/common.rb:101-135 | the ring triangles are closed under reflection in the wedge's axis |
| Pattern.CapsMirror | lib/snowy/common.rb:138-146 | the two cap triangles are mirror images of each other |
| Pattern.TrianglesMirror | lib/snowy/common.rb:101-146 | the whole triangle list is symmetric about the wedge's axis, for every code and flag |
| Pattern.SwapLastVertices | lib/snowy/common.rb:128-133 | listing a triangle's last two vertices in the other order leaves its vertex set unchanged |
| Pattern.RingTriangleShape | lib/snowy/common.rb:101-135 | every ring triangle lies in the band of one ring below the depth |
| Pattern.RingUpToLength | lib/snowy/common.rb:110-115 | a ring prefix of `n` columns has at most `n` triangles, one fewer in the shortened ring, and two fewer for its whole width |
| Pattern.RingsLength | lib/snowy/common.rb:101-115 | the first `n` rings hold at most `n * n` triangles, two fewer when the last is shortened |
| Pattern.TrianglesCount | lib/snowy/common.rb:101-146 | at most 49 ring triangles with `extendcap` and 34 without, followed by exactly two cap triangles when `cap` is set |
| Pattern.RingUpToWindow | lib/snowy/common.rb:126 | two codes agreeing on the window bits give the same ring prefix |
| Pattern.RingsWindow | lib/snowy/common.rb:101-135 | two codes agreeing on the window bits give the same rings |
| Pattern.TrianglesWindow | lib/snowy/common.rb:101-146 | the triangle list depends on the code only through bits 0..27 (`extendcap`) or 0..19 |
| Pattern.RingUpToEmpty | lib/snowy/common.rb:126 | a code with no window bit set draws nothing in a ring prefix |
| Pattern.RingsEmpty | lib/snowy/common.rb:101-135 | a code with no window bit set draws no ring triangle |
| Pattern.ZeroWindowIsEmpty | lib/snowy/common.rb:101-146 | such a code yields only the cap triangles, or nothing without `cap` |
| Raster.ByteOf | lib/snowy.rb:143-145 | `setbyte` stores the value modulo 256, unchanged when it already is a byte |
| Raster.Round | lib/snowy.rb:159-161 | `round` is within one half of its argument, halves going away from zero |
| Raster.RoundWhole | lib/snowy.rb:272-277 | rounding a whole number gives it back |
| Raster.Span | lib/snowy.rb:147-153 | painting a span keeps the buffer's length |
| Raster.SpanAt | lib/snowy.rb:147-153 | after a span, a pixel holds the colour exactly when it is on row `y` with `x0 <= x < x1`, and is unchanged otherwise |
| Raster.SpanEmpty | lib/snowy.rb:151 | a span with `x1 <= x0` changes nothing |
| Raster.SpanExtend | lib/snowy.rb:151 | one more loop step of `plotscanline!` extends the span by one pixel |
| Raster.Scanline | lib/snowy.rb:158-173 | a clipped scanline keeps the buffer's length |
| Raster.ScanlineOffCanvas | lib/snowy.rb:163 | a scanline on a row outside the canvas changes nothing |
| Raster.ScanlinePainted | lib/snowy.rb:158-173 | a scanline on a row between `lo` and `hi` only paints pixels of those rows, and only with the colour |
| Raster.PaintedTrans | lib/snowy.rb:267-307 | painting within rows `lo..hi` twice is painting within them once |
| Raster.StorePixel | lib/snowy.rb:102-107 | storing a pixel keeps the buffer's length |
| Raster.StoreThenRead | lib/snowy.rb:102-107 | after storing, the stored point reads the low byte of the level and every other point reads what it did |
| Raster.Mean4 | lib/snowy.rb:324-328 | the truncated mean of four bytes lies between their minimum and maximum |
| Raster.Downsampled | lib/snowy.rb:312-337 | the half-size image has `(w / 2) * (h / 2)` pixels |
| Raster.DownsampledAt | lib/snowy.rb:317-328 | pixel `(x, y)` of the half-size image is the mean of the 2x2 block at `(2x, 2y)` |
| Raster.BlockAfterCursor | lib/snowy.rb:317-328 | the four bytes a block reads all lie at or after the byte being written, and inside the buffer |
| Raster.HalfStep | lib/snowy.rb:317-328 | the byte written for `(x, y)` is the block mean computed from bytes not yet overwritten |
| Raster.CursorEnd | lib/snowy.rb:332-334 | the cursor ends at `w2 * h2`, inside the original buffer |
| Raster.BlockAsWritten | lib/snowy.rb:319-328 | the block mean as written (rows addressed with the height as stride), read from the buffer before any write, which is exact for first-row targets, is a byte whenever every index it reads exists (`None`, where Ruby raises, otherwise) |
| Raster.BlockAsWrittenSquare | lib/snowy.rb:319-328 | on a square canvas the code as written computes the intended block mean |
| Raster.BlockAsWrittenTallFails | lib/snowy.rb:322-323 | on a 2x4 canvas the code as written reads past the buffer for block `(0, 1)`, though the half-size image has two pixels |
| Raster.BlockAsWrittenWideWrong | lib/snowy.rb:322-323 | on a 4x2 canvas with rows `0,0,0,0` and `4,4,4,4` the code as written gives 0 where the block mean is 2 |
| Raster.InteriorNeighbours | lib/snowy.rb:33-44 | an interior pixel's four neighbours lie inside the buffer |
| Raster.OutlineAt | lib/snowy.rb:40-46 | a pixel changes only from background 0 to outline 2 |
| Raster.Outlined | lib/snowy.rb:29-50 | the outline pass keeps the buffer's length |
| Raster.OutlinedChanges | lib/snowy.rb:29-50 | the pass keeps fill pixels exactly, never creates background, and changes a pixel only from 0 to 2 |
| Raster.OutlinedIdempotent | lib/snowy.rb:29-50 | a second outline pass changes nothing |
| Raster.OutlineStep | lib/snowy.rb:37-47 | when the loop reaches `(px, py)`, the pixel and its neighbours still hold their values from before the pass |
| Raster.OutlineRowStart | lib/snowy.rb:33-37 | starting a row keeps the pass's progress invariant |
| Raster.OutlineRowEnd | lib/snowy.rb:37-48 | finishing a row keeps the pass's progress invariant on the next row |
| Raster.OutlineEnd | lib/snowy.rb:33-49 | after the last row the buffer is the outline of the original |
| Raster.Dots | lib/snowy.rb:191-209 | drawing text keeps the buffer's length |
| Raster.DotsWriteMappedColours | lib/snowy.rb:191-209 | every byte after drawing text is either unchanged or the low byte of a colour from the colour map |
| Raster.SortByY | lib/snowy.rb:279-281 | the three compare-and-swaps leave the corners ordered by y and are a permutation of them |
| Raster.PermutedMultiset | lib/snowy.rb:279-281 | a reordering of three corners has the same multiset of corners |
| Grid.IndexRowCol | lib/snowy.rb:139-145 | byte `x + y * width` of an in-row `x` is pixel `(x, y)` again |
| Grid.RowColIndex | lib/snowy.rb:139-145 | every byte is the index of its own pixel |
| Grid.IndexInside | lib/snowy.rb:121-127 | a point that passes `validate_point` addresses a byte inside the buffer |
| Grid.RowColInside | lib/snowy.rb:121-127 | every byte of the buffer is a point that passes `validate_point` |
| Grid.IndexInjective | lib/snowy.rb:139-145 | distinct in-bounds points address distinct bytes |
| Grid.NextRow | lib/snowy.rb:406-409 | row `y` of the buffer ends where row `y + 1` starts, inside the buffer |
| Affine.ProductIdentity | lib/snowy.rb:445-447 | the identity is a left and right unit of the product |
| Affine.RowApplyProduct | lib/snowy.rb:483-513 | one coordinate of a point under a product is that coordinate under the left factor of the point under the right factor |
| Affine.ApplyProduct | lib/snowy.rb:483-513 | applying `m * n` to a point is applying `n`, then `m` |
| Affine.ApplyTranslation | lib/snowy.rb:515-517 | the translation matrix moves a point by `(dx, dy)` |
| Affine.ApplyScaling | lib/snowy.rb:519-521 | the scaling matrix multiplies each coordinate by its factor |
| Affine.WithEntry | lib/snowy.rb:488 | setting one entry changes that entry and no other |
| Affine.TranslateThenTransform | lib/snowy.rb:515-517 | on a fresh matrix, `translate` then `transform` moves the point by `(dx, dy)` |
| Affine.ScaleThenTransform | lib/snowy.rb:519-521 | on a fresh matrix, `scale` then `transform` scales the point |
| Affine.Matrix.constructor | lib/snowy.rb:430-438 | `Matrix.new` without an argument holds the identity |
| Affine.Matrix.Reset | lib/snowy.rb:445-447 | `reset` loads the identity |
| Affine.Matrix.Load | lib/snowy.rb:449-477 | another matrix, a nested 3x3 Array or a flat 9-element Array is copied row by row; any other Array size is a wrong-element-number error and any other type a wrong-argument-type error; on error the matrix is unchanged |
| Affine.Matrix.MultInPlace | lib/snowy.rb:483-495 | `mult!` updating rows in place leaves the product of the old matrix and `mat` |
| Affine.Matrix.MultBySelf | lib/snowy.rb:483-495 | `mult!` given the matrix's own rows leaves the aliased product, each row multiplied by the rows as earlier passes left them |
| Affine.AliasedFirstRow | lib/snowy.rb:483-492 | the aliased product's first row is always the first row of the square |
| Affine.AliasedSquareDiffers | lib/snowy.rb:479-492 | for the coordinate swap, whose square is the identity, the aliased product has two equal first rows, so `m.mult(m)` does not square `m` |
| Affine.Matrix.MultRow | lib/snowy.rb:484-492 | one row's update uses the row as it was before the update and leaves the other rows alone |
| Affine.Matrix.Transform3 | lib/snowy.rb:506-513 | `transform3` is the matrix applied to `(x, y, w)` |
| Affine.Matrix.Transform2 | lib/snowy.rb:497-502 | `transform2` is the first two coordinates of `transform3` |
| Affine.Matrix.Translate | lib/snowy.rb:515-517 | `translate` right-multiplies by the translation matrix |
| Affine.Matrix.Scale | lib/snowy.rb:519-521 | `scale` right-multiplies by the scaling matrix |
| Affine.Matrix.Dup | lib/snowy.rb:440-443 | `dup` is a fresh matrix with the same entries |
| Png.Chunk | lib/snowy.rb:344-349 | a chunk's frame is 12 bytes longer than its data |
| Png.ParseChunk | lib/snowy.rb:344-349 | reading a frame consumes at least one byte |
| Png.FrameParts | lib/snowy.rb:344-349 | the length, type, data and CRC fields of a frame sit at the offsets its length field implies |
| Png.ParseFrame | lib/snowy.rb:344-349 | a frame with a matching length and CRC parses to its type and data |
| Png.ParseChunkRoundTrip | lib/snowy.rb:344-349 | parsing what `storechunk` writes gives the chunk back, followed by the rest of the input |
| Png.ParseChunksCons | lib/snowy.rb:344-349 | a chunk written in front of a parsable stream parses as that chunk followed by the stream's chunks |
| Png.ParseChunksStep | lib/snowy.rb:344-349 | a stream whose first frame parses and whose rest parses is the concatenation of both |
| Png.ParseChunksRoundTrip | lib/snowy.rb:344-349 | any sequence of chunks whose lengths fit in 32 bits is read back unchanged |
| Png.ParseChunksRoundTripStep | lib/snowy.rb:344-349 | the round trip for a sequence follows from the round trip for its tail |
| Png.IhdrData | lib/snowy.rb:359-361 | IHDR holds the width and height as 32-bit big-endian numbers, then bit depth 8, colour type 3 and three zero bytes |
| Png.PlteData | lib/snowy.rb:364-367 | PLTE holds three bytes per palette entry |
| Png.PlteEntry | lib/snowy.rb:364-366 | entry `i` of PLTE is red, green and blue of palette colour `i` |
| Png.TrnsData | lib/snowy.rb:373-374 | tRNS holds one byte per palette entry, its alpha |
| Png.ItxtData | lib/snowy.rb:386-392 | an iTXt chunk is the keyword, five zero bytes (separator, flags, empty language and translated keyword) and the text |
| Png.RawScanlinesLength | lib/snowy.rb:395-409 | the scanlines are one byte longer per row than the buffer |
| Png.RawScanlinesSnoc | lib/snowy.rb:406-409 | appending row `h` to the scanlines of the first `h` rows gives the scanlines of `h + 1` rows |
| Png.UnfilterRow | lib/snowy.rb:395-397 | a filter-0 row in front of more scanlines unfilters to that row followed by the rest |
| Png.UnfilterRawScanlines | lib/snowy.rb:395-409 | unfiltering the scanlines gives back the pixel buffer |
| Png.FileChunks | lib/snowy.rb:342-415 | the file holds seven chunks: IHDR, PLTE, tRNS, two iTXt, IDAT with the compressed scanlines, and IEND |
| Png.FileIsChunks | lib/snowy.rb:342-415 | the file is the signature followed by the frames of those seven chunks |
| Png.ChunksAppend | lib/snowy.rb:344-349 | framing one more chunk appends its frame |
| Png.FixedChunksFramable | lib/snowy.rb:361-412 | every chunk but IDAT fits the frame format (4-byte type, length below 2^32) |
| Png.ParseSignedFile | lib/snowy.rb:343 | a stream that starts with the signature parses to the chunks after it |
| Png.SignedChunksRoundTrip | lib/snowy.rb:343-349 | the signature followed by framed chunks parses back to those chunks |
| Png.SevenChunksRoundTrip | lib/snowy.rb:343-412 | a signed file of seven framable chunks parses back to them |
| Png.FileRoundTrip | lib/snowy.rb:342-415 | the file `export_to_png` writes parses back to its seven chunks whenever the compressed data fits in 32 bits |
| Png.FileHoldsImage | lib/snowy.rb:342-415 | a reader of the file finds the width and height in IHDR, the palette in PLTE and tRNS, and, inflating and unfiltering IDAT, the pixel buffer |
| Png.IendRegister | lib/snowy.rb:412 | the CRC register after the bytes `IEND` is 0x51BD9F7D |
| Png.IendChunk | lib/snowy.rb:412 | the IEND chunk carries the CRC 0xAE426082 |
| Canvases.Min3 | lib/snowy.rb:284 | the smallest of three x coordinates is one of them and at most each |
| Canvases.Max3 | lib/snowy.rb:284 | the largest of three x coordinates is one of them and at least each |
| Canvases.MinMaxPermuted | lib/snowy.rb:279-284 | sorting the corners changes neither the extreme x nor the extreme y |
| Canvases.NewCanvas | lib/snowy.rb:71-85 | a width or height outside 1..4096 is an error; otherwise a canvas of that size, every byte the background's low byte, with the identity matrix, palette and colour |
| Canvases.Canvas.constructor | lib/snowy.rb:71-85 | a valid size gives a `width * height` buffer filled with the background's low byte and an identity matrix |
| Canvases.Canvas.ValidatePoint | lib/snowy.rb:121-127 | true exactly for points on the canvas, whose bytes then exist |
| Canvases.Canvas.TestPoint | lib/snowy.rb:129-137 | succeeds exactly for points on the canvas and otherwise reports the point |
| Canvases.Canvas.GetPixel | lib/snowy.rb:90-98 | the byte at `x + y * width` for a point on the canvas, nothing otherwise |
| Canvases.Canvas.SetPixel | lib/snowy.rb:102-107 | a point on the canvas reads the low byte of `level` afterwards, every other point reads what it did, and a point off the canvas changes nothing |
| Canvases.Canvas.Fill | lib/snowy.rb:114-119 | every byte becomes the low byte of the colour, the canvas's drawing colour by default; the size is unchanged |
| Canvases.Canvas.PlotScanlineUnchecked | lib/snowy.rb:147-153 | `plotscanline!` paints pixels `x0 <= x < x1` of row `y` and nothing else |
| Canvases.Canvas.PlotScanline | lib/snowy.rb:158-173 | rounds, orders the ends, clips to the canvas and paints that span of the row; a row off the canvas changes nothing |
| Canvases.Canvas.DotByChar | lib/snowy.rb:191-209 | the buffer becomes the text drawing: a newline returns to the start column on the next row, a space skips a pixel, a mapped character sets its pixel (by default `*` maps to 2) |
| Canvases.Canvas.Transform | lib/snowy.rb:240-242 | the first two coordinates of `(x, y, w)` under the canvas matrix, `w` 1 by default |
| Canvases.Canvas.Translate | lib/snowy.rb:244-247 | right-multiplies the canvas matrix by a translation |
| Canvases.Canvas.Scale | lib/snowy.rb:249-252 | right-multiplies the canvas matrix by a scaling |
| Canvases.Canvas.PushMatrix | lib/snowy.rb:219-221 | returns a fresh copy of the current matrix |
| Canvases.Canvas.PopMatrix | lib/snowy.rb:230-233 | the canvas matrix takes the saved entries again |
| Canvases.Canvas.Triangle | lib/snowy.rb:267-307 | only pixels of rows between the topmost and bottommost corner change, and only to the colour; a triangle on one row is exactly the scanline between its leftmost and rightmost corner |
| Canvases.Canvas.FlatScanline | lib/snowy.rb:283-285 | the degenerate triangle is one scanline |
| Canvases.Canvas.TwoHalves | lib/snowy.rb:286-304 | the upper and lower halves paint only rows from the top to the bottom corner, only with the colour |
| Canvases.Canvas.PaintRow | lib/snowy.rb:289-302 | one scanline of a triangle keeps the painted-within-rows invariant |
| Canvases.Canvas.HalfDown | lib/snowy.rb:312-337 | with the stride corrected to the width, the canvas halves in each dimension and each pixel is the mean of its 2x2 block, computed in place |
| Canvases.Canvas.HalfPixel | lib/snowy.rb:318-328 | one target pixel is written without disturbing any byte still to be read |
| Canvases.Canvas.ExportToPng | lib/snowy.rb:342-415 | appends to `io` the PNG file of the canvas: signature, IHDR, PLTE, tRNS, two iTXt, IDAT with the deflated scanlines, IEND; the canvas is unchanged |
| Canvases.Canvas.Scanlines | lib/snowy.rb:395-409 | the IDAT payload is each row in order behind a filter byte 0 |
| Canvases.Canvas.OutlinePass | lib/snowy.rb:29-50 | the in-place pass leaves the outline of the buffer as it was before the pass, so pixels already turned to 2 never trigger their neighbours |
| Canvases.RenderPalette | lib/snowy.rb:10-11 | the canvas palette of the renderer is the background and the fill, followed by the outline colour exactly when there is one |
| Canvases.Canvas.RenderOutline | lib/snowy.rb:29-50 | the outline pass runs exactly when there is an outline colour, and otherwise the buffer is left as it is |
| Canvases.Canvas.OutlinePixel | lib/snowy.rb:37-47 | one interior pixel keeps the pass's progress invariant |

## Left out

- `rotate` and `rotate_deg` of Canvas and Matrix: they need `Math.cos` and `Math.sin`, which have no counterpart on Dafny's reals; the `DefaultDriver.render` loop that rotates the wedge six times, its `sqrt3` scaling and the `angle` argument go with them.
- Driver dispatch (`Snowy.driver`), the Cairo driver (lib/snowy/cairo.rb), the gem stub and the demo script are not part of this model; `generate_to_png` is modelled up to the arguments it hands to `driver.render`, and the renderer up to its outline pass and `export_to_png`.
- `size` of `generate_to_png` only reaches the renderer and is not modelled.
- `Zlib.deflate` is the parameter `deflate` of `Canvases.Canvas.ExportToPng`; compression itself is not modelled, and `Png.FileHoldsImage` assumes an `inflate` that undoes it.
- `Matrix#mult`, `Canvas#mult_matrix` and `Matrix.[]`: they coerce an arbitrary argument into a Matrix; the model keeps `mult!` on a separate 3x3 matrix (`Affine.Matrix.MultInPlace`) and on the matrix's own rows (`Affine.Matrix.MultBySelf`), the two cases `mult` reaches with a Matrix or an Array argument; `mult!` on an Array that shares only some rows with the matrix is not modelled.
- `Canvases.Canvas.PopMatrix` takes a saved Matrix; `pop_matrix` passes any argument to `load`, whose Array forms and errors are modelled by `Affine.Matrix.Load` but not repeated at the canvas.
- `Canvases.Canvas.palette` is fixed when the canvas is made. `DefaultDriver.render` passes an Array to `Canvas.new` and appends the outline colour to that same Array afterwards (lib/snowy.rb:10-11), so the canvas sees the longer palette; the model gives the canvas that final palette (`Canvases.RenderPalette`) and does not model the shared Array itself.
- `DefaultDriver.render` as a whole is not modelled (it needs the rotations above); its palette (`Canvases.RenderPalette`), its `if outline` guard (`Canvases.Canvas.RenderOutline`) and its outline pass are.
- `Canvas#init_matrix` calls `Matrix#init`, which the Matrix class does not define, so it always raises; it is not modelled.
- The `push_matrix` block form (restore after `yield`) is not modelled; `Canvases.Canvas.PushMatrix` is the form without a block.
- `to_i` of Float arguments in `getpixel`, `setpixel` and the canvas size is not modelled: those arguments are integers in the model.
- `Canvases.Canvas.PlotScanlineUnchecked` requires an in-range row and span; `plotscanline!` itself writes wherever `x + y * width` points, but the only callers clip first.
- `Affine.Matrix.Load` refuses a flat 9-element Array that holds something other than numbers (`NotNumeric`), where Ruby would store it and fail later; matrix entries are reals in the model.
- Float arithmetic is modelled with exact reals, so a triangle edge that rounds differently under IEEE 754 double precision may differ from the model.
- The second `scanline ||=` filter in `export_to_png` (the Sub filter) is never used, since `scanline` is already set; it is not modelled.
- The reduce loops that build PLTE and tRNS are modelled as functions of the palette (`Png.PlteData`, `Png.TrnsData`).
- Negative codes: `Code` holds naturals, and the Integer bit operators on negative numbers (two's complement) are not modelled.
- `Png.IendChunk` states the CRC of the IEND chunk only; CRCs of the other chunks are stated through `Crc32.ContinueChains` rather than as constants.
- `Canvases.Canvas.Triangle`: for a triangle spanning several rows the contract states which rows and colour can be painted, not which x-span of each row is painted.

## Findings

| source | as written | input that shows it | evidently intended | confidence | as-written member | corrected member |
|---|---|---|---|---|---|---|
| lib/snowy.rb:322-323 | `halfdown!` addresses source rows with the canvas height as the row stride (`yy * height`) | a 4x2 canvas with rows `0,0,0,0` and `4,4,4,4` gives 0 for pixel `(0, 0)`; a 2x4 canvas reads past the buffer for block `(0, 1)` (the as-written reads are modelled on the unwritten buffer, exact for first-row targets; on later rows of a wide canvas they can also hit bytes already overwritten, e.g. bytes 8, 9, 12, 13 for target `(0, 1)` of a 32x4 canvas) | the stride is the width, so each pixel is the mean of its 2x2 block (the two agree only on square canvases) | not executed | Raster.BlockAsWrittenWideWrong | Canvases.Canvas.HalfDown |
