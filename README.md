# harfbuzz_rs in Dafny

A model of the safe Rust layer `harfbuzz_rs` over the native HarfBuzz text
shaping engine, with its properties proved.

The native engine is the class `Engine.Engine` (engine.dfy). It keeps the
objects the binding creates:

- buffers, with their items, content type, direction, cluster level and
  allocated room;
- fonts, with parent, face, scale, ppem and font-funcs table;
- faces, over a blob or over a table callback;
- blobs, as their bytes;
- font-funcs tables, mapping each of the fourteen slots to a trampoline.

Each object's reference count lives in a ghost bookkeeping record, `Counts`.
It also records which binding wrapper holds each reference, and whether that
wrapper is an exclusive `Owned`. The engine's own algorithms are parameters:
constant function fields of `Engine` that the model never looks inside. These
are text decoding, direction guessing, shaping, table lookup, units per em,
serialization, and the answers of the font queries.

On top of the engine:

- **common.dfy**: `Tag` (packing, bytes, parsing from a string), `Direction`,
  and the two smart pointers. `Owned` is the single owning wrapper and
  `Shared` is one of several reference holders; both are classes whose
  liveness is their membership in the engine's holder sets.
- **buffer.dfy**: each buffer call's effect as a pure function on the buffer
  state. The type-state views `UnicodeBuffer` and `GlyphBuffer` are methods
  that change the engine. Also `TypedBuffer::take_from_raw`, `add_str_item`'s
  range check, `reverse_range`, `string_lossy`, and `BufferSerializer` as a
  class whose `Read` loops over refills.
- **font.dfy**: creation, sub-fonts, parent and face
  references, scale and ppem, the parent-rescaling helpers with 64-bit
  truncating arithmetic and panics, and the `Option` getters, including the
  256-byte glyph-name buffer.
- **font_funcs.dfy**: the default methods of the `FontFuncs` trait as
  written (their vertical metrics go through the y helper, which reads the
  x scales; see "Findings"), the trampolines of `hb_callback!`, and the
  glyph-name trampoline as a method over an `array`. Also `FontFuncsImpl`
  filling a table with `set_trait_impl`, and `Font::set_font_funcs`.
- **face.dfy**: `Face::new`, `Face::from_table_func` and its trampoline,
  `face_data` and `table_with_tag`.
- **shape.dfy**: `shape`.

A panic is the value `Panicked` of `Unwind<T>`. Trampolines catch it and
return their default. A wrapper that Rust consumes by value is dropped on
the panic path.

## Model

| member | source | states |
|---|---|---|
| Common.TagNewOfBytes | src/common.rs:37-39 | `Tag::new` on four byte-sized characters is their big-endian number |
| Common.TagToBytes | src/common.rs:55-63 | `to_bytes` gives four bytes whose big-endian number is the tag |
| Common.TagFromBytes | src/common.rs:83-92 | a tag built from a 4-byte array gives that array back through `to_bytes` |
| Common.TagBytesRoundTrip | src/common.rs:83-98 | every tag is the tag of its own bytes |
| Common.TagBytesOfNew | src/common.rs:37-63 | the bytes of `Tag::new(a,b,c,d)` on byte characters are `[a,b,c,d]` |
| Common.TagBytesInjective | src/common.rs:55-63 | tags with equal bytes are equal |
| Common.BigEndianUnique | src/common.rs:55-63 | a number has a single four-byte big-endian spelling |
| Common.HbTagFromString | src/common.rs:136-145 | the engine's tag parser: no tag for a zero length or a leading NUL; otherwise the bytes up to the limit or a NUL, padded with spaces |
| Common.TagFromStr | src/common.rs:119-145 | `NonAscii` iff the text is not ASCII; `ZeroLengthString` iff it is ASCII and empty; otherwise the first four bytes, up to a NUL, padded with spaces |
| Common.TagFromStrAsWritten | src/common.rs:136-145 | the code as written fails exactly when the corrected parser fails, with the same error |
| Common.TagFromStrReadsPastShortString | src/common.rs:136-145 | as written, "ab" followed in memory by "CD" parses as the tag "abCD" |
| Common.TagFromStrPadsShortString | src/common.rs:119-145 | corrected, "ab" parses as "ab  " |
| Common.TagFromStrAsWrittenFromFourBytes | src/common.rs:136-145 | for strings of four bytes or more, as written and corrected agree whatever follows |
| Common.TagFromStrExamples | src/common.rs:500-505 | "∞BCD" is refused as non-ASCII, "" as empty, and "ABCDE" gives the tag of "ABCD" |
| Common.TagFromStrOfLetters | src/common.rs:500-506 | "abWd" parses as `Tag::new('a','b','W','d')` |
| Common.Direction.ToRaw | src/common.rs:165-173 | the code is INVALID iff the direction is `Invalid`; any other code is LTR..BTT |
| Common.Direction.FromRaw | src/common.rs:176-184 | `Invalid` iff the code is outside LTR..BTT; otherwise the direction whose code it is |
| Common.DirectionRoundTrip | src/common.rs:163-184 | reading a direction's code back gives the direction |
| Common.Shared.FromRawOwned | src/common.rs:326-329 | adopts the caller's reference; the count is unchanged |
| Common.Shared.FromRawRef | src/common.rs:354-358 | takes a reference of its own; the count goes up by one |
| Common.Shared.Clone | src/common.rs:365-367 | a second live wrapper over the same object; the count goes up by exactly one |
| Common.Shared.IntoRaw | src/common.rs:335-339 | the wrapper is gone; its reference stays with the returned pointer |
| Common.Shared.Drop | src/common.rs:392-396 | the wrapper is gone and the count goes down by exactly one |
| Common.Owned.FromRaw | src/common.rs:435-439 | the sole holder adopts the caller's reference; the count is unchanged |
| Common.Owned.IntoRaw | src/common.rs:445-449 | the wrapper is gone; its reference stays with the pointer |
| Common.Owned.ToShared | src/common.rs:460-462 | the reference moves to a new `Shared`; every count is unchanged |
| Common.Owned.Drop | src/common.rs:465-469 | the wrapper is gone and the count goes down by exactly one |
| Common.ReferenceCountingShared | src/common.rs:548-578 | an object handed over with one reference and no holder, once wrapped, cloned, the clone dropped and the wrapper dropped, ends with count 0 and the objects unchanged |
| Buffer.ClusterLevel.IntoRaw | src/buffer.rs:160-166 | each level's code is one of the engine's three |
| Buffer.ClusterLevel.FromRaw | src/buffer.rs:151-158 | panics iff the code is not one of the three; otherwise the level whose code it is |
| Buffer.DefaultClusterLevel | src/buffer.rs:169-173 | the default level is the one a new engine buffer has |
| Buffer.ClusterLevelRoundTrip | src/buffer.rs:150-166 | reading a level's code back gives the level |
| Buffer.UnsafeToBreakIsBit | src/buffer.rs:108-110 | the flag test holds iff OR-ing the unsafe-to-break bit into the flags changes nothing |
| Buffer.Added | src/buffer.rs:199-203 | one more item with the codepoint and cluster; the earlier items and every other field are kept |
| Buffer.AddedCodepoints | src/buffer.rs:199-203 | adding a character appends its codepoint to the buffer's codepoints |
| Buffer.AddedUtf8 | src/buffer.rs:205-217 | the decoded characters are appended and the buffer holds Unicode text |
| Buffer.Appended | src/buffer.rs:219-223 | the clamped range of the source is appended; an empty range changes nothing; the room and cluster level are kept |
| Buffer.AppendedAll | src/buffer.rs:628-631 | the range `0..c_uint::MAX` appends the whole source |
| Buffer.Cleared | src/buffer.rs:280-282 | no items, content type or direction; the cluster level and room are kept |
| Buffer.ReversedRange | src/buffer.rs:307-310 | the clamped range is reversed in place; the items are a permutation of the old ones |
| Buffer.ReversedRangeTwice | src/buffer.rs:307-310 | reversing the same range twice restores the buffer |
| Buffer.Reversed | src/buffer.rs:302-304 | the items in reverse order, everything else kept |
| Buffer.PreAllocated | src/buffer.rs:275-278 | the room is at least the size asked for and never shrinks |
| Buffer.Guessed | src/buffer.rs:255-257 | afterwards the direction is valid; a buffer that had one is unchanged |
| Buffer.Codepoints | src/buffer.rs:672-676 | the codepoints of the items, in order |
| Buffer.LossyChar | src/buffer.rs:681-685 | a scalar value is itself; anything else is U+FFFD |
| Buffer.StringLossy | src/buffer.rs:681-685 | one character per codepoint, each shown as `LossyChar` shows it |
| Buffer.StringLossyOfChars | src/buffer.rs:681-685 | codepoints that came from characters read back as those characters |
| Buffer.StringLossyReplacement | src/buffer.rs:681-685 | U+FFFD appears exactly for U+FFFD itself or a non-scalar codepoint |
| Buffer.ItemOffset | src/buffer.rs:606-613 | accepted iff the item lies inside the context; the offset places the item in it |
| Buffer.ItemOffsetOfSlice | src/buffer.rs:606-613 | a slice of the context is accepted at its own offset, and the range covers exactly its bytes |
| Buffer.ItemOffsetOfDisjoint | src/buffer.rs:606-613 | a non-empty item from another allocation is refused |
| Buffer.ItemOffsetExamples | src/buffer.rs:946-969 | the tests' cases: a heap slice is accepted; an item past the end or before the start is refused |
| Buffer.DecodedRange | src/buffer.rs:209-215 | the engine is handed the string length and item length cast to C `int` and the offset cast to C `unsigned int`; below 2^31 bytes these are the range itself, and a whole string of 2^31 bytes arrives with both lengths at the most negative `int` |
| Buffer.AddedStrItem | src/buffer.rs:205-217 | panics iff the range runs past the string; otherwise the range, as narrowed by the casts, is decoded and appended, which on strings under 2^31 bytes is the range itself |
| Buffer.AddStrOfLongTextWraps | src/buffer.rs:209-215 | a whole string of 2^31 bytes reaches the engine with both lengths wrapped to `i32::MIN` |
| Buffer.AddStrNeverPanics | src/buffer.rs:569-572 | the whole string never trips the range check |
| Buffer.AddStrItemInnerCheckHolds | src/buffer.rs:606-613 | once the outer check passed, the inner check never fails |
| Buffer.ReverseRangeAsWritten | src/buffer.rs:307-310 | as written, panics iff `start` exceeds the length; `end` is cut to 32 bits and clamped |
| Buffer.ReverseRange | src/buffer.rs:307-310 | corrected, panics iff either end is outside; otherwise prefix + reversed range + suffix |
| Buffer.ReverseRangeEndUnchecked | src/buffer.rs:307-310 | on two items, range 0..3 reverses both as written, but panics when corrected |
| Buffer.ReverseRangeAgrees | src/buffer.rs:307-310 | where the corrected check passes, both versions agree |
| Buffer.PreAllocate | src/buffer.rs:275-278 | the size is clamped to `c_uint::MAX`; the items are kept |
| Buffer.GenericNew | src/buffer.rs:180-183 | a fresh engine buffer in its initial state under a new sole owner |
| Buffer.UnicodeBuffer.FromGeneric | src/buffer.rs:490-493 | the buffer is marked as Unicode text and nothing else changes |
| Buffer.UnicodeBuffer.New | src/buffer.rs:504-506 | a fresh, empty Unicode buffer with one exclusively held reference |
| Buffer.UnicodeBuffer.Len | src/buffer.rs:530-532 | the number of entries, equal to the number of code points and of characters `string_lossy` gives |
| Buffer.UnicodeBuffer.IntoRaw | src/buffer.rs:509-511 | the reference goes to the caller |
| Buffer.UnicodeBuffer.Add | src/buffer.rs:549-552 | only this buffer changes, and it becomes `Added` of its old state |
| Buffer.UnicodeBuffer.AddStr | src/buffer.rs:569-572 | the whole string is decoded and appended |
| Buffer.UnicodeBuffer.AddStrRange | src/buffer.rs:205-217 | the engine decodes the range, its lengths and offset cut to 32 bits, with the whole text as context |
| Buffer.UnicodeBuffer.Drop | src/common.rs:465-469 | the buffer's reference is released |
| Buffer.UnicodeBuffer.AddStrItem | src/buffer.rs:606-613 | panics iff the item is not inside the context, and the buffer is then dropped; otherwise its bytes are decoded and appended |
| Buffer.UnicodeBuffer.AppendRange | src/buffer.rs:649-657 | the range of the other buffer is appended; the other buffer is unchanged |
| Buffer.UnicodeBuffer.Append | src/buffer.rs:628-631 | all of the other buffer's items are appended |
| Buffer.UnicodeBuffer.SetDirection | src/buffer.rs:688-696 | the direction reads back as set; nothing else changes |
| Buffer.UnicodeBuffer.GetDirection | src/buffer.rs:694-696 | `Invalid` iff the engine's code is none of the four directions; otherwise the direction whose code it is |
| Buffer.UnicodeBuffer.SetClusterLevel | src/buffer.rs:735-743 | the cluster level reads back as set |
| Buffer.UnicodeBuffer.GetClusterLevel | src/buffer.rs:741-743 | panics iff the engine's code is none of the three levels; otherwise the level whose code it is |
| Buffer.UnicodeBuffer.PreAllocateRoom | src/buffer.rs:746-748 | the room grows as `PreAllocate` says and the items are kept |
| Buffer.UnicodeBuffer.ClearContents | src/buffer.rs:763-766 | the buffer is empty afterwards |
| Buffer.UnicodeBuffer.GuessSegmentProperties | src/buffer.rs:723-726 | the buffer becomes `Guessed`, so its direction is valid |
| Buffer.GlyphBuffer.GlyphInfos | src/buffer.rs:837-839 | one info per item |
| Buffer.GlyphBuffer.GlyphPositions | src/buffer.rs:832-834 | one position per info |
| Buffer.GlyphBuffer.IntoRaw | src/buffer.rs:822-824 | the reference goes to the caller |
| Buffer.GlyphBuffer.Reverse | src/buffer.rs:842-844 | the buffer becomes `Reversed` of its old state |
| Buffer.GlyphBuffer.ReverseRangeOf | src/buffer.rs:847-849 | as written: panics iff `start` is past the end, leaving the buffer unchanged; otherwise the buffer becomes `ReverseRangeAsWritten`'s result, with `end` clamped |
| Buffer.GlyphBuffer.Clear | src/buffer.rs:853-856 | the same engine buffer comes back as an empty Unicode buffer |
| Buffer.TakeFromRaw | src/buffer.rs:452-467 | Unicode content gives a `UnicodeBuffer` and glyph content a `GlyphBuffer`, each keeping the count; any other content drops the reference and gives `None` |
| Buffer.SerializeFormat.IntoRaw | src/buffer.rs:352-359 | the codes are the tags "TEXT" and "JSON" |
| Buffer.Refill | src/buffer.rs:399-431 | `None` iff nothing is left; otherwise the new start lies between the old one and the end (a refill may fit no glyph) and the bytes fit the vector |
| Buffer.RefillAsWritten | src/buffer.rs:399-431 | as written, agrees with `Refill` whenever `end >= 1` |
| Buffer.RefillAsWrittenLoopsOnEmptyBuffer | src/buffer.rs:399-431 | on an empty buffer, as written refills nothing and comes back unchanged, while corrected stops |
| Buffer.RefillAsWrittenRepeatsWhenNothingFits | src/buffer.rs:405-426 | an engine that fits no glyph meets the serializer's contract; when a refill fits no glyph, as written it comes back to the same start with an empty cursor, and the refills stall |
| Buffer.BufferSerializer.constructor | src/buffer.rs:896-911 | the whole buffer is pending and nothing has been read |
| Buffer.BufferSerializer.Read | src/buffer.rs:399-431 | corrected: an error iff the refills stall before any byte is due; otherwise, with room, the bytes read are a prefix of what is pending, and it returns nothing iff nothing is pending and nothing stalls; with no room, it drains every glyph and returns nothing |
| Font.Rescale | src/font.rs:240-253 | panics iff the parent scale is 0 and the font's is not; equal scales return the value unchanged |
| Font.RescaleProductFitsI64 | src/font.rs:240-253 | the 64-bit product of two 32-bit numbers never overflows |
| Font.RescaleIsFormula | src/font.rs:240-253 | the equal-scales shortcut agrees with `v * to / from` for any non-zero parent scale |
| Font.RescaleByMultiple | src/font.rs:240-253 | a child scale `k` times the parent's multiplies distances by `k`, modulo 32 bits |
| Font.RescaleDown | src/font.rs:240-253 | a smaller child scale never increases the magnitude, and nothing is cut off except at `i32::MIN` |
| Font.FromFlag | src/font.rs:279-292 | the out-value counts iff the result flag is 1 |
| Font.NameBuffer | src/font.rs:404-420 | the name and its NUL written into the 256-byte buffer, cut to fit |
| Font.NameFromBuffer | src/font.rs:404-420 | the bytes before the first NUL, iff they are well-formed UTF-8 |
| Font.NameRoundTrip | src/font.rs:404-420 | a well-formed name without NUL that fits reads back exactly |
| Font.NameCutAtNul | src/font.rs:404-420 | a name with a NUL inside reads back as its part before the NUL |
| Font.Font.ParentRaw | src/font.rs:182-192 | the parent is NULL iff this is the empty font; any other parent is an existing, older font |
| Font.Font.ParentFont | src/font.rs:182-192 | a font other than the empty one has a valid parent |
| Font.Font.New | src/font.rs:116-124 | a new font on the face under the empty font; the face's count is unchanged because the font's reference replaces the wrapper's |
| Font.Font.FontConsuming | src/font.rs:116-124 | the engine part of `new`: the font is created and the face wrapper dropped |
| Font.Font.Empty | src/font.rs:132-137 | an owning wrapper over the engine's empty font; its count goes up by one |
| Font.Font.CreateSubFont | src/font.rs:160-162 | a new font whose parent is the given one, with the parent's face, scale and ppem |
| Font.Font.SubFontConsuming | src/font.rs:160-162 | the engine part of `create_sub_font`, with the parent wrapper dropped |
| Font.Font.Parent | src/font.rs:182-192 | `None` iff this is the empty font; otherwise a new `Shared` over the parent, which holds one more reference |
| Font.Font.Face | src/font.rs:195-197 | a new `Shared` over the font's face, which holds one more reference |
| Font.Font.SetScale | src/font.rs:207-209 | the scale reads back as set and the ppem is kept; the empty font ignores it |
| Font.Font.SetPpem | src/font.rs:217-219 | the ppem reads back as set and the scale is kept; the empty font ignores it |
| Font.Font.Scale | src/font.rs:199-203 | the x and y scales the engine holds for the font, read through the two out-parameters |
| Font.Font.Ppem | src/font.rs:211-215 | the x and y ppem the engine holds for the font |
| Font.Font.ParentScaleXDistance | src/font.rs:240-253 | 0 without a parent; the parent's value at equal scales; panics iff the parent's x scale is 0 and the font's is not; otherwise `v * x / parent_x`, truncated |
| Font.Font.ParentScaleYDistanceAsWritten | src/font.rs:256-269 | as written, equals the x distance |
| Font.Font.ParentScaleYDistance | src/font.rs:256-269 | the same as the x distance, but on the y scales |
| Font.Font.ParentScalePosition | src/font.rs:272-277 | x through the x helper and y through the y helper as written, so both by the x scales; returns iff the x path does; `(0, 0)` without a parent; unchanged at equal x scales |
| Font.Font.GetFontHExtents | src/font.rs:279-292 | `Some` iff the engine's flag is 1, holding its extents |
| Font.Font.GetFontVExtents | src/font.rs:294-307 | `Some` iff the engine's flag is 1, holding its extents |
| Font.Font.GetNominalGlyph | src/font.rs:309-319 | `Some` iff the engine finds a glyph for the character's scalar value |
| Font.Font.GetVariationGlyph | src/font.rs:321-332 | `Some` iff the engine finds a glyph for the character and selector |
| Font.Font.GetGlyphHAdvance | src/font.rs:335-337 | the engine's horizontal advance, with no success flag |
| Font.Font.GetGlyphVAdvance | src/font.rs:340-342 | the engine's vertical advance, with no success flag |
| Font.Font.GetGlyphHOrigin | src/font.rs:344-355 | `Some` iff the engine's flag is 1, holding both coordinates |
| Font.Font.GetGlyphVOrigin | src/font.rs:357-368 | `Some` iff the engine's flag is 1, holding both coordinates |
| Font.Font.GetGlyphExtents | src/font.rs:370-380 | `Some` iff the engine's flag is 1, holding its extents |
| Font.Font.GetGlyphContourPoint | src/font.rs:382-402 | `Some` iff the engine's flag is 1, holding the point |
| Font.Font.GetGlyphName | src/font.rs:404-420 | `None` when the engine fails; a result is NUL-free, well-formed and shorter than the buffer; a fitting well-formed name comes back exactly |
| Font.Font.GetGlyphFromName | src/font.rs:422-437 | `Some` iff the engine finds the name, given its bytes and their length as an `i32` |
| Font.YDistanceAsWrittenUsesXScale | src/font.rs:256-269 | at x scale 2000 and y scale 1000 under a 1000×1000 parent, a y distance of 10 comes out as 20 as written and as 10 corrected |
| FontFuncs.ParentScaleIsScaled | src/font.rs:240-269 | the x helper and the y helper as written are the parent's value rescaled by the x scales; the intended y helper rescales by the y scales; each panics exactly on a zero parent scale on its axis |
| FontFuncs.ScaleFontExtents | src/font_funcs.rs:27-35 | ascender, descender and line gap go through the y helper as written, that is by the x scales, and the rest is kept; panics iff the x path does; unchanged at equal x scales |
| FontFuncs.ScaleGlyphExtents | src/font_funcs.rs:80-90 | x bearing and width through the x helper, y bearing and height through the y helper as written, so all four by the x scales; panics iff the x path does; unchanged at equal x scales |
| FontFuncs.ScalePosition | src/font_funcs.rs:64-68 | both coordinates by the x scales (y through the y helper as written); panics iff the x path does; unchanged at equal x scales |
| FontFuncs.DefaultFontHExtents | src/font_funcs.rs:27-36 | `None` without a parent or without its extents; otherwise the parent's extents through `ScaleFontExtents`, panicking iff the x path does |
| FontFuncs.DefaultFontVExtents | src/font_funcs.rs:37-46 | the same for the vertical extents |
| FontFuncs.DefaultNominalGlyph | src/font_funcs.rs:47-49 | `None` without a parent, otherwise the parent's glyph |
| FontFuncs.DefaultVariationGlyph | src/font_funcs.rs:50-57 | `None` without a parent, otherwise the parent's glyph |
| FontFuncs.DefaultGlyphHAdvance | src/font_funcs.rs:58-60 | 0 without a parent, otherwise the parent's advance on the x scale; panics iff the x path does |
| FontFuncs.DefaultGlyphVAdvance | src/font_funcs.rs:61-63 | 0 without a parent, otherwise the parent's advance through the y helper as written, by the x scales; panics iff the x path does |
| FontFuncs.DefaultGlyphHOrigin | src/font_funcs.rs:64-68 | `None` without a parent or its origin; otherwise the parent's origin through `ScalePosition`, panicking iff the x path does |
| FontFuncs.DefaultGlyphVOrigin | src/font_funcs.rs:69-73 | the same for the vertical origin |
| FontFuncs.DefaultGlyphHKerning | src/font_funcs.rs:74-76 | 0 without a parent, otherwise the parent's kerning on the x scale |
| FontFuncs.DefaultGlyphVKerning | src/font_funcs.rs:77-79 | 0 without a parent, otherwise the parent's kerning through the y helper as written, by the x scales; panics iff the x path does |
| FontFuncs.DefaultGlyphExtents | src/font_funcs.rs:80-90 | `None` without a parent or its extents; otherwise the parent's extents through `ScaleGlyphExtents`, panicking iff the x path does |
| FontFuncs.DefaultGlyphContourPoint | src/font_funcs.rs:91-100 | `None` without a parent or its point; otherwise the parent's point through `ScalePosition`, panicking iff the x path does |
| FontFuncs.DefaultGlyphName | src/font_funcs.rs:101-103 | `None` without a parent, otherwise the parent's name |
| FontFuncs.DefaultGlyphFromName | src/font_funcs.rs:104-106 | `None` without a parent, otherwise the parent's glyph |
| FontFuncs.DefaultsAtParentScale | src/font_funcs.rs:27-63 | at the parent's scale, the default extents and advances are the parent's |
| FontFuncs.DefaultPositionsAtParentScale | src/font_funcs.rs:64-100 | at the parent's scale, the default origins, glyph extents and contour points are the parent's |
| FontFuncs.DefaultsAtDoubleScale | src/font_funcs.rs:58-73 | at twice the parent's scale, advances and origins double, modulo 32 bits |
| FontFuncs.DefaultGlyphVAdvanceUsesXScale | src/font_funcs.rs:61-63 | as written, a parent advance of 10 becomes 20 at scale (2000, 1000) under (1000, 1000), and panics (answering 0) under (0, 1000); the intended y helper gives 10 in both |
| FontFuncs.OptionTrampoline | src/font_funcs.rs:109-151 | result 1 iff the closure returned `Some`, with the value in the out-parameter; a `None` or a panic gives 0 and leaves the out-parameter |
| FontFuncs.PositionTrampoline | src/font_funcs.rs:200-205 | the closure's position, or the default 0 when it panicked |
| FontFuncs.OptionTrampolineRoundTrip | src/font_funcs.rs:140-151 | the getter reading flag and out-parameter recovers the closure's answer, and reads a panic as `None` |
| FontFuncs.NominalGlyphTrampoline | src/font_funcs.rs:153-170 | a non-scalar code point is refused with 0 before the closure runs |
| FontFuncs.VariationGlyphTrampoline | src/font_funcs.rs:172-198 | both code points must be scalar values before the closure runs |
| FontFuncs.NominalGlyphOfChar | src/font_funcs.rs:153-170 | a character's code point reaches the closure as that character |
| FontFuncs.NameArgument | src/font_funcs.rs:282-298 | size -1 reads to the NUL; a size of at least 1 reads exactly that many bytes; any other size gives no name; only well-formed UTF-8 passes |
| FontFuncs.GlyphFromNameTrampoline | src/font_funcs.rs:282-308 | without a usable name the answer is 0 and the closure is not called |
| FontFuncs.GlyphFromNameArgument | src/font_funcs.rs:282-298 | a non-empty, well-formed name sent by `get_glyph_from_name` arrives unchanged; an empty one never reaches the closure |
| FontFuncs.Written | src/font_funcs.rs:268-271 | `write_all` through a slice replaces as many leading bytes as fit |
| FontFuncs.NameWriteAsWritten | src/font_funcs.rs:264-280 | the glyph-name trampoline as written keeps the buffer length |
| FontFuncs.NameWriteAsWrittenLeavesNoNul | src/font_funcs.rs:264-280 | a name too long for the buffer leaves it filled with no NUL, answering 0 |
| FontFuncs.NameWriteAsWrittenExample | src/font_funcs.rs:264-280 | the name "AB" in a 2-byte buffer leaves `[65, 66]` and no NUL |
| FontFuncs.NameWrite | src/font_funcs.rs:264-280 | corrected: answers 1 iff a NUL-free name fits, then writes it and its NUL; on 0 after a return, a non-empty buffer starts with NUL |
| FontFuncs.NameWriteReadBack | src/font_funcs.rs:264-280 | the buffer always holds a NUL; it reads back as the name on 1 and as empty on 0 |
| FontFuncs.WriteAll | src/font_funcs.rs:268-271 | copies the bytes into the array; succeeds iff they all fit |
| FontFuncs.GlyphNameTrampoline | src/font_funcs.rs:264-280 | the array and answer are exactly `NameWrite`'s |
| FontFuncs.TraitTable | src/font_funcs.rs:403-426 | every slot holds its own trampoline |
| FontFuncs.TraitTableComplete | src/font_funcs.rs:403-426 | all fourteen slots are filled |
| FontFuncs.TraitSlotsFillTable | src/font_funcs.rs:403-426 | the fourteen installs, in order, leave exactly the trait table, whatever was there before |
| FontFuncs.SlotCallbacks | src/font_funcs.rs:434-640 | which trampoline each `set_*_func` installs |
| FontFuncs.TraitCallbacksFillTable | src/font_funcs.rs:403-426 | the fourteen `set_*_func` calls turn any table into the trait table |
| FontFuncs.FontFuncsImpl.New | src/font_funcs.rs:430-432 | a new, empty table under a new sole owner |
| FontFuncs.FontFuncsImpl.SetFunc | src/font_funcs.rs:434-448 | exactly the one slot gets its trampoline |
| FontFuncs.FontFuncsImpl.SetTraitImpl | src/font_funcs.rs:403-426 | the table becomes the trait table; no count changes |
| FontFuncs.FontFuncsImpl.FromTraitImpl | src/font_funcs.rs:397-401 | a new table holding the trait table, owned by the caller |
| FontFuncs.SetFontFuncs | src/font.rs:223-237 | the font uses a new trait table whose only reference is the font's; the empty font ignores it and the table is freed; every other handle's count and holders are unchanged |
| FontFuncs.SetFontFuncsKeepsFont | src/font.rs:223-237 | the font keeps parent, face, scale and ppem; every slot of its new table holds its trampoline; other tables are unchanged |
| FontFuncs.TableHandedOverCounts | src/font.rs:223-237 | creating a table, owning it, handing a reference to the font and dropping the owner leave just a new handle whose one reference is the font's (none for the empty font) |
| Face.TableFuncAnswersClosure | src/face.rs:57-72 | the face's callback answers each tag with the closure's answer for it |
| Face.TableFuncTrampoline | src/face.rs:57-72 | a blob's reference goes to the engine and its wrapper is gone; no blob gives NULL |
| Face.Face.New | src/face.rs:24-28 | as written: a face over the blob and index; the blob's wrapper is gone, the engine takes its own reference, and the wrapper's reference is left with nobody |
| Face.Face.NewBorrowingBlob | src/face.rs:24-28 | corrected: the same face, and the wrapper's reference is given back, so the face's reference replaces it |
| Face.NewLeaksBlobReference | src/face.rs:24-28 | as written the blob's count goes up by one with no wrapper more; as intended it is unchanged |
| Face.Face.FromTableFunc | src/face.rs:50-82 | a face over the closure's callback, at index 0, under a new sole owner |
| Face.Face.FaceData | src/face.rs:84-89 | a live blob holding the whole font data; a face over a blob hands out that blob with one more reference |
| Face.Face.ReferenceTable | src/face.rs:93-98 | a new wrapper over a blob holding the table's bytes, or nothing; one more reference to that blob, all other counts unchanged |
| Face.Face.TableWithTag | src/face.rs:93-107 | `Some` iff the table exists and is non-empty, with its bytes; `None` leaves every count as it was |
| Face.TagNamedTableOf | src/face.rs:163-174 | the example closure answers a tag with its four characters and "-table" |
| Face.TableFuncExample | src/face.rs:163-174 | `maxp` gives "maxp-table" and `hhea` gives "hhea-table" |
| Shape.FeaturesPassed | src/lib.rs:108-119 | the engine sees a prefix of the features, and all of them when their number fits a `u32` |
| Shape.FeatureCount | src/lib.rs:115 | `features.len() as u32`: never more than the slice holds, and exactly its length when that fits |
| Shape.ShapedContents | src/lib.rs:108-119 | the direction is guessed first and is valid; the shaper sees it; the result holds glyphs (or nothing); room and cluster level are kept |
| Shape.Shape | src/lib.rs:108-119 | the same buffer comes back as a `GlyphBuffer`; only that buffer changes, to `ShapedContents`; no count changes |
| Shape.ShapeThenClear | src/lib.rs:108-119 | shaping then clearing gives the same buffer empty, with its room and cluster level, and every count as it was |

## Left out

- The language, script and segment-property getters and setters of the buffers (`set_language`, `set_script`, `get_segment_properties`) are not modelled. `guess_segment_properties` is modelled for the direction only.
- `Face::from_file` and `Face::from_bytes` read files or borrow slices: I/O and lifetimes, not modelled.
- `Face::index`, `set_upem`, `upem`, `set_glyph_count` and `glyph_count` forward one engine field each. They are not modelled beyond the face's stored index and units per em.
- The engine's own algorithms are parameters, never defined. These are UTF-8 decoding, direction guessing, shaping, table lookup, serialization, and the font queries.
- The engine's dispatch from a font to the trampolines of its funcs table is not modelled. The trampolines are modelled as functions of the closure's answer.
- The boxed closures, the font data box and `destroy_box` are user data the engine frees, and are not modelled. A closure's result is modelled as a value, so a closure that keeps state between calls is not captured.
- Buffer.UnicodeBuffer.AppendRange: takes the `u32` start and end that `crate::start_end_range` makes of a Rust range. `crate::start_end_range` is not part of this model, so how it converts the range bounds is not captured.
- `FontFuncsImpl::empty` calls `Shared::from_raw`, which `src/common.rs` does not define. It is not modelled.
- Font.Font.Empty: requires that no wrapper already holds the empty font. Two `Owned` over the one empty font would break the exclusivity the model gives `Owned`.
- Font.Font.Parent and Font.Font.Face: require the parent or face to be held by no `Owned`, for the same reason.
- Face.Face.New: the engine's check that the blob's bytes are a valid font is not modelled; every blob is taken as a font. On invalid data the engine gives up the reference it took and the face reads the empty blob, so there the blob's count stays as `into_raw` left it (one reference with no holder) instead of growing by one.
- Engine.Engine.FaceCreate: takes a reference to the blob and reads its bytes whatever they are; the engine's font-data validation (sanitizing, then falling back to the empty blob) is not modelled.
- Face.Face.NewBorrowingBlob: for the same reason, on invalid data the blob would end with no extra reference and be destroyed when its wrapper is dropped; the model always keeps the face's reference.
- Face.Face.FaceData: for the same reason, a face over invalid data would hand out the engine's empty blob; the model hands out the face's own blob.
- Face.Face.FaceData and Face.Face.TableWithTag: require the face's blob not to be exclusively held (`BlobShareable`).
- FontFuncs.SetFontFuncs: the font's previous funcs table is not released. The model has no reference from a font to its table.
- Face.Face.TableWithTag: the null check on the engine's answer is not modelled, because the engine always returns a blob. A table the closure does not give becomes an empty blob.
- The blobs a table closure returns are modelled by their bytes. `Face.TableFunc` maps a tag to those bytes rather than to a `Shared<Blob>`.
- The `Debug` and `Display` of `Tag` are not modelled, including the lossy text conversion the table-closure test uses. The example is stated on tags of ASCII letters.
- Font.RescaleDown: the `i32::MIN` case is left to the 32-bit cut, which `Rescale` models but the lemma does not describe.
- `draw_funcs`, `rusttype` and `freetype` support are outside the core and not modelled.
- The memory layouts of `GlyphPosition`, `GlyphInfo` and `FontExtents` (layout tests) are not modelled. They are plain records here.
- `Font::get_glyph_h_kerning` does not exist in `src/font.rs`. The trait's default kerning asks the engine's kerning query directly.
- The temporary `Shared` a default trait method obtains through `parent()` is not modelled as a reference change. The defaults read the parent font directly.
- Shape.ShapedContents: an empty buffer is left as the engine leaves it, without the glyph content type.
- A buffer's room does not grow when items are added. Only `pre_allocate` changes it.
- `Default for Owned<Font>` and `Default for Shared<Font>` are `Font::empty`, modelled by Font.Font.Empty and Common.Owned.ToShared.

## Findings

| source | as written | input that shows it | evidently intended | confidence | as-written member | corrected member |
|---|---|---|---|---|---|---|
| src/font.rs:256-269 | `parent_scale_y_distance` reads the x scales of both fonts, and every default vertical metric goes through it | a font at scale (2000, 1000) under a parent at (1000, 1000): a parent v advance of 10 becomes 20 | rescale by the y scales, giving 10 | not executed | FontFuncs.DefaultGlyphVAdvanceUsesXScale | Font.Font.ParentScaleYDistance |
| src/buffer.rs:399-431 | `read` stops refilling only when `start > end.saturating_sub(1)` | an empty glyph buffer (`end == 0`): 0 > 0 is false, the engine serializes nothing, and `read` calls itself again forever | stop when `start >= end` | not executed | Buffer.RefillAsWrittenLoopsOnEmptyBuffer | Buffer.BufferSerializer.Read |
| src/font_funcs.rs:264-280 | the glyph-name trampoline writes `name[0] = 0` through the slice that `write_all` has advanced | the name "AB" in a 2-byte buffer: the slice is left empty, `name[0] = 0` panics, and the buffer holds "AB" with no NUL | clear the first byte of the engine's buffer | not executed | FontFuncs.NameWriteAsWrittenLeavesNoNul | FontFuncs.GlyphNameTrampoline |
| src/common.rs:136-145 | `from_str` passes `max(len, 4)` as the length to the engine | "ab" followed in memory by "CD": the engine reads four bytes and makes the tag "abCD" | pass at most the string's length, giving "ab  " | not executed | Common.TagFromStrReadsPastShortString | Common.TagFromStr |
| src/buffer.rs:405-426 | a refill that serializes no glyph leaves `start` unchanged and `read` calls itself again | JSON with glyph extents and flags, on a glyph whose name is 100 bytes long: its entry does not fit the 128-byte vector, the engine serializes 0 glyphs, and `read` recurses on the same state forever | report an error | not executed | Buffer.RefillAsWrittenRepeatsWhenNothingFits | Buffer.BufferSerializer.Read |
| src/face.rs:24-28 | `Face::new` hands the engine `Shared::into_raw(blob)`, which forgets the wrapper, while `hb_face_create` takes its own reference | a blob held by one `Shared`: after `Face::new` its count is 2, one reference the face's and one nobody's, so the blob is never freed | hand over the pointer without the reference (`as_raw`) and drop the wrapper | not executed | Face.NewLeaksBlobReference | Face.Face.NewBorrowingBlob |
| src/buffer.rs:307-310 | `reverse_range` checks only `start <= len`, though its message names `end` too | a 2-item buffer with range 0..3: both items are reversed instead of a panic | panic when `end > len` as well | not executed | Buffer.ReverseRangeEndUnchecked | Buffer.ReverseRange |
