/** Text buffers: the engine's effect on a buffer for each call the binding
    makes, the two typed views of a buffer (`UnicodeBuffer` before shaping,
    `GlyphBuffer` after), and the pull-based serializer. */
module Buffer {
  import opened Base
  import opened Utf8
  import opened Engine
  import opened Common

  // ---- ClusterLevel and GlyphFlags ----

  /** `ClusterLevel`. */
  datatype ClusterLevel = MonotoneGraphemes | MonotoneCharacters | Characters
  {
    /** `ClusterLevel::into_raw`. */
    function IntoRaw(): (r: u32)
      ensures r <= CLUSTER_LEVEL_CHARACTERS
    {
      match this
      case MonotoneGraphemes => CLUSTER_LEVEL_MONOTONE_GRAPHEMES
      case MonotoneCharacters => CLUSTER_LEVEL_MONOTONE_CHARACTERS
      case Characters => CLUSTER_LEVEL_CHARACTERS
    }

    /** `ClusterLevel::from_raw`: panics on a code the binding does not
        know; a known code reads as the level whose code it is. */
    static function FromRaw(r: u32): (c: Unwind<ClusterLevel>)
      ensures c.Panicked? <==> r > CLUSTER_LEVEL_CHARACTERS
      ensures c.Returned? ==> c.value.IntoRaw() == r
    {
      if r == CLUSTER_LEVEL_MONOTONE_GRAPHEMES then Returned(MonotoneGraphemes)
      else if r == CLUSTER_LEVEL_MONOTONE_CHARACTERS then Returned(MonotoneCharacters)
      else if r == CLUSTER_LEVEL_CHARACTERS then Returned(Characters)
      else Panicked
    }
  }

  /** `Default for ClusterLevel`: the engine's level for a new buffer. */
  function DefaultClusterLevel(): (c: ClusterLevel)
    ensures c.IntoRaw() == CLUSTER_LEVEL_MONOTONE_GRAPHEMES
    ensures c.IntoRaw() == NEW_BUFFER.clusterLevel
  {
    MonotoneGraphemes
  }

  /** Reading back a level's code gives the level. */
  lemma ClusterLevelRoundTrip(c: ClusterLevel)
    ensures ClusterLevel.FromRaw(c.IntoRaw()) == Returned(c)
  {
  }

  /** `GlyphFlags`: the flag bits the engine sets on a shaped glyph. */
  datatype GlyphFlags = GlyphFlags(bits: u32)
  {
    /** `GlyphFlags::unsafe_to_break`: the unsafe-to-break bit is set, that
        is, OR-ing it in changes nothing. */
    predicate UnsafeToBreak()
    {
      bits % 2 == GLYPH_FLAG_UNSAFE_TO_BREAK
    }
  }

  /** A flag word has the unsafe-to-break bit exactly when OR-ing that bit
      into it leaves it unchanged. */
  lemma UnsafeToBreakIsBit(f: GlyphFlags)
    ensures f.UnsafeToBreak() <==> BitOr(f.bits, GLYPH_FLAG_UNSAFE_TO_BREAK) == f.bits
  {
    var x := f.bits;
    if x != 0 {
      assert BitOr(x, 1) == 2 * BitOr(x / 2, 0) + 1;
      assert BitOr(x / 2, 0) == x / 2;
    }
  }

  // ---- the engine's effect on a buffer ----

  /** Reverses a sequence. */
  function Rev<T>(s: seq<T>): (r: seq<T>)
    ensures |r| == |s|
    ensures forall i :: 0 <= i < |s| ==> r[i] == s[|s| - 1 - i]
  {
    if |s| == 0 then [] else Rev(s[1..]) + [s[0]]
  }

  /** Reversal keeps the elements. */
  lemma {:induction false} RevMultiset<T>(s: seq<T>)
    ensures multiset(Rev(s)) == multiset(s)
  {
    if |s| > 0 {
      RevMultiset(s[1..]);
      assert s == [s[0]] + s[1..];
    }
  }

  /** Reversal undoes itself. */
  lemma RevRev<T>(s: seq<T>)
    ensures Rev(Rev(s)) == s
  {
  }

  /** `hb_buffer_add`: one more character with the given cluster and no
      position; the content type is not touched. */
  function Added(b: BufferState, codepoint: u32, cluster: u32): (r: BufferState)
    ensures |r.items| == |b.items| + 1 && r.items[..|b.items|] == b.items
    ensures r.items[|b.items|].info.codepoint == codepoint && r.items[|b.items|].info.cluster == cluster
    ensures r.(items := b.items) == b
  {
    b.(items := b.items + [Item(GlyphInfo(codepoint, 0, cluster), ZERO_POSITION)])
  }

  /** Adding a character appends its codepoint to the buffer's codepoints. */
  lemma AddedCodepoints(b: BufferState, codepoint: u32, cluster: u32)
    ensures Codepoints(Added(b, codepoint, cluster)) == Codepoints(b) + [codepoint]
  {
    var r := Added(b, codepoint, cluster);
    assert r.items == b.items + [r.items[|b.items|]];
  }

  /** The buffer entries for decoded characters. */
  function ItemsOf(infos: seq<GlyphInfo>): (r: seq<Item>)
    ensures |r| == |infos|
    ensures forall i :: 0 <= i < |r| ==> r[i].info == infos[i] && r[i].position == ZERO_POSITION
  {
    seq(|infos|, i requires 0 <= i < |infos| => Item(infos[i], ZERO_POSITION))
  }

  /** `hb_buffer_add_utf8`: the decoded characters are appended and the
      buffer now holds Unicode text. */
  function AddedUtf8(b: BufferState, infos: seq<GlyphInfo>): (r: BufferState)
    ensures r.items == b.items + ItemsOf(infos)
    ensures r.contentType == CONTENT_TYPE_UNICODE
    ensures r.(items := b.items, contentType := b.contentType) == b
  {
    b.(items := b.items + ItemsOf(infos), contentType := CONTENT_TYPE_UNICODE)
  }

  /** `hb_buffer_append`: the entries `start..end` of `src`, with the range
      clamped to `src`, are appended to `dst`; an empty `dst` takes the
      content type of `src`, and a direction `dst` lacks is taken from
      `src`. An empty range changes nothing. */
  function Appended(dst: BufferState, src: BufferState, start: nat, end: nat): (r: BufferState)
    ensures var e := Min(end, |src.items|); var s := Min(start, e);
      && r.items == dst.items + src.items[s..e]
      && (s == e ==> r == dst)
    ensures |dst.items| > 0 ==> r.contentType == dst.contentType
    ensures r.contentType == dst.contentType || r.contentType == src.contentType
    ensures r.room == dst.room && r.clusterLevel == dst.clusterLevel
  {
    var e := Min(end, |src.items|);
    var s := Min(start, e);
    if s == e then dst
    else dst.(items := dst.items + src.items[s..e],
              contentType := if |dst.items| == 0 then src.contentType else dst.contentType,
              direction := if dst.direction == DIRECTION_INVALID then src.direction else dst.direction)
  }

  /** The range `0..c_uint::MAX` appends every entry of a buffer that fits
      the engine's `u32` lengths. */
  lemma AppendedAll(dst: BufferState, src: BufferState)
    ensures |src.items| <= U32_MAX ==> Appended(dst, src, 0, U32_MAX).items == dst.items + src.items
  {
    assert src.items[0..|src.items|] == src.items;
  }

  /** `hb_buffer_clear_contents`: no entries, no content type, no direction;
      the cluster level and the allocation stay. */
  function Cleared(b: BufferState): (r: BufferState)
    ensures r.items == [] && r.contentType == CONTENT_TYPE_INVALID && r.direction == DIRECTION_INVALID
    ensures r.clusterLevel == b.clusterLevel && r.room == b.room
  {
    b.(items := [], contentType := CONTENT_TYPE_INVALID, direction := DIRECTION_INVALID)
  }

  /** `s` with the part `lo..hi` reversed in place. */
  function ReverseSlice<T>(s: seq<T>, lo: nat, hi: nat): (r: seq<T>)
    requires lo <= hi <= |s|
    ensures |r| == |s|
    ensures forall i :: 0 <= i < lo ==> r[i] == s[i]
    ensures forall i :: hi <= i < |s| ==> r[i] == s[i]
    ensures forall i :: lo <= i < hi ==> r[i] == s[lo + hi - 1 - i]
  {
    seq(|s|, i requires 0 <= i < |s| => if lo <= i < hi then s[lo + hi - 1 - i] else s[i])
  }

  /** The part before the range, the range reversed, the part after it. */
  lemma ReverseSliceConcat<T>(s: seq<T>, lo: nat, hi: nat)
    requires lo <= hi <= |s|
    ensures ReverseSlice(s, lo, hi) == s[..lo] + Rev(s[lo..hi]) + s[hi..]
  {
    var r := ReverseSlice(s, lo, hi);
    var t := s[..lo] + Rev(s[lo..hi]) + s[hi..];
    forall i | 0 <= i < |s| ensures r[i] == t[i] {
      if lo <= i < hi {
        assert t[i] == Rev(s[lo..hi])[i - lo];
      } else if hi <= i {
        assert t[i] == s[hi..][i - hi];
      }
    }
  }

  /** Reversing part of a sequence keeps its elements. */
  lemma ReverseSliceMultiset<T>(s: seq<T>, lo: nat, hi: nat)
    requires lo <= hi <= |s|
    ensures multiset(ReverseSlice(s, lo, hi)) == multiset(s)
  {
    var a, m, c := s[..lo], s[lo..hi], s[hi..];
    SplitThree(s, lo, hi);
    ReverseSliceConcat(s, lo, hi);
    RevMultiset(m);
    MultisetMiddle(a, m, Rev(m), c);
  }

  lemma SplitThree<T>(s: seq<T>, lo: nat, hi: nat)
    requires lo <= hi <= |s|
    ensures s == s[..lo] + s[lo..hi] + s[hi..]
  {
    assert s[..hi] == s[..lo] + s[lo..hi];
  }

  lemma MultisetMiddle<T>(a: seq<T>, m: seq<T>, m2: seq<T>, c: seq<T>)
    requires multiset(m) == multiset(m2)
    ensures multiset(a + m2 + c) == multiset(a + m + c)
  {
    assert multiset(a + m2 + c) == multiset(a) + multiset(m2) + multiset(c);
  }

  /** Reversing the same part twice restores the sequence. */
  lemma ReverseSliceTwice<T>(s: seq<T>, lo: nat, hi: nat)
    requires lo <= hi <= |s|
    ensures ReverseSlice(ReverseSlice(s, lo, hi), lo, hi) == s
  {
    var r := ReverseSlice(ReverseSlice(s, lo, hi), lo, hi);
    forall i | 0 <= i < |s| ensures r[i] == s[i] {
    }
  }

  /** `hb_buffer_reverse_range`: the range is clamped to the buffer, and the
      entries inside it are reversed in place. */
  function ReversedRange(b: BufferState, start: nat, end: nat): (r: BufferState)
    ensures var e := Min(end, |b.items|); var s := Min(start, e);
      r.items == ReverseSlice(b.items, s, e)
    ensures multiset(r.items) == multiset(b.items)
    ensures r.(items := b.items) == b
  {
    var e := Min(end, |b.items|);
    var s := Min(start, e);
    ReverseSliceMultiset(b.items, s, e);
    b.(items := ReverseSlice(b.items, s, e))
  }

  /** Reversing the same range twice restores the buffer. */
  lemma ReversedRangeTwice(b: BufferState, start: nat, end: nat)
    ensures ReversedRange(ReversedRange(b, start, end), start, end) == b
  {
    var e := Min(end, |b.items|);
    var s := Min(start, e);
    ReverseSliceTwice(b.items, s, e);
  }

  /** `hb_buffer_reverse`: the whole buffer reversed. */
  function Reversed(b: BufferState): (r: BufferState)
    ensures r.items == Rev(b.items)
    ensures r.(items := b.items) == b
  {
    var r := ReversedRange(b, 0, |b.items|);
    assert r.items == ReverseSlice(b.items, 0, |b.items|);
    assert r.items == Rev(b.items);
    r
  }

  /** `hb_buffer_pre_allocate`: room for at least `size` entries. */
  function PreAllocated(b: BufferState, size: u32): (r: BufferState)
    ensures r.room >= size && r.room >= b.room
    ensures r.(room := b.room) == b
  {
    b.(room := Max(b.room, size))
  }

  /** `hb_buffer_guess_segment_properties`, for the direction: a buffer
      without one gets the engine's guess for its contents, or left-to-right
      when the engine cannot guess either. */
  function Guessed(b: BufferState, guess: seq<Item> -> u32): (r: BufferState)
    ensures r.direction != DIRECTION_INVALID
    ensures b.direction != DIRECTION_INVALID ==> r == b
    ensures r.(direction := b.direction) == b
  {
    if b.direction != DIRECTION_INVALID then b
    else
      var g := guess(b.items);
      b.(direction := if g == DIRECTION_INVALID then DIRECTION_LTR else g)
  }

  /** The codepoints stored in a buffer, in order (`UnicodeBuffer::codepoints`). */
  function Codepoints(b: BufferState): (r: seq<u32>)
    ensures |r| == |b.items|
    ensures forall i :: 0 <= i < |r| ==> r[i] == b.items[i].info.codepoint
  {
    seq(|b.items|, i requires 0 <= i < |b.items| => b.items[i].info.codepoint)
  }

  /** One codepoint as `string_lossy` shows it. */
  function LossyChar(u: u32): (c: char)
    ensures IsScalarValue(u) ==> c as int == u
    ensures !IsScalarValue(u) ==> c == '�'
  {
    match CharFromU32(u)
    case Some(c) => c
    case None => '�'
  }

  /** `UnicodeBuffer::string_lossy`, as the characters of the string. */
  function StringLossy(cps: seq<u32>): (r: seq<char>)
    ensures |r| == |cps|
    ensures forall i :: 0 <= i < |r| ==> r[i] == LossyChar(cps[i])
  {
    seq(|cps|, i requires 0 <= i < |cps| => LossyChar(cps[i]))
  }

  /** Codepoints that came from characters read back as those characters. */
  lemma StringLossyOfChars(cs: seq<char>)
    ensures StringLossy(seq(|cs|, i requires 0 <= i < |cs| => cs[i] as int)) == cs
  {
    var cps := seq(|cs|, i requires 0 <= i < |cs| => cs[i] as int);
    forall i | 0 <= i < |cs| ensures StringLossy(cps)[i] == cs[i] {
      CharFromU32OfChar(cs[i]);
    }
  }

  /** Every codepoint that is not a scalar value shows as U+FFFD, and only
      U+FFFD itself or such a codepoint does. */
  lemma StringLossyReplacement(cps: seq<u32>, i: nat)
    requires i < |cps|
    ensures StringLossy(cps)[i] == '�' <==> cps[i] == 0xFFFD || !IsScalarValue(cps[i])
  {
  }

  // ---- strings as address ranges ----

  /** A `&str`: where its bytes start in the one address space, and the bytes. */
  datatype Str = Str(ptr: nat, bytes: seq<u8>)

  /** The check of `UnicodeBuffer::add_str_item`: the offset of `item` inside
      `context`, or `None` (a panic) when `item` starts before `context` or
      ends after it. */
  function ItemOffset(context: Str, item: Str): (r: Option<nat>)
    ensures r.Some? <==> context.ptr <= item.ptr && item.ptr - context.ptr + |item.bytes| <= |context.bytes|
    ensures r.Some? ==> context.ptr + r.value == item.ptr
  {
    if item.ptr < context.ptr then None
    else
      var offset := item.ptr - context.ptr;
      if offset + |item.bytes| <= |context.bytes| then Some(offset) else None
  }

  /** An item cut from its context is accepted, and the range handed to the
      engine holds exactly the item's bytes. */
  lemma ItemOffsetOfSlice(context: Str, i: nat, j: nat)
    requires i <= j <= |context.bytes|
    ensures ItemOffset(context, Str(context.ptr + i, context.bytes[i..j])) == Some(i)
    ensures context.bytes[i..i + (j - i)] == context.bytes[i..j]
  {
  }

  /** A non-empty item that does not overlap its context (another
      allocation) is refused. */
  lemma ItemOffsetOfDisjoint(context: Str, item: Str)
    requires |item.bytes| >= 1
    requires item.ptr + |item.bytes| <= context.ptr || context.ptr + |context.bytes| <= item.ptr
    ensures ItemOffset(context, item) == None
  {
  }

  /** The cases of the binding's own tests: a slice of the 20-byte heap
      string "Test String for test" at address `p` is accepted; on the
      11-byte string "Test String" at address `q`, an item running past the
      end of its context is refused, and so is an item starting before its
      context. */
  lemma ItemOffsetExamples(p: nat, heap: seq<u8>, q: nat, text: seq<u8>)
    requires |heap| == 20 && |text| == 11
    ensures ItemOffset(Str(p, heap), Str(p + 5, heap[5..10])) == Some(5)
    ensures ItemOffset(Str(q, text[0..5]), Str(q + 4, text[4..6])) == None
    ensures ItemOffset(Str(q + 4, text[4..]), Str(q, text[0..5])) == None
  {
  }

  /** What the engine decodes for the byte range `start`, `len` of `text`:
      the string's length and the item's length are cast to C `int` and the
      offset to C `unsigned int` on the way, so they wrap modulo 2^32. On a
      text shorter than 2^31 bytes the engine sees the range itself. */
  function DecodedRange(decode: (seq<u8>, i32, u32, i32) -> seq<GlyphInfo>,
                        text: seq<u8>, start: nat, len: nat): (r: seq<GlyphInfo>)
    ensures |text| <= I32_MAX && start + len <= |text| ==> r == decode(text, |text|, start, len)
    ensures |text| == 0x8000_0000 && start == 0 && len == |text| ==> r == decode(text, I32_MIN, 0, I32_MIN)
  {
    decode(text, AsI32(|text|), (start % 0x1_0000_0000) as u32, AsI32(len))
  }

  /** `GenericBuffer::add_str_item`: panics unless the range lies inside
      the string; otherwise the engine decodes that range, as narrowed by the
      casts, and appends it. */
  function AddedStrItem(b: BufferState, decode: (seq<u8>, i32, u32, i32) -> seq<GlyphInfo>,
                        text: seq<u8>, start: nat, len: nat): (r: Unwind<BufferState>)
    ensures r.Panicked? <==> start + len > |text|
    ensures r.Returned? ==> r.value == AddedUtf8(b, DecodedRange(decode, text, start, len))
    ensures r.Returned? && |text| <= I32_MAX ==> r.value == AddedUtf8(b, decode(text, |text|, start, len))
  {
    if start + len <= |text| then Returned(AddedUtf8(b, DecodedRange(decode, text, start, len))) else Panicked
  }

  /** A string of 2^31 bytes handed over whole reaches the engine with both
      lengths wrapped to the most negative C `int`. */
  lemma AddStrOfLongTextWraps(b: BufferState, decode: (seq<u8>, i32, u32, i32) -> seq<GlyphInfo>, text: seq<u8>)
    requires |text| == 0x8000_0000
    ensures AddedStrItem(b, decode, text, 0, |text|) == Returned(AddedUtf8(b, decode(text, I32_MIN, 0, I32_MIN)))
  {
  }

  /** `add_str` hands over the whole string, which never panics. */
  lemma AddStrNeverPanics(b: BufferState, decode: (seq<u8>, i32, u32, i32) -> seq<GlyphInfo>, text: seq<u8>)
    ensures AddedStrItem(b, decode, text, 0, |text|).Returned?
  {
  }

  /** After the check of `UnicodeBuffer::add_str_item`, the check of the
      generic buffer never fails. */
  lemma AddStrItemInnerCheckHolds(b: BufferState, decode: (seq<u8>, i32, u32, i32) -> seq<GlyphInfo>,
                                  context: Str, item: Str)
    requires ItemOffset(context, item).Some?
    ensures AddedStrItem(b, decode, context.bytes, ItemOffset(context, item).value, |item.bytes|).Returned?
  {
  }

  // ---- reverse_range ----

  /** `GenericBuffer::reverse_range` as written: only `start <= len` is
      checked (the test of `end` is the panic message), and `end` is cut to
      32 bits before the engine clamps it. */
  function ReverseRangeAsWritten(b: BufferState, start: nat, end: nat): (r: Unwind<BufferState>)
    ensures r.Panicked? <==> start > |b.items|
    ensures r.Returned? ==> r.value == ReversedRange(b, start, end % 0x1_0000_0000)
  {
    if start <= |b.items| then Returned(ReversedRange(b, start, end % 0x1_0000_0000)) else Panicked
  }

  /** `GenericBuffer::reverse_range` with the check its panic message
      describes: both ends must lie inside the buffer. */
  function ReverseRange(b: BufferState, start: nat, end: nat): (r: Unwind<BufferState>)
    ensures r.Panicked? <==> start > |b.items| || end > |b.items|
    ensures r.Returned? && start <= end ==>
      r.value.items == b.items[..start] + Rev(b.items[start..end]) + b.items[end..]
    ensures r.Returned? && end < start ==> r.value == b
  {
    if start <= |b.items| && end <= |b.items| then
      ReversedRangeInside(b, start, end);
      Returned(ReversedRange(b, start, end))
    else Panicked
  }

  lemma ReversedRangeInside(b: BufferState, start: nat, end: nat)
    requires start <= |b.items| && end <= |b.items|
    ensures start <= end ==>
      ReversedRange(b, start, end).items == b.items[..start] + Rev(b.items[start..end]) + b.items[end..]
    ensures end < start ==> ReversedRange(b, start, end) == b
  {
    var r := ReversedRange(b, start, end);
    if start <= end {
      assert r.items == ReverseSlice(b.items, start, end);
      ReverseSliceConcat(b.items, start, end);
    } else {
      assert r.items == ReverseSlice(b.items, start, start);
      assert r.items == b.items;
    }
  }

  /** An `end` past the buffer is let through by the code as written: on a
      two-entry buffer the range 0..3 reverses the whole buffer instead of
      panicking. */
  lemma ReverseRangeEndUnchecked(b: BufferState)
    requires |b.items| == 2
    ensures ReverseRangeAsWritten(b, 0, 3).Returned?
    ensures ReverseRangeAsWritten(b, 0, 3).value.items == [b.items[1], b.items[0]]
    ensures ReverseRange(b, 0, 3).Panicked?
  {
  }

  /** Where the corrected check lets a call through, it behaves as the code
      as written does (the engine's lengths are `u32`). */
  lemma ReverseRangeAgrees(b: BufferState, start: nat, end: nat)
    requires start <= |b.items| && end <= |b.items| <= U32_MAX
    ensures ReverseRangeAsWritten(b, start, end) == ReverseRange(b, start, end)
  {
    assert end % 0x1_0000_0000 == end;
  }

  // ---- pre_allocate ----

  /** `GenericBuffer::pre_allocate`: the size is clamped to `c_uint::MAX`. */
  function PreAllocate(b: BufferState, size: nat): (r: BufferState)
    ensures r.room >= Min(size, U32_MAX) && r.items == b.items
  {
    PreAllocated(b, Min(size, U32_MAX))
  }

  // ---- the typed buffers ----

  /** A buffer a `UnicodeBuffer` may wrap: Unicode text, or a buffer whose
      contents were cleared. */
  predicate UnicodeContent(b: BufferState)
  {
    b.contentType == CONTENT_TYPE_UNICODE || b.contentType == CONTENT_TYPE_INVALID
  }

  /** A buffer a `GlyphBuffer` may wrap: shaped glyphs, or nothing (the
      engine leaves an empty buffer as it is when shaping it). */
  predicate GlyphContent(b: BufferState)
  {
    b.contentType == CONTENT_TYPE_GLYPHS || |b.items| == 0
  }

  /** Between two states of engine `e`, only buffer `h` changed, to `s`. */
  twostate predicate BufferUpdated(e: Engine, h: Handle, s: BufferState)
    reads e
  {
    e.counts == old(e.counts) && e.objects == old(e.objects).(buffers := old(e.objects.buffers)[h := s])
  }

  /** Setting a buffer twice leaves the second state. */
  lemma BufferSetTwice(o: Objects, h: Handle, a: BufferState, b: BufferState, n: Handle)
    ensures var p := o.(buffers := o.buffers[h := a], next := n); p.(buffers := p.buffers[h := b]) == o.(buffers := o.buffers[h := b], next := n)
  {
    var p := o.(buffers := o.buffers[h := a], next := n);
    assert p.buffers[h := b] == o.buffers[h := b];
  }

  /** `GenericBuffer::new`: a new engine buffer (`hb_buffer_create`) in an
      owning wrapper. */
  method GenericNew(e: Engine) returns (o: Owned)
    requires e.Valid()
    modifies e
    ensures fresh(o) && o.engine == e && o.Live() && e.Valid()
    ensures o.handle == old(e.objects.next) && o.handle !in old(e.counts.refcount)
    ensures e.counts == old(e.counts).Created(o.handle).AdoptedExclusively(o.handle, o)
    ensures e.objects == old(e.objects).(buffers := old(e.objects.buffers)[o.handle := NEW_BUFFER], next := old(e.objects.next) + 1)
  {
    var h := e.BufferCreate();
    o := new Owned.FromRaw(e, h);
  }

  /** Between two states of the engine, owning wrapper `o` was dropped: its
      reference was released and given back, and no object changed. */
  twostate predicate Dropped(o: Owned)
    reads o.engine
  {
    && old(o.handle in o.engine.counts.refcount && o.handle in o.engine.counts.loose && o.handle in o.engine.counts.holders)
    && !o.Live() && o.engine.Valid() && o.engine.objects == old(o.engine.objects)
    && o.engine.counts == old(o.engine.counts).Released(o.handle, o).Destroyed(o.handle)
  }

  /** Two live owning wrappers that are different objects hold different
      buffers. */
  lemma OwnedDistinct(a: Owned, b: Owned)
    requires a.engine == b.engine && a.Live() && b.Live() && a != b
    ensures a.handle != b.handle
  {
    assert b in a.engine.counts.holders[b.handle];
    assert b !in a.engine.counts.holders[a.handle];
  }

  /** `UnicodeBuffer`: a buffer being filled with text, owned by the binding. */
  datatype UnicodeBuffer = UnicodeBuffer(owned: Owned)
  {
    ghost predicate Valid()
      reads owned.engine
    {
      && owned.engine.Valid() && owned.Live() && owned.handle in owned.engine.objects.buffers
      && UnicodeContent(owned.engine.objects.buffers[owned.handle])
    }

    /** The engine's state of the wrapped buffer. */
    function Contents(): BufferState
      reads owned.engine
      requires owned.handle in owned.engine.objects.buffers
    {
      owned.engine.objects.buffers[owned.handle]
    }

    /** `UnicodeBuffer::from_generic`: the buffer is marked as Unicode text. */
    static method FromGeneric(o: Owned) returns (u: UnicodeBuffer)
      requires o.engine.Valid() && o.Live() && o.handle in o.engine.objects.buffers
      modifies o.engine
      ensures u.owned == o && u.Valid() && u.Contents().contentType == CONTENT_TYPE_UNICODE
      ensures BufferUpdated(o.engine, o.handle, old(o.engine.objects.buffers[o.handle]).(contentType := CONTENT_TYPE_UNICODE))
    {
      var x := o.engine.objects.buffers[o.handle].(contentType := CONTENT_TYPE_UNICODE);
      o.engine.SetBuffer(o.handle, x);
      u := UnicodeBuffer(o);
    }

    /** `UnicodeBuffer::new`: a fresh engine buffer, owned by the new
        wrapper, empty and marked as Unicode text; no other object changes. */
    static method New(e: Engine) returns (u: UnicodeBuffer)
      requires e.Valid()
      modifies e
      ensures u.Valid() && fresh(u.owned) && u.owned.engine == e
      ensures u.owned.handle == old(e.objects.next) && u.owned.handle !in old(e.counts.refcount)
      ensures u.Contents() == NEW_BUFFER.(contentType := CONTENT_TYPE_UNICODE)
      ensures e.counts == old(e.counts).Created(u.owned.handle).AdoptedExclusively(u.owned.handle, u.owned)
      ensures e.objects == old(e.objects).(buffers := old(e.objects.buffers)[u.owned.handle := u.Contents()], next := old(e.objects.next) + 1)
    {
      ghost var before := e.objects;
      var o := GenericNew(e);
      u := FromGeneric(o);
      BufferSetTwice(before, o.handle, NEW_BUFFER, u.Contents(), before.next + 1);
    }

    /** `UnicodeBuffer::into_raw`: the reference goes to the caller. */
    method IntoRaw() returns (raw: Handle)
      requires Valid()
      modifies owned.engine
      ensures raw == owned.handle && !owned.Live()
      ensures owned.engine.counts == old(owned.engine.counts).Released(raw, owned)
      ensures owned.engine.objects == old(owned.engine.objects) && owned.engine.Valid()
    {
      raw := owned.IntoRaw();
    }

    /** `UnicodeBuffer::len`: the number of entries, one per code point
        and one per character of `string_lossy`. */
    function Len(): (n: nat)
      reads owned.engine
      requires owned.handle in owned.engine.objects.buffers
      ensures n == |Codepoints(Contents())| && n == |StringLossyOf()|
    {
      |Contents().items|
    }

    /** `UnicodeBuffer::add`: one character appended. */
    method Add(codepoint: u32, cluster: u32)
      requires Valid()
      modifies owned.engine
      ensures Valid() && BufferUpdated(owned.engine, owned.handle, Added(old(Contents()), codepoint, cluster))
    {
      var b := Added(Contents(), codepoint, cluster);
      owned.engine.SetBuffer(owned.handle, b);
    }

    /** `UnicodeBuffer::add_str`: the whole string is decoded and appended. */
    method AddStr(text: seq<u8>)
      requires Valid()
      modifies owned.engine
      ensures Valid()
      ensures BufferUpdated(owned.engine, owned.handle, AddedUtf8(old(Contents()), DecodedRange(owned.engine.decodeUtf8, text, 0, |text|)))
    {
      AddStrNeverPanics(Contents(), owned.engine.decodeUtf8, text);
      var r := AddedStrItem(Contents(), owned.engine.decodeUtf8, text, 0, |text|);
      owned.engine.SetBuffer(owned.handle, r.value);
    }

    /** `GenericBuffer::add_str_item`: the engine is handed the text with
        its length, `offset` and `len`, each cut to 32 bits, and decodes that
        range, seeing the text around it (for texts under 2^31 bytes these are
        the range itself). The caller has checked the range. */
    method AddStrRange(text: seq<u8>, offset: nat, len: nat)
      requires Valid() && offset + len <= |text|
      modifies owned.engine
      ensures Valid()
      ensures BufferUpdated(owned.engine, owned.handle, AddedUtf8(old(Contents()), DecodedRange(owned.engine.decodeUtf8, text, offset, len)))
    {
      var b := AddedStrItem(Contents(), owned.engine.decodeUtf8, text, offset, len);
      owned.engine.SetBuffer(owned.handle, b.value);
    }

    /** `Drop for UnicodeBuffer`: the buffer's reference is released. */
    method Drop()
      requires Valid()
      modifies owned.engine
      ensures Dropped(owned)
    {
      owned.Drop();
    }

    /** `UnicodeBuffer::add_str_item`: `item` must lie inside `context`;
        then its range of the context is decoded, the engine seeing the
        context around it. When the check fails the call panics and the
        buffer, taken by value, is dropped. */
    method AddStrItem(context: Str, item: Str) returns (r: Unwind<UnicodeBuffer>)
      requires Valid()
      modifies owned.engine
      ensures r.Panicked? <==> ItemOffset(context, item).None?
      ensures r.Returned? ==> r.value == this && Valid()
      ensures r.Returned? ==> BufferUpdated(owned.engine, owned.handle,
        AddedUtf8(old(Contents()), DecodedRange(owned.engine.decodeUtf8, context.bytes, ItemOffset(context, item).value, |item.bytes|)))
      ensures r.Panicked? ==> Dropped(owned)
    {
      var offset := ItemOffset(context, item);
      if offset.None? {
        Drop();
        return Panicked;
      }
      AddStrRange(context.bytes, offset.value, |item.bytes|);
      r := Returned(this);
    }

    /** `UnicodeBuffer::append_range` (and `append`, for the range
        `0..c_uint::MAX`): entries of `other` appended; `other` is unchanged. */
    method AppendRange(other: UnicodeBuffer, start: u32, end: u32)
      requires Valid() && other.Valid() && other.owned.engine == owned.engine && other.owned != owned
      modifies owned.engine
      ensures Valid() && other.Valid() && other.Contents() == old(other.Contents())
      ensures BufferUpdated(owned.engine, owned.handle, Appended(old(Contents()), old(other.Contents()), start, end))
    {
      OwnedDistinct(owned, other.owned);
      var b := Appended(Contents(), other.Contents(), start, end);
      owned.engine.SetBuffer(owned.handle, b);
    }

    /** `UnicodeBuffer::append`: all of `other` appended. */
    method Append(other: UnicodeBuffer)
      requires Valid() && other.Valid() && other.owned.engine == owned.engine && other.owned != owned
      modifies owned.engine
      ensures Valid() && other.Valid() && other.Contents() == old(other.Contents())
      ensures |old(other.Contents().items)| <= U32_MAX ==> Contents().items == old(Contents().items) + old(other.Contents().items)
      ensures owned.engine.counts == old(owned.engine.counts)
    {
      AppendedAll(Contents(), other.Contents());
      AppendRange(other, 0, U32_MAX);
    }

    /** `UnicodeBuffer::string_lossy`. */
    function StringLossyOf(): seq<char>
      reads owned.engine
      requires owned.handle in owned.engine.objects.buffers
    {
      StringLossy(Codepoints(Contents()))
    }

    /** `UnicodeBuffer::set_direction`: the direction reads back as set. */
    method SetDirection(d: Direction)
      requires Valid()
      modifies owned.engine
      ensures Valid() && BufferUpdated(owned.engine, owned.handle, old(Contents()).(direction := d.ToRaw()))
      ensures GetDirection() == d
    {
      owned.engine.SetBuffer(owned.handle, Contents().(direction := d.ToRaw()));
      DirectionRoundTrip(d);
    }

    /** `UnicodeBuffer::get_direction`: `Invalid` unless the engine's code
        is one of the four directions, which it then names. */
    function GetDirection(): (d: Direction)
      reads owned.engine
      requires owned.handle in owned.engine.objects.buffers
      ensures d == Invalid <==> !(DIRECTION_LTR <= Contents().direction <= DIRECTION_BTT)
      ensures d != Invalid ==> d.ToRaw() == Contents().direction
    {
      Direction.FromRaw(Contents().direction)
    }

    /** `UnicodeBuffer::set_cluster_level`: the level reads back as set. */
    method SetClusterLevel(c: ClusterLevel)
      requires Valid()
      modifies owned.engine
      ensures Valid() && BufferUpdated(owned.engine, owned.handle, old(Contents()).(clusterLevel := c.IntoRaw()))
      ensures GetClusterLevel() == Returned(c)
    {
      owned.engine.SetBuffer(owned.handle, Contents().(clusterLevel := c.IntoRaw()));
      ClusterLevelRoundTrip(c);
    }

    /** `UnicodeBuffer::get_cluster_level`: panics on a level the binding
        does not know. */
    function GetClusterLevel(): (r: Unwind<ClusterLevel>)
      reads owned.engine
      requires owned.handle in owned.engine.objects.buffers
      ensures r.Panicked? <==> Contents().clusterLevel > CLUSTER_LEVEL_CHARACTERS
      ensures r.Returned? ==> r.value.IntoRaw() == Contents().clusterLevel
    {
      ClusterLevel.FromRaw(Contents().clusterLevel)
    }

    /** `UnicodeBuffer::pre_allocate`. */
    method PreAllocateRoom(size: nat)
      requires Valid()
      modifies owned.engine
      ensures Valid() && BufferUpdated(owned.engine, owned.handle, PreAllocate(old(Contents()), size))
      ensures Contents().items == old(Contents().items)
    {
      owned.engine.SetBuffer(owned.handle, PreAllocate(Contents(), size));
    }

    /** `UnicodeBuffer::clear_contents`: the buffer is empty afterwards. */
    method ClearContents()
      requires Valid()
      modifies owned.engine
      ensures Valid() && BufferUpdated(owned.engine, owned.handle, Cleared(old(Contents())))
      ensures Len() == 0
    {
      owned.engine.SetBuffer(owned.handle, Cleared(Contents()));
    }

    /** `UnicodeBuffer::guess_segment_properties`, for the direction. */
    method GuessSegmentProperties()
      requires Valid()
      modifies owned.engine
      ensures Valid() && BufferUpdated(owned.engine, owned.handle, Guessed(old(Contents()), owned.engine.guessDirection))
      ensures Contents().direction != DIRECTION_INVALID
    {
      var b := Guessed(Contents(), owned.engine.guessDirection);
      owned.engine.SetBuffer(owned.handle, b);
    }
  }

  /** `GlyphBuffer`: a shaped buffer, owned by the binding. */
  datatype GlyphBuffer = GlyphBuffer(owned: Owned)
  {
    ghost predicate Valid()
      reads owned.engine
    {
      && owned.engine.Valid() && owned.Live() && owned.handle in owned.engine.objects.buffers
      && GlyphContent(owned.engine.objects.buffers[owned.handle])
    }

    function Contents(): BufferState
      reads owned.engine
      requires owned.handle in owned.engine.objects.buffers
    {
      owned.engine.objects.buffers[owned.handle]
    }

    /** `GlyphBuffer::get_glyph_infos`. */
    function GlyphInfos(): (r: seq<GlyphInfo>)
      reads owned.engine
      requires owned.handle in owned.engine.objects.buffers
      ensures |r| == |Contents().items|
    {
      var items := Contents().items;
      seq(|items|, i requires 0 <= i < |items| => items[i].info)
    }

    /** `GlyphBuffer::get_glyph_positions`: one position per glyph. */
    function GlyphPositions(): (r: seq<GlyphPosition>)
      reads owned.engine
      requires owned.handle in owned.engine.objects.buffers
      ensures |r| == |GlyphInfos()|
    {
      var items := Contents().items;
      seq(|items|, i requires 0 <= i < |items| => items[i].position)
    }

    /** `GlyphBuffer::into_raw`. */
    method IntoRaw() returns (raw: Handle)
      requires Valid()
      modifies owned.engine
      ensures raw == owned.handle && !owned.Live()
      ensures owned.engine.counts == old(owned.engine.counts).Released(raw, owned)
      ensures owned.engine.objects == old(owned.engine.objects) && owned.engine.Valid()
    {
      raw := owned.IntoRaw();
    }

    /** `GlyphBuffer::reverse`. */
    method Reverse()
      requires Valid()
      modifies owned.engine
      ensures Valid() && BufferUpdated(owned.engine, owned.handle, Reversed(old(Contents())))
    {
      owned.engine.SetBuffer(owned.handle, Reversed(Contents()));
    }

    /** `GlyphBuffer::reverse_range` as written: only the start is checked
        against the length, and the engine clamps the end. */
    method ReverseRangeOf(start: nat, end: nat) returns (r: Unwind<()>)
      requires Valid()
      modifies owned.engine
      ensures r.Panicked? <==> ReverseRangeAsWritten(old(Contents()), start, end).Panicked?
      ensures r.Panicked? ==> Valid() && BufferUpdated(owned.engine, owned.handle, old(Contents()))
      ensures r.Returned? ==> Valid() && BufferUpdated(owned.engine, owned.handle, ReverseRangeAsWritten(old(Contents()), start, end).value)
    {
      var b := ReverseRangeAsWritten(Contents(), start, end);
      if b.Panicked? {
        owned.engine.SetBuffer(owned.handle, Contents());
        return Panicked;
      }
      owned.engine.SetBuffer(owned.handle, b.value);
      r := Returned(());
    }

    /** `GlyphBuffer::clear`: the contents are cleared and the same buffer
        comes back as an empty `UnicodeBuffer`. */
    method Clear() returns (u: UnicodeBuffer)
      requires Valid()
      modifies owned.engine
      ensures u.owned == owned && u.Valid()
      ensures BufferUpdated(owned.engine, owned.handle, Cleared(old(Contents())).(contentType := CONTENT_TYPE_UNICODE))
      ensures u.Len() == 0 && u.Contents().contentType == CONTENT_TYPE_UNICODE
    {
      owned.engine.SetBuffer(owned.handle, Cleared(Contents()).(contentType := CONTENT_TYPE_UNICODE));
      u := UnicodeBuffer(owned);
    }
  }

  /** `TypedBuffer`. */
  datatype TypedBuffer = Unicode(unicode: UnicodeBuffer) | Glyphs(glyphs: GlyphBuffer)

  /** `TypedBuffer::take_from_raw`: an owning wrapper takes the caller's
      reference; the content type decides the view, and a buffer of neither
      type is dropped again. */
  method TakeFromRaw(e: Engine, raw: Handle) returns (r: Option<TypedBuffer>)
    requires e.Valid() && raw in e.objects.buffers && e.counts.loose[raw] >= 1 && e.counts.holders[raw] == {}
    modifies e
    ensures var t := old(e.objects.buffers[raw].contentType);
      && (t == CONTENT_TYPE_UNICODE <==> r.Some? && r.value.Unicode?)
      && (t == CONTENT_TYPE_GLYPHS <==> r.Some? && r.value.Glyphs?)
    ensures r.Some? && r.value.Unicode? ==> r.value.unicode.owned.handle == raw && r.value.unicode.Valid()
    ensures r.Some? && r.value.Glyphs? ==> r.value.glyphs.owned.handle == raw && r.value.glyphs.Valid()
    ensures raw in e.counts.refcount
    ensures r.Some? ==> e.counts.refcount[raw] == old(e.counts.refcount[raw])
    ensures r.None? ==> e.counts.refcount[raw] == old(e.counts.refcount[raw]) - 1
    ensures e.objects == old(e.objects) && e.Valid()
  {
    var o := new Owned.FromRaw(e, raw);
    var t := e.objects.buffers[raw].contentType;
    if t == CONTENT_TYPE_UNICODE {
      r := Some(Unicode(UnicodeBuffer(o)));
    } else if t == CONTENT_TYPE_GLYPHS {
      r := Some(Glyphs(GlyphBuffer(o)));
    } else {
      o.Drop();
      r := None;
    }
  }

  // ---- BufferSerializer ----

  /** `SerializeFormat`, with the engine's codes (tags "TEXT" and "JSON"). */
  datatype SerializeFormat = Text | Json
  {
    function IntoRaw(): (r: u32)
      ensures r == (if this == Text then TagNew('T', 'E', 'X', 'T') else TagNew('J', 'S', 'O', 'N')).raw
    {
      match this
      case Text => TagNew('T', 'E', 'X', 'T').raw
      case Json => TagNew('J', 'S', 'O', 'N').raw
    }
  }

  /** The room a serializer's byte vector is created with. */
  const SERIALIZER_CAPACITY: nat := 128

  /** What `hb_buffer_serialize_glyphs` guarantees: an empty range yields
      nothing, a range inside the buffer yields at most all of its glyphs,
      and no more bytes than there is room for. A glyph whose text does not
      fit the room is not written, so a refill may serialize no glyph at
      all. */
  ghost predicate SerializeContract(f: (BufferState, SerializeRequest) -> (nat, seq<u8>))
  {
    forall st: BufferState, q: SerializeRequest {:trigger f(st, q)} ::
      && (q.start >= q.end ==> f(st, q) == (0, []))
      && (q.start < q.end <= |st.items| ==> f(st, q).0 <= q.end - q.start)
      && |f(st, q).1| <= q.capacity
  }

  /** One refill of `BufferSerializer::read` once its cursor is exhausted:
      `None` when nothing is left to serialize, otherwise the new `start` and
      the bytes the engine wrote. */
  function Refill(f: (BufferState, SerializeRequest) -> (nat, seq<u8>), st: BufferState,
                  start: nat, end: nat, font: Handle, format: u32, flags: u32): (r: Option<(nat, seq<u8>)>)
    requires SerializeContract(f) && end <= |st.items|
    ensures r.None? <==> start >= end
    ensures r.Some? ==> start <= r.value.0 <= end && |r.value.1| <= SERIALIZER_CAPACITY
  {
    if start >= end then None
    else
      var (n, written) := f(st, SerializeRequest(start, end, SERIALIZER_CAPACITY, font, format, flags));
      Some((start + n, written))
  }

  /** The refill as written: it stops only when `start > end.saturating_sub(1)`. */
  function RefillAsWritten(f: (BufferState, SerializeRequest) -> (nat, seq<u8>), st: BufferState,
                           start: nat, end: nat, font: Handle, format: u32, flags: u32): (r: Option<(nat, seq<u8>)>)
    requires SerializeContract(f) && end <= |st.items|
    ensures end >= 1 ==> r == Refill(f, st, start, end, font, format, flags)
  {
    if start > SaturatingSub(end, 1) then None
    else
      var (n, written) := f(st, SerializeRequest(start, end, SERIALIZER_CAPACITY, font, format, flags));
      Some((start + n, written))
  }

  /** On an empty buffer the refill as written serializes nothing and comes
      back to the state it started from, with the cursor still exhausted, so
      `read` calls itself forever; the corrected refill stops at once. */
  lemma RefillAsWrittenLoopsOnEmptyBuffer(f: (BufferState, SerializeRequest) -> (nat, seq<u8>), st: BufferState,
                                          font: Handle, format: u32, flags: u32)
    requires SerializeContract(f)
    ensures RefillAsWritten(f, st, 0, 0, font, format, flags) == Some((0, []))
    ensures Refill(f, st, 0, 0, font, format, flags) == None
  {
    assert f(st, SerializeRequest(0, 0, SERIALIZER_CAPACITY, font, format, flags)) == (0, []);
  }

  /** An engine for which the next glyph never fits the room: every refill
      serializes no glyph and writes no byte. It meets the serializer's
      contract. */
  function NothingFits(st: BufferState, q: SerializeRequest): (r: (nat, seq<u8>))
    ensures r.0 == 0 && r.1 == []
  {
    (0, [])
  }

  /** A refill that fits no glyph leaves `start` where it was and the cursor
      empty, so `read` as written calls itself again on the same state and
      never returns; `NothingFits` shows such an engine is allowed. The
      refills from there stall, which the corrected `Read` reports. */
  lemma RefillAsWrittenRepeatsWhenNothingFits(f: (BufferState, SerializeRequest) -> (nat, seq<u8>), st: BufferState,
                                              start: nat, end: nat, font: Handle, format: u32, flags: u32)
    requires SerializeContract(f) && start < end <= |st.items|
    requires f(st, SerializeRequest(start, end, SERIALIZER_CAPACITY, font, format, flags)) == (0, [])
    ensures SerializeContract(NothingFits)
    ensures RefillAsWritten(f, st, start, end, font, format, flags) == Some((start, []))
    ensures Stalls(f, st, start, end, font, format, flags)
  {
  }

  /** All the bytes the refills from `start` still produce, in order, up to
      the end or to the first refill that serializes no glyph. */
  function Chunks(f: (BufferState, SerializeRequest) -> (nat, seq<u8>), st: BufferState,
                  start: nat, end: nat, font: Handle, format: u32, flags: u32): seq<u8>
    requires SerializeContract(f) && end <= |st.items|
    decreases end - start
  {
    match Refill(f, st, start, end, font, format, flags)
    case None => []
    case Some((next, written)) =>
      if next == start then [] else written + Chunks(f, st, next, end, font, format, flags)
  }

  /** The refills from `start` reach one that serializes no glyph before
      the end. */
  predicate Stalls(f: (BufferState, SerializeRequest) -> (nat, seq<u8>), st: BufferState,
                   start: nat, end: nat, font: Handle, format: u32, flags: u32)
    requires SerializeContract(f) && end <= |st.items|
    decreases end - start
  {
    match Refill(f, st, start, end, font, format, flags)
    case None => false
    case Some((next, _)) => next == start || Stalls(f, st, next, end, font, format, flags)
  }

  /** The error the corrected `read` reports instead of calling itself
      forever. */
  datatype ReadError = NoGlyphFits

  /** `BufferSerializer`: reads a glyph buffer's serialization piece by
      piece, asking the engine for more whenever its cursor runs dry. */
  class BufferSerializer {
    const engine: Engine
    const buffer: Handle
    const font: Handle
    const format: u32
    const flags: u32
    const end: nat
    /** The first glyph not yet serialized. */
    var start: nat
    /** The cursor: the bytes of the last refill and the read position. */
    var bytes: seq<u8>
    var pos: nat

    ghost predicate Valid()
      reads this, engine
    {
      && buffer in engine.objects.buffers && start <= end <= |engine.objects.buffers[buffer].items|
      && pos <= |bytes| && SerializeContract(engine.serialize)
    }

    /** Everything the serializer will still deliver. */
    ghost function Pending(): seq<u8>
      reads this, engine
      requires Valid()
    {
      bytes[pos..] + Chunks(engine.serialize, engine.objects.buffers[buffer], start, end, font, format, flags)
    }

    /** `GlyphBuffer::serializer`: the whole buffer, nothing read yet. */
    constructor (g: GlyphBuffer, font: Option<Handle>, format: SerializeFormat, flags: u32)
      requires g.owned.handle in g.owned.engine.objects.buffers && SerializeContract(g.owned.engine.serialize)
      ensures Valid() && engine == g.owned.engine && buffer == g.owned.handle
      ensures start == 0 && end == |g.Contents().items| && bytes == [] && pos == 0
      ensures this.font == (match font case None => NULL case Some(h) => h)
      ensures this.format == format.IntoRaw() && this.flags == flags
    {
      var e, h := g.owned.engine, g.owned.handle;
      var n := |g.Contents().items|;
      var f := match font case None => NULL case Some(h) => h;
      engine, buffer, this.font := e, h, f;
      this.format, this.flags := format.IntoRaw(), flags;
      start, end, bytes, pos := 0, n, [], 0;
    }

    /** The refills still to come stall before the end. */
    ghost predicate Stalled()
      reads this, engine
      requires Valid()
    {
      Stalls(engine.serialize, engine.objects.buffers[buffer], start, end, font, format, flags)
    }

    /** `BufferSerializer::read` into room for `len` bytes, with a refill
        that serializes no glyph reported as an error. A read with room
        copies the next bytes, refilling first when the cursor is exhausted,
        and returns nothing only when nothing is left. A read with no room
        finds the cursor "empty" every time, so it refills until every glyph
        is serialized, and the bytes of all refills but the last are lost. */
    method Read(len: nat) returns (out: Result<seq<u8>, ReadError>)
      requires Valid()
      modifies this
      ensures Valid() && start >= old(start)
      ensures out.Err? <==> (len > 0 ==> old(Pending()) == []) && old(Stalled())
      ensures out.Ok? ==> |out.value| <= len && Stalled() == old(Stalled())
      ensures len > 0 && out.Ok? ==> old(Pending()) == out.value + Pending()
      ensures len > 0 ==> (out == Ok([]) <==> old(Pending()) == [] && !old(Stalled()))
      ensures len == 0 && out.Ok? ==> out.value == [] && start == end
    {
      while len == 0 || pos == |bytes|
        invariant Valid() && start >= old(start) && Stalled() == old(Stalled())
        invariant len > 0 ==> Pending() == old(Pending())
        decreases end - start
      {
        var step := Refill(engine.serialize, engine.objects.buffers[buffer], start, end, font, format, flags);
        if step.None? {
          return Ok([]);
        }
        if step.value.0 == start {
          return Err(NoGlyphFits);
        }
        start, bytes, pos := step.value.0, step.value.1, 0;
      }
      var chunk := bytes[pos..pos + Min(len, |bytes| - pos)];
      pos := pos + |chunk|;
      out := Ok(chunk);
    }
  }
}
