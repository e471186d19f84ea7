/** The shaping entry point (`src/lib.rs`): a `UnicodeBuffer` goes in and
    comes back as a `GlyphBuffer` over the same engine buffer. */
module Shape {
  import opened Base
  import opened Engine
  import opened Buffer
  import opened Font

  /** What shaping makes of a buffer's state: the segment properties are
      guessed first, then the engine shapes it with every feature given. */
  function ShapedContents(b: BufferState, guess: seq<Item> -> u32,
                          shaper: (Handle, seq<Item>, u32, seq<Feature>) -> seq<Item>,
                          font: Handle, features: seq<Feature>): (r: BufferState)
    ensures GlyphContent(r)
    ensures r.direction != DIRECTION_INVALID
    ensures r.clusterLevel == b.clusterLevel && r.room == b.room
    ensures |b.items| == 0 ==> r.items == []
    ensures |b.items| > 0 ==> r.contentType == CONTENT_TYPE_GLYPHS
    ensures |b.items| > 0 ==> r.items == shaper(font, b.items, r.direction, features)
    ensures b.direction != DIRECTION_INVALID ==> r.direction == b.direction
  {
    Shaped(Guessed(b, guess), shaper, font, features)
  }

  /** The features the engine sees: the slice's length goes to it as
      `features.len() as u32`, cut to 32 bits, so every feature of a slice
      that fits the engine's count reaches it. */
  function FeaturesPassed(features: seq<Feature>): (r: seq<Feature>)
    ensures r <= features
    ensures |features| <= U32_MAX ==> r == features
  {
    features[..FeatureCount(features)]
  }

  /** `features.len() as u32`. */
  function FeatureCount(features: seq<Feature>): (n: nat)
    ensures n <= |features| && n <= U32_MAX
    ensures |features| <= U32_MAX ==> n == |features|
  {
    |features| % 0x1_0000_0000
  }

  /** `shape`: the buffer's segment properties are guessed first, then the
      engine shapes it with `font` and the features passed, and the same
      buffer is handed back as a `GlyphBuffer`. Nothing is allocated and no
      count changes. */
  method Shape(font: Font, buffer: UnicodeBuffer, features: seq<Feature>) returns (g: GlyphBuffer)
    requires buffer.Valid() && font.Valid() && font.engine == buffer.owned.engine
    modifies buffer.owned.engine
    ensures g.owned == buffer.owned && g.Valid()
    ensures BufferUpdated(buffer.owned.engine, buffer.owned.handle,
                          ShapedContents(old(buffer.Contents()), buffer.owned.engine.guessDirection,
                                         buffer.owned.engine.shaper, font.raw, FeaturesPassed(features)))
  {
    var e, h := buffer.owned.engine, buffer.owned.handle;
    ghost var start := e.objects;
    buffer.GuessSegmentProperties();
    ghost var guessed := e.objects.buffers[h];
    e.Shape(font.raw, h, features, FeatureCount(features));
    BufferSetTwice(start, h, guessed, e.objects.buffers[h], start.next);
    g := GlyphBuffer(buffer.owned);
  }

  /** A buffer shaped and then cleared is an empty `UnicodeBuffer` over the
      same engine buffer, with the room it had and every count as it was. */
  method ShapeThenClear(font: Font, buffer: UnicodeBuffer, features: seq<Feature>) returns (u: UnicodeBuffer)
    requires buffer.Valid() && font.Valid() && font.engine == buffer.owned.engine
    modifies buffer.owned.engine
    ensures u.owned == buffer.owned && u.Valid() && u.Len() == 0
    ensures u.Contents().room == old(buffer.Contents()).room
    ensures u.Contents().clusterLevel == old(buffer.Contents()).clusterLevel
    ensures buffer.owned.engine.counts == old(buffer.owned.engine.counts)
  {
    var g := Shape(font, buffer, features);
    u := g.Clear();
  }
}
