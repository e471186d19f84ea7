/** The native HarfBuzz engine as the binding relies on it: reference-counted
    objects behind opaque handles, the few pieces of per-object state the
    binding reads back, and the engine's own algorithms (shaping, UTF-8
    decoding, font parsing, serialization, metric lookups) as functions that
    are fixed when an `Engine` is built and are otherwise uninterpreted.

    Besides the engine's count, the model keeps ghost bookkeeping of who holds
    each reference: live binding wrappers (`holders`, one reference each) and
    everyone else (`loose`: raw pointers in flight and references the engine
    keeps for itself). `Valid` ties the count to that bookkeeping. */
module Engine {
  import opened Base

  /** An object's address; 0 is the null pointer. */
  type Handle = nat
  const NULL: Handle := 0

  // hb_buffer_content_type_t
  const CONTENT_TYPE_INVALID: u32 := 0
  const CONTENT_TYPE_UNICODE: u32 := 1
  const CONTENT_TYPE_GLYPHS: u32 := 2

  // hb_direction_t
  const DIRECTION_INVALID: u32 := 0
  const DIRECTION_LTR: u32 := 4
  const DIRECTION_RTL: u32 := 5
  const DIRECTION_TTB: u32 := 6
  const DIRECTION_BTT: u32 := 7

  // hb_buffer_cluster_level_t
  const CLUSTER_LEVEL_MONOTONE_GRAPHEMES: u32 := 0
  const CLUSTER_LEVEL_MONOTONE_CHARACTERS: u32 := 1
  const CLUSTER_LEVEL_CHARACTERS: u32 := 2

  // hb_glyph_flags_t
  const GLYPH_FLAG_UNSAFE_TO_BREAK: u32 := 1

  // HB_TAG_NONE
  const TAG_NONE: u32 := 0

  datatype GlyphInfo = GlyphInfo(codepoint: u32, mask: u32, cluster: u32)
  datatype GlyphPosition = GlyphPosition(xAdvance: i32, yAdvance: i32, xOffset: i32, yOffset: i32)
  const ZERO_POSITION := GlyphPosition(0, 0, 0, 0)

  /** One entry of a buffer: its info record and its position record. */
  datatype Item = Item(info: GlyphInfo, position: GlyphPosition)

  datatype Feature = Feature(tag: u32, value: u32, start: u32, end: u32)
  datatype FontExtents = FontExtents(ascender: i32, descender: i32, lineGap: i32, reserved: seq<i32>)
  datatype GlyphExtents = GlyphExtents(xBearing: i32, yBearing: i32, width: i32, height: i32)

  /** A buffer: its entries, content type, direction, cluster level and the
      number of entries it has room for. */
  datatype BufferState = BufferState(items: seq<Item>, contentType: u32, direction: u32, clusterLevel: u32, room: nat)

  const NEW_BUFFER := BufferState([], CONTENT_TYPE_INVALID, DIRECTION_INVALID, CLUSTER_LEVEL_MONOTONE_GRAPHEMES, 0)

  /** A font: its parent (NULL only for the empty font), face, scale, ppem and
      installed font-funcs table (NULL for the engine's built-in one). */
  datatype FontState = FontState(parent: Handle, face: Handle, xScale: i32, yScale: i32, xPpem: u32, yPpem: u32, funcs: Handle)

  /** Where a face's tables come from: a font file in a blob, or a callback. */
  datatype FaceSource = BlobData(blob: Handle) | TableCallback(table: u32 -> Option<seq<u8>>)
  datatype FaceState = FaceState(source: FaceSource, index: u32, upem: u32)

  /** The fourteen entries of an `hb_font_funcs_t`. */
  datatype Slot =
    | FontHExtentsSlot | FontVExtentsSlot | NominalGlyphSlot | VariationGlyphSlot
    | GlyphHAdvanceSlot | GlyphVAdvanceSlot | GlyphHOriginSlot | GlyphVOriginSlot
    | GlyphHKerningSlot | GlyphVKerningSlot | GlyphExtentsSlot | GlyphContourPointSlot
    | GlyphNameSlot | GlyphFromNameSlot

  /** The binding's callbacks that can be installed in a slot. */
  datatype Callback =
    | FontExtentsCallback | NominalGlyphCallback | VariationGlyphCallback
    | AdvanceCallback | OriginCallback | KerningCallback | GlyphExtentsCallback
    | ContourPointCallback | GlyphNameCallback | GlyphFromNameCallback

  /** The engine's answers to `hb_font_get_*` queries on a font: a result
      flag (1 for success) with the values written to the out-parameters. */
  datatype FontQueries = FontQueries(
    hExtents: Handle -> (int, FontExtents),
    vExtents: Handle -> (int, FontExtents),
    nominalGlyph: (Handle, u32) -> (int, u32),
    variationGlyph: (Handle, u32, u32) -> (int, u32),
    hAdvance: (Handle, u32) -> i32,
    vAdvance: (Handle, u32) -> i32,
    hOrigin: (Handle, u32) -> (int, i32, i32),
    vOrigin: (Handle, u32) -> (int, i32, i32),
    hKerning: (Handle, u32, u32) -> i32,
    vKerning: (Handle, u32, u32) -> i32,
    extents: (Handle, u32) -> (int, GlyphExtents),
    contourPoint: (Handle, u32, u32) -> (int, i32, i32),
    glyphName: (Handle, u32, nat) -> (int, seq<u8>),
    glyphFromName: (Handle, seq<u8>, int) -> (int, u32))

  /** Reference counts and who holds the references. */
  datatype Counts = Counts(
    refcount: map<Handle, int>,
    loose: map<Handle, int>,
    holders: map<Handle, set<object>>,
    exclusive: set<Handle>)
  {
    /** Every reference is held by exactly one live wrapper or counted as
        loose, and an exclusively held handle has exactly one wrapper. */
    ghost predicate Valid()
    {
      && refcount.Keys == loose.Keys == holders.Keys
      && (forall h :: h in refcount ==> 0 <= loose[h] && refcount[h] == |holders[h]| + loose[h])
      && (forall h :: h in exclusive ==> h in holders && |holders[h]| == 1)
    }

    /** A new object with one reference, held by whoever received the pointer. */
    function Created(h: Handle): Counts
    {
      this.(refcount := refcount[h := 1], loose := loose[h := 1], holders := holders[h := {}])
    }

    /** `hb_*_reference`: one more reference, handed out as a raw pointer. */
    function Referenced(h: Handle): Counts
      requires h in refcount && h in loose
    {
      this.(refcount := refcount[h := refcount[h] + 1], loose := loose[h := loose[h] + 1])
    }

    /** `hb_*_destroy`: a raw reference given back. */
    function Destroyed(h: Handle): Counts
      requires h in refcount && h in loose
    {
      this.(refcount := refcount[h := refcount[h] - 1], loose := loose[h := loose[h] - 1])
    }

    /** Wrapper `w` takes over a raw reference. */
    function Adopted(h: Handle, w: object): Counts
      requires h in loose && h in holders
    {
      this.(loose := loose[h := loose[h] - 1], holders := holders[h := holders[h] + {w}])
    }

    /** An owning wrapper `w` takes over a raw reference nobody else wraps. */
    function AdoptedExclusively(h: Handle, w: object): Counts
      requires h in loose && h in holders
    {
      this.(loose := loose[h := loose[h] - 1], holders := holders[h := {w}], exclusive := exclusive + {h})
    }

    /** Wrapper `w` gives up its reference, which becomes a raw one. */
    function Released(h: Handle, w: object): Counts
      requires h in loose && h in holders
    {
      this.(loose := loose[h := loose[h] + 1], holders := holders[h := holders[h] - {w}], exclusive := exclusive - {h})
    }
  }

  /** The arguments of `hb_buffer_serialize_glyphs` besides the buffer: the
      range of glyphs, the room for output bytes, the font (`NULL` for none),
      the format code and the flag bits. */
  datatype SerializeRequest = SerializeRequest(start: nat, end: nat, capacity: nat, font: Handle, format: u32, flags: u32)

  /** The state of every engine object. */
  datatype Objects = Objects(
    buffers: map<Handle, BufferState>,
    fonts: map<Handle, FontState>,
    faces: map<Handle, FaceState>,
    blobs: map<Handle, seq<u8>>,
    funcs: map<Handle, map<Slot, Callback>>,
    next: Handle)

  lemma CreatedValid(c: Counts, h: Handle)
    requires c.Valid() && h !in c.refcount
    ensures c.Created(h).Valid()
  {
    var d := c.Created(h);
    forall k | k in d.exclusive ensures k in d.holders && |d.holders[k]| == 1 {
      assert k in c.holders;
    }
  }

  lemma ReferencedValid(c: Counts, h: Handle)
    requires c.Valid() && h in c.refcount
    ensures c.Referenced(h).Valid()
  {
  }

  lemma DestroyedValid(c: Counts, h: Handle)
    requires c.Valid() && h in c.refcount && c.loose[h] >= 1
    ensures c.Destroyed(h).Valid()
  {
  }

  lemma AdoptedValid(c: Counts, h: Handle, w: object)
    requires c.Valid() && h in c.refcount && c.loose[h] >= 1 && w !in c.holders[h] && h !in c.exclusive
    ensures c.Adopted(h, w).Valid()
  {
    var d := c.Adopted(h, w);
    assert |d.holders[h]| == |c.holders[h]| + 1;
    forall k | k in d.refcount ensures 0 <= d.loose[k] && d.refcount[k] == |d.holders[k]| + d.loose[k] {
      if k != h { assert d.holders[k] == c.holders[k]; }
    }
    forall k | k in d.exclusive ensures k in d.holders && |d.holders[k]| == 1 {
      assert k != h && d.holders[k] == c.holders[k];
    }
  }

  lemma AdoptedExclusivelyValid(c: Counts, h: Handle, w: object)
    requires c.Valid() && h in c.refcount && c.loose[h] >= 1 && c.holders[h] == {}
    ensures c.AdoptedExclusively(h, w).Valid()
  {
    var d := c.AdoptedExclusively(h, w);
    forall k | k in d.refcount ensures 0 <= d.loose[k] && d.refcount[k] == |d.holders[k]| + d.loose[k] {
      if k != h { assert d.holders[k] == c.holders[k]; }
    }
    forall k | k in d.exclusive ensures k in d.holders && |d.holders[k]| == 1 {
      if k != h { assert d.holders[k] == c.holders[k]; }
    }
  }

  lemma ReleasedValid(c: Counts, h: Handle, w: object)
    requires c.Valid() && h in c.holders && w in c.holders[h]
    ensures c.Released(h, w).Valid()
  {
    var d := c.Released(h, w);
    assert |d.holders[h]| == |c.holders[h]| - 1;
    forall k | k in d.refcount ensures 0 <= d.loose[k] && d.refcount[k] == |d.holders[k]| + d.loose[k] {
      if k != h { assert d.holders[k] == c.holders[k]; }
    }
    forall k | k in d.exclusive ensures k in d.holders && |d.holders[k]| == 1 {
      assert k != h && d.holders[k] == c.holders[k];
    }
  }

  /** Every font but `emptyFont` has an older parent, so walking up the
      parents ends at the empty font; every font's face exists. */
  ghost predicate FontTree(o: Objects, emptyFont: Handle)
  {
    && emptyFont in o.fonts && o.fonts[emptyFont].parent == NULL
    && (forall h :: h in o.fonts ==> o.fonts[h].face in o.faces)
    && (forall h {:trigger o.fonts[h]} :: h in o.fonts && h != emptyFont ==> o.fonts[h].parent in o.fonts && o.fonts[h].parent < h)
  }

  /** A face on a blob refers to a blob that exists. */
  ghost predicate FaceBlobs(o: Objects)
  {
    forall f :: f in o.faces && o.faces[f].source.BlobData? ==> o.faces[f].source.blob in o.blobs
  }

  /** The engine's invariant on its counts and objects: the counts are
      consistent, every handle was allocated, every object is counted, and
      the fonts form a tree. */
  ghost predicate ObjectsValid(c: Counts, o: Objects, emptyFont: Handle)
  {
    && c.Valid() && NULL !in c.refcount && (forall h :: h in c.refcount ==> h < o.next)
    && o.buffers.Keys <= c.refcount.Keys && o.fonts.Keys <= c.refcount.Keys
    && o.faces.Keys <= c.refcount.Keys && o.blobs.Keys <= c.refcount.Keys && o.funcs.Keys <= c.refcount.Keys
    && FontTree(o, emptyFont) && FaceBlobs(o)
  }

  /** A buffer after the engine shaped it with `font` and `features`: the
      entries become the shaper's glyphs for the buffer's entries and
      direction, and the buffer holds glyphs. An empty buffer is left as
      it is. */
  function Shaped(b: BufferState, shaper: (Handle, seq<Item>, u32, seq<Feature>) -> seq<Item>,
                  font: Handle, features: seq<Feature>): (r: BufferState)
    ensures r.(items := b.items, contentType := b.contentType) == b
    ensures |b.items| > 0 ==> r.contentType == CONTENT_TYPE_GLYPHS && r.items == shaper(font, b.items, b.direction, features)
    ensures |b.items| == 0 ==> r == b
  {
    if |b.items| == 0 then b
    else b.(items := shaper(font, b.items, b.direction, features), contentType := CONTENT_TYPE_GLYPHS)
  }

  /** The objects once font `h` was created on `face` below the empty
      font: scale at the face's units per em (cut to 32 bits), no ppem, the
      engine's own font functions. */
  function WithFont(o: Objects, emptyFont: Handle, face: Handle, h: Handle): (r: Objects)
    requires face in o.faces
  {
    var upem := AsI32(o.faces[face].upem);
    o.(fonts := o.fonts[h := FontState(emptyFont, face, upem, upem, 0, 0, NULL)], next := h + 1)
  }

  /** The objects once font `h` was created below `parent`: the parent's
      face, scale and ppem, no font functions of its own. */
  function WithSubFont(o: Objects, parent: Handle, h: Handle): (r: Objects)
    requires parent in o.fonts
  {
    o.(fonts := o.fonts[h := o.fonts[parent].(parent := parent, funcs := NULL)], next := h + 1)
  }

  /** The objects once face `h` was created with state `f`. */
  function WithFace(o: Objects, h: Handle, f: FaceState): (r: Objects)
  {
    o.(faces := o.faces[h := f], next := h + 1)
  }

  /** The objects once blob `h` was created holding `bytes`. */
  function WithBlob(o: Objects, h: Handle, bytes: seq<u8>): (r: Objects)
  {
    o.(blobs := o.blobs[h := bytes], next := h + 1)
  }

  /** The objects once `callback` was installed in `slot` of font-funcs
      table `h`; every other slot and object is as before. */
  function WithCallback(o: Objects, h: Handle, slot: Slot, callback: Callback): (r: Objects)
    requires h in o.funcs
  {
    o.(funcs := o.funcs[h := o.funcs[h][slot := callback]])
  }

  /** A new handle keeps the invariant. */
  lemma CreatedObjectsValid(c: Counts, o: Objects, emptyFont: Handle)
    requires ObjectsValid(c, o, emptyFont)
    ensures o.next !in c.refcount && o.next != NULL
    ensures o.next !in o.buffers && o.next !in o.fonts && o.next !in o.faces && o.next !in o.blobs && o.next !in o.funcs
    ensures ObjectsValid(c.Created(o.next), o.(next := o.next + 1), emptyFont)
  {
    assert emptyFont in c.refcount;
    CreatedValid(c, o.next);
  }

  /** Changing the counts but not which handles exist keeps the invariant. */
  lemma RecountedObjectsValid(c: Counts, d: Counts, o: Objects, emptyFont: Handle)
    requires ObjectsValid(c, o, emptyFont) && d.Valid() && d.refcount.Keys == c.refcount.Keys
    ensures ObjectsValid(d, o, emptyFont)
  {
  }

  lemma SetBufferObjectsValid(c: Counts, o: Objects, emptyFont: Handle, h: Handle, s: BufferState)
    requires ObjectsValid(c, o, emptyFont) && h in c.refcount
    ensures ObjectsValid(c, o.(buffers := o.buffers[h := s]), emptyFont)
  {
  }

  lemma SetBlobObjectsValid(c: Counts, o: Objects, emptyFont: Handle, h: Handle, b: seq<u8>)
    requires ObjectsValid(c, o, emptyFont) && h in c.refcount
    ensures ObjectsValid(c, o.(blobs := o.blobs[h := b]), emptyFont)
  {
  }

  lemma SetFuncsObjectsValid(c: Counts, o: Objects, emptyFont: Handle, h: Handle, f: map<Slot, Callback>)
    requires ObjectsValid(c, o, emptyFont) && h in c.refcount
    ensures ObjectsValid(c, o.(funcs := o.funcs[h := f]), emptyFont)
  {
  }

  lemma AddFaceObjectsValid(c: Counts, o: Objects, emptyFont: Handle, h: Handle, f: FaceState)
    requires ObjectsValid(c, o, emptyFont) && h in c.refcount && h !in o.faces
    requires f.source.BlobData? ==> f.source.blob in o.blobs
    ensures ObjectsValid(c, o.(faces := o.faces[h := f]), emptyFont)
  {
  }

  /** A font below an older parent, or a font keeping its parent and face,
      keeps the invariant. */
  lemma SetFontObjectsValid(c: Counts, o: Objects, emptyFont: Handle, h: Handle, s: FontState)
    requires ObjectsValid(c, o, emptyFont) && h in c.refcount && s.face in o.faces
    requires h in o.fonts ==> s.parent == o.fonts[h].parent
    requires h !in o.fonts ==> h != emptyFont && s.parent in o.fonts && s.parent < h
    ensures ObjectsValid(c, o.(fonts := o.fonts[h := s]), emptyFont)
  {
    SetFontTree(o, emptyFont, h, s);
  }

  lemma SetFontTree(o: Objects, emptyFont: Handle, h: Handle, s: FontState)
    requires FontTree(o, emptyFont) && s.face in o.faces
    requires h in o.fonts ==> s.parent == o.fonts[h].parent
    requires h !in o.fonts ==> h != emptyFont && s.parent in o.fonts && s.parent < h
    ensures FontTree(o.(fonts := o.fonts[h := s]), emptyFont)
  {
    var p := o.(fonts := o.fonts[h := s]);
    forall k {:trigger p.fonts[k]} | k in p.fonts && k != emptyFont
      ensures p.fonts[k].parent in p.fonts && p.fonts[k].parent < k
    {
      if k != h {
        assert p.fonts[k] == o.fonts[k];
      }
    }
  }

  class Engine {
    /** The reference counts: the binding never reads them, so they are ghost. */
    ghost var counts: Counts
    /** The state of every object. */
    var objects: Objects

    const emptyFont: Handle
    const emptyFace: Handle
    const queries: FontQueries
    /** Shaping: the font, the buffer's entries, its direction and the features. */
    const shaper: (Handle, seq<Item>, u32, seq<Feature>) -> seq<Item>
    /** `hb_buffer_add_utf8`'s decoding into buffer entries: the text, its
        length as a C `int`, the item offset as a C `unsigned int` and the
        item length as a C `int`. */
    const decodeUtf8: (seq<u8>, i32, u32, i32) -> seq<GlyphInfo>
    /** The direction guessed for a buffer's contents. */
    const guessDirection: seq<Item> -> u32
    /** A table of a font file: the data, the face index and the tag. */
    const tableOf: (seq<u8>, u32, u32) -> seq<u8>
    /** Units per em of a new face. */
    const upemOf: (FaceSource, u32) -> u32
    /** `hb_buffer_serialize_glyphs` on a buffer's state: glyphs serialized
        and bytes written. */
    const serialize: (BufferState, SerializeRequest) -> (nat, seq<u8>)

    /** Handle `h` names an object with at least one reference. */
    ghost predicate Alive(h: Handle)
      reads this
    {
      h in counts.refcount && counts.refcount[h] >= 1
    }

    /** The engine's invariant. */
    ghost predicate Valid()
      reads this
    {
      ObjectsValid(counts, objects, emptyFont)
    }

    constructor (queries: FontQueries,
                 shaper: (Handle, seq<Item>, u32, seq<Feature>) -> seq<Item>,
                 decodeUtf8: (seq<u8>, i32, u32, i32) -> seq<GlyphInfo>,
                 guessDirection: seq<Item> -> u32,
                 tableOf: (seq<u8>, u32, u32) -> seq<u8>,
                 upemOf: (FaceSource, u32) -> u32,
                 serialize: (BufferState, SerializeRequest) -> (nat, seq<u8>))
      ensures Valid()
      ensures this.queries == queries && this.shaper == shaper && this.decodeUtf8 == decodeUtf8
      ensures this.guessDirection == guessDirection && this.tableOf == tableOf
      ensures this.upemOf == upemOf && this.serialize == serialize
      ensures objects.buffers == map[] && objects.blobs == map[] && objects.funcs == map[] && counts.exclusive == {}
    {
      this.queries, this.shaper, this.decodeUtf8 := queries, shaper, decodeUtf8;
      this.guessDirection, this.tableOf, this.upemOf := guessDirection, tableOf, upemOf;
      this.serialize := serialize;
      emptyFont, emptyFace := 1, 2;
      var noTables := FaceSource.TableCallback(t => None);
      counts := Counts(map[1 := 1, 2 := 1], map[1 := 1, 2 := 1], map[1 := {}, 2 := {}], {});
      objects := Objects(map[], map[1 := FontState(NULL, 2, 0, 0, 0, 0, NULL)],
                         map[2 := FaceState(noTables, 0, upemOf(noTables, 0))], map[], map[], 3);
    }

    /** Allocates a handle for a new object, with one raw reference. */
    method NewHandle() returns (h: Handle)
      requires Valid()
      modifies this
      ensures h == old(objects.next) && h !in old(counts.refcount) && h != NULL
      ensures h !in objects.buffers && h !in objects.fonts && h !in objects.faces && h !in objects.blobs && h !in objects.funcs
      ensures counts == old(counts).Created(h)
      ensures objects == old(objects).(next := h + 1)
      ensures Valid()
    {
      h := objects.next;
      CreatedObjectsValid(counts, objects, emptyFont);
      counts := counts.Created(h);
      objects := objects.(next := h + 1);
    }

    /** `hb_*_reference`. The counts do not separate out the references
        engine objects hold on each other (a font on its face and parent),
        so only the handle's being counted is required. */
    method Reference(h: Handle)
      requires Valid() && h in counts.refcount
      modifies this
      ensures counts == old(counts).Referenced(h)
      ensures objects == old(objects)
      ensures Valid()
    {
      ReferencedValid(counts, h);
      RecountedObjectsValid(counts, counts.Referenced(h), objects, emptyFont);
      counts := counts.Referenced(h);
    }

    /** `hb_*_destroy`: gives back a raw reference; at zero the object is gone. */
    method Destroy(h: Handle)
      requires Valid() && h in counts.refcount && counts.loose[h] >= 1
      modifies this
      ensures counts == old(counts).Destroyed(h)
      ensures objects == old(objects)
      ensures Valid()
    {
      DestroyedValid(counts, h);
      RecountedObjectsValid(counts, counts.Destroyed(h), objects, emptyFont);
      counts := counts.Destroyed(h);
    }

    /** Bookkeeping: wrapper `w` takes over one of the raw references to `h`. */
    ghost method Adopt(h: Handle, w: object)
      requires Valid() && h in counts.refcount && counts.loose[h] >= 1 && w !in counts.holders[h] && h !in counts.exclusive
      modifies this
      ensures counts == old(counts).Adopted(h, w)
      ensures objects == old(objects)
      ensures Valid()
    {
      AdoptedValid(counts, h, w);
      RecountedObjectsValid(counts, counts.Adopted(h, w), objects, emptyFont);
      counts := counts.Adopted(h, w);
    }

    /** Bookkeeping: an owning wrapper `w` takes over a raw reference to an
        object no wrapper holds. */
    ghost method AdoptExclusively(h: Handle, w: object)
      requires Valid() && h in counts.refcount && counts.loose[h] >= 1 && counts.holders[h] == {}
      modifies this
      ensures counts == old(counts).AdoptedExclusively(h, w)
      ensures objects == old(objects)
      ensures Valid()
    {
      AdoptedExclusivelyValid(counts, h, w);
      RecountedObjectsValid(counts, counts.AdoptedExclusively(h, w), objects, emptyFont);
      counts := counts.AdoptedExclusively(h, w);
    }

    /** Bookkeeping: wrapper `w` gives up its reference to `h` as a raw one. */
    ghost method Release(h: Handle, w: object)
      requires Valid() && h in counts.holders && w in counts.holders[h]
      modifies this
      ensures counts == old(counts).Released(h, w)
      ensures objects == old(objects)
      ensures Valid()
    {
      ReleasedValid(counts, h, w);
      RecountedObjectsValid(counts, counts.Released(h, w), objects, emptyFont);
      counts := counts.Released(h, w);
    }

    // ---- buffers ----

    /** `hb_buffer_create`. */
    method BufferCreate() returns (h: Handle)
      requires Valid()
      modifies this
      ensures h == old(objects.next) && h !in old(counts.refcount)
      ensures counts == old(counts).Created(h)
      ensures objects == old(objects).(buffers := old(objects.buffers)[h := NEW_BUFFER], next := h + 1)
      ensures Valid()
    {
      h := NewHandle();
      SetBufferObjectsValid(counts, objects, emptyFont, h, NEW_BUFFER);
      objects := objects.(buffers := objects.buffers[h := NEW_BUFFER]);
    }

    /** Replaces the state of buffer `h`. */
    method SetBuffer(h: Handle, s: BufferState)
      requires Valid() && h in objects.buffers
      modifies this
      ensures counts == old(counts)
      ensures objects == old(objects).(buffers := old(objects.buffers)[h := s])
      ensures Valid()
    {
      SetBufferObjectsValid(counts, objects, emptyFont, h, s);
      objects := objects.(buffers := objects.buffers[h := s]);
    }

    /** `hb_shape`: the first `count` features are read from the array;
        the buffer is shaped with `font`. */
    method Shape(font: Handle, buffer: Handle, features: seq<Feature>, count: nat)
      requires Valid() && font in objects.fonts && buffer in objects.buffers
      requires count <= |features|
      modifies this
      ensures counts == old(counts)
      ensures objects == old(objects).(buffers := old(objects.buffers)[buffer :=
                Shaped(old(objects.buffers[buffer]), shaper, font, features[..count])])
      ensures Valid()
    {
      SetBuffer(buffer, Shaped(objects.buffers[buffer], shaper, font, features[..count]));
    }

    // ---- fonts ----

    /** `hb_font_create`: a font on `face` whose parent is the empty font,
        scaled to the face's units per em; the font keeps a reference to the
        face. */
    method FontCreate(face: Handle) returns (h: Handle)
      requires Valid() && face in objects.faces && Alive(face)
      modifies this
      ensures h == old(objects.next) && h !in old(counts.refcount)
      ensures counts == old(counts).Referenced(face).Created(h)
      ensures objects == WithFont(old(objects), emptyFont, face, h)
      ensures Valid()
    {
      ghost var o0 := objects;
      Reference(face);
      h := NewHandle();
      var upem := AsI32(objects.faces[face].upem);
      AddFont(h, FontState(emptyFont, face, upem, upem, 0, 0, NULL));
      assert objects == WithFont(o0, emptyFont, face, h);
    }

    /** `hb_font_create_sub_font`: a font on the parent's face with the
        parent's scale and ppem; it keeps references to its parent and face. */
    method FontCreateSubFont(parent: Handle) returns (h: Handle)
      requires Valid() && parent in objects.fonts && Alive(parent)
      modifies this
      ensures h == old(objects.next) && h !in old(counts.refcount)
      ensures counts == old(counts).Referenced(parent).Referenced(old(objects.fonts)[parent].face).Created(h)
      ensures objects == WithSubFont(old(objects), parent, h)
      ensures Valid()
    {
      var p := objects.fonts[parent];
      Reference(parent);
      Reference(p.face);
      h := NewHandle();
      AddFont(h, p.(parent := parent, funcs := NULL));
    }

    /** Records the state of a new font, below an older parent. */
    method AddFont(h: Handle, s: FontState)
      requires Valid() && h in counts.refcount && h !in objects.fonts && h != emptyFont
      requires s.parent in objects.fonts && s.parent < h && s.face in objects.faces
      modifies this
      ensures counts == old(counts)
      ensures objects == old(objects).(fonts := old(objects.fonts)[h := s])
      ensures Valid()
    {
      SetFontObjectsValid(counts, objects, emptyFont, h, s);
      objects := objects.(fonts := objects.fonts[h := s]);
    }

    /** `hb_font_get_empty`, handing out a reference to the empty font. */
    method FontGetEmpty() returns (h: Handle)
      requires Valid()
      modifies this
      ensures h == emptyFont
      ensures counts == old(counts).Referenced(h)
      ensures objects == old(objects)
      ensures Valid()
    {
      Reference(emptyFont);
      h := emptyFont;
    }

    /** Replaces the state of font `h`, keeping its place in the font tree. */
    method SetFont(h: Handle, s: FontState)
      requires Valid() && h in objects.fonts && s.parent == objects.fonts[h].parent && s.face == objects.fonts[h].face
      modifies this
      ensures counts == old(counts)
      ensures objects == old(objects).(fonts := old(objects.fonts)[h := s])
      ensures Valid()
    {
      SetFontObjectsValid(counts, objects, emptyFont, h, s);
      objects := objects.(fonts := objects.fonts[h := s]);
    }

    /** `hb_font_set_funcs`: the font keeps a reference to the table and
        uses it from now on; the immutable empty font ignores the call. */
    method FontSetFuncs(font: Handle, funcs: Handle)
      requires Valid() && font in objects.fonts && funcs in objects.funcs
      modifies this
      ensures font == emptyFont ==> counts == old(counts) && objects == old(objects)
      ensures font != emptyFont ==> counts == old(counts).Referenced(funcs)
      ensures font != emptyFont ==> objects == old(objects).(fonts := old(objects.fonts)[font := old(objects.fonts)[font].(funcs := funcs)])
      ensures Valid()
    {
      if font != emptyFont {
        Reference(funcs);
        SetFont(font, objects.fonts[font].(funcs := funcs));
      }
    }

    // ---- faces and blobs ----

    /** `hb_blob_create` over a copy of `bytes`. */
    method BlobCreate(bytes: seq<u8>) returns (h: Handle)
      requires Valid()
      modifies this
      ensures h == old(objects.next) && h !in old(counts.refcount)
      ensures counts == old(counts).Created(h)
      ensures objects == WithBlob(old(objects), h, bytes)
      ensures Valid()
    {
      h := NewHandle();
      PutBlob(h, bytes);
    }

    /** Records the bytes of blob `h`. */
    method PutBlob(h: Handle, bytes: seq<u8>)
      requires Valid() && h in counts.refcount
      modifies this
      ensures counts == old(counts)
      ensures objects == old(objects).(blobs := old(objects.blobs)[h := bytes])
      ensures Valid()
    {
      SetBlobObjectsValid(counts, objects, emptyFont, h, bytes);
      objects := objects.(blobs := objects.blobs[h := bytes]);
    }

    /** `hb_face_create` on a blob: the face takes a reference of its own
        to the blob; the caller's reference stays the caller's. */
    method FaceCreate(blob: Handle, index: u32) returns (h: Handle)
      requires Valid() && blob in objects.blobs
      modifies this
      ensures h == old(objects.next) && h !in old(counts.refcount) && h != blob
      ensures counts == old(counts).Referenced(blob).Created(h)
      ensures objects == WithFace(old(objects), h, FaceState(BlobData(blob), index, upemOf(BlobData(blob), index)))
      ensures Valid()
    {
      Reference(blob);
      h := NewHandle();
      AddFace(h, FaceState(BlobData(blob), index, upemOf(BlobData(blob), index)));
    }

    /** `hb_face_create_for_tables` with the binding's table callback. */
    method FaceCreateForTables(table: u32 -> Option<seq<u8>>) returns (h: Handle)
      requires Valid()
      modifies this
      ensures h == old(objects.next) && h !in old(counts.refcount)
      ensures counts == old(counts).Created(h)
      ensures objects == WithFace(old(objects), h, FaceState(TableCallback(table), 0, upemOf(TableCallback(table), 0)))
      ensures Valid()
    {
      h := NewHandle();
      AddFace(h, FaceState(TableCallback(table), 0, upemOf(TableCallback(table), 0)));
    }

    /** Records the state of a new face. */
    method AddFace(h: Handle, f: FaceState)
      requires Valid() && h in counts.refcount && h !in objects.faces
      requires f.source.BlobData? ==> f.source.blob in objects.blobs
      modifies this
      ensures counts == old(counts)
      ensures objects == old(objects).(faces := old(objects.faces)[h := f])
      ensures Valid()
    {
      AddFaceObjectsValid(counts, objects, emptyFont, h, f);
      objects := objects.(faces := objects.faces[h := f]);
    }

    /** The bytes of table `tag` of a face, or of the whole font data for
        `TAG_NONE`; `None` when a table callback has no such table. */
    ghost function TableBytes(face: Handle, tag: u32): Option<seq<u8>>
      reads this
      requires Valid() && face in objects.faces
    {
      match objects.faces[face].source
      case BlobData(b) =>
        if tag == TAG_NONE then Some(objects.blobs[b])
        else Some(tableOf(objects.blobs[b], objects.faces[face].index, tag))
      case TableCallback(table) => table(tag)
    }

    /** `hb_face_reference_table`: a new reference to a blob holding the
        table (`hb_face_reference_blob` is the `TAG_NONE` case). A blob-backed
        face hands out its own blob for `TAG_NONE`; every other answer is a
        new blob, empty when the table is missing. */
    method FaceReferenceTable(face: Handle, tag: u32) returns (h: Handle)
      requires Valid() && face in objects.faces
      modifies this
      ensures h != NULL && h in objects.blobs && h in counts.refcount
      ensures var t := old(TableBytes(face, tag));
              objects.blobs[h] == (if t.Some? then t.value else [])
      ensures old(objects.faces)[face].source.BlobData? && tag == TAG_NONE ==>
                h == old(objects.faces)[face].source.blob
                && counts == old(counts).Referenced(h) && objects == old(objects)
      ensures !(old(objects.faces)[face].source.BlobData? && tag == TAG_NONE) ==>
                h == old(objects.next)
                && counts == old(counts).Created(h)
                && objects == WithBlob(old(objects), h, objects.blobs[h])
      ensures Valid()
    {
      var src := objects.faces[face].source;
      if src.BlobData? && tag == TAG_NONE {
        Reference(src.blob);
        h := src.blob;
      } else {
        var bytes := match src
          case BlobData(b) => tableOf(objects.blobs[b], objects.faces[face].index, tag)
          case TableCallback(table) => (if table(tag).Some? then table(tag).value else []);
        h := BlobCreate(bytes);
      }
    }

    // ---- font-funcs tables ----

    /** `hb_font_funcs_create`: a table with every slot at its default. */
    method FuncsCreate() returns (h: Handle)
      requires Valid()
      modifies this
      ensures h == old(objects.next) && h !in old(counts.refcount)
      ensures counts == old(counts).Created(h)
      ensures objects == old(objects).(funcs := old(objects.funcs)[h := map[]], next := h + 1)
      ensures Valid()
    {
      h := NewHandle();
      PutFuncs(h, map[]);
    }

    /** `hb_font_funcs_set_*_func`: installs a callback in one slot. */
    method FuncsSet(h: Handle, slot: Slot, callback: Callback)
      requires Valid() && h in objects.funcs
      modifies this
      ensures counts == old(counts)
      ensures objects == WithCallback(old(objects), h, slot, callback)
      ensures Valid()
    {
      PutFuncs(h, objects.funcs[h][slot := callback]);
    }

    /** Records the slots of font-funcs table `h`. */
    method PutFuncs(h: Handle, f: map<Slot, Callback>)
      requires Valid() && h in counts.refcount
      modifies this
      ensures counts == old(counts)
      ensures objects == old(objects).(funcs := old(objects.funcs)[h := f])
      ensures Valid()
    {
      SetFuncsObjectsValid(counts, objects, emptyFont, h, f);
      objects := objects.(funcs := objects.funcs[h := f]);
    }
  }
}
