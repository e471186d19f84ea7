/** Font faces (`src/face.rs`): creating a face from a blob or from a
    table closure, and reading the font data and single tables back as
    shared blobs. */
module Face {
  import opened Base
  import opened Engine
  import opened Common

  /** The callback a face built by `Face::from_table_func` gives the
      engine, seen through the blobs' bytes: the raw tag is wrapped as a
      `Tag` and handed to the closure; no blob is no table. */
  function TableFunc(closure: Tag -> Option<seq<u8>>): (f: u32 -> Option<seq<u8>>)
  {
    tag => closure(Tag(tag))
  }

  /** The face's callback answers every tag with what the closure answers
      for it. */
  lemma TableFuncAnswersClosure(closure: Tag -> Option<seq<u8>>, tag: Tag)
    ensures TableFunc(closure)(tag.raw) == closure(tag)
  {
  }

  /** `table_func`, the trampoline the engine calls: the blob the closure
      returned is turned into a raw pointer, handing its reference over to
      the engine; no blob becomes a null pointer. */
  method TableFuncTrampoline(e: Engine, blob: Option<Shared>) returns (raw: Handle)
    requires e.Valid()
    requires blob.Some? ==> blob.value.engine == e && blob.value.Live()
    modifies e
    ensures e.Valid() && e.objects == old(e.objects)
    ensures blob.None? ==> raw == NULL && e.counts == old(e.counts)
    ensures blob.Some? ==> raw == blob.value.handle && !blob.value.Live()
    ensures blob.Some? ==> e.counts == old(e.counts).Released(blob.value.handle, blob.value)
  {
    match blob
    case Some(b) =>
      raw := b.IntoRaw();
    case None =>
      raw := NULL;
  }

  /** The blob's bookkeeping after `Face::new`. As written the blob has one
      reference more than before, and no wrapper holds it: besides the
      face's own reference, the forgotten wrapper's stays loose for ever,
      so the blob outlives every face and wrapper over it. As intended its
      count is unchanged, the face's reference taking the wrapper's place. */
  lemma NewLeaksBlobReference(c: Counts, blob: Handle, w: object, h: Handle, o: object)
    requires c.Valid() && blob in c.refcount && w in c.holders[blob] && h !in c.refcount
    ensures var asWritten := c.Released(blob, w).Referenced(blob).Created(h).AdoptedExclusively(h, o);
            && asWritten.refcount[blob] == c.refcount[blob] + 1
            && asWritten.loose[blob] == c.loose[blob] + 2
            && asWritten.holders[blob] == c.holders[blob] - {w}
    ensures var intended := c.Referenced(blob).Created(h).AdoptedExclusively(h, o).Released(blob, w).Destroyed(blob);
            && intended.refcount[blob] == c.refcount[blob]
            && intended.loose[blob] == c.loose[blob] + 1
            && intended.holders[blob] == c.holders[blob] - {w}
  {
    assert h != blob;
  }

  /** A face, as `Face` wraps it. */
  datatype Face = Face(engine: Engine, raw: Handle)
  {
    ghost predicate Valid()
      reads engine
    {
      engine.Valid() && raw in engine.objects.faces
    }

    /** The face's bytes for `tag` as the engine sees them. */
    ghost function Table(tag: Tag): Option<seq<u8>>
      reads engine
      requires Valid()
    {
      engine.TableBytes(raw, tag.raw)
    }

    /** A face whose data is its own blob that a `Shared` may wrap. */
    ghost predicate BlobShareable()
      reads engine
      requires Valid()
    {
      var src := engine.objects.faces[raw].source;
      src.BlobData? ==> src.blob !in engine.counts.exclusive
    }

    /** `Face::new` as written: a face over font number `index` of the
        blob. The `Shared` blob is turned into a raw pointer, which forgets
        the wrapper without giving its reference back, while the engine
        takes a reference of its own: the blob ends up with one reference
        more, held by nobody. */
    static method New(blob: Shared, index: u32) returns (o: Owned)
      requires blob.engine.Valid() && blob.Live() && blob.handle in blob.engine.objects.blobs
      modifies blob.engine
      ensures fresh(o) && o.engine == blob.engine && o.Live() && !blob.Live() && blob.engine.Valid()
      ensures o.handle !in old(blob.engine.counts.refcount) && o.handle != blob.handle
      ensures blob.engine.objects == WithFace(old(blob.engine.objects), o.handle,
                FaceState(BlobData(blob.handle), index, blob.engine.upemOf(BlobData(blob.handle), index)))
      ensures blob.engine.counts == old(blob.engine.counts).Released(blob.handle, blob).Referenced(blob.handle)
                                      .Created(o.handle).AdoptedExclusively(o.handle, o)
    {
      var e := blob.engine;
      var b := blob.IntoRaw();
      var h := e.FaceCreate(b, index);
      o := new Owned.FromRaw(e, h);
    }

    /** `Face::new` as intended: the engine is handed the blob's pointer
        without the wrapper's reference, and the wrapper is dropped when the
        call ends, so the face's own reference replaces the wrapper's. */
    static method NewBorrowingBlob(blob: Shared, index: u32) returns (o: Owned)
      requires blob.engine.Valid() && blob.Live() && blob.handle in blob.engine.objects.blobs
      modifies blob.engine
      ensures fresh(o) && o.engine == blob.engine && o.Live() && !blob.Live() && blob.engine.Valid()
      ensures o.handle !in old(blob.engine.counts.refcount) && o.handle != blob.handle
      ensures blob.engine.objects == WithFace(old(blob.engine.objects), o.handle,
                FaceState(BlobData(blob.handle), index, blob.engine.upemOf(BlobData(blob.handle), index)))
      ensures blob.engine.counts == old(blob.engine.counts).Referenced(blob.handle).Created(o.handle)
                                      .AdoptedExclusively(o.handle, o).Released(blob.handle, blob).Destroyed(blob.handle)
    {
      var e := blob.engine;
      var h := e.FaceCreate(blob.handle, index);
      o := new Owned.FromRaw(e, h);
      assert blob.Live();
      blob.Drop();
    }

    /** `Face::from_table_func`: a face that asks the closure for each
        table (face index 0). */
    static method FromTableFunc(e: Engine, closure: Tag -> Option<seq<u8>>) returns (o: Owned)
      requires e.Valid()
      modifies e
      ensures fresh(o) && o.engine == e && o.Live() && e.Valid()
      ensures o.handle !in old(e.counts.refcount)
      ensures e.objects == WithFace(old(e.objects), o.handle,
                FaceState(TableCallback(TableFunc(closure)), 0, e.upemOf(TableCallback(TableFunc(closure)), 0)))
      ensures e.counts == old(e.counts).Created(o.handle).AdoptedExclusively(o.handle, o)
    {
      var h := e.FaceCreateForTables(TableFunc(closure));
      o := new Owned.FromRaw(e, h);
    }

    /** `Face::face_data`: a shared blob of the whole font data. A face
        over a blob hands out that blob itself; a face over a closure asks
        it for tag 0 and hands out a new blob, empty when the closure has
        nothing. */
    method FaceData() returns (s: Shared)
      requires Valid() && BlobShareable()
      modifies engine
      ensures fresh(s) && s.engine == engine && s.Live() && Valid()
      ensures s.handle in engine.objects.blobs
      ensures var t := old(Table(Tag(TAG_NONE)));
              engine.objects.blobs[s.handle] == (if t.Some? then t.value else [])
      ensures old(engine.objects.faces[raw].source).BlobData? ==>
                s.handle == old(engine.objects.faces[raw].source).blob && engine.objects == old(engine.objects)
                && engine.counts == old(engine.counts).Referenced(s.handle).Adopted(s.handle, s)
      ensures old(engine.objects.faces[raw].source).TableCallback? ==>
                s.handle !in old(engine.counts.refcount)
                && engine.objects == WithBlob(old(engine.objects), s.handle, engine.objects.blobs[s.handle])
                && engine.counts == old(engine.counts).Created(s.handle).Adopted(s.handle, s)
    {
      var h := engine.FaceReferenceTable(raw, TAG_NONE);
      s := new Shared.FromRawOwned(engine, h);
    }

    /** The table's bytes as a new shared blob (empty when the face has
        no such table): one more reference to `blob.handle`, every other
        count as it was. */
    method ReferenceTable(tag: Tag) returns (blob: Shared)
      requires Valid() && BlobShareable()
      modifies engine
      ensures Valid() && engine.objects.faces == old(engine.objects.faces)
      ensures fresh(blob) && blob.engine == engine && blob.Live()
      ensures blob.handle in engine.objects.blobs
      ensures var t := old(Table(tag));
              engine.objects.blobs[blob.handle] == (if t.Some? then t.value else [])
      ensures OneMore(old(engine.counts.refcount), engine.counts.refcount, blob.handle)
    {
      ghost var before := engine.counts;
      ghost var viaBlob := engine.objects.faces[raw].source.BlobData? && tag.raw == TAG_NONE;
      var h := engine.FaceReferenceTable(raw, tag.raw);
      blob := new Shared.FromRawOwned(engine, h);
      if viaBlob {
        ReferencedOneMore(before, h, blob);
      } else {
        CreatedOneMore(before, h, blob);
      }
    }

    /** `Face::table_with_tag`: the table's bytes as a shared blob, or
        `None` when the face has no such table or it is empty (the empty
        blob is dropped at once, leaving every count as it was). */
    method TableWithTag(tag: Tag) returns (r: Option<Shared>)
      requires Valid() && BlobShareable()
      modifies engine
      ensures Valid() && engine.objects.faces == old(engine.objects.faces)
      ensures var t := old(Table(tag));
              r.Some? <==> t.Some? && |t.value| > 0
      ensures r.Some? ==> fresh(r.value) && r.value.engine == engine && r.value.Live()
                          && r.value.handle in engine.objects.blobs && engine.objects.blobs[r.value.handle] == old(Table(tag)).value
      ensures r.None? ==> forall h :: h in old(engine.counts.refcount) ==>
                            h in engine.counts.refcount && engine.counts.refcount[h] == old(engine.counts.refcount[h])
    {
      ghost var before := engine.counts.refcount;
      var blob := ReferenceTable(tag);
      if |engine.objects.blobs[blob.handle]| == 0 {
        ghost var mid := engine.counts;
        blob.Drop();
        DroppedAsBefore(before, mid, blob.handle, blob);
        r := None;
      } else {
        r := Some(blob);
      }
    }
  }

  /** `after` has one more reference to `h` than `before` and the same
      count for every other handle. */
  ghost predicate OneMore(before: map<Handle, int>, after: map<Handle, int>, h: Handle)
  {
    && h in after && after[h] == (if h in before then before[h] else 0) + 1
    && forall k :: k in before && k != h ==> k in after && after[k] == before[k]
  }
  lemma ReferencedOneMore(c: Counts, h: Handle, w: object)
    requires h in c.refcount && h in c.loose && h in c.holders
    ensures OneMore(c.refcount, c.Referenced(h).Adopted(h, w).refcount, h)
  {
  }

  lemma CreatedOneMore(c: Counts, h: Handle, w: object)
    requires h !in c.refcount
    ensures OneMore(c.refcount, c.Created(h).Adopted(h, w).refcount, h)
  {
  }

  /** Dropping the extra reference leaves every count as it was. */
  lemma DroppedAsBefore(before: map<Handle, int>, c: Counts, h: Handle, w: object)
    requires OneMore(before, c.refcount, h) && h in c.loose && h in c.holders
    ensures var after := c.Released(h, w).Destroyed(h).refcount;
            forall k :: k in before ==> k in after && after[k] == before[k]
  {
  }

  /** The closure of the table-closure example: each table holds its own
      tag's four bytes followed by "-table". */
  function TagNamedTable(tag: Tag): Option<seq<u8>>
  {
    Some(TagToBytes(tag) + [0x2D, 0x74, 0x61, 0x62, 0x6C, 0x65])
  }

  /** A tag's table from the example closure is the tag's four
      characters and "-table". */
  lemma TagNamedTableOf(a: char, b: char, c: char, d: char)
    requires IsByteChar(a) && IsByteChar(b) && IsByteChar(c) && IsByteChar(d)
    ensures TableFunc(TagNamedTable)(TagNew(a, b, c, d).raw)
            == Some([a as u8, b as u8, c as u8, d as u8] + [0x2D, 0x74, 0x61, 0x62, 0x6C, 0x65])
  {
    var t := TagNew(a, b, c, d);
    TagBytesOfNew(a, b, c, d);
    assert Tag(t.raw) == t;
    assert TableFunc(TagNamedTable)(t.raw) == TagNamedTable(t);
  }

  /** The table-closure example: the callback of a face built on that
      closure answers `maxp` with "maxp-table" and `hhea` with
      "hhea-table". */
  lemma TableFuncExample()
    ensures TableFunc(TagNamedTable)(TagNew('m', 'a', 'x', 'p').raw)
            == Some([0x6D, 0x61, 0x78, 0x70] + [0x2D, 0x74, 0x61, 0x62, 0x6C, 0x65])
    ensures TableFunc(TagNamedTable)(TagNew('h', 'h', 'e', 'a').raw)
            == Some([0x68, 0x68, 0x65, 0x61] + [0x2D, 0x74, 0x61, 0x62, 0x6C, 0x65])
  {
    TagNamedTableOf('m', 'a', 'x', 'p');
    assert ['m' as u8, 'a' as u8, 'x' as u8, 'p' as u8] == [0x6D, 0x61, 0x78, 0x70];
    TagNamedTableOf('h', 'h', 'e', 'a');
    assert ['h' as u8, 'h' as u8, 'e' as u8, 'a' as u8] == [0x68, 0x68, 0x65, 0x61];
  }
}
