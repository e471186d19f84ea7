/** Fonts (`src/font.rs`). A `Font` is a pointer to an engine font, which is
    what `Owned<Font>` and `Shared<Font>` dereference to; its parent, face,
    scale and ppem live in the engine. */
module Font {
  import opened Base
  import opened Utf8
  import opened Engine
  import opened Common

  // ---- rescaling from the parent's scale ----

  /** A distance measured at scale `from`, brought to scale `to` as the
      parent-scaling helpers do it: unchanged when the scales agree, and
      otherwise `v * to / from` in 64-bit arithmetic with the quotient rounded
      toward zero, cut back to 32 bits. A zero `from` that differs from `to`
      is a division by zero, which panics. */
  function Rescale(v: i32, from: i32, to: i32): (r: Unwind<i32>)
    ensures r.Panicked? <==> from == 0 && to != 0
    ensures from == to ==> r == Returned(v)
  {
    if from != to then
      if from == 0 then Panicked else Returned(AsI32(DivTrunc(v * to, from)))
    else Returned(v)
  }

  /** The 64-bit product never overflows: two 32-bit factors stay within
      `i64`, so modelling the `i64` intermediate as an unbounded integer
      loses nothing. */
  lemma RescaleProductFitsI64(v: i32, to: i32)
    ensures -0x8000_0000_0000_0000 <= v * to <= 0x7FFF_FFFF_FFFF_FFFF
  {
    MulAbs(v, to);
    MulBound(Abs(v), Abs(to), 0x8000_0000);
  }

  lemma MulBound(a: nat, b: nat, m: nat)
    requires a <= m && b <= m
    ensures a * b <= m * m
  {
    assert a * b <= a * m;
    assert a * m <= m * m;
  }

  /** Skipping the division when the scales agree is only a shortcut: for
      any non-zero parent scale the formula gives the same answer. */
  lemma RescaleIsFormula(v: i32, from: i32, to: i32)
    requires from != 0
    ensures Rescale(v, from, to) == Returned(AsI32(DivTrunc(v * to, from)))
  {
    if from == to {
      assert v * to == v * from;
      DivTruncExact(v, from);
    }
  }

  /** A child scale that is a whole multiple `k` of the parent's multiplies
      the distance by `k` (modulo the 32-bit cut). */
  lemma RescaleByMultiple(v: i32, from: i32, k: int)
    requires from != 0 && I32_MIN <= k * from <= I32_MAX
    ensures Rescale(v, from, k * from) == Returned(AsI32(v * k))
  {
    RescaleIsFormula(v, from, k * from);
    assert v * (k * from) == (v * k) * from;
    DivTruncExact(v * k, from);
  }

  /** Shrinking never overflows: when the child's scale is no larger in
      magnitude than the parent's, the truncated quotient is no larger in
      magnitude than the distance, and it is the result unless the distance
      is `i32::MIN` turned positive. */
  lemma RescaleDown(v: i32, from: i32, to: i32)
    requires from != 0 && Abs(to) <= Abs(from)
    ensures Abs(DivTrunc(v * to, from)) <= Abs(v)
    ensures v != I32_MIN ==> Rescale(v, from, to) == Returned(DivTrunc(v * to, from))
  {
    RescaleIsFormula(v, from, to);
    DivTruncAbs(v * to, from);
    MulAbs(v, to);
    MulMono(Abs(to), Abs(from), Abs(v));
    DivMonotone(Abs(v) * Abs(to), Abs(v) * Abs(from), Abs(from));
    MulDivExact(Abs(v), Abs(from));
  }

  /** The magnitude of a truncated quotient is the quotient of the
      magnitudes. */
  lemma DivTruncAbs(a: int, b: int)
    requires b != 0
    ensures Abs(DivTrunc(a, b)) == Abs(a) / Abs(b)
  {
    var q0 := Abs(a) / Abs(b);
    var q := DivTrunc(a, b);
    assert q == q0 || q == -q0;
    assert q0 >= 0;
  }

  lemma MulMono(x: nat, y: nat, b: nat)
    requires x <= y
    ensures b * x <= b * y
  {
    assert b * y - b * x == b * (y - x);
  }

  lemma DivMonotone(a: nat, c: nat, b: nat)
    requires a <= c && b > 0
    ensures a / b <= c / b
  {
    DivModFacts(a, b);
    DivModFacts(c, b);
    var qa, qc := a / b, c / b;
    assert (qc + 1) * b == qc * b + b;
    MulMonoInt(qc + 1, qa, b);
  }

  lemma MulMonoInt(x: int, y: int, b: nat)
    ensures x <= y ==> x * b <= y * b
  {
    assert y * b - x * b == (y - x) * b;
  }

  // ---- the engine's answers ----

  /** How every Option getter reads the engine's answer: the out-parameter
      only counts when the result flag is 1. */
  function FromFlag<T>(flag: int, out: T): (r: Option<T>)
    ensures r.Some? <==> flag == 1
    ensures r.Some? ==> r.value == out
  {
    if flag == 1 then Some(out) else None
  }

  /** The size of the buffer `get_glyph_name` hands to the engine. */
  const NAME_BUFFER_SIZE: nat := 256

  /** The name buffer after the engine answered with `name`: a zeroed buffer
      of `size` bytes that received the name, cut to `size - 1` bytes, and
      its NUL terminator (`hb_font_get_glyph_name` truncates this way). */
  function NameBuffer(name: seq<u8>, size: nat): (mem: seq<u8>)
    requires size >= 1
    ensures |mem| == size && 0 in mem
    ensures |name| < size ==> mem == name + [0] + mem[|name| + 1..]
  {
    var kept := if |name| < size then name else name[..size - 1];
    assert (kept + [0])[|kept|] == 0;
    kept + [0] + seq(size - |kept| - 1, _ => 0)
  }

  /** Reading a glyph name back out of the buffer: the bytes before the
      first NUL, when they are well-formed UTF-8 (`CStr::to_str`). */
  function NameFromBuffer(mem: seq<u8>): (r: Option<seq<u8>>)
    requires 0 in mem
    ensures r.Some? <==> WellFormed(CStrBytes(mem))
    ensures r.Some? ==> r.value == CStrBytes(mem) && 0 !in r.value
  {
    FromUtf8(CStrBytes(mem))
  }

  /** A name the engine reports in full (shorter than the buffer, without a
      NUL, well-formed) is read back exactly. */
  lemma NameRoundTrip(name: seq<u8>)
    requires |name| < NAME_BUFFER_SIZE && 0 !in name && WellFormed(name)
    ensures NameFromBuffer(NameBuffer(name, NAME_BUFFER_SIZE)) == Some(name)
  {
    var mem := NameBuffer(name, NAME_BUFFER_SIZE);
    CStrBytesOfTerminated(name, mem[|name| + 1..]);
  }

  /** A name with a NUL inside reads back as its part before the NUL. */
  lemma NameCutAtNul(name: seq<u8>, i: nat)
    requires i < |name| < NAME_BUFFER_SIZE && name[i] == 0 && 0 !in name[..i]
    ensures CStrBytes(NameBuffer(name, NAME_BUFFER_SIZE)) == name[..i]
  {
    var mem := NameBuffer(name, NAME_BUFFER_SIZE);
    assert mem == name[..i] + [0] + mem[i + 1..] by {
      assert mem[..|name|] == name;
      assert mem[..i] == name[..i];
    }
    CStrBytesOfTerminated(name[..i], mem[i + 1..]);
  }

  // ---- fonts ----

  /** `Font`: engine font `raw` of `engine`. */
  datatype Font = Font(engine: Engine, raw: Handle)
  {
    ghost predicate Valid()
      reads engine
    {
      engine.Valid() && raw in engine.objects.fonts
    }

    function State(): FontState
      reads engine
      requires raw in engine.objects.fonts
    {
      engine.objects.fonts[raw]
    }

    /** `Font::scale`: the x and y scales the engine holds for the font. */
    function Scale(): (r: (i32, i32))
      reads engine
      requires raw in engine.objects.fonts
      ensures r.0 == engine.objects.fonts[raw].xScale && r.1 == engine.objects.fonts[raw].yScale
    {
      (State().xScale, State().yScale)
    }

    /** `Font::ppem`: the x and y ppem the engine holds for the font. */
    function Ppem(): (r: (u32, u32))
      reads engine
      requires raw in engine.objects.fonts
      ensures r.0 == engine.objects.fonts[raw].xPpem && r.1 == engine.objects.fonts[raw].yPpem
    {
      (State().xPpem, State().yPpem)
    }

    /** `hb_font_get_parent`: NULL exactly for the empty font; any other
        font's parent is an older font. */
    function ParentRaw(): (p: Handle)
      reads engine
      requires Valid()
      ensures p == NULL <==> raw == engine.emptyFont
      ensures p != NULL ==> p in engine.objects.fonts && p < raw
    {
      State().parent
    }

    /** The parent font, for the empty font itself. */
    function ParentFont(): (p: Font)
      reads engine
      requires Valid()
      ensures raw != engine.emptyFont ==> p.Valid()
    {
      Font(engine, if raw == engine.emptyFont then raw else ParentRaw())
    }

    /** `Font::new`: a font on `face` below the empty font, at the face's
        units per em, with the engine's OpenType font functions (the
        built-in table). The `Shared` face is consumed: the font's own
        reference replaces it, so the face's count is unchanged. */
    static method New(face: Shared) returns (o: Owned)
      requires face.engine.Valid() && face.Live() && face.handle in face.engine.objects.faces
      modifies face.engine
      ensures fresh(o) && o.engine == face.engine && o.Live() && !face.Live() && face.engine.Valid()
      ensures face.engine.objects == WithFont(old(face.engine.objects), face.engine.emptyFont, face.handle, o.handle)
      ensures o.handle !in old(face.engine.counts.refcount)
      ensures face.engine.counts == old(face.engine.counts).Referenced(face.handle).Created(o.handle)
                                      .Released(face.handle, face).Destroyed(face.handle).AdoptedExclusively(o.handle, o)
    {
      var h := FontConsuming(face);
      o := new Owned.FromRaw(face.engine, h);
    }

    /** The engine half of `New`: the new font, with the face's wrapper
        dropped and the font's one reference not yet wrapped. */
    static method FontConsuming(face: Shared) returns (h: Handle)
      requires face.engine.Valid() && face.Live() && face.handle in face.engine.objects.faces
      modifies face.engine
      ensures !face.Live() && face.engine.Valid()
      ensures h !in old(face.engine.counts.refcount)
      ensures h in face.engine.counts.refcount && face.engine.counts.holders[h] == {} && face.engine.counts.loose[h] >= 1
      ensures face.engine.objects == WithFont(old(face.engine.objects), face.engine.emptyFont, face.handle, h)
      ensures face.engine.counts == old(face.engine.counts).Referenced(face.handle).Created(h).Released(face.handle, face).Destroyed(face.handle)
    {
      var e := face.engine;
      HeldAlive(e.counts, face.handle, face);
      h := e.FontCreate(face.handle);
      assert face.Live();
      face.Drop();
    }

    /** `Font::empty`: an owning wrapper over the engine's empty font. */
    static method Empty(e: Engine) returns (o: Owned)
      requires e.Valid() && e.counts.holders[e.emptyFont] == {}
      modifies e
      ensures fresh(o) && o.engine == e && o.handle == e.emptyFont && o.Live() && e.Valid()
      ensures e.objects == old(e.objects)
      ensures e.counts == old(e.counts).Referenced(o.handle).AdoptedExclusively(o.handle, o)
      ensures e.counts.refcount[o.handle] == old(e.counts.refcount[e.emptyFont]) + 1
    {
      var h := e.FontGetEmpty();
      o := new Owned.FromRaw(e, h);
    }

    /** `Font::create_sub_font`: a font whose parent is `parent`, with the
        parent's face, scale and ppem and no font functions of its own (the
        engine then asks the parent). The `Shared` parent is consumed: the
        new font's reference replaces it. */
    static method CreateSubFont(parent: Shared) returns (o: Owned)
      requires parent.engine.Valid() && parent.Live() && parent.handle in parent.engine.objects.fonts
      modifies parent.engine
      ensures fresh(o) && o.engine == parent.engine && o.Live() && !parent.Live() && parent.engine.Valid()
      ensures parent.engine.objects == WithSubFont(old(parent.engine.objects), parent.handle, o.handle)
      ensures o.handle !in old(parent.engine.counts.refcount)
      ensures parent.engine.counts == old(parent.engine.counts).Referenced(parent.handle).Referenced(old(parent.engine.objects.fonts)[parent.handle].face)
                                        .Created(o.handle).Released(parent.handle, parent).Destroyed(parent.handle).AdoptedExclusively(o.handle, o)
    {
      var h := SubFontConsuming(parent);
      o := new Owned.FromRaw(parent.engine, h);
    }

    /** The engine half of `CreateSubFont`: the new font, with the parent's
        wrapper dropped and the font's one reference not yet wrapped. */
    static method SubFontConsuming(parent: Shared) returns (h: Handle)
      requires parent.engine.Valid() && parent.Live() && parent.handle in parent.engine.objects.fonts
      modifies parent.engine
      ensures !parent.Live() && parent.engine.Valid()
      ensures h !in old(parent.engine.counts.refcount)
      ensures h in parent.engine.counts.refcount && parent.engine.counts.holders[h] == {} && parent.engine.counts.loose[h] >= 1
      ensures parent.engine.objects == WithSubFont(old(parent.engine.objects), parent.handle, h)
      ensures parent.engine.counts == old(parent.engine.counts).Referenced(parent.handle).Referenced(old(parent.engine.objects.fonts)[parent.handle].face)
                                        .Created(h).Released(parent.handle, parent).Destroyed(parent.handle)
    {
      var e := parent.engine;
      HeldAlive(e.counts, parent.handle, parent);
      h := e.FontCreateSubFont(parent.handle);
      assert parent.Live();
      parent.Drop();
    }

    /** `Font::parent`: `None` for the empty font; otherwise a new `Shared`
        wrapper over the parent, holding a reference of its own. */
    method Parent() returns (p: Option<Shared>)
      requires Valid()
      requires raw != engine.emptyFont ==> engine.Alive(ParentRaw()) && ParentRaw() !in engine.counts.exclusive
      modifies engine
      ensures p.None? <==> raw == engine.emptyFont
      ensures p.None? ==> engine.counts == old(engine.counts)
      ensures p.Some? ==> fresh(p.value) && p.value.engine == engine && p.value.handle == old(ParentRaw()) && p.value.Live()
      ensures p.Some? ==> engine.counts == old(engine.counts).Referenced(p.value.handle).Adopted(p.value.handle, p.value)
      ensures engine.objects == old(engine.objects) && engine.Valid()
    {
      var parent := ParentRaw();
      if parent == NULL {
        p := None;
      } else {
        var s := new Shared.FromRawRef(engine, parent);
        p := Some(s);
      }
    }

    /** `Font::face`: a new `Shared` wrapper over the font's face, holding a
        reference of its own. */
    method Face() returns (s: Shared)
      requires Valid() && engine.Alive(State().face) && State().face !in engine.counts.exclusive
      modifies engine
      ensures fresh(s) && s.engine == engine && s.handle == old(State().face) && s.Live()
      ensures engine.counts == old(engine.counts).Referenced(s.handle).Adopted(s.handle, s)
      ensures engine.objects == old(engine.objects) && engine.Valid()
    {
      s := new Shared.FromRawRef(engine, State().face);
    }

    /** `Font::set_scale`; the immutable empty font ignores it. */
    method SetScale(x: i32, y: i32)
      requires Valid()
      modifies engine
      ensures Valid() && engine.counts == old(engine.counts)
      ensures raw == engine.emptyFont ==> engine.objects == old(engine.objects)
      ensures raw != engine.emptyFont ==>
                engine.objects == old(engine.objects).(fonts := old(engine.objects.fonts)[raw := old(State()).(xScale := x, yScale := y)])
      ensures raw != engine.emptyFont ==> Scale() == (x, y) && Ppem() == old(Ppem())
    {
      if raw != engine.emptyFont {
        engine.SetFont(raw, State().(xScale := x, yScale := y));
      }
    }

    /** `Font::set_ppem`; the immutable empty font ignores it. */
    method SetPpem(x: u32, y: u32)
      requires Valid()
      modifies engine
      ensures Valid() && engine.counts == old(engine.counts)
      ensures raw == engine.emptyFont ==> engine.objects == old(engine.objects)
      ensures raw != engine.emptyFont ==>
                engine.objects == old(engine.objects).(fonts := old(engine.objects.fonts)[raw := old(State()).(xPpem := x, yPpem := y)])
      ensures raw != engine.emptyFont ==> Ppem() == (x, y) && Scale() == old(Scale())
    {
      if raw != engine.emptyFont {
        engine.SetFont(raw, State().(xPpem := x, yPpem := y));
      }
    }

    /** `Font::parent_scale_x_distance`: 0 without a parent; otherwise what
        `f` measures on the parent, brought from the parent's x scale to
        this font's. */
    function ParentScaleXDistance(f: Font -> i32): (r: Unwind<i32>)
      reads engine
      requires Valid()
      ensures raw == engine.emptyFont ==> r == Returned(0)
      ensures raw != engine.emptyFont && ParentFont().Scale().0 == Scale().0 ==> r == Returned(f(ParentFont()))
      ensures r.Panicked? <==> raw != engine.emptyFont && ParentFont().Scale().0 == 0 && Scale().0 != 0
      ensures raw != engine.emptyFont && ParentFont().Scale().0 != 0 ==>
                r == Returned(AsI32(DivTrunc(f(ParentFont()) * Scale().0, ParentFont().Scale().0)))
    {
      var xScale := Scale().0;
      if ParentRaw() == NULL then Returned(0)
      else
        var parent := ParentFont();
        var r := Rescale(f(parent), parent.Scale().0, xScale);
        if parent.Scale().0 != 0 then
          RescaleIsFormula(f(parent), parent.Scale().0, xScale);
          r
        else r
    }

    /** `Font::parent_scale_y_distance` as written: it reads the x scales
        of both fonts, so it is the x distance. */
    function ParentScaleYDistanceAsWritten(f: Font -> i32): (r: Unwind<i32>)
      reads engine
      requires Valid()
      ensures r == ParentScaleXDistance(f)
    {
      var yScale := Scale().0;
      if ParentRaw() == NULL then Returned(0)
      else
        var parent := ParentFont();
        Rescale(f(parent), parent.Scale().0, yScale)
    }

    /** `Font::parent_scale_y_distance` as intended: what `f` measures on
        the parent, brought from the parent's y scale to this font's; 0
        without a parent. */
    function ParentScaleYDistance(f: Font -> i32): (r: Unwind<i32>)
      reads engine
      requires Valid()
      ensures raw == engine.emptyFont ==> r == Returned(0)
      ensures raw != engine.emptyFont && ParentFont().Scale().1 == Scale().1 ==> r == Returned(f(ParentFont()))
      ensures r.Panicked? <==> raw != engine.emptyFont && ParentFont().Scale().1 == 0 && Scale().1 != 0
      ensures raw != engine.emptyFont && ParentFont().Scale().1 != 0 ==>
                r == Returned(AsI32(DivTrunc(f(ParentFont()) * Scale().1, ParentFont().Scale().1)))
    {
      var yScale := Scale().1;
      if ParentRaw() == NULL then Returned(0)
      else
        var parent := ParentFont();
        var r := Rescale(f(parent), parent.Scale().1, yScale);
        if parent.Scale().1 != 0 then
          RescaleIsFormula(f(parent), parent.Scale().1, yScale);
          r
        else r
    }

    /** `Font::parent_scale_position`: the first coordinate through the x
        helper, the second through the y helper as written, so both are
        brought over by the x scales; a panic in either is the call's
        panic. */
    function ParentScalePosition(v: (i32, i32)): (r: Unwind<(i32, i32)>)
      reads engine
      requires Valid()
      ensures r.Returned? <==> ParentScaleXDistance(_ => v.0).Returned?
      ensures r.Returned? ==> r.value == (ParentScaleXDistance(_ => v.0).value, ParentScaleXDistance(_ => v.1).value)
      ensures raw == engine.emptyFont ==> r == Returned((0, 0))
      ensures raw != engine.emptyFont && ParentFont().Scale().0 == Scale().0 ==> r == Returned(v)
    {
      var x := ParentScaleXDistance(_ => v.0);
      var y := ParentScaleYDistanceAsWritten(_ => v.1);
      if x.Panicked? || y.Panicked? then Panicked else Returned((x.value, y.value))
    }

    // ---- the getters ----

    /** `Font::get_font_h_extents`. */
    function GetFontHExtents(): (r: Option<FontExtents>)
      ensures r.Some? <==> engine.queries.hExtents(raw).0 == 1
      ensures r.Some? ==> r.value == engine.queries.hExtents(raw).1
    {
      var (flag, extents) := engine.queries.hExtents(raw);
      FromFlag(flag, extents)
    }

    /** `Font::get_font_v_extents`. */
    function GetFontVExtents(): (r: Option<FontExtents>)
      ensures r.Some? <==> engine.queries.vExtents(raw).0 == 1
      ensures r.Some? ==> r.value == engine.queries.vExtents(raw).1
    {
      var (flag, extents) := engine.queries.vExtents(raw);
      FromFlag(flag, extents)
    }

    /** `Font::get_nominal_glyph`: the engine sees the character's scalar
        value. */
    function GetNominalGlyph(c: char): (r: Option<u32>)
      ensures r.Some? <==> engine.queries.nominalGlyph(raw, c as int).0 == 1
      ensures r.Some? ==> r.value == engine.queries.nominalGlyph(raw, c as int).1
    {
      var (flag, glyph) := engine.queries.nominalGlyph(raw, c as int);
      FromFlag(flag, glyph)
    }

    /** `Font::get_variation_glyph`. */
    function GetVariationGlyph(c: char, v: char): (r: Option<u32>)
      ensures r.Some? <==> engine.queries.variationGlyph(raw, c as int, v as int).0 == 1
      ensures r.Some? ==> r.value == engine.queries.variationGlyph(raw, c as int, v as int).1
    {
      var (flag, glyph) := engine.queries.variationGlyph(raw, c as int, v as int);
      FromFlag(flag, glyph)
    }

    /** `Font::get_glyph_h_advance`: the engine's answer as it is; an
        advance needs no success flag. */
    function GetGlyphHAdvance(glyph: u32): (r: i32)
      ensures r == engine.queries.hAdvance(raw, glyph)
    {
      engine.queries.hAdvance(raw, glyph)
    }

    /** `Font::get_glyph_v_advance`: the engine's answer as it is; an
        advance needs no success flag. */
    function GetGlyphVAdvance(glyph: u32): (r: i32)
      ensures r == engine.queries.vAdvance(raw, glyph)
    {
      engine.queries.vAdvance(raw, glyph)
    }

    /** `hb_font_get_glyph_h_kerning`, which the trait's default kerning
        method asks the parent for. */
    function GetGlyphHKerning(left: u32, right: u32): i32
    {
      engine.queries.hKerning(raw, left, right)
    }

    /** `hb_font_get_glyph_v_kerning`. */
    function GetGlyphVKerning(before: u32, after: u32): i32
    {
      engine.queries.vKerning(raw, before, after)
    }

    /** `Font::get_glyph_h_origin`. */
    function GetGlyphHOrigin(glyph: u32): (r: Option<(i32, i32)>)
      ensures r.Some? <==> engine.queries.hOrigin(raw, glyph).0 == 1
      ensures r.Some? ==> r.value == (engine.queries.hOrigin(raw, glyph).1, engine.queries.hOrigin(raw, glyph).2)
    {
      var (flag, x, y) := engine.queries.hOrigin(raw, glyph);
      FromFlag(flag, (x, y))
    }

    /** `Font::get_glyph_v_origin`. */
    function GetGlyphVOrigin(glyph: u32): (r: Option<(i32, i32)>)
      ensures r.Some? <==> engine.queries.vOrigin(raw, glyph).0 == 1
      ensures r.Some? ==> r.value == (engine.queries.vOrigin(raw, glyph).1, engine.queries.vOrigin(raw, glyph).2)
    {
      var (flag, x, y) := engine.queries.vOrigin(raw, glyph);
      FromFlag(flag, (x, y))
    }

    /** `Font::get_glyph_extents`. */
    function GetGlyphExtents(glyph: u32): (r: Option<GlyphExtents>)
      ensures r.Some? <==> engine.queries.extents(raw, glyph).0 == 1
      ensures r.Some? ==> r.value == engine.queries.extents(raw, glyph).1
    {
      var (flag, extents) := engine.queries.extents(raw, glyph);
      FromFlag(flag, extents)
    }

    /** `Font::get_glyph_contour_point`. */
    function GetGlyphContourPoint(glyph: u32, point: u32): (r: Option<(i32, i32)>)
      ensures r.Some? <==> engine.queries.contourPoint(raw, glyph, point).0 == 1
      ensures r.Some? ==> r.value == (engine.queries.contourPoint(raw, glyph, point).1, engine.queries.contourPoint(raw, glyph, point).2)
    {
      var (flag, x, y) := engine.queries.contourPoint(raw, glyph, point);
      FromFlag(flag, (x, y))
    }

    /** `Font::get_glyph_name`: the engine writes into a 256-byte buffer;
        the name is the bytes before the first NUL, when the engine reports
        success and they are well-formed UTF-8. */
    function GetGlyphName(glyph: u32): (r: Option<seq<u8>>)
      ensures engine.queries.glyphName(raw, glyph, NAME_BUFFER_SIZE).0 != 1 ==> r.None?
      ensures r.Some? ==> 0 !in r.value && |r.value| < NAME_BUFFER_SIZE && WellFormed(r.value)
      ensures var name := engine.queries.glyphName(raw, glyph, NAME_BUFFER_SIZE).1;
              engine.queries.glyphName(raw, glyph, NAME_BUFFER_SIZE).0 == 1 && |name| < NAME_BUFFER_SIZE && 0 !in name && WellFormed(name)
              ==> r == Some(name)
    {
      var (flag, name) := engine.queries.glyphName(raw, glyph, NAME_BUFFER_SIZE);
      if flag == 1 then
        var mem := NameBuffer(name, NAME_BUFFER_SIZE);
        if |name| < NAME_BUFFER_SIZE && 0 !in name && WellFormed(name) then
          NameRoundTrip(name);
          NameFromBuffer(mem)
        else
          NameFromBuffer(mem)
      else None
    }

    /** `Font::get_glyph_from_name`: the engine sees the name's bytes and
        its length as an `i32`. */
    function GetGlyphFromName(name: seq<u8>): (r: Option<u32>)
      ensures r.Some? <==> engine.queries.glyphFromName(raw, name, AsI32(|name|)).0 == 1
      ensures r.Some? ==> r.value == engine.queries.glyphFromName(raw, name, AsI32(|name|)).1
    {
      var (flag, glyph) := engine.queries.glyphFromName(raw, name, AsI32(|name|));
      FromFlag(flag, glyph)
    }
  }

  /** Reading the y distance as written, a font whose y scale differs from
      its x scale is rescaled by the x scales: at x scale 2000 and y scale
      1000 below a parent at 1000 by 1000, a vertical distance of 10 comes
      out as 20 where 10 is meant. */
  lemma YDistanceAsWrittenUsesXScale(font: Font)
    requires font.Valid() && font.raw != font.engine.emptyFont
    requires font.Scale() == (2000, 1000) && font.ParentFont().Scale() == (1000, 1000)
    ensures font.ParentScaleYDistanceAsWritten(_ => 10) == Returned(20)
    ensures font.ParentScaleYDistance(_ => 10) == Returned(10)
  {
    assert 10 * 2000 == 20 * 1000;
    DivTruncExact(20, 1000);
  }
}
