/** Font functions (`src/font_funcs.rs`): what the `FontFuncs` trait's default
    methods compute, the trampolines the engine calls (argument checks,
    result marshalling, panic isolation), and the font-funcs tables the
    binding fills. */
module FontFuncs {
  import opened Base
  import opened Utf8
  import opened Engine
  import opened Common
  import opened Font

  // ---- the trait's default methods ----

  /** Bringing a parent's distance to the font divides by zero: the parent's
      scale on that axis is 0 and the font's is not. */
  predicate XPanics(font: Font)
    reads font.engine
    requires font.Valid()
  {
    font.raw != font.engine.emptyFont && font.ParentFont().Scale().0 == 0 && font.Scale().0 != 0
  }

  /** The same on the y axis: where the intended y helper would panic. */
  predicate YPanics(font: Font)
    reads font.engine
    requires font.Valid()
  {
    font.raw != font.engine.emptyFont && font.ParentFont().Scale().1 == 0 && font.Scale().1 != 0
  }

  /** A distance reported by the parent, brought to the font's x scale. */
  function XScaled(font: Font, v: i32): Unwind<i32>
    reads font.engine
    requires font.Valid() && font.raw != font.engine.emptyFont
  {
    Rescale(v, font.ParentFont().Scale().0, font.Scale().0)
  }

  /** A distance reported by the parent, brought to the font's y scale, as
      the y helper is meant to do. */
  function YScaled(font: Font, v: i32): Unwind<i32>
    reads font.engine
    requires font.Valid() && font.raw != font.engine.emptyFont
  {
    Rescale(v, font.ParentFont().Scale().1, font.Scale().1)
  }

  /** The parent-scaling helpers applied to what the closure measures on
      the parent: the x helper and the y helper as written are `XScaled`,
      the intended y helper is `YScaled`. */
  lemma ParentScaleIsScaled(font: Font, f: Font -> i32)
    requires font.Valid() && font.raw != font.engine.emptyFont
    ensures font.ParentScaleXDistance(f) == XScaled(font, f(font.ParentFont()))
    ensures font.ParentScaleYDistanceAsWritten(f) == XScaled(font, f(font.ParentFont()))
    ensures font.ParentScaleYDistance(f) == YScaled(font, f(font.ParentFont()))
    ensures XScaled(font, f(font.ParentFont())).Panicked? <==> XPanics(font)
    ensures YScaled(font, f(font.ParentFont())).Panicked? <==> YPanics(font)
  {
  }

  /** The parent's font extents as the default methods report them: the
      ascender, descender and line gap go through the y helper, which as
      written brings them over by the x scales; every other field is as the
      parent has it. */
  function ScaleFontExtents(font: Font, e: FontExtents): (r: Unwind<FontExtents>)
    reads font.engine
    requires font.Valid() && font.raw != font.engine.emptyFont
    ensures r.Panicked? <==> XPanics(font)
    ensures r.Returned? ==> r.value.reserved == e.reserved
    ensures r.Returned? ==> r.value.ascender == XScaled(font, e.ascender).value
    ensures r.Returned? ==> r.value.descender == XScaled(font, e.descender).value
    ensures r.Returned? ==> r.value.lineGap == XScaled(font, e.lineGap).value
    ensures font.ParentFont().Scale().0 == font.Scale().0 ==> r == Returned(e)
  {
    var ascender := font.ParentScaleYDistanceAsWritten(_ => e.ascender);
    var descender := font.ParentScaleYDistanceAsWritten(_ => e.descender);
    var lineGap := font.ParentScaleYDistanceAsWritten(_ => e.lineGap);
    if ascender.Panicked? || descender.Panicked? || lineGap.Panicked? then Panicked
    else Returned(e.(ascender := ascender.value, descender := descender.value, lineGap := lineGap.value))
  }

  /** The parent's glyph extents as the default method reports them: the
      x bearing and width through the x helper, the y bearing and height
      through the y helper as written, so all four by the x scales. */
  function ScaleGlyphExtents(font: Font, e: GlyphExtents): (r: Unwind<GlyphExtents>)
    reads font.engine
    requires font.Valid() && font.raw != font.engine.emptyFont
    ensures r.Panicked? <==> XPanics(font)
    ensures r.Returned? ==> r.value == GlyphExtents(XScaled(font, e.xBearing).value, XScaled(font, e.yBearing).value,
                                                    XScaled(font, e.width).value, XScaled(font, e.height).value)
    ensures font.ParentFont().Scale().0 == font.Scale().0 ==> r == Returned(e)
  {
    var xBearing := font.ParentScaleXDistance(_ => e.xBearing);
    var yBearing := font.ParentScaleYDistanceAsWritten(_ => e.yBearing);
    var width := font.ParentScaleXDistance(_ => e.width);
    var height := font.ParentScaleYDistanceAsWritten(_ => e.height);
    if xBearing.Panicked? || yBearing.Panicked? || width.Panicked? || height.Panicked? then Panicked
    else Returned(GlyphExtents(xBearing.value, yBearing.value, width.value, height.value))
  }

  /** A position the parent reports, brought to the font: x through the x
      helper, y through the y helper as written, so both by the x scales. */
  function ScalePosition(font: Font, p: (i32, i32)): (r: Unwind<(i32, i32)>)
    reads font.engine
    requires font.Valid() && font.raw != font.engine.emptyFont
    ensures r.Panicked? <==> XPanics(font)
    ensures r.Returned? ==> r.value == (XScaled(font, p.0).value, XScaled(font, p.1).value)
    ensures font.ParentFont().Scale().0 == font.Scale().0 ==> r == Returned(p)
  {
    font.ParentScalePosition(p)
  }

  /** `FontFuncs::get_font_h_extents` by default: `None` without a parent;
      otherwise the parent's horizontal extents through `ScaleFontExtents`. */
  function DefaultFontHExtents(font: Font): (r: Unwind<Option<FontExtents>>)
    reads font.engine
    requires font.Valid()
    ensures font.raw == font.engine.emptyFont ==> r == Returned(None)
    ensures font.raw != font.engine.emptyFont && font.ParentFont().GetFontHExtents().None? ==> r == Returned(None)
    ensures font.raw != font.engine.emptyFont && font.ParentFont().GetFontHExtents().Some? ==>
              (r.Panicked? <==> XPanics(font))
              && (r.Returned? ==> r.value == Some(ScaleFontExtents(font, font.ParentFont().GetFontHExtents().value).value))
  {
    if font.raw == font.engine.emptyFont then Returned(None)
    else match font.ParentFont().GetFontHExtents()
      case None => Returned(None)
      case Some(e) => var s := ScaleFontExtents(font, e); if s.Panicked? then Panicked else Returned(Some(s.value))
  }

  /** `FontFuncs::get_font_v_extents` by default: `None` without a parent;
      otherwise the parent's vertical extents through `ScaleFontExtents`. */
  function DefaultFontVExtents(font: Font): (r: Unwind<Option<FontExtents>>)
    reads font.engine
    requires font.Valid()
    ensures font.raw == font.engine.emptyFont ==> r == Returned(None)
    ensures font.raw != font.engine.emptyFont && font.ParentFont().GetFontVExtents().None? ==> r == Returned(None)
    ensures font.raw != font.engine.emptyFont && font.ParentFont().GetFontVExtents().Some? ==>
              (r.Panicked? <==> XPanics(font))
              && (r.Returned? ==> r.value == Some(ScaleFontExtents(font, font.ParentFont().GetFontVExtents().value).value))
  {
    if font.raw == font.engine.emptyFont then Returned(None)
    else match font.ParentFont().GetFontVExtents()
      case None => Returned(None)
      case Some(e) => var s := ScaleFontExtents(font, e); if s.Panicked? then Panicked else Returned(Some(s.value))
  }

  /** `FontFuncs::get_nominal_glyph` by default: the parent's glyph. */
  function DefaultNominalGlyph(font: Font, c: char): (r: Option<u32>)
    reads font.engine
    requires font.Valid()
    ensures font.raw == font.engine.emptyFont ==> r.None?
    ensures font.raw != font.engine.emptyFont ==> r == font.ParentFont().GetNominalGlyph(c)
  {
    if font.raw == font.engine.emptyFont then None else font.ParentFont().GetNominalGlyph(c)
  }

  /** `FontFuncs::get_variation_glyph` by default: the parent's glyph. */
  function DefaultVariationGlyph(font: Font, c: char, selector: char): (r: Option<u32>)
    reads font.engine
    requires font.Valid()
    ensures font.raw == font.engine.emptyFont ==> r.None?
    ensures font.raw != font.engine.emptyFont ==> r == font.ParentFont().GetVariationGlyph(c, selector)
  {
    if font.raw == font.engine.emptyFont then None else font.ParentFont().GetVariationGlyph(c, selector)
  }

  /** `FontFuncs::get_glyph_h_advance` by default: 0 without a parent,
      otherwise the parent's advance on the font's x scale. */
  function DefaultGlyphHAdvance(font: Font, glyph: u32): (r: Unwind<i32>)
    reads font.engine
    requires font.Valid()
    ensures font.raw == font.engine.emptyFont ==> r == Returned(0)
    ensures font.raw != font.engine.emptyFont ==> r == XScaled(font, font.ParentFont().GetGlyphHAdvance(glyph))
    ensures r.Panicked? <==> XPanics(font)
  {
    font.ParentScaleXDistance((parent: Font) => parent.GetGlyphHAdvance(glyph))
  }

  /** `FontFuncs::get_glyph_v_advance` by default: 0 without a parent,
      otherwise the parent's advance through the y helper as written, that
      is by the x scales. */
  function DefaultGlyphVAdvance(font: Font, glyph: u32): (r: Unwind<i32>)
    reads font.engine
    requires font.Valid()
    ensures font.raw == font.engine.emptyFont ==> r == Returned(0)
    ensures font.raw != font.engine.emptyFont ==> r == XScaled(font, font.ParentFont().GetGlyphVAdvance(glyph))
    ensures r.Panicked? <==> XPanics(font)
  {
    font.ParentScaleYDistanceAsWritten((parent: Font) => parent.GetGlyphVAdvance(glyph))
  }

  /** `FontFuncs::get_glyph_h_origin` by default: the parent's origin,
      brought to the font's scale. */
  function DefaultGlyphHOrigin(font: Font, glyph: u32): (r: Unwind<Option<(i32, i32)>>)
    reads font.engine
    requires font.Valid()
    ensures font.raw == font.engine.emptyFont ==> r == Returned(None)
    ensures font.raw != font.engine.emptyFont && font.ParentFont().GetGlyphHOrigin(glyph).None? ==> r == Returned(None)
    ensures font.raw != font.engine.emptyFont && font.ParentFont().GetGlyphHOrigin(glyph).Some? ==>
              (r.Panicked? <==> XPanics(font))
              && (r.Returned? ==> r.value == Some(ScalePosition(font, font.ParentFont().GetGlyphHOrigin(glyph).value).value))
  {
    if font.raw == font.engine.emptyFont then Returned(None)
    else match font.ParentFont().GetGlyphHOrigin(glyph)
      case None => Returned(None)
      case Some(p) => var s := ScalePosition(font, p); if s.Panicked? then Panicked else Returned(Some(s.value))
  }

  /** `FontFuncs::get_glyph_v_origin` by default: the parent's origin,
      brought to the font's scale. */
  function DefaultGlyphVOrigin(font: Font, glyph: u32): (r: Unwind<Option<(i32, i32)>>)
    reads font.engine
    requires font.Valid()
    ensures font.raw == font.engine.emptyFont ==> r == Returned(None)
    ensures font.raw != font.engine.emptyFont && font.ParentFont().GetGlyphVOrigin(glyph).None? ==> r == Returned(None)
    ensures font.raw != font.engine.emptyFont && font.ParentFont().GetGlyphVOrigin(glyph).Some? ==>
              (r.Panicked? <==> XPanics(font))
              && (r.Returned? ==> r.value == Some(ScalePosition(font, font.ParentFont().GetGlyphVOrigin(glyph).value).value))
  {
    if font.raw == font.engine.emptyFont then Returned(None)
    else match font.ParentFont().GetGlyphVOrigin(glyph)
      case None => Returned(None)
      case Some(p) => var s := ScalePosition(font, p); if s.Panicked? then Panicked else Returned(Some(s.value))
  }

  /** `FontFuncs::get_glyph_h_kerning` by default: 0 without a parent,
      otherwise the parent's kerning on the font's x scale. */
  function DefaultGlyphHKerning(font: Font, left: u32, right: u32): (r: Unwind<i32>)
    reads font.engine
    requires font.Valid()
    ensures font.raw == font.engine.emptyFont ==> r == Returned(0)
    ensures font.raw != font.engine.emptyFont ==> r == XScaled(font, font.ParentFont().GetGlyphHKerning(left, right))
    ensures r.Panicked? <==> XPanics(font)
  {
    font.ParentScaleXDistance((parent: Font) => parent.GetGlyphHKerning(left, right))
  }

  /** `FontFuncs::get_glyph_v_kerning` by default: 0 without a parent,
      otherwise the parent's kerning through the y helper as written, that
      is by the x scales. */
  function DefaultGlyphVKerning(font: Font, before: u32, after: u32): (r: Unwind<i32>)
    reads font.engine
    requires font.Valid()
    ensures font.raw == font.engine.emptyFont ==> r == Returned(0)
    ensures font.raw != font.engine.emptyFont ==> r == XScaled(font, font.ParentFont().GetGlyphVKerning(before, after))
    ensures r.Panicked? <==> XPanics(font)
  {
    font.ParentScaleYDistanceAsWritten((parent: Font) => parent.GetGlyphVKerning(before, after))
  }

  /** `FontFuncs::get_glyph_extents` by default: the parent's extents
      through `ScaleGlyphExtents`. */
  function DefaultGlyphExtents(font: Font, glyph: u32): (r: Unwind<Option<GlyphExtents>>)
    reads font.engine
    requires font.Valid()
    ensures font.raw == font.engine.emptyFont ==> r == Returned(None)
    ensures font.raw != font.engine.emptyFont && font.ParentFont().GetGlyphExtents(glyph).None? ==> r == Returned(None)
    ensures font.raw != font.engine.emptyFont && font.ParentFont().GetGlyphExtents(glyph).Some? ==>
              (r.Panicked? <==> XPanics(font))
              && (r.Returned? ==> r.value == Some(ScaleGlyphExtents(font, font.ParentFont().GetGlyphExtents(glyph).value).value))
  {
    if font.raw == font.engine.emptyFont then Returned(None)
    else match font.ParentFont().GetGlyphExtents(glyph)
      case None => Returned(None)
      case Some(e) => var s := ScaleGlyphExtents(font, e); if s.Panicked? then Panicked else Returned(Some(s.value))
  }

  /** `FontFuncs::get_glyph_contour_point` by default: the parent's point,
      brought to the font's scale. */
  function DefaultGlyphContourPoint(font: Font, glyph: u32, point: u32): (r: Unwind<Option<(i32, i32)>>)
    reads font.engine
    requires font.Valid()
    ensures font.raw == font.engine.emptyFont ==> r == Returned(None)
    ensures font.raw != font.engine.emptyFont && font.ParentFont().GetGlyphContourPoint(glyph, point).None? ==> r == Returned(None)
    ensures font.raw != font.engine.emptyFont && font.ParentFont().GetGlyphContourPoint(glyph, point).Some? ==>
              (r.Panicked? <==> XPanics(font))
              && (r.Returned? ==> r.value == Some(ScalePosition(font, font.ParentFont().GetGlyphContourPoint(glyph, point).value).value))
  {
    if font.raw == font.engine.emptyFont then Returned(None)
    else match font.ParentFont().GetGlyphContourPoint(glyph, point)
      case None => Returned(None)
      case Some(p) => var s := ScalePosition(font, p); if s.Panicked? then Panicked else Returned(Some(s.value))
  }

  /** `FontFuncs::get_glyph_name` by default: the parent's name. */
  function DefaultGlyphName(font: Font, glyph: u32): (r: Option<seq<u8>>)
    reads font.engine
    requires font.Valid()
    ensures font.raw == font.engine.emptyFont ==> r.None?
    ensures font.raw != font.engine.emptyFont ==> r == font.ParentFont().GetGlyphName(glyph)
  {
    if font.raw == font.engine.emptyFont then None else font.ParentFont().GetGlyphName(glyph)
  }

  /** `FontFuncs::get_glyph_from_name` by default: the parent's glyph. */
  function DefaultGlyphFromName(font: Font, name: seq<u8>): (r: Option<u32>)
    reads font.engine
    requires font.Valid()
    ensures font.raw == font.engine.emptyFont ==> r.None?
    ensures font.raw != font.engine.emptyFont ==> r == font.ParentFont().GetGlyphFromName(name)
  {
    if font.raw == font.engine.emptyFont then None else font.ParentFont().GetGlyphFromName(name)
  }

  /** A sub-font at its parent's scale reports, by default, exactly what its
      parent reports. */
  lemma DefaultsAtParentScale(font: Font, glyph: u32)
    requires font.Valid() && font.raw != font.engine.emptyFont
    requires font.ParentFont().Scale() == font.Scale()
    ensures DefaultFontHExtents(font) == Returned(font.ParentFont().GetFontHExtents())
    ensures DefaultFontVExtents(font) == Returned(font.ParentFont().GetFontVExtents())
    ensures DefaultGlyphHAdvance(font, glyph) == Returned(font.ParentFont().GetGlyphHAdvance(glyph))
    ensures DefaultGlyphVAdvance(font, glyph) == Returned(font.ParentFont().GetGlyphVAdvance(glyph))
  {
  }

  /** The same for the positions and glyph extents. */
  lemma DefaultPositionsAtParentScale(font: Font, glyph: u32, point: u32)
    requires font.Valid() && font.raw != font.engine.emptyFont
    requires font.ParentFont().Scale() == font.Scale()
    ensures DefaultGlyphHOrigin(font, glyph) == Returned(font.ParentFont().GetGlyphHOrigin(glyph))
    ensures DefaultGlyphVOrigin(font, glyph) == Returned(font.ParentFont().GetGlyphVOrigin(glyph))
    ensures DefaultGlyphExtents(font, glyph) == Returned(font.ParentFont().GetGlyphExtents(glyph))
    ensures DefaultGlyphContourPoint(font, glyph, point) == Returned(font.ParentFont().GetGlyphContourPoint(glyph, point))
  {
  }

  /** At twice its parent's scale on both axes, a sub-font's default
      advances, origins and glyph extents are twice the parent's (modulo the
      32-bit cut). */
  lemma DefaultsAtDoubleScale(font: Font, glyph: u32)
    requires font.Valid() && font.raw != font.engine.emptyFont
    requires var (px, py) := font.ParentFont().Scale(); px != 0 && py != 0 && font.Scale() == (2 * px, 2 * py)
    ensures DefaultGlyphHAdvance(font, glyph) == Returned(AsI32(font.ParentFont().GetGlyphHAdvance(glyph) * 2))
    ensures DefaultGlyphVAdvance(font, glyph) == Returned(AsI32(font.ParentFont().GetGlyphVAdvance(glyph) * 2))
    ensures font.ParentFont().GetGlyphHOrigin(glyph).Some? ==>
              var (x, y) := font.ParentFont().GetGlyphHOrigin(glyph).value;
              DefaultGlyphHOrigin(font, glyph) == Returned(Some((AsI32(x * 2), AsI32(y * 2))))
  {
    var (px, py) := font.ParentFont().Scale();
    RescaleByMultiple(font.ParentFont().GetGlyphHAdvance(glyph), px, 2);
    RescaleByMultiple(font.ParentFont().GetGlyphVAdvance(glyph), px, 2);
    if font.ParentFont().GetGlyphHOrigin(glyph).Some? {
      var (x, y) := font.ParentFont().GetGlyphHOrigin(glyph).value;
      RescaleByMultiple(x, px, 2);
      RescaleByMultiple(y, px, 2);
    }
  }

  /** The default vertical advance as written against the intended one.
      At x scale 2000 and y scale 1000 below a parent at 1000 by 1000, a
      parent advance of 10 comes out as 20 where 10 is meant; below a
      parent at 0 by 1000 it panics (the trampoline then answers 0) where
      the intended helper would give the parent's 10. */
  lemma DefaultGlyphVAdvanceUsesXScale(font: Font, glyph: u32)
    requires font.Valid() && font.raw != font.engine.emptyFont
    requires font.ParentFont().GetGlyphVAdvance(glyph) == 10
    ensures font.Scale() == (2000, 1000) && font.ParentFont().Scale() == (1000, 1000) ==>
              DefaultGlyphVAdvance(font, glyph) == Returned(20)
              && font.ParentScaleYDistance((parent: Font) => parent.GetGlyphVAdvance(glyph)) == Returned(10)
    ensures font.Scale() == (1000, 1000) && font.ParentFont().Scale() == (0, 1000) ==>
              DefaultGlyphVAdvance(font, glyph).Panicked?
              && PositionTrampoline(DefaultGlyphVAdvance(font, glyph)) == 0
              && font.ParentScaleYDistance((parent: Font) => parent.GetGlyphVAdvance(glyph)) == Returned(10)
  {
    if font.Scale() == (2000, 1000) && font.ParentFont().Scale() == (1000, 1000) {
      assert 10 * 2000 == 20 * 1000;
      DivTruncExact(20, 1000);
    }
  }

  // ---- the trampolines (`hb_callback!`) ----

  /** What a trampoline hands back for a closure answer of type `Option`:
      on `Some` the value goes to the out-parameter and the result is 1; on
      `None`, or when the closure panicked (the panic is caught and the
      default 0 returned), the out-parameter keeps `out` and the result is 0. */
  function OptionTrampoline<T>(answer: Unwind<Option<T>>, out: T): (r: (int, T))
    ensures r.0 == 1 <==> answer.Returned? && answer.value.Some?
    ensures r.0 != 1 ==> r == (0, out)
    ensures r.0 == 1 ==> r.1 == answer.value.value
  {
    match answer
    case Returned(Some(v)) => (1, v)
    case _ => (0, out)
  }

  /** What a trampoline hands back for a closure answer of type `Position`:
      the answer, or the default 0 when the closure panicked. */
  function PositionTrampoline(answer: Unwind<i32>): (r: i32)
    ensures answer.Returned? ==> r == answer.value
    ensures answer.Panicked? ==> r == 0
  {
    match answer
    case Returned(v) => v
    case Panicked => 0
  }

  /** Reading back through a trampoline: the binding's getter, seeing the
      flag and the out-parameter, recovers exactly the closure's answer, and
      a panic reads as "no answer". */
  lemma OptionTrampolineRoundTrip<T>(answer: Unwind<Option<T>>, out: T)
    ensures answer.Returned? ==> FromFlag(OptionTrampoline(answer, out).0, OptionTrampoline(answer, out).1) == answer.value
    ensures answer.Panicked? ==> FromFlag(OptionTrampoline(answer, out).0, OptionTrampoline(answer, out).1).None?
  {
  }

  /** The nominal-glyph trampoline: a code point that is not a Unicode
      scalar value is refused with 0 before the closure is called. */
  function NominalGlyphTrampoline(closure: char -> Unwind<Option<u32>>, unicode: u32, glyph: u32): (r: (int, u32))
    ensures !IsScalarValue(unicode) ==> r == (0, glyph)
    ensures IsScalarValue(unicode) ==> r == OptionTrampoline(closure(unicode as char), glyph)
  {
    match CharFromU32(unicode)
    case None => (0, glyph)
    case Some(c) => OptionTrampoline(closure(c), glyph)
  }

  /** The variation-glyph trampoline: both code points must be Unicode
      scalar values before the closure is called. */
  function VariationGlyphTrampoline(closure: (char, char) -> Unwind<Option<u32>>, unicode: u32, selector: u32, glyph: u32): (r: (int, u32))
    ensures !IsScalarValue(unicode) || !IsScalarValue(selector) ==> r == (0, glyph)
    ensures IsScalarValue(unicode) && IsScalarValue(selector) ==>
              r == OptionTrampoline(closure(unicode as char, selector as char), glyph)
  {
    match CharFromU32(unicode)
    case None => (0, glyph)
    case Some(c) =>
      match CharFromU32(selector)
      case None => (0, glyph)
      case Some(v) => OptionTrampoline(closure(c, v), glyph)
  }

  /** A character passed to the nominal-glyph query reaches the closure
      unchanged. */
  lemma NominalGlyphOfChar(closure: char -> Unwind<Option<u32>>, c: char, glyph: u32)
    ensures NominalGlyphTrampoline(closure, c as int, glyph) == OptionTrampoline(closure(c), glyph)
  {
    CharFromU32OfChar(c);
  }

  /** The name argument of the glyph-from-name trampoline: with size -1 the
      name runs to its NUL; with a size of at least 1 it is exactly `size`
      bytes; either way it must be well-formed UTF-8. Any other size gives
      no name. */
  function NameArgument(mem: seq<u8>, size: i32): (r: Option<seq<u8>>)
    requires size == -1 ==> 0 in mem
    requires size >= 1 ==> size <= |mem|
    ensures size == -1 ==> r == FromUtf8(CStrBytes(mem))
    ensures size >= 1 ==> r == FromUtf8(mem[..size])
    ensures size != -1 && size < 1 ==> r.None?
    ensures r.Some? ==> WellFormed(r.value)
  {
    if size == -1 then FromUtf8(CStrBytes(mem))
    else if size >= 1 then FromUtf8(mem[..size])
    else None
  }

  /** The glyph-from-name trampoline: without a usable name it answers 0
      and the closure is not called. */
  function GlyphFromNameTrampoline(closure: seq<u8> -> Unwind<Option<u32>>, mem: seq<u8>, size: i32, glyph: u32): (r: (int, u32))
    requires size == -1 ==> 0 in mem
    requires size >= 1 ==> size <= |mem|
    ensures NameArgument(mem, size).None? ==> r == (0, glyph)
    ensures NameArgument(mem, size).Some? ==> r == OptionTrampoline(closure(NameArgument(mem, size).value), glyph)
  {
    match NameArgument(mem, size)
    case None => (0, glyph)
    case Some(name) => OptionTrampoline(closure(name), glyph)
  }

  /** What `Font::get_glyph_from_name` sends (the name's bytes and their
      count) arrives at the closure as the same name when it is non-empty,
      well-formed and its length fits an `i32`; an empty name never reaches
      the closure, since its size is 0. */
  lemma GlyphFromNameArgument(name: seq<u8>)
    requires WellFormed(name)
    ensures 1 <= |name| <= I32_MAX ==> NameArgument(name, AsI32(|name|)) == Some(name)
    ensures |name| == 0 ==> NameArgument(name, AsI32(|name|)).None?
  {
    if 1 <= |name| <= I32_MAX {
      assert name[..|name|] == name;
    }
  }

  // ---- the glyph-name trampoline ----

  /** The buffer after `write_all` of `bytes` through a slice over `mem`: as
      many leading bytes as fit are replaced, the rest is kept. */
  function Written(mem: seq<u8>, bytes: seq<u8>): (r: seq<u8>)
    ensures |r| == |mem|
    ensures forall i :: 0 <= i < |r| ==> r[i] == if i < |bytes| then bytes[i] else mem[i]
  {
    var n := Min(|bytes|, |mem|);
    bytes[..n] + mem[n..]
  }

  /** The glyph-name trampoline as written: the string and its NUL are
      written with `write_all` through the slice, which advances the slice;
      a name that does not fit fills the buffer, leaves the slice empty, and
      `name[0] = 0` then panics (caught, result 0), so the buffer is left
      without a NUL. A missing name or one with an interior NUL clears the
      first byte, and panics on an empty buffer. */
  function NameWriteAsWritten(answer: Unwind<Option<seq<u8>>>, mem: seq<u8>): (r: (int, seq<u8>))
    ensures |r.1| == |mem|
  {
    match answer
    case Panicked => (0, mem)
    case Returned(value) =>
      if value.Some? && 0 !in value.value then
        var bytes := value.value + [0];
        if |bytes| <= |mem| then (1, Written(mem, bytes))
        else (0, Written(mem, bytes))
      else if |mem| == 0 then (0, mem)
      else (0, mem[0 := 0])
  }

  /** A non-empty buffer too short for the name is handed back filled with
      the name's first bytes and no NUL at all. */
  lemma NameWriteAsWrittenLeavesNoNul(name: seq<u8>, mem: seq<u8>)
    requires 0 !in name && 1 <= |mem| <= |name|
    ensures NameWriteAsWritten(Returned(Some(name)), mem) == (0, name[..|mem|])
    ensures 0 !in NameWriteAsWritten(Returned(Some(name)), mem).1
  {
    var r := Written(mem, name + [0]);
    assert r == name[..|mem|] by {
      forall i | 0 <= i < |mem| ensures r[i] == name[i] {
        assert (name + [0])[i] == name[i];
      }
    }
  }

  /** The same on concrete bytes: the name "AB" in a 2-byte buffer. */
  lemma NameWriteAsWrittenExample()
    ensures NameWriteAsWritten(Returned(Some([65, 66])), [7, 7]) == (0, [65, 66])
  {
    NameWriteAsWrittenLeavesNoNul([65, 66], [7, 7]);
    assert [65, 66][..2] == [65, 66];
  }

  /** The glyph-name trampoline as intended: whenever it answers 0 after
      the closure returned, the first byte of a non-empty buffer is NUL, so
      the engine reads an empty name. */
  function NameWrite(answer: Unwind<Option<seq<u8>>>, mem: seq<u8>): (r: (int, seq<u8>))
    ensures |r.1| == |mem|
    ensures r.0 == 1 <==> answer.Returned? && answer.value.Some? && 0 !in answer.value.value && |answer.value.value| < |mem|
    ensures r.0 == 1 ==> r.1 == answer.value.value + [0] + mem[|answer.value.value| + 1..]
    ensures r.0 != 1 ==> r.0 == 0
    ensures r.0 == 0 && answer.Returned? && |mem| > 0 ==> r.1[0] == 0
    ensures answer.Panicked? ==> r == (0, mem)
  {
    match answer
    case Panicked => (0, mem)
    case Returned(value) =>
      if value.Some? && 0 !in value.value then
        var bytes := value.value + [0];
        var w := Written(mem, bytes);
        if |bytes| <= |mem| then
          assert w == bytes + mem[|bytes|..];
          (1, w)
        else if |mem| == 0 then (0, w)
        else (0, w[0 := 0])
      else if |mem| == 0 then (0, mem)
      else (0, mem[0 := 0])
  }

  /** A name that fits reads back whole from the buffer the trampoline
      fills, and a refused one reads back empty. */
  lemma NameWriteReadBack(answer: Unwind<Option<seq<u8>>>, mem: seq<u8>)
    requires answer.Returned? && |mem| > 0
    ensures 0 in NameWrite(answer, mem).1
    ensures NameWrite(answer, mem).0 == 1 ==> CStrBytes(NameWrite(answer, mem).1) == answer.value.value
    ensures NameWrite(answer, mem).0 == 0 ==> CStrBytes(NameWrite(answer, mem).1) == []
  {
    var r := NameWrite(answer, mem);
    if r.0 == 1 {
      CStrBytesOfTerminated(answer.value.value, mem[|answer.value.value| + 1..]);
    } else {
      assert r.1 == [] + [0] + r.1[1..];
      CStrBytesOfTerminated([], r.1[1..]);
    }
  }

  /** `Write::write_all` on a `&mut [u8]` over `buf`: copies `bytes` to the
      front of the buffer one at a time until either runs out, and fails
      when some bytes did not fit. */
  method WriteAll(buf: array<u8>, bytes: seq<u8>) returns (ok: bool)
    modifies buf
    ensures ok <==> |bytes| <= buf.Length
    ensures buf[..] == Written(old(buf[..]), bytes)
  {
    ghost var mem := buf[..];
    var i := 0;
    while i < |bytes| && i < buf.Length
      invariant 0 <= i <= |bytes| && i <= buf.Length
      invariant buf[..i] == bytes[..i]
      invariant forall j :: i <= j < buf.Length ==> buf[j] == mem[j]
    {
      buf[i] := bytes[i];
      i := i + 1;
      assert buf[..i] == buf[..i - 1] + [bytes[i - 1]];
    }
    ok := i == |bytes|;
    assert buf[..] == buf[..i] + buf[i..];
  }

  /** `rust_get_glyph_name_closure` over the engine's buffer `name`, as
      intended: writes the name and its NUL when they fit, and otherwise
      clears the first byte of the buffer the engine passed in. */
  method GlyphNameTrampoline(answer: Unwind<Option<seq<u8>>>, name: array<u8>) returns (r: int)
    modifies name
    ensures (r, name[..]) == NameWrite(answer, old(name[..]))
  {
    if answer.Panicked? {
      return 0;
    }
    var value := answer.value;
    if value.Some? && 0 !in value.value {
      var ok := WriteAll(name, value.value + [0]);
      if ok {
        return 1;
      }
    }
    if name.Length > 0 {
      name[0] := 0;
    }
    r := 0;
  }

  // ---- font-funcs tables (`FontFuncsImpl`) ----

  /** The trampoline each `set_*_func` installs in its slot: the two
      extents slots share one, as do the two advance, origin and kerning
      slots. */
  function SlotCallback(slot: Slot): (c: Callback)
  {
    match slot
    case FontHExtentsSlot => FontExtentsCallback
    case FontVExtentsSlot => FontExtentsCallback
    case NominalGlyphSlot => NominalGlyphCallback
    case VariationGlyphSlot => VariationGlyphCallback
    case GlyphHAdvanceSlot => AdvanceCallback
    case GlyphVAdvanceSlot => AdvanceCallback
    case GlyphHOriginSlot => OriginCallback
    case GlyphVOriginSlot => OriginCallback
    case GlyphHKerningSlot => KerningCallback
    case GlyphVKerningSlot => KerningCallback
    case GlyphExtentsSlot => GlyphExtentsCallback
    case GlyphContourPointSlot => ContourPointCallback
    case GlyphNameSlot => GlyphNameCallback
    case GlyphFromNameSlot => GlyphFromNameCallback
  }

  /** The table `set_trait_impl` fills: every one of the fourteen slots
      holds the binding's trampoline for it. */
  function TraitTable(): (t: map<Slot, Callback>)
    ensures forall slot: Slot :: slot in t ==> t[slot] == SlotCallback(slot)
  {
    map[FontHExtentsSlot := FontExtentsCallback, FontVExtentsSlot := FontExtentsCallback,
        NominalGlyphSlot := NominalGlyphCallback, VariationGlyphSlot := VariationGlyphCallback,
        GlyphHAdvanceSlot := AdvanceCallback, GlyphVAdvanceSlot := AdvanceCallback,
        GlyphHOriginSlot := OriginCallback, GlyphVOriginSlot := OriginCallback,
        GlyphHKerningSlot := KerningCallback, GlyphVKerningSlot := KerningCallback,
        GlyphExtentsSlot := GlyphExtentsCallback, GlyphContourPointSlot := ContourPointCallback,
        GlyphNameSlot := GlyphNameCallback, GlyphFromNameSlot := GlyphFromNameCallback]
  }

  /** Every slot is one of the fourteen. */
  lemma TraitTableComplete(slot: Slot)
    ensures slot in TraitTable() && TraitTable()[slot] == SlotCallback(slot)
  {
    match slot
    case FontHExtentsSlot =>
    case FontVExtentsSlot =>
    case NominalGlyphSlot =>
    case VariationGlyphSlot =>
    case GlyphHAdvanceSlot =>
    case GlyphVAdvanceSlot =>
    case GlyphHOriginSlot =>
    case GlyphVOriginSlot =>
    case GlyphHKerningSlot =>
    case GlyphVKerningSlot =>
    case GlyphExtentsSlot =>
    case GlyphContourPointSlot =>
    case GlyphNameSlot =>
    case GlyphFromNameSlot =>
  }

  /** The objects once font-funcs table `h` holds `t`. */
  function WithTable(o: Objects, h: Handle, t: map<Slot, Callback>): (r: Objects)
  {
    o.(funcs := o.funcs[h := t])
  }

  /** The objects once table `h` was created holding `t`. */
  function WithNewTable(o: Objects, h: Handle, t: map<Slot, Callback>): (r: Objects)
  {
    o.(funcs := o.funcs[h := t], next := h + 1)
  }

  /** Installing a callback in a table updates that one slot. */
  lemma CallbackOnTable(o: Objects, h: Handle, t: map<Slot, Callback>, slot: Slot, c: Callback)
    requires h in o.funcs
    ensures WithCallback(WithTable(o, h, t), h, slot, c) == WithTable(o, h, t[slot := c])
  {
  }

  /** Filling a table just created is creating it filled. */
  lemma NewTableFilled(o: Objects, h: Handle, t: map<Slot, Callback>, u: map<Slot, Callback>)
    ensures WithTable(WithNewTable(o, h, t), h, u) == WithNewTable(o, h, u)
  {
  }

  /** Installing the fourteen trampolines, in `set_trait_impl`'s order,
      leaves exactly the trait table whatever the table held before. */
  lemma {:induction false} TraitSlotsFillTable(t: map<Slot, Callback>)
    ensures t[FontHExtentsSlot := FontExtentsCallback][FontVExtentsSlot := FontExtentsCallback]
             [NominalGlyphSlot := NominalGlyphCallback][VariationGlyphSlot := VariationGlyphCallback]
             [GlyphHAdvanceSlot := AdvanceCallback][GlyphVAdvanceSlot := AdvanceCallback]
             [GlyphHOriginSlot := OriginCallback][GlyphVOriginSlot := OriginCallback]
             [GlyphHKerningSlot := KerningCallback][GlyphVKerningSlot := KerningCallback]
             [GlyphExtentsSlot := GlyphExtentsCallback][GlyphContourPointSlot := ContourPointCallback]
             [GlyphNameSlot := GlyphNameCallback][GlyphFromNameSlot := GlyphFromNameCallback]
            == TraitTable()
  {
    forall slot: Slot ensures slot in TraitTable() {
      TraitTableComplete(slot);
    }
  }

  /** The trampoline of each slot, spelled out. */
  lemma SlotCallbacks()
    ensures SlotCallback(FontHExtentsSlot) == FontExtentsCallback
    ensures SlotCallback(FontVExtentsSlot) == FontExtentsCallback
    ensures SlotCallback(NominalGlyphSlot) == NominalGlyphCallback
    ensures SlotCallback(VariationGlyphSlot) == VariationGlyphCallback
    ensures SlotCallback(GlyphHAdvanceSlot) == AdvanceCallback
    ensures SlotCallback(GlyphVAdvanceSlot) == AdvanceCallback
    ensures SlotCallback(GlyphHOriginSlot) == OriginCallback
    ensures SlotCallback(GlyphVOriginSlot) == OriginCallback
    ensures SlotCallback(GlyphHKerningSlot) == KerningCallback
    ensures SlotCallback(GlyphVKerningSlot) == KerningCallback
    ensures SlotCallback(GlyphExtentsSlot) == GlyphExtentsCallback
    ensures SlotCallback(GlyphContourPointSlot) == ContourPointCallback
    ensures SlotCallback(GlyphNameSlot) == GlyphNameCallback
    ensures SlotCallback(GlyphFromNameSlot) == GlyphFromNameCallback
  {
  }

  /** The fourteen `set_*_func` calls of `set_trait_impl`, one after the
      other, leave the trait table in place of the old one. */
  lemma TraitCallbacksFillTable(o: Objects, h: Handle)
    requires h in o.funcs
    ensures var o1 := WithCallback(o, h, FontHExtentsSlot, FontExtentsCallback);
            var o2 := WithCallback(o1, h, FontVExtentsSlot, FontExtentsCallback);
            var o3 := WithCallback(o2, h, NominalGlyphSlot, NominalGlyphCallback);
            var o4 := WithCallback(o3, h, VariationGlyphSlot, VariationGlyphCallback);
            var o5 := WithCallback(o4, h, GlyphHAdvanceSlot, AdvanceCallback);
            var o6 := WithCallback(o5, h, GlyphVAdvanceSlot, AdvanceCallback);
            var o7 := WithCallback(o6, h, GlyphHOriginSlot, OriginCallback);
            var o8 := WithCallback(o7, h, GlyphVOriginSlot, OriginCallback);
            var o9 := WithCallback(o8, h, GlyphHKerningSlot, KerningCallback);
            var o10 := WithCallback(o9, h, GlyphVKerningSlot, KerningCallback);
            var o11 := WithCallback(o10, h, GlyphExtentsSlot, GlyphExtentsCallback);
            var o12 := WithCallback(o11, h, GlyphContourPointSlot, ContourPointCallback);
            var o13 := WithCallback(o12, h, GlyphNameSlot, GlyphNameCallback);
            var o14 := WithCallback(o13, h, GlyphFromNameSlot, GlyphFromNameCallback);
            o14 == WithTable(o, h, TraitTable())
  {
    var t := o.funcs[h];
    CallbackOnTable(o, h, t, FontHExtentsSlot, FontExtentsCallback);
    t := t[FontHExtentsSlot := FontExtentsCallback];
    CallbackOnTable(o, h, t, FontVExtentsSlot, FontExtentsCallback);
    t := t[FontVExtentsSlot := FontExtentsCallback];
    CallbackOnTable(o, h, t, NominalGlyphSlot, NominalGlyphCallback);
    t := t[NominalGlyphSlot := NominalGlyphCallback];
    CallbackOnTable(o, h, t, VariationGlyphSlot, VariationGlyphCallback);
    t := t[VariationGlyphSlot := VariationGlyphCallback];
    CallbackOnTable(o, h, t, GlyphHAdvanceSlot, AdvanceCallback);
    t := t[GlyphHAdvanceSlot := AdvanceCallback];
    CallbackOnTable(o, h, t, GlyphVAdvanceSlot, AdvanceCallback);
    t := t[GlyphVAdvanceSlot := AdvanceCallback];
    CallbackOnTable(o, h, t, GlyphHOriginSlot, OriginCallback);
    t := t[GlyphHOriginSlot := OriginCallback];
    CallbackOnTable(o, h, t, GlyphVOriginSlot, OriginCallback);
    t := t[GlyphVOriginSlot := OriginCallback];
    CallbackOnTable(o, h, t, GlyphHKerningSlot, KerningCallback);
    t := t[GlyphHKerningSlot := KerningCallback];
    CallbackOnTable(o, h, t, GlyphVKerningSlot, KerningCallback);
    t := t[GlyphVKerningSlot := KerningCallback];
    CallbackOnTable(o, h, t, GlyphExtentsSlot, GlyphExtentsCallback);
    t := t[GlyphExtentsSlot := GlyphExtentsCallback];
    CallbackOnTable(o, h, t, GlyphContourPointSlot, ContourPointCallback);
    t := t[GlyphContourPointSlot := ContourPointCallback];
    CallbackOnTable(o, h, t, GlyphNameSlot, GlyphNameCallback);
    t := t[GlyphNameSlot := GlyphNameCallback];
    CallbackOnTable(o, h, t, GlyphFromNameSlot, GlyphFromNameCallback);
    t := t[GlyphFromNameSlot := GlyphFromNameCallback];
    TraitSlotsFillTable(o.funcs[h]);
  }

  /** A font-funcs table of the binding, as `FontFuncsImpl` wraps it. */
  datatype FontFuncsImpl = FontFuncsImpl(engine: Engine, raw: Handle)
  {
    ghost predicate Valid()
      reads engine
    {
      engine.Valid() && raw in engine.objects.funcs
    }

    /** `FontFuncsImpl::new`: an owning wrapper over a new table with every
        slot at the engine's default. */
    static method New(e: Engine) returns (o: Owned)
      requires e.Valid()
      modifies e
      ensures fresh(o) && o.engine == e && o.Live() && e.Valid()
      ensures o.handle !in old(e.counts.refcount)
      ensures e.counts == old(e.counts).Created(o.handle).AdoptedExclusively(o.handle, o)
      ensures e.objects == WithNewTable(old(e.objects), o.handle, map[])
    {
      var h := e.FuncsCreate();
      o := new Owned.FromRaw(e, h);
    }

    /** `set_*_func` for `slot`: installs the slot's trampoline; the
        closure itself is left to the engine's user data. */
    method SetFunc(slot: Slot, callback: Callback)
      requires Valid() && callback == SlotCallback(slot)
      modifies engine
      ensures Valid() && engine.counts == old(engine.counts)
      ensures engine.objects == WithCallback(old(engine.objects), raw, slot, callback)
    {
      engine.FuncsSet(raw, slot, callback);
    }

    /** `set_trait_impl`: every slot gets its trampoline, calling the
        trait's method of the same name. */
    method SetTraitImpl()
      requires Valid()
      modifies engine
      ensures Valid() && engine.counts == old(engine.counts)
      ensures engine.objects == WithTable(old(engine.objects), raw, TraitTable())
    {
      SlotCallbacks();
      ghost var o := engine.objects;
      SetFunc(FontHExtentsSlot, FontExtentsCallback);
      SetFunc(FontVExtentsSlot, FontExtentsCallback);
      SetFunc(NominalGlyphSlot, NominalGlyphCallback);
      SetFunc(VariationGlyphSlot, VariationGlyphCallback);
      SetFunc(GlyphHAdvanceSlot, AdvanceCallback);
      SetFunc(GlyphVAdvanceSlot, AdvanceCallback);
      SetFunc(GlyphHOriginSlot, OriginCallback);
      SetFunc(GlyphVOriginSlot, OriginCallback);
      SetFunc(GlyphHKerningSlot, KerningCallback);
      SetFunc(GlyphVKerningSlot, KerningCallback);
      SetFunc(GlyphExtentsSlot, GlyphExtentsCallback);
      SetFunc(GlyphContourPointSlot, ContourPointCallback);
      SetFunc(GlyphNameSlot, GlyphNameCallback);
      SetFunc(GlyphFromNameSlot, GlyphFromNameCallback);
      TraitCallbacksFillTable(o, raw);
    }

    /** `FontFuncsImpl::from_trait_impl`: a new table filled by
        `set_trait_impl`, owned by the caller. */
    static method FromTraitImpl(e: Engine) returns (o: Owned)
      requires e.Valid()
      modifies e
      ensures fresh(o) && o.engine == e && o.Live() && e.Valid()
      ensures o.handle !in old(e.counts.refcount)
      ensures e.counts == old(e.counts).Created(o.handle).AdoptedExclusively(o.handle, o)
      ensures e.objects == WithNewTable(old(e.objects), o.handle, TraitTable())
    {
      ghost var before := e.objects;
      o := New(e);
      FontFuncsImpl(e, o.handle).SetTraitImpl();
      NewTableFilled(before, o.handle, map[], TraitTable());
    }
  }

  /** The objects once font `font` uses font-funcs table `h`. */
  function WithFontFuncs(o: Objects, font: Handle, h: Handle): (r: Objects)
    requires font in o.fonts
  {
    o.(fonts := o.fonts[font := o.fonts[font].(funcs := h)])
  }

  /** `Font::set_font_funcs`: a table filled by `set_trait_impl` becomes
      the font's, and the binding's own reference to it is dropped, so the
      font holds the only one. The empty font ignores the table, which is
      then freed at once. */
  method SetFontFuncs(font: Font) returns (ghost h: Handle)
    requires font.Valid()
    modifies font.engine
    ensures font.Valid()
    ensures h !in old(font.engine.counts.refcount) && h in font.engine.counts.refcount
    ensures font.raw != font.engine.emptyFont ==>
              font.engine.objects == WithFontFuncs(WithNewTable(old(font.engine.objects), h, TraitTable()), font.raw, h)
    ensures font.raw != font.engine.emptyFont ==> font.engine.counts.refcount[h] == 1
    ensures font.raw == font.engine.emptyFont ==> font.engine.objects == WithNewTable(old(font.engine.objects), h, TraitTable())
    ensures font.raw == font.engine.emptyFont ==> font.engine.counts.refcount[h] == 0
    ensures font.raw != font.engine.emptyFont ==> font.engine.counts == old(font.engine.counts).Created(h)
    ensures font.raw == font.engine.emptyFont ==> font.engine.counts == old(font.engine.counts).Created(h).Destroyed(h)
  {
    var e := font.engine;
    ghost var before := e.counts;
    var funcs := FontFuncsImpl.FromTraitImpl(e);
    h := funcs.handle;
    e.FontSetFuncs(font.raw, funcs.handle);
    assert funcs.Live();
    funcs.Drop();
    TableHandedOverCounts(before, h, funcs);
  }

  /** The counts a temporary owner leaves behind: creating a table, owning
      it, possibly handing a reference to a font, and dropping the owner
      leaves a new handle whose only reference, if any, is the font's. */
  lemma TableHandedOverCounts(c: Counts, h: Handle, w: object)
    requires c.Valid() && h !in c.refcount
    ensures c.Created(h).AdoptedExclusively(h, w).Referenced(h).Released(h, w).Destroyed(h) == c.Created(h)
    ensures c.Created(h).AdoptedExclusively(h, w).Released(h, w).Destroyed(h) == c.Created(h).Destroyed(h)
  {
    assert h !in c.exclusive;
    assert {w} - {w} == {};
    var d := c.Created(h).AdoptedExclusively(h, w).Referenced(h).Released(h, w).Destroyed(h);
    assert d.refcount == c.refcount[h := 1];
    assert d.loose == c.loose[h := 1];
    assert d.holders == c.holders[h := {}];
    assert d.exclusive == c.exclusive;
    var d' := c.Created(h).AdoptedExclusively(h, w).Released(h, w).Destroyed(h);
    assert d'.refcount == c.refcount[h := 0];
    assert d'.loose == c.loose[h := 0];
    assert d'.holders == c.holders[h := {}];
    assert d'.exclusive == c.exclusive;
  }

  /** After `set_font_funcs` a font other than the empty one keeps its
      parent, face, scale and ppem and answers through the new table,
      whose every slot holds the binding's trampoline. */
  lemma SetFontFuncsKeepsFont(o: Objects, font: Handle, h: Handle)
    requires font in o.fonts && h !in o.funcs
    ensures var r := WithFontFuncs(WithNewTable(o, h, TraitTable()), font, h);
            && r.fonts[font] == o.fonts[font].(funcs := h)
            && r.funcs[h] == TraitTable()
            && (forall slot: Slot :: slot in r.funcs[h] && r.funcs[h][slot] == SlotCallback(slot))
            && (forall k :: k in o.funcs ==> k in r.funcs && r.funcs[k] == o.funcs[k])
  {
    forall slot: Slot ensures slot in TraitTable() {
      TraitTableComplete(slot);
    }
  }
}
