/** Tags, text directions, and the two smart pointers through which the
    binding holds engine objects: `Owned` (the only wrapper of a freshly
    created object, allowed to mutate it) and `Shared` (one of possibly many
    wrappers, read-only). */
module Common {
  import opened Base
  import opened Utf8
  import opened Engine

  // ---- bit-level helpers for `u32` arithmetic ----

  function Pow2(k: nat): (p: nat)
    ensures p >= 1
  {
    if k == 0 then 1 else 2 * Pow2(k - 1)
  }

  /** Bitwise OR of two natural numbers, one bit at a time from the least
      significant. */
  function BitOr(x: nat, y: nat): nat
    decreases x + y
  {
    if x == 0 then y
    else if y == 0 then x
    else 2 * BitOr(x / 2, y / 2) + (if x % 2 == 1 || y % 2 == 1 then 1 else 0)
  }

  /** OR-ing a multiple of 2^k with a number below 2^k adds them: their bits
      do not meet. */
  lemma {:induction false} BitOrDisjoint(q: nat, y: nat, k: nat)
    requires y < Pow2(k)
    ensures BitOr(q * Pow2(k), y) == q * Pow2(k) + y
    decreases k
  {
    var x := q * Pow2(k);
    if k == 0 {
      assert y == 0;
    } else if x != 0 && y != 0 {
      var m := q * Pow2(k - 1);
      assert x == 2 * m;
      BitOrDisjoint(q, y / 2, k - 1);
      assert BitOr(x, y) == 2 * BitOr(m, y / 2) + (if y % 2 == 1 then 1 else 0);
    }
  }

  /** OR never sets a bit at or above 2^k when neither operand has one. */
  lemma {:induction false} BitOrBelow(x: nat, y: nat, k: nat)
    requires x < Pow2(k) && y < Pow2(k)
    ensures BitOr(x, y) < Pow2(k)
    decreases k
  {
    if k > 0 && x != 0 && y != 0 {
      BitOrBelow(x / 2, y / 2, k - 1);
    }
  }

  lemma Pow2Values()
    ensures Pow2(8) == 0x100 && Pow2(16) == 0x1_0000 && Pow2(24) == 0x100_0000 && Pow2(32) == 0x1_0000_0000
  {
    assert Pow2(8) == 0x100 by {
      assert Pow2(4) == 16;
    }
    assert Pow2(16) == 0x1_0000 by {
      assert Pow2(12) == 0x1000;
    }
    assert Pow2(24) == 0x100_0000 by {
      assert Pow2(20) == 0x10_0000;
    }
    assert Pow2(32) == 0x1_0000_0000 by {
      assert Pow2(28) == 0x1000_0000;
    }
  }

  /** `x << k` on a `u32`: bits shifted past bit 31 are lost. */
  function ShiftLeft(x: nat, k: nat): (r: u32)
  {
    Pow2Values();
    (x * Pow2(k)) % 0x1_0000_0000
  }

  /** `x | y` on two `u32` values. */
  function Or32(x: u32, y: u32): (r: u32)
    ensures x < 0x100_0000 && y < 0x100_0000 ==> r < 0x100_0000
  {
    Pow2Values();
    BitOrBelow(x, y, 32);
    if x < 0x100_0000 && y < 0x100_0000 then
      BitOrBelow(x, y, 24);
      BitOr(x, y)
    else
      BitOr(x, y)
  }

  // ---- Tag ----

  /** A four-byte OpenType tag, kept as the `u32` the engine uses. */
  datatype Tag = Tag(raw: u32)

  /** `Tag::new`: packs four characters, the first one highest. Each
      character is taken with its whole scalar value, so one above 0xFF
      spills into its neighbour's byte. */
  function TagNew(a: char, b: char, c: char, d: char): Tag
  {
    Tag(Or32(Or32(Or32(ShiftLeft(a as int, 24), ShiftLeft(b as int, 16)), ShiftLeft(c as int, 8)), d as int))
  }

  predicate IsByteChar(c: char)
  {
    c as int < 0x100
  }

  /** For characters that fit in a byte, `Tag::new` places each one in its own
      byte: the tag is their base-256 number. */
  lemma TagNewOfBytes(a: char, b: char, c: char, d: char)
    requires IsByteChar(a) && IsByteChar(b) && IsByteChar(c) && IsByteChar(d)
    ensures TagNew(a, b, c, d).raw == BigEndian([a as int, b as int, c as int, d as int])
  {
    var A, B, C, D := a as int, b as int, c as int, d as int;
    var ab := A * 0x100 + B;
    var abc := ab * 0x100 + C;
    OrHighBytes(A, B);
    OrThirdByte(ab, C);
    OrLowByte(abc, D);
  }

  lemma OrHighBytes(a: nat, b: nat)
    requires a < 0x100 && b < 0x100
    ensures Or32(ShiftLeft(a, 24), ShiftLeft(b, 16)) == (a * 0x100 + b) * 0x1_0000
  {
    Pow2Values();
    assert ShiftLeft(a, 24) == a * Pow2(24);
    assert ShiftLeft(b, 16) == b * 0x1_0000;
    OrDisjoint32(a, b * 0x1_0000, 24);
  }

  lemma OrThirdByte(ab: nat, c: nat)
    requires ab < 0x1_0000 && c < 0x100
    ensures Or32(ab * 0x1_0000, ShiftLeft(c, 8)) == (ab * 0x100 + c) * 0x100
  {
    Pow2Values();
    assert ShiftLeft(c, 8) == c * 0x100;
    OrDisjoint32(ab, c * 0x100, 16);
  }

  lemma OrLowByte(abc: nat, d: nat)
    requires abc < 0x100_0000 && d < 0x100
    ensures Or32(abc * 0x100, d) == abc * 0x100 + d
  {
    Pow2Values();
    OrDisjoint32(abc, d, 8);
  }

  /** `Or32` of a multiple of 2^k and a number below 2^k is their sum. */
  lemma OrDisjoint32(q: nat, y: nat, k: nat)
    requires q * Pow2(k) <= U32_MAX && y < Pow2(k) && y <= U32_MAX
    ensures Or32(q * Pow2(k), y) == q * Pow2(k) + y
  {
    BitOrDisjoint(q, y, k);
  }

  /** `Tag::to_bytes` (also `From<Tag> for [u8; 4]`): the tag shifted right
      by 24, 16, 8 and 0 bits, each cut to a byte; the bytes reassemble to
      the tag. */
  function TagToBytes(t: Tag): (b: seq<u8>)
    ensures |b| == 4
    ensures t.raw == BigEndian(b)
  {
    var q1 := t.raw / 0x100;
    var q2 := q1 / 0x100;
    var q3 := q2 / 0x100;
    assert q1 < 0x100_0000 && q2 < 0x1_0000 && q3 < 0x100;
    [q3, q2 % 0x100, q1 % 0x100, t.raw % 0x100]
  }

  /** Four bytes read as a big-endian number. */
  function BigEndian(b: seq<u8>): int
    requires |b| == 4
  {
    b[0] as int * 0x100_0000 + b[1] as int * 0x1_0000 + b[2] as int * 0x100 + b[3] as int
  }

  /** A number has one big-endian spelling in four bytes. */
  lemma BigEndianUnique(a: seq<u8>, b: seq<u8>)
    requires |a| == 4 && |b| == 4 && BigEndian(a) == BigEndian(b)
    ensures a == b
  {
    var ha: int := a[0] as int * 0x1_0000 + a[1] as int * 0x100 + a[2] as int;
    var hb: int := b[0] as int * 0x1_0000 + b[1] as int * 0x100 + b[2] as int;
    assert a[3] == b[3] && ha == hb by {
      assert (ha - hb) * 0x100 == b[3] as int - a[3] as int;
    }
    var ma: int := a[0] as int * 0x100 + a[1] as int;
    var mb: int := b[0] as int * 0x100 + b[1] as int;
    assert a[2] == b[2] && ma == mb by {
      assert (ma - mb) * 0x100 == b[2] as int - a[2] as int;
    }
    assert a[1] == b[1] && a[0] == b[0] by {
      assert (a[0] as int - b[0] as int) * 0x100 == b[1] as int - a[1] as int;
    }
  }

  /** `From<&[u8; 4]> for Tag`: each byte taken as a character. Reading the
      bytes back gives the same array. */
  function TagFromBytes(b: seq<u8>): (t: Tag)
    requires |b| == 4
    ensures TagToBytes(t) == b
  {
    TagNewOfBytes(b[0] as char, b[1] as char, b[2] as char, b[3] as char);
    var t := TagNew(b[0] as char, b[1] as char, b[2] as char, b[3] as char);
    assert [b[0] as char as int, b[1] as char as int, b[2] as char as int, b[3] as char as int] == b;
    BigEndianUnique(TagToBytes(t), b);
    t
  }

  /** Every tag is the tag of its own bytes. */
  lemma TagBytesRoundTrip(t: Tag)
    ensures TagFromBytes(TagToBytes(t)) == t
  {
    var b := TagToBytes(t);
    assert TagToBytes(TagFromBytes(b)) == b;
  }

  /** `TagFromStrErr`. */
  datatype TagFromStrErr = NonAscii | ZeroLengthString

  /** How many bytes `hb_tag_from_string` reads for a length argument: a
      negative length (a NUL-terminated string) or one above 4 reads at most
      four. */
  function TagReadLimit(len: int): (n: nat)
    ensures n <= 4
    ensures 0 <= len <= 4 ==> n == len
  {
    if len < 0 || len > 4 then 4 else len
  }

  /** The bytes `hb_tag_from_string` copies from memory starting at the
      string: up to `n` of them, stopping at a NUL. */
  function TagPrefix(mem: seq<u8>, n: nat): (p: seq<u8>)
    requires n <= |mem|
    ensures |p| <= n && p == mem[..|p|] && 0 !in p
    ensures |p| < n ==> mem[|p|] == 0
  {
    if n == 0 || mem[0] == 0 then []
    else [mem[0]] + TagPrefix(mem[1..], n - 1)
  }

  /** Four bytes: `p` followed by spaces. */
  function PadWithSpaces(p: seq<u8>): (b: seq<u8>)
    requires |p| <= 4
    ensures |b| == 4 && b[..|p|] == p
    ensures forall i :: |p| <= i < 4 ==> b[i] == ' ' as int
  {
    p + seq(4 - |p|, _ => ' ' as int)
  }

  /** The engine's `hb_tag_from_string`, as its documentation describes it,
      on the memory `mem` that starts at the string pointer: no tag for a
      zero length or a string starting with NUL; otherwise the first bytes up
      to the length limit or a NUL, padded with spaces to four. */
  function HbTagFromString(mem: seq<u8>, len: int): (t: Tag)
    requires TagReadLimit(len) <= |mem|
    ensures len == 0 || mem[0] == 0 ==> t.raw == TAG_NONE
    ensures len != 0 && mem[0] != 0 ==>
      TagToBytes(t) == PadWithSpaces(TagPrefix(mem, TagReadLimit(len)))
  {
    if len == 0 || mem[0] == 0 then Tag(TAG_NONE)
    else TagFromBytes(PadWithSpaces(TagPrefix(mem, TagReadLimit(len))))
  }

  /** `Tag::from_str`, on the UTF-8 bytes of a string, as the documentation
      of that function promises it: non-ASCII text is rejected first, then
      the empty string; otherwise the engine reads at most the string's own
      bytes, so the tag is the first four bytes (up to a NUL) padded with
      spaces. */
  function TagFromStr(s: seq<u8>): (r: Result<Tag, TagFromStrErr>)
    ensures r == Err(NonAscii) <==> !IsAscii(s)
    ensures r == Err(ZeroLengthString) <==> IsAscii(s) && |s| == 0
    ensures r.Ok? && s[0] == 0 ==> r.value.raw == TAG_NONE
    ensures r.Ok? && s[0] != 0 ==> TagToBytes(r.value) == PadWithSpaces(TagPrefix(s, Min(|s|, 4)))
  {
    if !IsAscii(s) then Err(NonAscii)
    else if |s| == 0 then Err(ZeroLengthString)
    else Ok(HbTagFromString(s, Min(|s|, 4)))
  }

  /** `Tag::from_str` as written: it hands the engine the length
      `max(len, 4)`, so for a string shorter than four bytes the engine also
      reads the bytes that follow the string in memory (`after`). */
  function TagFromStrAsWritten(s: seq<u8>, after: seq<u8>): (r: Result<Tag, TagFromStrErr>)
    requires |s| + |after| >= 4
    ensures r.Err? <==> TagFromStr(s).Err?
    ensures r.Err? ==> r == TagFromStr(s)
  {
    if !IsAscii(s) then Err(NonAscii)
    else if |s| == 0 then Err(ZeroLengthString)
    else Ok(HbTagFromString(s + after, AsI32(Max(|s|, 4))))
  }

  /** With a two-byte string followed by "CD" in memory, the code as
      written produces the tag "abCD"... */
  lemma TagFromStrReadsPastShortString()
    ensures TagFromStrAsWritten([0x61, 0x62], [0x43, 0x44]) == Ok(TagNew('a', 'b', 'C', 'D'))
  {
    var s: seq<u8> := [0x61, 0x62];
    assert IsAscii(s);
    var mem := s + [0x43, 0x44];
    assert TagPrefix(mem, 4) == mem by {
      assert mem[1..][1..][1..][1..] == [];
    }
    TagBytesOfNew('a', 'b', 'C', 'D');
    TagBytesInjective(HbTagFromString(mem, 4), TagNew('a', 'b', 'C', 'D'));
  }

  /** ... where the documented behaviour pads the two letters with spaces:
      "ab  ". */
  lemma TagFromStrPadsShortString()
    ensures TagFromStr([0x61, 0x62]) == Ok(TagNew('a', 'b', ' ', ' '))
  {
    var s: seq<u8> := [0x61, 0x62];
    assert IsAscii(s);
    assert TagPrefix(s, 2) == s by {
      assert s[1..][1..] == [];
    }
    TagBytesOfNew('a', 'b', ' ', ' ');
    TagBytesInjective(HbTagFromString(s, 2), TagNew('a', 'b', ' ', ' '));
  }

  /** For strings of four bytes or more (that fit an `i32` length) the code
      as written agrees with the documented behaviour, whatever follows. */
  lemma TagFromStrAsWrittenFromFourBytes(s: seq<u8>, after: seq<u8>)
    requires 4 <= |s| <= I32_MAX
    ensures TagFromStrAsWritten(s, after) == TagFromStr(s)
  {
    if IsAscii(s) {
      var mem := s + after;
      assert TagPrefix(mem, 4) == TagPrefix(s, 4) by {
        TagPrefixOfPrefix(s, after, 4);
      }
    }
  }

  lemma {:induction false} TagPrefixOfPrefix(s: seq<u8>, after: seq<u8>, n: nat)
    requires n <= |s|
    ensures TagPrefix(s + after, n) == TagPrefix(s, n)
  {
    if n > 0 && s[0] != 0 {
      assert (s + after)[1..] == s[1..] + after;
      TagPrefixOfPrefix(s[1..], after, n - 1);
    }
  }

  /** The bytes of `Tag::new` on byte-valued characters are those characters. */
  lemma TagBytesOfNew(a: char, b: char, c: char, d: char)
    requires IsByteChar(a) && IsByteChar(b) && IsByteChar(c) && IsByteChar(d)
    ensures TagToBytes(TagNew(a, b, c, d)) == [a as int, b as int, c as int, d as int]
  {
    TagNewOfBytes(a, b, c, d);
    BigEndianUnique(TagToBytes(TagNew(a, b, c, d)), [a as int, b as int, c as int, d as int]);
  }

  /** Tags with the same bytes are the same tag. */
  lemma TagBytesInjective(t: Tag, u: Tag)
    requires TagToBytes(t) == TagToBytes(u)
    ensures t == u
  {
  }

  /** The examples of the binding's own tests: non-ASCII and empty strings
      are refused, and bytes after the fourth are ignored. */
  lemma TagFromStrExamples()
    ensures TagFromStr([0xE2, 0x88, 0x9E, 0x42, 0x43, 0x44]) == Err(NonAscii)
    ensures TagFromStr([]) == Err(ZeroLengthString)
    ensures TagFromStr([0x41, 0x42, 0x43, 0x44, 0x45]) == TagFromStr([0x41, 0x42, 0x43, 0x44])
  {
    assert !IsAscii([0xE2, 0x88, 0x9E, 0x42, 0x43, 0x44]) by {
      assert [0xE2, 0x88, 0x9E, 0x42, 0x43, 0x44][0] == 0xE2;
    }
    var five: seq<u8> := [0x41, 0x42, 0x43, 0x44, 0x45];
    var four: seq<u8> := [0x41, 0x42, 0x43, 0x44];
    assert IsAscii(five) && IsAscii(four);
    assert five == four + [0x45];
    TagPrefixOfPrefix(four, [0x45], 4);
  }

  /** The test example of a four-letter string: its tag is the tag of its
      letters. */
  lemma TagFromStrOfLetters()
    ensures TagFromStr([0x61, 0x62, 0x57, 0x64]) == Ok(TagNew('a', 'b', 'W', 'd'))
  {
    var w: seq<u8> := [0x61, 0x62, 0x57, 0x64];
    assert IsAscii(w);
    assert TagPrefix(w, 4) == w by {
      assert w[1..][1..][1..][1..] == [];
    }
    TagBytesOfNew('a', 'b', 'W', 'd');
    TagBytesInjective(HbTagFromString(w, 4), TagNew('a', 'b', 'W', 'd'));
  }

  // ---- Direction ----

  /** Text direction. */
  datatype Direction = Invalid | Ltr | Rtl | Ttb | Btt
  {
    /** `Direction::to_raw`: the engine's `hb_direction_t` code. */
    function ToRaw(): (r: u32)
      ensures r == DIRECTION_INVALID <==> this == Invalid
      ensures r == DIRECTION_INVALID || DIRECTION_LTR <= r <= DIRECTION_BTT
    {
      match this
      case Invalid => DIRECTION_INVALID
      case Ltr => DIRECTION_LTR
      case Rtl => DIRECTION_RTL
      case Ttb => DIRECTION_TTB
      case Btt => DIRECTION_BTT
    }

    /** `Direction::from_raw`: every code the engine does not define as a
        direction reads as `Invalid`; a defined one reads as the direction
        whose code it is. */
    static function FromRaw(r: u32): (d: Direction)
      ensures d == Invalid <==> !(DIRECTION_LTR <= r <= DIRECTION_BTT)
      ensures d != Invalid ==> d.ToRaw() == r
    {
      if r == DIRECTION_LTR then Ltr
      else if r == DIRECTION_RTL then Rtl
      else if r == DIRECTION_TTB then Ttb
      else if r == DIRECTION_BTT then Btt
      else Invalid
    }
  }

  /** Reading back a direction's code gives the direction. */
  lemma DirectionRoundTrip(d: Direction)
    ensures Direction.FromRaw(d.ToRaw()) == d
  {
  }

  // ---- Shared and Owned ----

  /** `Shared<T>`: holds one reference to an engine object that others may
      hold too. Dropped wrappers are no longer live. */
  class Shared {
    const engine: Engine
    const handle: Handle

    /** This wrapper still holds its reference. */
    ghost predicate Live()
      reads engine
    {
      && handle in engine.counts.holders && this in engine.counts.holders[handle]
      && handle !in engine.counts.exclusive
    }

    /** `Shared::from_raw_owned`: takes over a reference the caller holds;
        the count does not change. */
    constructor FromRawOwned(e: Engine, raw: Handle)
      requires e.Valid() && raw in e.counts.refcount && e.counts.loose[raw] >= 1
      requires raw !in e.counts.exclusive
      modifies e
      ensures engine == e && handle == raw && Live()
      ensures e.counts == old(e.counts).Adopted(raw, this)
      ensures e.objects == old(e.objects) && e.Valid()
    {
      engine, handle := e, raw;
      new;
      e.Adopt(raw, this);
    }

    /** `Shared::from_raw_ref`: takes a new reference of its own; the count
        goes up by one and the caller keeps its pointer. */
    constructor FromRawRef(e: Engine, raw: Handle)
      requires e.Valid() && e.Alive(raw) && raw !in e.counts.exclusive
      modifies e
      ensures engine == e && handle == raw && Live()
      ensures e.counts == old(e.counts).Referenced(raw).Adopted(raw, this)
      ensures e.objects == old(e.objects) && e.Valid()
    {
      engine, handle := e, raw;
      new;
      e.Reference(raw);
      e.Adopt(raw, this);
    }

    /** `Shared::clone`: a second wrapper over the same object; the count
        goes up by one. */
    method Clone() returns (c: Shared)
      requires engine.Valid() && Live()
      modifies engine
      ensures fresh(c) && c.engine == engine && c.handle == handle && c.Live() && Live()
      ensures engine.counts == old(engine.counts).Referenced(handle).Adopted(handle, c)
      ensures handle in engine.counts.refcount && engine.counts.refcount[handle] == old(engine.counts.refcount[handle]) + 1
      ensures engine.objects == old(engine.objects) && engine.Valid()
    {
      c := new Shared.FromRawRef(engine, handle);
    }

    /** `Shared::into_raw`: gives up the wrapper without releasing its
        reference, which the returned pointer now carries. */
    method IntoRaw() returns (raw: Handle)
      requires engine.Valid() && Live()
      modifies engine
      ensures raw == handle && !Live()
      ensures engine.counts == old(engine.counts).Released(handle, this)
      ensures engine.objects == old(engine.objects) && engine.Valid()
    {
      engine.Release(handle, this);
      raw := handle;
    }

    /** `Drop for Shared`: releases the wrapper's reference; the count goes
        down by exactly one. */
    method Drop()
      requires engine.Valid() && Live()
      modifies engine
      ensures !Live()
      ensures engine.counts == old(engine.counts).Released(handle, this).Destroyed(handle)
      ensures handle in engine.counts.refcount && engine.counts.refcount[handle] == old(engine.counts.refcount[handle]) - 1
      ensures engine.objects == old(engine.objects) && engine.Valid()
    {
      engine.Release(handle, this);
      engine.Destroy(handle);
    }
  }

  /** `Owned<T>`: the only wrapper of an engine object, allowed to mutate it. */
  class Owned {
    const engine: Engine
    const handle: Handle

    /** This wrapper still holds its reference, and no other wrapper holds one. */
    ghost predicate Live()
      reads engine
    {
      handle in engine.counts.holders && engine.counts.holders[handle] == {this}
      && handle in engine.counts.exclusive
    }

    /** `Owned::from_raw`: takes over the caller's reference to an object no
        wrapper holds; the count does not change. */
    constructor FromRaw(e: Engine, raw: Handle)
      requires e.Valid() && raw in e.counts.refcount && e.counts.loose[raw] >= 1
      requires e.counts.holders[raw] == {}
      modifies e
      ensures engine == e && handle == raw && Live()
      ensures e.counts == old(e.counts).AdoptedExclusively(raw, this)
      ensures e.objects == old(e.objects) && e.Valid()
    {
      engine, handle := e, raw;
      new;
      e.AdoptExclusively(raw, this);
    }

    /** `Owned::into_raw`: gives up the wrapper without releasing its
        reference. */
    method IntoRaw() returns (raw: Handle)
      requires engine.Valid() && Live()
      modifies engine
      ensures raw == handle && !Live()
      ensures engine.counts == old(engine.counts).Released(handle, this)
      ensures engine.objects == old(engine.objects) && engine.Valid()
    {
      engine.Release(handle, this);
      raw := handle;
    }

    /** `Owned::to_shared` (`From<Owned<T>> for Shared<T>`): the reference
        moves to a new `Shared`; the count does not change. */
    method ToShared() returns (s: Shared)
      requires engine.Valid() && Live()
      modifies engine
      ensures fresh(s) && s.engine == engine && s.handle == handle && s.Live() && !Live()
      ensures engine.counts == old(engine.counts).Released(handle, this).Adopted(handle, s)
      ensures engine.counts.refcount == old(engine.counts.refcount)
      ensures engine.objects == old(engine.objects) && engine.Valid()
    {
      var raw := IntoRaw();
      s := new Shared.FromRawOwned(engine, raw);
    }

    /** `Drop for Owned`: releases the reference; the count goes down by one. */
    method Drop()
      requires engine.Valid() && Live()
      modifies engine
      ensures !Live()
      ensures engine.counts == old(engine.counts).Released(handle, this).Destroyed(handle)
      ensures handle in engine.counts.refcount && engine.counts.refcount[handle] == old(engine.counts.refcount[handle]) - 1
      ensures engine.objects == old(engine.objects) && engine.Valid()
    {
      engine.Release(handle, this);
      engine.Destroy(handle);
    }
  }

  /** A handle some wrapper holds is alive. */
  lemma HeldAlive(c: Counts, h: Handle, w: object)
    requires c.Valid() && h in c.holders && w in c.holders[h]
    ensures h in c.refcount && c.refcount[h] >= 1
  {
    assert |c.holders[h]| >= 1;
  }

  /** The reference-counting scenario of the binding's own test: an object
      handed over with one reference is wrapped (count 1), cloned (2), the
      clone dropped (1), the original dropped (0). */
  method ReferenceCountingShared(e: Engine, raw: Handle)
    requires e.Valid() && raw in e.counts.refcount && e.counts.refcount[raw] == 1
    requires e.counts.holders[raw] == {}
    modifies e
    ensures e.Valid() && e.objects == old(e.objects)
    ensures raw in e.counts.refcount && e.counts.refcount[raw] == 0
  {
    var shared := new Shared.FromRawOwned(e, raw);
    assert e.counts.refcount[raw] == 1;
    var shared2 := shared.Clone();
    assert e.counts.refcount[raw] == 2;
    shared2.Drop();
    assert e.counts.refcount[raw] == 1;
    assert shared.Live();
    shared.Drop();
  }
}
