/** Rust strings as the binding sees them: `&str` and `String` are their
    UTF-8 bytes, and C strings are bytes up to the first NUL. */
module Utf8 {
  import opened Base

  predicate Cont(b: u8)
  {
    0x80 <= b <= 0xBF
  }

  /** Length of the well-formed UTF-8 sequence `s` starts with, following
      Table 3-7 of section 3.9 of the Unicode Standard, or 0 when `s` does
      not start with one. */
  function SequenceLength(s: seq<u8>): (n: nat)
    ensures n <= 4 && n <= |s|
    ensures n > 0 ==> |s| > 0
    ensures |s| > 0 && s[0] < 0x80 ==> n == 1
    ensures |s| > 0 && 0x80 <= s[0] <= 0xC1 ==> n == 0
    ensures |s| > 0 && s[0] >= 0xF5 ==> n == 0
  {
    if |s| == 0 then 0
    else if s[0] <= 0x7F then 1
    else if 0xC2 <= s[0] <= 0xDF then
      (if |s| >= 2 && Cont(s[1]) then 2 else 0)
    else if s[0] == 0xE0 then
      (if |s| >= 3 && 0xA0 <= s[1] <= 0xBF && Cont(s[2]) then 3 else 0)
    else if 0xE1 <= s[0] <= 0xEC || 0xEE <= s[0] <= 0xEF then
      (if |s| >= 3 && Cont(s[1]) && Cont(s[2]) then 3 else 0)
    else if s[0] == 0xED then
      (if |s| >= 3 && 0x80 <= s[1] <= 0x9F && Cont(s[2]) then 3 else 0)
    else if s[0] == 0xF0 then
      (if |s| >= 4 && 0x90 <= s[1] <= 0xBF && Cont(s[2]) && Cont(s[3]) then 4 else 0)
    else if 0xF1 <= s[0] <= 0xF3 then
      (if |s| >= 4 && Cont(s[1]) && Cont(s[2]) && Cont(s[3]) then 4 else 0)
    else if s[0] == 0xF4 then
      (if |s| >= 4 && 0x80 <= s[1] <= 0x8F && Cont(s[2]) && Cont(s[3]) then 4 else 0)
    else 0
  }

  /** `s` is a concatenation of well-formed UTF-8 sequences. */
  predicate WellFormed(s: seq<u8>)
    decreases |s|
  {
    |s| == 0 || (SequenceLength(s) > 0 && WellFormed(s[SequenceLength(s)..]))
  }

  predicate IsAscii(s: seq<u8>)
  {
    forall i :: 0 <= i < |s| ==> s[i] < 0x80
  }

  /** `str::from_utf8`: the bytes as a string when they are well-formed. */
  function FromUtf8(s: seq<u8>): (r: Option<seq<u8>>)
    ensures r.Some? <==> WellFormed(s)
    ensures r.Some? ==> r.value == s
  {
    if WellFormed(s) then Some(s) else None
  }

  /** ASCII text is well-formed UTF-8, one byte per character. */
  lemma {:induction false} AsciiWellFormed(s: seq<u8>)
    requires IsAscii(s)
    ensures WellFormed(s)
    decreases |s|
  {
    if |s| > 0 {
      assert SequenceLength(s) == 1;
      assert IsAscii(s[1..]) by {
        forall i | 0 <= i < |s[1..]| ensures s[1..][i] < 0x80 {
          assert s[1..][i] == s[i + 1];
        }
      }
      AsciiWellFormed(s[1..]);
    }
  }

  /** Index of the first NUL byte in `mem`. */
  function NulIndex(mem: seq<u8>): (i: nat)
    requires 0 in mem
    ensures i < |mem| && mem[i] == 0
    ensures forall j :: 0 <= j < i ==> mem[j] != 0
  {
    if mem[0] == 0 then 0 else 1 + NulIndex(mem[1..])
  }

  /** `CStr::from_ptr(p).to_bytes()`: the bytes before the first NUL. */
  function CStrBytes(mem: seq<u8>): (r: seq<u8>)
    requires 0 in mem
    ensures 0 !in r && r + [0] <= mem
  {
    mem[..NulIndex(mem)]
  }

  /** Reading back a string written with its NUL terminator yields the
      string, whatever follows in memory. */
  lemma CStrBytesOfTerminated(s: seq<u8>, rest: seq<u8>)
    requires 0 !in s
    ensures 0 in s + [0] + rest
    ensures CStrBytes(s + [0] + rest) == s
  {
    var mem := s + [0] + rest;
    assert mem[|s|] == 0;
    var i := NulIndex(mem);
    assert i == |s|;
  }
}
