/** Bytes, C strings and the allocator, shared by every part of the model. */
module Bytes {

  /** An `unsigned char`. */
  type byte = b: int | 0 <= b < 0x100

  type Text = seq<byte>

  /** `SIZE_MAX` on the 64-bit targets the program is built for. */
  const SIZE_MAX: nat := 0xFFFF_FFFF_FFFF_FFFF

  /** No object is larger than the user half of a 64-bit address space. */
  const OBJECT_MAX: nat := 0x8000_0000_0000

  // The characters the parsers and printers name.
  const NUL: byte := 0x00
  const BACKSPACE: byte := 0x08
  const TAB: byte := 0x09
  const LF: byte := 0x0A
  const FORM_FEED: byte := 0x0C
  const CR: byte := 0x0D
  const SPACE: byte := 0x20
  const QUOTE: byte := 0x22
  const SLASH: byte := 0x2F
  const COLON: byte := 0x3A
  const BACKSLASH: byte := 0x5C

  datatype Option<+T> = None | Some(value: T)

  /** The bytes a C string function sees: everything before the first NUL. */
  function CString(s: Text): (r: Text)
    ensures r <= s
    ensures NUL !in r
    ensures |r| < |s| ==> s[|r|] == NUL
  {
    if s == [] || s[0] == NUL then [] else [s[0]] + CString(s[1..])
  }

  /** `s[i]`, where the byte after the last one is the terminator. */
  function At(s: Text, i: nat): byte
    requires i <= |s|
  {
    if i == |s| then NUL else s[i]
  }

  lemma {:induction false} CStringOfPrefix(s: Text, n: nat)
    requires n <= |s|
    requires NUL !in s[..n]
    requires n == |s| || s[n] == NUL
    ensures CString(s) == s[..n]
  {
    if n > 0 {
      assert s[1..][..n - 1] == s[..n][1..];
      assert s[0] == s[..n][0];
      CStringOfPrefix(s[1..], n - 1);
    }
  }

  lemma {:induction false} WholeString(s: Text)
    requires NUL !in s
    ensures CString(s) == s
  {
    hide CString;
    assert s[..|s|] == s;
    CStringOfPrefix(s, |s|);
  }

  /** The position of the first b in s, or the length of s. */
  function IndexOf(s: seq<int>, b: int): (n: nat)
    ensures n <= |s| && (n < |s| ==> s[n] == b)
    ensures forall k | 0 <= k < n :: s[k] != b
  {
    if s == [] || s[0] == b then 0 else 1 + IndexOf(s[1..], b)
  }

  /** Where the first line of s ends: at a CR or LF, or at the end of s. */
  function LineEnd(s: seq<int>): (n: nat)
    ensures n <= |s|
    ensures forall k | 0 <= k < n :: s[k] != CR && s[k] != LF
    ensures n < |s| ==> s[n] == CR || s[n] == LF
  {
    if s == [] || s[0] == CR || s[0] == LF then 0 else 1 + LineEnd(s[1..])
  }

  lemma {:induction false} LineEndIs(s: seq<int>, n: nat)
    requires n <= |s| && (n < |s| ==> s[n] == CR || s[n] == LF)
    requires forall k | 0 <= k < n :: s[k] != CR && s[k] != LF
    ensures LineEnd(s) == n
  {
    if n > 0 {
      LineEndIs(s[1..], n - 1);
    }
  }

  lemma {:induction false} IndexOfIs(s: seq<int>, b: int, n: nat)
    requires n <= |s| && (n < |s| ==> s[n] == b)
    requires forall k | 0 <= k < n :: s[k] != b
    ensures IndexOf(s, b) == n
  {
    if n > 0 {
      IndexOfIs(s[1..], b, n - 1);
    }
  }

  /** `isxdigit`. */
  predicate IsHex(b: byte) {
    0x30 <= b <= 0x39 || 0x41 <= b <= 0x46 || 0x61 <= b <= 0x66
  }

  function HexValue(b: byte): (v: nat)
    requires IsHex(b)
    ensures v < 16
  {
    if b <= 0x39 then b as int - 0x30 else if b <= 0x46 then b as int - 0x41 + 10 else b as int - 0x61 + 10
  }

  /** The digit for v, in either case. */
  function HexDigit(v: nat, upper: bool): (b: byte)
    requires v < 16
    ensures IsHex(b) && HexValue(b) == v
  {
    if v < 10 then 0x30 + v else if upper then 0x41 + v - 10 else 0x61 + v - 10
  }

  /** `isspace` in the C locale. */
  predicate IsSpace(b: byte) {
    b == SPACE || TAB <= b <= CR
  }

  function SkipSpaces(t: Text): (r: Text)
    ensures |r| <= |t| && t[|t| - |r|..] == r
    ensures r != [] ==> !IsSpace(r[0])
  {
    if t != [] && IsSpace(t[0]) then SkipSpaces(t[1..]) else t
  }

  /**
   * The C allocator as its callers see it: a finite script says which of the
   * next requests fail, and every request after the script succeeds.
   */
  class Heap {
    var script: seq<bool>
    /** Whether some request has failed so far. */
    var failed: bool

    constructor (script: seq<bool>)
      ensures this.script == script && !failed
    {
      this.script := script;
      failed := false;
    }

    method Request() returns (ok: bool)
      modifies this
      ensures failed == (old(failed) || !ok)
    {
      ok := true;
      if script != [] {
        ok := script[0];
        script := script[1..];
      }
      if !ok {
        failed := true;
      }
    }
  }
}
