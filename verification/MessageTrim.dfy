/**
 * The trimming a message gets before it is stored (src/message_store.c): the
 * source scans raw bytes backwards; what it must mean is said in terms of
 * Unicode characters.
 */
module MessageTrim {
  import opened Bytes
  import opened Utf8

  /** `isspace` in the C locale below 0x80, the Unicode White_Space property above. */
  predicate IsWhitespace(cp: int) {
    || 0x09 <= cp <= 0x0D || cp == 0x20
    || cp == 0x85 || cp == 0xA0 || cp == 0x1680
    || 0x2000 <= cp <= 0x200A || cp == 0x2028 || cp == 0x2029
    || cp == 0x202F || cp == 0x205F || cp == 0x3000
  }

  /** s ends with the encoding of the whitespace character cp. */
  ghost predicate EndsInWhitespace(s: Text, cp: Scalar) {
    IsWhitespace(cp) && EndsWith(s, Encode(cp))
  }

  /** The length of the whitespace character s ends with, or 0. */
  ghost function TrailingWhitespace(s: Text): (n: nat)
    ensures n <= |s|
    ensures n == 0 <==> forall cp: Scalar :: !EndsInWhitespace(s, cp)
  {
    if cp: Scalar :| EndsInWhitespace(s, cp) then |Encode(cp)| else 0
  }

  /** s without the whitespace characters at its end. */
  ghost function Trim(s: Text): (r: Text)
    ensures r <= s
    ensures TrailingWhitespace(r) == 0
    decreases |s|
  {
    var n := TrailingWhitespace(s);
    if n == 0 then s else Trim(s[..|s| - n])
  }

  lemma {:induction false} TrailingWhitespaceIs(s: Text, cp: Scalar)
    requires EndsInWhitespace(s, cp)
    ensures TrailingWhitespace(s) == |Encode(cp)|
  {
    forall other: Scalar | EndsInWhitespace(s, other) ensures other == cp {
      SuffixFree(s, other, cp);
    }
  }

  /** A text that ends in the character cp ends in whitespace exactly when cp is whitespace. */
  lemma {:induction false} LastCharacterDecides(s: Text, cp: Scalar)
    requires EndsWith(s, Encode(cp))
    ensures TrailingWhitespace(s) == if IsWhitespace(cp) then |Encode(cp)| else 0
  {
    if IsWhitespace(cp) {
      TrailingWhitespaceIs(s, cp);
    } else {
      forall other: Scalar ensures !EndsInWhitespace(s, other) {
        if EndsInWhitespace(s, other) {
          SuffixFree(s, other, cp);
        }
      }
    }
  }

  /** Finds where the last, multi-byte character of message[..len] can only start. */
  method ScanBack(message: Text, len: nat) returns (start: nat)
    requires 0 < len <= |message|
    ensures start < len && (start == 0 || !IsContinuation(message[start]))
    ensures forall k | start < k < len :: IsContinuation(message[k])
  {
    start := len - 1;
    while start > 0 && IsContinuation(message[start])
      invariant start < len
      invariant forall k | start < k < len :: IsContinuation(message[k])
    {
      start := start - 1;
    }
  }

  /** Shifts the payload bits of message[start + 1..len] into cp0. */
  method ShiftIn(message: Text, start: nat, len: nat, cp0: nat) returns (cp: nat)
    requires start < len <= |message|
    requires forall k | start < k < len :: IsContinuation(message[k])
    ensures cp == Shift(cp0, message[start + 1..len])
  {
    cp := cp0;
    var i := start + 1;
    while i < len
      invariant start < i <= len
      invariant cp == Shift(cp0, message[start + 1..i])
    {
      // The source tests again for a continuation byte here; `ScanBack` has
      // already passed all of these, so that test cannot fail.
      assert message[start + 1..i + 1][..i - start - 1] == message[start + 1..i];
      cp := cp * 0x40 + Payload(message[i]);
      i := i + 1;
    }
  }

  /** `message_store_trailing_whitespace_bytes`: the backward byte scan. */
  method TrailingWhitespaceBytes(message: Text, len: nat) returns (n: nat)
    requires len <= |message|
    ensures n == TrailingWhitespace(message[..len])
  {
    hide IsWhitespace, EndsInWhitespace, EndsWith, Encode, TrailingWhitespace, Decode, Shift;
    ghost var s := message[..len];
    if len == 0 {
      NothingTrails();
      return 0;
    }
    if message[len - 1] < 0x80 {
      SingleByteEnd(s);
      return if IsWhitespace(message[len - 1]) then 1 else 0;
    }
    var start := ScanBack(message, len);
    var seqLen, cp := 0, 0;
    var b0 := message[start];
    if 0xC0 <= b0 < 0xE0 {
      seqLen, cp := 2, b0 as int - 0xC0;
    } else if 0xE0 <= b0 < 0xF0 {
      seqLen, cp := 3, b0 as int - 0xE0;
    } else if 0xF0 <= b0 < 0xF8 {
      seqLen, cp := 4, b0 as int - 0xF0;
    } else {
      NoCharacterHere(s, start);
      return 0;
    }
    if start + seqLen != len {
      NoCharacterHere(s, start);
      return 0;
    }
    cp := ShiftIn(message, start, len, cp);
    assert s[start + 1..] == message[start + 1..len];
    if (seqLen == 2 && cp < 0x80) || (seqLen == 3 && cp < 0x800) || (seqLen == 4 && cp < 0x1_0000) ||
       0xD800 <= cp <= 0xDFFF || cp > 0x10FFFF
    {
      LastSequence(s, start, cp);
      return 0;
    }
    LastSequence(s, start, cp);
    return if IsWhitespace(cp) then seqLen else 0;
  }

  lemma {:induction false} NothingTrails()
    ensures TrailingWhitespace([]) == 0
  {
  }

  lemma {:induction false} SingleByteEnd(s: Text)
    requires s != [] && s[|s| - 1] < 0x80
    ensures TrailingWhitespace(s) == if IsWhitespace(s[|s| - 1]) then 1 else 0
  {
    hide IsWhitespace, TrailingWhitespace;
    var b := s[|s| - 1];
    assert s[|s| - 1..] == [b] == Encode(b);
    LastCharacterDecides(s, b);
  }

  /** The last sequence of s, once its value has been computed: it counts only if it is a strict encoding. */
  lemma {:induction false} LastSequence(s: Text, start: nat, cp: nat)
    requires start < |s| && Announced(s[start]) == |s| - start
    requires forall k | start < k < |s| :: IsContinuation(s[k])
    requires cp == Shift(LeadBits(s[start]), s[start + 1..])
    ensures TrailingWhitespace(s) ==
      if cp < Smallest(|s| - start) || 0xD800 <= cp <= 0xDFFF || cp > 0x10FFFF || !IsWhitespace(cp) then 0
      else |s| - start
  {
    hide IsWhitespace, TrailingWhitespace, Encode;
    var bs := s[start..];
    assert bs[0] == s[start] && bs[1..] == s[start + 1..];
    assert forall b <- bs[1..] :: IsContinuation(b);
    if cp < Smallest(|bs|) || 0xD800 <= cp <= 0xDFFF || cp > 0x10FFFF {
      NotDecodable(s, start);
    } else {
      assert Decode(bs) == Some(cp);
      EncodeDecode(bs);
      LastCharacterDecides(s, cp);
    }
  }

  /** The end of s from `start` on is not the encoding of any character. */
  lemma {:induction false} NotDecodable(s: Text, start: nat)
    requires start < |s| && s[|s| - 1] >= 0x80
    requires forall k | start < k < |s| :: IsContinuation(s[k])
    requires start == 0 || !IsContinuation(s[start])
    requires Decode(s[start..]).None?
    ensures TrailingWhitespace(s) == 0
  {
    hide IsWhitespace, Encode, Decode, TrailingWhitespace;
    forall cp: Scalar ensures !EndsInWhitespace(s, cp) {
      if EndsInWhitespace(s, cp) {
        var at := |s| - |Encode(cp)|;
        var e := Encode(cp);
        assert forall k | at <= k < |s| :: s[k] == e[k - at];
        assert |e| >= 2 && !IsContinuation(e[0]);
        assert at == start;
        DecodeEncode(cp);
      }
    }
  }

  lemma {:induction false} NoCharacterHere(s: Text, start: nat)
    requires start < |s| && s[|s| - 1] >= 0x80
    requires forall k | start < k < |s| :: IsContinuation(s[k])
    requires start == 0 || !IsContinuation(s[start])
    requires Announced(s[start]) != |s| - start
    ensures TrailingWhitespace(s) == 0
  {
    assert s[start..][0] == s[start];
    NotDecodable(s, start);
  }

  lemma {:induction false} EncodeNothing()
    ensures EncodeAll([]) == []
  {
  }

  lemma {:induction false} TrimStep(s: Text)
    ensures var n := TrailingWhitespace(s);
      Trim(s) == if n == 0 then s else Trim(s[..|s| - n])
    ensures s == [] ==> Trim(s) == []
  {
    hide TrailingWhitespace, Encode;
  }

  /** The trimming loop of `message_store_set`. */
  method TrimLength(message: Text) returns (len: nat)
    ensures len <= |message| && message[..len] == Trim(message)
  {
    hide Encode, TrailingWhitespace, EndsInWhitespace, Trim;
    len := |message|;
    assert message[..len] == message;
    while len > 0
      invariant len <= |message|
      invariant Trim(message[..len]) == Trim(message)
    {
      var trimmed := TrailingWhitespaceBytes(message, len);
      TrimStep(message[..len]);
      if trimmed == 0 {
        return;
      }
      assert message[..len][..len - trimmed] == message[..len - trimmed];
      len := len - trimmed;
    }
    TrimStep([]);
  }

  /** cs without the White_Space characters at its end. */
  function DropTrailingWhitespace(cs: seq<Scalar>): (r: seq<Scalar>)
    ensures r <= cs
    ensures r == [] || !IsWhitespace(r[|r| - 1])
  {
    if cs != [] && IsWhitespace(cs[|cs| - 1]) then DropTrailingWhitespace(cs[..|cs| - 1]) else cs
  }

  /**
   * On UTF-8 text the byte scan is the character-level trim: decode, drop the
   * longest White_Space suffix, encode again.
   */
  lemma {:induction false} TrimIsCharacterTrim(cs: seq<Scalar>)
    ensures Trim(EncodeAll(cs)) == EncodeAll(DropTrailingWhitespace(cs))
    decreases |cs|
  {
    var s := EncodeAll(cs);
    if cs != [] {
      var last := cs[|cs| - 1];
      EncodeAllSnoc(cs[..|cs| - 1], last);
      assert cs[..|cs| - 1] + [last] == cs;
      assert EndsWith(s, Encode(last));
      LastCharacterDecides(s, last);
      if IsWhitespace(last) {
        assert s[..|s| - |Encode(last)|] == EncodeAll(cs[..|cs| - 1]);
        TrimIsCharacterTrim(cs[..|cs| - 1]);
      }
    } else {
      forall cp: Scalar ensures !EndsInWhitespace(s, cp) {
      }
    }
  }

  /**
   * On arbitrary bytes, valid UTF-8 or not, what the trim removes is a run of
   * whole whitespace encodings, and trimming again removes nothing.
   */
  lemma {:induction false} TrimRemovesWhitespaceOnly(s: Text) returns (removed: seq<Scalar>)
    ensures forall cp <- removed :: IsWhitespace(cp)
    ensures s == Trim(s) + EncodeAll(removed)
    ensures Trim(Trim(s)) == Trim(s)
    decreases |s|
  {
    hide Encode, EncodeAll, IsWhitespace, TrailingWhitespace, Trim;
    removed := [];
    TrimStep(s);
    TrimStep(Trim(s));
    EncodeNothing();
    var n := TrailingWhitespace(s);
    if n > 0 {
      var cp: Scalar :| EndsInWhitespace(s, cp);
      TrailingWhitespaceIs(s, cp);
      var before := TrimRemovesWhitespaceOnly(s[..|s| - n]);
      removed := before + [cp];
      EncodeAllSnoc(before, cp);
      assert s == s[..|s| - n] + Encode(cp);
    }
  }

  // ---------------------------------------------------------------- in bytes

  /** The UTF-8 of white space: tab to carriage return, the space, and U+0085, U+00A0, U+1680, and so on. */
  predicate IsEnding(e: Text) {
    || (|e| == 1 && (0x09 <= e[0] <= 0x0D || e[0] == 0x20))
    || e == [0xC2, 0x85] || e == [0xC2, 0xA0] || e == [0xE1, 0x9A, 0x80]
    || (|e| == 3 && e[0] == 0xE2 && e[1] == 0x80 && (0x80 <= e[2] <= 0x8A || e[2] in {0xA8, 0xA9, 0xAF}))
    || e == [0xE2, 0x81, 0x9F] || e == [0xE3, 0x80, 0x80]
  }

  /** r is s without such endings, as many as there are. */
  ghost predicate Trimmed(s: Text, r: Text) {
    && (forall e: Text | IsEnding(e) :: !EndsWith(r, e))
    && exists es: seq<Text> :: (forall e <- es :: IsEnding(e)) && s == r + Joined(es)
  }

  function Joined(es: seq<Text>): Text {
    if es == [] then [] else Joined(es[..|es| - 1]) + es[|es| - 1]
  }

  lemma {:induction false} WhitespaceIsEnding(cp: Scalar)
    ensures IsWhitespace(cp) <==> IsEnding(Encode(cp))
  {
    EncodedBytes(cp);
  }

  /** The character that an ending encodes. */
  lemma {:induction false} EndingIsWhitespace(e: Text) returns (cp: Scalar)
    requires IsEnding(e)
    ensures IsWhitespace(cp) && Encode(cp) == e
  {
    if |e| == 3 {
      cp := ThreeByteEnding(e);
    } else {
      cp := e[|e| - 1];
      EncodedBytes(cp);
    }
  }

  lemma {:induction false} ThreeByteEnding(e: Text) returns (cp: Scalar)
    requires IsEnding(e) && |e| == 3
    ensures IsWhitespace(cp) && Encode(cp) == e
  {
    hide Encode;
    var c := 0x1000 * (e[0] as int - 0xE0) + 0x40 * (e[1] as int - 0x80) + (e[2] as int - 0x80);
    assert c in {0x1680, 0x2028, 0x2029, 0x202F, 0x205F, 0x3000} || 0x2000 <= c <= 0x200A;
    cp := c;
    EncodedBytes(cp);
  }

  /** An ending at the end of a text makes no difference to the trim, and a text that has none is left as it is. */
  lemma {:induction false} TrimInBytes(s: Text)
    ensures forall e: Text | IsEnding(e) :: Trim(s + e) == Trim(s)
    ensures (forall e: Text | IsEnding(e) :: !EndsWith(s, e)) ==> Trim(s) == s
  {
    hide IsEnding, IsWhitespace, Encode, Trim, TrailingWhitespace;
    forall e: Text | IsEnding(e) ensures Trim(s + e) == Trim(s) {
      var cp := EndingIsWhitespace(e);
      assert (s + e)[|s|..] == e && (s + e)[..|s|] == s;
      TrailingWhitespaceIs(s + e, cp);
      TrimStep(s + e);
    }
    if forall e: Text | IsEnding(e) :: !EndsWith(s, e) {
      forall cp: Scalar ensures !EndsInWhitespace(s, cp) {
        WhitespaceIsEnding(cp);
      }
      TrimStep(s);
    }
  }

  /** The trim, on any bytes, takes away exactly the endings at the end. */
  lemma {:induction false} TrimTakesEndings(s: Text)
    ensures Trimmed(s, Trim(s))
    decreases |s|
  {
    hide IsEnding, IsWhitespace, Encode, Trim, TrailingWhitespace;
    TrimStep(s);
    var n := TrailingWhitespace(s);
    if n == 0 {
      forall e: Text | IsEnding(e) ensures !EndsWith(s, e) {
        var cp := EndingIsWhitespace(e);
        assert !EndsInWhitespace(s, cp);
      }
      var none: seq<Text> := [];
      assert s == s + Joined(none);
    } else {
      var cp: Scalar :| EndsInWhitespace(s, cp);
      TrailingWhitespaceIs(s, cp);
      WhitespaceIsEnding(cp);
      var front := s[..|s| - n];
      TrimTakesEndings(front);
      assert s == front + Encode(cp);
      OneMoreEnding(front, Encode(cp), Trim(front));
    }
  }

  lemma {:induction false} OneMoreEnding(front: Text, e: Text, r: Text)
    requires Trimmed(front, r) && IsEnding(e)
    ensures Trimmed(front + e, r)
  {
    hide IsEnding;
    var es: seq<Text> :| (forall x <- es :: IsEnding(x)) && front == r + Joined(es);
    var all := es + [e];
    assert all[..|es|] == es;
    assert front + e == r + Joined(all);
  }
}
