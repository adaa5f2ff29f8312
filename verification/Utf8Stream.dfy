/**
 * Decoding a whole body as the Encoding Standard's "UTF-8 decode" does: a byte
 * order mark at the front is dropped, and each ill-formed piece becomes U+FFFD.
 */
module Utf8Stream {
  import opened Bytes
  import opened Utf8

  const REPLACEMENT: Scalar := 0xFFFD

  /** EF BB BF */
  function Mark(): Text { [0xEF, 0xBB, 0xBF] }

  /** The length of the well-formed sequence t starts with; 0 when there is none. */
  function GoodLength(t: Text): (n: nat)
    requires t != []
    ensures n <= |t| && (n > 0 ==> Decode(t[..n]).Some?)
  {
    if t[0] < 0x80 then 1
    else
      var n := Announced(t[0]);
      if 0 < n <= |t| && Decode(t[..n]).Some? then n else 0
  }

  /** The bounds of the byte after a lead byte: they rule out overlong forms, surrogates and values past U+10FFFF. */
  predicate Follows(lead: byte, b: byte) {
    (if lead == 0xE0 then 0xA0 else if lead == 0xF0 then 0x90 else 0x80) <= b
    && b <= (if lead == 0xED then 0x9F else if lead == 0xF4 then 0x8F else 0xBF)
  }

  /** How much of an ill-formed piece one replacement stands for: all that could have begun a sequence. */
  function BadLength(t: Text): (n: nat)
    requires t != []
    ensures 0 < n <= |t|
  {
    if !(0xC2 <= t[0] <= 0xF4) || |t| == 1 || !Follows(t[0], t[1]) then 1
    else if Announced(t[0]) == 2 || |t| == 2 || !IsContinuation(t[2]) then 2
    else if Announced(t[0]) == 3 || |t| == 3 || !IsContinuation(t[3]) then 3
    else 4
  }

  function DecodePieces(t: Text): seq<Scalar>
    decreases |t|
  {
    if t == [] then []
    else
      var n := GoodLength(t);
      if n > 0 then [Decode(t[..n]).value] + DecodePieces(t[n..])
      else [REPLACEMENT] + DecodePieces(t[BadLength(t)..])
  }

  /** "UTF-8 decode". */
  function DecodeBody(t: Text): seq<Scalar> {
    DecodePieces(if Mark() <= t then t[3..] else t)
  }

  // ---------------------------------------------------------------- well-formed texts

  lemma {:induction false} GoodLengthIs(cp: Scalar, rest: Text)
    ensures var t := Encode(cp) + rest;
      t != [] && GoodLength(t) == |Encode(cp)| && t[..|Encode(cp)|] == Encode(cp) && t[|Encode(cp)|..] == rest
  {
    DecodeEncode(cp);
    var t := Encode(cp) + rest;
    hide Encode, Decode;
    assert t[0] == Encode(cp)[0] && t[..|Encode(cp)|] == Encode(cp);
  }

  lemma {:induction false} FirstPiece(cp: Scalar, rest: Text)
    ensures DecodePieces(Encode(cp) + rest) == [cp] + DecodePieces(rest)
  {
    hide Encode, GoodLength, Decode;
    DecodeEncode(cp);
    GoodLengthIs(cp, rest);
  }

  /** A well-formed text is decoded to its characters, and what follows it is decoded on its own. */
  lemma {:induction false} DecodesEncodedText(cs: seq<Scalar>, rest: Text)
    ensures DecodePieces(EncodeAll(cs) + rest) == cs + DecodePieces(rest)
  {
    hide Encode, DecodePieces;
    if cs == [] {
      assert EncodeAll(cs) + rest == rest;
    } else {
      DecodesEncodedText(cs[1..], rest);
      FirstPiece(cs[0], EncodeAll(cs[1..]) + rest);
      assert EncodeAll(cs) + rest == Encode(cs[0]) + (EncodeAll(cs[1..]) + rest);
      assert cs == [cs[0]] + cs[1..];
    }
  }

  /** Bytes none of which begins a sequence are all replaced. */
  lemma {:induction false} ContinuationsAreReplaced(t: Text)
    requires forall k | 0 <= k < |t| :: IsContinuation(t[k])
    ensures forall c <- DecodePieces(t) :: c == REPLACEMENT
    decreases |t|
  {
    hide Decode, BadLength;
    if t != [] {
      assert IsContinuation(t[0]) && GoodLength(t) == 0;
      var rest := t[BadLength(t)..];
      assert forall k | 0 <= k < |rest| :: rest[k] == t[BadLength(t) + k];
      ContinuationsAreReplaced(rest);
    }
  }

  lemma {:induction false} NoGoodLength(t: Text)
    requires t != [] && t[0] >= 0x80 && |t| < Announced(t[0])
    ensures GoodLength(t) == 0
  {
  }

  /** A character cut short is replaced, and nothing else comes of it. */
  lemma {:induction false} CutCharacterIsReplaced(cp: Scalar, k: nat)
    requires k < |Encode(cp)|
    ensures forall c <- DecodePieces(Encode(cp)[..k]) :: c == REPLACEMENT
  {
    hide Encode, Decode, BadLength, GoodLength;
    var part := Encode(cp)[..k];
    if k > 0 {
      assert part[0] == Encode(cp)[0] && Announced(part[0]) == |Encode(cp)|;
      NoGoodLength(part);
      var rest := part[BadLength(part)..];
      assert forall i | 0 <= i < |rest| :: rest[i] == Encode(cp)[BadLength(part) + i];
      ContinuationsAreReplaced(rest);
    }
  }

  /** A well-formed text cut after any byte: its first characters, and at most replacements after them. */
  lemma {:induction false} CutText(cs: seq<Scalar>, t: Text) returns (k: nat, junk: seq<Scalar>)
    requires t <= EncodeAll(cs)
    ensures k <= |cs| && DecodePieces(t) == cs[..k] + junk
    ensures forall c <- junk :: c == REPLACEMENT
    decreases |cs|
  {
    hide Encode, DecodePieces;
    if cs == [] {
      k, junk := 0, [];
      NothingDecodes();
    } else {
      var first := Encode(cs[0]);
      if |t| < |first| {
        assert t == first[..|t|];
        CutCharacterIsReplaced(cs[0], |t|);
        k, junk := 0, DecodePieces(t);
      } else {
        var rest := t[|first|..];
        assert t == first + rest && rest <= EncodeAll(cs[1..]);
        k, junk := CutText(cs[1..], rest);
        FirstPiece(cs[0], rest);
        k := k + 1;
        assert cs[..k] == [cs[0]] + cs[1..][..k - 1];
      }
    }
  }

  lemma {:induction false} NothingDecodes()
    ensures DecodePieces([]) == []
  {
  }

  /** A byte below 0x80 stands in an encoding only for the character it is. */
  lemma {:induction false} AsciiIsItself(cs: seq<Scalar>, b: byte)
    requires b < 0x80
    ensures b in EncodeAll(cs) <==> b in cs
  {
    hide Encode;
    if cs != [] {
      AsciiIsItself(cs[1..], b);
      AsciiAlone(cs[0], b);
      assert cs == [cs[0]] + cs[1..];
    }
  }

  lemma {:induction false} AsciiAlone(cp: Scalar, b: byte)
    requires b < 0x80
    ensures b in Encode(cp) <==> b == cp
  {
    if cp > 0x7F {
      assert Encode(cp)[0] >= 0x80;
    }
  }

  /** The parts of an encoded text around its first b. */
  lemma {:induction false} EncodedIndex(cs: seq<Scalar>, b: byte)
    requires b < 0x80
    ensures var n := IndexOf(cs, b);
      && IndexOf(EncodeAll(cs), b) == |EncodeAll(cs[..n])|
      && EncodeAll(cs)[..|EncodeAll(cs[..n])|] == EncodeAll(cs[..n])
      && (n == |cs| ==> EncodeAll(cs[..n]) == EncodeAll(cs))
      && (n < |cs| ==> EncodeAll(cs) == EncodeAll(cs[..n]) + [b] + EncodeAll(cs[n + 1..]))
  {
    hide EncodeAll, IndexOf;
    var n := IndexOf(cs, b);
    AsciiIsItself(cs[..n], b);
    if n == |cs| {
      assert cs[..n] == cs;
      IndexOfIs(EncodeAll(cs), b, |EncodeAll(cs)|);
    } else {
      EncodeOne(b);
      EncodeAllConcat(cs[..n] + [cs[n]], cs[n + 1..]);
      EncodeAllConcat(cs[..n], [cs[n]]);
      assert cs == cs[..n] + [cs[n]] + cs[n + 1..];
      IndexOfIs(EncodeAll(cs), b, |EncodeAll(cs[..n])|);
    }
  }

  lemma {:induction false} EncodeOne(b: byte)
    requires b < 0x80
    ensures EncodeAll([b]) == [b]
  {
    EncodeShort(b);
  }
}
