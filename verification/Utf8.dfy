/**
 * UTF-8 as RFC 3629 section 3 defines it. The shifts and masks of the source
 * are divisions and remainders here: `cp >> 6` is `cp / 0x40`, `cp & 0x3F` is
 * `cp % 0x40`, and `(b & 0xC0) == 0x80` is `0x80 <= b < 0xC0`.
 */
module Utf8 {
  import opened Bytes
  import opened HttpBuffer

  /** A Unicode scalar value: any code point that is not a surrogate. */
  type Scalar = cp: int | 0 <= cp <= 0x10FFFF && !(0xD800 <= cp <= 0xDFFF) witness 0

  predicate IsContinuation(b: byte) {
    0x80 <= b < 0xC0
  }

  /** The six payload bits of a continuation byte. */
  function Payload(b: byte): (r: nat)
    requires IsContinuation(b)
  {
    b as int - 0x80
  }

  /** `cp >> 6 * n`. */
  function Quotient(cp: nat, n: nat): (q: nat)
    ensures n == 1 ==> q == cp / 0x40
    ensures n == 2 ==> q == cp / 0x1000
    ensures n == 3 ==> q == cp / 0x40000
  {
    if n == 0 then cp else Quotient(cp / 0x40, n - 1)
  }

  /** The low 6 * n bits of cp as n continuation bytes. */
  function Tail(cp: nat, n: nat): (r: Text)
    ensures |r| == n
    ensures forall k | 0 <= k < n :: IsContinuation(r[k])
  {
    if n == 0 then [] else Tail(cp / 0x40, n - 1) + [0x80 + cp % 0x40]
  }

  /** The encoding of one code point: its length, and so its lead byte, follow its size. */
  function Encode(cp: int): (r: Text)
    requires 0 <= cp <= 0x10FFFF
    ensures 1 <= |r| <= 4
    ensures |r| == 1 <==> r[0] < 0x80
    ensures |r| >= 2 ==> Announced(r[0]) == |r|
    ensures forall k | 1 <= k < |r| :: IsContinuation(r[k])
  {
    if cp <= 0x7F then [cp]
    else if cp <= 0x7FF then [0xC0 + Quotient(cp, 1)] + Tail(cp, 1)
    else if cp <= 0xFFFF then [0xE0 + Quotient(cp, 2)] + Tail(cp, 2)
    else [0xF0 + Quotient(cp, 3)] + Tail(cp, 3)
  }

  /** RFC 3629 section 3, byte by byte. */
  lemma {:induction false} EncodedBytes(cp: Scalar)
    ensures Encode(cp) ==
      if cp < 0x80 then [cp]
      else if cp < 0x800 then [0xC0 + cp / 0x40, 0x80 + cp % 0x40]
      else if cp < 0x1_0000 then [0xE0 + cp / 0x1000, 0x80 + cp / 0x40 % 0x40, 0x80 + cp % 0x40]
      else [0xF0 + cp / 0x4_0000, 0x80 + cp / 0x1000 % 0x40, 0x80 + cp / 0x40 % 0x40, 0x80 + cp % 0x40]
  {
    TailBytes(cp);
  }

  lemma {:induction false} TailBytes(cp: nat)
    ensures Tail(cp, 1) == [0x80 + cp % 0x40]
    ensures Tail(cp, 2) == [0x80 + cp / 0x40 % 0x40, 0x80 + cp % 0x40]
    ensures Tail(cp, 3) == [0x80 + cp / 0x1000 % 0x40, 0x80 + cp / 0x40 % 0x40, 0x80 + cp % 0x40]
  {
    assert cp / 0x40 / 0x40 == cp / 0x1000;
    assert Tail(cp / 0x1000, 0) == [];
    assert Tail(cp / 0x1000, 1) == [0x80 + cp / 0x1000 % 0x40];
    assert Tail(cp / 0x40, 0) == [] && Tail(cp / 0x40, 1) == [0x80 + cp / 0x40 % 0x40];
    assert Tail(cp / 0x40, 2) == [0x80 + cp / 0x1000 % 0x40, 0x80 + cp / 0x40 % 0x40];
    assert Tail(cp, 0) == [];
  }

  /** The encoding of a text. */
  function EncodeAll(cs: seq<Scalar>): Text {
    if cs == [] then [] else Encode(cs[0]) + EncodeAll(cs[1..])
  }

  /** Six payload bits per continuation byte. */
  function Shift(acc: nat, tail: Text): (r: nat)
    requires forall b <- tail :: IsContinuation(b)
  {
    if tail == [] then acc else 0x40 * Shift(acc, tail[..|tail| - 1]) + Payload(tail[|tail| - 1])
  }

  /** The length a lead byte announces; 0 for a byte that cannot lead a longer sequence. */
  function Announced(lead: byte): nat {
    if 0xC0 <= lead < 0xE0 then 2
    else if 0xE0 <= lead < 0xF0 then 3
    else if 0xF0 <= lead < 0xF8 then 4
    else 0
  }

  /** The payload bits of a lead byte. */
  function LeadBits(lead: byte): nat
    requires Announced(lead) != 0
  {
    lead as int - if lead < 0xE0 then 0xC0 else if lead < 0xF0 then 0xE0 else 0xF0
  }

  /** The smallest code point a sequence of n bytes may carry: shorter ones are overlong. */
  function Smallest(n: nat): nat {
    if n == 2 then 0x80 else if n == 3 then 0x800 else 0x1_0000
  }

  /**
   * The strict decoder of one sequence: the lead byte fixes the length, the
   * rest are continuation bytes, and overlong forms, surrogates and values
   * past U+10FFFF are refused.
   */
  function Decode(bs: Text): Option<Scalar> {
    if |bs| == 1 && bs[0] < 0x80 then
      Some(bs[0])
    else if |bs| < 2 || Announced(bs[0]) != |bs| || exists b <- bs[1..] :: !IsContinuation(b) then
      None
    else
      var cp: int := Shift(LeadBits(bs[0]), bs[1..]);
      if cp < Smallest(|bs|) || 0xD800 <= cp <= 0xDFFF || cp > 0x10FFFF then None else Some(cp)
  }

  /** Shifting the bits of cp back in gives cp. */
  lemma {:induction false} ShiftTail(cp: nat, n: nat)
    ensures Shift(Quotient(cp, n), Tail(cp, n)) == cp
  {
    if n > 0 {
      ShiftTail(cp / 0x40, n - 1);
      var tail := Tail(cp, n);
      assert tail[..n - 1] == Tail(cp / 0x40, n - 1);
      assert Payload(tail[n - 1]) == cp % 0x40;
    }
  }

  lemma {:induction false} SixBits(q: nat, p: nat)
    requires p < 0x40
    ensures (0x40 * q + p) / 0x40 == q && (0x40 * q + p) % 0x40 == p
  {
  }

  /** The payload of a tail determines the tail. */
  lemma {:induction false} TailShift(acc: nat, tail: Text)
    requires forall b <- tail :: IsContinuation(b)
    ensures Quotient(Shift(acc, tail), |tail|) == acc
    ensures Tail(Shift(acc, tail), |tail|) == tail
  {
    if tail != [] {
      var n := |tail| - 1;
      TailShift(acc, tail[..n]);
      assert tail == tail[..n] + [tail[n]];
      assert tail[n] in tail;
      SixBits(Shift(acc, tail[..n]), Payload(tail[n]));
    }
  }

  lemma {:induction false} DecodeLong(lead: byte, tail: Text, cp: Scalar)
    requires tail != [] && Announced(lead) == 1 + |tail|
    requires forall b <- tail :: IsContinuation(b)
    requires Shift(LeadBits(lead), tail) == cp && Smallest(1 + |tail|) <= cp
    ensures Decode([lead] + tail) == Some(cp)
  {
    assert ([lead] + tail)[1..] == tail;
  }

  /** The decoder inverts the encoder on every scalar value. */
  lemma {:induction false} DecodeEncode(cp: Scalar)
    ensures Decode(Encode(cp)) == Some(cp)
  {
    hide Tail, Shift;
    if 0x7F < cp <= 0x7FF {
      ShiftTail(cp, 1);
      DecodeLong(0xC0 + Quotient(cp, 1), Tail(cp, 1), cp);
    } else if 0x7FF < cp <= 0xFFFF {
      ShiftTail(cp, 2);
      DecodeLong(0xE0 + Quotient(cp, 2), Tail(cp, 2), cp);
    } else if cp > 0xFFFF {
      ShiftTail(cp, 3);
      DecodeLong(0xF0 + Quotient(cp, 3), Tail(cp, 3), cp);
    }
  }

  lemma {:induction false} EncodeLong(lead: byte, tail: Text, cp: nat)
    requires tail != [] && Announced(lead) == 1 + |tail|
    requires Smallest(1 + |tail|) <= cp <= 0x10FFFF
    requires Quotient(cp, |tail|) == LeadBits(lead) && Tail(cp, |tail|) == tail
    ensures Encode(cp) == [lead] + tail
  {
    hide Quotient, Tail;
    if |tail| == 1 {
      assert cp <= 0x7FF;
    } else if |tail| == 2 {
      assert 0x7FF < cp <= 0xFFFF;
    }
  }

  /** The decoder accepts nothing but encodings: there is one encoding per scalar value. */
  lemma {:induction false} EncodeDecode(bs: Text)
    requires Decode(bs).Some?
    ensures Encode(Decode(bs).value) == bs
  {
    hide Encode, Quotient, Tail;
    if |bs| == 1 {
      EncodeShort(bs[0]);
    } else {
      var lead, tail := bs[0], bs[1..];
      TailShift(LeadBits(lead), tail);
      EncodeLong(lead, tail, Decode(bs).value);
      assert bs == [lead] + tail;
    }
  }

  lemma {:induction false} EncodeShort(cp: nat)
    requires cp < 0x80
    ensures Encode(cp) == [cp]
  {
  }

  ghost predicate EndsWith(s: Text, t: Text) {
    |t| <= |s| && s[|s| - |t|..] == t
  }

  /** No encoding is a proper suffix of another: a text has at most one last character. */
  lemma {:induction false} SuffixFree(s: Text, a: Scalar, b: Scalar)
    requires EndsWith(s, Encode(a)) && EndsWith(s, Encode(b))
    ensures a == b
  {
    var x, y := Encode(a), Encode(b);
    assert s[|s| - |x|] == x[0] && s[|s| - |y|] == y[0];
    if |x| != |y| {
      assert if |x| < |y| then IsContinuation(y[|y| - |x|]) else IsContinuation(x[|x| - |y|]);
    }
    DecodeEncode(a);
    DecodeEncode(b);
  }

  lemma {:induction false} ConcatOnce(x: Text, y: Text, z: Text)
    ensures x + (y + z) == (x + y) + z
  {
  }

  lemma {:induction false} EncodeAllConcat(a: seq<Scalar>, b: seq<Scalar>)
    ensures EncodeAll(a + b) == EncodeAll(a) + EncodeAll(b)
  {
    hide Encode;
    if a == [] {
      assert a + b == b;
    } else {
      EncodeAllConcat(a[1..], b);
      assert (a + b)[1..] == a[1..] + b && (a + b)[0] == a[0];
      ConcatOnce(Encode(a[0]), EncodeAll(a[1..]), EncodeAll(b));
    }
  }

  lemma {:induction false} EncodeAllSnoc(cs: seq<Scalar>, cp: Scalar)
    ensures EncodeAll(cs + [cp]) == EncodeAll(cs) + Encode(cp)
  {
    hide Encode;
    EncodeAllConcat(cs, [cp]);
    assert EncodeAll([cp]) == Encode(cp) + EncodeAll([]);
  }

  /** A text without U+0000 has no NUL byte. */
  lemma {:induction false} EncodeAllNulFree(cs: seq<Scalar>)
    requires 0 !in cs
    ensures NUL !in EncodeAll(cs)
  {
    if cs != [] {
      EncodeAllNulFree(cs[1..]);
      assert cs[0] != 0;
      assert NUL !in Encode(cs[0]);
    }
  }

  /** The tail, written with the shifts and masks of the source. */
  lemma {:induction false} TailWritten(cp: nat)
    ensures Tail(cp, 1) == [0x80 + cp % 0x40]
    ensures Tail(cp, 2) == [0x80 + cp / 0x40 % 0x40, 0x80 + cp % 0x40]
    ensures Tail(cp, 3) == [0x80 + cp / 0x1000 % 0x40, 0x80 + cp / 0x40 % 0x40, 0x80 + cp % 0x40]
  {
    var q := cp / 0x40;
    assert Tail(cp, 1) == Tail(q, 0) + [0x80 + cp % 0x40];
    assert Tail(q, 1) == Tail(q / 0x40, 0) + [0x80 + q % 0x40];
    assert Tail(q, 2) == Tail(q / 0x40, 1) + [0x80 + q % 0x40];
    assert Tail(q / 0x40, 1) == [0x80 + q / 0x40 % 0x40];
    assert q / 0x40 == cp / 0x1000;
  }

  /** `http_buf_append_utf8`: appends one encoding, or refuses a value past U+10FFFF. */
  method AppendUtf8(buf: Buffer, cp: nat, heap: Heap) returns (ok: bool)
    requires buf.Valid() && buf.len + 5 <= SIZE_MAX
    modifies buf, buf.data, heap
    ensures buf.Valid() && (buf.data == old(buf.data) || fresh(buf.data))
    ensures ok ==> cp <= 0x10FFFF && buf.Contents() == old(buf.Contents()) + Encode(cp)
    ensures !ok ==> buf.Contents() == old(buf.Contents())
    ensures !ok ==> cp > 0x10FFFF || heap.failed || old(buf.len) + 5 > 0x8000_0000_0000_0000
    ensures ok ==> heap.failed == old(heap.failed)
    ensures old(heap.failed) ==> heap.failed
  {
    var encoded: Text := [];
    if cp <= 0x7F {
      encoded := [cp];
    } else if cp <= 0x7FF {
      encoded := [0xC0 + cp / 0x40, 0x80 + cp % 0x40];
    } else if cp <= 0xFFFF {
      encoded := [0xE0 + cp / 0x1000, 0x80 + cp / 0x40 % 0x40, 0x80 + cp % 0x40];
    } else if cp <= 0x10FFFF {
      encoded := [0xF0 + cp / 0x40000, 0x80 + cp / 0x1000 % 0x40, 0x80 + cp / 0x40 % 0x40, 0x80 + cp % 0x40];
    } else {
      return false;
    }
    TailWritten(cp);
    assert encoded == Encode(cp);
    ok := buf.Append(encoded, heap);
  }
}
