/** What valid UTF-8 is: the check that both decoders rely on accepts exactly the encodings of
    sequences of Unicode scalar values. */
module Unicode {
  import opened Prelude
  import opened Wire

  /** A code point that is not a surrogate. */
  type Scalar = c: nat | c < 0xD800 || 0xE000 <= c < 0x11_0000

  function Encode(c: Scalar): Bytes {
    if c < 0x80 then [c]
    else if c < 0x800 then [0xC0 + c / 0x40, 0x80 + c % 0x40]
    else
      var sextets := c / 0x40;
      if c < 0x1_0000 then [0xE0 + sextets / 0x40, 0x80 + sextets % 0x40, 0x80 + c % 0x40]
      else
        var more := sextets / 0x40;
        [0xF0 + more / 0x40, 0x80 + more % 0x40, 0x80 + sextets % 0x40, 0x80 + c % 0x40]
  }

  function EncodeAll(cs: seq<Scalar>): Bytes {
    if cs == [] then [] else Encode(cs[0]) + EncodeAll(cs[1..])
  }

  lemma EncodedStart(c: Scalar, more: Bytes)
    ensures CharLength(Encode(c) + more) == |Encode(c)|
  {
    var b := Encode(c) + more;
    assert forall i :: 0 <= i < |Encode(c)| ==> b[i] == Encode(c)[i];
  }

  /** The scalar value that a well-formed character encodes. */
  lemma Decoded(b: Bytes) returns (c: Scalar)
    requires b != [] && CharLength(b) > 0
    ensures Encode(c) == b[..CharLength(b)]
  {
    match CharLength(b) {
      case 1 =>
        c := b[0];
        assert b[..1] == [b[0]];
      case 2 =>
        c := Append(b[0] - 0xC0, b[1] - 0x80);
        assert b[..2] == [b[0], b[1]];
      case 3 =>
        var sextets := Append(b[0] - 0xE0, b[1] - 0x80);
        c := Append(sextets, b[2] - 0x80);
        assert b[..3] == [b[0], b[1], b[2]];
      case _ =>
        var more := Append(b[0] - 0xF0, b[1] - 0x80);
        var sextets := Append(more, b[2] - 0x80);
        c := Append(sextets, b[3] - 0x80);
        assert b[..4] == [b[0], b[1], b[2], b[3]];
    }
  }

  /** One more group of six bits. */
  lemma Append(high: nat, low: nat) returns (x: nat)
    requires low < 0x40
    ensures x == 0x40 * high + low && x / 0x40 == high && x % 0x40 == low
  {
    x := 0x40 * high + low;
  }

  /** Valid UTF-8 is what encodes some sequence of scalar values. */
  lemma Utf8Exact(b: Bytes)
    ensures ValidUtf8(b) <==> exists cs :: b == EncodeAll(cs)
  {
    hide ValidUtf8, EncodeAll;
    if ValidUtf8(b) {
      var cs := AllDecoded(b);
    }
    if exists cs :: b == EncodeAll(cs) {
      var cs :| b == EncodeAll(cs);
      EncodedIsValid(cs);
    }
  }

  lemma {:induction false} AllDecoded(b: Bytes) returns (cs: seq<Scalar>)
    requires ValidUtf8(b)
    ensures EncodeAll(cs) == b
    decreases |b|
  {
    hide CharLength, Encode;
    if b == [] {
      cs := [];
    } else {
      var n := CharLength(b);
      var c := Decoded(b);
      var rest := AllDecoded(b[n..]);
      cs := [c] + rest;
      assert cs[1..] == rest;
      assert b == b[..n] + b[n..];
    }
  }

  lemma {:induction false} EncodedIsValid(cs: seq<Scalar>)
    ensures ValidUtf8(EncodeAll(cs))
  {
    hide CharLength, Encode;
    if cs != [] {
      var first, rest := Encode(cs[0]), EncodeAll(cs[1..]);
      EncodedStart(cs[0], rest);
      EncodedIsValid(cs[1..]);
      NotNothing(cs[0]);
      assert (first + rest)[|first|..] == rest;
    }
  }

  lemma NotNothing(c: Scalar)
    ensures Encode(c) != []
  {
  }
}
