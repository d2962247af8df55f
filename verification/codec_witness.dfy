// The assumption made of the header codec can be met: a toy codec that meets it. It says nothing about
// the real one.
module CodecWitness {
  import opened Prelude
  import opened Masker
  import opened Frames

  function TypeByte(t: FrameType): Byte {
    match t
    case Text(fragmented) => if fragmented then Byte(0) else Byte(1)
    case Binary(fragmented) => if fragmented then Byte(2) else Byte(3)
    case Continue(final) => if final then Byte(4) else Byte(5)
    case Ping => Byte(6)
    case Pong => Byte(7)
    case Close => Byte(8)
  }

  // A length in unary, closed by a zero.
  function Unary(n: nat): seq<Byte> {
    seq(n, _ => Byte(1)) + [Byte(0)]
  }

  function ToyEncode(h: FrameHeader): (s: seq<Byte>)
    ensures s != []
  {
    [TypeByte(h.frameType), Byte(if h.maskKey.Some? then 1 else 0)]
    + (if h.maskKey.Some? then h.maskKey.value else [Byte(0), Byte(0), Byte(0), Byte(0)])
    + Unary(h.payloadLen)
  }

  ghost function ToyParse(s: seq<Byte>): Parsed {
    if exists h, rest :: s == ToyEncode(h) + rest then
      var h, rest :| s == ToyEncode(h) + rest;
      Header(h, |ToyEncode(h)|)
    else Malformed(|s|)
  }

  lemma {:induction false} UnaryDigits(n: nat, r: seq<Byte>)
    ensures forall i :: 0 <= i < n ==> (Unary(n) + r)[i] == Byte(1)
    ensures (Unary(n) + r)[n] == Byte(0)
  {
  }

  lemma {:induction false} UnaryIsPrefixFree(n: nat, r: seq<Byte>, m: nat, q: seq<Byte>)
    requires Unary(n) + r == Unary(m) + q
    ensures n == m
  {
    UnaryDigits(n, r);
    UnaryDigits(m, q);
  }

  lemma {:induction false} ToyIsPrefixFree(h: FrameHeader, r: seq<Byte>, g: FrameHeader, q: seq<Byte>)
    requires ToyEncode(h) + r == ToyEncode(g) + q
    ensures h == g
  {
    var s, t := ToyEncode(h) + r, ToyEncode(g) + q;
    assert s[0] == TypeByte(h.frameType) && t[0] == TypeByte(g.frameType);
    assert s[1] == Byte(if h.maskKey.Some? then 1 else 0) && t[1] == Byte(if g.maskKey.Some? then 1 else 0);
    assert h.maskKey.Some? ==> s[2..6] == h.maskKey.value && t[2..6] == g.maskKey.value;
    assert s[6..] == Unary(h.payloadLen) + r && t[6..] == Unary(g.payloadLen) + q;
    UnaryIsPrefixFree(h.payloadLen, r, g.payloadLen, q);
  }

  lemma {:induction false} LawfulCodecExists()
    ensures exists c: Codec :: Lawful(c)
  {
    var c := Codec(s => ToyParse(s), h => ToyEncode(h));
    forall h: FrameHeader, rest: seq<Byte>
      ensures c.encode(h) != [] && c.parse(c.encode(h) + rest) == Header(h, |c.encode(h)|)
    {
      var s := ToyEncode(h) + rest;
      var g, q :| s == ToyEncode(g) + q && ToyParse(s) == Header(g, |ToyEncode(g)|);
      ToyIsPrefixFree(h, rest, g, q);
    }
    assert Lawful(c);
  }
}
