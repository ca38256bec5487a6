/**
 Definite-length encoding of tagged elements (section 10.1 of X.690), as the keystore code reads
 and writes it: lengths are minimal, below 2^31, and tags take one byte.
 */
module Der {
  import opened Prelude
  import opened BigEndian

  const LIMIT := 0x8000_0000

  /** A decoded element keeps the bytes it came from; clearing them makes it be encoded afresh. */
  datatype Raw = Raw(tag: Byte, body: Bytes, full: Bytes)

  function EncodeLength(n: nat): Bytes {
    var b := Shortest(n);
    if n < 128 then [n] else if |b| < 127 then [128 + |b|] + b else [128]
  }

  function Encode(tag: Byte, body: Bytes): Bytes {
    [tag] + EncodeLength(|body|) + body
  }

  function Emit(r: Raw): Bytes {
    if r.full != [] then r.full else Encode(r.tag, r.body)
  }

  /** The length at the start of a string and how many bytes it takes. */
  function DecodeLength(s: Bytes): (r: Option<(nat, nat)>)
    ensures r.Some? ==> r.value.1 <= |s|
  {
    if s == [] then None
    else if s[0] < 128 then Some((s[0], 1))
    else
      var k := s[0] - 128;
      if k == 0 || |s| < 1 + k || s[1] == 0 then None
      else
        var n := Value(s[1..1 + k]);
        if n < 128 || n >= LIMIT then None else Some((n, 1 + k))
  }

  /** The length the first element of a string claims, and how many bytes its tag and length take. */
  function Header(s: Bytes): (h: Option<(nat, nat)>)
    ensures h.Some? ==> 0 < h.value.1 <= |s|
  {
    if s == [] || s[0] % 32 == 31 then None
    else match DecodeLength(s[1..])
      case None => None
      case Some((n, k)) => Some((n, 1 + k))
  }

  /** The first element of a string and what follows it. */
  function Decode(s: Bytes): Option<(Raw, Bytes)> {
    match Header(s)
    case None => None
    case Some((n, h)) =>
      if |s| < h + n then None else Some((Raw(s[0], s[h..h + n], s[..h + n]), s[h + n..]))
  }

  /** An element whose body is short enough and whose tag takes one byte. */
  predicate Fits(tag: Byte, body: Bytes) {
    tag % 32 != 31 && |body| < LIMIT
  }

  lemma {:induction false} ShortestShape(n: nat)
    ensures n > 0 ==> Shortest(n) != [] && Shortest(n)[0] != 0
    ensures n < Pow256(4) ==> |Shortest(n)| <= 4
  {
    if n >= 256 {
      ShortestShape(n / 256);
      ShortestLength(n, 4);
    } else if n > 0 {
      assert Shortest(n / 256) == [];
    }
  }

  lemma {:induction false} ShortestLength(n: nat, k: nat)
    ensures n < Pow256(k) ==> |Shortest(n)| <= k
  {
    if n > 0 && k > 0 {
      ShortestLength(n / 256, k - 1);
    }
  }

  /** A string with no leading zero is the shortest one for its number. */
  lemma {:induction false} ShortestOf(b: Bytes)
    requires b == [] || b[0] != 0
    ensures Shortest(Value(b)) == b
  {
    if b != [] {
      var most, last := b[..|b| - 1], b[|b| - 1];
      ShortestOf(most);
      assert Value(b) == Value(most) * 256 + last;
      assert Value(b) / 256 == Value(most) && Value(b) % 256 == last;
      assert Value(b) != 0;
      assert b == most + [last];
    }
  }

  lemma LengthRoundTrip(n: nat, rest: Bytes)
    requires n < LIMIT
    ensures DecodeLength(EncodeLength(n) + rest) == Some((n, |EncodeLength(n)|))
  {
    if n >= 128 {
      var b := Shortest(n);
      assert Pow256(4) == 256 * Pow256(3) == 65536 * Pow256(2) == 0x1_0000_0000;
      ShortestShape(n);
      ShortestValue(n);
      var s := EncodeLength(n) + rest;
      assert s[0] == 128 + |b| && s[1..1 + |b|] == b;
    }
  }

  lemma LengthIsEncoded(s: Bytes)
    requires DecodeLength(s).Some?
    ensures var (n, k) := DecodeLength(s).value;
            n < LIMIT && k <= |s| && s[..k] == EncodeLength(n)
  {
    var (n, k) := DecodeLength(s).value;
    if s[0] >= 128 {
      var b := s[1..k];
      ShortestOf(b);
      assert Pow256(4) == 256 * Pow256(3) == 65536 * Pow256(2) == 0x1_0000_0000;
      ShortestShape(n);
      assert s[..k] == [s[0]] + b;
    }
  }

  /** Round trip: what is encoded decodes to itself, whatever follows. */
  lemma RoundTrip(tag: Byte, body: Bytes, rest: Bytes)
    requires Fits(tag, body)
    ensures Decode(Encode(tag, body) + rest) == Some((Raw(tag, body, Encode(tag, body)), rest))
  {
    var s := Encode(tag, body) + rest;
    var k := |EncodeLength(|body|)|;
    LengthRoundTrip(|body|, body + rest);
    assert s[1..] == EncodeLength(|body|) + (body + rest);
    assert s[1 + k..1 + k + |body|] == body;
    assert s[..1 + k + |body|] == Encode(tag, body);
    assert s[1 + k + |body|..] == rest;
  }

  /** The shape of an encoding: a length below 128 is one byte; a longer one is the fewest bytes that hold
      it, after a byte that counts them. */
  lemma EncodingShape(tag: Byte, body: Bytes)
    ensures |body| < 128 ==> Encode(tag, body) == [tag, |body|] + body
    ensures 128 <= |body| < LIMIT ==>
              exists b: Bytes :: 1 <= |b| <= 4 && b[0] != 0 && Value(b) == |body| && Encode(tag, body) == [tag, 128 + |b|] + b + body
  {
    if 128 <= |body| < LIMIT {
      var b := Shortest(|body|);
      assert Pow256(4) == 256 * Pow256(3) == 65536 * Pow256(2) == 0x1_0000_0000;
      ShortestShape(|body|);
      ShortestValue(|body|);
      assert Encode(tag, body) == [tag, 128 + |b|] + b + body;
    }
  }

  /** Decoding is canonical: the bytes of a decoded element are its encoding. */
  lemma Canonical(s: Bytes)
    requires Decode(s).Some?
    ensures var (r, rest) := Decode(s).value;
            Fits(r.tag, r.body) && r.full == Encode(r.tag, r.body) && s == r.full + rest
  {
    var (r, rest) := Decode(s).value;
    LengthIsEncoded(s[1..]);
    var (n, k) := DecodeLength(s[1..]).value;
    assert s[..1 + k] == [s[0]] + s[1..][..k];
    assert r.full == s[..1 + k] + r.body;
  }
}
