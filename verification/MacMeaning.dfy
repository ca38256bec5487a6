/**
 What the rewritten parts of a keystore are, told without the functions that write them: its object
 identifiers, its MAC for each of the three hashes, and its bytes (keystore_alias.go).
 */
module MacMeaning {
  import opened Prelude
  import opened BigEndian
  import opened Der
  import opened KeyDerivation
  import opened DerivationMeaning
  import opened KeystoreFormat
  import opened KeystoreNaming

  // ---------- Object identifiers ----------

  /** A number in base 128, every byte but the last with its top bit set. */
  function Base128(n: nat, last: bool): Bytes {
    (if n < 128 then [] else Base128(n / 128, false)) + [n % 128 + if last then 0 else 128]
  }

  function ArcsOf(arcs: seq<nat>): Bytes {
    if arcs == [] then [] else Base128(arcs[0], true) + ArcsOf(arcs[1..])
  }

  /** The encoding of an object identifier (section 8.19 of X.690); its first two arcs share a number. */
  function OidOf(arcs: seq<nat>): Bytes
    requires |arcs| >= 2
  {
    Base128(arcs[0] * 40 + arcs[1], true) + ArcsOf(arcs[2..])
  }

  lemma Numbers()
    ensures Base128(840, true) == [0x86, 0x48] && Base128(113549, true) == [0x86, 0xF7, 0x0D]
    ensures forall n: nat | n < 128 :: Base128(n, true) == [n]
  {
    assert Base128(6, false) == [0x86];
    assert Base128(887, false) == Base128(6, false) + [0xF7];
  }

  lemma {:induction false} SmallArcs(arcs: seq<nat>)
    requires forall i | 0 <= i < |arcs| :: arcs[i] < 128
    ensures |ArcsOf(arcs)| == |arcs| && forall i | 0 <= i < |arcs| :: ArcsOf(arcs)[i] == arcs[i]
  {
    hide Base128;
    if arcs != [] {
      Numbers();
      SmallArcs(arcs[1..]);
    }
  }

  lemma OneArc(n: nat, rest: seq<nat>)
    ensures ArcsOf([n] + rest) == Base128(n, true) + ArcsOf(rest)
  {
    assert ([n] + rest)[1..] == rest;
  }

  lemma TwoArcs(a: nat, b: nat, rest: seq<nat>)
    requires a * 40 + b < 128
    ensures OidOf([a, b] + rest) == [a * 40 + b] + ArcsOf(rest)
  {
    hide ArcsOf, Base128;
    Numbers();
    assert ([a, b] + rest)[2..] == rest;
  }

  /** Identifiers of RSA's PKCS standards. */
  lemma Pkcs(rest: seq<nat>)
    ensures OidOf([1, 2, 840, 113549, 1] + rest) == [0x2A, 0x86, 0x48, 0x86, 0xF7, 0x0D, 0x01] + ArcsOf(rest)
  {
    hide Base128, ArcsOf, OidOf;
    Numbers();
    var r1 := [1] + rest;
    var r2 := [113549] + r1;
    OneArc(1, rest);
    OneArc(113549, r1);
    OneArc(840, r2);
    TwoArcs(1, 2, [840] + r2);
    assert [1, 2, 840, 113549, 1] + rest == [1, 2] + ([840] + r2);
    assert ArcsOf(r2) == [0x86, 0xF7, 0x0D, 0x01] + ArcsOf(rest);
    assert ArcsOf([840] + r2) == [0x86, 0x48, 0x86, 0xF7, 0x0D, 0x01] + ArcsOf(rest);
  }

  lemma Nist(rest: seq<nat>)
    ensures OidOf([2, 16, 840] + rest) == [0x60, 0x86, 0x48] + ArcsOf(rest)
  {
    hide Base128, ArcsOf, OidOf;
    Numbers();
    OneArc(840, rest);
    TwoArcs(2, 16, [840] + rest);
    assert [2, 16, 840] + rest == [2, 16] + ([840] + rest);
  }

  /** The identifiers that are compared are those of RFC 7292 and of the hashes. */
  lemma OidsAre()
    ensures DATA == OidOf([1, 2, 840, 113549, 1, 7, 1])
    ensures FRIENDLY_NAME == OidOf([1, 2, 840, 113549, 1, 9, 20])
    ensures KEY_BAG == OidOf([1, 2, 840, 113549, 1, 12, 10, 1, 1])
    ensures SHROUDED_KEY_BAG == OidOf([1, 2, 840, 113549, 1, 12, 10, 1, 2])
    ensures SHA1 == OidOf([1, 3, 14, 3, 2, 26])
    ensures SHA256 == OidOf([2, 16, 840, 1, 101, 3, 4, 2, 1])
    ensures SHA512 == OidOf([2, 16, 840, 1, 101, 3, 4, 2, 3])
  {
    hide OidOf;
    PkcsIs([7, 1], DATA);
    PkcsIs([9, 20], FRIENDLY_NAME);
    PkcsIs([12, 10, 1, 1], KEY_BAG);
    PkcsIs([12, 10, 1, 2], SHROUDED_KEY_BAG);
    NistIs([1, 101, 3, 4, 2, 1], SHA256);
    NistIs([1, 101, 3, 4, 2, 3], SHA512);
    Sha1Is();
    ArcsJoin();
  }

  /** The entries that are named are those of a key, plain or shrouded. */
  lemma KeyEntriesAre(b: Bag)
    ensures IsKey(b) <==>
              b.id == OidOf([1, 2, 840, 113549, 1, 12, 10, 1, 1]) || b.id == OidOf([1, 2, 840, 113549, 1, 12, 10, 1, 2])
  {
    hide OidOf;
    OidsAre();
  }

  lemma ArcsJoin()
    ensures var pkcs, nist: seq<nat> := [1, 2, 840, 113549, 1], [2, 16, 840];
            && pkcs + [7, 1] == [1, 2, 840, 113549, 1, 7, 1] && pkcs + [9, 20] == [1, 2, 840, 113549, 1, 9, 20]
            && pkcs + [12, 10, 1, 1] == [1, 2, 840, 113549, 1, 12, 10, 1, 1]
            && pkcs + [12, 10, 1, 2] == [1, 2, 840, 113549, 1, 12, 10, 1, 2]
            && nist + [1, 101, 3, 4, 2, 1] == [2, 16, 840, 1, 101, 3, 4, 2, 1]
            && nist + [1, 101, 3, 4, 2, 3] == [2, 16, 840, 1, 101, 3, 4, 2, 3]
  {
  }

  lemma PkcsIs(rest: seq<nat>, id: Bytes)
    requires |id| == 7 + |rest| && id[..7] == [0x2A, 0x86, 0x48, 0x86, 0xF7, 0x0D, 0x01]
    requires forall i | 0 <= i < |rest| :: rest[i] < 128 && id[7 + i] == rest[i]
    ensures id == OidOf([1, 2, 840, 113549, 1] + rest)
  {
    hide ArcsOf, OidOf;
    Pkcs(rest);
    SmallArcs(rest);
    assert id == id[..7] + id[7..];
    assert id[7..] == ArcsOf(rest);
  }

  lemma NistIs(rest: seq<nat>, id: Bytes)
    requires |id| == 3 + |rest| && id[..3] == [0x60, 0x86, 0x48]
    requires forall i | 0 <= i < |rest| :: rest[i] < 128 && id[3 + i] == rest[i]
    ensures id == OidOf([2, 16, 840] + rest)
  {
    hide ArcsOf, OidOf;
    Nist(rest);
    SmallArcs(rest);
    assert id == id[..3] + id[3..];
    assert id[3..] == ArcsOf(rest);
  }

  lemma Sha1Is()
    ensures SHA1 == OidOf([1, 3, 14, 3, 2, 26])
  {
    hide OidOf, ArcsOf;
    var rest: seq<nat> := [14, 3, 2, 26];
    SmallArcs(rest);
    TwoArcs(1, 3, rest);
    assert [1, 3] + rest == [1, 3, 14, 3, 2, 26];
    assert SHA1 == [0x2B] + ArcsOf(rest);
  }

  // ---------- The MAC ----------

  /** A key of one hash output: H applied the stated number of times to 64 or 128 bytes of 3, the salt and
      the password of two bytes a character and two zeros, both filling blocks. */
  ghost predicate MacKey(h: Bytes -> Bytes, v: nat, salt: Bytes, password: string, r: int, key: Bytes) {
    exists D: Bytes, S, P, p: Bytes ::
      && |D| == v && (forall k | 0 <= k < v :: D[k] == 3)
      && |p| == 2 * |password| + 2 && p[|p| - 2] == p[|p| - 1] == 0
      && (forall k | 0 <= k < |password| :: p[2 * k] as int * 256 + p[2 * k + 1] as int == password[k] as int)
      && FillsBlocks(S, salt, v) && FillsBlocks(P, p, v)
      && Applied(h, D + (S + P), r, key)
  }

  /** The iteration count as its two's complement bytes say. */
  predicate Counts(b: Bytes, r: int) {
    if b != [] && b[0] >= 128 then r + Pow256(|b|) == Value(b) else r == Value(b)
  }

  lemma {:induction false} BmpBytes(s: string)
    requires BmpString(s).Some?
    ensures var b := BmpString(s).value;
            && |b| == 2 * |s|
            && forall k | 0 <= k < |s| :: b[2 * k] as int * 256 + b[2 * k + 1] as int == s[k] as int
  {
    if s != "" {
      var most := s[..|s| - 1];
      BmpBytes(most);
      var b, b' := BmpString(s).value, BmpString(most).value;
      assert forall k | 0 <= k < |most| :: b[2 * k] == b'[2 * k] && b[2 * k + 1] == b'[2 * k + 1] && s[k] == most[k];
    }
  }

  /** The hash an object identifier names, its output length and its block length. */
  function Parameters(algorithm: Bytes): Option<(Hash, nat, nat)> {
    if algorithm == OidOf([2, 16, 840, 1, 101, 3, 4, 2, 1]) then Some((Sha256, 32, 64))
    else if algorithm == OidOf([1, 3, 14, 3, 2, 26]) then Some((Sha1, 20, 64))
    else if algorithm == OidOf([2, 16, 840, 1, 101, 3, 4, 2, 3]) then Some((Sha512, 64, 128))
    else None
  }

  lemma KeyOfOneRound(h: Bytes -> Bytes, u: nat, v: nat, salt: Bytes, password: string, r: int)
    requires u > 0 && v > 0 && HashesTo(h, u) && PasswordBytes(password).Some?
    ensures MacKey(h, v, salt, password, r, Derived(h, u, v, salt, PasswordBytes(password).value, r, 3, u))
  {
    hide Derived, Applied, FillsBlocks, Padded, HashesTo, Iterate;
    var p := PasswordBytes(password).value;
    BmpBytes(password);
    var D: Bytes := seq(v, _ => 3);
    var S, P := Padded(salt, v), Padded(p, v);
    OneRoundIsEnough(h, u, v, salt, p, r, 3, u);
    PaddedFills(salt, v);
    PaddedFills(p, v);
    var key := Iterate(h, D + (S + P), r);
    assert key[..u] == key;
    IterateApplies(h, D + (S + P), r);
    assert forall k | 0 <= k < |password| :: p[2 * k] as int * 256 + p[2 * k + 1] as int == password[k] as int;
  }

  /**
   The MAC of a keystore, hash by hash. It is remade exactly for SHA-1, SHA-256 and SHA-512 and a
   password that can be encoded; only its digest changes; and that is the keyed hash of the message under
   a key of one hash output, for blocks of 64 bytes or, for SHA-512, of 128.
   */
  lemma RemadeIsTheMac(m: Mac, message: Bytes, password: string, crypto: Crypto)
    requires crypto.Valid()
    ensures Remade(m, message, password, crypto).Some? <==>
              Parameters(m.algorithm).Some? && forall k | 0 <= k < |password| :: password[k] as int < 0x1_0000
    ensures match Remade(m, message, password, crypto)
            case None => true
            case Some(out) =>
              var (h, u, v) := Parameters(m.algorithm).value;
              && out == m.(digest := out.digest)
              && exists key, r :: Counts(m.iterations, r) && |key| == u && MacKey(crypto.sum(h), v, m.salt, password, r, key)
                                  && out.digest == crypto.hmac(h, key, message)
  {
    hide Derived, MacKey, BmpString, OidOf;
    BmpRoundTrip(password);
    OidsAre();
    if Remade(m, message, password, crypto).Some? {
      var h := HashOf(m.algorithm).value;
      KeyOfOneRound(crypto.sum(h), Size(h), BlockSize(h), m.salt, password, IntegerValue(m.iterations));
      assert Counts(m.iterations, IntegerValue(m.iterations));
    }
  }

  // ---------- Integers ----------

  lemma FirstByte(b: Bytes)
    requires b != []
    ensures Value(b) == b[0] * Pow256(|b| - 1) + Value(b[1..]) && Value(b[1..]) < Pow256(|b| - 1)
  {
    hide Value, Pow256;
    assert b == [b[0]] + b[1..];
    ValueConcat([b[0]], b[1..]);
    ValueBound(b[1..]);
    assert Value([b[0]]) == b[0] by { OneByte(b[0]); }
  }

  lemma OneByte(x: Byte)
    ensures Value([x]) == x
  {
    var none: Bytes := [];
    assert [x][..0] == none && Value(none) == 0;
  }

  /** A number of n bytes lies between the least and the greatest of that many. */
  lemma SignedRange(b: Bytes, v: int)
    requires b != [] && Counts(b, v)
    ensures -128 * Pow256(|b| - 1) <= v < 128 * Pow256(|b| - 1)
  {
    hide Value;
    FirstByte(b);
    var x, p := b[0], Pow256(|b| - 1);
    assert Pow256(|b|) == 256 * p;
    Between(x, p);
  }

  lemma Between(x: Byte, p: nat)
    ensures x < 128 ==> 0 <= x * p <= 127 * p
    ensures x >= 128 ==> 128 * p <= x * p <= 255 * p
  {
    if x < 128 { assert (127 - x) * p >= 0; } else { assert (x - 128) * p >= 0 && (255 - x) * p >= 0; }
  }

  /** One that is written without a needless first byte lies beyond all that are shorter. */
  lemma NeedsItsBytes(b: Bytes, v: int)
    requires IsInteger(b) && |b| > 1 && Counts(b, v)
    ensures !(-128 * Pow256(|b| - 2) <= v < 128 * Pow256(|b| - 2))
  {
    hide Value;
    var q := Pow256(|b| - 2);
    assert Pow256(|b| - 1) == 256 * q && Pow256(|b|) == 65536 * q;
    FirstByte(b);
    FirstByte(b[1..]);
    assert b[1..][0] == b[1];
    Beyond(b[0], b[1], q, b[0] * (256 * q), b[1] * q, Value(b[1..][1..]));
  }

  lemma Times(x: int, low: int, high: int, m: nat)
    requires low <= x <= high
    ensures low * m <= x * m <= high * m
  {
    assert (x - low) * m == x * m - low * m && (x - low) * m >= 0;
    assert (high - x) * m == high * m - x * m && (high - x) * m >= 0;
  }

  /** The first two bytes, in units of q, and what follows them. */
  lemma Beyond(x: Byte, y: Byte, q: nat, t: int, w: int, z: nat)
    requires t == x * (256 * q) && w == y * q && z < q
    requires !(x == 0 && y < 128) && !(x == 255 && y >= 128)
    ensures x < 128 ==> t + w + z >= 128 * q
    ensures x >= 128 ==> t + w + z < 65536 * q - 128 * q
  {
    Times(y, 0, 255, q);
    if x == 0 {
      Times(y, 128, 255, q);
    } else if x == 255 {
      Times(y, 0, 127, q);
    } else {
      Times(x, 1, 254, 256 * q);
    }
  }

  lemma {:induction false} PowersGrow(m: nat, n: nat)
    requires m <= n
    ensures Pow256(m) <= Pow256(n)
  {
    if m < n {
      PowersGrow(m, n - 1);
    }
  }

  /** No other bytes that stand for the same number are fewer. */
  ghost predicate Fewest(b: Bytes) {
    forall c: Bytes, v | c != [] && Counts(b, v) && Counts(c, v) :: |b| <= |c|
  }

  /** An integer that is read fits 64 bits and is written with the fewest bytes. */
  lemma IntegerExactly(b: Bytes)
    ensures IsInteger(b) <==> 1 <= |b| <= 8 && Fewest(b)
  {
    hide Counts, Pow256;
    if IsInteger(b) {
      forall c: Bytes, v | c != [] && Counts(b, v) && Counts(c, v) ensures |b| <= |c| {
        if |c| < |b| {
          NeedsItsBytes(b, v);
          SignedRange(c, v);
          PowersGrow(|c| - 1, |b| - 2);
        }
      }
    } else if 1 <= |b| <= 8 {
      NeedlessByte(b);
      var c, v := b[1..], IntegerValue(b);
      assert c != [] && Counts(b, v) && Counts(c, v) && |c| < |b|;
    }
  }

  lemma NeedlessByte(b: Bytes)
    requires 1 <= |b| <= 8 && !IsInteger(b)
    ensures |b| > 1 && Counts(b, IntegerValue(b)) && Counts(b[1..], IntegerValue(b))
  {
    hide Value;
    FirstByte(b);
    assert Pow256(|b|) == 256 * Pow256(|b| - 1);
    assert b[1..][0] == b[1];
  }
}
