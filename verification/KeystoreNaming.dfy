/**
 Naming the private key entry of a PKCS#12 keystore (keystore_alias.go): the rewrite of the nested
 structure and its MAC, and what it leaves as it was.
 */
module KeystoreNaming {
  import opened Prelude
  import opened Der
  import opened KeystoreFormat
  import opened KeyDerivation

  const DATA: Bytes := [0x2A, 0x86, 0x48, 0x86, 0xF7, 0x0D, 0x01, 0x07, 0x01]
  const FRIENDLY_NAME: Bytes := [0x2A, 0x86, 0x48, 0x86, 0xF7, 0x0D, 0x01, 0x09, 0x14]
  const KEY_BAG: Bytes := [0x2A, 0x86, 0x48, 0x86, 0xF7, 0x0D, 0x01, 0x0C, 0x0A, 0x01, 0x01]
  const SHROUDED_KEY_BAG: Bytes := [0x2A, 0x86, 0x48, 0x86, 0xF7, 0x0D, 0x01, 0x0C, 0x0A, 0x01, 0x02]
  const SHA1: Bytes := [0x2B, 0x0E, 0x03, 0x02, 0x1A]
  const SHA256: Bytes := [0x60, 0x86, 0x48, 0x01, 0x65, 0x03, 0x04, 0x02, 0x01]
  const SHA512: Bytes := [0x60, 0x86, 0x48, 0x01, 0x65, 0x03, 0x04, 0x02, 0x03]

  // ---------- Names ----------

  /** Two bytes a character; a character outside the basic plane has no encoding. */
  function BmpString(s: string): Option<Bytes> {
    if s == "" then Some([])
    else
      var c := s[|s| - 1] as int;
      match BmpString(s[..|s| - 1])
      case None => None
      case Some(b) => if c >= 0x1_0000 then None else Some(b + [c / 256, c % 256])
  }

  /** The characters an even number of bytes stands for. */
  function BmpChars(b: Bytes): Option<string> {
    if b == [] then Some("")
    else if |b| == 1 then None
    else
      var c: int := b[|b| - 2] as int * 256 + b[|b| - 1] as int;
      if 0xD800 <= c < 0xE000 then None
      else match BmpChars(b[..|b| - 2])
        case None => None
        case Some(s) => Some(s + [c as char])
  }

  /** The encoding loses nothing, and fails exactly on characters outside the basic plane. */
  lemma {:induction false} BmpRoundTrip(s: string)
    ensures BmpString(s).Some? <==> forall i | 0 <= i < |s| :: s[i] as int < 0x1_0000
    ensures BmpString(s).Some? ==> BmpChars(BmpString(s).value) == Some(s)
  {
    if s != "" {
      var most, last := s[..|s| - 1], s[|s| - 1];
      BmpRoundTrip(most);
      assert forall i | 0 <= i < |most| :: s[i] == most[i];
      if BmpString(s).Some? {
        var b := BmpString(s).value;
        assert b[..|b| - 2] == BmpString(most).value;
        assert (b[|b| - 2] as int * 256 + b[|b| - 1] as int) as char == last;
        assert s == most + [last];
      }
    }
  }

  method EncodeBmp(s: string) returns (out: Option<Bytes>)
    ensures out == BmpString(s)
  {
    var bytes: Bytes := [];
    var k := 0;
    while k < |s|
      invariant 0 <= k <= |s|
      invariant BmpString(s[..k]) == Some(bytes)
    {
      assert s[..k + 1][..k] == s[..k];
      var c := s[k] as int;
      if c >= 0x1_0000 {
        BmpRoundTrip(s);
        return None;
      }
      bytes := bytes + [c / 256, c % 256];
      k := k + 1;
    }
    assert s[..k] == s;
    out := Some(bytes);
  }

  function FriendlyName(alias: string): Option<Attribute> {
    match BmpString(alias)
    case None => None
    case Some(b) => Some(Attribute(FRIENDLY_NAME, Raw(SET, Encode(BMP, b), [])))
  }

  /** What a reader takes the alias to be. */
  function AliasOf(x: Attribute): Option<string> {
    if x.id != FRIENDLY_NAME || x.value.tag != SET then None
    else match TakeAs(x.value.body, BMP)
      case None => None
      case Some((b, _)) => BmpChars(b)
  }

  // ---------- Naming bags and safes ----------

  predicate IsKey(b: Bag) { b.id == KEY_BAG || b.id == SHROUDED_KEY_BAG }

  predicate HasAttribute(attributes: Option<seq<Attribute>>, id: Bytes) {
    attributes.Some? && exists i :: 0 <= i < |attributes.value| && attributes.value[i].id == id
  }

  function Appended(b: Bag, x: Attribute): Bag {
    b.(attributes := Some((if b.attributes.Some? then b.attributes.value else []) + [x]))
  }

  /** The bags with every key entry named, and how many there are; none may be named already. */
  function NameBags(bags: seq<Bag>, x: Attribute): Option<(seq<Bag>, nat)> {
    if bags == [] then Some(([], 0))
    else
      var b := bags[|bags| - 1];
      match NameBags(bags[..|bags| - 1], x)
      case None => None
      case Some((done, n)) =>
        if !IsKey(b) then Some((done + [b], n))
        else if HasAttribute(b.attributes, FRIENDLY_NAME) then None
        else Some((done + [Appended(b, x)], n + 1))
  }

  function OctetsIn(s: Bytes): Option<Bytes> {
    match TakeAs(s, OCTETS) case None => None case Some((b, _)) => Some(b)
  }

  function DecodeBags(s: Bytes): Option<seq<Bag>> {
    match TakeAs(s, SEQUENCE) case None => None case Some((b, _)) => DecodeList(DecodeBag, b)
  }

  function EncodeBags(bags: seq<Bag>): Bytes { Encode(SEQUENCE, EncodeList(EncodeBag, bags)) }

  function DecodeSafes(s: Bytes): Option<seq<Info>> {
    match TakeAs(s, SEQUENCE) case None => None case Some((b, _)) => DecodeList(DecodeInfo, b)
  }

  function EncodeSafes(safes: seq<Info>): Bytes { Encode(SEQUENCE, EncodeList(EncodeInfo, safes)) }

  /** The bags of a plain safe. */
  function BagsOf(safe: Info): Option<seq<Bag>> {
    if safe.content.None? then None
    else match OctetsIn(safe.content.value.body)
      case None => None
      case Some(b) => DecodeBags(b)
  }

  function Rewrapped(safe: Info, bags: seq<Bag>): Info
    requires safe.content.Some?
  {
    safe.(content := Some(safe.content.value.(body := Encode(OCTETS, EncodeBags(bags)), full := [])))
  }

  /** A safe of any other kind, or with no key entry, is left as it is. */
  function NameSafe(safe: Info, x: Attribute): Option<(Info, nat)> {
    if safe.kind != DATA then Some((safe, 0))
    else match BagsOf(safe)
      case None => None
      case Some(bags) =>
        match NameBags(bags, x)
        case None => None
        case Some((named, n)) => Some((if n == 0 then safe else Rewrapped(safe, named), n))
  }

  function NameSafes(safes: seq<Info>, x: Attribute): Option<(seq<Info>, nat)> {
    if safes == [] then Some(([], 0))
    else
      match NameSafes(safes[..|safes| - 1], x)
      case None => None
      case Some((done, m)) =>
        match NameSafe(safes[|safes| - 1], x)
        case None => None
        case Some((safe, n)) => Some((done + [safe], m + n))
  }

  lemma {:induction false} BadBagSticks(bags: seq<Bag>, x: Attribute, j: nat)
    requires j < |bags| && IsKey(bags[j]) && HasAttribute(bags[j].attributes, FRIENDLY_NAME)
    ensures NameBags(bags, x) == None
  {
    if j < |bags| - 1 {
      BadBagSticks(bags[..|bags| - 1], x, j);
    }
  }

  lemma {:induction false} BadSafeSticks(safes: seq<Info>, x: Attribute, i: nat)
    requires i < |safes| && NameSafe(safes[i], x) == None
    ensures NameSafes(safes, x) == None
  {
    if i < |safes| - 1 {
      BadSafeSticks(safes[..|safes| - 1], x, i);
    }
  }

  method FindAttribute(attributes: Option<seq<Attribute>>, id: Bytes) returns (found: bool)
    ensures found == HasAttribute(attributes, id)
  {
    if attributes.None? {
      return false;
    }
    var k := 0;
    while k < |attributes.value|
      invariant 0 <= k <= |attributes.value|
      invariant forall i | 0 <= i < k :: attributes.value[i].id != id
    {
      if attributes.value[k].id == id {
        return true;
      }
      k := k + 1;
    }
    found := false;
  }

  /** Name the key entries of one safe, counting them. */
  method NameKeyBags(start: seq<Bag>, x: Attribute) returns (r: Option<(seq<Bag>, nat)>)
    ensures r == NameBags(start, x)
  {
    var bags, named := start, 0;
    var j := 0;
    while j < |bags|
      invariant 0 <= j <= |bags| == |start|
      invariant NameBags(start[..j], x) == Some((bags[..j], named))
      invariant bags[j..] == start[j..]
    {
      assert start[..j + 1][..j] == start[..j] && bags[j] == start[j];
      if IsKey(bags[j]) {
        var taken := FindAttribute(bags[j].attributes, FRIENDLY_NAME);
        if taken {
          BadBagSticks(start, x, j);
          return None;
        }
        bags := bags[j := Appended(bags[j], x)];
        named := named + 1;
      }
      assert bags[..j + 1] == bags[..j] + [bags[j]];
      j := j + 1;
    }
    assert start[..j] == start && bags[..j] == bags;
    r := Some((bags, named));
  }

  /** Name the key entries of one safe, if it is a plain one that holds any. */
  method NameKeysIn(safe: Info, x: Attribute) returns (r: Option<(Info, nat)>)
    ensures r == NameSafe(safe, x)
  {
    if safe.kind != DATA {
      return Some((safe, 0));
    }
    var bags := BagsOf(safe);
    if bags.None? {
      return None;
    }
    var done := NameKeyBags(bags.value, x);
    if done.None? {
      return None;
    }
    var (named, n) := done.value;
    r := Some((if n == 0 then safe else Rewrapped(safe, named), n));
  }

  /** Go through the safes, naming the key entries of the plain ones. */
  method NameKeySafes(start: seq<Info>, x: Attribute) returns (r: Option<(seq<Info>, nat)>)
    ensures r == NameSafes(start, x)
  {
    hide NameSafe;
    var safes, named := start, 0;
    var i := 0;
    while i < |safes|
      invariant 0 <= i <= |safes| == |start|
      invariant NameSafes(start[..i], x) == Some((safes[..i], named))
      invariant safes[i..] == start[i..]
    {
      assert start[..i + 1][..i] == start[..i] && safes[i] == start[i];
      var done := NameKeysIn(safes[i], x);
      if done.None? {
        BadSafeSticks(start, x, i);
        return None;
      }
      safes := safes[i := done.value.0];
      named := named + done.value.1;
      assert safes[..i + 1] == safes[..i] + [safes[i]];
      i := i + 1;
    }
    assert start[..i] == start && safes[..i] == safes;
    r := Some((safes, named));
  }

  // ---------- The MAC ----------

  datatype Hash = Sha1 | Sha256 | Sha512

  /** The hashes, the keyed hash, and whether the library opens a keystore with a password. */
  datatype Crypto = Crypto(
    sum: Hash -> (Bytes -> Bytes), hmac: (Hash, Bytes, Bytes) -> Bytes, opens: (Bytes, string) -> bool)
  {
    ghost predicate Valid() { forall h: Hash :: HashesTo(sum(h), Size(h)) }
  }

  function Size(h: Hash): nat { match h case Sha1 => 20 case Sha256 => 32 case Sha512 => 64 }

  function BlockSize(h: Hash): nat { if h == Sha512 then 128 else 64 }

  function HashOf(algorithm: Bytes): Option<Hash> {
    if algorithm == SHA256 then Some(Sha256)
    else if algorithm == SHA1 then Some(Sha1)
    else if algorithm == SHA512 then Some(Sha512)
    else None
  }

  /** The number an INTEGER's content stands for, in two's complement. */
  function IntegerValue(b: Bytes): int {
    BigEndian.Value(b) - (if b != [] && b[0] >= 128 then BigEndian.Pow256(|b|) else 0)
  }

  /** A password as the derivation takes it: two bytes a character, then two zero bytes. */
  function PasswordBytes(password: string): Option<Bytes> {
    match BmpString(password) case None => None case Some(b) => Some(b + [0, 0])
  }

  /** The MAC with its digest replaced: the keyed hash of the message under the derived key. */
  function Remade(m: Mac, message: Bytes, password: string, crypto: Crypto): Option<Mac>
    requires crypto.Valid()
  {
    match PasswordBytes(password)
    case None => None
    case Some(p) =>
      match HashOf(m.algorithm)
      case None => None
      case Some(h) =>
        var key := Derived(crypto.sum(h), Size(h), BlockSize(h), m.salt, p, IntegerValue(m.iterations), 3, Size(h));
        Some(m.(digest := crypto.hmac(h, key, message)))
  }

  method RecomputeMac(m: Mac, message: Bytes, password: string, crypto: Crypto) returns (r: Option<Mac>)
    requires crypto.Valid()
    ensures r == Remade(m, message, password, crypto)
  {
    var encoded := EncodeBmp(password);
    if encoded.None? {
      return None;
    }
    var h := HashOf(m.algorithm);
    if h.None? {
      return None;
    }
    var key := Pbkdf(crypto.sum(h.value), Size(h.value), BlockSize(h.value), m.salt, encoded.value + [0, 0],
                     IntegerValue(m.iterations), 3, Size(h.value));
    r := Some(m.(digest := crypto.hmac(h.value, key, message)));
  }

  // ---------- The whole rewrite ----------

  /** A keystore opened down to its safes: the outer structure, the bytes the MAC covers, the safes. */
  function Open(data: Bytes): Option<(Pfx, Bytes, seq<Info>)> {
    match DecodePfx(data)
    case None => None
    case Some((pfx, rest)) =>
      if rest != [] || pfx.authSafe.content.None? then None
      else match OctetsIn(pfx.authSafe.content.value.body)
        case None => None
        case Some(covered) =>
          match DecodeSafes(covered)
          case None => None
          case Some(safes) => Some((pfx, covered, safes))
  }

  /** The outer structure around changed safes, with its MAC remade. */
  function Resealed(pfx: Pfx, safes: seq<Info>, password: string, crypto: Crypto): Option<Pfx>
    requires crypto.Valid() && pfx.authSafe.content.Some?
  {
    var covered := EncodeSafes(safes);
    var content := pfx.authSafe.content.value.(body := Encode(OCTETS, covered), full := []);
    if pfx.mac.None? then None
    else match Remade(pfx.mac.value, covered, password, crypto)
      case None => None
      case Some(mac) => Some(Pfx(pfx.version, pfx.authSafe.(content := Some(content)), Some(mac)))
  }

  /** What reading a keystore back has to find: the outer structure, its safes, and the bags of every
      plain one. */
  predicate Readable(data: Bytes) {
    Open(data).Some? && forall x | x in Open(data).value.2 && x.kind == DATA :: BagsOf(x).Some?
  }

  /** What naming the key entry of a keystore gives; None stands for every refusal. */
  function Named(data: Bytes, password: string, alias: string, crypto: Crypto): Option<Bytes>
    requires crypto.Valid()
  {
    if alias == "" then Some(data)
    else match Open(data)
      case None => None
      case Some((pfx, _, safes)) =>
        match FriendlyName(alias)
        case None => None
        case Some(x) =>
          match NameSafes(safes, x)
          case None => None
          case Some((named, n)) =>
            if n != 1 then None
            else match Resealed(pfx, named, password, crypto)
              case None => None
              case Some(out) =>
                // The library that wrote it has to read it back.
                if Readable(EncodePfx(out)) && crypto.opens(EncodePfx(out), password)
                then Some(EncodePfx(out)) else None
  }

  method SetKeystoreAlias(data: Bytes, password: string, alias: string, crypto: Crypto) returns (r: Option<Bytes>)
    requires crypto.Valid()
    ensures r == Named(data, password, alias, crypto)
  {
    hide Readable, DecodePfx, EncodePfx, EncodeSafes, DecodeSafes, OctetsIn, Remade, NameSafes, Encode;
    if alias == "" {
      return Some(data);
    }
    var keystore := Open(data);
    if keystore.None? {
      return None;
    }
    var (pfx, _, start) := keystore.value;
    var encoded := EncodeBmp(alias);
    if encoded.None? {
      return None;
    }
    var x := Attribute(FRIENDLY_NAME, Raw(SET, Encode(BMP, encoded.value), []));
    var done := NameKeySafes(start, x);
    if done.None? {
      return None;
    }
    var (safes, named) := done.value;
    if named != 1 {
      return None;
    }
    var covered := EncodeSafes(safes);
    pfx := pfx.(authSafe := pfx.authSafe.(content :=
      Some(pfx.authSafe.content.value.(body := Encode(OCTETS, covered), full := []))));
    if pfx.mac.None? {
      return None;
    }
    var mac := RecomputeMac(pfx.mac.value, covered, password, crypto);
    if mac.None? {
      return None;
    }
    pfx := pfx.(mac := mac);
    var out := EncodePfx(pfx);
    if !Readable(out) || !crypto.opens(out, password) {
      return None;
    }
    r := Some(out);
  }
}
