/**
 Exactly when naming the key entry of a keystore succeeds, and a keystore for which it does.
 */
module KeystoreSuccess {
  import opened Prelude
  import opened BigEndian
  import opened Der
  import opened KeystoreFormat
  import opened KeystoreNaming
  import opened KeystoreMeaning

  // ---------- Counting key entries ----------

  function KeysAmong(bags: seq<Bag>): nat {
    if bags == [] then 0 else KeysAmong(bags[..|bags| - 1]) + if IsKey(bags[|bags| - 1]) then 1 else 0
  }

  predicate Unnamed(b: Bag) { IsKey(b) ==> !HasAttribute(b.attributes, FRIENDLY_NAME) }

  predicate AllUnnamed(bags: seq<Bag>) { forall b | b in bags :: Unnamed(b) }

  /** Naming the key entries of a list fails only on one that has a name, and names all of them. */
  lemma {:induction false} NameBagsExactly(bags: seq<Bag>, x: Attribute)
    ensures NameBags(bags, x).Some? <==> AllUnnamed(bags)
    ensures NameBags(bags, x).Some? ==> NameBags(bags, x).value.1 == KeysAmong(bags)
  {
    hide HasAttribute, IsKey, Appended, AllUnnamed;
    if bags == [] {
      NoneNamed();
    } else {
      NameBagsExactly(bags[..|bags| - 1], x);
      AllUnnamedStep(bags);
    }
  }

  lemma NoneNamed()
    ensures AllUnnamed([])
  {
  }

  lemma AllUnnamedStep(bags: seq<Bag>)
    requires bags != []
    ensures AllUnnamed(bags) <==> AllUnnamed(bags[..|bags| - 1]) && Unnamed(bags[|bags| - 1])
  {
    hide Unnamed;
    assert bags == bags[..|bags| - 1] + [bags[|bags| - 1]];
  }

  /** A safe that is not plain, or whose bags can be read and whose key entries have no name. */
  predicate Nameable(safe: Info) {
    safe.kind == DATA ==> BagsOf(safe).Some? && AllUnnamed(BagsOf(safe).value)
  }

  predicate AllNameable(safes: seq<Info>) { forall s | s in safes :: Nameable(s) }

  function KeysIn(safe: Info): nat {
    if safe.kind == DATA && BagsOf(safe).Some? then KeysAmong(BagsOf(safe).value) else 0
  }

  function KeyEntries(safes: seq<Info>): nat {
    if safes == [] then 0 else KeyEntries(safes[..|safes| - 1]) + KeysIn(safes[|safes| - 1])
  }

  lemma NameSafeExactly(safe: Info, x: Attribute)
    ensures NameSafe(safe, x).Some? <==> Nameable(safe)
    ensures NameSafe(safe, x).Some? ==> NameSafe(safe, x).value.1 == KeysIn(safe)
  {
    hide AllUnnamed, KeysAmong, NameBags, BagsOf;
    if safe.kind == DATA && BagsOf(safe).Some? {
      NameBagsExactly(BagsOf(safe).value, x);
    }
  }

  lemma {:induction false} NameSafesExactly(safes: seq<Info>, x: Attribute)
    ensures NameSafes(safes, x).Some? <==> AllNameable(safes)
    ensures NameSafes(safes, x).Some? ==> NameSafes(safes, x).value.1 == KeyEntries(safes)
  {
    hide NameSafe, Nameable, KeysIn;
    if safes != [] {
      NameSafesExactly(safes[..|safes| - 1], x);
      NameSafeExactly(safes[|safes| - 1], x);
      assert safes == safes[..|safes| - 1] + [safes[|safes| - 1]];
    }
  }

  // ---------- Exactly when naming succeeds ----------

  predicate InBasicPlane(s: string) { forall i | 0 <= i < |s| :: s[i] as int < 0x1_0000 }

  /** What can be told from the input: the keystore opens, the alias and the password can be
      encoded, the MAC is there and of a known kind, and over all plain safes there is exactly one
      key entry, which has no name. */
  predicate Ready(data: Bytes, password: string, alias: string) {
    && Open(data).Some? && InBasicPlane(alias) && InBasicPlane(password)
    && var (pfx, _, safes) := Open(data).value;
       && pfx.mac.Some? && HashOf(pfx.mac.value.algorithm).Some?
       && AllNameable(safes) && KeyEntries(safes) == 1
  }

  lemma ReadyIsNamed(data: Bytes, password: string, alias: string)
    requires Open(data).Some?
    ensures Ready(data, password, alias) <==>
              var (pfx, _, safes) := Open(data).value;
              && FriendlyName(alias).Some? && PasswordBytes(password).Some?
              && pfx.mac.Some? && HashOf(pfx.mac.value.algorithm).Some?
              && NameSafes(safes, FriendlyName(alias).value).Some?
              && NameSafes(safes, FriendlyName(alias).value).value.1 == 1
  {
    hide Open, AllNameable, KeyEntries, NameSafes, BmpString, HashOf;
    var (pfx, _, safes) := Open(data).value;
    BmpRoundTrip(alias);
    BmpRoundTrip(password);
    if FriendlyName(alias).Some? {
      NameSafesExactly(safes, FriendlyName(alias).value);
    }
  }

  /** The rewritten keystore, before it is encoded. */
  function Rewritten(data: Bytes, password: string, alias: string, crypto: Crypto): (r: Option<Pfx>)
    requires crypto.Valid() && Ready(data, password, alias)
    ensures r.Some?
  {
    ReadyIsNamed(data, password, alias);
    var (pfx, _, safes) := Open(data).value;
    Resealed(pfx, NameSafes(safes, FriendlyName(alias).value).value.0, password, crypto)
  }

  /** No safe ends in a tag without a child, and in a plain safe with key entries no other entry does:
      what is written again would not read back. */
  predicate NoBareTags(safes: seq<Info>) { forall s | s in safes :: InfoHasChild(s) && NoBareBags(s) }

  predicate NoBareBags(safe: Info) {
    KeysIn(safe) > 0 ==> forall b | b in BagsOf(safe).value :: IsKey(b) || BagHasChild(b)
  }

  /** A named safe reads back, if plain, exactly when it holds no bare entry; it has a child when it had. */
  lemma NamedSafeReads(safe: Info, x: Attribute, alias: string)
    requires SoundInfo(safe) && FreshInfo(safe) == safe && NameSafe(safe, x).Some? && FriendlyName(alias) == Some(x)
    requires |EncodeInfo(NameSafe(safe, x).value.0)| < LIMIT
    ensures var named := NameSafe(safe, x).value.0;
            && FreshInfo(named).kind == safe.kind
            && (InfoHasChild(named) <==> InfoHasChild(safe))
            && (safe.kind == DATA ==> (BagsOf(FreshInfo(named)).Some? <==> NoBareBags(safe)))
            && (safe.kind != DATA ==> NoBareBags(safe))
  {
    hide Encode, EncodeBags, NameBags, OctetsIn, FreshInfo, SoundInfo, AllUnnamed, BagHasChild, KeysAmong, IsKey, All, Rewrapped, EncodeInfo, AsDecoded, GoodBag;
    NameSafeExactly(safe, x);
    if safe.kind == DATA && KeysIn(safe) > 0 {
      var bags := BagsOf(safe).value;
      var named := NameBags(bags, x).value.0;
      NamedBagsAre(bags, x);
      BagsComeDecoded(safe);
      AppendedIsGood(bags, named, x, alias);
      OctetsHaveBody(safe.content.value.body);
      RewrappedReads(safe, named);
      NamedHaveChildren(bags, named, x);
    }
  }

  lemma NamedHaveChildren(bags: seq<Bag>, named: seq<Bag>, x: Attribute)
    requires |named| == |bags|
    requires forall j | 0 <= j < |bags| :: named[j] == if IsKey(bags[j]) then Appended(bags[j], x) else bags[j]
    ensures All(BagHasChild, named) <==> forall b | b in bags :: IsKey(b) || BagHasChild(b)
  {
    hide IsKey;
    assert forall j | 0 <= j < |bags| :: bags[j] in bags;
    forall j | 0 <= j < |bags| ensures BagHasChild(named[j]) <==> IsKey(bags[j]) || BagHasChild(bags[j]) {
    }
  }

  /** The rewritten keystore reads back exactly when it is short enough and no tag in it is bare. */
  lemma RewrittenReads(data: Bytes, password: string, alias: string, crypto: Crypto)
    requires crypto.Valid() && Ready(data, password, alias)
    ensures var out := Rewritten(data, password, alias, crypto).value;
            Readable(EncodePfx(out)) <==> |PfxBody(out)| < LIMIT && NoBareTags(Open(data).value.2)
  {
    hide Open, Ready, EncodePfx, PfxBody, NoBareTags, NameSafes, Resealed, FriendlyName, EncodeSafes, GoodPfx, FreshPfx, FreshInfo, All;
    ReadyOpens(data, password, alias);
    var (pfx, _, safes) := Open(data).value;
    var out := Rewritten(data, password, alias, crypto).value;
    ReadyIsNamed(data, password, alias);
    OpenedIsSound(data);
    OpenHasBody(data);
    var x := FriendlyName(alias).value;
    var named := NameSafes(safes, x).value.0;
    NamedSafesAre(safes, x);
    if Open(EncodePfx(out)).Some? { OpenIsShort(out); }
    if |PfxBody(out)| < LIMIT {
      NamedAreSound(safes, x);
      ResealedOpens(pfx, named, password, crypto);
      NamedSafesRead(safes, x, alias);
    }
  }

  lemma ReadyOpens(data: Bytes, password: string, alias: string)
    requires Ready(data, password, alias)
    ensures Open(data).Some?
  {
  }

  lemma OpenHasBody(data: Bytes)
    requires Open(data).Some?
    ensures var pfx := Open(data).value.0; pfx.authSafe.content.Some? && pfx.authSafe.content.value.body != []
  {
    hide DecodePfx, DecodeSafes;
    OctetsHaveBody(Open(data).value.0.authSafe.content.value.body);
  }

  lemma NamedAreSound(safes: seq<Info>, x: Attribute)
    requires NameSafes(safes, x).Some? && forall s | s in safes :: SoundInfo(s)
    ensures forall s | s in NameSafes(safes, x).value.0 :: SoundInfo(s)
  {
    hide NameSafes, NameSafe, SoundInfo;
    NamedSafesAre(safes, x);
    var named := NameSafes(safes, x).value.0;
    forall i | 0 <= i < |safes| ensures SoundInfo(named[i]) {
      assert safes[i] in safes;
      NamedIsSound(safes[i], x);
    }
  }

  /** Over all safes: they have children and every plain one reads back exactly when no tag is bare. */
  lemma NamedSafesRead(safes: seq<Info>, x: Attribute, alias: string)
    requires NameSafes(safes, x).Some? && FriendlyName(alias) == Some(x)
    requires forall s | s in safes :: SoundInfo(s) && FreshInfo(s) == s
    requires |EncodeSafes(NameSafes(safes, x).value.0)| < LIMIT
    ensures var named := NameSafes(safes, x).value.0;
            All(InfoHasChild, named) && ReadsBags(Image(FreshInfo, named)) <==> NoBareTags(safes)
  {
    hide NameSafes, NameSafe, EncodeSafes, FreshInfo, SoundInfo, InfoHasChild, BagsOf, NoBareBags, FriendlyName;
    NamedSafesAre(safes, x);
    var named := NameSafes(safes, x).value.0;
    forall i | 0 <= i < |safes|
      ensures InfoHasChild(named[i]) <==> InfoHasChild(safes[i])
      ensures FreshInfo(named[i]).kind == DATA ==> (BagsOf(FreshInfo(named[i])).Some? <==> NoBareBags(safes[i]))
      ensures FreshInfo(named[i]).kind != DATA ==> NoBareBags(safes[i])
    {
      assert safes[i] in safes;
      SafeIsShort(named, i);
      NamedSafeReads(safes[i], x, alias);
    }
    assert forall i | 0 <= i < |safes| :: Image(FreshInfo, named)[i] in Image(FreshInfo, named) && safes[i] in safes;
  }

  /** The bags of every plain safe can be read. */
  predicate ReadsBags(safes: seq<Info>) { forall x | x in safes && x.kind == DATA :: BagsOf(x).Some? }

  /**
   Naming succeeds if and only if the input is ready, no tag in it is bare, the rewritten keystore is
   shorter than 2^31 bytes, and the library opens it with the password.
   */
  lemma NamingSucceedsExactly(data: Bytes, password: string, alias: string, crypto: Crypto)
    requires crypto.Valid() && alias != ""
    ensures Named(data, password, alias, crypto).Some? <==>
              && Ready(data, password, alias) && NoBareTags(Open(data).value.2)
              && var out := Rewritten(data, password, alias, crypto).value;
                 |PfxBody(out)| < LIMIT && crypto.opens(EncodePfx(out), password)
  {
    hide Open, Ready, Readable, NoBareTags, NameSafes, PfxBody, EncodePfx, FriendlyName;
    if Open(data).Some? {
      ReadyIsNamed(data, password, alias);
      if Ready(data, password, alias) {
        RewrittenReads(data, password, alias, crypto);
      }
    } else {
      NotOpenNotReady(data, password, alias);
    }
  }

  lemma NotOpenNotReady(data: Bytes, password: string, alias: string)
    requires Open(data).None?
    ensures !Ready(data, password, alias)
  {
  }

  /** Without an alias the keystore is returned as it is, whatever it is. */
  lemma NoAliasNoChange(data: Bytes, password: string, crypto: Crypto)
    requires crypto.Valid()
    ensures Named(data, password, "", crypto) == Some(data)
  {
  }

  /** A keystore with anything after it is refused. */
  lemma TrailingIsRefused(data: Bytes, extra: Bytes, password: string, alias: string, crypto: Crypto)
    requires crypto.Valid() && alias != "" && extra != [] && Open(data).Some?
    ensures Named(data + extra, password, alias, crypto) == None
  {
    hide DecodeInfo, DecodeOptionalMac, IsInteger, DecodeSafes, Encode, Decode, OctetsIn;
    Canonical(data);
    var (r, rest) := Decode(data).value;
    RoundTrip(r.tag, r.body, extra);
    assert data + extra == Encode(r.tag, r.body) + extra by { assert data == r.full + []; }
  }

  // ---------- A keystore that can be named ----------

  /** A small keystore with one key entry, a key of no bytes in one plain safe. */
  const BAG := Bag(KEY_BAG, Raw(EXPLICIT0, [OCTETS, 0], []), None)
  const SAFE := Info(DATA, Some(Raw(EXPLICIT0, Encode(OCTETS, EncodeBags([BAG])), [])))
  const KEYSTORE := Pfx([3], Info(DATA, Some(Raw(EXPLICIT0, Encode(OCTETS, EncodeSafes([SAFE])), []))),
                        Some(Mac(SHA256, None, [], [], [1])))

  function Zeros(n: nat): (b: Bytes)
    ensures |b| == n
  {
    seq(n, _ => 0)
  }

  /** Hashes that give zeros, an empty keyed hash, and a library that opens everything. */
  function Plain(): (c: Crypto)
    ensures c.Valid()
  {
    Crypto(h => _ => Zeros(Size(h)), (_, _, _) => [], (_, _) => true)
  }

  lemma EncodeShort(tag: Byte, body: Bytes, n: nat)
    requires |body| <= n < 0x1_0000
    ensures |body| < |Encode(tag, body)| <= n + 4
  {
    assert Pow256(2) == 256 * Pow256(1) == 0x1_0000;
    ShortestLength(|body|, 2);
  }

  lemma OneIsItsBytes<T>(enc: T -> Bytes, x: T)
    ensures EncodeList(enc, [x]) == enc(x)
  {
    assert EncodeList(enc, []) == [];
  }

  lemma BagIsSmall(b: Bag, n: nat)
    requires |BagBody(b)| <= n < 0x1000
    ensures |EncodeBags([b])| <= n + 8 && |Encode(OCTETS, EncodeBags([b]))| <= n + 12
  {
    hide Encode, BagBody;
    OneIsItsBytes(EncodeBag, b);
    EncodeShort(SEQUENCE, BagBody(b), n);
    EncodeShort(SEQUENCE, EncodeBag(b), n + 4);
    EncodeShort(OCTETS, EncodeBags([b]), n + 8);
  }

  lemma InfoIsSmall(x: Info, n: nat)
    requires x.content.Some? && x.content.value.full == [] && |x.kind| <= 9 && |x.content.value.body| <= n < 0x1000
    ensures |InfoBody(x)| <= n + 17 && |EncodeInfo(x)| <= n + 21
  {
    hide Encode;
    var r := x.content.value;
    EncodeShort(OID, x.kind, 9);
    EncodeShort(r.tag, r.body, n);
    EncodeShort(SEQUENCE, InfoBody(x), n + 17);
  }

  lemma SafeIsSmall(safe: Info, n: nat)
    requires |EncodeInfo(safe)| <= n < 0x1000
    ensures |EncodeSafes([safe])| <= n + 4 && |Encode(OCTETS, EncodeSafes([safe]))| <= n + 8
  {
    hide Encode, EncodeInfo;
    OneIsItsBytes(EncodeInfo, safe);
    EncodeShort(SEQUENCE, EncodeInfo(safe), n);
    EncodeShort(OCTETS, EncodeSafes([safe]), n + 4);
  }

  lemma MacIsSmall(m: Mac)
    requires |m.algorithm| <= 9 && m.params == None && m.digest == [] && m.salt == [] && m.iterations == [1]
    ensures |MacBody(m)| <= 40 && |EncodeMac(m)| <= 44
  {
    hide Encode;
    EncodeShort(OID, m.algorithm, 9);
    EncodeShort(SEQUENCE, AlgorithmBody(m), 13);
    EncodeShort(OCTETS, [], 0);
    EncodeShort(SEQUENCE, DigestBody(m), 21);
    EncodeShort(SEQUENCE, MacBody(m), 40);
  }

  /** A keystore around one safe of one bag is small if the bag is. */
  lemma KeystoreIsSmall(x: Pfx, safe: Info, b: Bag, n: nat)
    requires |BagBody(b)| <= n < 0x100
    requires safe.kind == DATA && safe.content.Some? && safe.content.value.full == []
    requires safe.content.value.body == Encode(OCTETS, EncodeBags([b]))
    requires |x.version| == 1 && x.authSafe.kind == DATA && x.authSafe.content.Some? && x.authSafe.content.value.full == []
    requires x.authSafe.content.value.body == Encode(OCTETS, EncodeSafes([safe]))
    requires x.mac.Some? && |x.mac.value.algorithm| <= 9 && x.mac.value.params == None
    requires x.mac.value.digest == [] && x.mac.value.salt == [] && x.mac.value.iterations == [1]
    ensures |EncodeBags([b])| < LIMIT && |EncodeSafes([safe])| < LIMIT && |PfxBody(x)| < LIMIT
  {
    hide Encode, BagBody, InfoBody, MacBody, EncodeBags, EncodeSafes;
    BagIsSmall(b, n);
    InfoIsSmall(safe, n + 12);
    SafeIsSmall(safe, n + 33);
    InfoIsSmall(x.authSafe, n + 41);
    MacIsSmall(x.mac.value);
    EncodeShort(INTEGER, x.version, 1);
  }

  lemma KeyBagIsSmall()
    ensures |BagBody(BAG)| <= 21 && GoodBag(BAG) && BagHasChild(BAG)
  {
    hide Encode;
    EncodeShort(OID, KEY_BAG, 11);
    EncodeShort(EXPLICIT0, [OCTETS, 0], 2);
  }

  lemma OpensToOneKey()
    ensures Open(EncodePfx(KEYSTORE)) == Some((FreshPfx(KEYSTORE), EncodeSafes([SAFE]), [FreshInfo(SAFE)]))
    ensures BagsOf(FreshInfo(SAFE)) == Some([FreshBag(BAG)])
  {
    hide Encode, EncodeSafes, EncodeBags, BagBody, PfxBody, EncodePfx, DecodePfx, DecodeSafes, DecodeBags, OctetsIn, FreshBag;
    KeyBagIsSmall();
    KeystoreIsSmall(KEYSTORE, SAFE, BAG, 21);
    NewIsSound(EXPLICIT0, Encode(OCTETS, EncodeBags([BAG])));
    NewIsSound(EXPLICIT0, Encode(OCTETS, EncodeSafes([SAFE])));
    EncodeLonger(OCTETS, EncodeSafes([SAFE]));
    EncodeLonger(OCTETS, EncodeBags([BAG]));
    PfxRoundTrip(KEYSTORE);
    OctetsRoundTrip(EncodeSafes([SAFE]));
    SafesRoundTrip([SAFE]);
    OctetsRoundTrip(EncodeBags([BAG]));
    BagsRoundTrip([BAG]);
    assert Image(FreshInfo, [SAFE]) == [FreshInfo(SAFE)];
    assert Image(FreshBag, [BAG]) == [FreshBag(BAG)];
  }

  lemma KeystoreIsReady()
    ensures Ready(EncodePfx(KEYSTORE), "", "a")
  {
    hide EncodePfx, EncodeSafes, Encode, Open, BagsOf, EncodeBags;
    OpensToOneKey();
    var safe, bag := FreshInfo(SAFE), FreshBag(BAG);
    assert [bag][..0] == [] && [safe][..0] == [];
    assert KeysAmong([bag]) == 1;
    assert KeysIn(safe) == 1;
    assert KeyEntries([safe]) == 1;
  }

  /** The conditions can be met: this keystore is named. */
  lemma NamingCanSucceed()
    ensures Named(EncodePfx(KEYSTORE), "", "a", Plain()).Some?
  {
    hide Ready, EncodePfx, PfxBody, Named, Rewritten, NoBareTags, Open;
    KeystoreIsReady();
    RewrittenIsSmall();
    NothingIsBare();
    NamingSucceedsExactly(EncodePfx(KEYSTORE), "", "a", Plain());
  }

  lemma NothingIsBare()
    ensures Open(EncodePfx(KEYSTORE)).Some? && NoBareTags(Open(EncodePfx(KEYSTORE)).value.2)
  {
    hide EncodePfx, EncodeSafes, Encode, Open, BagsOf, EncodeBags;
    OpensToOneKey();
    EncodeLonger(OCTETS, EncodeBags([BAG]));
    assert forall s | s in [FreshInfo(SAFE)] :: s == FreshInfo(SAFE);
  }

  lemma RewrittenIsSmall()
    requires Ready(EncodePfx(KEYSTORE), "", "a")
    ensures |PfxBody(Rewritten(EncodePfx(KEYSTORE), "", "a", Plain()).value)| < LIMIT
  {
    hide EncodePfx, EncodeSafes, Encode, Open, BagsOf, EncodeBags, PfxBody, BagBody, Ready;
    OpensToOneKey();
    var safe, bag := FreshInfo(SAFE), FreshBag(BAG);
    var x := FriendlyName("a").value;
    NamedBagIsSmall(bag, x);
    NameOneBag(bag, x);
    var named := Rewrapped(safe, [Appended(bag, x)]);
    NameOneSafe(safe, named, x);
    KeystoreIsSmall(Rewritten(EncodePfx(KEYSTORE), "", "a", Plain()).value, named, Appended(bag, x), 80);
  }

  lemma LetterA()
    ensures BmpString("a") == Some([0, 97])
  {
    assert "a"[..0] == "" && "a"[0] == 'a' && 'a' as int == 97;
    assert BmpString("") == Some([]);
    var none: Bytes := [];
    assert none + [0, 97] == [0, 97];
  }

  lemma NameOneBag(b: Bag, x: Attribute)
    requires IsKey(b) && !HasAttribute(b.attributes, FRIENDLY_NAME)
    ensures NameBags([b], x) == Some(([Appended(b, x)], 1))
  {
    hide IsKey, HasAttribute, Appended;
    assert [b][..0] == [] && [] + [Appended(b, x)] == [Appended(b, x)];
    assert NameBags([], x) == Some(([], 0));
  }

  lemma NameOneSafe(safe: Info, named: Info, x: Attribute)
    requires NameSafe(safe, x) == Some((named, 1))
    ensures NameSafes([safe], x) == Some(([named], 1))
  {
    hide NameSafe;
    assert [safe][..0] == [] && [] + [named] == [named];
    assert NameSafes([], x) == Some(([], 0));
  }

  lemma NamedBagIsSmall(bag: Bag, x: Attribute)
    requires bag == FreshBag(BAG) && Some(x) == FriendlyName("a")
    ensures |BagBody(Appended(bag, x))| <= 80
  {
    hide Encode;
    LetterA();
    EncodeShort(OID, KEY_BAG, 11);
    EncodeShort(EXPLICIT0, [OCTETS, 0], 2);
    EncodeShort(BMP, [0, 97], 2);
    EncodeShort(SET, x.value.body, 6);
    EncodeShort(OID, FRIENDLY_NAME, 9);
    EncodeShort(SEQUENCE, AttributeBody(x), 23);
    assert Sorted([x]) == [x] by { assert [x][1..] == []; }
    OneIsItsBytes(EncodeAttribute, x);
    EncodeShort(SET, AttributesBody([x]), 27);
    assert [] + [x] == [x];
  }
}
