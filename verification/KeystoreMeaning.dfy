/**
 Naming the key entry of a keystore keeps its meaning: read back, the result holds the same safes
 and bags in the same order, and one key entry has gained one name.
 */
module KeystoreMeaning {
  import opened Prelude
  import opened BigEndian
  import opened Der
  import opened KeystoreFormat
  import opened KeystoreNaming

  // ---------- What decodes is sound ----------

  lemma {:induction false} DecodedInfos(s: Bytes)
    requires DecodeList(DecodeInfo, s).Some?
    ensures forall x | x in DecodeList(DecodeInfo, s).value :: SoundInfo(x) && FreshInfo(x) == x
    decreases |s|
  {
    if s != [] {
      DecodedInfo(s);
      DecodedInfos(DecodeInfo(s).value.1);
    }
  }

  /** A bag as it decodes: sound, and its parts are unchanged by decoding again. */
  predicate AsDecoded(b: Bag) {
    && GoodBag(b) && Fresh(b.value) == b.value
    && (b.attributes.Some? ==> forall a | a in b.attributes.value :: FreshAttribute(a) == a)
  }

  lemma {:induction false} DecodedBags(s: Bytes)
    requires DecodeList(DecodeBag, s).Some?
    ensures forall x | x in DecodeList(DecodeBag, s).value :: AsDecoded(x)
    decreases |s|
  {
    if s != [] {
      DecodedBag(s);
      DecodedBags(DecodeBag(s).value.1);
    }
  }

  // ---------- Which entry is named ----------

  lemma {:induction false} NamedBagsAre(bags: seq<Bag>, x: Attribute)
    requires NameBags(bags, x).Some?
    ensures var (named, n) := NameBags(bags, x).value;
            && |named| == |bags|
            && (forall j | 0 <= j < |bags| ::
                  if IsKey(bags[j]) then named[j] == Appended(bags[j], x) && !HasAttribute(bags[j].attributes, FRIENDLY_NAME)
                  else named[j] == bags[j])
            && (n == 0 ==> forall j | 0 <= j < |bags| :: !IsKey(bags[j]))
            && (n == 1 ==> exists m :: 0 <= m < |bags| && OnlyKey(bags, m))
  {
    if bags != [] {
      var most := bags[..|bags| - 1];
      NamedBagsAre(most, x);
      var n := NameBags(bags, x).value.1;
      if n == 1 {
        if IsKey(bags[|bags| - 1]) {
          assert OnlyKey(bags, |bags| - 1);
        } else {
          var m :| 0 <= m < |most| && OnlyKey(most, m);
          assert OnlyKey(bags, m);
        }
      }
    }
  }

  predicate OnlyKey(bags: seq<Bag>, m: nat)
    requires m < |bags|
  {
    IsKey(bags[m]) && forall j | 0 <= j < |bags| && j != m :: !IsKey(bags[j])
  }

  lemma {:induction false} NamedSafesAre(safes: seq<Info>, x: Attribute)
    requires NameSafes(safes, x).Some?
    ensures var (named, n) := NameSafes(safes, x).value;
            && |named| == |safes|
            && (forall i | 0 <= i < |safes| :: NameSafe(safes[i], x).Some? && named[i] == NameSafe(safes[i], x).value.0)
            && (n == 0 ==> forall i | 0 <= i < |safes| :: NameSafe(safes[i], x).value.1 == 0)
            && (n == 1 ==> exists t :: 0 <= t < |safes| && OnlyNamed(safes, x, t))
  {
    hide NameSafe;
    if safes != [] {
      var most, last := safes[..|safes| - 1], |safes| - 1;
      NamedSafesAre(most, x);
      forall i | 0 <= i < last ensures NameSafe(safes[i], x).Some? && NameSafes(safes, x).value.0[i] == NameSafe(safes[i], x).value.0 {
        assert safes[i] == most[i];
      }
      if NameSafes(safes, x).value.1 == 1 {
        if NameSafe(safes[last], x).value.1 == 1 {
          assert forall i | 0 <= i < last :: safes[i] == most[i];
          assert OnlyNamed(safes, x, last);
        } else {
          var t :| 0 <= t < |most| && OnlyNamed(most, x, t);
          assert forall i | 0 <= i < last :: safes[i] == most[i];
          assert OnlyNamed(safes, x, t);
        }
      } else if NameSafes(safes, x).value.1 == 0 {
        assert forall i | 0 <= i < last :: safes[i] == most[i];
      }
    }
  }

  /** One entry is named in safe t and none in any other. */
  predicate OnlyNamed(safes: seq<Info>, x: Attribute, t: nat)
    requires t < |safes|
  {
    forall i | 0 <= i < |safes| ::
      NameSafe(safes[i], x).Some? && NameSafe(safes[i], x).value.1 == (if i == t then 1 else 0)
  }

  // ---------- Sizes ----------

  /** What decodes is short enough. */
  lemma DecodableIsShort(tag: Byte, body: Bytes)
    requires Decode(Encode(tag, body)).Some?
    ensures Fits(tag, body)
  {
    var n := |body|;
    var b, s := Shortest(n), Encode(tag, body)[1..];
    assert s == EncodeLength(n) + body;
    ShortestValue(n);
    assert n >= 128 && |b| < 127 ==> s[1..1 + |b|] == b;
  }

  // ---------- Reading back ----------

  lemma SafeReads(safes: seq<Info>, i: nat, rest: Bytes)
    requires i < |safes| && SoundInfo(safes[i]) && |EncodeSafes(safes)| < LIMIT
    ensures DecodeInfo(EncodeInfo(safes[i]) + rest) == if InfoHasChild(safes[i]) then Some((FreshInfo(safes[i]), rest)) else None
    ensures |EncodeInfo(safes[i])| > 0
  {
    hide Encode, EncodeSafes, DecodeInfo, FreshInfo, SoundInfo, InfoHasChild;
    SafeIsShort(safes, i);
    EncodeLonger(SEQUENCE, InfoBody(safes[i]));
    InfoRoundTrip(safes[i], rest);
  }

  lemma BagReads(bags: seq<Bag>, i: nat, rest: Bytes)
    requires i < |bags| && GoodBag(bags[i]) && |EncodeBags(bags)| < LIMIT
    ensures DecodeBag(EncodeBag(bags[i]) + rest) == if BagHasChild(bags[i]) then Some((FreshBag(bags[i]), rest)) else None
    ensures |EncodeBag(bags[i])| > 0
  {
    hide Encode, EncodeBags, DecodeBag, FreshBag, GoodBag, BagHasChild, BagBody;
    BagIsShort(bags, i);
    BagRoundTrip(bags[i], rest);
  }

  lemma SafesRoundTrip(safes: seq<Info>)
    requires forall x | x in safes :: SoundInfo(x)
    requires |EncodeSafes(safes)| < LIMIT
    ensures DecodeSafes(EncodeSafes(safes)) == if All(InfoHasChild, safes) then Some(Image(FreshInfo, safes)) else None
  {
    hide All, TakeAs, TakeExplicit, Emit, Sound;
    var body := EncodeList(EncodeInfo, safes);
    EncodeLonger(SEQUENCE, body);
    TakeEncoded(SEQUENCE, body, []);
    assert Encode(SEQUENCE, body) + [] == Encode(SEQUENCE, body);
    forall i, rest: Bytes | 0 <= i < |safes|
      ensures DecodeInfo(EncodeInfo(safes[i]) + rest) == if InfoHasChild(safes[i]) then Some((FreshInfo(safes[i]), rest)) else None
      ensures |EncodeInfo(safes[i])| > 0
    {
      SafeReads(safes, i, rest);
    }
    ListRoundTrip(EncodeInfo, DecodeInfo, FreshInfo, InfoHasChild, safes);
  }

  lemma BagsRoundTrip(bags: seq<Bag>)
    requires forall x | x in bags :: GoodBag(x)
    requires |EncodeBags(bags)| < LIMIT
    ensures DecodeBags(EncodeBags(bags)) == if All(BagHasChild, bags) then Some(Image(FreshBag, bags)) else None
  {
    hide All, TakeAs, TakeExplicit, DecodeAttributes, BagBody, Emit, Sound, Sorted, GoodBag;
    var body := EncodeList(EncodeBag, bags);
    EncodeLonger(SEQUENCE, body);
    TakeEncoded(SEQUENCE, body, []);
    assert Encode(SEQUENCE, body) + [] == Encode(SEQUENCE, body);
    forall i, rest: Bytes | 0 <= i < |bags|
      ensures DecodeBag(EncodeBag(bags[i]) + rest) == if BagHasChild(bags[i]) then Some((FreshBag(bags[i]), rest)) else None
      ensures |EncodeBag(bags[i])| > 0
    {
      BagReads(bags, i, rest);
    }
    ListRoundTrip(EncodeBag, DecodeBag, FreshBag, BagHasChild, bags);
  }

  lemma OctetsRoundTrip(b: Bytes)
    requires |b| < LIMIT
    ensures OctetsIn(Encode(OCTETS, b)) == Some(b) && |Encode(OCTETS, b)| > |b|
  {
    TakeEncoded(OCTETS, b, []);
    assert Encode(OCTETS, b) + [] == Encode(OCTETS, b);
  }

  /** A resealed keystore that is short enough opens to the safes that were put in, if they all have
      children; otherwise it does not open. */
  lemma ResealedOpens(pfx: Pfx, safes: seq<Info>, password: string, crypto: Crypto)
    requires crypto.Valid() && GoodPfx(pfx) && FreshPfx(pfx) == pfx
    requires pfx.authSafe.content.Some? && pfx.authSafe.content.value.body != []
    requires forall x | x in safes :: SoundInfo(x)
    requires Resealed(pfx, safes, password, crypto).Some?
    requires |PfxBody(Resealed(pfx, safes, password, crypto).value)| < LIMIT
    ensures |EncodeSafes(safes)| < LIMIT
    ensures var out := Open(EncodePfx(Resealed(pfx, safes, password, crypto).value));
            && (out.Some? <==> All(InfoHasChild, safes))
            && (out.Some? ==>
            && out.value.0.version == pfx.version && out.value.0.authSafe.kind == pfx.authSafe.kind
            && pfx.mac.Some? && out.value.0.mac == Remade(pfx.mac.value, EncodeSafes(safes), password, crypto)
            && out.value.1 == EncodeSafes(safes)
            && out.value.2 == Image(FreshInfo, safes))
  {
    hide Encode, Decode, EncodeSafes, DecodeSafes, MacBody, DecodePfx, All, InfoHasChild, Explicit0;
    var x := Resealed(pfx, safes, password, crypto).value;
    var covered := EncodeSafes(safes);
    ResealedIsGood(pfx, safes, password, crypto);
    EncodeLonger(SEQUENCE, InfoBody(x.authSafe));
    EncodeLonger(x.authSafe.content.value.tag, Encode(OCTETS, covered));
    EncodeLonger(OCTETS, covered);
    PfxRoundTrip(x);
    OctetsRoundTrip(covered);
    SafesRoundTrip(safes);
  }

  lemma ResealedIsGood(pfx: Pfx, safes: seq<Info>, password: string, crypto: Crypto)
    requires crypto.Valid() && GoodPfx(pfx) && FreshPfx(pfx) == pfx
    requires pfx.authSafe.content.Some? && pfx.authSafe.content.value.body != []
    requires Resealed(pfx, safes, password, crypto).Some?
    ensures var x := Resealed(pfx, safes, password, crypto).value;
            && GoodPfx(x) && InfoHasChild(x.authSafe) && pfx.mac.Some?
            && FreshPfx(x).version == pfx.version && FreshPfx(x).authSafe.kind == pfx.authSafe.kind
            && FreshPfx(x).authSafe.content.Some? && FreshPfx(x).authSafe.content.value.body == Encode(OCTETS, EncodeSafes(safes))
            && FreshPfx(x).mac == Remade(pfx.mac.value, EncodeSafes(safes), password, crypto)
  {
    hide Encode, EncodeSafes, Sound, IsInteger;
    var x := Resealed(pfx, safes, password, crypto).value;
    NewIsSound(x.authSafe.content.value.tag, x.authSafe.content.value.body);
    EncodeLonger(OCTETS, EncodeSafes(safes));
  }

  lemma NewIsSound(tag: Byte, body: Bytes)
    ensures Sound(Raw(tag, body, []))
  {
  }

  lemma PfxIsShort(x: Pfx)
    requires DecodePfx(EncodePfx(x)).Some?
    ensures |PfxBody(x)| < LIMIT
  {
    DecodableIsShort(SEQUENCE, PfxBody(x));
  }

  // ---------- Attributes as sets ----------

  function AttributesOf(b: Bag): seq<Attribute> {
    if b.attributes.Some? then b.attributes.value else []
  }

  lemma KeptAttributes(xs: seq<Attribute>)
    requires forall a | a in xs :: FreshAttribute(a) == a
    ensures multiset(Image(FreshAttribute, Sorted(xs))) == multiset(xs)
  {
    var ys := Sorted(xs);
    forall i | 0 <= i < |ys| ensures FreshAttribute(ys[i]) == ys[i] {
      assert ys[i] in multiset(ys);
    }
    assert Image(FreshAttribute, ys) == ys;
  }

  lemma GainedAttribute(xs: seq<Attribute>, x: Attribute)
    requires x !in xs && forall a | a in xs :: FreshAttribute(a) == a
    ensures multiset(Image(FreshAttribute, Sorted(xs + [x]))) == multiset(xs) + multiset{FreshAttribute(x)}
  {
    hide Sorted, FreshAttribute, Image;
    var ys := Sorted(xs + [x]);
    var p := PositionOf(ys, xs, x);
    var left, right := ys[..p], ys[p + 1..];
    assert ys == left + [x] + right;
    OneTaken(left, x, right, xs);
    SameElements(left + right, xs);
    EachAround(left, x, right);
  }

  lemma PositionOf(ys: seq<Attribute>, xs: seq<Attribute>, x: Attribute) returns (p: nat)
    requires multiset(ys) == multiset(xs + [x])
    ensures p < |ys| && ys[p] == x
  {
    assert (xs + [x])[|xs|] == x;
    assert x in multiset(ys);
    p :| 0 <= p < |ys| && ys[p] == x;
  }

  lemma SameElements(ys: seq<Attribute>, xs: seq<Attribute>)
    requires multiset(ys) == multiset(xs)
    ensures forall a | a in ys :: a in xs
  {
    forall a | a in ys ensures a in xs {
      assert a in multiset(ys);
    }
  }

  /** A rearrangement of a list and one more element is a rearrangement of the list around it. */
  lemma OneTaken(left: seq<Attribute>, x: Attribute, right: seq<Attribute>, xs: seq<Attribute>)
    requires multiset(left + [x] + right) == multiset(xs + [x])
    ensures multiset(left + right) == multiset(xs)
  {
    assert multiset(left + [x] + right) == multiset(left) + multiset{x} + multiset(right);
    assert multiset(left + right) == multiset(left) + multiset(right);
    assert multiset(xs + [x]) == multiset(xs) + multiset{x};
    assert multiset(left + right) == multiset(left + [x] + right) - multiset{x};
    assert multiset(xs) == multiset(xs + [x]) - multiset{x};
  }

  lemma EachAround(left: seq<Attribute>, x: Attribute, right: seq<Attribute>)
    requires forall a | a in left + right :: FreshAttribute(a) == a
    ensures multiset(Image(FreshAttribute, left + [x] + right)) == multiset(left + right) + multiset{FreshAttribute(x)}
  {
    var ys := left + [x] + right;
    var zs := left + [FreshAttribute(x)] + right;
    forall i | 0 <= i < |ys| ensures FreshAttribute(ys[i]) == zs[i] {
      if i != |left| {
        assert ys[i] == if i < |left| then left[i] else right[i - |left| - 1];
        assert ys[i] in left + right;
      }
    }
    assert Image(FreshAttribute, ys) == zs;
    assert multiset(zs) == multiset(left) + multiset{FreshAttribute(x)} + multiset(right);
    assert multiset(left + right) == multiset(left) + multiset(right);
  }

  // ---------- Main results ----------

  /** The same entry, its attributes the same set. */
  predicate SameBag(b: Bag, b': Bag) {
    && b'.id == b.id && b'.value == b.value
    && b'.attributes.Some? == b.attributes.Some? && multiset(AttributesOf(b')) == multiset(AttributesOf(b))
  }

  /** A key entry that had no name and has gained exactly one, which reads as the alias. */
  ghost predicate GainsName(b: Bag, b': Bag, alias: string) {
    && IsKey(b) && !HasAttribute(b.attributes, FRIENDLY_NAME)
    && b'.id == b.id && b'.value == b.value
    && exists y :: AliasOf(y) == Some(alias) && multiset(AttributesOf(b')) == multiset(AttributesOf(b)) + multiset{y}
  }

  /** One safe before and after: the same entries in order, entry m named. */
  ghost predicate SafeGainsName(safe: Info, safe': Info, m: nat, alias: string) {
    && safe'.kind == safe.kind == DATA
    && BagsOf(safe).Some? && BagsOf(safe').Some?
    && var bags, bags' := BagsOf(safe).value, BagsOf(safe').value;
       && |bags'| == |bags| && m < |bags| && OnlyKey(bags, m)
       && GainsName(bags[m], bags'[m], alias)
       && forall j | 0 <= j < |bags| && j != m :: SameBag(bags[j], bags'[j])
  }

  /** A safe the alias code does not touch: it is not a plain one, or it holds no key entry. */
  ghost predicate HoldsNoKey(safe: Info) {
    safe.kind != DATA || (BagsOf(safe).Some? && forall b | b in BagsOf(safe).value :: !IsKey(b))
  }

  lemma ChangedBag(b: Bag, x: Attribute, alias: string)
    requires AsDecoded(b) && !HasAttribute(b.attributes, FRIENDLY_NAME) && IsKey(b)
    requires FriendlyName(alias) == Some(x) && |BagBody(Appended(b, x))| < LIMIT
    ensures GainsName(b, FreshBag(Appended(b, x)), alias)
  {
    var xs := AttributesOf(b);
    assert forall i | 0 <= i < |xs| :: xs[i].id != FRIENDLY_NAME;
    GainedAttribute(xs, x);
    var bmp := BmpString(alias).value;
    AliasFits(b, x, bmp);
    BmpRoundTrip(alias);
    TakeEncoded(BMP, bmp, []);
    assert Encode(BMP, bmp) + [] == Encode(BMP, bmp);
    assert AliasOf(FreshAttribute(x)) == Some(alias);
  }

  lemma AliasFits(b: Bag, x: Attribute, bmp: Bytes)
    requires x == Attribute(FRIENDLY_NAME, Raw(SET, Encode(BMP, bmp), []))
    requires |BagBody(Appended(b, x))| < LIMIT
    ensures |bmp| < LIMIT
  {
    hide Encode;
    var ys := Sorted(AttributesOf(b) + [x]);
    assert x in multiset(ys);
    var p :| 0 <= p < |ys| && ys[p] == x;
    ListLonger(EncodeAttribute, ys, p);
    EncodeLonger(SET, AttributesBody(AttributesOf(b) + [x]));
    EncodeLonger(SEQUENCE, AttributeBody(x));
    EncodeLonger(SET, Encode(BMP, bmp));
    EncodeLonger(BMP, bmp);
  }

  lemma KeptBag(b: Bag)
    requires AsDecoded(b)
    ensures SameBag(b, FreshBag(b))
  {
    if b.attributes.Some? {
      KeptAttributes(b.attributes.value);
    }
  }

  lemma OctetsHaveBody(s: Bytes)
    requires OctetsIn(s).Some?
    ensures s != []
  {
  }

  /** A safe whose bags are written afresh reads back if they all have children. */
  lemma RewrappedReads(safe: Info, bags: seq<Bag>)
    requires SoundInfo(safe) && safe.content.Some? && safe.content.value.body != []
    requires (forall b | b in bags :: GoodBag(b)) && |EncodeInfo(Rewrapped(safe, bags))| < LIMIT
    ensures SoundInfo(Rewrapped(safe, bags)) && InfoHasChild(Rewrapped(safe, bags)) && |EncodeBags(bags)| < LIMIT
    ensures FreshInfo(Rewrapped(safe, bags)).kind == safe.kind
    ensures BagsOf(FreshInfo(Rewrapped(safe, bags))) == if All(BagHasChild, bags) then Some(Image(FreshBag, bags)) else None
  {
    hide Encode, DecodeBags, EncodeBags, GoodBag, All, Sound;
    var safe', content := Rewrapped(safe, bags), EncodeBags(bags);
    NewIsSound(safe'.content.value.tag, Encode(OCTETS, content));
    EncodeLonger(SEQUENCE, InfoBody(safe'));
    EncodeLonger(safe'.content.value.tag, Encode(OCTETS, content));
    EncodeLonger(OCTETS, content);
    OctetsRoundTrip(content);
    BagsRoundTrip(bags);
  }

  /** The safe whose key entry is named, read back. */
  lemma ChangedSafe(safe: Info, x: Attribute, alias: string)
    requires SoundInfo(safe) && FriendlyName(alias) == Some(x)
    requires NameSafe(safe, x).Some? && NameSafe(safe, x).value.1 == 1
    requires |EncodeInfo(NameSafe(safe, x).value.0)| < LIMIT
    requires BagsOf(FreshInfo(NameSafe(safe, x).value.0)).Some?
    ensures exists m :: SafeGainsName(safe, FreshInfo(NameSafe(safe, x).value.0), m, alias)
  {
    hide Encode, Decode, DecodeBags, EncodeBags, BagBody, FreshBag, FriendlyName, Rewrapped, FreshInfo, SoundInfo, All, GoodBag, AsDecoded;
    var bags := BagsOf(safe).value;
    var (named, _) := NameBags(bags, x).value;
    var safe' := Rewrapped(safe, named);
    BagsComeDecoded(safe);
    NamedBagsAre(bags, x);
    var m :| 0 <= m < |bags| && OnlyKey(bags, m);
    AppendedIsGood(bags, named, x, alias);
    OctetsHaveBody(safe.content.value.body);
    RewrappedReads(safe, named);
    BagIsShort(named, m);
    ChangedBag(bags[m], x, alias);
    forall j | 0 <= j < |bags| && j != m ensures SameBag(bags[j], FreshBag(named[j])) {
      KeptBag(bags[j]);
    }
    assert SafeGainsName(safe, FreshInfo(safe'), m, alias);
  }

  lemma BagsComeDecoded(safe: Info)
    requires BagsOf(safe).Some?
    ensures forall b | b in BagsOf(safe).value :: AsDecoded(b)
  {
    DecodedBags(TakeAs(OctetsIn(safe.content.value.body).value, SEQUENCE).value.0);
  }

  lemma BagIsShort(bags: seq<Bag>, j: nat)
    requires j < |bags| && |EncodeBags(bags)| < LIMIT
    ensures |BagBody(bags[j])| < LIMIT
  {
    EncodeLonger(SEQUENCE, EncodeList(EncodeBag, bags));
    ListLonger(EncodeBag, bags, j);
    EncodeLonger(SEQUENCE, BagBody(bags[j]));
  }

  lemma AppendedIsGood(bags: seq<Bag>, named: seq<Bag>, x: Attribute, alias: string)
    requires FriendlyName(alias) == Some(x) && |named| == |bags|
    requires forall b | b in bags :: AsDecoded(b)
    requires forall j | 0 <= j < |bags| :: named[j] == bags[j] || named[j] == Appended(bags[j], x)
    ensures forall b | b in named :: GoodBag(b)
  {
    forall b | b in named ensures GoodBag(b) {
      var j :| 0 <= j < |named| && named[j] == b;
      assert AsDecoded(bags[j]);
    }
  }

  lemma OpenedIsSound(data: Bytes)
    requires Open(data).Some?
    ensures var (pfx, covered, safes) := Open(data).value;
            && GoodPfx(pfx) && FreshPfx(pfx) == pfx
            && forall x | x in safes :: SoundInfo(x) && FreshInfo(x) == x
  {
    var (_, covered, _) := Open(data).value;
    DecodedPfx(data);
    DecodedInfos(TakeAs(covered, SEQUENCE).value.0);
  }

  lemma NamedIsSound(safe: Info, x: Attribute)
    requires SoundInfo(safe) && NameSafe(safe, x).Some?
    ensures SoundInfo(NameSafe(safe, x).value.0)
    ensures NameSafe(safe, x).value.1 != 0 ==> safe.kind == DATA && InfoHasChild(NameSafe(safe, x).value.0)
    ensures NameSafe(safe, x).value.1 == 0 ==> NameSafe(safe, x).value.0 == safe && HoldsNoKey(safe)
  {
    hide Encode, EncodeBags, NameBags, Sound, OctetsIn;
    if safe.kind == DATA {
      NamedBagsAre(BagsOf(safe).value, x);
      OctetsHaveBody(safe.content.value.body);
      var named := NameBags(BagsOf(safe).value, x).value.0;
      NewIsSound(safe.content.value.tag, Encode(OCTETS, EncodeBags(named)));
      EncodeLonger(OCTETS, EncodeBags(named));
    }
  }

  /** What a successful naming went through. */
  lemma NamedIs(data: Bytes, password: string, alias: string, crypto: Crypto)
    requires crypto.Valid() && alias != "" && Named(data, password, alias, crypto).Some?
    ensures Open(data).Some? && FriendlyName(alias).Some?
    ensures var (pfx, _, safes) := Open(data).value;
            var done := NameSafes(safes, FriendlyName(alias).value);
            && pfx.authSafe.content.Some? && pfx.authSafe.content.value.body != []
            && done.Some? && done.value.1 == 1
            && Resealed(pfx, done.value.0, password, crypto).Some?
            && var out := EncodePfx(Resealed(pfx, done.value.0, password, crypto).value);
               Named(data, password, alias, crypto) == Some(out) && Readable(out)
  {
    hide NameSafes, Resealed, EncodePfx, DecodePfx, DecodeSafes, FriendlyName, Readable;
    OctetsHaveBody(Open(data).value.0.authSafe.content.value.body);
  }

  lemma OpenIsShort(x: Pfx)
    requires Open(EncodePfx(x)).Some?
    ensures |PfxBody(x)| < LIMIT
  {
    PfxIsShort(x);
  }

  /**
   Naming keeps the meaning. If it succeeds, the result opens again to the same version, the same
   MAC apart from its digest, and as many safes; all safes but one are the same, bytes included,
   and hold no key entry or are not plain; in that one the bags are the same in order and its only
   key entry, which had no name, has gained exactly one, which reads as the alias. The digest is
   the keyed hash of exactly the bytes the result's safes are read from.
   */
  lemma NamingKeepsMeaning(data: Bytes, password: string, alias: string, crypto: Crypto)
    requires crypto.Valid() && alias != "" && Named(data, password, alias, crypto).Some?
    ensures var out := Named(data, password, alias, crypto).value;
            && Open(data).Some? && Open(out).Some?
            && var (pfx, _, safes), (pfx', covered', safes') := Open(data).value, Open(out).value;
               && pfx'.version == pfx.version && pfx'.authSafe.kind == pfx.authSafe.kind
               && pfx.mac.Some? && pfx'.mac == Remade(pfx.mac.value, covered', password, crypto)
               && |safes'| == |safes|
               && exists t, m ::
                    && 0 <= t < |safes| && SafeGainsName(safes[t], safes'[t], m, alias)
                    && forall i | 0 <= i < |safes| && i != t :: safes'[i] == safes[i] && HoldsNoKey(safes[i])
  {
    hide Named, Open, NameSafe, Resealed, EncodeSafes, EncodePfx, PfxBody, Remade, FriendlyName, SoundInfo, All, SafeGainsName, FreshInfo, EncodeInfo, BagsOf, HoldsNoKey;
    NamedIs(data, password, alias, crypto);
    var (pfx, _, safes) := Open(data).value;
    var x := FriendlyName(alias).value;
    var (named, _) := NameSafes(safes, x).value;
    OpenIsShort(Resealed(pfx, named, password, crypto).value);
    OpenedIsSound(data);
    NamedSafesAre(safes, x);
    forall i | 0 <= i < |safes| ensures SoundInfo(named[i]) {
      assert safes[i] in safes;
      NamedIsSound(safes[i], x);
    }
    ResealedOpens(pfx, named, password, crypto);
    var t :| 0 <= t < |safes| && OnlyNamed(safes, x, t);
    SafeIsShort(named, t);
    var safes' := Image(FreshInfo, named);
    assert safes[t] in safes && safes'[t] in safes';
    NamedIsSound(safes[t], x);
    KindIsKept(safes[t], x);
    ChangedSafe(safes[t], x, alias);
    var m :| SafeGainsName(safes[t], safes'[t], m, alias);
    forall i | 0 <= i < |safes| && i != t ensures safes'[i] == safes[i] && HoldsNoKey(safes[i]) {
      assert safes[i] in safes;
      NamedIsSound(safes[i], x);
    }
  }

  lemma KindIsKept(safe: Info, x: Attribute)
    requires NameSafe(safe, x).Some?
    ensures FreshInfo(NameSafe(safe, x).value.0).kind == safe.kind
  {
  }

  lemma SafeIsShort(safes: seq<Info>, i: nat)
    requires i < |safes| && |EncodeSafes(safes)| < LIMIT
    ensures |EncodeInfo(safes[i])| < LIMIT
  {
    EncodeLonger(SEQUENCE, EncodeList(EncodeInfo, safes));
    ListLonger(EncodeInfo, safes, i);
  }

  lemma NamedSafeIsRefused(safe: Info, safe': Info, m: nat, alias: string, x: Attribute)
    requires SafeGainsName(safe, safe', m, alias)
    ensures NameSafe(safe', x) == None
  {
    var bag, before := BagsOf(safe').value[m], BagsOf(safe).value[m];
    var y :| AliasOf(y) == Some(alias) && multiset(AttributesOf(bag)) == multiset(AttributesOf(before)) + multiset{y};
    assert y in multiset(AttributesOf(bag));
    BadBagSticks(BagsOf(safe').value, x, m);
  }

  /** Naming is not repeatable: the result already names its key entry, so naming it again with any
      alias is refused. */
  lemma NamingTwiceIsRefused(data: Bytes, password: string, alias: string, again: string, crypto: Crypto)
    requires crypto.Valid() && alias != "" && again != ""
    requires Named(data, password, alias, crypto).Some?
    ensures Named(Named(data, password, alias, crypto).value, password, again, crypto) == None
  {
    hide Resealed, NameSafe, SafeGainsName, DecodePfx, EncodePfx;
    NamingKeepsMeaning(data, password, alias, crypto);
    var out := Named(data, password, alias, crypto).value;
    var (_, _, safes) := Open(data).value;
    var (_, _, safes') := Open(out).value;
    var t, m :| 0 <= t < |safes| && SafeGainsName(safes[t], safes'[t], m, alias);
    if FriendlyName(again).Some? {
      var x := FriendlyName(again).value;
      NamedSafeIsRefused(safes[t], safes'[t], m, alias, x);
      BadSafeSticks(safes', x, t);
    }
  }
}
