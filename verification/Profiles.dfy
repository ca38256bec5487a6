/**
 Platform profiles: defaults that fill what the operator left blank and never override, and the
 one placeholder they may carry (profile.go), then the reading of a whole spec (install.go).
 */
module Profiles {
  import opened Prelude
  import opened Text
  import opened InstallSpec

  datatype Profile = Profile(
    name: string, windows: bool,
    format: string, certPath: string, keyPath: string, chainPath: string, fullChainPath: string,
    certMode: string, keyMode: string, owner: string, group: string,
    store: string, verify: string, bind: seq<string>, check: seq<string>, reload: seq<string>)

  const PLACEHOLDER := "{{ .Certificate }}"

  /** The first profile of that name. */
  function Lookup(catalogue: seq<Profile>, name: string): Option<Profile> {
    if catalogue == [] then None
    else if catalogue[0].name == Lower(TrimSpace(name)) then Some(catalogue[0])
    else Lookup(catalogue[1..], name)
  }

  function Fill(own: string, from: string): string { if Blank(own) then from else own }

  /** An empty default leaves a list unwritten. */
  function FillList(own: Option<seq<string>>, from: seq<string>): Option<seq<string>> {
    if own.Some? then own else if from == [] then None else Some(from)
  }

  function Filled(d: Destination, p: Profile): Destination {
    d.(format := Fill(d.format, p.format), certPath := Fill(d.certPath, p.certPath),
       keyPath := Fill(d.keyPath, p.keyPath), chainPath := Fill(d.chainPath, p.chainPath),
       fullChainPath := Fill(d.fullChainPath, p.fullChainPath), certMode := Fill(d.certMode, p.certMode),
       keyMode := Fill(d.keyMode, p.keyMode), owner := Fill(d.owner, p.owner),
       group := Fill(d.group, p.group), store := Fill(d.store, p.store), verify := Fill(d.verify, p.verify),
       bind := FillList(d.bind, p.bind), check := FillList(d.check, p.check), reload := FillList(d.reload, p.reload))
  }

  function Expand(text: string, certificate: string): string { ReplaceAll(text, PLACEHOLDER, certificate) }

  function Expanded(d: Destination): Destination {
    d.(certPath := Expand(d.certPath, d.certificate), keyPath := Expand(d.keyPath, d.certificate),
       chainPath := Expand(d.chainPath, d.certificate), fullChainPath := Expand(d.fullChainPath, d.certificate),
       verify := Expand(d.verify, d.certificate))
  }

  predicate Plain(text: string) { !Contains(text, "{{") }

  predicate AllPlain(d: Destination) {
    Plain(d.certPath) && Plain(d.keyPath) && Plain(d.chainPath) && Plain(d.fullChainPath) && Plain(d.verify)
  }

  /** The destination with its profile applied and placeholders expanded, or None if refused. */
  function Applied(d: Destination, catalogue: seq<Profile>, windows: bool): Option<Destination> {
    if Blank(d.profile) then
      if AllPlain(Expanded(d)) then Some(Expanded(d)) else None
    else match Lookup(catalogue, d.profile)
      case None => None
      case Some(p) =>
        if p.windows != windows then None
        else if AllPlain(Expanded(Filled(d, p))) then Some(Expanded(Filled(d, p))) else None
  }

  /** A destination while its profile is applied to it. */
  class Draft {
    var d: Destination

    constructor (d: Destination)
      ensures this.d == d
    {
      this.d := d;
    }

    method LookupProfile(catalogue: seq<Profile>) returns (found: Option<Profile>)
      ensures found == Lookup(catalogue, d.profile)
    {
      var k := 0;
      while k < |catalogue|
        invariant 0 <= k <= |catalogue|
        invariant Lookup(catalogue, d.profile) == Lookup(catalogue[k..], d.profile)
      {
        if catalogue[k].name == Lower(TrimSpace(d.profile)) {
          return Some(catalogue[k]);
        }
        k := k + 1;
      }
      found := None;
    }

    /** Substitute the certificate's name field by field, stopping at the first that still holds a
        placeholder. */
    method ExpandPlaceholders() returns (ok: bool)
      modifies this
      ensures ok == AllPlain(Expanded(old(d)))
      ensures ok ==> d == Expanded(old(d))
    {
      d := d.(certPath := Expand(d.certPath, d.certificate));
      if !Plain(d.certPath) { return false; }
      d := d.(keyPath := Expand(d.keyPath, d.certificate));
      if !Plain(d.keyPath) { return false; }
      d := d.(chainPath := Expand(d.chainPath, d.certificate));
      if !Plain(d.chainPath) { return false; }
      d := d.(fullChainPath := Expand(d.fullChainPath, d.certificate));
      if !Plain(d.fullChainPath) { return false; }
      d := d.(verify := Expand(d.verify, d.certificate));
      ok := Plain(d.verify);
    }

    method ApplyProfile(catalogue: seq<Profile>, windows: bool) returns (ok: bool)
      modifies this
      ensures ok == Applied(old(d), catalogue, windows).Some?
      ensures ok ==> d == Applied(old(d), catalogue, windows).value
    {
      TrimSpaceBlank(d.profile);
      if TrimSpace(d.profile) != "" {
        var found := LookupProfile(catalogue);
        if found.None? || found.value.windows != windows {
          return false;
        }
        d := Filled(d, found.value);
      }
      ok := ExpandPlaceholders();
    }
  }

  // ---------- Guarantees ----------

  /** A field after filling and expanding, applied again, is the same, provided the certificate's
      name is not blank. */
  lemma FieldIsStable(own: string, from: string, certificate: string)
    requires !Blank(certificate) && Plain(Expand(Fill(own, from), certificate))
    ensures Expand(Fill(Expand(Fill(own, from), certificate), from), certificate) == Expand(Fill(own, from), certificate)
  {
    var z := Fill(own, from);
    var y := Expand(z, certificate);
    ReplaceKeepsInk(z, PLACEHOLDER, certificate);
    PlainIsStable(y, certificate);
  }

  lemma PlainIsStable(text: string, certificate: string)
    requires Plain(text)
    ensures Expand(text, certificate) == text
  {
    if Contains(text, PLACEHOLDER) {
      ContainsLonger(text, "{{", PLACEHOLDER);
    }
    ReplaceNothing(text, PLACEHOLDER, certificate);
  }

  /** Applying a profile twice is applying it once. */
  lemma ApplyingTwiceIsOnce(d: Destination, catalogue: seq<Profile>, windows: bool)
    requires !Blank(d.certificate) && Applied(d, catalogue, windows).Some?
    ensures Applied(Applied(d, catalogue, windows).value, catalogue, windows) == Applied(d, catalogue, windows)
  {
    hide Expand, Plain;
    var d' := Applied(d, catalogue, windows).value;
    if Blank(d.profile) {
      PlainIsStable(d'.certPath, d.certificate);
      PlainIsStable(d'.keyPath, d.certificate);
      PlainIsStable(d'.chainPath, d.certificate);
      PlainIsStable(d'.fullChainPath, d.certificate);
      PlainIsStable(d'.verify, d.certificate);
    } else {
      var p := Lookup(catalogue, d.profile).value;
      FieldIsStable(d.certPath, p.certPath, d.certificate);
      FieldIsStable(d.keyPath, p.keyPath, d.certificate);
      FieldIsStable(d.chainPath, p.chainPath, d.certificate);
      FieldIsStable(d.fullChainPath, p.fullChainPath, d.certificate);
      FieldIsStable(d.verify, p.verify, d.certificate);
    }
  }

  lemma NoBraceFirst(text: string)
    requires text != "" && text[0] != '{'
    ensures !("{{" <= text)
  {
    assert "{{"[0] == '{';
  }

  /** White space holds no placeholder. */
  lemma {:induction false} BlankIsPlain(text: string)
    requires Blank(text)
    ensures Plain(text)
  {
    if text != "" {
      assert forall i | 0 <= i < |text| - 1 :: text[1..][i] == text[i + 1];
      BlankIsPlain(text[1..]);
      NoBraceFirst(text);
    }
  }

  const FILLING := Profile("x", false, "", "/c", "", "", "", "", "", "", "", "", "", [], [], [])

  /** A destination whose one path is the placeholder. */
  function OnlyPlaceholder(certificate: string): Destination {
    Destination("n", certificate, "x", PLACEHOLDER, "", "", "", "", "", "", "", "", None, "", "", "", "", "", None, None)
  }

  lemma BlankCertificateFacts(c: string)
    requires Blank(c)
    ensures TrimSpace("x") == "x" && Lower("x") == "x" && !Blank("x") && Blank("") && !Blank("/c") && !Blank(PLACEHOLDER)
    ensures Expand(PLACEHOLDER, c) == c && Expand(c, c) == c && Expand("", c) == "" && Expand("/c", c) == "/c"
    ensures Plain("") && Plain("/c") && Plain(c) && c != "/c"
  {
    assert "x"[0] == 'x' && PLACEHOLDER[0] == '{' && "/c"[0] == '/';
    assert PLACEHOLDER[|PLACEHOLDER|..] == "";
    assert Expand(PLACEHOLDER, c) == c + ReplaceAll("", PLACEHOLDER, c);
    assert "/c"[1..] == "c" && "c"[1..] == "";
    assert !Contains("c", "{{") && !Contains("/c", "{{");
    BlankIsPlain(c);
    PlainIsStable("/c", c);
    PlainIsStable("", c);
    PlainIsStable(c, c);
  }

  /** With a blank certificate name, whichever it is, applying is not idempotent: a path that expands
      to blank is filled by the profile the second time. */
  lemma BlankCertificateWitness(c: string)
    requires Blank(c)
    ensures var once := Applied(OnlyPlaceholder(c), [FILLING], false);
            once.Some? && Applied(once.value, [FILLING], false) != once
  {
    hide Expand, Plain, Blank, TrimSpace, Lower;
    var d := OnlyPlaceholder(c);
    BlankCertificateFacts(c);
    assert Lookup([FILLING], "x") == Some(FILLING);
    assert Applied(d, [FILLING], false) == Some(d.(certPath := c));
    assert Applied(d.(certPath := c), [FILLING], false) == Some(d.(certPath := "/c"));
  }

  /** Applying any profile of any catalogue twice is applying it once, for every destination of this
      certificate. */
  ghost predicate Idempotent(c: string) {
    forall d: Destination, catalogue, windows | d.certificate == c && Applied(d, catalogue, windows).Some? ::
      Applied(Applied(d, catalogue, windows).value, catalogue, windows) == Applied(d, catalogue, windows)
  }

  /** Exactly for the names that are not blank. */
  lemma IdempotentExactly(c: string)
    ensures Idempotent(c) <==> !Blank(c)
  {
    hide Applied;
    if Blank(c) {
      BlankCertificateWitness(c);
      assert OnlyPlaceholder(c).certificate == c;
    } else {
      forall d: Destination, catalogue, windows | d.certificate == c && Applied(d, catalogue, windows).Some?
        ensures Applied(Applied(d, catalogue, windows).value, catalogue, windows) == Applied(d, catalogue, windows)
      {
        ApplyingTwiceIsOnce(d, catalogue, windows);
      }
    }
  }

  /**
   A profile is a default. Whatever the operator wrote down survives, apart from the placeholder in
   paths and the endpoint; a list that was written down survives even when empty; and no path or
   endpoint is left with a placeholder.
   */
  lemma ProfileNeverOverrides(d: Destination, catalogue: seq<Profile>, windows: bool)
    requires Applied(d, catalogue, windows).Some?
    ensures var d' := Applied(d, catalogue, windows).value;
            && d'.name == d.name && d'.certificate == d.certificate && d'.keystoreAlias == d.keystoreAlias
            && d'.keystorePassword == d.keystorePassword && d'.keystorePasswordFile == d.keystorePasswordFile
            && (!Blank(d.format) ==> d'.format == d.format) && (!Blank(d.store) ==> d'.store == d.store)
            && (!Blank(d.certMode) ==> d'.certMode == d.certMode) && (!Blank(d.keyMode) ==> d'.keyMode == d.keyMode)
            && (!Blank(d.owner) ==> d'.owner == d.owner) && (!Blank(d.group) ==> d'.group == d.group)
            && (!Blank(d.certPath) ==> d'.certPath == Expand(d.certPath, d.certificate))
            && (!Blank(d.keyPath) ==> d'.keyPath == Expand(d.keyPath, d.certificate))
            && (!Blank(d.chainPath) ==> d'.chainPath == Expand(d.chainPath, d.certificate))
            && (!Blank(d.fullChainPath) ==> d'.fullChainPath == Expand(d.fullChainPath, d.certificate))
            && (!Blank(d.verify) ==> d'.verify == Expand(d.verify, d.certificate))
            && (d.bind.Some? ==> d'.bind == d.bind) && (d.check.Some? ==> d'.check == d.check)
            && (d.reload.Some? ==> d'.reload == d.reload)
            && AllPlain(d')
  {
    hide Expand;
  }

  /** A path or an endpoint without a placeholder is taken exactly as the operator wrote it. */
  lemma WrittenPathIsKept(d: Destination, catalogue: seq<Profile>, windows: bool)
    requires Applied(d, catalogue, windows).Some?
    ensures var d' := Applied(d, catalogue, windows).value;
            && (!Blank(d.certPath) && Plain(d.certPath) ==> d'.certPath == d.certPath)
            && (!Blank(d.keyPath) && Plain(d.keyPath) ==> d'.keyPath == d.keyPath)
            && (!Blank(d.chainPath) && Plain(d.chainPath) ==> d'.chainPath == d.chainPath)
            && (!Blank(d.fullChainPath) && Plain(d.fullChainPath) ==> d'.fullChainPath == d.fullChainPath)
            && (!Blank(d.verify) && Plain(d.verify) ==> d'.verify == d.verify)
  {
    hide Applied, Expand, Plain, Blank;
    ProfileNeverOverrides(d, catalogue, windows);
    if Plain(d.certPath) { PlainIsStable(d.certPath, d.certificate); }
    if Plain(d.keyPath) { PlainIsStable(d.keyPath, d.certificate); }
    if Plain(d.chainPath) { PlainIsStable(d.chainPath, d.certificate); }
    if Plain(d.fullChainPath) { PlainIsStable(d.fullChainPath, d.certificate); }
    if Plain(d.verify) { PlainIsStable(d.verify, d.certificate); }
  }

  // ---------- A whole spec ----------

  function Cleaned(d: Destination): Destination {
    d.(name := TrimSpace(d.name), certificate := CleanName(d.certificate))
  }

  /** One destination as it is accepted, or None. */
  function Accepted(d: Destination, catalogue: seq<Profile>, p: Platform): Option<Destination> {
    if Cleaned(d).name == "" then None
    else match Applied(Cleaned(d), catalogue, p.windows)
      case None => None
      case Some(a) => if Valid(a, p) then Some(a) else None
  }

  /** Read a spec: every destination accepted in turn, no two with one name. */
  method LoadInstallSpec(declared: seq<Destination>, catalogue: seq<Profile>, p: Platform)
    returns (spec: Option<seq<Destination>>)
    ensures spec.Some? <==>
      && (forall i | 0 <= i < |declared| :: Accepted(declared[i], catalogue, p).Some?)
      && (forall i, j | 0 <= i < j < |declared| :: Cleaned(declared[i]).name != Cleaned(declared[j]).name)
    ensures spec.Some? ==>
      && |spec.value| == |declared|
      && (forall i | 0 <= i < |declared| :: Accepted(declared[i], catalogue, p) == Some(spec.value[i]))
      && (forall i, j | 0 <= i < j < |declared| :: spec.value[i].name != spec.value[j].name)
  {
    hide Applied, Valid, CleanName, TrimSpace;
    var ds := declared;
    var seen: set<string> := {};
    var i := 0;
    while i < |ds|
      invariant 0 <= i <= |ds| == |declared|
      invariant forall k | i <= k < |ds| :: ds[k] == declared[k]
      invariant forall k | 0 <= k < i :: Accepted(declared[k], catalogue, p) == Some(ds[k]) && ds[k].name == Cleaned(declared[k]).name
      invariant forall x :: x in seen <==> exists k :: 0 <= k < i && ds[k].name == x
      invariant forall j, k | 0 <= j < k < i :: ds[j].name != ds[k].name
    {
      var cleaned := Cleaned(ds[i]);
      if cleaned.name == "" {
        return None;
      }
      if cleaned.name in seen {
        return None;
      }
      seen := seen + {cleaned.name};
      var draft := new Draft(cleaned);
      var ok := draft.ApplyProfile(catalogue, p.windows);
      if !ok || !Valid(draft.d, p) {
        return None;
      }
      AppliedKeepsName(cleaned, catalogue, p.windows);
      ds := ds[i := draft.d];
      i := i + 1;
    }
    spec := Some(ds);
  }

  lemma AppliedKeepsName(d: Destination, catalogue: seq<Profile>, windows: bool)
    requires Applied(d, catalogue, windows).Some?
    ensures Applied(d, catalogue, windows).value.name == d.name
    ensures Applied(d, catalogue, windows).value.certificate == d.certificate
  {
    ProfileNeverOverrides(d, catalogue, windows);
  }

  /** An accepted destination has a certificate name that is not blank, so applying its profile once
      more changes nothing. */
  lemma AcceptedIsStable(d: Destination, catalogue: seq<Profile>, p: Platform)
    requires Accepted(d, catalogue, p).Some?
    ensures var a := Accepted(d, catalogue, p).value;
            !Blank(a.certificate) && Applied(a, catalogue, p.windows) == Some(a)
  {
    hide Applied, Valid, CleanName, TrimSpace;
    CleanNameHasInk(d.certificate);
    AppliedKeepsName(Cleaned(d), catalogue, p.windows);
    ValidHasCertificate(Accepted(d, catalogue, p).value, p);
    ApplyingTwiceIsOnce(Cleaned(d), catalogue, p.windows);
  }

  lemma ValidHasCertificate(d: Destination, p: Platform)
    requires Valid(d, p)
    ensures d.certificate != ""
  {
  }
}
