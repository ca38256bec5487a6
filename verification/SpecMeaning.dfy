/**
 What a declaration means, field by field: octal modes and their defaults, the bytes of each file, what
 is accepted, and what a profile puts where nothing was written (install.go, profile.go).
 */
module SpecMeaning {
  import opened Prelude
  import opened Text
  import opened InstallSpec
  import opened Profiles
  import Arithmetic
  import FileInstall

  // ---------- Modes ----------

  /** The octal digits of a number. */
  function Octal(n: nat): string {
    if n < 8 then ["01234567"[n]] else Octal(n / 8) + ["01234567"[n % 8]]
  }

  lemma DigitsAre(c: char)
    ensures |"01234567"| == 8 && forall k | 0 <= k < 8 :: "01234567"[k] as int == '0' as int + k
    ensures '0' <= c <= '7' <==> exists k :: 0 <= k < 8 && "01234567"[k] == c
  {
    assert '0' <= c <= '7' ==> "01234567"[c as int - 48] == c;
  }

  /** A number reads back from its octal digits, with zeros in front or without. */
  lemma {:induction false} OctalRoundTrip(n: nat)
    ensures OctalValue(Octal(n)) == Some(n) && OctalValue("0" + Octal(n)) == Some(n)
    decreases n
  {
    DigitsAre('0');
    var c := "01234567"[n % 8];
    if n >= 8 {
      OctalRoundTrip(n / 8);
      assert (Octal(n / 8) + [c])[..|Octal(n)| - 1] == Octal(n / 8);
      assert ("0" + Octal(n))[..|Octal(n)|] == "0" + Octal(n / 8);
    } else {
      assert [c][..0] == "" && ("0" + [c])[..1] == "0" && "0"[..0] == "";
    }
  }

  /** Text is a number exactly if it holds nothing but octal digits. */
  lemma {:induction false} OctalExactly(t: string)
    ensures OctalValue(t).Some? <==> forall i | 0 <= i < |t| :: t[i] in "01234567"
  {
    if t != "" {
      OctalExactly(t[..|t| - 1]);
      DigitsAre(t[|t| - 1]);
      assert forall i | 0 <= i < |t| - 1 :: t[i] == t[..|t| - 1][i];
    }
  }

  lemma NotBlank(t: string)
    requires t != "" && !IsSpace(t[0]) && !IsSpace(t[|t| - 1])
    ensures TrimSpace(t) == t && !Blank(t)
  {
    assert TrimLeft(t) == t && TrimRight(t) == t;
  }

  lemma ThreeDigits(x: char, y: char, z: char, a: nat, b: nat, c: nat)
    requires '0' <= x <= '7' && '0' <= y <= '7' && '0' <= z <= '7'
    requires x as int == '0' as int + a && y as int == '0' as int + b && z as int == '0' as int + c
    ensures OctalValue([x, y, z]) == OctalValue(['0', x, y, z]) == Some(64 * a + 8 * b + c)
  {
    assert [x, y, z][..2] == [x, y] && [x, y][..1] == [x] && [x][..0] == "";
    assert ['0', x, y, z][..3] == ['0', x, y] && ['0', x, y][..2] == ['0', x] && ['0', x][..1] == ['0'] && ['0'][..0] == "";
    assert OctalValue([x]) == Some(a) && OctalValue(['0']) == Some(0);
    assert OctalValue([x, y]) == Some(8 * a + b) && OctalValue(['0', x]) == Some(a);
    assert OctalValue(['0', x, y]) == Some(8 * a + b);
  }

  /** Three octal digits, with a zero in front or without, mean owner, group and all others, in that order;
      and a file is readable by any account exactly when the last of them holds a four. */
  lemma ModeInDigits(a: nat, b: nat, c: nat, fallback: nat)
    requires a < 8 && b < 8 && c < 8 && a + b + c > 0
    ensures var z := "01234567";
            ParseMode([z[a], z[b], z[c]], fallback) == ParseMode(['0', z[a], z[b], z[c]], fallback) == Some(64 * a + 8 * b + c)
    ensures WorldReadable(64 * a + 8 * b + c) <==> c >= 4
  {
    DigitsAre('0');
    var z := "01234567";
    hide OctalValue, TrimSpace;
    NotBlank([z[a], z[b], z[c]]);
    NotBlank(['0', z[a], z[b], z[c]]);
    ThreeDigits(z[a], z[b], z[c], a, b, c);
  }

  /** Where nothing is written, a certificate is as if "644" had been, and a key as if "600", or "640"
      where a group is named. */
  lemma DefaultModes(d: Destination)
    ensures Blank(d.certMode) ==> Some(Modes(d).0) == ParseMode("644", 0)
    ensures Blank(d.keyMode) ==> Some(Modes(d).1) == ParseMode(if Blank(d.group) then "600" else "640", 0)
  {
    hide OctalValue;
    TrimSpaceBlank(d.certMode);
    TrimSpaceBlank(d.keyMode);
    ModeInDigits(6, 4, 4, 0);
    ModeInDigits(6, 0, 0, 0);
    ModeInDigits(6, 4, 0, 0);
    assert ["01234567"[6], "01234567"[4], "01234567"[4]] == "644";
    assert ["01234567"[6], "01234567"[0], "01234567"[0]] == "600";
    assert ["01234567"[6], "01234567"[4], "01234567"[0]] == "640";
  }

  // ---------- The bytes of each file ----------

  /** PEM text as one part of a file: ending in a line end, unless there is none of it. */
  function Lines(pem: Bytes): Bytes { if pem != [] && pem[|pem| - 1] != 10 then pem + [10] else pem }

  /** A file of this path, these bytes and this mode. */
  function FileOf(path: string, bytes: Bytes, mode: nat): FileInstall.Target { FileInstall.Target(path, bytes, mode) }

  /**
   The files of a destination, byte for byte and in order. A keystore is one file. Otherwise certificate and
   key are two files, or one that holds certificate, chain and key in that order; then the chain, and then
   certificate and chain together, where they are asked for. Every file that holds the key has the key's mode
   and every other the certificate's. It fails exactly if the keystore cannot be encoded or a chain is asked
   for and missing.
   */
  lemma FilesByteForByte(d: Destination, m: Material, keystore: Option<Bytes>)
    ensures Render(d, m, keystore).None? <==>
              if d.Keystore() then keystore.None? else d.chainPath != "" && m.chain == []
    ensures Render(d, m, keystore).Some? ==>
              var (certMode, keyMode) := Modes(d);
              Targets(Render(d, m, keystore).value, m, keystore.GetOr([])) ==
                if d.Keystore() then [FileOf(d.certPath, keystore.value, keyMode)]
                else
                  (if d.certPath == d.keyPath then [FileOf(d.certPath, Lines(m.cert) + Lines(m.chain) + Lines(m.key), keyMode)]
                   else [FileOf(d.certPath, m.cert, certMode), FileOf(d.keyPath, m.key, keyMode)])
                  + (if d.chainPath != "" then [FileOf(d.chainPath, m.chain, certMode)] else [])
                  + (if d.fullChainPath != "" then [FileOf(d.fullChainPath, Lines(m.cert) + Lines(m.chain), certMode)] else [])
  {
    hide Destination.Keystore, Modes;
    JoinIs(m);
  }

  lemma JoinIs(m: Material)
    ensures Join([Cert, Chain, Key], m) == Lines(m.cert) + Lines(m.chain) + Lines(m.key)
    ensures Join([Cert, Chain], m) == Lines(m.cert) + Lines(m.chain)
  {
    assert [Cert, Chain, Key][1..] == [Chain, Key] && [Chain, Key][1..] == [Key] && [Key][1..] == [];
    assert [Cert, Chain][1..] == [Chain] && [Chain][1..] == [];
    assert Join([], m) == [];
    assert Join([Key], m) == Lines(m.key) && Join([Chain], m) == Lines(m.chain);
    assert Join([Chain, Key], m) == Lines(m.chain) + Lines(m.key);
  }

  // ---------- What is accepted ----------

  /** The text is a mode in octal, other than none and within twelve bits. */
  predicate IsMode(text: string) {
    OctalValue(TrimSpace(text)).Some? && 0 < OctalValue(TrimSpace(text)).value <= 0xFFF
  }

  /** The last octal digit of a mode that is written lets no account read. */
  predicate KeepsOthersOut(text: string) {
    OctalValue(TrimSpace(text)).Some? ==> OctalValue(TrimSpace(text)).value % 8 < 4
  }

  lemma LastDigitReads(mode: nat)
    ensures WorldReadable(mode) <==> mode % 8 >= 4
  {
    var q, r := mode / 8, mode % 8;
    Arithmetic.ModUnique(mode, q * 2 + r / 4, r % 4, 4);
    Arithmetic.ModUnique(q * 2 + r / 4, q, r / 4, 2);
  }

  lemma ModeIs(text: string, fallback: nat)
    ensures ParseMode(text, fallback).Some? <==> Blank(text) || IsMode(text)
    ensures ParseMode(text, fallback).Some? ==>
              (WorldReadable(ParseMode(text, fallback).value) <==> if Blank(text) then fallback % 8 >= 4 else !KeepsOthersOut(text))
  {
    hide OctalValue, TrimSpace, WorldReadable;
    TrimSpaceBlank(text);
    if ParseMode(text, fallback).Some? { LastDigitReads(ParseMode(text, fallback).value); }
  }

  /** A command, if there is one, is named by an absolute path. */
  predicate Runnable(argv: Option<seq<string>>, p: Platform) {
    argv.Some? && argv.value != [] ==> argv.value[0] != "" && !Blank(argv.value[0]) && p.isAbs(argv.value[0])
  }

  /** A keystore has one path, no mode for a certificate, and exactly one source of its password. */
  predicate OneKeystore(d: Destination) {
    && d.certPath != "" && d.keyPath == "" && d.chainPath == "" && d.fullChainPath == "" && d.certMode == ""
    && (d.keystorePassword != "" || d.keystorePasswordFile != "") && (d.keystorePassword == "" || d.keystorePasswordFile == "")
  }

  /**
   Which file destinations are accepted: those for a named certificate that declare nothing of a store; are
   PEM with both paths and no alias, or PKCS12 with what a keystore takes; have absolute paths throughout;
   name owner and group only where there are such; have modes that are octal, the key's never readable by
   every account, nor the certificate's if it is written down for a file that holds the key; and run only
   commands named by absolute paths.
   */
  lemma FilesAcceptedExactly(d: Destination, p: Platform)
    requires Blank(d.store)
    ensures Valid(d, p) <==>
              && d.certificate != "" && d.bind.GetOr([]) == [] && Blank(d.verify)
              && (if d.format == "" || Upper(TrimSpace(d.format)) == "PEM"
                  then d.certPath != "" && d.keyPath != "" && Blank(d.keystoreAlias)
                  else Upper(TrimSpace(d.format)) == "PKCS12" && OneKeystore(d))
              && (forall path | path in {d.certPath, d.keyPath, d.chainPath, d.fullChainPath} :: path == "" || p.isAbs(path))
              && ((Blank(d.owner) && Blank(d.group)) || p.ownership)
              && (Blank(d.certMode) || IsMode(d.certMode)) && (Blank(d.keyMode) || (IsMode(d.keyMode) && KeepsOthersOut(d.keyMode)))
              && (d.certPath == d.keyPath && !Blank(d.certMode) ==> KeepsOthersOut(d.certMode))
              && Runnable(d.check, p) && Runnable(d.reload, p)
  {
    hide IsMode, KeepsOthersOut, ParseMode, WorldReadable, Blank, TrimSpace, Upper;
    ModeIs(d.certMode, 0x1A4);
    ModeIs(d.keyMode, d.DefaultKeyMode());
    NoCommandIsBlank();
    FormatIs(d);
  }

  lemma NoCommandIsBlank()
    ensures Blank("")
  {
  }

  lemma FormatIs(d: Destination)
    ensures d.Keystore() <==> !(d.format == "" || Upper(TrimSpace(d.format)) == "PEM")
    ensures d.Format() == "PKCS12" <==> d.format != "" && Upper(TrimSpace(d.format)) == "PKCS12"
  {
    assert "PEM" != "PKCS12" by { assert |"PEM"| == 3 && |"PKCS12"| == 6; }
  }

  /** Nothing that names or describes a file is written down. */
  predicate NothingOfFiles(d: Destination) {
    forall text | text in {d.certPath, d.keyPath, d.chainPath, d.fullChainPath, d.format, d.owner, d.group, d.certMode, d.keyMode,
                           d.keystorePassword, d.keystorePasswordFile, d.keystoreAlias} :: Blank(text)
  }

  /** A bind command is named by an absolute path, names the thumbprint somewhere, and holds no other
      placeholder once that is taken out. */
  predicate Binds(argv: seq<string>, p: Platform) {
    && argv != [] && !Blank(argv[0]) && p.isAbs(argv[0])
    && (exists arg :: arg in argv && Contains(arg, "{{ .Thumbprint }}"))
    && (forall arg | arg in argv :: !Contains(ReplaceAll(arg, "{{ .Thumbprint }}", ""), "{{"))
  }

  /**
   Which store destinations are accepted: those for a named certificate, on a platform that has stores and
   knows this one, that declare nothing of files and no check; whose bind command, if there is one, names
   the thumbprint; and whose endpoint, if there is one, is a host and a port.
   */
  lemma StoresAcceptedExactly(d: Destination, p: Platform)
    requires !Blank(d.store)
    ensures Valid(d, p) <==>
              && d.certificate != "" && p.stores && p.storeName(d.store) && NothingOfFiles(d) && d.check.GetOr([]) == []
              && (d.bind.GetOr([]) != [] ==> Binds(d.bind.value, p))
              && (Blank(d.verify) || p.endpoint(TrimSpace(d.verify)))
  {
    hide Blank, Contains, ReplaceAll, TrimSpace;
    var argv := ListOf(d.bind);
    assert forall i | 0 <= i < |argv| :: argv[i] in argv;
    if argv != [] && Binds(argv, p) {
      var arg :| arg in argv && Contains(arg, "{{ .Thumbprint }}");
      var i :| 0 <= i < |argv| && argv[i] == arg;
      assert Contains(argv[i], THUMBPRINT);
    }
  }

  // ---------- What a profile puts where nothing was written ----------

  /** The first profile of the catalogue with this name, trimmed and in lower case. */
  predicate IsProfile(catalogue: seq<Profile>, name: string, k: int) {
    0 <= k < |catalogue| && catalogue[k].name == Lower(TrimSpace(name)) && forall j | 0 <= j < k :: catalogue[j].name != Lower(TrimSpace(name))
  }

  lemma {:induction false} LookupExactly(catalogue: seq<Profile>, name: string)
    ensures match Lookup(catalogue, name)
            case Some(p) => exists k :: IsProfile(catalogue, name, k) && catalogue[k] == p
            case None => forall k | 0 <= k < |catalogue| :: catalogue[k].name != Lower(TrimSpace(name))
  {
    hide Lower, TrimSpace;
    if catalogue == [] {
    } else if catalogue[0].name == Lower(TrimSpace(name)) {
      assert IsProfile(catalogue, name, 0);
    } else {
      var rest := catalogue[1..];
      LookupExactly(rest, name);
      assert forall k | 0 < k < |catalogue| :: catalogue[k] == rest[k - 1];
      if Lookup(rest, name).Some? {
        var k :| IsProfile(rest, name, k) && rest[k] == Lookup(rest, name).value;
        assert IsProfile(catalogue, name, k + 1) && catalogue[k + 1] == rest[k];
      }
    }
  }

  /** One path or endpoint: the text written, or the default where none is, with the certificate's name in
      place of the placeholder. */
  predicate PathFrom(out: string, own: string, default: string, certificate: string) {
    out == ReplaceAll(if Blank(own) then default else own, "{{ .Certificate }}", certificate)
  }

  /** One other text. */
  predicate TextFrom(out: string, own: string, default: string) { if Blank(own) then out == default else out == own }

  /** One command: a list written down, be it empty, or the default if that is not. */
  predicate ListFrom(out: Option<seq<string>>, own: Option<seq<string>>, default: seq<string>) {
    if own.Some? then out == own
    else if default == [] then out.None?
    else out == Some(default)
  }

  /** Field by field, what was written or the profile's default of the same field. */
  predicate FilledFrom(out: Destination, d: Destination, p: Profile) {
    && PathFrom(out.certPath, d.certPath, p.certPath, d.certificate) && PathFrom(out.keyPath, d.keyPath, p.keyPath, d.certificate)
    && PathFrom(out.chainPath, d.chainPath, p.chainPath, d.certificate)
    && PathFrom(out.fullChainPath, d.fullChainPath, p.fullChainPath, d.certificate)
    && PathFrom(out.verify, d.verify, p.verify, d.certificate)
    && TextFrom(out.format, d.format, p.format) && TextFrom(out.store, d.store, p.store)
    && TextFrom(out.certMode, d.certMode, p.certMode) && TextFrom(out.keyMode, d.keyMode, p.keyMode)
    && TextFrom(out.owner, d.owner, p.owner) && TextFrom(out.group, d.group, p.group)
    && ListFrom(out.bind, d.bind, p.bind) && ListFrom(out.check, d.check, p.check) && ListFrom(out.reload, d.reload, p.reload)
  }

  /** The same destination but for the name in place of the placeholder. */
  predicate OnlyExpanded(out: Destination, d: Destination) {
    && out == d.(certPath := out.certPath, keyPath := out.keyPath, chainPath := out.chainPath, fullChainPath := out.fullChainPath, verify := out.verify)
    && (forall pair | pair in {(out.certPath, d.certPath), (out.keyPath, d.keyPath), (out.chainPath, d.chainPath),
                               (out.fullChainPath, d.fullChainPath), (out.verify, d.verify)} ::
          pair.0 == ReplaceAll(pair.1, "{{ .Certificate }}", d.certificate))
  }

  /**
   What a profile gives. It is the first in the catalogue of the name written, and of this platform; every
   field that was left blank, and every list that was not written down, takes its default of the same field,
   and every other keeps what was written. Without a profile nothing is filled in.
   */
  lemma BlanksAreFilled(d: Destination, catalogue: seq<Profile>, windows: bool)
    requires Applied(d, catalogue, windows).Some?
    ensures var out := Applied(d, catalogue, windows).value;
            if Blank(d.profile) then OnlyExpanded(out, d)
            else exists k :: IsProfile(catalogue, d.profile, k) && catalogue[k].windows == windows && FilledFrom(out, d, catalogue[k])
  {
    hide Blank, ReplaceAll, Plain, Lookup, Lower, TrimSpace;
    if !Blank(d.profile) {
      LookupExactly(catalogue, d.profile);
      var k :| 0 <= k < |catalogue| && IsProfile(catalogue, d.profile, k) && catalogue[k] == Lookup(catalogue, d.profile).value;
      assert FilledFrom(Applied(d, catalogue, windows).value, d, catalogue[k]);
    }
  }

  function Either(own: string, default: string): string { if Blank(own) then default else own }

  /** With the certificate's name substituted, some text still opens a placeholder. */
  predicate Leaves(texts: seq<string>, certificate: string) {
    exists i :: 0 <= i < |texts| && Contains(ReplaceAll(texts[i], "{{ .Certificate }}", certificate), "{{")
  }

  /** The paths and the endpoint of a destination filled from a profile. */
  function TextsOf(d: Destination, p: Profile): seq<string> {
    [Either(d.certPath, p.certPath), Either(d.keyPath, p.keyPath), Either(d.chainPath, p.chainPath),
     Either(d.fullChainPath, p.fullChainPath), Either(d.verify, p.verify)]
  }

  /** A refusal has one of three causes: no profile of that name, one of another platform, or a path or an
      endpoint that would still hold a placeholder. */
  lemma RefusedExactly(d: Destination, catalogue: seq<Profile>, windows: bool)
    ensures Applied(d, catalogue, windows).None? <==>
              if Blank(d.profile) then Leaves([d.certPath, d.keyPath, d.chainPath, d.fullChainPath, d.verify], d.certificate)
              else
                || (forall k | 0 <= k < |catalogue| :: catalogue[k].name != Lower(TrimSpace(d.profile)))
                || (exists k :: IsProfile(catalogue, d.profile, k)
                                && (catalogue[k].windows != windows || Leaves(TextsOf(d, catalogue[k]), d.certificate)))
  {
    hide Blank, ReplaceAll, Contains, Lookup, Lower, TrimSpace, Leaves, AllPlain, Expanded;
    PlainExactly(d);
    if !Blank(d.profile) {
      LookupExactly(catalogue, d.profile);
      if Lookup(catalogue, d.profile).Some? {
        var p := Lookup(catalogue, d.profile).value;
        var k :| 0 <= k < |catalogue| && IsProfile(catalogue, d.profile, k) && catalogue[k] == p;
        forall j | IsProfile(catalogue, d.profile, j) ensures j == k { OneProfile(catalogue, d.profile, j, k); }
        IsProfileNamed(catalogue, d.profile, k);
        PlainExactly(Filled(d, p));
      }
    }
  }

  lemma IsProfileNamed(catalogue: seq<Profile>, name: string, k: int)
    requires IsProfile(catalogue, name, k)
    ensures 0 <= k < |catalogue| && catalogue[k].name == Lower(TrimSpace(name))
  {
  }

  lemma OneProfile(catalogue: seq<Profile>, name: string, j: int, k: int)
    requires IsProfile(catalogue, name, j) && IsProfile(catalogue, name, k)
    ensures j == k
  {
    assert !(j < k) && !(k < j);
  }

  lemma PlainExactly(d: Destination)
    ensures AllPlain(Expanded(d)) <==> !Leaves([d.certPath, d.keyPath, d.chainPath, d.fullChainPath, d.verify], d.certificate)
  {
    hide ReplaceAll, Contains;
    var texts := [d.certPath, d.keyPath, d.chainPath, d.fullChainPath, d.verify];
    assert texts[0] == d.certPath && texts[1] == d.keyPath && texts[2] == d.chainPath && texts[3] == d.fullChainPath && texts[4] == d.verify;
  }

  // ---------- A destination as it is read ----------

  /**
   Reading one destination: its name is trimmed and its certificate's name cleaned, then its profile is
   applied, and then it is validated. It is refused exactly if it has no name left, or the profile or the
   validation refuses it; and nothing else is done to it.
   */
  lemma ReadExactly(d: Destination, catalogue: seq<Profile>, p: Platform)
    ensures var read := Destination(TrimSpace(d.name), CleanName(d.certificate), d.profile, d.certPath, d.keyPath, d.chainPath,
                                    d.fullChainPath, d.format, d.keystorePassword, d.keystorePasswordFile, d.keystoreAlias,
                                    d.store, d.bind, d.verify, d.owner, d.group, d.certMode, d.keyMode, d.check, d.reload);
            var applied := Applied(read, catalogue, p.windows);
            && (Accepted(d, catalogue, p).None? <==> Blank(d.name) || applied.None? || !Valid(applied.value, p))
            && (Accepted(d, catalogue, p).Some? ==> Accepted(d, catalogue, p) == applied)
            && Cleaned(d).name == TrimSpace(d.name)
  {
    hide Applied, Valid, TrimSpace, CleanName, Blank;
    TrimSpaceBlank(d.name);
  }
}
