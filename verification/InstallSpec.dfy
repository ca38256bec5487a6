/**
 Reading the destinations of a host: modes, validation, the rendered files and their paths
 (install.go, keystore.go), and the guarantee that a key is never written world-readable.
 */
module InstallSpec {
  import opened Prelude
  import opened Text
  import Arithmetic
  import FileInstall

  /** A destination as declared. A list that was not written down is None; an explicitly empty one
      is not. */
  datatype Destination = Destination(
    name: string, certificate: string, profile: string,
    certPath: string, keyPath: string, chainPath: string, fullChainPath: string,
    format: string, keystorePassword: string, keystorePasswordFile: string, keystoreAlias: string,
    store: string, bind: Option<seq<string>>, verify: string,
    owner: string, group: string, certMode: string, keyMode: string,
    check: Option<seq<string>>, reload: Option<seq<string>>)
  {
    predicate ToStore() { !Blank(store) }

    function Format(): string { if format == "" then "PEM" else Upper(TrimSpace(format)) }

    predicate Keystore() { Format() != "PEM" }

    predicate Combined() { certPath == keyPath }

    function DefaultKeyMode(): nat { if Blank(group) then 0x180 else 0x1A0 }
  }

  /** What the platform decides. */
  datatype Platform = Platform(
    isAbs: string -> bool, storeName: string -> bool, endpoint: string -> bool,
    stores: bool, ownership: bool, windows: bool)

  function ListOf(list: Option<seq<string>>): seq<string> { if list.Some? then list.value else [] }

  // ---------- Modes ----------

  function OctalValue(digits: string): Option<nat> {
    if digits == "" then Some(0)
    else
      var c := digits[|digits| - 1];
      match OctalValue(digits[..|digits| - 1])
      case None => None
      case Some(n) => if '0' <= c <= '7' then Some(n * 8 + (c as int - '0' as int)) else None
  }

  /** A mode in octal between 1 and 0o7777, or the fallback when none is written. */
  function ParseMode(text: string, fallback: nat): Option<nat> {
    var t := TrimSpace(text);
    if t == "" then Some(fallback)
    else match OctalValue(t)
      case None => None
      case Some(n) => if n == 0 || n > 0xFFF then None else Some(n)
  }

  /** The bit that lets any account read the file. */
  predicate WorldReadable(mode: nat) { mode / 4 % 2 == 1 }

  /** The modes of a destination, a mode that does not parse counting as zero. */
  function Modes(d: Destination): (nat, nat) {
    (ParseMode(d.certMode, 0x1A4).GetOr(0), ParseMode(d.keyMode, d.DefaultKeyMode()).GetOr(0))
  }

  // ---------- Validation ----------

  predicate KeystoreValid(d: Destination) {
    && d.Format() == "PKCS12"
    && d.certPath != "" && d.keyPath == "" && d.chainPath == "" && d.fullChainPath == "" && d.certMode == ""
    && (d.keystorePassword == "") != (d.keystorePasswordFile == "")
  }

  predicate CommandValid(argv: seq<string>, p: Platform) {
    argv != [] ==> !Blank(argv[0]) && p.isAbs(argv[0])
  }

  const THUMBPRINT := "{{ .Thumbprint }}"

  /** The bind command names the thumbprint, and no other placeholder. */
  predicate BindValid(argv: seq<string>, p: Platform) {
    argv != [] ==>
      && !Blank(argv[0]) && p.isAbs(argv[0])
      && (exists i :: 0 <= i < |argv| && Contains(argv[i], THUMBPRINT))
      && (forall i | 0 <= i < |argv| :: !Contains(ReplaceAll(argv[i], THUMBPRINT, ""), "{{"))
  }

  predicate StoreValid(d: Destination, p: Platform) {
    && p.stores && p.storeName(d.store)
    && Blank(d.certPath) && Blank(d.keyPath) && Blank(d.chainPath) && Blank(d.fullChainPath)
    && Blank(d.format) && Blank(d.owner) && Blank(d.group) && Blank(d.certMode) && Blank(d.keyMode)
    && Blank(d.keystorePassword) && Blank(d.keystorePasswordFile) && Blank(d.keystoreAlias)
    && ListOf(d.check) == [] && BindValid(ListOf(d.bind), p)
    && (!Blank(d.verify) ==> p.endpoint(TrimSpace(d.verify)))
  }

  predicate PathValid(path: string, p: Platform) { path != "" ==> p.isAbs(path) }

  predicate ModesValid(d: Destination, certMode: Option<nat>, keyMode: Option<nat>) {
    && certMode.Some? && keyMode.Some? && !WorldReadable(keyMode.value)
    && (d.Combined() && !Blank(d.certMode) ==> !WorldReadable(certMode.value))
  }

  predicate FileValid(d: Destination, p: Platform) {
    && ListOf(d.bind) == [] && Blank(d.verify)
    && (if d.Keystore() then KeystoreValid(d)
        else d.certPath != "" && d.keyPath != "" && Blank(d.keystoreAlias))
    && PathValid(d.certPath, p) && PathValid(d.keyPath, p) && PathValid(d.chainPath, p) && PathValid(d.fullChainPath, p)
    && (p.ownership || (Blank(d.owner) && Blank(d.group)))
    && ModesValid(d, ParseMode(d.certMode, 0x1A4), ParseMode(d.keyMode, d.DefaultKeyMode()))
    && CommandValid(ListOf(d.check), p) && CommandValid(ListOf(d.reload), p)
  }

  predicate Valid(d: Destination, p: Platform) {
    d.certificate != "" && if d.ToStore() then StoreValid(d, p) else FileValid(d, p)
  }

  // ---------- Rendering ----------

  datatype Material = Material(cert: Bytes, key: Bytes, chain: Bytes)

  datatype Part = Cert | Key | Chain

  /** What a rendered file is made of: one part as it is, parts joined with line ends, or the
      encoded keystore, which holds the key. */
  datatype Content = Verbatim(part: Part) | Joined(parts: seq<Part>) | Encoded
  {
    predicate HoldsKey() {
      match this
      case Verbatim(part) => part == Key
      case Joined(parts) => Key in parts
      case Encoded => true
    }
  }

  datatype Rendered = Rendered(path: string, content: Content, mode: nat)

  function BytesOf(part: Part, m: Material): Bytes {
    match part case Cert => m.cert case Key => m.key case Chain => m.chain
  }

  /** The parts that are not empty, each ending in a line end. */
  function Join(parts: seq<Part>, m: Material): Bytes {
    if parts == [] then []
    else
      var p := BytesOf(parts[0], m);
      (if p == [] then [] else if p[|p| - 1] == 10 then p else p + [10]) + Join(parts[1..], m)
  }

  function ContentBytes(c: Content, m: Material, keystore: Bytes): Bytes {
    match c
    case Verbatim(part) => BytesOf(part, m)
    case Joined(parts) => Join(parts, m)
    case Encoded => keystore
  }

  /** The files of a destination; `keystore` is the encoded keystore if it could be encoded. A chain
      that is asked for and missing is an error. */
  function Render(d: Destination, m: Material, keystore: Option<Bytes>): Option<seq<Rendered>> {
    var (certMode, keyMode) := Modes(d);
    if d.Keystore() then
      if keystore.None? then None else Some([Rendered(d.certPath, Encoded, keyMode)])
    else if d.chainPath != "" && m.chain == [] then None
    else
      Some((if d.Combined() then [Rendered(d.certPath, Joined([Cert, Chain, Key]), keyMode)]
            else [Rendered(d.certPath, Verbatim(Cert), certMode), Rendered(d.keyPath, Verbatim(Key), keyMode)])
           + (if d.chainPath != "" then [Rendered(d.chainPath, Verbatim(Chain), certMode)] else [])
           + (if d.fullChainPath != "" then [Rendered(d.fullChainPath, Joined([Cert, Chain]), certMode)] else []))
  }

  /** The paths a destination reports, in the order it writes them. */
  function Paths(d: Destination): seq<string> {
    if d.ToStore() then [d.store]
    else if d.Keystore() then [d.certPath]
    else
      [d.certPath]
      + (if d.Combined() then [] else [d.keyPath])
      + (if d.chainPath != "" then [d.chainPath] else [])
      + (if d.fullChainPath != "" then [d.fullChainPath] else [])
  }

  function PathsOf(files: seq<Rendered>): (paths: seq<string>)
    ensures |paths| == |files| && forall i | 0 <= i < |files| :: paths[i] == files[i].path
  {
    seq(|files|, i requires 0 <= i < |files| => files[i].path)
  }

  /** The files as the installer writes them. */
  function Targets(files: seq<Rendered>, m: Material, keystore: Bytes): (ts: seq<FileInstall.Target>)
    ensures |ts| == |files|
    ensures forall i | 0 <= i < |files| ::
              ts[i] == FileInstall.Target(files[i].path, ContentBytes(files[i].content, m, keystore), files[i].mode)
  {
    seq(|files|, i requires 0 <= i < |files| =>
      FileInstall.Target(files[i].path, ContentBytes(files[i].content, m, keystore), files[i].mode))
  }

  // ---------- Guarantees ----------

  /** The bit survives the cut to permission bits. */
  lemma PermKeepsBit(mode: nat)
    ensures WorldReadable(mode % 512) <==> WorldReadable(mode)
  {
    var q, r := mode / 512, mode % 512;
    Arithmetic.ModUnique(mode, q * 128 + r / 4, r % 4, 4);
    Arithmetic.ModUnique(q * 128 + r / 4, q * 64 + r / 8, r / 4 % 2, 2);
  }

  /** An accepted file destination has two modes that parse. */
  lemma ModesAlwaysParse(d: Destination, p: Platform)
    requires Valid(d, p) && !d.ToStore()
    ensures ParseMode(d.certMode, 0x1A4) == Some(Modes(d).0)
    ensures ParseMode(d.keyMode, d.DefaultKeyMode()) == Some(Modes(d).1)
    ensures 0 < Modes(d).0 <= 0xFFF && 0 < Modes(d).1 <= 0xFFF
  {
  }

  /**
   No accepted destination writes its key where any account can read it: every rendered file that
   holds the key, in whatever layout, has permissions without the world-readable bit.
   */
  lemma KeyIsNeverWorldReadable(d: Destination, p: Platform, m: Material, keystore: Option<Bytes>, i: nat)
    requires Valid(d, p) && !d.ToStore() && Render(d, m, keystore).Some?
    requires i < |Render(d, m, keystore).value| && Render(d, m, keystore).value[i].content.HoldsKey()
    ensures !WorldReadable(Targets(Render(d, m, keystore).value, m, keystore.GetOr([]))[i].Perms())
  {
    var r := Render(d, m, keystore).value[i];
    assert r.mode == Modes(d).1;
    PermKeepsBit(r.mode);
  }

  /** The reported paths are the rendered paths, whenever there is something rendered; and where the
      certificate goes into a store, that store. */
  lemma PathsAreRendered(d: Destination, m: Material, keystore: Option<Bytes>)
    ensures !Blank(d.store) ==> Paths(d) == [d.store]
    ensures Blank(d.store) && Render(d, m, keystore).Some? ==> Paths(d) == PathsOf(Render(d, m, keystore).value)
  {
  }

  predicate OnlyHolder(files: seq<Rendered>, k: nat) {
    k < |files| && forall i | 0 <= i < |files| :: files[i].content.HoldsKey() <==> i == k
  }

  /** Every layout writes the key exactly once, at the key's path where there is one. */
  lemma KeyIsWrittenOnce(d: Destination, m: Material, keystore: Option<Bytes>)
    requires Render(d, m, keystore).Some?
    ensures var files, k := Render(d, m, keystore).value, if d.Keystore() || d.Combined() then 0 else 1;
            OnlyHolder(files, k) && files[k].path == if d.Keystore() then d.certPath else d.keyPath
  {
  }

  /** An accepted destination may still name one path twice, and then the key is written over: the
      full chain at the key's path leaves no key on disk. */
  lemma AcceptedPathsMayRepeat(p: Platform, m: Material)
    requires p.isAbs("/c") && p.isAbs("/k")
    ensures var d := Destination("n", "c", "", "/c", "/k", "", "/k", "", "", "", "", "", None, "", "", "", "", "", None, None);
            && Valid(d, p) && Render(d, m, None).Some?
            && var files := Render(d, m, None).value;
               |files| == 3 && files[1].path == files[2].path && files[1].content.HoldsKey() && !files[2].content.HoldsKey()
  {
    assert Blank("");
    TrimSpaceBlank("");
  }
}
