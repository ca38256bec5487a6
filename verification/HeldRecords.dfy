/**
 What a host keeps for one certificate, and what a crash in the middle of saving it leaves
 (request.go, installfs.go). A file is written by truncating it and writing it out, so a crash can
 leave any prefix of the new content.
 */
module HeldRecords {
  import opened Prelude
  import opened RenewTime

  const KEY := "key.pem"
  const CERT := "cert.pem"
  const CHAIN := "chain.pem"
  const META := "meta.json"

  /** The encoding of a record. */
  datatype Json = Json(encode: Held -> string, parse: string -> Option<Held>)
  {
    /** A whole record reads back, with or without its last line break, and a part of one is no
        record at all. */
    ghost predicate Valid() {
      && (forall h: Held :: parse(encode(h) + "\n") == Some(h) && parse(encode(h)) == Some(h))
      && (forall h: Held, n: nat | n < |encode(h)| :: parse(encode(h)[..n]) == None)
    }
  }

  /** What is to be saved. An empty chain means none. */
  datatype Issue = Issue(key: string, cert: string, chain: string, record: Held)

  datatype Material = Material(cert: string, key: string, chain: string)

  type Files = map<string, string>

  /** The files a save writes, in order. */
  function Writes(x: Issue, json: Json): seq<(string, string)> {
    [(KEY, x.key), (CERT, x.cert)]
    + (if x.chain != "" then [(CHAIN, x.chain)] else [])
    + [(META, json.encode(x.record) + "\n")]
  }

  /** How far a save gets: this many writes done and, unless the next was not begun, a part of the
      next. Enough writes done is a save that completes. */
  datatype Reach = Reach(done: nat, part: Option<nat>)

  /** What of a file's new content is there. */
  function PartOf(content: string, part: nat): string {
    if part < |content| then content[..part] else content
  }

  /** The directory after the writes that were reached. */
  function AfterWrites(files: Files, writes: seq<(string, string)>, reach: Reach): Files
    decreases |writes|
  {
    if writes == [] then files
    else
      var (name, content) := writes[0];
      if reach.done > 0 then AfterWrites(files[name := content], writes[1..], reach.(done := reach.done - 1))
      else if reach.part.Some? then files[name := PartOf(content, reach.part.value)]
      else files
  }

  /** The record a directory is listed with, if it is listed. */
  function ListedAs(files: Files, json: Json): Option<Held> {
    if META in files then json.parse(files[META]) else None
  }

  /** The certificate, key and chain, if the first two can be read; a missing chain is empty. */
  function ReadMaterial(files: Files): Option<Material> {
    if CERT in files && KEY in files
    then Some(Material(files[CERT], files[KEY], if CHAIN in files then files[CHAIN] else ""))
    else None
  }

  class Directory {
    var files: Files

    /** Truncate a file and write it out, all of it or a part. */
    method WriteFile(name: string, content: string, part: Option<nat>) returns (ok: bool)
      modifies this
      ensures ok == part.None?
      ensures files == old(files)[name := if ok then content else PartOf(content, part.value)]
    {
      files := files[name := if part.Some? then PartOf(content, part.value) else content];
      ok := part.None?;
    }

    /** Save the material and then its record. */
    method Save(x: Issue, json: Json, reach: Reach) returns (ok: bool)
      modifies this
      ensures files == AfterWrites(old(files), Writes(x, json), reach)
      ensures ok == (reach.done >= |Writes(x, json)|)
    {
      var writes := Writes(x, json);
      var k := 0;
      while k < |writes|
        invariant 0 <= k <= |writes| && k <= reach.done
        invariant AfterWrites(old(files), writes, reach)
                  == AfterWrites(files, writes[k..], reach.(done := reach.done - k))
      {
        var (name, content) := writes[k];
        assert writes[k..][0] == writes[k] && writes[k..][1..] == writes[k + 1..];
        if reach.done == k {
          if reach.part.Some? {
            var _ := WriteFile(name, content, reach.part);
          }
          return false;
        }
        var _ := WriteFile(name, content, None);
        k := k + 1;
      }
      ok := true;
    }
  }

  // ---------- Guarantees ----------

  predicate DistinctNames(writes: seq<(string, string)>) {
    forall i, j | 0 <= i < j < |writes| :: writes[i].0 != writes[j].0
  }

  /** File by file: new once its write is done, part of the new while it is under way, and what it
      was before that. */
  lemma {:induction false} FileAfter(files: Files, writes: seq<(string, string)>, reach: Reach, name: string, i: nat)
    requires DistinctNames(writes) && i < |writes| && writes[i].0 == name
    ensures var f := AfterWrites(files, writes, reach);
            if i < reach.done then name in f && f[name] == writes[i].1
            else if i == reach.done && reach.part.Some? then name in f && f[name] == PartOf(writes[i].1, reach.part.value)
            else (name in f <==> name in files) && (name in files ==> f[name] == files[name])
    decreases |writes|
  {
    if reach.done > 0 {
      var rest := writes[1..];
      if i == 0 {
        OtherFile(files[name := writes[0].1], rest, reach.(done := reach.done - 1), name);
      } else {
        FileAfter(files[writes[0].0 := writes[0].1], rest, reach.(done := reach.done - 1), name, i - 1);
      }
    }
  }

  lemma {:induction false} OtherFile(files: Files, writes: seq<(string, string)>, reach: Reach, name: string)
    requires forall i | 0 <= i < |writes| :: writes[i].0 != name
    ensures var f := AfterWrites(files, writes, reach);
            (name in f <==> name in files) && (name in files ==> f[name] == files[name])
    decreases |writes|
  {
    if writes != [] && reach.done > 0 {
      OtherFile(files[writes[0].0 := writes[0].1], writes[1..], reach.(done := reach.done - 1), name);
    }
  }

  /** One file after a save that was to write it i-th: as written if that write was done, a part of it
      if that write was under way, and otherwise as it was. */
  predicate Reached(files: Files, f: Files, reach: Reach, i: nat, name: string, content: string) {
    if i < reach.done then name in f && f[name] == content
    else if i == reach.done && reach.part.Some? then name in f && f[name] == PartOf(content, reach.part.value)
    else SameFile(files, f, name)
  }

  predicate SameFile(files: Files, f: Files, name: string) {
    (name in f <==> name in files) && (name in files ==> f[name] == files[name])
  }

  /** Key, certificate, chain and record, wherever a save stops; and nothing else. */
  lemma WhatIsThere(files: Files, x: Issue, json: Json, reach: Reach)
    ensures var f, n := AfterWrites(files, Writes(x, json), reach), |Writes(x, json)|;
            && n == (if x.chain != "" then 4 else 3)
            && Reached(files, f, reach, 0, KEY, x.key)
            && Reached(files, f, reach, 1, CERT, x.cert)
            && (if x.chain != "" then Reached(files, f, reach, 2, CHAIN, x.chain) else SameFile(files, f, CHAIN))
            && Reached(files, f, reach, n - 1, META, json.encode(x.record) + "\n")
            && forall name | name !in {KEY, CERT, CHAIN, META} :: SameFile(files, f, name)
  {
    var w := Writes(x, json);
    FileAfter(files, w, reach, KEY, 0);
    FileAfter(files, w, reach, CERT, 1);
    FileAfter(files, w, reach, META, |w| - 1);
    if x.chain != "" {
      FileAfter(files, w, reach, CHAIN, 2);
    } else {
      OtherFile(files, w, reach, CHAIN);
    }
    forall name | name !in {KEY, CERT, CHAIN, META} ensures SameFile(files, AfterWrites(files, w, reach), name) {
      OtherFile(files, w, reach, name);
    }
  }

  /** A part of an encoded record that still parses is the record. */
  lemma PartialRecord(x: Issue, json: Json, part: nat)
    requires json.Valid()
    ensures var p := json.parse(PartOf(json.encode(x.record) + "\n", part));
            p.Some? ==> p.value == x.record && part >= |json.encode(x.record)|
  {
    var body := json.encode(x.record);
    if part < |body| {
      assert (body + "\n")[..part] == body[..part];
    } else if part == |body| {
      assert (body + "\n")[..part] == body;
    }
  }

  /**
   On a fresh directory, wherever a save stops: the directory is listed only once everything the
   save was given is on disk, and then with the record that was saved, and reading the material
   gives exactly what was issued.
   */
  lemma FreshSaveIsAllOrUnlisted(x: Issue, json: Json, reach: Reach)
    requires json.Valid() && ListedAs(AfterWrites(map[], Writes(x, json), reach), json).Some?
    ensures var f := AfterWrites(map[], Writes(x, json), reach);
            ListedAs(f, json) == Some(x.record) && ReadMaterial(f) == Some(Material(x.cert, x.key, x.chain))
  {
    WhatIsThere(map[], x, json, reach);
    if reach.part.Some? { PartialRecord(x, json, reach.part.value); }
  }

  /** A save that completes is always listed. */
  lemma CompleteSaveIsListed(files: Files, x: Issue, json: Json, reach: Reach)
    requires json.Valid() && reach.done >= |Writes(x, json)|
    ensures ListedAs(AfterWrites(files, Writes(x, json), reach), json) == Some(x.record)
  {
    WhatIsThere(files, x, json, reach);
  }

  /**
   On a directory that is renewed. A completed save reads back as issued exactly when the answer
   carries a chain or the directory had none.
   */
  lemma CompleteRenewalReadsBack(files: Files, x: Issue, json: Json, reach: Reach)
    requires reach.done >= |Writes(x, json)|
    ensures var f := AfterWrites(files, Writes(x, json), reach);
            ReadMaterial(f) == Some(Material(x.cert, x.key, x.chain))
            <==> x.chain != "" || CHAIN !in files || files[CHAIN] == ""
  {
    WhatIsThere(files, x, json, reach);
  }

  /** A renewal that stops between the key and the certificate leaves the directory listed as it
      was, with the new key beside the old certificate. */
  lemma InterruptedRenewalMixes(old': Issue, x: Issue, json: Json)
    requires json.Valid()
    ensures var files := AfterWrites(map[], Writes(old', json), Reach(4, None));
            var f := AfterWrites(files, Writes(x, json), Reach(1, None));
            && ListedAs(f, json) == Some(old'.record)
            && ReadMaterial(f) == Some(Material(old'.cert, x.key, old'.chain))
  {
    var files := AfterWrites(map[], Writes(old', json), Reach(4, None));
    WhatIsThere(map[], old', json, Reach(4, None));
    WhatIsThere(files, x, json, Reach(1, None));
    FileAfter(files, Writes(x, json), Reach(1, None), CERT, 1);
    if x.chain != "" { FileAfter(files, Writes(x, json), Reach(1, None), CHAIN, 2); }
  }

  /** A renewal whose record is cut off is no longer listed, so it is not renewed again. */
  lemma TornRecordIsUnlisted(files: Files, x: Issue, json: Json, part: nat)
    requires json.Valid() && part < |json.encode(x.record)|
    ensures ListedAs(AfterWrites(files, Writes(x, json), Reach(|Writes(x, json)| - 1, Some(part))), json) == None
  {
    WhatIsThere(files, x, json, Reach(|Writes(x, json)| - 1, Some(part)));
    PartialRecord(x, json, part);
  }

  /** A directory is listed by its record alone: no other file matters, there or not. */
  lemma ListedByRecordAlone(files: Files, json: Json, name: string, content: string, h: Held)
    requires name != META
    ensures ListedAs(files[name := content], json) == ListedAs(files - {name}, json) == ListedAs(files, json)
    ensures ListedAs(files - {META}, json) == None
    ensures json.Valid() ==> ListedAs(files[META := json.encode(h) + "\n"], json) == Some(h)
  {
  }

  // ---------- That there is such an encoding ----------

  /** A number in tallies, and a string after its length: both say where they end. */
  function Tally(n: nat): string { if n == 0 then "." else "1" + Tally(n - 1) }

  function Sized(s: string): string { Tally(|s|) + s }

  function SizedAll(xs: seq<string>): string { if xs == [] then "" else Sized(xs[0]) + SizedAll(xs[1..]) }

  function Signed(n: int): string { [if n < 0 then '-' else '+'] + Tally(if n < 0 then -n else n) }

  function Plainly(h: Held): string {
    Sized(h.id) + (Tally(|h.names|) + (SizedAll(h.names) + (Signed(h.notAfter) + (Signed(h.renewAfter) + Signed(h.issuedAt)))))
  }

  lemma SameTail(c: char, d: char, r: string, s: string)
    requires [c] + r == [d] + s
    ensures c == d && r == s
  {
    assert ([c] + r)[0] == c && ([d] + s)[0] == d;
    assert ([c] + r)[1..] == r && ([d] + s)[1..] == s;
  }

  /** The first character of a tally, and the rest. */
  lemma TallyStarts(n: nat, r: string)
    ensures Tally(n) + r == if n == 0 then ['.'] + r else ['1'] + (Tally(n - 1) + r)
  {
  }

  lemma {:induction false} TallyEnds(m: nat, n: nat, r: string, s: string)
    requires Tally(m) + r == Tally(n) + s
    ensures m == n && r == s
  {
    hide Tally;
    TallyStarts(m, r);
    TallyStarts(n, s);
    SameTail(if m == 0 then '.' else '1', if n == 0 then '.' else '1',
             if m == 0 then r else Tally(m - 1) + r, if n == 0 then s else Tally(n - 1) + s);
    if m > 0 {
      TallyEnds(m - 1, n - 1, r, s);
    }
  }

  lemma SizedEnds(a: string, b: string, r: string, s: string)
    requires Sized(a) + r == Sized(b) + s
    ensures a == b && r == s
  {
    assert Sized(a) + r == Tally(|a|) + (a + r) && Sized(b) + s == Tally(|b|) + (b + s);
    TallyEnds(|a|, |b|, a + r, b + s);
    assert (a + r)[..|a|] == a && (b + s)[..|b|] == b && (a + r)[|a|..] == r && (b + s)[|b|..] == s;
  }

  lemma {:induction false} SizedAllEnds(xs: seq<string>, ys: seq<string>, r: string, s: string)
    requires |xs| == |ys| && SizedAll(xs) + r == SizedAll(ys) + s
    ensures xs == ys && r == s
  {
    if xs == [] {
      assert "" + r == r && "" + s == s;
    } else {
      var x, y := SizedAll(xs[1..]), SizedAll(ys[1..]);
      assert SizedAll(xs) + r == Sized(xs[0]) + (x + r) && SizedAll(ys) + s == Sized(ys[0]) + (y + s);
      SizedEnds(xs[0], ys[0], x + r, y + s);
      SizedAllEnds(xs[1..], ys[1..], r, s);
    }
  }

  lemma SignedStarts(n: int, x: nat, r: string)
    requires x == if n < 0 then -n else n
    ensures Signed(n) + r == [if n < 0 then '-' else '+'] + (Tally(x) + r)
  {
    hide Tally;
  }

  lemma SignedEnds(m: int, n: int, r: string, s: string)
    requires Signed(m) + r == Signed(n) + s
    ensures m == n && r == s
  {
    hide Tally;
    var x, y: nat := if m < 0 then -m else m, if n < 0 then -n else n;
    SignedStarts(m, x, r);
    SignedStarts(n, y, s);
    SameTail(if m < 0 then '-' else '+', if n < 0 then '-' else '+', Tally(x) + r, Tally(y) + s);
    TallyEnds(x, y, r, s);
  }

  /** A record written plainly says where it ends. */
  lemma PlainlyEnds(h: Held, g: Held, r: string, s: string)
    requires Plainly(h) + r == Plainly(g) + s
    ensures h == g && r == s
  {
    hide Sized, Tally, SizedAll, Signed;
    var h4, g4 := Signed(h.issuedAt) + r, Signed(g.issuedAt) + s;
    var h3, g3 := Signed(h.renewAfter) + h4, Signed(g.renewAfter) + g4;
    var h2, g2 := Signed(h.notAfter) + h3, Signed(g.notAfter) + g3;
    var h1, g1 := SizedAll(h.names) + h2, SizedAll(g.names) + g2;
    assert Plainly(h) + r == Sized(h.id) + (Tally(|h.names|) + h1);
    assert Plainly(g) + s == Sized(g.id) + (Tally(|g.names|) + g1);
    SizedEnds(h.id, g.id, Tally(|h.names|) + h1, Tally(|g.names|) + g1);
    TallyEnds(|h.names|, |g.names|, h1, g1);
    SizedAllEnds(h.names, g.names, h2, g2);
    SignedEnds(h.notAfter, g.notAfter, h3, g3);
    SignedEnds(h.renewAfter, g.renewAfter, h4, g4);
    SignedEnds(h.issuedAt, g.issuedAt, r, s);
  }

  ghost predicate Reads(s: string, h: Held) { s == Plainly(h) || s == Plainly(h) + "\n" }

  ghost function PlainJson(): Json {
    Json(Plainly, s => if exists h :: Reads(s, h) then var h :| Reads(s, h); Some(h) else None)
  }

  /** Records written plainly read back, and parts of them do not. */
  lemma PlainJsonIsValid()
    ensures PlainJson().Valid()
  {
    hide Plainly;
    forall h: Held, g: Held, s: string | Reads(s, h) && Reads(s, g) ensures h == g {
      PlainlyEnds(h, g, if s == Plainly(h) then "" else "\n", if s == Plainly(g) then "" else "\n");
    }
    forall h: Held ensures Reads(Plainly(h), h) && Reads(Plainly(h) + "\n", h) {}
    forall h: Held, n: nat, g: Held | n < |Plainly(h)| ensures !Reads(Plainly(h)[..n], g) {
      PartIsNoRecord(h, n, g);
    }
  }

  lemma PartIsNoRecord(h: Held, n: nat, g: Held)
    requires n < |Plainly(h)|
    ensures !Reads(Plainly(h)[..n], g)
  {
    hide Plainly;
    var end := if Plainly(h)[..n] == Plainly(g) then "" else "\n";
    if Reads(Plainly(h)[..n], g) {
      assert Plainly(g) + (end + Plainly(h)[n..]) == Plainly(h) + "";
      PlainlyEnds(g, h, end + Plainly(h)[n..], "");
    }
  }
}
