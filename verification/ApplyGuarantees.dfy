/**
 Applying destinations: the sorted report, and what one destination's work depends on and changes.
 */
module ApplyGuarantees {
  import opened Prelude
  import opened InstallSpec
  import opened Apply
  import F = FileInstall
  import S = StoreInstall
  import FileGuarantees
  import StoreReports

  // ---------- Sorted reports ----------

  lemma NameOrder(a: string, b: string, c: string)
    ensures !NameBefore(a, a)
    ensures NameBefore(a, b) && NameBefore(b, c) ==> NameBefore(a, c)
    ensures a != b ==> NameBefore(a, b) || NameBefore(b, a)
  {
    BeforeOrders(CodesOf(a), CodesOf(b), CodesOf(c));
    if CodesOf(a) == CodesOf(b) {
      assert forall i | 0 <= i < |a| :: a[i] as int == CodesOf(a)[i] == b[i] as int;
    }
  }

  lemma {:induction false} InsertSorted(x: Installation, xs: seq<Installation>)
    requires SortedByName(xs) && forall y | y in xs :: y.name != x.name
    ensures SortedByName(InsertByName(x, xs))
  {
    if xs != [] {
      var ys := InsertByName(x, xs);
      if NameBefore(xs[0].name, x.name) {
        forall i, j | 0 <= i < j < |xs[1..]| ensures NameBefore(xs[1..][i].name, xs[1..][j].name) {
          assert NameBefore(xs[i + 1].name, xs[j + 1].name);
        }
        InsertSorted(x, xs[1..]);
        var rest := InsertByName(x, xs[1..]);
        forall j | 0 <= j < |rest| ensures NameBefore(xs[0].name, rest[j].name) {
          assert rest[j] in multiset(rest);
          if rest[j] != x {
            assert rest[j] in xs[1..];
            var k :| 0 <= k < |xs[1..]| && xs[1..][k] == rest[j];
            assert NameBefore(xs[0].name, xs[k + 1].name);
          }
        }
      } else {
        NameOrder(x.name, xs[0].name, "");
        forall j | 0 <= j < |xs| ensures NameBefore(x.name, xs[j].name) {
          NameOrder(x.name, xs[0].name, xs[j].name);
        }
      }
    }
  }

  /** The report is sorted by name and holds one entry for each destination. */
  lemma {:induction false} ReportIsSorted(xs: seq<Installation>)
    requires DistinctNames(xs)
    ensures SortedByName(SortByName(xs)) && multiset(SortByName(xs)) == multiset(xs)
  {
    if xs != [] {
      ReportIsSorted(xs[1..]);
      var rest := SortByName(xs[1..]);
      forall y | y in rest ensures y.name != xs[0].name {
        assert y in multiset(rest);
        assert y in xs[1..];
      }
      InsertSorted(xs[0], rest);
    }
  }

  /** There is only one way to sort a report. */
  lemma {:induction false} SortedIsUnique(xs: seq<Installation>, ys: seq<Installation>)
    requires SortedByName(xs) && SortedByName(ys) && multiset(xs) == multiset(ys)
    ensures xs == ys
  {
    assert |multiset(xs)| == |xs| && |multiset(ys)| == |ys|;
    if xs != [] {
      SameFirst(xs, ys);
      assert xs == [xs[0]] + xs[1..] && ys == [ys[0]] + ys[1..];
      assert multiset(xs[1..]) == multiset(xs) - multiset{xs[0]} == multiset(ys[1..]);
      TailSorted(xs);
      TailSorted(ys);
      SortedIsUnique(xs[1..], ys[1..]);
    }
  }

  lemma TailSorted(xs: seq<Installation>)
    requires SortedByName(xs) && xs != []
    ensures SortedByName(xs[1..])
  {
    forall i, j | 0 <= i < j < |xs[1..]| ensures NameBefore(xs[1..][i].name, xs[1..][j].name) {
      assert NameBefore(xs[i + 1].name, xs[j + 1].name);
    }
  }

  lemma SameFirst(xs: seq<Installation>, ys: seq<Installation>)
    requires SortedByName(xs) && SortedByName(ys) && multiset(xs) == multiset(ys) && xs != [] && ys != []
    ensures xs[0] == ys[0]
  {
    assert xs[0] in multiset(ys) && ys[0] in multiset(xs);
    var i :| 0 <= i < |ys| && ys[i] == xs[0];
    var j :| 0 <= j < |xs| && xs[j] == ys[0];
    NameOrder(xs[0].name, ys[0].name, xs[0].name);
  }

  // ---------- What a task depends on and changes ----------

  /** Two hosts hold the same certificate, with the same name, or both hold none. */
  ghost predicate SameCert(h: S.Host, h': S.Host, c: S.CertId) {
    (c in h.certs <==> c in h'.certs) && (c in h.certs ==> h.certs[c] == h'.certs[c])
  }

  /** Every store call works certificate by certificate and endpoint by endpoint. */
  lemma {:induction false} ReplayLocal(h: S.Host, h': S.Host, calls: seq<S.Call>)
    ensures forall c | SameCert(h, h', c) :: SameCert(S.Replay(h, calls), S.Replay(h', calls), c)
    ensures forall e | S.SameEndpoint(h, h', e) :: S.SameEndpoint(S.Replay(h, calls), S.Replay(h', calls), e)
    decreases |calls|
  {
    if calls != [] {
      var g, g' := S.Step(h, calls[0]), S.Step(h', calls[0]);
      StepLocal(h, h', calls[0]);
      ReplayLocal(g, g', calls[1..]);
    }
  }

  lemma StepLocal(h: S.Host, h': S.Host, call: S.Call)
    ensures forall c | SameCert(h, h', c) :: SameCert(S.Step(h, call), S.Step(h', call), c)
    ensures forall e | S.SameEndpoint(h, h', e) :: S.SameEndpoint(S.Step(h, call), S.Step(h', call), e)
  {
  }

  predicate TouchesCert(call: S.Call, c: S.CertId) {
    (call.Import? || call.Remove? || call.SetName?) && call.c == c
  }

  lemma {:induction false} CertUntouched(h: S.Host, calls: seq<S.Call>, c: S.CertId)
    requires forall call | call in calls :: !TouchesCert(call, c)
    ensures SameCert(h, S.Replay(h, calls), c)
    decreases |calls|
  {
    if calls != [] {
      assert !TouchesCert(calls[0], c);
      CertUntouched(S.Step(h, calls[0]), calls[1..], c);
    }
  }

  /** Calls that touch only the certificate installed, the one it replaces, and the endpoint. */
  predicate Within(calls: seq<S.Call>, d: S.Destination, c: S.CertId, previous: Option<S.CertId>) {
    forall i | 0 <= i < |calls| ::
      match calls[i]
      case Import(x, _) => x == c
      case Remove(x, _) => x == c || previous == Some(x)
      case SetName(x, name, _) => x == c && name == d.FriendlyName()
      case RunBind(e, _, _) => d.bind == Some(e)
      case _ => true
  }

  lemma EndingWithin(d: S.Destination, c: S.CertId, previous: Option<S.CertId>, a: S.Answers)
    ensures Within(S.ReloadPlan(d, c, previous, a).calls, d, c, previous)
  {
    hide S.ReloadPlan;
    assert Within(StoreReports.Ending(d, c, previous, a).calls, d, c, previous);
    StoreReports.ReloadSplits(d, c, previous, a);
  }

  lemma PlanWithin(h: S.Host, d: S.Destination, c: S.CertId, force: bool, a: S.Answers)
    ensures Within(S.InstallPlan(h, d, c, force, a).calls, d, c, S.FirstNamed(h, d.store, d.FriendlyName(), a.scan))
  {
    hide S.ReloadPlan;
    EndingWithin(d, c, S.FirstNamed(h, d.store, d.FriendlyName(), a.scan), a);
  }

  /** What an install leaves alone. */
  lemma InstallKeeps(h: S.Host, d: S.Destination, c: S.CertId, force: bool, a: S.Answers)
    ensures var previous := S.FirstNamed(h, d.store, d.FriendlyName(), a.scan);
            var h' := S.Replay(h, S.InstallPlan(h, d, c, force, a).calls);
            && (forall x | x != c && previous != Some(x) :: SameCert(h, h', x))
            && (forall e | d.bind != Some(e) :: S.SameEndpoint(h, h', e))
  {
    hide S.InstallPlan;
    var calls := S.InstallPlan(h, d, c, force, a).calls;
    var previous := S.FirstNamed(h, d.store, d.FriendlyName(), a.scan);
    PlanWithin(h, d, c, force, a);
    forall x | x != c && previous != Some(x) ensures SameCert(h, S.Replay(h, calls), x) {
      CertUntouched(h, calls, x);
    }
    forall e | d.bind != Some(e) ensures S.SameEndpoint(h, S.Replay(h, calls), e) {
      S.EndpointUntouched(h, calls, e);
    }
  }

  lemma {:induction false} SamePrevious(h: S.Host, h': S.Host, d: S.Destination, scan: seq<string>)
    requires forall c :: d.Marks(h, c) <==> d.Marks(h', c)
    ensures S.FirstNamed(h, d.store, d.FriendlyName(), scan) == S.FirstNamed(h', d.store, d.FriendlyName(), scan)
  {
    if scan != [] {
      SamePrevious(h, h', d, scan[1..]);
      var c := S.CertId(d.store, scan[0]);
      assert d.Marks(h, c) <==> d.Marks(h', c);
    }
  }

  /** An install's plan depends on the host only through the certificates of its store that carry its name. */
  lemma PlanLocal(h: S.Host, h': S.Host, d: S.Destination, c: S.CertId, force: bool, a: S.Answers)
    requires forall x :: d.Marks(h, x) <==> d.Marks(h', x)
    ensures S.InstallPlan(h, d, c, force, a) == S.InstallPlan(h', d, c, force, a)
  {
    SamePrevious(h, h', d, a.scan);
  }

  // ---------- Files ----------

  lemma {:induction false} AfterLocal(x: F.Files, y: F.Files, ts: seq<F.Target>, p: string)
    requires F.Agree(x, y, p)
    ensures F.Agree(F.After(x, ts), F.After(y, ts), p)
  {
    if ts != [] {
      AfterLocal(x, y, ts[..|ts| - 1], p);
    }
  }

  lemma {:induction false} EnforcedLocal(x: F.Files, y: F.Files, ts: seq<F.Target>, p: string)
    requires F.Agree(x, y, p)
    ensures F.Agree(F.Enforced(x, ts), F.Enforced(y, ts), p)
  {
    if ts != [] {
      EnforcedLocal(x, y, ts[..|ts| - 1], p);
    }
  }

  lemma RestoredLocal(x: F.Files, y: F.Files, ts: seq<F.Target>, failing: set<nat>, p: string)
    requires F.Agree(x, y, p)
    ensures F.Agree(F.Restored(x, ts, failing), F.Restored(y, ts, failing), p)
  {
    AfterLocal(x, y, ts, p);
    FileGuarantees.RestoredAt(x, ts, failing, p);
    FileGuarantees.RestoredAt(y, ts, failing, p);
  }

  /** A file install reports the same, and leaves the same at a path, on two disks that agree on its
      own paths and on that path. */
  lemma FilesLocal(x: F.Files, y: F.Files, ts: seq<F.Target>, d: F.Destination, force: bool, a: F.Answers, p: string)
    requires forall i | 0 <= i < |ts| :: F.Agree(x, y, ts[i].path)
    requires F.Agree(x, y, p)
    ensures F.Install(x, ts, d, force, a).report == F.Install(y, ts, d, force, a).report
    ensures F.Agree(F.Install(x, ts, d, force, a).disk, F.Install(y, ts, d, force, a).disk, p)
  {
    hide F.After, F.Restored, F.Enforced;
    var k := F.FirstIn(a.unwritable.Keys, 0, |ts|);
    var f := F.FirstIn(a.unset + a.unowned, 0, |ts|);
    var e := if f < |ts| && f !in a.unset then f + 1 else f;
    assert ts[..|ts|] == ts;
    MatchesLocal(x, y, ts, a.unmatched);
    AfterLocal(x, y, ts, p);
    RestoredLocal(x, y, ts, a.unrestorable.Keys, p);
    RestoredLocal(x, y, ts[..k], a.unrestorable.Keys, p);
    EnforcedLocal(x, y, ts[..e], p);
  }

  lemma MatchesLocal(x: F.Files, y: F.Files, ts: seq<F.Target>, unmatched: set<nat>)
    requires forall i | 0 <= i < |ts| :: F.Agree(x, y, ts[i].path)
    ensures F.Matches(x, ts, unmatched) == F.Matches(y, ts, unmatched)
  {
    assert forall i | 0 <= i < |ts| :: F.Agree(x, y, ts[i].path);
  }

  // ---------- Keys on disk ----------

  /** Whatever an install does that says it is installed, be it writing or setting modes on what is
      there: the file it leaves at a key's path cannot be read by any account, unless a later file of
      the same destination has taken the path over. */
  lemma KeyOnDiskIsPrivate(d: InstallSpec.Destination, p: Platform, m: Material, keystore: Option<Bytes>, entry: F.Files,
                           commands: F.Destination, force: bool, a: F.Answers, i: nat)
    requires Valid(d, p) && !d.ToStore() && Render(d, m, keystore).Some?
    requires i < |Render(d, m, keystore).value| && Render(d, m, keystore).value[i].content.HoldsKey()
    requires var files := Render(d, m, keystore).value; forall k | i < k < |files| :: files[k].path != files[i].path
    requires F.Install(entry, Targets(Render(d, m, keystore).value, m, keystore.GetOr([])), commands, force, a).report.status == Installed
    ensures var files := Render(d, m, keystore).value;
            var disk := F.Install(entry, Targets(files, m, keystore.GetOr([])), commands, force, a).disk;
            files[i].path in disk && !WorldReadable(disk[files[i].path].perm)
  {
    hide Valid, Render, F.Install;
    KeyIsNeverWorldReadable(d, p, m, keystore, i);
    FileGuarantees.InstalledMode(entry, Targets(Render(d, m, keystore).value, m, keystore.GetOr([])), commands, force, a, i);
  }

  /** A file gives nothing of a key away: it is empty, or the first part of a rendered file without the key,
      or of a file that was there at entry with the same permissions. */
  predicate GivesNothingAway(f: F.File, files: seq<Rendered>, ts: seq<F.Target>, entry: F.Files)
    requires |ts| == |files|
  {
    || f.content == []
    || (exists n :: 0 <= n < |ts| && !files[n].content.HoldsKey() && f.content <= ts[n].content)
    || (exists n :: 0 <= n < |ts| && ts[n].path in entry
                    && f.perm == entry[ts[n].path].perm && f.content <= entry[ts[n].path].content)
  }

  /** At no moment of an install, failed or not, temporary files and restores included, is there a file other
      than at entry that any account can read and that gives some of the key away. The states are those
      the file installer goes through. */
  lemma KeyIsNeverExposed(d: InstallSpec.Destination, p: Platform, m: Material, keystore: Option<Bytes>, entry: F.Files,
                          states: seq<F.Files>, from: nat, k: nat, path: string)
    requires Valid(d, p) && !d.ToStore() && Render(d, m, keystore).Some?
    requires F.AllWhole(states, from, entry, Targets(Render(d, m, keystore).value, m, keystore.GetOr([])))
    requires from <= k < |states| && path in states[k] && !F.Agree(states[k], entry, path)
    requires WorldReadable(states[k][path].perm)
    ensures var files := Render(d, m, keystore).value;
            GivesNothingAway(states[k][path], files, Targets(files, m, keystore.GetOr([])), entry)
  {
    hide Valid, Render;
    var files := Render(d, m, keystore).value;
    var ts := Targets(files, m, keystore.GetOr([]));
    assert F.Whole(states[k], entry, ts) && F.WholeAt(states[k], entry, ts, path);
    forall n | 0 <= n < |ts| && files[n].content.HoldsKey() ensures !WorldReadable(ts[n].Perms()) {
      KeyIsNeverWorldReadable(d, p, m, keystore, n);
    }
  }
}
