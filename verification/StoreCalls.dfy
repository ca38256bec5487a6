/**
 What a store install asks of the host, in full and in order, told from its outcome rather than step by
 step; and what the service is running on after a rollback (store.go).
 */
module StoreCalls {
  import opened Prelude
  import opened StoreInstall
  import opened StoreSafety
  import opened StoreReports

  /** Every declared proof of an import that was listed succeeds. */
  predicate Proved(d: Destination, a: Answers) {
    (d.bind.Some? ==> a.bound.ok) && (d.reload ==> a.reloaded) && (d.verify ==> true in a.probes)
  }

  /** The declared proofs, up to and including the first that fails. */
  function Proofs(d: Destination, c: CertId, a: Answers): seq<Call> {
    var bind := if d.bind.Some? then [RunBind(d.bind.value, c, a.bound)] else [];
    var reload := if d.reload then [RunReload(a.reloaded)] else [];
    var verify := if d.verify then [Verify(true in a.probes)] else [];
    if d.bind.Some? && !a.bound.ok then bind
    else if d.reload && !a.reloaded then bind + reload
    else bind + reload + verify
  }

  /** Taking a refused certificate out again: at once if no endpoint was re-pointed, not at all if there is
      nothing to go back to, and otherwise only once the endpoint is back; and a service that had been
      reloaded onto it is reloaded off it. */
  function TakenOut(d: Destination, c: CertId, previous: Option<CertId>, a: Answers): seq<Call> {
    if d.bind.None? || !a.bound.ok then [Remove(c, a.undone)]
    else if previous.None? then []
    else
      [RunBind(d.bind.value, previous.value, a.rebound)]
      + (if a.rebound.ok then [Remove(c, a.undone)] else [])
      + (if a.rebound.ok && d.reload && a.reloaded then [RunReload(a.reloadedAgain)] else [])
  }

  /** Marking the certificate and removing the one it replaces. */
  function Kept(d: Destination, c: CertId, previous: Option<CertId>, a: Answers): seq<Call> {
    [SetName(c, "CertPilot: " + d.name, a.named)]
    + (if previous.Some? && previous != Some(c) then [Remove(previous.value, a.retired)] else [])
  }

  /**
   An install in full. Nothing follows a read that fails or finds the certificate marked, unless it is
   forced, nor a certificate that cannot be encoded. A failed import is cleaned up, an unlisted one is left.
   A listed one is proved; if every declared proof succeeds it is marked and its predecessor removed, and
   otherwise it is taken out again.
   */
  lemma CallsInFull(h: Host, d: Destination, c: CertId, force: bool, a: Answers)
    ensures var previous := FirstNamed(h, d.store, d.FriendlyName(), a.scan);
            var read, add := [Read("CertPilot: " + d.name)], [Import(c, a.imported)];
            InstallPlan(h, d, c, force, a).calls ==
              if !a.readable || (previous == Some(c) && !force) || !a.encodable then read
              else if a.imported.ImportFailed? then read + add + [Remove(c, a.cleanup)]
              else if a.imported.Unlisted? then read + add
              else read + add + Proofs(d, c, a) + (if Proved(d, a) then Kept(d, c, previous, a) else TakenOut(d, c, previous, a))
  {
    hide FirstNamed;
    var previous := FirstNamed(h, d.store, d.FriendlyName(), a.scan);
    if PastBind(h, d, c, force, a) {
      hide InstallPlan, Proofs, TakenOut, Kept, Ending, Beginning, AsksOf, Proved;
      PastBindCalls(h, d, c, force, a);
      StartIs(d, c, a);
      EndingIs(d, c, previous, a);
    } else {
      hide ReloadPlan, SettlePlan, Kept;
    }
  }

  lemma StartIs(d: Destination, c: CertId, a: Answers)
    requires d.bind.Some? ==> a.bound.ok
    ensures Beginning(d, c, a) + AsksOf(d, a) == [Read("CertPilot: " + d.name)] + [Import(c, a.imported)] + Proofs(d, c, a)
  {
  }

  lemma EndingIs(d: Destination, c: CertId, previous: Option<CertId>, a: Answers)
    requires d.bind.Some? ==> a.bound.ok
    ensures Ending(d, c, previous, a).calls == if Proved(d, a) then Kept(d, c, previous, a) else TakenOut(d, c, previous, a)
  {
  }

  /**
   The report in full. "Installed" is said of a certificate that was marked already or is now, and of
   nothing else; "rolled back" only if a removal worked before any endpoint was re-pointed, or the
   endpoint was put back; an install time is given once an import was listed, and a reload time once the
   first reload worked.
   */
  lemma ReportInFull(h: Host, d: Destination, c: CertId, force: bool, a: Answers)
    ensures var previous := FirstNamed(h, d.store, d.FriendlyName(), a.scan);
            var report := InstallPlan(h, d, c, force, a).report;
            var quiet := a.readable && previous == Some(c) && !force;
            var listed := a.readable && !quiet && a.encodable && a.imported.Listed?;
            && report.status == (if quiet || (listed && Proved(d, a)) then Installed else InstallFailed)
            && (report.dated <==> listed)
            && (report.reloaded <==> listed && (d.bind.Some? ==> a.bound.ok) && d.reload && a.reloaded)
            && (report.rolledBack <==>
                  && listed && !Proved(d, a)
                  && if d.bind.None? || !a.bound.ok then a.undone.Done? else previous.Some? && a.rebound.ok)
  {
    hide FirstNamed;
  }

  /**
   A rollback does not leave a service on the certificate it removed. If a reload had succeeded and a
   later bind of the endpoint to the previous certificate succeeds, the certificate is removed next and
   then, last of all, the service is reloaded; and if no reload had succeeded, none follows that bind.
   */
  lemma ReloadedOntoPrevious(h: Host, d: Destination, c: CertId, force: bool, a: Answers, i: nat)
    requires var calls := InstallPlan(h, d, c, force, a).calls;
             i < |calls| && i > 2 && calls[i].RunBind? && calls[i].outcome.ok
    ensures var calls := InstallPlan(h, d, c, force, a).calls;
            var previous := FirstNamed(h, d.store, d.FriendlyName(), a.scan);
            && d.bind == Some(calls[i].endpoint) && previous == Some(calls[i].c)
            && |calls| > i + 1 && calls[i + 1].Remove? && calls[i + 1].c == c
            && (if RunReload(true) in calls[..i] then |calls| == i + 3 && calls[i + 2].RunReload?
                else |calls| == i + 2)
  {
    hide FirstNamed, InstallPlan, Proofs, TakenOut, Kept, Proved;
    CallsInFull(h, d, c, force, a);
    var previous := FirstNamed(h, d.store, d.FriendlyName(), a.scan);
    var start, proofs, out := [Read("CertPilot: " + d.name)] + [Import(c, a.imported)], Proofs(d, c, a), TakenOut(d, c, previous, a);
    ProofsAre(d, c, a);
    OnlyTakenOutRebinds(d, c, previous, a);
    var calls := InstallPlan(h, d, c, force, a).calls;
    assert i == |start + proofs|;
    assert calls[..i] == start + proofs;
    assert RunReload(true) in calls[..i] <==> RunReload(true) in proofs;
  }

  /** The proofs begin with the bind, if there is one, and hold no other. */
  lemma ProofsAre(d: Destination, c: CertId, a: Answers)
    ensures forall k | 0 < k < |Proofs(d, c, a)| :: !Proofs(d, c, a)[k].RunBind?
    ensures RunReload(true) in Proofs(d, c, a) <==> d.reload && a.reloaded && (d.bind.Some? ==> a.bound.ok)
  {
  }

  lemma OnlyTakenOutRebinds(d: Destination, c: CertId, previous: Option<CertId>, a: Answers)
    ensures forall k | 0 <= k < |Kept(d, c, previous, a)| :: !Kept(d, c, previous, a)[k].RunBind?
    ensures var out := TakenOut(d, c, previous, a);
            && (forall k | 0 < k < |out| :: !out[k].RunBind?)
            && (out != [] && out[0].RunBind? && out[0].outcome.ok ==>
                  && d.bind == Some(out[0].endpoint) && previous == Some(out[0].c)
                  && |out| > 1 && out[1].Remove? && out[1].c == c
                  && if d.reload && a.reloaded then |out| == 3 && out[2].RunReload? else |out| == 2)
            && (out != [] && out[0].RunBind? ==> d.bind.Some? && a.bound.ok)
  {
  }

  /** The certificate read as the previous one is the first that is listed, in the order it is listed. */
  lemma {:induction false} PreviousIsFirst(h: Host, d: Destination, scan: seq<string>)
    ensures match FirstNamed(h, d.store, d.FriendlyName(), scan)
            case Some(p) => exists k :: 0 <= k < |scan| && p == CertId(d.store, scan[k]) && d.Marks(h, p) && NoneBefore(h, d, scan, k)
            case None => NoneBefore(h, d, scan, |scan|)
  {
    hide Destination.Marks;
    if scan == [] {
    } else if d.Marks(h, CertId(d.store, scan[0])) {
      assert NoneBefore(h, d, scan, 0);
      ScanStep(h, d, scan);
    } else {
      PreviousIsFirst(h, d, scan[1..]);
      ScanStep(h, d, scan);
      if FirstNamed(h, d.store, d.FriendlyName(), scan[1..]).Some? {
        var p := FirstNamed(h, d.store, d.FriendlyName(), scan[1..]).value;
        var k :| 0 <= k < |scan| - 1 && p == CertId(d.store, scan[1..][k]) && NoneBefore(h, d, scan[1..], k);
        assert scan[k + 1] == scan[1..][k];
        LaterNone(h, d, scan, k);
      } else {
        LaterNone(h, d, scan, |scan| - 1);
      }
    }
  }

  predicate NoneBefore(h: Host, d: Destination, scan: seq<string>, k: int) {
    k <= |scan| && forall i | 0 <= i < k :: !d.Marks(h, CertId(d.store, scan[i]))
  }

  lemma ScanStep(h: Host, d: Destination, scan: seq<string>)
    requires scan != []
    ensures FirstNamed(h, d.store, d.FriendlyName(), scan)
            == if d.Marks(h, CertId(d.store, scan[0])) then Some(CertId(d.store, scan[0]))
               else FirstNamed(h, d.store, d.FriendlyName(), scan[1..])
  {
  }

  lemma LaterNone(h: Host, d: Destination, scan: seq<string>, k: nat)
    requires scan != [] && k < |scan| && !d.Marks(h, CertId(d.store, scan[0])) && NoneBefore(h, d, scan[1..], k)
    ensures NoneBefore(h, d, scan, k + 1)
  {
    forall i | 0 <= i < k + 1 ensures !d.Marks(h, CertId(d.store, scan[i])) {
      if i > 0 { assert scan[i] == scan[1..][i - 1]; }
    }
  }
}
