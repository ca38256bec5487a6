/**
 What a store destination's report is worth: what the host holds when the report says the
 certificate is installed, and when it says the change was rolled back.
 */
module StoreReports {
  import opened Prelude
  import opened StoreInstall
  import opened StoreSafety

  /** How an install ends once its bind command has gone through: rolled back or settled. */
  function Ending(d: Destination, c: CertId, previous: Option<CertId>, a: Answers): Plan {
    if d.reload && !a.reloaded then RollbackPlan(d, c, previous, d.bind.Some?, false, a)
    else if d.verify && !a.Served() then RollbackPlan(d, c, previous, d.bind.Some?, d.reload, a)
    else SettlePlan(d, c, previous, d.reload, a)
  }

  /** The reload and verify an install gets to. */
  function AsksOf(d: Destination, a: Answers): seq<Call> {
    (if d.reload then [RunReload(a.reloaded)] else [])
    + (if d.verify && (d.reload ==> a.reloaded) then [Verify(a.Served())] else [])
  }

  lemma {:induction false} AsksChangeNothing(h: Host, asks: seq<Call>)
    requires forall call | call in asks :: call.RunReload? || call.Verify?
    ensures Replay(h, asks) == h
    decreases |asks|
  {
    if asks != [] {
      assert asks[0] in asks && Step(h, asks[0]) == h;
      AsksChangeNothing(h, asks[1..]);
    }
  }

  lemma ReloadEnds(h: Host, d: Destination, c: CertId, previous: Option<CertId>, a: Answers)
    ensures ReloadPlan(d, c, previous, a).report == Ending(d, c, previous, a).report
    ensures Replay(h, ReloadPlan(d, c, previous, a).calls) == Replay(h, Ending(d, c, previous, a).calls)
  {
    var asks, end := AsksOf(d, a), Ending(d, c, previous, a).calls;
    assert ReloadPlan(d, c, previous, a).calls == asks + end;
    AsksChangeNothing(h, asks);
    ReplayConcat(h, asks, end);
  }

  /** The host once the certificate is imported and, if a bind is declared, bound. */
  function Bound(h: Host, d: Destination, c: CertId, a: Answers): Host {
    var h1 := Step(h, Import(c, a.imported));
    if d.bind.Some? then Step(h1, RunBind(d.bind.value, c, a.bound)) else h1
  }

  /** An install that gets past its bind command, if any. */
  predicate PastBind(h: Host, d: Destination, c: CertId, force: bool, a: Answers) {
    && a.readable && a.encodable && a.imported.Listed?
    && !Quiet(c, FirstNamed(h, d.store, d.FriendlyName(), a.scan), force)
    && (d.bind.Some? ==> a.bound.ok)
  }

  lemma PastBindEnds(h: Host, d: Destination, c: CertId, force: bool, a: Answers)
    requires PastBind(h, d, c, force, a)
    ensures var previous := FirstNamed(h, d.store, d.FriendlyName(), a.scan);
            var plan, end := InstallPlan(h, d, c, force, a), Ending(d, c, previous, a);
            plan.report == end.report && Replay(h, plan.calls) == Replay(Bound(h, d, c, a), end.calls)
  {
    hide ReloadPlan;
    var previous := FirstNamed(h, d.store, d.FriendlyName(), a.scan);
    var add, tail := Import(c, a.imported), BindPlan(d, c, previous, a).calls;
    ReplayAfter(h, Read(d.FriendlyName()), [add] + tail);
    ReplayAfter(h, add, tail);
    ReloadEnds(Bound(h, d, c, a), d, c, previous, a);
    if d.bind.Some? {
      ReplayAfter(Step(h, add), RunBind(d.bind.value, c, a.bound), ReloadPlan(d, c, previous, a).calls);
    }
  }

  /** An install stopped by a failing bind command takes its import out again. */
  lemma RefusedBindEnds(h: Host, d: Destination, c: CertId, force: bool, a: Answers)
    requires a.readable && a.encodable && a.imported.Listed? && d.bind.Some? && !a.bound.ok
    requires !Quiet(c, FirstNamed(h, d.store, d.FriendlyName(), a.scan), force)
    ensures var plan := InstallPlan(h, d, c, force, a);
            && plan.report == Report(InstallFailed, a.undone.Done?, true, false)
            && Replay(h, plan.calls) == Step(Bound(h, d, c, a), Remove(c, a.undone))
  {
    var add, bind, undo := Import(c, a.imported), RunBind(d.bind.value, c, a.bound), Remove(c, a.undone);
    ReplayAfter(h, Read(d.FriendlyName()), [add] + ([bind] + [undo]));
    ReplayAfter(h, add, [bind] + [undo]);
    assert [bind] + [undo] == [bind, undo];
    ReplayPair(Step(h, add), bind, undo);
  }

  lemma ReplayShort(h: Host, calls: seq<Call>)
    requires |calls| <= 3
    ensures Replay(h, calls) ==
              if calls == [] then h
              else if |calls| == 1 then Step(h, calls[0])
              else if |calls| == 2 then Step(Step(h, calls[0]), calls[1])
              else Step(Step(Step(h, calls[0]), calls[1]), calls[2])
  {
    if |calls| > 1 {
      var h1 := Step(h, calls[0]);
      assert Replay(h1, calls[1..]) == Replay(Step(h1, calls[1]), calls[1..][1..]);
    }
  }

  // ---------- The calls of an install that gets past its bind ----------

  /** What comes before the reload. */
  function Beginning(d: Destination, c: CertId, a: Answers): seq<Call> {
    [Read(d.FriendlyName()), Import(c, a.imported)]
    + (if d.bind.Some? then [RunBind(d.bind.value, c, a.bound)] else [])
  }

  lemma ReloadSplits(d: Destination, c: CertId, previous: Option<CertId>, a: Answers)
    ensures ReloadPlan(d, c, previous, a).calls == AsksOf(d, a) + Ending(d, c, previous, a).calls
  {
  }

  lemma PastBindCalls(h: Host, d: Destination, c: CertId, force: bool, a: Answers)
    requires PastBind(h, d, c, force, a)
    ensures InstallPlan(h, d, c, force, a).calls
            == (Beginning(d, c, a) + AsksOf(d, a))
               + Ending(d, c, FirstNamed(h, d.store, d.FriendlyName(), a.scan), a).calls
  {
    hide Ending, ReloadPlan, FirstNamed;
    ReloadSplits(d, c, FirstNamed(h, d.store, d.FriendlyName(), a.scan), a);
  }

  /** The binds of such an install that are true: its own, and those of its ending. */
  lemma PastBindIsTrue(h: Host, d: Destination, c: CertId, force: bool, a: Answers)
    requires PastBind(h, d, c, force, a) && BindsAreTrue(InstallPlan(h, d, c, force, a).calls, c)
    ensures d.bind.Some? ==> a.bound.repointed
    ensures BindsAreTrue(Ending(d, c, FirstNamed(h, d.store, d.FriendlyName(), a.scan), a).calls, c)
  {
    hide InstallPlan, Ending, FirstNamed;
    PastBindCalls(h, d, c, force, a);
    if d.bind.Some? {
      var bind := RunBind(d.bind.value, c, a.bound);
      assert bind in Beginning(d, c, a) && BindIsTrue(bind, c);
    }
  }

  // ---------- Rolled back ----------

  /** The host a rolled-back report stands for: the import undone as far as removing it worked, and, if
      the bind had gone through, the endpoint at the previous certificate. */
  function PutBackHost(h: Host, d: Destination, c: CertId, previous: Option<CertId>, rebound: bool, a: Answers): Host
    requires rebound ==> d.bind.Some? && previous.Some?
  {
    var certs := Step(h, Import(c, a.imported)).certs;
    Host(if a.undone.Happened() then certs - {c} else certs,
         if rebound then h.bindings[d.bind.value := previous.value] else h.bindings)
  }

  lemma RolledBackIs(h: Host, d: Destination, c: CertId, force: bool, a: Answers)
    requires InstallPlan(h, d, c, force, a).report.rolledBack
    ensures var previous := FirstNamed(h, d.store, d.FriendlyName(), a.scan);
            && a.readable && a.encodable && a.imported.Listed? && !Quiet(c, previous, force)
            && (d.bind.Some? && a.bound.ok ==> previous.Some? && a.rebound.ok)
            && (d.bind.None? || !a.bound.ok ==> a.undone.Done?)
            && (PastBind(h, d, c, force, a) ==>
                  exists reloaded :: Ending(d, c, previous, a) == RollbackPlan(d, c, previous, d.bind.Some?, reloaded, a))
  {
    hide Replay, FirstNamed;
    var previous := FirstNamed(h, d.store, d.FriendlyName(), a.scan);
    if PastBind(h, d, c, force, a) {
      hide ReloadPlan;
      ReloadEnds(h, d, c, previous, a);
      if d.reload && !a.reloaded {
        assert Ending(d, c, previous, a) == RollbackPlan(d, c, previous, d.bind.Some?, false, a);
      } else {
        assert Ending(d, c, previous, a) == RollbackPlan(d, c, previous, d.bind.Some?, d.reload, a);
      }
    }
  }

  /** The whole host after a report that says "rolled back". */
  lemma RolledBackEnds(h: Host, d: Destination, c: CertId, force: bool, a: Answers)
    requires BindsAreTrue(InstallPlan(h, d, c, force, a).calls, c) && InstallPlan(h, d, c, force, a).report.rolledBack
    ensures var previous := FirstNamed(h, d.store, d.FriendlyName(), a.scan);
            var rebound := d.bind.Some? && a.bound.ok;
            && (rebound ==> previous.Some?)
            && Replay(h, InstallPlan(h, d, c, force, a).calls) == PutBackHost(h, d, c, previous, rebound, a)
  {
    var previous := FirstNamed(h, d.store, d.FriendlyName(), a.scan);
    RolledBackIs(h, d, c, force, a);
    if PastBind(h, d, c, force, a) {
      PastBindEnds(h, d, c, force, a);
      PastBindIsTrue(h, d, c, force, a);
      hide InstallPlan, Replay, FirstNamed, Ending;
      var reloaded :| Ending(d, c, previous, a) == RollbackPlan(d, c, previous, d.bind.Some?, reloaded, a);
      PutBackEnds(h, d, c, previous, reloaded, a);
    } else {
      RefusedBindEnds(h, d, c, force, a);
      RefusedBindIsTrue(h, d, c, force, a);
    }
  }

  lemma PutBackEnds(h: Host, d: Destination, c: CertId, previous: Option<CertId>, reloaded: bool, a: Answers)
    requires a.imported.Listed? && (d.bind.Some? ==> a.bound.repointed && previous.Some? && a.rebound.ok)
    requires BindsAreTrue(RollbackPlan(d, c, previous, d.bind.Some?, reloaded, a).calls, c)
    ensures Replay(Bound(h, d, c, a), RollbackPlan(d, c, previous, d.bind.Some?, reloaded, a).calls)
            == PutBackHost(h, d, c, previous, d.bind.Some?, a)
  {
    hide Replay;
    var calls := RollbackPlan(d, c, previous, d.bind.Some?, reloaded, a).calls;
    assert calls[0] in calls;
    ReplayShort(Bound(h, d, c, a), calls);
  }

  lemma RefusedBindIsTrue(h: Host, d: Destination, c: CertId, force: bool, a: Answers)
    requires a.readable && a.encodable && a.imported.Listed? && d.bind.Some? && !a.bound.ok
    requires !Quiet(c, FirstNamed(h, d.store, d.FriendlyName(), a.scan), force)
    requires BindsAreTrue(InstallPlan(h, d, c, force, a).calls, c)
    ensures !a.bound.repointed
  {
    hide FirstNamed;
    var calls := InstallPlan(h, d, c, force, a).calls;
    assert calls[2] == RunBind(d.bind.value, c, a.bound) && calls[2] in calls;
    assert BindIsTrue(calls[2], c);
  }

  /**
   A report that says "rolled back" means one of two things. No endpoint was re-pointed, and the
   certificate is out of the store again. Or the endpoint names the certificate this destination
   had last marked, and that certificate is present exactly when it is not the very one the
   rollback removes.
   */
  lemma RolledBackMeans(h: Host, d: Destination, c: CertId, force: bool, a: Answers)
    requires BindsAreTrue(InstallPlan(h, d, c, force, a).calls, c) && InstallPlan(h, d, c, force, a).report.rolledBack
    ensures var previous := FirstNamed(h, d.store, d.FriendlyName(), a.scan);
            var end := Replay(h, InstallPlan(h, d, c, force, a).calls);
            || (end.bindings == h.bindings && c !in end.certs)
            || (&& d.bind.Some? && previous.Some?
                && end.bindings == h.bindings[d.bind.value := previous.value]
                && (previous.value in end.certs <==> previous.value != c || !a.undone.Happened()))
  {
    RolledBackIs(h, d, c, force, a);
    hide InstallPlan, Replay, FirstNamed, Ending, RollbackPlan;
    RolledBackEnds(h, d, c, force, a);
    FirstNamedFinds(h, d.store, d.FriendlyName(), a.scan);
  }

  /**
   Exactly when a report that says "rolled back" leaves the host as it was. The import has to be undone
   with nothing there before; or, if removing it failed, it has to have been there already, and importing
   it again has to have left its name. And an endpoint that was re-pointed has to have named the previous
   certificate before.
   */
  lemma RolledBackExactly(h: Host, d: Destination, c: CertId, force: bool, a: Answers)
    requires BindsAreTrue(InstallPlan(h, d, c, force, a).calls, c) && InstallPlan(h, d, c, force, a).report.rolledBack
    ensures Replay(h, InstallPlan(h, d, c, force, a).calls) == h <==>
              && (if a.undone.Happened() then c !in h.certs
                  else c in h.certs && (a.imported.keepsName || h.certs[c] == ""))
              && (d.bind.Some? && a.bound.ok ==>
                    && d.bind.value in h.bindings
                    && FirstNamed(h, d.store, d.FriendlyName(), a.scan) == Some(h.bindings[d.bind.value]))
  {
    RolledBackIs(h, d, c, force, a);
    hide InstallPlan, Replay, FirstNamed, Ending, RollbackPlan;
    RolledBackEnds(h, d, c, force, a);
    var previous, rebound := FirstNamed(h, d.store, d.FriendlyName(), a.scan), d.bind.Some? && a.bound.ok;
    SameIfPutBack(h, d, c, previous, rebound, a);
  }

  lemma SameIfPutBack(h: Host, d: Destination, c: CertId, previous: Option<CertId>, rebound: bool, a: Answers)
    requires (rebound ==> d.bind.Some? && previous.Some?) && a.imported.Listed?
    ensures PutBackHost(h, d, c, previous, rebound, a) == h <==>
              && (if a.undone.Happened() then c !in h.certs
                  else c in h.certs && (a.imported.keepsName || h.certs[c] == ""))
              && (rebound ==> d.bind.value in h.bindings && h.bindings[d.bind.value] == previous.value)
  {
    var end := PutBackHost(h, d, c, previous, rebound, a);
    assert rebound && d.bind.value in h.bindings && h.bindings[d.bind.value] == previous.value ==> end.bindings == h.bindings;
    assert rebound ==> d.bind.value in end.bindings && end.bindings[d.bind.value] == previous.value;
    if a.undone.Happened() {
      assert c !in end.certs && (c !in h.certs ==> end.certs == h.certs);
    } else {
      assert c in end.certs && (c in h.certs && (a.imported.keepsName || h.certs[c] == "") ==> end.certs == h.certs);
      assert c in h.certs && !a.imported.keepsName ==> end.certs[c] == "";
    }
  }

  // ---------- Installed ----------

  /** The host an installed report stands for: the certificate is in the store and every declared
      endpoint names it; it carries the destination's mark if naming worked; the certificate it
      replaces is gone if removing it worked; and nothing else about the store or the bindings
      changed. */
  ghost predicate InPlace(h: Host, end: Host, d: Destination, c: CertId, previous: Option<CertId>, a: Answers) {
    && c in end.certs
    && (a.named.Happened() ==> end.certs[c] == d.FriendlyName())
    && end.bindings == (if d.bind.Some? then h.bindings[d.bind.value := c] else h.bindings)
    && (previous.Some? && previous.value != c ==>
          (previous.value in end.certs <==> !a.retired.Happened()))
    && (forall x | x != c && previous != Some(x) ::
          (x in end.certs <==> x in h.certs) && (x in h.certs ==> end.certs[x] == h.certs[x]))
  }

  /** A host once the certificate is named and the one it replaces removed. */
  function SettledHost(h: Host, d: Destination, c: CertId, previous: Option<CertId>, named: Effect, retired: Effect): Host {
    var h1 := Step(h, SetName(c, d.FriendlyName(), named));
    if previous.Some? && previous.value != c then Step(h1, Remove(previous.value, retired)) else h1
  }

  lemma SettleEnds(h: Host, d: Destination, c: CertId, previous: Option<CertId>, a: Answers)
    ensures Replay(h, SettlePlan(d, c, previous, d.reload, a).calls) == SettledHost(h, d, c, previous, a.named, a.retired)
  {
    hide Replay;
    ReplayShort(h, SettlePlan(d, c, previous, d.reload, a).calls);
  }

  lemma SettledIsInPlace(h: Host, d: Destination, c: CertId, previous: Option<CertId>, a: Answers)
    requires a.imported.Listed? && (d.bind.Some? ==> a.bound.repointed)
    requires previous.Some? ==> previous.value in h.certs
    ensures InPlace(h, SettledHost(Bound(h, d, c, a), d, c, previous, a.named, a.retired), d, c, previous, a)
  {
  }

  lemma QuietChangesNothing(h: Host, d: Destination, c: CertId, force: bool, a: Answers)
    requires a.readable && Quiet(c, FirstNamed(h, d.store, d.FriendlyName(), a.scan), force)
    ensures Replay(h, InstallPlan(h, d, c, force, a).calls) == h
  {
    hide Replay;
    assert InstallPlan(h, d, c, force, a).calls == [Read(d.FriendlyName())];
    ReplayShort(h, [Read(d.FriendlyName())]);
  }

  /** Only a settled or a quiet install says it is installed. */
  lemma InstalledIsSettledOrQuiet(h: Host, d: Destination, c: CertId, force: bool, a: Answers)
    requires InstallPlan(h, d, c, force, a).report.status == Installed
    ensures var previous := FirstNamed(h, d.store, d.FriendlyName(), a.scan);
            && a.readable
            && (!Quiet(c, previous, force) ==>
                  PastBind(h, d, c, force, a) && Ending(d, c, previous, a) == SettlePlan(d, c, previous, d.reload, a))
  {
    hide Replay, FirstNamed, SettlePlan;
    var previous := FirstNamed(h, d.store, d.FriendlyName(), a.scan);
    assert SettlePlan(d, c, previous, d.reload, a).report.status == Installed by { SettlesInstalled(d, c, previous, a); }
  }

  lemma SettlesInstalled(d: Destination, c: CertId, previous: Option<CertId>, a: Answers)
    ensures SettlePlan(d, c, previous, d.reload, a).report.status == Installed
  {
  }

  /**
   A report that says "installed" means the host is in place, or there was nothing to do and
   nothing changed.
   */
  lemma InstalledMeans(h: Host, d: Destination, c: CertId, force: bool, a: Answers)
    requires BindsAreTrue(InstallPlan(h, d, c, force, a).calls, c)
    requires InstallPlan(h, d, c, force, a).report.status == Installed
    ensures var previous := FirstNamed(h, d.store, d.FriendlyName(), a.scan);
            var end := Replay(h, InstallPlan(h, d, c, force, a).calls);
            if Quiet(c, previous, force) then end == h else InPlace(h, end, d, c, previous, a)
  {
    hide InstallPlan, Replay, FirstNamed, InPlace, Ending, SettlePlan, SettledHost, Bound;
    var previous := FirstNamed(h, d.store, d.FriendlyName(), a.scan);
    InstalledIsSettledOrQuiet(h, d, c, force, a);
    FirstNamedFinds(h, d.store, d.FriendlyName(), a.scan);
    if Quiet(c, previous, force) {
      QuietChangesNothing(h, d, c, force, a);
    } else {
      PastBindEnds(h, d, c, force, a);
      PastBindIsTrue(h, d, c, force, a);
      SettleEnds(Bound(h, d, c, a), d, c, previous, a);
      SettledIsInPlace(h, d, c, previous, a);
    }
  }

  lemma RollbackRemoves(h: Host, d: Destination, c: CertId, previous: Option<CertId>, reloaded: bool, a: Answers)
    requires d.bind.Some? && c in h.certs && BindsAreTrue(RollbackPlan(d, c, previous, true, reloaded, a).calls, c)
    ensures var end := Replay(h, RollbackPlan(d, c, previous, true, reloaded, a).calls);
            c !in end.certs ==> previous.Some? && end.bindings == h.bindings[d.bind.value := previous.value]
  {
    hide Replay;
    var calls := RollbackPlan(d, c, previous, true, reloaded, a).calls;
    assert calls != [] ==> calls[0] in calls;
    ReplayShort(h, calls);
  }

  lemma SettleRetains(h: Host, d: Destination, c: CertId, previous: Option<CertId>, reloaded: bool, a: Answers)
    requires c in h.certs
    ensures c in Replay(h, SettlePlan(d, c, previous, reloaded, a).calls).certs
  {
    hide Replay;
    ReplayShort(h, SettlePlan(d, c, previous, reloaded, a).calls);
  }

  /**
   The end of an install that got past its bind command: its certificate is gone only if the
   endpoint was put back to the previous one.
   */
  lemma GoneOnlyIfPutBack(h: Host, d: Destination, c: CertId, force: bool, a: Answers)
    requires BindsAreTrue(InstallPlan(h, d, c, force, a).calls, c) && PastBind(h, d, c, force, a) && d.bind.Some?
    ensures var previous := FirstNamed(h, d.store, d.FriendlyName(), a.scan);
            var end := Replay(h, InstallPlan(h, d, c, force, a).calls);
            c !in end.certs ==> previous.Some? && end.bindings == h.bindings[d.bind.value := previous.value]
  {
    var previous := FirstNamed(h, d.store, d.FriendlyName(), a.scan);
    PastBindEnds(h, d, c, force, a);
    PastBindIsTrue(h, d, c, force, a);
    hide InstallPlan, FirstNamed, Replay, RollbackPlan, SettlePlan;
    if (d.reload && !a.reloaded) || (d.verify && !a.Served()) {
      RollbackRemoves(Bound(h, d, c, a), d, c, previous, d.reload && a.reloaded, a);
    }
    SettleRetains(Bound(h, d, c, a), d, c, previous, d.reload, a);
  }

  /** Each removal of a certificate comes right after a re-bind to the previous one that succeeded. */
  predicate RebindsFirst(calls: seq<Call>, c: CertId, e: string, previous: Option<CertId>) {
    forall k | 0 <= k < |calls| && calls[k].Remove? && calls[k].c == c ::
      && previous.Some? && k > 0
      && calls[k - 1].RunBind? && calls[k - 1].endpoint == e && calls[k - 1].c == previous.value && calls[k - 1].outcome.ok
  }

  lemma RebindsFirstAfter(before: seq<Call>, calls: seq<Call>, c: CertId, e: string, previous: Option<CertId>)
    requires forall k | 0 <= k < |before| :: !before[k].Remove?
    requires RebindsFirst(calls, c, e, previous)
    ensures RebindsFirst(before + calls, c, e, previous)
  {
    var all := before + calls;
    forall k | 0 <= k < |all| && all[k].Remove? && all[k].c == c
      ensures previous.Some? && k > 0 && all[k - 1].RunBind? && all[k - 1].endpoint == e
              && all[k - 1].c == previous.value && all[k - 1].outcome.ok
    {
      assert all[k] == calls[k - |before|];
      assert all[k - 1] == calls[k - |before| - 1];
    }
  }

  lemma EndingRebindsFirst(d: Destination, c: CertId, previous: Option<CertId>, a: Answers)
    requires d.bind.Some?
    ensures RebindsFirst(Ending(d, c, previous, a).calls, c, d.bind.value, previous)
  {
  }

  /**
   The order of a rollback. In an install that gets past its bind command, wherever in its calls
   the certificate is removed, the call just before is a bind of the same endpoint to the previous
   certificate, and that bind succeeded.
   */
  lemma RemovedOnlyAfterRebind(h: Host, d: Destination, c: CertId, force: bool, a: Answers)
    requires PastBind(h, d, c, force, a) && d.bind.Some?
    ensures RebindsFirst(InstallPlan(h, d, c, force, a).calls, c, d.bind.value,
                         FirstNamed(h, d.store, d.FriendlyName(), a.scan))
  {
    hide InstallPlan, Ending, RebindsFirst, FirstNamed;
    var previous := FirstNamed(h, d.store, d.FriendlyName(), a.scan);
    PastBindCalls(h, d, c, force, a);
    EndingRebindsFirst(d, c, previous, a);
    RebindsFirstAfter(Beginning(d, c, a) + AsksOf(d, a), Ending(d, c, previous, a).calls, c, d.bind.value, previous);
  }
}
