/**
 Installing into a certificate store: read the previous certificate, import, bind, reload,
 verify, settle, and a rollback whose order matters (store.go).

 What the world answers is an `Answers` record chosen in advance, one field for each call an
 install can make; statements quantify over it, so they hold for every outcome of every call.
 */
module StoreInstall {
  import opened Prelude

  // ---------- Hosts ----------

  /** A certificate in one store, known by its thumbprint. */
  datatype CertId = CertId(store: string, thumb: string)

  /** What the stores hold, with the friendly name each certificate carries, and which
      certificate each endpoint is bound to. */
  datatype Host = Host(certs: map<CertId, string>, bindings: map<string, CertId>)

  /** A store destination. `bind` is the endpoint its bind command re-points, None when no
      bind is declared; `reload` and `verify` say whether those are declared. */
  datatype Destination = Destination(
    name: string, store: string, bind: Option<string>, reload: bool, verify: bool)
  {
    function FriendlyName(): string { "CertPilot: " + name }

    /** A certificate of its own store that carries its name. Other stores are never looked at. */
    predicate Marks(h: Host, c: CertId) { c in h.certs && c.store == store && h.certs[c] == FriendlyName() }
  }

  // ---------- Calls and their outcomes ----------

  /** A store call that returns an error may have taken effect or not. */
  datatype Effect = Done | Failed(happened: bool)
  {
    predicate Happened() { Done? || happened }
  }

  /** An import either fails (having added the leaf or not), or succeeds and does not list the
      leaf, or succeeds and lists it. Re-adding a certificate may clear the name it carried. */
  datatype ImportOutcome =
    | ImportFailed(added: bool, keepsName: bool)
    | Unlisted(added: bool, keepsName: bool)
    | Listed(keepsName: bool)
  {
    predicate Adds() { Listed? || added }
  }

  /** A bind command: whether it exited cleanly, and whether the endpoint was re-pointed. */
  datatype BindOutcome = BindOutcome(ok: bool, repointed: bool)
  {
    predicate Honest() { ok == repointed }
  }

  datatype Answers = Answers(
    readable: bool, scan: seq<string>, encodable: bool,
    imported: ImportOutcome, cleanup: Effect,
    bound: BindOutcome, reloaded: bool, probes: seq<bool>,
    named: Effect, retired: Effect,
    rebound: BindOutcome, undone: Effect, reloadedAgain: bool)
  {
    /** Both bind commands re-point exactly when they succeed. */
    predicate Honest() { bound.Honest() && rebound.Honest() }

    /** The endpoint is probed until the deadline; one good answer is enough. */
    predicate Served() { true in probes }
  }

  datatype Call =
    | Read(name: string)
    | Import(c: CertId, imported: ImportOutcome)
    | Remove(c: CertId, effect: Effect)
    | SetName(c: CertId, name: string, effect: Effect)
    | RunBind(endpoint: string, c: CertId, outcome: BindOutcome)
    | RunReload(ok: bool)
    | Verify(ok: bool)

  /** What one call does to the host. */
  function Step(h: Host, call: Call): Host {
    match call
    case Import(c, imported) =>
      if !imported.Adds() then h
      else if c in h.certs && imported.keepsName then h
      else h.(certs := h.certs[c := ""])
    case Remove(c, effect) =>
      if effect.Happened() then h.(certs := h.certs - {c}) else h
    case SetName(c, name, effect) =>
      if effect.Happened() && c in h.certs then h.(certs := h.certs[c := name]) else h
    case RunBind(e, c, outcome) =>
      if outcome.repointed then h.(bindings := h.bindings[e := c]) else h
    case _ => h
  }

  function Replay(h: Host, calls: seq<Call>): Host
    decreases |calls|
  {
    if calls == [] then h else Replay(Step(h, calls[0]), calls[1..])
  }

  lemma {:induction false} ReplayConcat(h: Host, a: seq<Call>, b: seq<Call>)
    ensures Replay(h, a + b) == Replay(Replay(h, a), b)
    decreases |a|
  {
    if a == [] {
      assert a + b == b;
    } else {
      assert (a + b)[0] == a[0] && (a + b)[1..] == a[1..] + b;
      ReplayConcat(Step(h, a[0]), a[1..], b);
    }
  }

  ghost predicate SameEndpoint(h: Host, h': Host, e: string) {
    (e in h.bindings <==> e in h'.bindings) && (e in h.bindings ==> h.bindings[e] == h'.bindings[e])
  }

  /** An endpoint no call re-points keeps its binding. */
  lemma {:induction false} EndpointUntouched(h: Host, calls: seq<Call>, e: string)
    requires forall call | call in calls && call.RunBind? :: call.endpoint != e
    ensures SameEndpoint(h, Replay(h, calls), e)
    decreases |calls|
  {
    if calls != [] {
      assert calls[0] in calls;
      EndpointUntouched(Step(h, calls[0]), calls[1..], e);
    }
  }

  // ---------- The plan of one install ----------

  datatype Plan = Plan(calls: seq<Call>, report: Report)
  {
    function After(earlier: seq<Call>): Plan { Plan(earlier + calls, report) }
  }

  /** The first certificate of a store, in enumeration order, that carries a friendly name. */
  function FirstNamed(h: Host, store: string, name: string, scan: seq<string>): Option<CertId> {
    if scan == [] then None
    else
      var c := CertId(store, scan[0]);
      if c in h.certs && h.certs[c] == name then Some(c)
      else FirstNamed(h, store, name, scan[1..])
  }

  function RollbackPlan(d: Destination, c: CertId, previous: Option<CertId>, bound: bool,
                        reloaded: bool, a: Answers): Plan
    requires bound ==> d.bind.Some?
  {
    var failed := Report(InstallFailed, false, true, reloaded);
    if !bound then
      Plan([Remove(c, a.undone)], failed.(rolledBack := a.undone.Done?))
    else if previous.None? then
      Plan([], failed)
    else if !a.rebound.ok then
      Plan([RunBind(d.bind.value, previous.value, a.rebound)], failed)
    else
      Plan([RunBind(d.bind.value, previous.value, a.rebound), Remove(c, a.undone)]
           + (if reloaded then [RunReload(a.reloadedAgain)] else []),
           failed.(rolledBack := true))
  }

  function SettlePlan(d: Destination, c: CertId, previous: Option<CertId>, reloaded: bool,
                      a: Answers): Plan {
    Plan([SetName(c, d.FriendlyName(), a.named)]
         + (if previous.Some? && previous.value != c then [Remove(previous.value, a.retired)] else []),
         Report(Installed, false, true, reloaded))
  }

  function VerifyPlan(d: Destination, c: CertId, previous: Option<CertId>, a: Answers): Plan {
    if d.verify && !a.Served() then
      RollbackPlan(d, c, previous, d.bind.Some?, d.reload, a).After([Verify(false)])
    else
      SettlePlan(d, c, previous, d.reload, a).After(if d.verify then [Verify(true)] else [])
  }

  function ReloadPlan(d: Destination, c: CertId, previous: Option<CertId>, a: Answers): Plan {
    if d.reload && !a.reloaded then
      RollbackPlan(d, c, previous, d.bind.Some?, false, a).After([RunReload(false)])
    else
      VerifyPlan(d, c, previous, a).After(if d.reload then [RunReload(true)] else [])
  }

  function BindPlan(d: Destination, c: CertId, previous: Option<CertId>, a: Answers): Plan {
    match d.bind
    case None => ReloadPlan(d, c, previous, a)
    case Some(e) =>
      if !a.bound.ok then
        RollbackPlan(d, c, previous, false, false, a).After([RunBind(e, c, a.bound)])
      else
        ReloadPlan(d, c, previous, a).After([RunBind(e, c, a.bound)])
  }

  predicate Quiet(c: CertId, previous: Option<CertId>, force: bool) {
    previous == Some(c) && !force
  }

  function ImportPlan(d: Destination, c: CertId, previous: Option<CertId>, force: bool, a: Answers): Plan {
    var failed := Report(InstallFailed, false, false, false);
    if Quiet(c, previous, force) then Plan([], Report(Installed, false, false, false))
    else if !a.encodable then Plan([], failed)
    else match a.imported
    case ImportFailed(_, _) => Plan([Import(c, a.imported), Remove(c, a.cleanup)], failed)
    case Unlisted(_, _) => Plan([Import(c, a.imported)], failed)
    case Listed(_) => BindPlan(d, c, previous, a).After([Import(c, a.imported)])
  }

  /** What one install asks of the host, and what it reports. */
  function InstallPlan(h: Host, d: Destination, c: CertId, force: bool, a: Answers): Plan {
    var read := [Read(d.FriendlyName())];
    if !a.readable then Plan(read, Report(InstallFailed, false, false, false))
    else ImportPlan(d, c, FirstNamed(h, d.store, d.FriendlyName(), a.scan), force, a).After(read)
  }

  /** What a bind command says is true as far as it matters: one that says it worked did re-point the
      endpoint, and one to the new certificate that says it failed did not. Only commands that run are
      spoken of. */
  predicate BindsAreTrue(calls: seq<Call>, c: CertId) {
    forall call | call in calls && call.RunBind? :: BindIsTrue(call, c)
  }

  predicate BindIsTrue(call: Call, c: CertId)
    requires call.RunBind?
  {
    (call.outcome.ok ==> call.outcome.repointed) && (call.c == c && call.outcome.repointed ==> call.outcome.ok)
  }

  // ---------- The installer, step by step ----------

  class Installer {
    var certs: map<CertId, string>
    var bindings: map<string, CertId>
    /** The host as it was first seen, and every call made since, in order. */
    ghost const origin: Host
    ghost var calls: seq<Call>

    ghost function Now(): Host reads this { Host(certs, bindings) }

    ghost predicate Valid() reads this { Now() == Replay(origin, calls) }

    constructor (h: Host)
      ensures Valid() && Now() == h && calls == []
    {
      certs, bindings, origin, calls := h.certs, h.bindings, h, [];
    }

    /** Which certificate of a store carries a name; `ok` is false when it cannot be read. */
    method ThumbprintNamed(store: string, name: string, a: Answers)
      returns (ok: bool, found: Option<CertId>)
      requires Valid()
      modifies this`calls
      ensures Valid() && calls == old(calls) + [Read(name)]
      ensures ok == a.readable
      ensures ok ==> found == FirstNamed(Now(), store, name, a.scan)
    {
      ReplayConcat(origin, calls, [Read(name)]);
      calls := calls + [Read(name)];
      if !a.readable {
        return false, None;
      }
      var k := 0;
      while k < |a.scan|
        invariant 0 <= k <= |a.scan|
        invariant FirstNamed(Now(), store, name, a.scan) == FirstNamed(Now(), store, name, a.scan[k..])
      {
        var c := CertId(store, a.scan[k]);
        if c in certs && certs[c] == name {
          return true, Some(c);
        }
        k := k + 1;
      }
      return true, None;
    }

    method ImportPfx(c: CertId, outcome: ImportOutcome)
      requires Valid()
      modifies this`certs, this`calls
      ensures Valid() && calls == old(calls) + [Import(c, outcome)]
    {
      ReplayConcat(origin, calls, [Import(c, outcome)]);
      if outcome.Adds() && !(c in certs && outcome.keepsName) {
        certs := certs[c := ""];
      }
      calls := calls + [Import(c, outcome)];
    }

    method RemoveCert(c: CertId, effect: Effect) returns (ok: bool)
      requires Valid()
      modifies this`certs, this`calls
      ensures Valid() && calls == old(calls) + [Remove(c, effect)]
      ensures ok == effect.Done?
    {
      ReplayConcat(origin, calls, [Remove(c, effect)]);
      if effect.Happened() {
        certs := certs - {c};
      }
      calls := calls + [Remove(c, effect)];
      ok := effect.Done?;
    }

    method SetFriendlyName(c: CertId, name: string, effect: Effect)
      requires Valid()
      modifies this`certs, this`calls
      ensures Valid() && calls == old(calls) + [SetName(c, name, effect)]
    {
      ReplayConcat(origin, calls, [SetName(c, name, effect)]);
      if effect.Happened() && c in certs {
        certs := certs[c := name];
      }
      calls := calls + [SetName(c, name, effect)];
    }

    method Bind(e: string, c: CertId, outcome: BindOutcome) returns (ok: bool)
      requires Valid()
      modifies this`bindings, this`calls
      ensures Valid() && calls == old(calls) + [RunBind(e, c, outcome)]
      ensures ok == outcome.ok
    {
      ReplayConcat(origin, calls, [RunBind(e, c, outcome)]);
      if outcome.repointed {
        bindings := bindings[e := c];
      }
      calls := calls + [RunBind(e, c, outcome)];
      ok := outcome.ok;
    }

    method Reload(ok: bool)
      requires Valid()
      modifies this`calls
      ensures Valid() && calls == old(calls) + [RunReload(ok)]
    {
      ReplayConcat(origin, calls, [RunReload(ok)]);
      calls := calls + [RunReload(ok)];
    }

    /** Probe until one answer is right or the attempts that fit in the window are used up. */
    method VerifyServed(probes: seq<bool>) returns (ok: bool)
      requires Valid()
      modifies this`calls
      ensures Valid() && calls == old(calls) + [Verify(ok)]
      ensures ok == (true in probes)
    {
      ok := false;
      var k := 0;
      while k < |probes| && !ok
        invariant 0 <= k <= |probes|
        invariant ok == (true in probes[..k])
      {
        assert probes[..k + 1] == probes[..k] + [probes[k]];
        ok := probes[k];
        k := k + 1;
      }
      assert ok || probes[..k] == probes;
      ReplayConcat(origin, calls, [Verify(ok)]);
      calls := calls + [Verify(ok)];
    }

    method RollbackStore(d: Destination, c: CertId, previous: Option<CertId>, bound: bool,
                         reloaded: bool, a: Answers, start: Report) returns (out: Report)
      requires Valid()
      requires bound ==> d.bind.Some?
      requires start == Report(InstallFailed, false, true, reloaded)
      modifies this
      ensures Valid() && calls == old(calls) + RollbackPlan(d, c, previous, bound, reloaded, a).calls
      ensures out == RollbackPlan(d, c, previous, bound, reloaded, a).report
    {
      out := start;
      if !bound {
        var ok := RemoveCert(c, a.undone);
        out := out.(rolledBack := ok);
        return;
      }
      if previous.None? {
        return;
      }
      var back := Bind(d.bind.value, previous.value, a.rebound);
      if !back {
        return;
      }
      out := out.(rolledBack := true);
      var _ := RemoveCert(c, a.undone);
      if reloaded {
        Reload(a.reloadedAgain);
      }
    }

    method Settle(d: Destination, c: CertId, previous: Option<CertId>, reloaded: bool,
                  a: Answers) returns (out: Report)
      requires Valid()
      modifies this
      ensures Valid() && calls == old(calls) + SettlePlan(d, c, previous, reloaded, a).calls
      ensures out == SettlePlan(d, c, previous, reloaded, a).report
    {
      SetFriendlyName(c, d.FriendlyName(), a.named);
      if previous.Some? && previous.value != c {
        var _ := RemoveCert(previous.value, a.retired);
      }
      out := Report(Installed, false, true, reloaded);
    }

    /** bindAndProve from its verify step on. */
    method VerifyAndSettle(d: Destination, c: CertId, previous: Option<CertId>, a: Answers)
      returns (out: Report)
      requires Valid()
      modifies this
      ensures Valid() && calls == old(calls) + VerifyPlan(d, c, previous, a).calls
      ensures out == VerifyPlan(d, c, previous, a).report
    {
      hide SettlePlan, RollbackPlan, Replay;
      if d.verify {
        var served := VerifyServed(a.probes);
        if !served {
          out := RollbackStore(d, c, previous, d.bind.Some?, d.reload, a,
                               Report(InstallFailed, false, true, d.reload));
          return;
        }
      }
      out := Settle(d, c, previous, d.reload, a);
    }

    /** bindAndProve from its reload step on. */
    method ReloadAndProve(d: Destination, c: CertId, previous: Option<CertId>, a: Answers)
      returns (out: Report)
      requires Valid()
      modifies this
      ensures Valid() && calls == old(calls) + ReloadPlan(d, c, previous, a).calls
      ensures out == ReloadPlan(d, c, previous, a).report
    {
      hide VerifyPlan, RollbackPlan, Replay;
      if d.reload {
        Reload(a.reloaded);
        if !a.reloaded {
          out := RollbackStore(d, c, previous, d.bind.Some?, false, a,
                               Report(InstallFailed, false, true, false));
          return;
        }
      }
      out := VerifyAndSettle(d, c, previous, a);
    }

    method BindAndProve(d: Destination, c: CertId, previous: Option<CertId>, a: Answers)
      returns (out: Report)
      requires Valid()
      modifies this
      ensures Valid() && calls == old(calls) + BindPlan(d, c, previous, a).calls
      ensures out == BindPlan(d, c, previous, a).report
    {
      hide ReloadPlan, RollbackPlan, Replay;
      if d.bind.Some? {
        var ok := Bind(d.bind.value, c, a.bound);
        if !ok {
          out := RollbackStore(d, c, previous, false, false, a,
                               Report(InstallFailed, false, true, false));
          return;
        }
      }
      out := ReloadAndProve(d, c, previous, a);
    }

    /** applyStore once the previous certificate is known. */
    method ImportAndProve(d: Destination, c: CertId, previous: Option<CertId>, force: bool, a: Answers)
      returns (out: Report)
      requires Valid()
      modifies this
      ensures Valid() && calls == old(calls) + ImportPlan(d, c, previous, force, a).calls
      ensures out == ImportPlan(d, c, previous, force, a).report
    {
      hide BindPlan;
      out := Report(InstallFailed, false, false, false);
      if previous == Some(c) && !force {
        return out.(status := Installed);
      }
      if !a.encodable {
        return;
      }
      ImportPfx(c, a.imported);
      match a.imported
      case ImportFailed(_, _) =>
        var _ := RemoveCert(c, a.cleanup);
      case Unlisted(_, _) =>
      case Listed(_) =>
        out := BindAndProve(d, c, previous, a);
    }

    /** Install one certificate into one store destination. */
    method ApplyStore(d: Destination, c: CertId, force: bool, a: Answers) returns (out: Report)
      requires Valid()
      modifies this
      ensures Valid()
      ensures calls == old(calls) + InstallPlan(old(Now()), d, c, force, a).calls
      ensures Now() == Replay(old(Now()), InstallPlan(old(Now()), d, c, force, a).calls)
      ensures out == InstallPlan(old(Now()), d, c, force, a).report
    {
      hide ImportPlan;
      ghost var before, plan := calls, InstallPlan(Now(), d, c, force, a);
      var readable, previous := ThumbprintNamed(d.store, d.FriendlyName(), a);
      if readable {
        out := ImportAndProve(d, c, previous, force, a);
      } else {
        out := Report(InstallFailed, false, false, false);
      }
      ReplayConcat(origin, before, plan.calls);
    }
  }
}
