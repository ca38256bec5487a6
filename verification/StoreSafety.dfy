/**
 No binding is ever left naming a certificate that is not there: exactly when one install keeps
 that, at every intermediate state, whatever its calls answer.
 */
module StoreSafety {
  import opened Prelude
  import opened StoreInstall

  ghost predicate NoDangling(h: Host) {
    forall e | e in h.bindings :: h.bindings[e] in h.certs
  }

  ghost predicate IsBound(h: Host, c: CertId) {
    exists e :: e in h.bindings && h.bindings[e] == c
  }

  /** Every state the calls pass through, the first and the last included, has no dangling binding. */
  ghost predicate AlwaysSafe(h: Host, calls: seq<Call>) {
    forall k | 0 <= k <= |calls| :: NoDangling(Replay(h, calls[..k]))
  }

  lemma {:induction false} SafeUnfold(h: Host, calls: seq<Call>)
    ensures AlwaysSafe(h, calls) <==>
            NoDangling(h) && (calls != [] ==> AlwaysSafe(Step(h, calls[0]), calls[1..]))
  {
    assert Replay(h, calls[..0]) == h;
    if calls != [] {
      var next, rest := Step(h, calls[0]), calls[1..];
      forall k | 1 <= k <= |calls|
        ensures Replay(h, calls[..k]) == Replay(next, rest[..k - 1])
      {
        assert calls[..k][0] == calls[0] && calls[..k][1..] == rest[..k - 1];
      }
      if AlwaysSafe(h, calls) {
        forall k | 0 <= k <= |rest| ensures NoDangling(Replay(next, rest[..k])) {
          assert NoDangling(Replay(h, calls[..k + 1]));
        }
      }
    }
  }

  lemma SafeAfter(h: Host, call: Call, rest: seq<Call>)
    ensures AlwaysSafe(h, [call] + rest) <==> NoDangling(h) && AlwaysSafe(Step(h, call), rest)
  {
    SafeUnfold(h, [call] + rest);
    assert ([call] + rest)[1..] == rest;
  }

  /** Up to three calls are safe if each of the states they lead to is. */
  lemma SafeShort(h: Host, calls: seq<Call>)
    requires |calls| <= 3 && NoDangling(h)
    requires |calls| > 0 ==> NoDangling(Step(h, calls[0]))
    requires |calls| > 1 ==> NoDangling(Step(Step(h, calls[0]), calls[1]))
    requires |calls| > 2 ==> NoDangling(Step(Step(Step(h, calls[0]), calls[1]), calls[2]))
    ensures AlwaysSafe(h, calls)
  {
    hide AlwaysSafe, NoDangling, Step;
    SafeUnfold(h, calls);
    if |calls| > 0 {
      var h1 := Step(h, calls[0]);
      SafeUnfold(h1, calls[1..]);
      if |calls| > 1 {
        var h2 := Step(h1, calls[1]);
        SafeUnfold(h2, calls[1..][1..]);
        if |calls| > 2 {
          SafeUnfold(Step(h2, calls[2]), calls[1..][1..][1..]);
        }
      }
    }
  }

  // ---------- What an install may start from ----------

  lemma {:induction false} FirstNamedFinds(h: Host, store: string, name: string, scan: seq<string>)
    ensures var f := FirstNamed(h, store, name, scan);
            && (f.Some? ==> f.value in h.certs && f.value.store == store && h.certs[f.value] == name)
            && (f.None? ==> forall t | t in scan :: CertId(store, t) in h.certs ==> h.certs[CertId(store, t)] != name)
  {
    if scan != [] {
      FirstNamedFinds(h, store, name, scan[1..]);
    }
  }

  /**
   What has to hold before the call. Either there is nothing to do, or
   no endpoint names the certificate about to be installed,
   no endpoint this destination does not re-point names the certificate it would replace, and
   a forced reinstall of the certificate last installed is not put to a reload or a verify.
   */
  ghost predicate Guard(h: Host, d: Destination, c: CertId, force: bool, previous: Option<CertId>) {
    || Quiet(c, previous, force)
    || (&& !IsBound(h, c)
        && (previous.Some? && previous.value != c ==>
              forall e | e in h.bindings && h.bindings[e] == previous.value :: d.bind == Some(e))
        && (previous == Some(c) && d.bind.Some? ==> !d.reload && !d.verify))
  }

  /** What holds once the certificate is imported and bound. */
  ghost predicate Ready(h: Host, d: Destination, c: CertId, previous: Option<CertId>) {
    && NoDangling(h)
    && c in h.certs
    && (previous.Some? ==> previous.value in h.certs)
    && (previous.Some? && previous.value != c ==> !IsBound(h, previous.value))
    && (forall e | e in h.bindings && h.bindings[e] == c :: d.bind == Some(e))
    && (previous == Some(c) && d.bind.Some? ==> !d.reload && !d.verify)
  }

  lemma TrueTail(call: Call, rest: seq<Call>, c: CertId)
    requires BindsAreTrue([call] + rest, c)
    ensures (call.RunBind? ==> BindIsTrue(call, c)) && BindsAreTrue(rest, c)
  {
    assert call in [call] + rest && forall x | x in rest :: x in [call] + rest;
  }

  lemma RollbackSafe(h: Host, d: Destination, c: CertId, previous: Option<CertId>, reloaded: bool, a: Answers)
    requires Ready(h, d, c, previous) && (d.bind.Some? ==> previous != Some(c))
    requires BindsAreTrue(RollbackPlan(d, c, previous, d.bind.Some?, reloaded, a).calls, c)
    ensures AlwaysSafe(h, RollbackPlan(d, c, previous, d.bind.Some?, reloaded, a).calls)
  {
    hide AlwaysSafe;
    SafeShort(h, RollbackPlan(d, c, previous, d.bind.Some?, reloaded, a).calls);
  }

  lemma SettleSafe(h: Host, d: Destination, c: CertId, previous: Option<CertId>, reloaded: bool, a: Answers)
    requires Ready(h, d, c, previous)
    ensures AlwaysSafe(h, SettlePlan(d, c, previous, reloaded, a).calls)
  {
    hide AlwaysSafe;
    SafeShort(h, SettlePlan(d, c, previous, reloaded, a).calls);
  }

  lemma ReadyToRollBack(h: Host, d: Destination, c: CertId, previous: Option<CertId>)
    requires Ready(h, d, c, previous)
    ensures NoDangling(h) && (d.bind.Some? && (d.reload || d.verify) ==> previous != Some(c))
  {
  }

  lemma VerifySafe(h: Host, d: Destination, c: CertId, previous: Option<CertId>, a: Answers)
    requires Ready(h, d, c, previous) && BindsAreTrue(VerifyPlan(d, c, previous, a).calls, c)
    ensures AlwaysSafe(h, VerifyPlan(d, c, previous, a).calls)
  {
    hide RollbackPlan, SettlePlan, Ready, AlwaysSafe, Answers.Served;
    var settled := SettlePlan(d, c, previous, d.reload, a).calls;
    assert [] + settled == settled;
    ReadyToRollBack(h, d, c, previous);
    if d.verify && !a.Served() {
      RollbackSafe(h, d, c, previous, d.reload, a);
      SafeAfter(h, Verify(false), RollbackPlan(d, c, previous, d.bind.Some?, d.reload, a).calls);
    } else {
      SettleSafe(h, d, c, previous, d.reload, a);
      SafeAfter(h, Verify(true), settled);
    }
  }

  lemma ReloadSafe(h: Host, d: Destination, c: CertId, previous: Option<CertId>, a: Answers)
    requires Ready(h, d, c, previous) && BindsAreTrue(ReloadPlan(d, c, previous, a).calls, c)
    ensures AlwaysSafe(h, ReloadPlan(d, c, previous, a).calls)
  {
    hide VerifyPlan, RollbackPlan, Ready, AlwaysSafe;
    var verified := VerifyPlan(d, c, previous, a).calls;
    assert [] + verified == verified;
    ReadyToRollBack(h, d, c, previous);
    if d.reload && !a.reloaded {
      RollbackSafe(h, d, c, previous, false, a);
      SafeAfter(h, RunReload(false), RollbackPlan(d, c, previous, d.bind.Some?, false, a).calls);
    } else {
      VerifySafe(h, d, c, previous, a);
      SafeAfter(h, RunReload(true), verified);
    }
  }

  /** Once the certificate is in the store and no endpoint names it, binding it is safe. */
  lemma BindSafe(h: Host, d: Destination, c: CertId, previous: Option<CertId>, a: Answers)
    requires NoDangling(h) && c in h.certs && Guard(h, d, c, true, previous)
    requires BindsAreTrue(BindPlan(d, c, previous, a).calls, c)
    requires previous.Some? ==> previous.value in h.certs
    ensures AlwaysSafe(h, BindPlan(d, c, previous, a).calls)
  {
    hide ReloadPlan, BindsAreTrue;
    if d.bind.None? {
      ReloadSafe(h, d, c, previous, a);
    } else {
      var call := RunBind(d.bind.value, c, a.bound);
      var h1 := Step(h, call);
      TrueTail(call, if a.bound.ok then ReloadPlan(d, c, previous, a).calls else [Remove(c, a.undone)], c);
      if a.bound.ok {
        ReloadSafe(h1, d, c, previous, a);
        SafeAfter(h, call, ReloadPlan(d, c, previous, a).calls);
      } else {
        var undo := [Remove(c, a.undone)];
        SafeUnfold(h, undo);
        SafeUnfold(Step(h, undo[0]), undo[1..]);
        SafeAfter(h, call, undo);
      }
    }
  }

  lemma ImportSafe(h: Host, d: Destination, c: CertId, previous: Option<CertId>, force: bool, a: Answers)
    requires NoDangling(h) && Guard(h, d, c, force, previous)
    requires BindsAreTrue(ImportPlan(d, c, previous, force, a).calls, c)
    requires previous.Some? ==> previous.value in h.certs
    ensures AlwaysSafe(h, ImportPlan(d, c, previous, force, a).calls)
  {
    hide BindPlan;
    SafeUnfold(h, []);
    if !Quiet(c, previous, force) && a.encodable {
      var call := Import(c, a.imported);
      var h1 := Step(h, call);
      SafeUnfold(h1, []);
      if a.imported.Listed? {
        BindSafe(h1, d, c, previous, a);
        SafeAfter(h, call, BindPlan(d, c, previous, a).calls);
      } else {
        var tidy := [Remove(c, a.cleanup)];
        SafeUnfold(h1, tidy);
        SafeUnfold(Step(h1, tidy[0]), tidy[1..]);
        SafeAfter(h, call, tidy);
        SafeAfter(h, call, []);
        assert [call, tidy[0]] == [call] + tidy && [call] == [call] + [];
      }
    }
  }

  /** An install that starts inside the guard, and whose bind commands say what they did, is safe
      throughout. */
  lemma InstallSafe(h: Host, d: Destination, c: CertId, force: bool, a: Answers)
    requires NoDangling(h) && BindsAreTrue(InstallPlan(h, d, c, force, a).calls, c)
    requires Guard(h, d, c, force, FirstNamed(h, d.store, d.FriendlyName(), a.scan))
    ensures AlwaysSafe(h, InstallPlan(h, d, c, force, a).calls)
  {
    hide ImportPlan;
    var read := Read(d.FriendlyName());
    var previous := FirstNamed(h, d.store, d.FriendlyName(), a.scan);
    FirstNamedFinds(h, d.store, d.FriendlyName(), a.scan);
    SafeUnfold(h, []);
    SafeAfter(h, read, []);
    assert [read] + [] == [read];
    if a.readable {
      assert InstallPlan(h, d, c, force, a).calls == [read] + ImportPlan(d, c, previous, force, a).calls;
      ImportSafe(h, d, c, previous, force, a);
      SafeAfter(h, read, ImportPlan(d, c, previous, force, a).calls);
    }
  }

  // ---------- The guard is exact ----------

  /** Everything works. */
  function Smooth(scan: seq<string>): Answers {
    Answers(true, scan, true, Listed(false), Done, BindOutcome(true, true), true, [true],
            Done, Done, BindOutcome(true, true), Done, true)
  }

  /** Answers that leave a binding dangling whenever the guard does not hold. */
  ghost function Worst(h: Host, d: Destination, c: CertId, previous: Option<CertId>, scan: seq<string>): Answers {
    if IsBound(h, c) then Smooth(scan).(imported := ImportFailed(false, false))
    else if previous == Some(c) then Smooth(scan).(reloaded := false, probes := [])
    else Smooth(scan)
  }

  lemma ReplayAfter(h: Host, call: Call, rest: seq<Call>)
    ensures Replay(h, [call] + rest) == Replay(Step(h, call), rest)
  {
    assert ([call] + rest)[1..] == rest;
  }

  lemma ReplayPair(h: Host, x: Call, y: Call)
    ensures Replay(h, [x, y]) == Step(Step(h, x), y)
  {
    assert [x, y] == [x] + [y] && [y] == [y] + [];
    ReplayAfter(h, x, [y]);
    ReplayAfter(Step(h, x), y, []);
  }

  /** A failed import of a certificate in use takes the certificate away. */
  lemma BoundImportDangles(h: Host, d: Destination, c: CertId, force: bool, a: Answers)
    requires NoDangling(h) && IsBound(h, c) && a.readable && a.encodable
    requires !Quiet(c, FirstNamed(h, d.store, d.FriendlyName(), a.scan), force)
    requires a.imported.ImportFailed? && a.cleanup.Done?
    ensures !NoDangling(Replay(h, InstallPlan(h, d, c, force, a).calls))
  {
    var calls := [Import(c, a.imported), Remove(c, a.cleanup)];
    ReplayAfter(h, Read(d.FriendlyName()), calls);
    ReplayPair(h, calls[0], calls[1]);
  }

  /** A forced reinstall that is then rolled back puts the binding back to the certificate it
      removes. */
  lemma ForcedRollbackDangles(h: Host, d: Destination, c: CertId, a: Answers)
    requires d.bind.Some? && (d.reload || d.verify)
    requires FirstNamed(h, d.store, d.FriendlyName(), a.scan) == Some(c)
    requires a == Smooth(a.scan).(reloaded := false, probes := [])
    ensures !NoDangling(Replay(h, InstallPlan(h, d, c, true, a).calls))
  {
    var e := d.bind.value;
    var read, add, bind := Read(d.FriendlyName()), Import(c, a.imported), RunBind(e, c, a.bound);
    var ask := if d.reload then RunReload(false) else Verify(false);
    var undo := [RunBind(e, c, a.rebound), Remove(c, a.undone)];
    var h1 := Step(Step(h, add), bind);
    assert BindPlan(d, c, Some(c), a).calls == [bind] + ([ask] + undo);
    ReplayAfter(h, read, [add] + ([bind] + ([ask] + undo)));
    ReplayAfter(h, add, [bind] + ([ask] + undo));
    ReplayAfter(Step(h, add), bind, [ask] + undo);
    ReplayAfter(h1, ask, undo);
    ReplayPair(h1, undo[0], undo[1]);
    assert e in Replay(h1, undo).bindings;
  }

  lemma SettledPlan(d: Destination, c: CertId, p: CertId, a: Answers)
    requires p != c && a == Smooth(a.scan)
    ensures BindPlan(d, c, Some(p), a).calls
            == (if d.bind.Some? then [RunBind(d.bind.value, c, a.bound)] else [])
               + ((if d.reload then [RunReload(true)] else []) + (if d.verify then [Verify(true)] else []))
               + [SetName(c, d.FriendlyName(), a.named), Remove(p, a.retired)]
  {
  }

  /** Settling removes the replaced certificate from under an endpoint that still names it. */
  lemma SettleStrands(h: Host, c: CertId, p: CertId, e: string, name: Call, remove: Call)
    requires p != c && e in h.bindings && h.bindings[e] == p
    requires name.SetName? && name.c == c && remove == Remove(p, Done)
    ensures !NoDangling(Replay(h, [name, remove]))
  {
    ReplayPair(h, name, remove);
    assert e in Step(Step(h, name), remove).bindings;
  }

  /** A settled install removes the certificate it replaces, whoever else is bound to it. */
  lemma SettledInstallDangles(h: Host, d: Destination, c: CertId, p: CertId, e: string, force: bool, a: Answers)
    requires FirstNamed(h, d.store, d.FriendlyName(), a.scan) == Some(p) && p != c
    requires e in h.bindings && h.bindings[e] == p && d.bind != Some(e)
    requires a == Smooth(a.scan)
    ensures !NoDangling(Replay(h, InstallPlan(h, d, c, force, a).calls))
  {
    var read, add := Read(d.FriendlyName()), Import(c, a.imported);
    var name, remove := SetName(c, d.FriendlyName(), a.named), Remove(p, a.retired);
    var asks := (if d.bind.Some? then [RunBind(d.bind.value, c, a.bound)] else [])
                + ((if d.reload then [RunReload(true)] else []) + (if d.verify then [Verify(true)] else []));
    SettledPlan(d, c, p, a);
    assert SameEndpoint(h, Step(h, add), e);
    hide BindPlan, FirstNamed, NoDangling, Replay, Step;
    ReplayAfter(h, read, [add] + (asks + [name, remove]));
    ReplayAfter(h, add, asks + [name, remove]);
    ReplayConcat(Step(h, add), asks, [name, remove]);
    EndpointUntouched(Step(h, add), asks, e);
    SettleStrands(Replay(Step(h, add), asks), c, p, e, name, remove);
  }

  /** Which answer a call carries. */
  predicate FromAnswers(call: Call, c: CertId, a: Answers) {
    match call
    case Import(x, imported) => x == c && imported == a.imported
    case Remove(_, effect) => effect == a.cleanup || effect == a.retired || effect == a.undone
    case SetName(_, _, effect) => effect == a.named
    case RunBind(_, _, outcome) => outcome == a.bound || outcome == a.rebound
    case RunReload(ok) => ok == a.reloaded || ok == a.reloadedAgain
    case Verify(ok) => ok == a.Served()
    case _ => true
  }

  predicate AllFrom(calls: seq<Call>, c: CertId, a: Answers) { forall call | call in calls :: FromAnswers(call, c, a) }

  lemma FromAfter(before: seq<Call>, calls: seq<Call>, c: CertId, a: Answers)
    requires AllFrom(before, c, a) && AllFrom(calls, c, a)
    ensures AllFrom(before + calls, c, a)
  {
    hide FromAnswers;
  }

  lemma EndingsFrom(d: Destination, c: CertId, previous: Option<CertId>, bound: bool, reloaded: bool, a: Answers)
    requires bound ==> d.bind.Some?
    ensures AllFrom(RollbackPlan(d, c, previous, bound, reloaded, a).calls, c, a)
    ensures AllFrom(SettlePlan(d, c, previous, reloaded, a).calls, c, a)
  {
    hide Answers.Served;
  }

  lemma ReloadFrom(d: Destination, c: CertId, previous: Option<CertId>, a: Answers)
    ensures AllFrom(ReloadPlan(d, c, previous, a).calls, c, a)
  {
    hide RollbackPlan, SettlePlan, AllFrom, Answers.Served;
    EndingsFrom(d, c, previous, d.bind.Some?, d.reload, a);
    EndingsFrom(d, c, previous, d.bind.Some?, false, a);
    AsksFrom(c, a);
    var verified, end := VerifyPlan(d, c, previous, a).calls,
        if d.verify && !a.Served() then RollbackPlan(d, c, previous, d.bind.Some?, d.reload, a).calls
        else SettlePlan(d, c, previous, d.reload, a).calls;
    FromAfter(if d.verify then [Verify(a.Served())] else [], end, c, a);
    FromAfter(if d.reload then [RunReload(a.reloaded)] else [],
              if d.reload && !a.reloaded then RollbackPlan(d, c, previous, d.bind.Some?, false, a).calls else verified, c, a);
  }

  lemma AsksFrom(c: CertId, a: Answers)
    ensures AllFrom([], c, a) && AllFrom([Verify(a.Served())], c, a) && AllFrom([RunReload(a.reloaded)], c, a)
  {
    hide Answers.Served;
  }

  /** Every call an install makes carries one of its answers. */
  lemma InstallFrom(h: Host, d: Destination, c: CertId, force: bool, a: Answers)
    ensures AllFrom(InstallPlan(h, d, c, force, a).calls, c, a)
  {
    hide FirstNamed, ReloadPlan, Answers.Served;
    ReloadFrom(d, c, FirstNamed(h, d.store, d.FriendlyName(), a.scan), a);
  }

  /** Honest answers make true binds. */
  lemma HonestBindsAreTrue(h: Host, d: Destination, c: CertId, force: bool, a: Answers)
    requires a.Honest()
    ensures BindsAreTrue(InstallPlan(h, d, c, force, a).calls, c)
  {
    hide InstallPlan;
    InstallFrom(h, d, c, force, a);
    assert forall call | call in InstallPlan(h, d, c, force, a).calls && call.RunBind? :: FromAnswers(call, c, a);
  }

  lemma OutsideTheGuard(h: Host, d: Destination, c: CertId, force: bool, scan: seq<string>)
    requires NoDangling(h)
    requires !Guard(h, d, c, force, FirstNamed(h, d.store, d.FriendlyName(), scan))
    ensures var a := Worst(h, d, c, FirstNamed(h, d.store, d.FriendlyName(), scan), scan);
            a.Honest() && !NoDangling(Replay(h, InstallPlan(h, d, c, force, a).calls))
  {
    hide InstallPlan;
    var previous := FirstNamed(h, d.store, d.FriendlyName(), scan);
    var a := Worst(h, d, c, previous, scan);
    if IsBound(h, c) {
      BoundImportDangles(h, d, c, force, a);
    } else if previous == Some(c) {
      ForcedRollbackDangles(h, d, c, a);
    } else {
      var e :| e in h.bindings && h.bindings[e] == previous.value && d.bind != Some(e);
      SettledInstallDangles(h, d, c, previous.value, e, force, a);
    }
  }

  /**
   Main result for one install. Over all answers whose bind commands say what they did, an install
   passes through no state with a dangling binding if and only if the guard holds when it starts.
   */
  lemma SafeExactlyInsideTheGuard(h: Host, d: Destination, c: CertId, force: bool, scan: seq<string>)
    requires NoDangling(h)
    ensures (forall a: Answers | a.scan == scan && BindsAreTrue(InstallPlan(h, d, c, force, a).calls, c) ::
               AlwaysSafe(h, InstallPlan(h, d, c, force, a).calls))
            <==> Guard(h, d, c, force, FirstNamed(h, d.store, d.FriendlyName(), scan))
  {
    hide InstallPlan;
    var previous := FirstNamed(h, d.store, d.FriendlyName(), scan);
    if Guard(h, d, c, force, previous) {
      forall a: Answers | a.scan == scan && BindsAreTrue(InstallPlan(h, d, c, force, a).calls, c)
        ensures AlwaysSafe(h, InstallPlan(h, d, c, force, a).calls)
      {
        InstallSafe(h, d, c, force, a);
      }
    } else {
      var a := Worst(h, d, c, previous, scan);
      OutsideTheGuard(h, d, c, force, scan);
      var calls := InstallPlan(h, d, c, force, a).calls;
      assert calls[..|calls|] == calls;
      HonestBindsAreTrue(h, d, c, force, a);
      assert a.scan == scan && !AlwaysSafe(h, calls);
    }
  }
}
