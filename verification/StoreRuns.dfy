/**
 No binding dangles over whole runs of installs: the hypotheses under which that holds, whatever else
 fails, and whoever else re-points an endpoint in between.
 */
module StoreRuns {
  import opened Prelude
  import opened StoreInstall
  import opened StoreSafety
  import opened StoreReports

  /** One install of a run: what is installed where, and what its calls answer. */
  datatype Install = Install(d: Destination, c: CertId, force: bool, a: Answers)
  {
    function Calls(h: Host): seq<Call> { InstallPlan(h, d, c, force, a).calls }

    function Previous(h: Host): Option<CertId> { FirstNamed(h, d.store, d.FriendlyName(), a.scan) }

    /** It gets past reading: there is something to do and it can be done. */
    predicate Acts(h: Host) { a.readable && a.encodable && !Quiet(c, Previous(h), force) }
  }

  /** What happens to a host: an install, or somebody else re-pointing or unbinding an endpoint. */
  datatype Event = Do(x: Install) | Repoint(endpoint: string, c: CertId) | Unbind(endpoint: string)
  {
    function After(h: Host): Host {
      match this
      case Do(x) => Replay(h, x.Calls(h))
      case Repoint(e, c) => h.(bindings := h.bindings[e := c])
      case Unbind(e) => h.(bindings := h.bindings - {e})
    }

    /** Every state an install passes through is without dangling bindings. */
    ghost predicate Safe(h: Host) { Do? ==> AlwaysSafe(h, x.Calls(h)) }
  }

  function AfterRun(h: Host, run: seq<Event>): Host
    decreases |run|
  {
    if run == [] then h else AfterRun(run[0].After(h), run[1..])
  }

  /** Every state of the run is without dangling bindings. */
  ghost predicate RunSafe(h: Host, run: seq<Event>)
    decreases |run|
  {
    NoDangling(h) && (run != [] ==> run[0].Safe(h) && RunSafe(run[0].After(h), run[1..]))
  }

  // ---------- The estate and the hypotheses ----------

  /** The destinations of a host by name, and the destination each certificate belongs to. */
  datatype Estate = Estate(destinations: map<string, Destination>, owner: map<CertId, string>)
  {
    ghost predicate Valid() {
      && (forall n | n in destinations :: destinations[n].name == n)
      && (forall c | c in owner :: owner[c] in destinations && destinations[owner[c]].store == c.store)
    }

    /** The install is one of this estate's. */
    ghost predicate Declares(x: Install) {
      && x.d.name in destinations && destinations[x.d.name] == x.d
      && x.c.store == x.d.store
    }

    ghost predicate Knows(event: Event) { event.Do? ==> Declares(event.x) }

    /** What every install of a well-behaved run finds: each destination has marked at most one
        certificate of its store, its own; and a binding that names one of the estate's certificates
        names a marked one, at the endpoint of the destination that marked it. A binding may name
        anything else that is there, destinations may share an endpoint, and another store may hold
        certificates marked before. */
    ghost predicate Kept(h: Host) {
      && NoDangling(h)
      && (forall n | n in destinations :: Tidy(h, n))
      && (forall e | e in h.bindings :: Sound(h, e))
    }

    ghost predicate Tidy(h: Host, n: string)
      requires n in destinations
    {
      forall c | Marked(h, n, c) :: OnlyMark(h, n, c)
    }

    ghost predicate OnlyMark(h: Host, n: string, c: CertId)
      requires n in destinations
    {
      && c in owner && owner[c] == n
      && (forall c' | Marked(h, n, c') :: c' == c)
    }

    ghost predicate Sound(h: Host, e: string)
      requires e in h.bindings
    {
      h.bindings[e] in owner ==> MarkedAt(h, e, h.bindings[e])
    }

    ghost predicate Marked(h: Host, n: string, c: CertId)
      requires n in destinations
    {
      destinations[n].Marks(h, c)
    }

    ghost predicate MarkedAt(h: Host, e: string, c: CertId)
      requires c in owner
    {
      && owner[c] in destinations && Marked(h, owner[c], c)
      && (destinations[owner[c]].bind.None? || destinations[owner[c]].bind == Some(e))
    }
  }

  /** What is supposed of each event. The first three and the ninth are about what an install starts
      from; the fourth to the eighth about the calls it makes, so a call that is not made need not
      work; and the last about what somebody else does. */
  datatype Hypothesis =
    | UnboundPredecessor | NewIsNotMarked | OwnCertificate
    | TrueBinds | NamingWorks | RetiringWorks | FirstInstallProves | RebindWorks
    | ReadsTheMarks | OthersBindMarked

  ghost predicate Holds(hyp: Hypothesis, estate: Estate, h: Host, event: Event) {
    match event
    case Do(x) => InstallHolds(hyp, estate, h, x)
    case Repoint(e, c) =>
      // Somebody else re-points an endpoint to what is there and, if it is the estate's, marked for it.
      hyp == OthersBindMarked ==> c in h.certs && (c in estate.owner ==> estate.MarkedAt(h, e, c))
    case Unbind(_) => true
  }

  ghost predicate InstallHolds(hyp: Hypothesis, estate: Estate, h: Host, x: Install) {
    var previous, calls := x.Previous(h), x.Calls(h);
    match hyp
    case UnboundPredecessor =>
      // Without a bind command of its own, it replaces no certificate an endpoint names.
      x.Acts(h) && x.d.bind.None? ==> forall e | e in h.bindings :: previous != Some(h.bindings[e])
    case NewIsNotMarked =>
      // Not a forced reinstall of the very certificate that is marked.
      x.Acts(h) ==> previous != Some(x.c)
    case OwnCertificate => x.Acts(h) ==> x.c in estate.owner && estate.owner[x.c] == x.d.name
    case ReadsTheMarks =>
      x.Acts(h) ==> forall c | x.d.Marks(h, c) :: c.thumb in x.a.scan
    case OthersBindMarked => true
    case _ => forall call | call in calls :: CallHolds(hyp, x.d, x.c, previous, call)
  }

  /** The hypotheses about calls, for one call of an install. */
  predicate CallHolds(hyp: Hypothesis, d: Destination, c: CertId, previous: Option<CertId>, call: Call) {
    match (hyp, call)
    case (TrueBinds, RunBind(_, _, _)) => BindIsTrue(call, c)
    case (NamingWorks, SetName(_, _, effect)) => d.bind.Some? ==> effect.Happened()
    case (RetiringWorks, Remove(x, effect)) => previous == Some(x) ==> effect.Happened()
    case (FirstInstallProves, RunReload(ok)) => d.bind.Some? && previous.None? ==> ok
    case (FirstInstallProves, Verify(ok)) => d.bind.Some? && previous.None? ==> ok
    case (RebindWorks, RunBind(_, x, outcome)) => previous == Some(x) ==> outcome.ok
    case _ => true
  }

  /** Every event of the run is the estate's, and meets every hypothesis but the ones excepted. */
  ghost predicate RunMeets(estate: Estate, h: Host, run: seq<Event>, except: set<Hypothesis>)
    decreases |run|
  {
    run != [] ==>
      && estate.Knows(run[0])
      && (forall hyp | hyp !in except :: Holds(hyp, estate, h, run[0]))
      && RunMeets(estate, run[0].After(h), run[1..], except)
  }

  // ---------- One install keeps the invariant ----------

  lemma FriendlyNamesDiffer(d: Destination, e: Destination)
    requires d.FriendlyName() == e.FriendlyName()
    ensures d.name == e.name
  {
    assert d.name == d.FriendlyName()[11..];
    assert e.name == e.FriendlyName()[11..];
  }

  lemma FriendlyNameNotEmpty(d: Destination)
    ensures d.FriendlyName() != ""
  {
    assert d.FriendlyName()[0] == 'C';
  }

  /** The certificate read as the previous one is the marked one, and if the endpoint already
      names what is to be installed there is nothing to do. */
  lemma ReadsTheMark(estate: Estate, h: Host, x: Install)
    requires estate.Valid() && estate.Kept(h) && estate.Declares(x) && x.Acts(h)
    requires InstallHolds(OwnCertificate, estate, h, x) && InstallHolds(ReadsTheMarks, estate, h, x)
    ensures var p := x.Previous(h);
            && (p.Some? ==> estate.Marked(h, x.d.name, p.value))
            && (forall c | estate.Marked(h, x.d.name, c) :: p == Some(c))
            && (IsBound(h, x.c) ==> p == Some(x.c))
  {
    var p := x.Previous(h);
    FirstNamedFinds(h, x.d.store, x.d.FriendlyName(), x.a.scan);
    forall c | estate.Marked(h, x.d.name, c) ensures p == Some(c) {
      assert estate.OnlyMark(h, x.d.name, c);
      assert p.Some? ==> estate.Marked(h, x.d.name, p.value);
      assert c == CertId(x.d.store, c.thumb) && c.thumb in x.a.scan;
    }
    if IsBound(h, x.c) {
      var e :| e in h.bindings && h.bindings[e] == x.c;
      assert estate.MarkedAt(h, e, x.c);
    }
  }

  /** The certificate is there and the destination's own, nothing names it and nothing marks it; and
      `previous` is what the destination has marked. */
  ghost predicate Fresh(estate: Estate, h: Host, d: Destination, c: CertId, previous: Option<CertId>) {
    && estate.Valid() && estate.Kept(h) && d.name in estate.destinations && estate.destinations[d.name] == d
    && c in h.certs && c in estate.owner && estate.owner[c] == d.name
    && !IsBound(h, c) && Unmarked(estate, h, c)
    && (forall c' :: estate.Marked(h, d.name, c') <==> previous == Some(c'))
  }

  /** Kept, except that the endpoint of `d` has moved on to `c`, which carries no mark yet. */
  ghost predicate Moved(estate: Estate, h: Host, d: Destination, c: CertId, previous: Option<CertId>)
  {
    && estate.Valid() && d.name in estate.destinations && estate.destinations[d.name] == d
    && d.bind.Some?
    && NoDangling(h) && c in h.certs && c in estate.owner && estate.owner[c] == d.name
    && Unmarked(estate, h, c)
    && d.bind.value in h.bindings && h.bindings[d.bind.value] == c
    && (forall c' :: estate.Marked(h, d.name, c') <==> previous == Some(c'))
    && (previous.Some? ==> previous.value in estate.owner && estate.owner[previous.value] == d.name)
    && (forall n | n in estate.destinations && n != d.name :: estate.Tidy(h, n))
    && (forall e | e in h.bindings && e != d.bind.value ::
          estate.Sound(h, e) && h.bindings[e] != c && previous != Some(h.bindings[e]))
  }

  ghost predicate Unmarked(estate: Estate, h: Host, c: CertId) {
    forall n | n in estate.destinations :: !estate.Marked(h, n, c)
  }

  /** Two hosts agree on which certificates carry a destination's mark. */
  ghost predicate SameMarks(estate: Estate, h: Host, h': Host, n: string)
    requires n in estate.destinations
  {
    forall c :: estate.Marked(h', n, c) <==> estate.Marked(h, n, c)
  }

  lemma TidyCarriesOver(estate: Estate, h: Host, h': Host, n: string)
    requires n in estate.destinations && SameMarks(estate, h, h', n) && estate.Tidy(h, n)
    ensures estate.Tidy(h', n)
  {
    forall c | estate.Marked(h', n, c) ensures estate.OnlyMark(h', n, c) {
      assert estate.OnlyMark(h, n, c);
    }
  }

  lemma BindMoves(estate: Estate, h: Host, d: Destination, c: CertId, previous: Option<CertId>, outcome: BindOutcome)
    requires Fresh(estate, h, d, c, previous) && d.bind.Some? && outcome.repointed
    ensures Moved(estate, Step(h, RunBind(d.bind.value, c, outcome)), d, c, previous)
  {
    var h1 := Step(h, RunBind(d.bind.value, c, outcome));
    assert previous.Some? ==> estate.Marked(h, d.name, previous.value);
    assert previous.Some? ==> estate.OnlyMark(h, d.name, previous.value);
    forall n | n in estate.destinations && n != d.name ensures estate.Tidy(h1, n) {
      assert SameMarks(estate, h, h1, n);
      TidyCarriesOver(estate, h, h1, n);
    }
    forall e | e in h1.bindings && e != d.bind.value
      ensures estate.Sound(h1, e) && h1.bindings[e] != c && previous != Some(h1.bindings[e])
    {
      assert estate.Sound(h, e);
    }
  }

  lemma RollbackKeeps(estate: Estate, h: Host, d: Destination, c: CertId, p: CertId, undone: Effect, outcome: BindOutcome)
    requires Moved(estate, h, d, c, Some(p)) && outcome.repointed
    ensures estate.Kept(Step(Step(h, RunBind(d.bind.value, p, outcome)), Remove(c, undone)))
  {
    var h2 := Step(Step(h, RunBind(d.bind.value, p, outcome)), Remove(c, undone));
    assert estate.Marked(h, d.name, p);
    forall n | n in estate.destinations ensures estate.Tidy(h2, n) {
      assert forall c' :: estate.Marked(h2, n, c') ==> estate.Marked(h, n, c');
      if n == d.name {
        assert estate.OnlyMark(h2, n, p);
      } else {
        assert SameMarks(estate, h, h2, n);
        TidyCarriesOver(estate, h, h2, n);
      }
    }
    forall e | e in h2.bindings ensures estate.Sound(h2, e) {
      if e != d.bind.value { assert estate.Sound(h, e); }
    }
  }

  lemma SettleKeeps(estate: Estate, h: Host, d: Destination, c: CertId, previous: Option<CertId>, named: Effect, retired: Effect)
    requires Moved(estate, h, d, c, previous) && previous != Some(c)
    requires named.Happened() && (previous.Some? ==> retired.Happened())
    ensures estate.Kept(SettledHost(h, d, c, previous, named, retired))
  {
    var h2 := SettledHost(h, d, c, previous, named, retired);
    assert previous.Some? ==> estate.Marked(h, d.name, previous.value);
    forall n | n in estate.destinations ensures estate.Tidy(h2, n) {
      if n == d.name {
        assert forall c' | estate.Marked(h2, n, c') :: c' == c || estate.Marked(h, n, c');
        assert estate.OnlyMark(h2, n, c);
      } else {
        SettleElsewhere(estate, h, d, c, previous, named, retired, n);
        TidyCarriesOver(estate, h, h2, n);
      }
    }
    forall e | e in h2.bindings ensures estate.Sound(h2, e) {
      if e != d.bind.value { assert estate.Sound(h, e); }
    }
  }

  lemma SettleElsewhere(estate: Estate, h: Host, d: Destination, c: CertId, previous: Option<CertId>,
                        named: Effect, retired: Effect, n: string)
    requires estate.Valid() && d.name in estate.destinations && estate.destinations[d.name] == d
    requires n in estate.destinations && n != d.name && !estate.Marked(h, n, c)
    requires previous.Some? ==> estate.Marked(h, d.name, previous.value)
    ensures SameMarks(estate, h, SettledHost(h, d, c, previous, named, retired), n)
  {
    if d.FriendlyName() == estate.destinations[n].FriendlyName() {
      FriendlyNamesDiffer(d, estate.destinations[n]);
    }
  }

  /** Settling without a bind command, where nothing names the certificate that is replaced. */
  lemma UnboundSettleKeeps(estate: Estate, h: Host, d: Destination, c: CertId, previous: Option<CertId>, named: Effect, retired: Effect)
    requires Fresh(estate, h, d, c, previous) && previous != Some(c)
    requires previous.Some? ==> retired.Happened() && !IsBound(h, previous.value)
    ensures estate.Kept(SettledHost(h, d, c, previous, named, retired))
  {
    var h2 := SettledHost(h, d, c, previous, named, retired);
    assert previous.Some? ==> estate.Marked(h, d.name, previous.value);
    forall n | n in estate.destinations ensures estate.Tidy(h2, n) {
      if n == d.name {
        assert forall c' | estate.Marked(h2, n, c') :: c' == c || estate.Marked(h, n, c');
      } else {
        SettleElsewhere(estate, h, d, c, previous, named, retired, n);
        TidyCarriesOver(estate, h, h2, n);
      }
    }
    forall e | e in h2.bindings ensures estate.Sound(h2, e) {
      assert estate.Sound(h, e) && h.bindings[e] != c && previous != Some(h.bindings[e]);
    }
  }

  /** A call on a certificate that is neither bound nor marked keeps the invariant. */
  lemma UnusedKeeps(estate: Estate, h: Host, c: CertId, call: Call)
    requires estate.Kept(h) && !IsBound(h, c) && Unmarked(estate, h, c)
    requires call.Import? || call.Remove?
    requires call.c == c
    ensures estate.Kept(Step(h, call)) && !IsBound(Step(h, call), c) && Unmarked(estate, Step(h, call), c)
  {
    var h1 := Step(h, call);
    forall n | n in estate.destinations
      ensures estate.Tidy(h1, n) && !estate.Marked(h1, n, c)
    {
      FriendlyNameNotEmpty(estate.destinations[n]);
      assert SameMarks(estate, h, h1, n);
      TidyCarriesOver(estate, h, h1, n);
    }
    forall e | e in h1.bindings ensures estate.Sound(h1, e) {
      assert estate.Sound(h, e);
    }
  }

  /** The hypotheses on one install, put together. */
  ghost predicate Behaves(estate: Estate, h: Host, x: Install) {
    estate.Declares(x) && forall hyp :: InstallHolds(hyp, estate, h, x)
  }

  /** The hypotheses on the calls of an install, put together. */
  predicate AllHold(calls: seq<Call>, d: Destination, c: CertId, previous: Option<CertId>) {
    forall call, hyp | call in calls :: CallHolds(hyp, d, c, previous, call)
  }

  lemma CallsBehave(estate: Estate, h: Host, x: Install)
    requires Behaves(estate, h, x)
    ensures AllHold(x.Calls(h), x.d, x.c, x.Previous(h)) && BindsAreTrue(x.Calls(h), x.c)
  {
    hide InstallPlan, FirstNamed;
    var calls, previous := x.Calls(h), x.Previous(h);
    forall call, hyp | call in calls ensures CallHolds(hyp, x.d, x.c, previous, call) {
      assert InstallHolds(hyp, estate, h, x);
    }
    forall call | call in calls && call.RunBind? ensures BindIsTrue(call, x.c) {
      assert CallHolds(TrueBinds, x.d, x.c, previous, call);
    }
  }

  lemma ActingIsFresh(estate: Estate, h: Host, x: Install)
    requires estate.Valid() && estate.Kept(h) && Behaves(estate, h, x) && x.Acts(h)
    ensures !IsBound(h, x.c) && Unmarked(estate, h, x.c) && x.Previous(h) != Some(x.c)
    ensures x.c in estate.owner && estate.owner[x.c] == x.d.name
    ensures forall c :: estate.Marked(h, x.d.name, c) <==> x.Previous(h) == Some(c)
    ensures x.d.bind.None? ==> forall e | e in h.bindings :: x.Previous(h) != Some(h.bindings[e])
  {
    hide InstallPlan, FirstNamed, Quiet;
    assert InstallHolds(NewIsNotMarked, estate, h, x) && InstallHolds(UnboundPredecessor, estate, h, x);
    assert InstallHolds(OwnCertificate, estate, h, x) && InstallHolds(ReadsTheMarks, estate, h, x);
    ReadsTheMark(estate, h, x);
    forall n | n in estate.destinations ensures !estate.Marked(h, n, x.c) {
      assert estate.Marked(h, n, x.c) ==> estate.OnlyMark(h, n, x.c);
    }
  }

  lemma GuardHolds(estate: Estate, h: Host, x: Install)
    requires estate.Valid() && estate.Kept(h) && Behaves(estate, h, x) && x.Acts(h)
    ensures Guard(h, x.d, x.c, x.force, x.Previous(h))
  {
    hide FirstNamed, Quiet;
    ActingIsFresh(estate, h, x);
    var p := x.Previous(h);
    if p.Some? {
      assert estate.Marked(h, x.d.name, p.value) && estate.OnlyMark(h, x.d.name, p.value);
      forall e | e in h.bindings && h.bindings[e] == p.value ensures x.d.bind == Some(e) {
        assert estate.Sound(h, e);
      }
    }
  }

  lemma HoldTail(a: seq<Call>, b: seq<Call>, d: Destination, c: CertId, previous: Option<CertId>)
    requires AllHold(a + b, d, c, previous)
    ensures AllHold(a, d, c, previous) && AllHold(b, d, c, previous)
  {
    hide CallHolds;
    assert forall call | call in a :: call in a + b;
    assert forall call | call in b :: call in a + b;
  }

  /** The part of an install that follows the bind command ends in a kept state. */
  lemma ReloadKeeps(estate: Estate, h: Host, d: Destination, c: CertId, previous: Option<CertId>, a: Answers)
    requires Moved(estate, h, d, c, previous) && AllHold(ReloadPlan(d, c, previous, a).calls, d, c, previous)
    ensures estate.Kept(Replay(h, ReloadPlan(d, c, previous, a).calls))
  {
    hide ReloadPlan, Replay, AllHold, Answers.Served;
    assert !estate.Marked(h, d.name, c);
    ReloadEnds(h, d, c, previous, a);
    ReloadSplits(d, c, previous, a);
    HoldTail(AsksOf(d, a), Ending(d, c, previous, a).calls, d, c, previous);
    if (d.reload && !a.reloaded) || (d.verify && !a.Served()) {
      MovedRollbackKeeps(estate, h, d, c, previous, a);
    } else {
      MovedSettleKeeps(estate, h, d, c, previous, a);
    }
  }

  lemma MovedRollbackKeeps(estate: Estate, h: Host, d: Destination, c: CertId, previous: Option<CertId>, a: Answers)
    requires Moved(estate, h, d, c, previous)
    requires (d.reload && !a.reloaded) || (d.verify && !a.Served())
    requires AllHold(AsksOf(d, a), d, c, previous) && AllHold(Ending(d, c, previous, a).calls, d, c, previous)
    ensures estate.Kept(Replay(h, Ending(d, c, previous, a).calls))
  {
    hide Replay, Answers.Served;
    var ask := if d.reload && !a.reloaded then RunReload(false) else Verify(false);
    assert ask in AsksOf(d, a) && CallHolds(FirstInstallProves, d, c, previous, ask);
    var end := Ending(d, c, previous, a).calls;
    var rebind := RunBind(d.bind.value, previous.value, a.rebound);
    assert end[0] == rebind && rebind in end;
    assert CallHolds(RebindWorks, d, c, previous, rebind) && CallHolds(TrueBinds, d, c, previous, rebind);
    ReplayShort(h, end);
    RollbackKeeps(estate, h, d, c, previous.value, a.undone, a.rebound);
  }

  lemma MovedSettleKeeps(estate: Estate, h: Host, d: Destination, c: CertId, previous: Option<CertId>, a: Answers)
    requires Moved(estate, h, d, c, previous) && previous != Some(c)
    requires Ending(d, c, previous, a) == SettlePlan(d, c, previous, d.reload, a)
    requires AllHold(SettlePlan(d, c, previous, d.reload, a).calls, d, c, previous)
    ensures estate.Kept(Replay(h, Ending(d, c, previous, a).calls))
  {
    hide Replay, Ending;
    SettleHolds(d, c, previous, a);
    SettleEnds(h, d, c, previous, a);
    SettleKeeps(estate, h, d, c, previous, a.named, a.retired);
  }

  lemma SettleHolds(d: Destination, c: CertId, previous: Option<CertId>, a: Answers)
    requires previous != Some(c) && AllHold(SettlePlan(d, c, previous, d.reload, a).calls, d, c, previous)
    ensures (d.bind.Some? ==> a.named.Happened()) && (previous.Some? ==> a.retired.Happened())
  {
    var calls := SettlePlan(d, c, previous, d.reload, a).calls;
    assert calls[0] in calls && CallHolds(NamingWorks, d, c, previous, calls[0]);
    if previous.Some? {
      assert calls[1] in calls && CallHolds(RetiringWorks, d, c, previous, calls[1]);
    }
  }

  /** The same part without a bind command. */
  lemma UnboundKeeps(estate: Estate, h: Host, d: Destination, c: CertId, previous: Option<CertId>, a: Answers)
    requires Fresh(estate, h, d, c, previous) && d.bind.None? && previous != Some(c)
    requires forall e | e in h.bindings :: previous != Some(h.bindings[e])
    requires AllHold(ReloadPlan(d, c, previous, a).calls, d, c, previous)
    ensures estate.Kept(Replay(h, ReloadPlan(d, c, previous, a).calls))
  {
    hide ReloadPlan, Replay, AllHold, Answers.Served;
    ReloadEnds(h, d, c, previous, a);
    ReloadSplits(d, c, previous, a);
    HoldTail(AsksOf(d, a), Ending(d, c, previous, a).calls, d, c, previous);
    if (d.reload && !a.reloaded) || (d.verify && !a.Served()) {
      ReplayShort(h, Ending(d, c, previous, a).calls);
      UnusedKeeps(estate, h, c, Remove(c, a.undone));
    } else {
      SettleHolds(d, c, previous, a);
      SettleEnds(h, d, c, previous, a);
      UnboundSettleKeeps(estate, h, d, c, previous, a.named, a.retired);
    }
  }

  lemma BindKeeps(estate: Estate, h: Host, d: Destination, c: CertId, previous: Option<CertId>, a: Answers)
    requires Fresh(estate, h, d, c, previous) && previous != Some(c)
    requires d.bind.None? ==> forall e | e in h.bindings :: previous != Some(h.bindings[e])
    requires AllHold(BindPlan(d, c, previous, a).calls, d, c, previous)
    ensures estate.Kept(Replay(h, BindPlan(d, c, previous, a).calls))
  {
    hide ReloadPlan, AllHold, Replay;
    match d.bind
    case None => UnboundKeeps(estate, h, d, c, previous, a);
    case Some(e) =>
      var call := RunBind(e, c, a.bound);
      var rest := if a.bound.ok then ReloadPlan(d, c, previous, a).calls else [Remove(c, a.undone)];
      HoldTail([call], rest, d, c, previous);
      BindHolds(call, d, c, previous);
      ReplayAfter(h, call, rest);
      if a.bound.ok {
        BindMoves(estate, h, d, c, previous, a.bound);
        ReloadKeeps(estate, Step(h, call), d, c, previous, a);
      } else {
        UnusedKeeps(estate, h, c, Remove(c, a.undone));
        OneCall(h, Remove(c, a.undone));
      }
  }

  lemma BindHolds(call: Call, d: Destination, c: CertId, previous: Option<CertId>)
    requires call.RunBind? && call.c == c && AllHold([call], d, c, previous)
    ensures call.outcome.ok <==> call.outcome.repointed
  {
    assert CallHolds(TrueBinds, d, c, previous, call);
  }

  lemma OneCall(h: Host, call: Call)
    ensures Replay(h, [call]) == Step(h, call)
  {
    ReplayAfter(h, call, []);
    assert [call] + [] == [call];
  }

  lemma InstallKeeps(estate: Estate, h: Host, x: Install)
    requires estate.Valid() && estate.Kept(h) && Behaves(estate, h, x)
    ensures estate.Kept(Replay(h, x.Calls(h)))
  {
    hide BindPlan, Behaves, AllHold, FirstNamed, Replay;
    var read := Read(x.d.FriendlyName());
    var previous := x.Previous(h);
    if x.Acts(h) {
      ActingIsFresh(estate, h, x);
      CallsBehave(estate, h, x);
      var add := Import(x.c, x.a.imported);
      var h1 := Step(h, add);
      UnusedKeeps(estate, h, x.c, add);
      if x.a.imported.Listed? {
        var rest := BindPlan(x.d, x.c, previous, x.a).calls;
        assert x.Calls(h) == [read] + ([add] + rest) == [read, add] + rest;
        HoldTail([read, add], rest, x.d, x.c, previous);
        ImportedIsFresh(estate, h, x);
        BindKeeps(estate, h1, x.d, x.c, previous, x.a);
        ReplayAfter(h, read, [add] + rest);
        ReplayAfter(h, add, rest);
      } else if x.a.imported.ImportFailed? {
        var tidy := Remove(x.c, x.a.cleanup);
        UnusedKeeps(estate, h1, x.c, tidy);
        ReplayAfter(h, read, [add, tidy]);
        ReplayPair(h, add, tidy);
      } else {
        assert x.Calls(h) == [read, add];
        ReplayPair(h, read, add);
      }
    } else {
      assert x.Calls(h) == [read];
      OneCall(h, read);
    }
  }

  /** Importing an unmarked certificate changes no mark. */
  lemma ImportedIsFresh(estate: Estate, h: Host, x: Install)
    requires estate.Valid() && estate.Kept(h) && Behaves(estate, h, x) && x.Acts(h) && x.a.imported.Listed?
    ensures Fresh(estate, Step(h, Import(x.c, x.a.imported)), x.d, x.c, x.Previous(h))
  {
    hide InstallPlan, FirstNamed, InstallHolds;
    ActingIsFresh(estate, h, x);
    var h1 := Step(h, Import(x.c, x.a.imported));
    UnusedKeeps(estate, h, x.c, Import(x.c, x.a.imported));
    assert forall c | c != x.c :: estate.Marked(h1, x.d.name, c) <==> estate.Marked(h, x.d.name, c);
    assert !estate.Marked(h, x.d.name, x.c) && !estate.Marked(h1, x.d.name, x.c);
  }

  // ---------- Main results over runs ----------

  lemma OthersKeep(estate: Estate, h: Host, event: Event)
    requires estate.Kept(h) && !event.Do? && Holds(OthersBindMarked, estate, h, event)
    ensures estate.Kept(event.After(h))
  {
    var h1 := event.After(h);
    forall n | n in estate.destinations ensures estate.Tidy(h1, n) {
      assert SameMarks(estate, h, h1, n);
      TidyCarriesOver(estate, h, h1, n);
    }
    forall e | e in h1.bindings ensures estate.Sound(h1, e) {
      if !(event.Repoint? && event.endpoint == e) { assert estate.Sound(h, e); }
    }
  }

  lemma EventKeeps(estate: Estate, h: Host, event: Event)
    requires estate.Valid() && estate.Kept(h) && estate.Knows(event) && forall hyp :: Holds(hyp, estate, h, event)
    ensures event.Safe(h) && estate.Kept(event.After(h))
  {
    hide InstallPlan, FirstNamed, Replay, InstallHolds, AlwaysSafe;
    match event
    case Do(x) =>
      assert forall hyp :: InstallHolds(hyp, estate, h, x) <==> Holds(hyp, estate, h, event);
      CallsBehave(estate, h, x);
      InstallKeeps(estate, h, x);
      if x.Acts(h) {
        GuardHolds(estate, h, x);
        InstallSafe(h, x.d, x.c, x.force, x.a);
      } else {
        IdleIsSafe(h, x);
      }
    case _ => OthersKeep(estate, h, event);
  }

  lemma IdleIsSafe(h: Host, x: Install)
    requires NoDangling(h) && !x.Acts(h)
    ensures AlwaysSafe(h, x.Calls(h))
  {
    hide FirstNamed, AlwaysSafe;
    assert x.Calls(h) == [Read(x.d.FriendlyName())];
    SafeShort(h, x.Calls(h));
  }

  /**
   Whatever else fails, a run that starts from a kept host and meets every hypothesis passes through
   no state with a dangling binding, and ends in a kept host.
   */
  lemma {:induction false} RunsNeverDangle(estate: Estate, h: Host, run: seq<Event>)
    requires estate.Valid() && estate.Kept(h) && RunMeets(estate, h, run, {})
    ensures RunSafe(h, run) && estate.Kept(AfterRun(h, run))
    decreases |run|
  {
    hide Holds, Estate.Knows;
    if run != [] {
      EventKeeps(estate, h, run[0]);
      RunsNeverDangle(estate, run[0].After(h), run[1..]);
    }
  }
}
