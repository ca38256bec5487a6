/**
 For each hypothesis under which no binding dangles over a run, a run that breaks only that one and
 leaves a binding dangling.
 */
module StoreWitnesses {
  import opened Prelude
  import opened StoreInstall
  import opened StoreSafety
  import opened StoreReports
  import opened StoreRuns

  const WEB := Destination("web", "My", Some("site"), false, true)
  const UNBOUND := Destination("web", "My", None, false, true)
  const MAIL := Destination("mail", "My", Some("port"), false, true)
  const OLD := CertId("My", "OLD")
  const NEW := CertId("My", "NEW")
  const SCAN: seq<string> := ["OLD", "NEW"]

  /** A host on which nothing has been installed yet. */
  const FRESH := Host(map[], map[])

  /** A host on which one certificate is installed, marked and bound. */
  function Serving(c: CertId): Host {
    Host(map[c := WEB.FriendlyName()], map["site" := c])
  }

  /** An import that fails, after which the certificate is removed. */
  const BROKEN := Smooth(SCAN).(imported := ImportFailed(false, false))

  const SITES := Estate(map["web" := WEB, "mail" := MAIL], map[OLD := "web", NEW := "web"])

  /** A host on which a certificate lies in the store, unmarked and unbound. */
  const LYING := Host(map[NEW := ""], map[])

  /** For each hypothesis, a run that breaks only that one. */
  function Witness(hyp: Hypothesis): (w: (Estate, Host, seq<Event>)) {
    var again := Do(Install(WEB, NEW, false, BROKEN));
    match hyp
    case UnboundPredecessor =>
      (Estate(map["web" := UNBOUND], SITES.owner), Serving(OLD), [Do(Install(UNBOUND, NEW, false, Smooth(SCAN)))])
    case NewIsNotMarked => (SITES, Serving(NEW), [Do(Install(WEB, NEW, true, BROKEN))])
    case OwnCertificate => (SITES, Serving(NEW), [Do(Install(MAIL, NEW, false, BROKEN))])
    case TrueBinds => (SITES, FRESH, [Do(Install(WEB, NEW, false, Smooth(SCAN).(bound := BindOutcome(false, true))))])
    case NamingWorks => (SITES, FRESH, [Do(Install(WEB, NEW, false, Smooth(SCAN).(named := Failed(false)))), again])
    case RetiringWorks => (SITES, Serving(OLD), [Do(Install(WEB, NEW, false, Smooth(SCAN).(retired := Failed(false)))), again])
    case FirstInstallProves => (SITES, FRESH, [Do(Install(WEB, NEW, false, Smooth(SCAN).(probes := [false]))), again])
    case RebindWorks =>
      (SITES, Serving(OLD),
       [Do(Install(WEB, NEW, false, Smooth(SCAN).(probes := [false], rebound := BindOutcome(false, false)))), again])
    case ReadsTheMarks => (SITES, Serving(NEW), [Do(Install(WEB, NEW, false, BROKEN.(scan := [])))])
    case OthersBindMarked => (SITES, LYING, [Repoint("site", NEW), again])
  }

  /** The runs in which the first event strands the endpoint and the second takes its certificate away. */
  predicate TakesTwo(hyp: Hypothesis) {
    hyp in {NamingWorks, RetiringWorks, FirstInstallProves, RebindWorks, OthersBindMarked}
  }

  lemma FreshIsKept(estate: Estate)
    ensures estate.Kept(FRESH)
  {
  }

  lemma LyingIsKept()
    ensures SITES.Kept(LYING)
  {
    forall n | n in SITES.destinations ensures SITES.Tidy(LYING, n) {
      FriendlyNameNotEmpty(SITES.destinations[n]);
    }
  }

  lemma ServingIsKept(c: CertId)
    requires c == OLD || c == NEW
    ensures SITES.Valid() && SITES.Kept(Serving(c))
  {
    var h := Serving(c);
    forall n | n in SITES.destinations ensures SITES.Tidy(h, n) {
      assert n == "web" || n == "mail";
      if n == "mail" && WEB.FriendlyName() == MAIL.FriendlyName() { FriendlyNamesDiffer(WEB, MAIL); }
    }
  }

  lemma ReplayFour(h: Host, w: Call, x: Call, y: Call, z: Call, rest: seq<Call>)
    ensures Replay(h, [w] + ([x] + ([y] + ([z] + rest)))) == Replay(Step(Step(Step(Step(h, w), x), y), z), rest)
  {
    hide Step, Replay;
    ReplayAfter(h, w, [x] + ([y] + ([z] + rest)));
    ReplayAfter(Step(h, w), x, [y] + ([z] + rest));
    ReplayAfter(Step(Step(h, w), x), y, [z] + rest);
    ReplayAfter(Step(Step(Step(h, w), x), y), z, rest);
  }

  lemma WebPlan(p: Option<CertId>, a: Answers)
    requires a.bound == BindOutcome(true, true)
    ensures BindPlan(WEB, NEW, p, a).calls
            == [RunBind("site", NEW, a.bound)]
               + ([Verify(a.Served())]
                  + if a.Served() then SettlePlan(WEB, NEW, p, false, a).calls
                    else RollbackPlan(WEB, NEW, p, true, false, a).calls)
  {
    hide SettlePlan, RollbackPlan, Answers.Served;
  }

  /** How an install at the web destination that gets past its bind command goes on. */
  lemma WebRuns(h: Host, a: Answers)
    requires a.readable && a.encodable && a.imported == Listed(false) && a.bound == BindOutcome(true, true)
    requires Install(WEB, NEW, false, a).Previous(h) != Some(NEW)
    ensures var p := Install(WEB, NEW, false, a).Previous(h);
            var h1 := Host(h.certs[NEW := ""], h.bindings["site" := NEW]);
            var rest := if a.Served() then SettlePlan(WEB, NEW, p, false, a).calls
                        else RollbackPlan(WEB, NEW, p, true, false, a).calls;
            Replay(h, Install(WEB, NEW, false, a).Calls(h)) == Replay(h1, rest)
  {
    var p := Install(WEB, NEW, false, a).Previous(h);
    var rest := if a.Served() then SettlePlan(WEB, NEW, p, false, a).calls
                else RollbackPlan(WEB, NEW, p, true, false, a).calls;
    var add, bind := Import(NEW, a.imported), RunBind("site", NEW, a.bound);
    WebPlan(p, a);
    hide BindPlan, FirstNamed, SettlePlan, RollbackPlan, Answers.Served, Replay;
    ReplayFour(h, Read(WEB.FriendlyName()), add, bind, Verify(a.Served()), rest);
  }

  /** After the first event of such a run, the endpoint names the certificate and the destination does
      not recognise it. */
  ghost predicate Strands(hyp: Hypothesis) {
    var (_, h, run) := Witness(hyp);
    |run| == 2 && run[1].Do? && Stranded(run[0].After(h), run[1].x)
  }

  ghost predicate Stranded(h: Host, x: Install) { IsBound(h, NEW) && NoDangling(h) && x.Previous(h) != Some(NEW) }

  lemma StrandsIfBoundAndUnread(hyp: Hypothesis, h1: Host)
    requires var (_, h, run) := Witness(hyp);
             && |run| == 2 && run[1].Do? && run[1].x.d == WEB && run[1].x.a.scan == SCAN && run[0].After(h) == h1
    requires NoDangling(h1) && "site" in h1.bindings && h1.bindings["site"] == NEW
    requires (OLD in h1.certs && h1.certs[OLD] == WEB.FriendlyName()) || h1.certs[NEW] != WEB.FriendlyName()
    ensures Strands(hyp)
  {
    hide InstallPlan, FirstNamed, Smooth;
    WebReads(h1);
    assert IsBound(h1, NEW);
  }

  lemma NamingStrands()
    ensures Strands(NamingWorks)
  {
    var (_, h, run) := Witness(NamingWorks);
    var a := run[0].x.a;
    WebReads(h);
    FriendlyNameNotEmpty(WEB);
    assert a.probes[0];
    WebRuns(h, a);
    hide InstallPlan, Replay;
    var h1 := Host(map[NEW := ""], map["site" := NEW]);
    var call := SetName(NEW, WEB.FriendlyName(), a.named);
    OneCall(h1, call);
    StrandsIfBoundAndUnread(NamingWorks, h1);
  }

  lemma RetiringStrands()
    ensures Strands(RetiringWorks)
  {
    var (_, h, run) := Witness(RetiringWorks);
    var a := run[0].x.a;
    WebReads(h);
    assert a.probes[0];
    WebRuns(h, a);
    hide InstallPlan, Replay;
    var h1 := Host(h.certs[NEW := ""], h.bindings["site" := NEW]);
    var name, remove := SetName(NEW, WEB.FriendlyName(), a.named), Remove(OLD, a.retired);
    ReplayPair(h1, name, remove);
    StrandsIfBoundAndUnread(RetiringWorks, Step(Step(h1, name), remove));
  }

  lemma UnprovedStrands()
    ensures Strands(FirstInstallProves)
  {
    var (_, h, run) := Witness(FirstInstallProves);
    var a := run[0].x.a;
    WebReads(h);
    FriendlyNameNotEmpty(WEB);
    WebRuns(h, a);
    hide InstallPlan;
    var h1 := Host(map[NEW := ""], map["site" := NEW]);
    assert Replay(h1, []) == h1;
    StrandsIfBoundAndUnread(FirstInstallProves, h1);
  }

  lemma RebindStrands()
    ensures Strands(RebindWorks)
  {
    var (_, h, run) := Witness(RebindWorks);
    var a := run[0].x.a;
    WebReads(h);
    WebRuns(h, a);
    hide InstallPlan, Replay;
    var h1 := Host(h.certs[NEW := ""], h.bindings["site" := NEW]);
    OneCall(h1, RunBind("site", OLD, a.rebound));
    StrandsIfBoundAndUnread(RebindWorks, h1);
  }

  lemma RepointStrands()
    ensures Strands(OthersBindMarked)
  {
    FriendlyNameNotEmpty(WEB);
    StrandsIfBoundAndUnread(OthersBindMarked, Host(map[NEW := ""], map["site" := NEW]));
  }

  /** What reading the web destination's mark returns. */
  lemma WebReads(h: Host)
    ensures var name := WEB.FriendlyName();
            FirstNamed(h, "My", name, SCAN) ==
              if OLD in h.certs && h.certs[OLD] == name then Some(OLD)
              else if NEW in h.certs && h.certs[NEW] == name then Some(NEW)
              else None
  {
    var name := WEB.FriendlyName();
    assert SCAN[1..] == ["NEW"] && SCAN[1..][1..] == [];
    assert FirstNamed(h, "My", name, SCAN[1..][1..]) == None;
  }

  lemma UnboundIsKept()
    ensures var (estate, h, _) := Witness(UnboundPredecessor); estate.Valid() && estate.Kept(h)
  {
    var (estate, h, _) := Witness(UnboundPredecessor);
    assert UNBOUND.FriendlyName() == WEB.FriendlyName();
    assert estate.Tidy(h, "web");
  }

  /** A run of one install that ends with a dangling binding. */
  lemma OneInstallDangles(hyp: Hypothesis)
    requires !TakesTwo(hyp)
    ensures var (_, h, run) := Witness(hyp); |run| == 1 && !NoDangling(AfterRun(h, run))
  {
    var (_, h, run) := Witness(hyp);
    var x := run[0].x;
    WebReads(h);
    assert AfterRun(Replay(h, x.Calls(h)), run[1..]) == Replay(h, x.Calls(h));
    match hyp
    case UnboundPredecessor =>
      assert UNBOUND.FriendlyName() == WEB.FriendlyName();
      SettledInstallDangles(h, UNBOUND, NEW, OLD, "site", false, x.a);
    case NewIsNotMarked =>
      assert h.bindings["site"] == NEW;
      BoundImportDangles(h, WEB, NEW, true, x.a);
    case ReadsTheMarks =>
      assert h.bindings["site"] == NEW;
      BoundImportDangles(h, WEB, NEW, false, x.a);
    case OwnCertificate =>
      assert h.bindings["site"] == NEW;
      FirstNamedFinds(h, "My", MAIL.FriendlyName(), SCAN);
      if WEB.FriendlyName() == MAIL.FriendlyName() { FriendlyNamesDiffer(WEB, MAIL); }
      BoundImportDangles(h, MAIL, NEW, false, x.a);
    case TrueBinds =>
      FriendlyNameNotEmpty(WEB);
      var add, bind, undo := Import(NEW, x.a.imported), RunBind("site", NEW, x.a.bound), Remove(NEW, x.a.undone);
      assert BindPlan(WEB, NEW, None, x.a).calls == [bind] + [undo];
      ReplayAfter(h, Read(WEB.FriendlyName()), [add] + [bind, undo]);
      ReplayAfter(h, add, [bind, undo]);
      ReplayPair(Step(h, add), bind, undo);
      assert "site" in Replay(h, x.Calls(h)).bindings;
  }

  lemma AllStrand(hyp: Hypothesis)
    requires TakesTwo(hyp)
    ensures Strands(hyp)
  {
    match hyp
    case NamingWorks => NamingStrands();
    case RetiringWorks => RetiringStrands();
    case FirstInstallProves => UnprovedStrands();
    case RebindWorks => RebindStrands();
    case OthersBindMarked => RepointStrands();
  }

  /** A run of two events: the first strands the endpoint, the second takes its certificate away. */
  lemma TwoEventsDangle(hyp: Hypothesis)
    requires TakesTwo(hyp)
    ensures var (_, h, run) := Witness(hyp); |run| == 2 && !NoDangling(AfterRun(h, run))
  {
    hide InstallPlan, FirstNamed, Replay;
    var (_, h, run) := Witness(hyp);
    var h1 := run[0].After(h);
    AllStrand(hyp);
    BoundImportDangles(h1, WEB, NEW, false, run[1].x.a);
    var h2 := run[1].After(h1);
    assert run[1..][0] == run[1] && run[1..][1..] == [];
    assert AfterRun(h2, []) == h2 && AfterRun(h1, run[1..]) == h2;
  }

  lemma {:induction false} UnsafeIfItEndsDangling(h: Host, run: seq<Event>)
    requires !NoDangling(AfterRun(h, run))
    ensures !RunSafe(h, run)
    decreases |run|
  {
    if run != [] {
      UnsafeIfItEndsDangling(run[0].After(h), run[1..]);
    }
  }

  lemma WitnessKnows(hyp: Hypothesis)
    ensures var (estate, _, run) := Witness(hyp); forall event | event in run :: estate.Knows(event)
  {
  }

  /** The only certificates of the witnesses. */
  ghost predicate OldOrNew(h: Host) { forall c | c in h.certs :: c == OLD || c == NEW }

  lemma {:induction false} OnlyImportsAdd(h: Host, calls: seq<Call>)
    requires OldOrNew(h) && forall call | call in calls && call.Import? :: call.c == NEW
    ensures OldOrNew(Replay(h, calls))
    decreases |calls|
  {
    if calls != [] {
      assert calls[0] in calls;
      OnlyImportsAdd(Step(h, calls[0]), calls[1..]);
    }
  }

  lemma WitnessStaysOldOrNew(hyp: Hypothesis)
    ensures var (_, h, run) := Witness(hyp); OldOrNew(h) && OldOrNew(run[0].After(h))
  {
    hide Smooth, InstallPlan, Replay;
    var (_, h, run) := Witness(hyp);
    if run[0].Do? {
      var x := run[0].x;
      InstallFrom(h, x.d, x.c, x.force, x.a);
      assert forall call | call in x.Calls(h) && call.Import? :: FromAnswers(call, x.c, x.a);
      OnlyImportsAdd(h, x.Calls(h));
    }
  }

  /** Answers under which a hypothesis about calls holds, whatever calls are made. */
  predicate Suffices(hyp: Hypothesis, a: Answers, previous: Option<CertId>) {
    match hyp
    case TrueBinds => a.Honest()
    case NamingWorks => a.named.Happened()
    case RetiringWorks => a.cleanup.Happened() && a.retired.Happened() && a.undone.Happened()
    case FirstInstallProves => previous.Some? || (a.reloaded && a.reloadedAgain && a.Served())
    case RebindWorks => previous.None? || (a.bound.ok && a.rebound.ok)
    case _ => false
  }

  lemma SufficientAnswers(hyp: Hypothesis, estate: Estate, h: Host, x: Install)
    requires Suffices(hyp, x.a, x.Previous(h))
    ensures InstallHolds(hyp, estate, h, x)
  {
    hide InstallPlan, FirstNamed, Answers.Served;
    InstallFrom(h, x.d, x.c, x.force, x.a);
    forall call | call in x.Calls(h) ensures CallHolds(hyp, x.d, x.c, x.Previous(h), call) {
      assert FromAnswers(call, x.c, x.a);
    }
  }

  predicate AboutCalls(hyp: Hypothesis) {
    hyp in {TrueBinds, NamingWorks, RetiringWorks, FirstInstallProves, RebindWorks}
  }

  /** The first event meets the other hypotheses about calls. */
  lemma FirstSuffices(hyp: Hypothesis, other: Hypothesis)
    requires other != hyp && AboutCalls(other)
    ensures var (_, h, run) := Witness(hyp); run[0].Do? ==> Suffices(other, run[0].x.a, run[0].x.Previous(h))
  {
    var (_, h, run) := Witness(hyp);
    WebReads(h);
    FriendlyNameNotEmpty(WEB);
    assert [true][0];
    assert run[0].Do? && hyp != FirstInstallProves && hyp != RebindWorks ==> run[0].x.a.Served();
  }

  lemma BrokenSuffices(other: Hypothesis, previous: Option<CertId>)
    requires AboutCalls(other)
    ensures Suffices(other, BROKEN, previous)
  {
    assert [true][0];
    assert BROKEN.Served();
  }

  /** An install of the new certificate for the web destination meets the hypotheses about the host it finds. */
  lemma WebHolds(other: Hypothesis, h: Host, force: bool, a: Answers)
    requires !AboutCalls(other) && OldOrNew(h) && (other == ReadsTheMarks ==> a.scan == SCAN)
    requires other == NewIsNotMarked ==> !Install(WEB, NEW, force, a).Acts(h) || Install(WEB, NEW, force, a).Previous(h) != Some(NEW)
    ensures Holds(other, SITES, h, Do(Install(WEB, NEW, force, a)))
  {
    hide InstallPlan, FirstNamed;
    assert SCAN[0] == "OLD" && SCAN[1] == "NEW";
  }

  /** The first event meets the other hypotheses about the host it finds. */
  lemma FirstHolds(hyp: Hypothesis, other: Hypothesis)
    requires other != hyp && !AboutCalls(other) && OldOrNew(Witness(hyp).1)
    ensures var (estate, h, run) := Witness(hyp); Holds(other, estate, h, run[0])
  {
    hide InstallPlan, FirstNamed, Smooth;
    var (estate, h, run) := Witness(hyp);
    WebReads(h);
    SmoothScan();
    if hyp in {UnboundPredecessor, OthersBindMarked} {
      assert SCAN[0] == "OLD" && SCAN[1] == "NEW";
    } else if hyp == OwnCertificate {
      MailHolds(other);
    } else {
      WebHolds(other, h, run[0].x.force, run[0].x.a);
    }
  }

  lemma MailHolds(other: Hypothesis)
    requires other != OwnCertificate && !AboutCalls(other)
    ensures Holds(other, SITES, Serving(NEW), Do(Install(MAIL, NEW, false, BROKEN)))
  {
    hide InstallPlan, FirstNamed, Smooth;
    SmoothScan();
    FirstNamedFinds(Serving(NEW), "My", MAIL.FriendlyName(), SCAN);
    if WEB.FriendlyName() == MAIL.FriendlyName() { FriendlyNamesDiffer(WEB, MAIL); }
  }

  lemma SmoothScan()
    ensures Smooth(SCAN).scan == SCAN && BROKEN.scan == SCAN && BROKEN.(scan := []).scan == []
    ensures forall x, y, z, u, v :: Smooth(SCAN).(bound := x, named := y, retired := z, probes := u, rebound := v).scan == SCAN
  {
  }

  lemma OthersHold(hyp: Hypothesis, other: Hypothesis)
    requires other != hyp
    ensures var (estate, h, run) := Witness(hyp);
            && Holds(other, estate, h, run[0])
            && (TakesTwo(hyp) ==> Holds(other, estate, run[0].After(h), run[1]))
  {
    hide InstallPlan, FirstNamed, Replay, InstallHolds, Smooth, Suffices, OldOrNew;
    var (estate, h, run) := Witness(hyp);
    WitnessStaysOldOrNew(hyp);
    if AboutCalls(other) {
      FirstSuffices(hyp, other);
      if run[0].Do? { SufficientAnswers(other, estate, h, run[0].x); }
    } else {
      FirstHolds(hyp, other);
    }
    if TakesTwo(hyp) {
      var h1, x := run[0].After(h), run[1].x;
      AllStrand(hyp);
      if AboutCalls(other) {
        BrokenSuffices(other, x.Previous(h1));
        SufficientAnswers(other, estate, h1, x);
      } else {
        SmoothScan();
        WebHolds(other, h1, false, BROKEN);
      }
    }
  }

  /** Necessity: for each hypothesis there is a run from a kept host that meets all the others at
      every event and leaves a binding dangling. */
  lemma EachHypothesisIsNeeded(hyp: Hypothesis)
    ensures var (estate, h, run) := Witness(hyp);
            estate.Valid() && estate.Kept(h) && RunMeets(estate, h, run, {hyp}) && !RunSafe(h, run)
  {
    hide InstallPlan, FirstNamed, Replay, NoDangling, Estate.Knows, Estate.Kept, Estate.Valid, Holds, Smooth, Event.After;
    var (estate, h, run) := Witness(hyp);
    var h1 := run[0].After(h);
    FreshIsKept(SITES);
    LyingIsKept();
    ServingIsKept(OLD);
    ServingIsKept(NEW);
    UnboundIsKept();
    WitnessKnows(hyp);
    forall other | other != hyp
      ensures Holds(other, estate, h, run[0]) && (TakesTwo(hyp) ==> Holds(other, estate, h1, run[1]))
    {
      OthersHold(hyp, other);
    }
    if TakesTwo(hyp) {
      TwoEventsDangle(hyp);
      assert run[1..][1..] == [] && run[1..][0] == run[1];
      assert RunMeets(estate, h1, run[1..], {hyp});
    } else {
      OneInstallDangles(hyp);
      assert run[1..] == [];
    }
    UnsafeIfItEndsDangling(h, run);
  }
}
