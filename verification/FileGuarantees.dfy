/**
 What a file install guarantees: all or nothing, untouched paths, whole states for every command,
 and truthful reports. Paths may repeat within one destination throughout, unless a statement says
 they are distinct.
 */
module FileGuarantees {
  import opened Prelude
  import opened FileInstall

  predicate Distinct(ts: seq<Target>) {
    forall i, j | 0 <= i < j < |ts| :: ts[i].path != ts[j].path
  }

  /** Every path holds its new file. */
  predicate AllNew(disk: Files, ts: seq<Target>) {
    forall i | 0 <= i < |ts| :: ts[i].path in disk && disk[ts[i].path] == ts[i].New()
  }

  /** The install goes past the comparison with what is already there. */
  predicate Rewrites(entry: Files, ts: seq<Target>, force: bool, a: Answers) {
    force || !Matches(entry, ts, a.unmatched)
  }

  // ---------- Writing ----------

  lemma {:induction false} UnwrittenKept(entry: Files, ts: seq<Target>, p: string)
    requires !Writes(ts, p)
    ensures Agree(After(entry, ts), entry, p)
  {
    if ts != [] {
      var n := |ts| - 1;
      assert ts[n].path != p;
      forall i | 0 <= i < n ensures ts[..n][i].path != p { assert ts[i].path != p; }
      UnwrittenKept(entry, ts[..n], p);
    }
  }

  /** The last target of a path decides what it holds. */
  lemma {:induction false} LastWriteWins(entry: Files, ts: seq<Target>, i: nat)
    requires i < |ts| && forall j | i < j < |ts| :: ts[j].path != ts[i].path
    ensures ts[i].path in After(entry, ts) && After(entry, ts)[ts[i].path] == ts[i].New()
  {
    if i < |ts| - 1 {
      LastWriteWins(entry, ts[..|ts| - 1], i);
    }
  }

  lemma DistinctWritesAll(entry: Files, ts: seq<Target>)
    requires Distinct(ts)
    ensures AllNew(After(entry, ts), ts)
  {
    forall i | 0 <= i < |ts| ensures ts[i].path in After(entry, ts) && After(entry, ts)[ts[i].path] == ts[i].New() {
      LastWriteWins(entry, ts, i);
    }
  }

  /** Targets of one path have one content. */
  predicate Consistent(ts: seq<Target>) {
    forall i, j | 0 <= i < j < |ts| && ts[i].path == ts[j].path :: ts[i].content == ts[j].content
  }

  /** Writing leaves every content in place exactly when no path is given two contents. */
  lemma WrittenMatchesExactly(entry: Files, ts: seq<Target>)
    ensures Matches(After(entry, ts), ts, {}) <==> Consistent(ts)
  {
    hide After;
    if Consistent(ts) {
      forall i | 0 <= i < |ts|
        ensures ts[i].path in After(entry, ts) && After(entry, ts)[ts[i].path].content == ts[i].content
      {
        var n := LastWriter(ts, ts[i].path);
        LastWriteWins(entry, ts, n);
      }
    }
  }

  // ---------- Restoring ----------

  /** If every restore works the disk is what it was, repeated paths or not. */
  lemma RestoredWhole(entry: Files, ts: seq<Target>, failing: set<nat>)
    requires forall i | 0 <= i < |ts| :: i !in failing
    ensures Restored(entry, ts, failing) == entry
  {
    AfterKeys(entry, ts);
    forall p ensures Agree(Restored(entry, ts, failing), entry, p) {
      if Writes(ts, p) {
        assert Back(p, ts, failing);
      } else {
        UnwrittenKept(entry, ts, p);
      }
    }
    var r := Restored(entry, ts, failing);
    assert r.Keys == entry.Keys by {
      forall p ensures p in r.Keys <==> p in entry.Keys { assert Agree(r, entry, p); }
    }
    forall p | p in r ensures r[p] == entry[p] { assert Agree(r, entry, p); }
  }

  /** Path by path: as at entry exactly when put back or never written, unless the new file is what
      was there anyway. */
  lemma RestoredAt(entry: Files, ts: seq<Target>, failing: set<nat>, p: string)
    ensures var r := Restored(entry, ts, failing);
            if Back(p, ts, failing) || !Writes(ts, p) then Agree(r, entry, p)
            else Agree(r, After(entry, ts), p) && p in r
  {
    AfterKeys(entry, ts);
    if !Writes(ts, p) {
      UnwrittenKept(entry, ts, p);
    } else if !Back(p, ts, failing) {
      var i :| 0 <= i < |ts| && ts[i].path == p;
      assert ts[i] in ts;
    }
  }

  // ---------- Main results ----------

  /** A failed install that gets as far as writing, and whose restores work, leaves the disk exactly
      as it was. */
  lemma RewritingIsUndone(entry: Files, ts: seq<Target>, d: Destination, force: bool, a: Answers)
    requires Rewrites(entry, ts, force, a)
    requires forall i | 0 <= i < |ts| :: i !in a.unrestorable
    ensures var o := Install(entry, ts, d, force, a);
            o.report.status == InstallFailed ==> o.disk == entry
  {
    hide Restored, After;
    var k := FirstIn(a.unwritable.Keys, 0, |ts|);
    RestoredWhole(entry, ts[..k], a.unrestorable.Keys);
    RestoredWhole(entry, ts, a.unrestorable.Keys);
  }

  /** Every target is there with its permissions already. */
  predicate ModesRight(entry: Files, ts: seq<Target>) {
    forall i | 0 <= i < |ts| :: ts[i].path in entry && entry[ts[i].path].perm == ts[i].Perms()
  }

  lemma {:induction false} NothingToEnforce(entry: Files, ts: seq<Target>)
    requires ModesRight(entry, ts)
    ensures Enforced(entry, ts) == entry
  {
    if ts != [] {
      var t := ts[|ts| - 1];
      assert t.path in entry && entry[t.path].perm == t.Perms();
      NothingToEnforce(entry, ts[..|ts| - 1]);
    }
  }

  /** The install writes its files, or has no mode to set on them. */
  predicate WritesOrSetsNothing(entry: Files, ts: seq<Target>, force: bool) {
    force || !Matches(entry, ts, {}) || ModesRight(entry, ts)
  }

  /** An install that writes nothing and has no mode to set leaves the disk alone. */
  lemma NothingWasSet(entry: Files, ts: seq<Target>, d: Destination, force: bool, a: Answers)
    requires !Rewrites(entry, ts, force, a) && ModesRight(entry, ts)
    ensures Install(entry, ts, d, force, a).disk == entry
  {
    hide Enforced;
    var k := FirstIn(a.unset + a.unowned, 0, |ts|);
    assert ts[..|ts|] == ts && forall j | 0 <= j <= |ts| :: ModesRight(entry, ts[..j]);
    NothingToEnforce(entry, ts[..if k < |ts| && k !in a.unset then k + 1 else k]);
  }

  /** All or nothing, where it holds. */
  lemma FailureLeavesNothing(entry: Files, ts: seq<Target>, d: Destination, force: bool, a: Answers)
    requires a.unrestorable == map[] && WritesOrSetsNothing(entry, ts, force)
    ensures var o := Install(entry, ts, d, force, a);
            o.report.status == InstallFailed ==> o.disk == entry
  {
    hide Install, ModesRight;
    if Rewrites(entry, ts, force, a) {
      RewritingIsUndone(entry, ts, d, force, a);
    } else {
      NothingWasSet(entry, ts, d, force, a);
    }
  }

  /** Everything works, but the mode of target i is set and its owner is not. */
  function OwnerFails(i: nat): Answers {
    Answers({}, {}, {i}, {}, map[], map[], true, true, true)
  }

  /** A target whose permissions are not right at entry is changed by an install that then fails. */
  lemma EnforcingIsNotUndone(entry: Files, ts: seq<Target>, d: Destination, i: nat)
    requires Matches(entry, ts, {}) && i < |ts| && entry[ts[i].path].perm != ts[i].Perms()
    ensures var o := Install(entry, ts, d, false, OwnerFails(i));
            o.report.status == InstallFailed && !o.marks[i] && !Agree(o.disk, entry, ts[i].path)
  {
    hide Enforced;
    var a := OwnerFails(i);
    assert FirstIn(a.unset + a.unowned, 0, |ts|) == i;
    EnforcedStep(entry, ts, i);
    assert Enforced(entry, ts[..i + 1])[ts[i].path].perm == ts[i].Perms();
  }

  /**
   All or nothing, exactly. Over all answers whose restores work, a failed install always leaves
   every path's existence, content and permissions as at entry if and only if the install is forced,
   or some target is missing or differs in content, or every target already has its permissions:
   setting modes on files that match is the one change that is not taken back.
   */
  lemma AllOrNothingExactly(entry: Files, ts: seq<Target>, d: Destination, force: bool)
    ensures (forall a: Answers | a.unrestorable == map[] ::
               Install(entry, ts, d, force, a).report.status == InstallFailed ==> Install(entry, ts, d, force, a).disk == entry)
            <==> WritesOrSetsNothing(entry, ts, force)
  {
    hide Install, Matches;
    if WritesOrSetsNothing(entry, ts, force) {
      forall a: Answers | a.unrestorable == map[]
        ensures Install(entry, ts, d, force, a).report.status == InstallFailed ==> Install(entry, ts, d, force, a).disk == entry
      {
        FailureLeavesNothing(entry, ts, d, force, a);
      }
    } else {
      MatchesAreThere(entry, ts);
      var i :| 0 <= i < |ts| && entry[ts[i].path].perm != ts[i].Perms();
      EnforcingIsNotUndone(entry, ts, d, i);
      assert OwnerFails(i).unrestorable == map[] && Install(entry, ts, d, force, OwnerFails(i)).disk != entry;
    }
  }

  lemma MatchesAreThere(entry: Files, ts: seq<Target>)
    requires Matches(entry, ts, {})
    ensures forall i | 0 <= i < |ts| :: ts[i].path in entry
  {
  }

  /** One run of that kind: two distinct files that already match, the first world-unreadable; its
      mode is set, then the second cannot be read, and the first stays changed. */
  lemma ChangedModeWitness()
    ensures var entry: Files := map["/c" := File([], 0), "/k" := File([], 0)];
            var ts := [Target("/c", [], 420), Target("/k", [], 384)];
            var a := Answers({}, {1}, {}, {}, map[], map[], true, true, true);
            var o := Install(entry, ts, Destination(false, false), false, a);
            Distinct(ts) && o.report.status == InstallFailed && "/c" in o.disk && o.disk["/c"].perm == 420 && o.disk != entry
  {
    var entry: Files := map["/c" := File([], 0), "/k" := File([], 0)];
    var ts := [Target("/c", [], 420), Target("/k", [], 384)];
    var a := Answers({}, {1}, {}, {}, map[], map[], true, true, true);
    assert "/c"[1] == 'c' && "/k"[1] == 'k';
    assert FirstIn(a.unset + a.unowned, 0, 2) == 1;
    EnforcedStep(entry, ts, 0);
    assert ts[..0] == [] && Enforced(entry, []) == entry;
    assert Enforced(entry, ts[..1])["/c"].perm == 420;
  }

  /** A report that says "rolled back" is true, and it says so exactly when a command failed and
      every restore worked. */
  lemma RolledBackIsTrue(entry: Files, ts: seq<Target>, d: Destination, force: bool, a: Answers)
    ensures var o := Install(entry, ts, d, force, a);
            && (o.report.rolledBack ==> o.disk == entry)
            && (o.report.rolledBack <==>
                  && Rewrites(entry, ts, force, a)
                  && (forall i | 0 <= i < |ts| :: i !in a.unreadable && i !in a.unwritable && i !in a.unrestorable)
                  && ((d.check && !a.checked) || (d.reload && !a.reloaded)))
  {
    hide Restored, After;
    if forall i | 0 <= i < |ts| :: i !in a.unrestorable {
      RestoredWhole(entry, ts, a.unrestorable.Keys);
    }
  }

  /**
   What every path holds after a failed install, when restores may fail. A path that was written,
   and all of whose written targets are still marked, holds what was written to it; every other path
   is as at entry, also one of which some written target could be put back.
   */
  lemma PartialFailure(entry: Files, ts: seq<Target>, d: Destination, force: bool, a: Answers, p: string)
    requires Rewrites(entry, ts, force, a)
    requires Install(entry, ts, d, force, a).report.status == InstallFailed
    ensures var o := Install(entry, ts, d, force, a);
            var k := FirstIn(a.unwritable.Keys, 0, |ts|);
            if Writes(ts[..k], p) && AllMarked(ts, o.marks, k, p) then Agree(o.disk, After(entry, ts[..k]), p)
            else Agree(o.disk, entry, p)
  {
    hide After, Restored, Install;
    var o := Install(entry, ts, d, force, a);
    var k := FirstIn(a.unwritable.Keys, 0, |ts|);
    FailedEnds(entry, ts, d, force, a);
    if FirstIn(a.unreadable, 0, |ts|) == |ts| {
      RestoredAt(entry, ts[..k], a.unrestorable.Keys, p);
      BackIsUnmarked(ts, k, a.unrestorable.Keys, p);
    } else if Writes(ts[..k], p) {
      var i :| 0 <= i < k && ts[..k][i].path == p;
      assert ts[i].path == p && !o.marks[i];
    }
  }

  /** Every written target of the path, k having been written, is still marked. */
  predicate AllMarked(ts: seq<Target>, marks: seq<bool>, k: nat, p: string)
    requires k <= |ts| == |marks|
  {
    forall i | 0 <= i < k && ts[i].path == p :: marks[i]
  }

  /** How an install that rewrites can fail: before anything is written, or after the k targets
      before the first that cannot be written. */
  lemma FailedEnds(entry: Files, ts: seq<Target>, d: Destination, force: bool, a: Answers)
    requires Rewrites(entry, ts, force, a)
    requires Install(entry, ts, d, force, a).report.status == InstallFailed
    ensures var o := Install(entry, ts, d, force, a);
            var k := FirstIn(a.unwritable.Keys, 0, |ts|);
            if FirstIn(a.unreadable, 0, |ts|) < |ts| then o.disk == entry && o.marks == AllMarks(|ts|, false)
            else o.disk == Restored(entry, ts[..k], a.unrestorable.Keys) && o.marks == MarksLeft(|ts|, k, a.unrestorable.Keys)
  {
    hide After, Restored, Matches, FirstIn, MarksLeft, AllMarks, Enforced;
    assert ts[..|ts|] == ts;
  }

  lemma BackIsUnmarked(ts: seq<Target>, k: nat, failing: set<nat>, p: string)
    requires k <= |ts|
    ensures Back(p, ts[..k], failing) <==> !AllMarked(ts, MarksLeft(|ts|, k, failing), k, p)
  {
    assert forall i | 0 <= i < k :: ts[..k][i] == ts[i];
    var marks := MarksLeft(|ts|, k, failing);
    if i :| 0 <= i < k && ts[i].path == p && !marks[i] {
      assert ts[..k][i].path == p && i !in failing;
    }
  }

  /** Where two targets share a path, what the earlier one writes there is what is there already. */
  predicate RepeatsNothingNew(entry: Files, ts: seq<Target>) {
    forall i, j | 0 <= i < j < |ts| && ts[i].path == ts[j].path ::
      ts[i].path in entry && entry[ts[i].path] == ts[i].New()
  }

  lemma UnwrittenIsAtEntry(entry: Files, ts: seq<Target>, d: Destination, force: bool, a: Answers, i: nat)
    requires RepeatsNothingNew(entry, ts) && Rewrites(entry, ts, force, a) && i < |ts|
    requires Install(entry, ts, d, force, a).report.status == InstallFailed
    requires !Install(entry, ts, d, force, a).marks[i]
    ensures Agree(Install(entry, ts, d, force, a).disk, entry, ts[i].path)
  {
    hide Install, After;
    var k := FirstIn(a.unwritable.Keys, 0, |ts|);
    var p := ts[i].path;
    FailedEnds(entry, ts, d, force, a);
    PartialFailure(entry, ts, d, force, a, p);
    if Writes(ts[..k], p) && AllMarked(ts, Install(entry, ts, d, force, a).marks, k, p) {
      assert k <= i;
      var n := LastWriter(ts[..k], p);
      LastWriteWins(entry, ts[..k], n);
      assert ts[n].path == p && ts[..k][n] == ts[n];
    }
  }

  ghost predicate TrustsMarks(entry: Files, ts: seq<Target>, d: Destination, force: bool, a: Answers) {
    var o := Install(entry, ts, d, force, a);
    o.report.status == InstallFailed ==>
      forall i | 0 <= i < |ts| && !o.marks[i] :: Agree(o.disk, entry, ts[i].path)
  }

  /** Every target that a failed install leaves unmarked is as at entry, where repeated paths write
      nothing new and the install writes its files or has no mode to set on them. */
  lemma UnmarkedIsAtEntry(entry: Files, ts: seq<Target>, d: Destination, force: bool, a: Answers)
    requires RepeatsNothingNew(entry, ts) && WritesOrSetsNothing(entry, ts, force)
    ensures TrustsMarks(entry, ts, d, force, a)
  {
    hide Install, RepeatsNothingNew, ModesRight;
    var o := Install(entry, ts, d, force, a);
    if !Rewrites(entry, ts, force, a) {
      NothingWasSet(entry, ts, d, force, a);
    } else if o.report.status == InstallFailed {
      forall i | 0 <= i < |ts| && !o.marks[i] ensures Agree(o.disk, entry, ts[i].path) {
        UnwrittenIsAtEntry(entry, ts, d, force, a, i);
      }
    }
  }

  lemma {:induction false} LastWriter(ts: seq<Target>, p: string) returns (n: nat)
    requires Writes(ts, p)
    ensures n < |ts| && ts[n].path == p && forall j | n < j < |ts| :: ts[j].path != p
  {
    n := |ts| - 1;
    while ts[n].path != p
      invariant n < |ts| && forall j | n < j < |ts| :: ts[j].path != p
      invariant exists j :: 0 <= j <= n && ts[j].path == p
      decreases n
    {
      n := n - 1;
    }
  }

  function FirstFail(j: nat): (m: map<nat, Stage>)
    ensures forall n: nat :: n in m <==> n < j
  {
    if j == 0 then map[] else FirstFail(j - 1)[j - 1 := Rename]
  }

  /** Everything can be read and nothing matches; the j-th write fails, and none before it can be
      put back. */
  function FailsAt(j: nat): Answers {
    Answers({0}, {}, {}, {}, map[j := Rename], FirstFail(j), true, true, true)
  }

  /** A target of a path that an earlier one changed is left unmarked and changed, if it is the next
      to be written there and fails. */
  lemma RepeatIsLeftUnmarked(entry: Files, ts: seq<Target>, d: Destination, force: bool, i: nat, j: nat)
    requires i < j < |ts| && ts[i].path == ts[j].path && forall n | i < n < j :: ts[n].path != ts[j].path
    requires !(ts[i].path in entry && entry[ts[i].path] == ts[i].New())
    ensures var a := FailsAt(j);
            var o := Install(entry, ts, d, force, a);
            && Rewrites(entry, ts, force, a) && o.report.status == InstallFailed
            && !o.marks[j] && !Agree(o.disk, entry, ts[j].path)
  {
    hide After, Restored;
    var a, p := FailsAt(j), ts[j].path;
    assert a.unwritable.Keys == {j} && j in a.unwritable.Keys;
    assert FirstIn(a.unreadable, 0, |ts|) == |ts| && FirstIn(a.unwritable.Keys, 0, |ts|) == j;
    assert ts[..j][i] == ts[i];
    assert forall n | 0 <= n < j :: n in a.unrestorable.Keys;
    assert !Back(p, ts[..j], a.unrestorable.Keys);
    RestoredAt(entry, ts[..j], a.unrestorable.Keys, p);
    LastWriteWins(entry, ts[..j], i);
  }

  /**
   Exactly when the marks can be trusted. Over all answers, every target that a failed install leaves
   unmarked is as at entry if and only if repeated paths write nothing new, and the install writes its
   files or has no mode to set on them.
   */
  lemma UnmarkedIsAtEntryExactly(entry: Files, ts: seq<Target>, d: Destination, force: bool)
    ensures (forall a: Answers :: TrustsMarks(entry, ts, d, force, a))
            <==> RepeatsNothingNew(entry, ts) && WritesOrSetsNothing(entry, ts, force)
  {
    hide Install, Matches;
    if !WritesOrSetsNothing(entry, ts, force) {
      MatchesAreThere(entry, ts);
      var i :| 0 <= i < |ts| && entry[ts[i].path].perm != ts[i].Perms();
      EnforcingIsNotUndone(entry, ts, d, i);
      assert !TrustsMarks(entry, ts, d, force, OwnerFails(i));
    } else if RepeatsNothingNew(entry, ts) {
      forall a: Answers ensures TrustsMarks(entry, ts, d, force, a) {
        UnmarkedIsAtEntry(entry, ts, d, force, a);
      }
    } else {
      var i, j :| 0 <= i < j < |ts| && ts[i].path == ts[j].path && !(ts[i].path in entry && entry[ts[i].path] == ts[i].New());
      var n := NextWriter(ts, i, j);
      RepeatIsLeftUnmarked(entry, ts, d, force, i, n);
      assert !TrustsMarks(entry, ts, d, force, FailsAt(n));
    }
  }

  lemma NextWriter(ts: seq<Target>, i: nat, j: nat) returns (n: nat)
    requires i < j < |ts| && ts[i].path == ts[j].path
    ensures i < n <= j && ts[n].path == ts[i].path && forall m | i < m < n :: ts[m].path != ts[i].path
  {
    n := i + 1;
    while ts[n].path != ts[i].path
      invariant i < n <= j && forall m | i < m < n :: ts[m].path != ts[i].path
      decreases j - n
    {
      n := n + 1;
    }
  }

  /** With a repeated path that fails: the second target was never written and is not marked, and
      its path holds the first one's content. */
  lemma RepeatedPathWitness()
    ensures var t := Target("/k", [1], 384);
            var a := Answers({}, {}, {}, {}, map[1 := Rename], map[0 := Rename], true, true, true);
            var o := Install(map[], [t, t], Destination(false, false), false, a);
            && o.report.status == InstallFailed && !o.marks[1]
            && !Agree(o.disk, map[], "/k")
  {
    var t := Target("/k", [1], 384);
    var a := Answers({}, {}, {}, {}, map[1 := Rename], map[0 := Rename], true, true, true);
    assert [t, t][..1] == [t] && [t][..0] == [];
    assert FirstIn(a.unreadable, 0, 2) == 2 && FirstIn(a.unwritable.Keys, 0, 2) == 1;
    assert !Back("/k", [t], a.unrestorable.Keys);
    assert [t, t][0] == t && !Matches(map[], [t, t], a.unmatched);
    LastWriteWins(map[], [t], 0);
    RestoredAt(map[], [t], a.unrestorable.Keys, "/k");
    assert [t][0].path == "/k" && Writes([t], "/k");
  }

  /** No path outside the destination changes, in the end or at any command. */
  lemma OtherPathsKept(entry: Files, ts: seq<Target>, d: Destination, force: bool, a: Answers, p: string)
    requires !Writes(ts, p)
    ensures var o := Install(entry, ts, d, force, a);
            Agree(o.disk, entry, p) && forall s | s in o.seen :: Agree(s.disk, entry, p)
  {
    hide After, Restored, Enforced;
    var k := FirstIn(a.unwritable.Keys, 0, |ts|);
    var f := FirstIn(a.unset + a.unowned, 0, |ts|);
    var e := if f < |ts| && f !in a.unset then f + 1 else f;
    assert ts[..|ts|] == ts;
    forall j | 0 <= j <= |ts| ensures !Writes(ts[..j], p) {
      forall i | 0 <= i < j ensures ts[..j][i].path != p { assert ts[i].path != p; }
    }
    UnwrittenKept(entry, ts, p);
    RestoredAt(entry, ts, a.unrestorable.Keys, p);
    RestoredAt(entry, ts[..k], a.unrestorable.Keys, p);
    EnforcedElsewhere(entry, ts[..e], p);
  }

  lemma {:induction false} EnforcedElsewhere(disk: Files, ts: seq<Target>, p: string)
    requires !Writes(ts, p)
    ensures Agree(Enforced(disk, ts), disk, p)
  {
    if ts != [] {
      var n := |ts| - 1;
      assert ts[n].path != p;
      forall i | 0 <= i < n ensures ts[..n][i].path != p { assert ts[i].path != p; }
      EnforcedElsewhere(disk, ts[..n], p);
    }
  }

  /** Every command sees the new state or the entry state, whole. */
  lemma CommandsSeeWholeStates(entry: Files, ts: seq<Target>, d: Destination, force: bool, a: Answers)
    ensures forall s | s in Install(entry, ts, d, force, a).seen :: s.disk == After(entry, ts) || s.disk == entry
    ensures Distinct(ts) ==>
              forall s | s in Install(entry, ts, d, force, a).seen :: AllNew(s.disk, ts) || s.disk == entry
  {
    hide After, Install;
    SeenIsWrittenOrEntry(entry, ts, d, force, a);
    if Distinct(ts) {
      DistinctWritesAll(entry, ts);
    }
  }

  lemma SeenIsWrittenOrEntry(entry: Files, ts: seq<Target>, d: Destination, force: bool, a: Answers)
    ensures forall s | s in Install(entry, ts, d, force, a).seen :: s.disk == After(entry, ts) || s.disk == entry
  {
    hide After, Restored, Enforced;
    if forall i | 0 <= i < |ts| :: i !in a.unrestorable {
      RestoredWhole(entry, ts, a.unrestorable.Keys);
    }
  }

  /** The last target of a path decides its permissions when modes are set. */
  lemma {:induction false} LastModeWins(entry: Files, ts: seq<Target>, i: nat)
    requires i < |ts| && ts[i].path in entry && forall j | i < j < |ts| :: ts[j].path != ts[i].path
    ensures ts[i].path in Enforced(entry, ts) && Enforced(entry, ts)[ts[i].path].perm == ts[i].Perms()
  {
    EnforcedKeeps(entry, ts[..|ts| - 1]);
    if i < |ts| - 1 {
      LastModeWins(entry, ts[..|ts| - 1], i);
    }
  }

  /** A destination that says it is installed, whether or not it had to write, leaves each path with
      the permissions of its last target. */
  lemma InstalledMode(entry: Files, ts: seq<Target>, d: Destination, force: bool, a: Answers, i: nat)
    requires Install(entry, ts, d, force, a).report.status == Installed
    requires i < |ts| && forall j | i < j < |ts| :: ts[j].path != ts[i].path
    ensures var disk := Install(entry, ts, d, force, a).disk;
            ts[i].path in disk && disk[ts[i].path].perm == ts[i].Perms()
  {
    hide After, Enforced, Restored;
    LastWriteWins(entry, ts, i);
    if ts[i].path in entry {
      LastModeWins(entry, ts, i);
    }
  }

  /** How checks and reloads may follow one another, `written` being the disk with the new files. */
  predicate Orderly(seen: seq<Seen>, written: Files, entry: Files, d: Destination, a: Answers) {
    && (forall k | 0 <= k < |seen| && seen[k].command == Reload ::
          if k == (if d.check then 1 else 0)
          then seen[k].disk == written && (d.check ==> a.checked && seen[0] == Seen(Check, written))
          else seen[k].disk == entry && !a.reloaded && k == |seen| - 1)
    && (d.check && !a.checked ==> forall s | s in seen :: s.command == Check)
    && (forall k | 0 <= k < |seen| && seen[k].command == Check :: k == 0 && d.check)
  }

  lemma RolledBackOrderly(entry: Files, ts: seq<Target>, d: Destination, reloaded: bool, a: Answers)
    requires reloaded ==> d.reload && !a.reloaded && (d.check ==> a.checked)
    requires !reloaded ==> d.check && !a.checked
    ensures var written := After(entry, ts);
            var seen := (if d.check then [Seen(Check, written)] else []) + (if reloaded then [Seen(Reload, written)] else []);
            Orderly(RolledBack(entry, ts, seen, reloaded, a).seen, written, entry, d, a)
  {
    hide After, Restored;
    if forall i | 0 <= i < |ts| :: i !in a.unrestorable {
      RestoredWhole(entry, ts, a.unrestorable.Keys);
    }
  }

  /**
   The new material is reloaded only after a declared check passed on that very disk, a refused
   check is followed by no reload at all, and a reload of the entry state happens only when the
   first reload failed and everything was put back.
   */
  lemma ReloadFollowsCheck(entry: Files, ts: seq<Target>, d: Destination, force: bool, a: Answers)
    ensures Orderly(Install(entry, ts, d, force, a).seen, After(entry, ts), entry, d, a)
  {
    hide After, Restored, Enforced, RolledBack;
    var checks := if d.check then [Seen(Check, After(entry, ts))] else [];
    assert checks + [] == checks;
    if d.check && !a.checked {
      RolledBackOrderly(entry, ts, d, false, a);
    } else if d.reload && !a.reloaded {
      RolledBackOrderly(entry, ts, d, true, a);
    }
  }
}
