/**
 Installing files: capture, atomic write, check, reload, restore (install.go, installfs.go).

 A disk is a map from paths to contents and permission bits. As in the store, every call that can
 fail gets its outcome from an `Answers` record chosen in advance.
 */
module FileInstall {
  import opened Prelude

  type Perm = p: nat | p < 512

  datatype File = File(content: Bytes, perm: Perm)

  type Files = map<string, File>

  /** One rendered file: a mode may carry bits above the permission bits, which are not kept. */
  datatype Target = Target(path: string, content: Bytes, mode: nat)
  {
    function Perms(): Perm { mode % 512 }
    function New(): File { File(content, Perms()) }
  }

  /** A target while it is being installed, with what was captured before it was replaced. */
  datatype TargetFile = TargetFile(
    target: Target, written: bool, existed: bool, previous: Bytes, prevPerm: Perm)

  datatype Destination = Destination(check: bool, reload: bool)

  datatype Command = Check | Reload

  /** A command that was run, with the disk it saw. */
  datatype Seen = Seen(command: Command, disk: Files)

  /** Where an atomic write can fail. */
  datatype Stage =
    | MakeDirectory | CreateTemp | SetMode | Restrict | SetOwner
    | WriteContent(part: nat) | Sync | Close | Rename

  /** The targets, by position, for which a step fails; and what the commands answer. */
  datatype Answers = Answers(
    unmatched: set<nat>, unset: set<nat>, unowned: set<nat>,
    unreadable: set<nat>, unwritable: map<nat, Stage>, unrestorable: map<nat, Stage>,
    checked: bool, reloaded: bool, reloadedAgain: bool)

  // ---------- The specification ----------

  /** Two disks hold the same thing at a path, or both nothing. */
  ghost predicate Agree(x: Files, y: Files, p: string) {
    (p in x <==> p in y) && (p in x ==> x[p] == y[p])
  }

  /** The disk once the targets are written, in order. */
  function After(entry: Files, ts: seq<Target>): Files {
    if ts == [] then entry
    else After(entry, ts[..|ts| - 1])[ts[|ts| - 1].path := ts[|ts| - 1].New()]
  }

  /** Some target has this path. */
  predicate Writes(ts: seq<Target>, p: string) { exists i :: 0 <= i < |ts| && ts[i].path == p }

  /** Some written target of this path could be put back. */
  predicate Back(p: string, ts: seq<Target>, failing: set<nat>) {
    exists i :: 0 <= i < |ts| && ts[i].path == p && i !in failing
  }

  /** The disk once the written targets are put back, path by path: what was there at entry where
      some target of the path can be put back, what was written elsewhere. */
  function Restored(entry: Files, ts: seq<Target>, failing: set<nat>): Files {
    var written := After(entry, ts);
    map p | p in entry.Keys + written.Keys && (if Back(p, ts, failing) then p in entry else p in written)
      :: if Back(p, ts, failing) then entry[p] else written[p]
  }

  /** Every target's content is already on the disk and can be read. */
  predicate Matches(disk: Files, ts: seq<Target>, unmatched: set<nat>) {
    forall i | 0 <= i < |ts| :: i !in unmatched && ts[i].path in disk && disk[ts[i].path].content == ts[i].content
  }

  /** The disk once the modes of the targets are set, in order; contents stay. */
  function Enforced(disk: Files, ts: seq<Target>): Files {
    if ts == [] then disk
    else
      var before, t := Enforced(disk, ts[..|ts| - 1]), ts[|ts| - 1];
      if t.path in before then before[t.path := before[t.path].(perm := t.Perms())] else before
  }

  /** The first position in the range that is in the set, or the end of the range. */
  function FirstIn(bad: set<nat>, from: nat, end: nat): (k: nat)
    requires from <= end
    ensures from <= k <= end && (k < end ==> k in bad) && forall i | from <= i < k :: i !in bad
    decreases end - from
  {
    if from == end || from in bad then from else FirstIn(bad, from + 1, end)
  }

  /** How an install ends; `marks` says which targets are still marked as written. */
  datatype Outcome = Outcome(disk: Files, seen: seq<Seen>, marks: seq<bool>, report: Report)

  /** The marks left once the first `k` of `n` targets have been put back where possible. */
  function MarksLeft(n: nat, k: nat, unrestorable: set<nat>): (marks: seq<bool>)
    ensures |marks| == n && forall i | 0 <= i < n :: marks[i] == (i < k && i in unrestorable)
  {
    seq(n, i => i < k && i in unrestorable)
  }

  function AllMarks(n: nat, mark: bool): (marks: seq<bool>)
    ensures |marks| == n && forall i | 0 <= i < n :: marks[i] == mark
  {
    seq(n, _ => mark)
  }

  function RolledBack(entry: Files, ts: seq<Target>, seen: seq<Seen>, reloaded: bool, a: Answers): Outcome {
    var failing := a.unrestorable.Keys;
    var whole := FirstIn(failing, 0, |ts|) == |ts|;
    var disk := Restored(entry, ts, failing);
    Outcome(disk, seen + (if whole && reloaded then [Seen(Reload, disk)] else []),
            MarksLeft(|ts|, |ts|, failing), Report(InstallFailed, whole, true, false))
  }

  /** What the commands see and what they leave, the targets having been written. */
  function Confirmed(entry: Files, ts: seq<Target>, d: Destination, a: Answers): Outcome {
    var disk := After(entry, ts);
    var all := AllMarks(|ts|, true);
    var checks := if d.check then [Seen(Check, disk)] else [];
    if d.check && !a.checked then RolledBack(entry, ts, checks, false, a)
    else if !d.reload then Outcome(disk, checks, all, Report(Installed, false, true, false))
    else if !a.reloaded then RolledBack(entry, ts, checks + [Seen(Reload, disk)], true, a)
    else Outcome(disk, checks + [Seen(Reload, disk)], all, Report(Installed, false, true, true))
  }

  /** What is left when writing stops at the k-th target. */
  function Abandoned(entry: Files, ts: seq<Target>, k: nat, a: Answers): Outcome
    requires k <= |ts|
  {
    Outcome(Restored(entry, ts[..k], a.unrestorable.Keys), [], MarksLeft(|ts|, k, a.unrestorable.Keys),
            Report(InstallFailed, false, false, false))
  }

  /** One file install, whole: the disk, what the commands saw, the marks, and the report. */
  function Install(entry: Files, ts: seq<Target>, d: Destination, force: bool, a: Answers): (o: Outcome)
    ensures |o.marks| == |ts|
  {
    var n := |ts|;
    var none := AllMarks(n, false);
    if !force && Matches(entry, ts, a.unmatched) then
      var k := FirstIn(a.unset + a.unowned, 0, n);
      if k < n then
        Outcome(Enforced(entry, ts[..if k in a.unset then k else k + 1]), [], none,
                Report(InstallFailed, false, false, false))
      else Outcome(Enforced(entry, ts), [], none, Report(Installed, false, true, false))
    else if FirstIn(a.unreadable, 0, n) < n then
      Outcome(entry, [], none, Report(InstallFailed, false, false, false))
    else
      var k := FirstIn(a.unwritable.Keys, 0, n);
      if k < n then Abandoned(entry, ts, k, a) else Confirmed(entry, ts, d, a)
  }

  // ---------- The installer, step by step ----------

  lemma {:induction false} AfterKeys(entry: Files, ts: seq<Target>)
    ensures After(entry, ts).Keys == entry.Keys + (set t | t in ts :: t.path)
  {
    if ts != [] {
      var most := ts[..|ts| - 1];
      AfterKeys(entry, most);
      assert ts == most + [ts[|ts| - 1]];
    }
  }

  lemma AfterNone(entry: Files, ts: seq<Target>)
    ensures After(entry, ts[..0]) == entry
  {
  }

  lemma AfterStep(entry: Files, ts: seq<Target>, k: nat)
    requires k < |ts|
    ensures After(entry, ts[..k + 1]) == After(entry, ts[..k])[ts[k].path := ts[k].New()]
  {
    assert ts[..k + 1][..k] == ts[..k] && ts[..k + 1][k] == ts[k];
  }

  // ---------- What can be seen while an install is under way ----------

  /** A file that has the other's permissions and a first part of its content, or no content yet. */
  predicate Starts(f: File, g: File) { f.content == [] || (f.perm == g.perm && f.content <= g.content) }

  /** A path of the destination holds exactly one of the files it writes there. */
  predicate HoldsNew(state: Files, ts: seq<Target>, p: string) {
    exists i :: 0 <= i < |ts| && ts[i].path == p && p in state && state[p] == ts[i].New()
  }

  /** The disk between two writes: the destination's paths hold what they held at entry or what was
      written there, each file whole; nothing else differs from entry. */
  ghost predicate Between(disk: Files, entry: Files, ts: seq<Target>) {
    forall p: string :: Agree(disk, entry, p) || HoldsNew(disk, ts, p)
  }

  /** A file under construction: the beginning of one that is written or of one that is put back. */
  predicate Partial(f: File, entry: Files, ts: seq<Target>) {
    exists i :: 0 <= i < |ts| && (Starts(f, ts[i].New()) || (ts[i].path in entry && Starts(f, entry[ts[i].path])))
  }

  ghost predicate WholeAt(state: Files, entry: Files, ts: seq<Target>, p: string) {
    || Agree(state, entry, p) || HoldsNew(state, ts, p)
    || (!Writes(ts, p) && p !in entry && p in state && Partial(state[p], entry, ts))
  }

  /** Any state: as between two writes, but for files that were not there and that no target names,
      and those are under construction. */
  ghost predicate Whole(state: Files, entry: Files, ts: seq<Target>) {
    forall p: string :: WholeAt(state, entry, ts, p)
  }

  ghost predicate AllWhole(states: seq<Files>, from: nat, entry: Files, ts: seq<Target>) {
    from <= |states| && forall k | from <= k < |states| :: Whole(states[k], entry, ts)
  }

  /** What is written is one of the targets, or what one of them replaced. */
  predicate Writable(t: Target, entry: Files, ts: seq<Target>) {
    exists i :: 0 <= i < |ts| && ts[i].path == t.path
                && (t.New() == ts[i].New() || (t.path in entry && t.New() == entry[t.path]))
  }

  lemma SeemlyIsWhole(state: Files, was: Files, t: Target, taken: set<string>, entry: Files, ts: seq<Target>)
    requires Installer.Seemly(state, was, t, taken) && Between(was, entry, ts) && Writable(t, entry, ts)
    requires forall p | Writes(ts, p) :: p in taken
    ensures Whole(state, entry, ts)
  {
    forall p: string ensures WholeAt(state, entry, ts, p) {
      assert Agree(was, entry, p) || HoldsNew(was, ts, p);
      if p == t.path {
        var i :| 0 <= i < |ts| && ts[i].path == t.path
                 && (t.New() == ts[i].New() || (t.path in entry && t.New() == entry[t.path]));
        SeemlyAtTarget(state, was, t, taken, entry, ts, i);
      } else if p in was {
        assert Agree(state, was, p);
      } else if p in state {
        NewcomerIsPartial(state, was, t, taken, entry, ts, p);
      }
    }
  }

  lemma SeemlyAtTarget(state: Files, was: Files, t: Target, taken: set<string>, entry: Files, ts: seq<Target>, i: nat)
    requires Installer.Seemly(state, was, t, taken) && i < |ts| && ts[i].path == t.path
    requires Agree(was, entry, t.path) || HoldsNew(was, ts, t.path)
    requires t.New() == ts[i].New() || (t.path in entry && t.New() == entry[t.path])
    ensures WholeAt(state, entry, ts, t.path)
  {
  }

  lemma NewcomerIsPartial(state: Files, was: Files, t: Target, taken: set<string>, entry: Files, ts: seq<Target>, p: string)
    requires Installer.Seemly(state, was, t, taken) && Writable(t, entry, ts)
    requires Agree(was, entry, p) || HoldsNew(was, ts, p)
    requires forall q | Writes(ts, q) :: q in taken
    requires p != t.path && p !in was && p in state
    ensures WholeAt(state, entry, ts, p)
  {
    assert p !in taken && Starts(state[p], t.New());
  }

  lemma TargetIsWritable(entry: Files, ts: seq<Target>, k: nat)
    requires k < |ts|
    ensures Writable(ts[k], entry, ts)
  {
  }

  lemma EntryIsWritable(t: Target, entry: Files, ts: seq<Target>, i: nat)
    requires i < |ts| && ts[i].path == t.path && t.path in entry && t.New() == entry[t.path]
    ensures Writable(t, entry, ts)
  {
  }

  lemma SeemlyStates(before: seq<Files>, states: seq<Files>, from: nat, was: Files, t: Target, taken: set<string>,
                     entry: Files, ts: seq<Target>)
    requires before <= states && AllWhole(before, from, entry, ts)
    requires forall k | |before| <= k < |states| :: Installer.Seemly(states[k], was, t, taken)
    requires Between(was, entry, ts) && Writable(t, entry, ts) && forall p | Writes(ts, p) :: p in taken
    ensures AllWhole(states, from, entry, ts)
  {
    hide Installer.Seemly, Whole, Between, Writable;
    forall k | from <= k < |states| ensures Whole(states[k], entry, ts) {
      if k < |before| {
        assert states[k] == before[k];
      } else {
        SeemlyIsWhole(states[k], was, t, taken, entry, ts);
      }
    }
  }

  /** Removing a file that was not there at entry. */
  lemma RemovedIsWhole(disk: Files, entry: Files, ts: seq<Target>, path: string)
    requires Between(disk, entry, ts) && path !in entry
    ensures Whole(disk - {path}, entry, ts)
  {
    forall p: string ensures WholeAt(disk - {path}, entry, ts, p) {
      assert Agree(disk, entry, p) || HoldsNew(disk, ts, p);
    }
  }

  /** Between two writes every state is whole. */
  lemma BetweenIsWhole(disk: Files, entry: Files, ts: seq<Target>)
    requires Between(disk, entry, ts)
    ensures Whole(disk, entry, ts)
  {
    forall p: string ensures WholeAt(disk, entry, ts, p) {
      assert Agree(disk, entry, p) || HoldsNew(disk, ts, p);
    }
  }

  lemma {:induction false} AfterIsBetween(entry: Files, ts: seq<Target>, k: nat)
    requires k <= |ts|
    ensures Between(After(entry, ts[..k]), entry, ts)
  {
    if k > 0 {
      AfterIsBetween(entry, ts, k - 1);
      AfterStep(entry, ts, k - 1);
      var was, disk := After(entry, ts[..k - 1]), After(entry, ts[..k]);
      forall p: string ensures Agree(disk, entry, p) || HoldsNew(disk, ts, p) {
        assert Agree(was, entry, p) || HoldsNew(was, ts, p);
        if p == ts[k - 1].path { assert disk[p] == ts[k - 1].New(); }
      }
    } else {
      AfterNone(entry, ts);
    }
  }

  /** Setting the modes of files whose contents match leaves each as it was or as it is written. */
  lemma {:induction false} EnforcedIsBetween(entry: Files, ts: seq<Target>, unmatched: set<nat>, k: nat)
    requires k <= |ts| && Matches(entry, ts, unmatched)
    ensures Between(Enforced(entry, ts[..k]), entry, ts)
  {
    if k == 0 {
      NoneEnforced(entry);
      assert ts[..0] == [];
    } else {
      EnforcedIsBetween(entry, ts, unmatched, k - 1);
      EnforcedStep(entry, ts, k - 1);
      EnforcedKeeps(entry, ts[..k - 1]);
      var was, disk, t := Enforced(entry, ts[..k - 1]), Enforced(entry, ts[..k]), ts[k - 1];
      forall p: string ensures Agree(disk, entry, p) || HoldsNew(disk, ts, p) {
        assert Agree(was, entry, p) || HoldsNew(was, ts, p);
        if p == t.path { assert disk[p] == t.New(); }
      }
    }
  }

  lemma {:induction false} Longest(names: set<string>) returns (p: string)
    ensures forall q | q in names :: |q| < |p|
    decreases |names|
  {
    p := ".";
    if names != {} {
      var q :| q in names;
      p := Longest(names - {q});
      if |p| <= |q| { p := q + "."; }
    }
  }

  class Installer {
    var disk: Files
    var files: seq<TargetFile>
    /** The commands run, with the disk each one saw. */
    ghost var seen: seq<Seen>
    /** Every state the disk went through. */
    ghost var states: seq<Files>

    ghost predicate For(ts: seq<Target>) reads this {
      |files| == |ts| && forall i | 0 <= i < |ts| :: files[i].target == ts[i]
    }

    /** What was captured is what was there at entry. */
    ghost predicate Captured(entry: Files) reads this {
      forall i | 0 <= i < |files| ::
        && files[i].existed == (files[i].target.path in entry)
        && (files[i].existed ==> File(files[i].previous, files[i].prevPerm) == entry[files[i].target.path])
    }

    constructor (disk: Files, ts: seq<Target>)
      ensures this.disk == disk && For(ts) && seen == [] && states == []
      ensures forall i | 0 <= i < |ts| :: !files[i].written
    {
      this.disk := disk;
      files := seq(|ts|, i requires 0 <= i < |ts| => TargetFile(ts[i], false, false, [], 0));
      seen, states := [], [];
    }

    /** The paths of the targets. */
    ghost function Taken(): set<string>
      reads this
    {
      set i | 0 <= i < |files| :: files[i].target.path
    }

    /** A state seen while one target is written over `was`: the path holds what it held before or
        exactly the new file, no other file changes, and the temporary file, which takes no
        target's name, holds content under the final permissions only. */
    static ghost predicate Seemly(state: Files, was: Files, t: Target, taken: set<string>) {
      && (Agree(state, was, t.path) || (t.path in state && state[t.path] == t.New()))
      && (forall p | p in was && p != t.path :: Agree(state, was, p))
      && (forall p | p in state && p !in was && p != t.path :: p !in taken && Starts(state[p], t.New()))
    }

    /** Create the temporary file, or change it. */
    method SetTemp(ghost was: Files, t: Target, temp: string, f: File, ghost taken: set<string>)
      requires temp !in was && temp != t.path && temp !in taken && disk - {temp} == was
      requires Starts(f, t.New())
      modifies this`disk, this`states
      ensures disk - {temp} == was
      ensures states == old(states) + [disk] && Seemly(disk, was, t, taken)
    {
      disk := disk[temp := f];
      assert disk - {temp} == was;
      states := states + [disk];
    }

    /** Replace one file by way of a temporary one beside it, which is removed in the end whether
        or not the write succeeds. */
    method WriteAtomic(t: Target, fails: bool, stage: Stage) returns (ok: bool)
      modifies this`disk, this`states
      ensures ok == !fails
      ensures disk == if ok then old(disk)[t.path := t.New()] else old(disk)
      ensures old(states) <= states
      ensures forall k | |old(states)| <= k < |states| :: Seemly(states[k], old(disk), t, Taken())
    {
      hide Seemly;
      if fails && (stage.MakeDirectory? || stage.CreateTemp?) {
        return false;
      }
      ghost var was := disk;
      FreshName(t.path);
      var temp :| temp !in disk && temp != t.path && forall i | 0 <= i < |files| :: files[i].target.path != temp;
      assert disk - {temp} == was;
      SetTemp(was, t, temp, File([], 0x180), Taken());
      if !(fails && stage.SetMode?) {
        SetTemp(was, t, temp, File([], t.Perms()), Taken());
        if !(fails && (stage.Restrict? || stage.SetOwner?)) {
          var part := if fails && stage.WriteContent? && stage.part < |t.content|
                      then t.content[..stage.part] else t.content;
          SetTemp(was, t, temp, File(part, t.Perms()), Taken());
        }
      }
      disk := disk - {temp};
      if !fails {
        disk := disk[t.path := t.New()];
      }
      states := states + [disk];
      EndIsSeemly(was, t, Taken());
      ok := !fails;
    }

    static lemma EndIsSeemly(was: Files, t: Target, taken: set<string>)
      ensures Seemly(was[t.path := t.New()], was, t, taken) && Seemly(was, was, t, taken)
    {
    }

    lemma FreshName(path: string)
      ensures exists p: string :: p !in disk && p != path && forall i | 0 <= i < |files| :: files[i].target.path != p
    {
      var p := Longest(disk.Keys + {path} + Taken());
      assert forall i | 0 <= i < |files| :: files[i].target.path in Taken();
    }

    /** Remember what is at every target's path. */
    method CaptureAll(ts: seq<Target>, unreadable: set<nat>) returns (ok: bool)
      requires For(ts) && forall i | 0 <= i < |ts| :: !files[i].written
      modifies this`files
      ensures For(ts) && forall i | 0 <= i < |ts| :: !files[i].written
      ensures ok == (FirstIn(unreadable, 0, |ts|) == |ts|)
      ensures ok ==> Captured(disk)
    {
      var k := 0;
      while k < |files|
        invariant 0 <= k <= |files| && For(ts) && forall i | 0 <= i < |ts| :: !files[i].written
        invariant FirstIn(unreadable, 0, |ts|) == FirstIn(unreadable, k, |ts|)
        invariant forall i | 0 <= i < k ::
          && files[i].existed == (ts[i].path in disk)
          && (files[i].existed ==> File(files[i].previous, files[i].prevPerm) == disk[ts[i].path])
      {
        if k in unreadable {
          return false;
        }
        var p := files[k].target.path;
        if p in disk {
          files := files[k := files[k].(existed := true, previous := disk[p].content, prevPerm := disk[p].perm)];
        } else {
          files := files[k := files[k].(existed := false)];
        }
        k := k + 1;
      }
      ok := true;
    }

    /** Write one target and mark it. */
    method WriteOne(ghost entry: Files, ghost ts: seq<Target>, k: nat, a: Answers) returns (ok: bool)
      requires For(ts) && k < |ts| && Between(disk, entry, ts)
      modifies this`disk, this`states, this`files
      ensures ok == (k !in a.unwritable)
      ensures disk == if ok then old(disk)[ts[k].path := ts[k].New()] else old(disk)
      ensures files == if ok then old(files)[k := old(files)[k].(written := true)] else old(files)
      ensures old(states) <= states && AllWhole(states, |old(states)|, entry, ts)
    {
      hide Seemly, Whole, Between, Writable;
      ghost var was, before := disk, states;
      TakenAre(ts);
      TargetIsWritable(entry, ts, k);
      var fails := k in a.unwritable;
      ok := WriteAtomic(files[k].target, fails, if fails then a.unwritable[k] else Rename);
      SeemlyStates(before, states, |before|, was, ts[k], Taken(), entry, ts);
      if ok {
        files := files[k := files[k].(written := true)];
      }
    }

    /** Write every target in turn; at the first failure put back the ones already written. */
    method WriteAll(ts: seq<Target>, a: Answers) returns (ok: bool)
      requires For(ts) && Captured(disk) && forall i | 0 <= i < |ts| :: !files[i].written
      modifies this`disk, this`states, this`files
      ensures For(ts) && Captured(old(disk))
      ensures old(states) <= states && AllWhole(states, |old(states)|, old(disk), ts)
      ensures ok == (FirstIn(a.unwritable.Keys, 0, |ts|) == |ts|)
      ensures var k := FirstIn(a.unwritable.Keys, 0, |ts|);
              && disk == (if ok then After(old(disk), ts) else Abandoned(old(disk), ts, k, a).disk)
              && Marks() == (if ok then AllMarks(|ts|, true) else Abandoned(old(disk), ts, k, a).marks)
    {
      hide After, Restored, Whole, Between;
      ghost var entry := disk;
      AfterNone(entry, ts);
      var k := 0;
      while k < |files|
        invariant 0 <= k <= |files| && For(ts) && Captured(entry)
        invariant forall i | 0 <= i < |ts| :: files[i].written == (i < k)
        invariant disk == After(entry, ts[..k])
        invariant old(states) <= states && AllWhole(states, |old(states)|, entry, ts)
        invariant FirstIn(a.unwritable.Keys, 0, |ts|) == FirstIn(a.unwritable.Keys, k, |ts|)
      {
        AfterIsBetween(entry, ts, k);
        ok := WriteOne(entry, ts, k, a);
        if !ok {
          var _ := Restore(entry, ts, k, a);
          return false;
        }
        AfterStep(entry, ts, k);
        k := k + 1;
      }
      assert ts[..k] == ts;
      ok := true;
    }

    lemma TakenAre(ts: seq<Target>)
      requires For(ts)
      ensures forall p | Writes(ts, p) :: p in Taken()
    {
    }

    ghost function Marks(): (marks: seq<bool>)
      reads this
      ensures |marks| == |files| && forall i | 0 <= i < |files| :: marks[i] == files[i].written
    {
      seq(|files|, i requires 0 <= i < |files| reads this => files[i].written)
    }

    /** Put one written target back: rewrite what was captured, or remove what was not there. */
    method RestoreOne(ghost entry: Files, ghost ts: seq<Target>, idx: nat, a: Answers) returns (ok: bool)
      requires For(ts) && Captured(entry) && idx < |files| && files[idx].written && Between(disk, entry, ts)
      modifies this`disk, this`states, this`files
      ensures ok == (idx !in a.unrestorable)
      ensures files == old(files)[idx := old(files)[idx].(written := !ok)]
      ensures if ok
              then Agree(disk, entry, files[idx].target.path)
                   && forall p | p != files[idx].target.path :: Agree(disk, old(disk), p)
              else disk == old(disk)
      ensures old(states) <= states && AllWhole(states, |old(states)|, entry, ts)
    {
      hide Seemly, Whole, Between, Writable;
      var f := files[idx];
      ok := idx !in a.unrestorable;
      if f.existed {
        ghost var was, before := disk, states;
        var t := Target(f.target.path, f.previous, f.prevPerm);
        TakenAre(ts);
        EntryIsWritable(t, entry, ts, idx);
        ok := WriteAtomic(t, !ok, if ok then Rename else a.unrestorable[idx]);
        SeemlyStates(before, states, |before|, was, t, Taken(), entry, ts);
      } else if ok {
        RemovedIsWhole(disk, entry, ts, f.target.path);
        disk := disk - {f.target.path};
        states := states + [disk];
      }
      files := files[idx := f.(written := !ok)];
    }

    /** Put back, last first, every target that was written. */
    method Restore(ghost entry: Files, ghost ts: seq<Target>, ghost k: nat, a: Answers) returns (ok: bool)
      requires For(ts) && Captured(entry) && k <= |ts| && disk == After(entry, ts[..k])
      requires forall i | 0 <= i < |ts| :: files[i].written == (i < k)
      modifies this`disk, this`states, this`files
      ensures For(ts) && Captured(entry)
      ensures old(states) <= states && AllWhole(states, |old(states)|, entry, ts)
      ensures disk == Restored(entry, ts[..k], a.unrestorable.Keys)
      ensures Marks() == MarksLeft(|ts|, k, a.unrestorable.Keys)
      ensures ok == (FirstIn(a.unrestorable.Keys, 0, k) == k)
    {
      hide After, Restored, Halfway, Whole, Between;
      AfterIsBetween(entry, ts, k);
      ghost var failing, written := a.unrestorable.Keys, disk;
      HalfwayAtFirst(entry, disk, ts, k, failing);
      ok := true;
      var idx := |files|;
      while idx > 0
        invariant 0 <= idx <= |files| && For(ts) && Captured(entry)
        invariant forall i | 0 <= i < |ts| :: files[i].written == (i < k && (i < idx || i in failing))
        invariant Halfway(disk, entry, written, ts, idx, k, failing)
        invariant ok == forall i | idx <= i < k :: i !in failing
        invariant old(states) <= states && AllWhole(states, |old(states)|, entry, ts)
      {
        idx := idx - 1;
        ghost var was := disk;
        if files[idx].written {
          HalfwayIsBetween(disk, entry, written, ts, idx + 1, k, failing);
          var done := RestoreOne(entry, ts, idx, a);
          ok := ok && done;
        }
        PutBackOne(entry, written, was, disk, ts, idx, k, failing);
      }
      RestoredIs(entry, disk, ts, k, failing);
    }

    /** Whether every file already holds what would be written. */
    method FilesMatch(ts: seq<Target>, unmatched: set<nat>) returns (same: bool)
      requires For(ts)
      ensures same == Matches(disk, ts, unmatched)
    {
      var k := 0;
      while k < |files|
        invariant 0 <= k <= |files|
        invariant Matches(disk, ts[..k], unmatched)
      {
        var t := files[k].target;
        if k in unmatched || t.path !in disk || disk[t.path].content != t.content {
          assert ts[k] == t;
          return false;
        }
        k := k + 1;
      }
      assert ts[..k] == ts;
      same := true;
    }

    /** Set the declared modes without touching contents. */
    method Enforce(ts: seq<Target>, a: Answers) returns (ok: bool)
      requires For(ts) && Matches(disk, ts, a.unmatched)
      modifies this`disk, this`states
      ensures old(states) <= states && AllWhole(states, |old(states)|, old(disk), ts)
      ensures var k := FirstIn(a.unset + a.unowned, 0, |ts|);
              && ok == (k == |ts|)
              && disk == Enforced(old(disk), if ok then ts else ts[..if k in a.unset then k else k + 1])
    {
      hide Enforced, Whole, Between;
      var k := 0;
      NoneEnforced(disk);
      assert ts[..0] == [];
      while k < |files|
        invariant 0 <= k <= |files|
        invariant disk == Enforced(old(disk), ts[..k])
        invariant old(states) <= states && AllWhole(states, |old(states)|, old(disk), ts)
        invariant FirstIn(a.unset + a.unowned, 0, |ts|) == FirstIn(a.unset + a.unowned, k, |ts|)
      {
        if k in a.unset {
          return false;
        }
        var t := files[k].target;
        EnforcedStep(old(disk), ts, k);
        if disk[t.path].perm != t.mode {
          disk := disk[t.path := disk[t.path].(perm := t.Perms())];
          EnforcedIsBetween(old(disk), ts, a.unmatched, k + 1);
          BetweenIsWhole(disk, old(disk), ts);
          states := states + [disk];
        }
        if k in a.unowned {
          return false;
        }
        k := k + 1;
      }
      assert ts[..k] == ts;
      ok := true;
    }

    ghost predicate Ends(entry: Files, before: seq<Seen>, o: Outcome, out: Report)
      reads this
    {
      disk == o.disk && seen == before + o.seen && Marks() == o.marks && out == o.report
    }

    /** Put the files back, and if they had been loaded reload onto them. */
    method Rollback(ghost entry: Files, ghost ts: seq<Target>, reloaded: bool, a: Answers,
                    ghost before: seq<Seen>, ghost checks: seq<Seen>)
      returns (out: Report)
      requires For(ts) && Captured(entry) && disk == After(entry, ts)
      requires forall i | 0 <= i < |ts| :: files[i].written
      requires seen == before + checks
      modifies this
      ensures old(states) <= states && AllWhole(states, |old(states)|, entry, ts)
      ensures Ends(entry, before, RolledBack(entry, ts, checks, reloaded, a), out)
    {
      hide Whole;
      assert ts[..|ts|] == ts;
      out := Report(InstallFailed, false, true, false);
      var ok := Restore(entry, ts, |ts|, a);
      if !ok {
        return;
      }
      out := out.(rolledBack := true);
      if reloaded {
        seen := seen + [Seen(Reload, disk)];
      }
    }

    /** Check, then reload; roll back if either fails. */
    method Confirm(ghost entry: Files, ghost ts: seq<Target>, d: Destination, a: Answers) returns (out: Report)
      requires For(ts) && Captured(entry) && disk == After(entry, ts)
      requires forall i | 0 <= i < |ts| :: files[i].written
      modifies this
      ensures old(states) <= states && AllWhole(states, |old(states)|, entry, ts)
      ensures Ends(entry, old(seen), Confirmed(entry, ts, d, a), out)
    {
      hide After, RolledBack, Whole;
      ghost var before := seen;
      if d.check {
        seen := seen + [Seen(Check, disk)];
        if !a.checked {
          out := Rollback(entry, ts, false, a, before, [Seen(Check, disk)]);
          return;
        }
      }
      if !d.reload {
        return Report(Installed, false, true, false);
      }
      seen := seen + [Seen(Reload, disk)];
      if !a.reloaded {
        out := Rollback(entry, ts, true, a, before,
                        (if d.check then [Seen(Check, disk)] else []) + [Seen(Reload, disk)]);
        return;
      }
      out := Report(Installed, false, true, true);
    }

    /** Install the rendered files. At every moment each path of the destination holds what it held
        at entry or a file written there, whole. */
    method InstallFiles(ts: seq<Target>, d: Destination, force: bool, a: Answers) returns (out: Report)
      requires For(ts) && forall i | 0 <= i < |ts| :: !files[i].written
      modifies this
      ensures Ends(old(disk), old(seen), Install(old(disk), ts, d, force, a), out)
      ensures old(states) <= states && AllWhole(states, |old(states)|, old(disk), ts)
    {
      hide After, RolledBack, Confirmed, Restored, Enforced, Whole;
      ghost var entry := disk;
      out := Report(InstallFailed, false, false, false);
      if !force {
        var same := FilesMatch(ts, a.unmatched);
        if same {
          var set' := Enforce(ts, a);
          if set' {
            out := Report(Installed, false, true, false);
          }
          return;
        }
      }
      var captured := CaptureAll(ts, a.unreadable);
      if !captured {
        return;
      }
      var written := WriteAll(ts, a);
      if written {
        out := Confirm(entry, ts, d, a);
      }
    }
  }

  lemma NoneEnforced(disk: Files)
    ensures Enforced(disk, []) == disk
  {
  }

  lemma EnforcedStep(disk: Files, ts: seq<Target>, k: nat)
    requires k < |ts| && ts[k].path in disk
    ensures var before := Enforced(disk, ts[..k]);
            && ts[k].path in before
            && Enforced(disk, ts[..k + 1]) == before[ts[k].path := before[ts[k].path].(perm := ts[k].Perms())]
  {
    EnforcedKeeps(disk, ts[..k]);
    assert ts[..k + 1][..k] == ts[..k] && ts[..k + 1][k] == ts[k];
  }

  /** Setting modes leaves every content as it was. */
  lemma {:induction false} EnforcedKeeps(disk: Files, ts: seq<Target>)
    ensures Enforced(disk, ts).Keys == disk.Keys
    ensures forall p | p in disk :: Enforced(disk, ts)[p].content == disk[p].content
  {
    if ts != [] {
      EnforcedKeeps(disk, ts[..|ts| - 1]);
    }
  }

  /** One of the targets at a position of the range has this path and can be put back. */
  ghost predicate PutBack(p: string, ts: seq<Target>, from: nat, to: nat, failing: set<nat>)
    requires to <= |ts|
  {
    exists i :: from <= i < to && ts[i].path == p && i !in failing
  }

  /** The paths of the range that can be put back are as at entry, the others as written. */
  ghost predicate Halfway(disk: Files, entry: Files, written: Files, ts: seq<Target>, from: nat, to: nat, failing: set<nat>)
    requires to <= |ts|
  {
    forall p: string :: HalfwayAt(p, disk, entry, written, ts, from, to, failing)
  }

  ghost predicate HalfwayAt(p: string, disk: Files, entry: Files, written: Files, ts: seq<Target>, from: nat, to: nat, failing: set<nat>)
    requires to <= |ts|
  {
    Agree(disk, if PutBack(p, ts, from, to, failing) then entry else written, p)
  }

  lemma HalfwayAtFirst(entry: Files, disk: Files, ts: seq<Target>, k: nat, failing: set<nat>)
    requires k <= |ts|
    ensures Halfway(disk, entry, disk, ts, |ts|, k, failing)
  {
    forall p: string ensures HalfwayAt(p, disk, entry, disk, ts, |ts|, k, failing) {
    }
  }

  /** One step of restoring, path by path. */
  lemma PutBackOne(entry: Files, written: Files, was: Files, disk: Files, ts: seq<Target>, idx: nat, k: nat, failing: set<nat>)
    requires k <= |ts| && idx < |ts|
    requires Halfway(was, entry, written, ts, idx + 1, k, failing)
    requires if idx < k && idx !in failing
             then Agree(disk, entry, ts[idx].path) && forall p | p != ts[idx].path :: Agree(disk, was, p)
             else disk == was
    ensures Halfway(disk, entry, written, ts, idx, k, failing)
  {
    forall p: string ensures HalfwayAt(p, disk, entry, written, ts, idx, k, failing) {
      assert HalfwayAt(p, was, entry, written, ts, idx + 1, k, failing);
      var here := idx < k && idx !in failing && ts[idx].path == p;
      if here {
        assert PutBack(p, ts, idx, k, failing);
      } else {
        assert PutBack(p, ts, idx, k, failing) <==> PutBack(p, ts, idx + 1, k, failing);
        if p != ts[idx].path { assert Agree(disk, was, p); }
      }
    }
  }

  lemma HalfwayIsBetween(disk: Files, entry: Files, written: Files, ts: seq<Target>, from: nat, to: nat, failing: set<nat>)
    requires to <= |ts| && Halfway(disk, entry, written, ts, from, to, failing) && Between(written, entry, ts)
    ensures Between(disk, entry, ts)
  {
    hide PutBack;
    forall p: string ensures Agree(disk, entry, p) || HoldsNew(disk, ts, p) {
      assert HalfwayAt(p, disk, entry, written, ts, from, to, failing);
      assert Agree(written, entry, p) || HoldsNew(written, ts, p);
    }
  }

  lemma RestoredIs(entry: Files, disk: Files, ts: seq<Target>, k: nat, failing: set<nat>)
    requires k <= |ts| && Halfway(disk, entry, After(entry, ts[..k]), ts, 0, k, failing)
    ensures disk == Restored(entry, ts[..k], failing)
  {
    var restored := Restored(entry, ts[..k], failing);
    forall p: string ensures Agree(disk, restored, p) {
      assert HalfwayAt(p, disk, entry, After(entry, ts[..k]), ts, 0, k, failing);
      if PutBack(p, ts, 0, k, failing) {
        var i :| 0 <= i < k && ts[i].path == p && i !in failing;
        assert ts[..k][i].path == p;
      }
    }
    assert disk.Keys == restored.Keys by {
      forall p ensures p in disk.Keys <==> p in restored.Keys { assert Agree(disk, restored, p); }
    }
    forall p | p in disk ensures disk[p] == restored[p] { assert Agree(disk, restored, p); }
  }
}
