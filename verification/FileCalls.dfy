/**
 What a file install runs, reports and leaves of the modes, in full, told from its outcome rather than
 step by step (install.go).
 */
module FileCalls {
  import opened Prelude
  import opened FileInstall
  import opened FileGuarantees

  /** Every file could be captured and written. */
  predicate AllWritten(entry: Files, ts: seq<Target>, force: bool, a: Answers) {
    Rewrites(entry, ts, force, a) && forall i | 0 <= i < |ts| :: i !in a.unreadable && i !in a.unwritable
  }

  /**
   The commands in full. None runs unless every file was written. Then the check, if declared, sees the
   new files; the reload, if declared, sees them once the check has passed; and if that reload fails and
   every file can be put back, the service is reloaded once more, on the files that were there before.
   */
  lemma SeenInFull(entry: Files, ts: seq<Target>, d: Destination, force: bool, a: Answers)
    ensures var written, passed := AllWritten(entry, ts, force, a), d.check ==> a.checked;
            Install(entry, ts, d, force, a).seen ==
              if !written then []
              else
                (if d.check then [Seen(Check, After(entry, ts))] else [])
                + (if passed && d.reload then [Seen(Reload, After(entry, ts))] else [])
                + (if passed && d.reload && !a.reloaded && (forall i | 0 <= i < |ts| :: i !in a.unrestorable)
                   then [Seen(Reload, entry)] else [])
  {
    hide After, Restored, Enforced;
    if forall i | 0 <= i < |ts| :: i !in a.unrestorable {
      RestoredWhole(entry, ts, a.unrestorable.Keys);
    }
  }

  /** A service is not left running on files that were put back: a failed reload whose restores all work is
      followed by exactly one more, on the disk as it was at entry, and that is the disk in the end. */
  lemma FailedReloadIsTakenBack(entry: Files, ts: seq<Target>, d: Destination, force: bool, a: Answers)
    requires AllWritten(entry, ts, force, a) && d.reload && !a.reloaded && (d.check ==> a.checked)
    requires forall i | 0 <= i < |ts| :: i !in a.unrestorable
    ensures var o := Install(entry, ts, d, force, a);
            && o.disk == entry && |o.seen| == (if d.check then 3 else 2)
            && o.seen[|o.seen| - 2] == Seen(Reload, After(entry, ts)) && o.seen[|o.seen| - 1] == Seen(Reload, entry)
  {
    hide After, Restored, Enforced, Install;
    SeenInFull(entry, ts, d, force, a);
    RewritingIsUndone(entry, ts, d, force, a);
    ReportInFull(entry, ts, d, force, a);
  }

  /**
   The report in full. Matching files that are not forced are installed if every mode and owner could be
   set; otherwise everything has to be written, checked and reloaded as declared. An install time is
   given once everything is written, or if everything matched and was set; a reload time if the reload
   worked.
   */
  lemma ReportInFull(entry: Files, ts: seq<Target>, d: Destination, force: bool, a: Answers)
    ensures var report := Install(entry, ts, d, force, a).report;
            var set' := forall i | 0 <= i < |ts| :: i !in a.unset && i !in a.unowned;
            if !Rewrites(entry, ts, force, a) then
              && report.status == (if set' then Installed else InstallFailed)
              && !report.rolledBack && (report.dated <==> set') && !report.reloaded
            else
              var written, passed := AllWritten(entry, ts, force, a), d.check ==> a.checked;
              && report.status == (if written && passed && (d.reload ==> a.reloaded) then Installed else InstallFailed)
              && (report.dated <==> written) && (report.reloaded <==> written && passed && d.reload && a.reloaded)
  {
    hide After, Restored, Enforced;
  }

  /**
   Setting modes that stops half way. Up to the first target whose mode cannot be set, or up to and with
   the first whose owner cannot, the last target of each path has its permissions; every other path is as
   at entry; and no content changes.
   */
  lemma ModesSetInPart(entry: Files, ts: seq<Target>, d: Destination, a: Answers, k: nat)
    requires !Rewrites(entry, ts, false, a) && k < |ts| && (k in a.unset || k in a.unowned)
    requires forall i | 0 <= i < k :: i !in a.unset && i !in a.unowned
    ensures var disk, n := Install(entry, ts, d, false, a).disk, if k in a.unset then k else k + 1;
            && disk.Keys == entry.Keys && (forall p | p in entry :: disk[p].content == entry[p].content)
            && (forall i | 0 <= i < n && (forall j | i < j < n :: ts[j].path != ts[i].path) ::
                  ts[i].path in disk && disk[ts[i].path].perm == ts[i].Perms())
            && (forall p: string | (forall i | 0 <= i < n :: ts[i].path != p) :: Agree(disk, entry, p))
  {
    hide Enforced, After, Restored;
    var n := if k in a.unset then k else k + 1;
    var some := ts[..n];
    assert FirstIn(a.unset + a.unowned, 0, |ts|) == k;
    EnforcedKeeps(entry, some);
    forall i | 0 <= i < n && (forall j | i < j < n :: ts[j].path != ts[i].path)
      ensures ts[i].path in Enforced(entry, some) && Enforced(entry, some)[ts[i].path].perm == ts[i].Perms()
    {
      assert some[i] == ts[i];
      LastModeWins(entry, some, i);
    }
    forall p: string | (forall i | 0 <= i < n :: ts[i].path != p) ensures Agree(Enforced(entry, some), entry, p) {
      assert !Writes(some, p);
      EnforcedElsewhere(entry, some, p);
    }
  }
}
