/**
 What a declared destination comes to, told from the declaration and from what is held (install.go,
 installfs.go): whose certificate it takes, what it puts where, and what it runs.
 */
module TaskMeaning {
  import opened Prelude
  import opened Text
  import opened InstallSpec
  import opened Apply
  import F = FileInstall
  import S = StoreInstall

  /** One of the certificate's names, without a trailing dot and in lower case, is the cleaned name. */
  predicate Bears(h: HeldCert, name: string) {
    exists i :: 0 <= i < |h.names| && Lower(TrimSuffix(h.names[i], ".")) == CleanName(name)
  }

  /** The certificate found bears the name and no earlier one does; none is found exactly when none does. */
  lemma {:induction false} FindHeldExactly(held: seq<HeldCert>, name: string)
    ensures match FindHeld(held, name)
            case Some(h) => exists k :: IsFirst(held, name, k) && held[k] == h
            case None => forall k | 0 <= k < |held| :: !Bears(held[k], name)
  {
    hide Lower, TrimSuffix, CleanName;
    if held == [] {
    } else if Bears(held[0], name) {
      assert IsFirst(held, name, 0);
    } else {
      var rest := held[1..];
      FindHeldExactly(rest, name);
      if FindHeld(rest, name).Some? {
        var k :| IsFirst(rest, name, k) && rest[k] == FindHeld(rest, name).value;
        assert IsFirst(held, name, k + 1) && held[k + 1] == rest[k];
      }
      assert forall k | 0 < k < |held| :: held[k] == rest[k - 1];
    }
  }

  /** The first held certificate that bears the name is this one. */
  predicate IsFirst(held: seq<HeldCert>, name: string, k: int) {
    0 <= k < |held| && Bears(held[k], name) && forall j | 0 <= j < k :: !Bears(held[j], name)
  }

  /** The files a destination comes to are made of this material. */
  ghost predicate FilesOf(t: Task, d: Destination, m: Material, a: Answers) {
    && t.Files? && a.owned && Render(d, m, a.keystore).Some?
    && var files := Render(d, m, a.keystore).value;
       && |t.targets| == |files|
       && (forall i | 0 <= i < |files| ::
             && t.targets[i].path == files[i].path && t.targets[i].mode == files[i].mode
             && t.targets[i].content == ContentBytes(files[i].content, m, a.keystore.GetOr([])))
       && (t.commands.check <==> ListOf(d.check) != []) && (t.commands.reload <==> ListOf(d.reload) != [])
  }

  /** The store install a destination comes to is of this certificate. */
  ghost predicate StoreInstallOf(t: Task, d: Destination, m: Material, env: Env) {
    && t.InStore? && env.storeOf(d.store) == Some(t.c.store) && env.thumb(m.cert) == Some(t.c.thumb)
    && t.d.name == d.name && t.d.store == t.c.store
    && (t.d.bind == if ListOf(d.bind) == [] then None else Some(env.endpoint(ListOf(d.bind))))
    && (t.d.reload <==> ListOf(d.reload) != []) && (t.d.verify <==> !Blank(d.verify))
  }

  /** What a destination comes to with the material of a held certificate, if that can be read. */
  ghost predicate TakesMaterial(t: Task, d: Destination, material: Option<Material>, env: Env, a: Answers) {
    match material
    case None => t == Stop(Report(InstallFailed, false, false, false))
    case Some(m) =>
      if t.Stop? then
        && t.report == Report(InstallFailed, false, false, false)
        && if d.ToStore() then env.storeOf(d.store).None? || env.thumb(m.cert).None? else Render(d, m, a.keystore).None? || !a.owned
      else if d.ToStore() then StoreInstallOf(t, d, m, env)
      else FilesOf(t, d, m, a)
  }

  /**
   What a destination comes to. Without a held certificate that bears its name it is unfulfilled. With
   one, it takes the first that does: its material is put into the files rendered, or its thumbprint into
   the store declared, and check, reload, bind and verify run exactly if they are declared. It fails
   before any of that exactly when something it needs cannot be read, understood, rendered or owned.
   */
  lemma TaskIsOfTheFirst(d: Destination, env: Env, a: Answers)
    ensures var t := TaskOf(d, env, a);
            if forall k | 0 <= k < |env.held| :: !Bears(env.held[k], d.certificate) then
              t == Stop(Report(Unfulfilled, false, false, false))
            else exists k :: IsFirst(env.held, d.certificate, k) && TakesMaterial(t, d, env.held[k].material, env, a)
  {
    hide FindHeld, Bears, Render, Destination.ToStore, Blank;
    FindHeldExactly(env.held, d.certificate);
    if FindHeld(env.held, d.certificate).Some? {
      var h := FindHeld(env.held, d.certificate).value;
      var k :| IsFirst(env.held, d.certificate, k) && env.held[k] == h;
      assert TakesMaterial(TaskOf(d, env, a), d, h.material, env, a);
    }
  }

  // ---------- Forced ----------

  /** A destination that is forced is reinstalled, whatever is there already: its files are written, or
      its certificate imported, unless something it needs cannot be read or written. */
  lemma ForcedIsReinstalled(w: World, j: Job)
    requires j.force
    ensures var done, a := DoJob(w, j), j.answers;
            match j.task
            case Stop(report) => done.report == report && done.world == w && done.seen == [] && done.calls == []
            case Files(ts, commands) =>
              done.report.status == Installed ==>
                && done.world.files == F.After(w.files, ts) && done.world.host == w.host
                && (commands.reload ==> F.Seen(F.Reload, F.After(w.files, ts)) in done.seen)
            case InStore(d, c) =>
              && done.world.files == w.files
              && (a.store.readable && a.store.encodable ==> S.Import(c, a.store.imported) in done.calls)
  {
    hide F.After, F.Restored, F.Enforced, S.Replay, S.FirstNamed;
    match j.task
    case Stop(_) =>
    case Files(ts, commands) =>
      var o := F.Install(w.files, ts, commands, true, j.answers.file);
      if o.report.status == Installed && commands.reload {
        assert o.seen[|o.seen| - 1] == F.Seen(F.Reload, F.After(w.files, ts));
      }
    case InStore(d, c) =>
      var calls := S.InstallPlan(w.host, d, c, true, j.answers.store).calls;
      if j.answers.store.readable && j.answers.store.encodable {
        assert calls[1] == S.Import(c, j.answers.store.imported);
      }
  }
}
