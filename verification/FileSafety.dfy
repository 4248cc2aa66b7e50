/** What updates leave alone: other paths, and directories unless force is set. */
module FileSafety {
  import opened Core
  import opened Text
  import opened Changes
  import opened FileSystem
  import opened FileTheorems
  import Attrs = AttrSpec

  /** Nothing outside the subtree of `name` differs. */
  ghost predicate Confined(files: Files, files': Files, name: string) {
    forall q :: !Within(name, q) ==> (q in files <==> q in files') && (q in files ==> files'[q] == files[q])
  }

  /** Every directory is still one. */
  ghost predicate KeepsDirectories(files: Files, files': Files) {
    forall q :: q in files && files[q].Directory? ==> q in files' && files'[q].Directory?
  }

  /** Only the node at `name` may differ, and neither from nor to a directory unless it is new. */
  ghost predicate OnlyAt(files: Files, files': Files, name: string) {
    && (forall q :: q != name ==> (q in files <==> q in files') && (q in files ==> files'[q] == files[q]))
    && (name in files && files[name].Directory? ==> name in files' && files'[name].Directory?)
  }

  lemma OnlyAtIsConfined(files: Files, files': Files, name: string)
    requires OnlyAt(files, files', name)
    ensures Confined(files, files', name) && KeepsDirectories(files, files')
  {
  }

  /** `chmod` would follow a link, so none is asked for when there is one. */
  predicate ModeStays(files: Files, upd: Update) {
    upd.Name() in files && files[upd.Name()].Link? ==> !upd.should.Get("mode").IsSet()
  }

  lemma UpdateOwnerOnlyAt(w: World, upd: Update, env: Faults)
    ensures OnlyAt(w.files, UpdateOwner(w, upd, env).w.files, upd.Name())
    ensures ModeStays(w.files, upd) ==> ModeStays(UpdateOwner(w, upd, env).w.files, upd)
  {
    hide ParseId;
  }

  lemma UpdateModeOnlyAt(w: World, upd: Update, env: Faults)
    requires ModeStays(w.files, upd)
    ensures OnlyAt(w.files, UpdateMode(w, upd, env).w.files, upd.Name())
  {
    hide ParseMode;
  }

  lemma UpdateMetadataOnlyAt(w: World, upd: Update, env: Faults)
    requires ModeStays(w.files, upd)
    ensures OnlyAt(w.files, UpdateMetadata(w, upd, env).w.files, upd.Name())
  {
    hide UpdateOwner, UpdateMode, AddMetadata;
    var chgs := AddMetadata(Entries(w.log, upd.Name()), upd);
    var w1 := w.(log := w.log[upd.Name() := chgs]);
    UpdateOwnerOnlyAt(w1, upd, env);
    UpdateModeOnlyAt(w1, upd, env);
    if UpdateOwner(w1, upd, env).Done? {
      UpdateModeOnlyAt(UpdateOwner(w1, upd, env).w, upd, env);
    }
  }

  lemma UpdateMetadataKeepsType(w: World, upd: Update, env: Faults)
    requires ModeStays(w.files, upd) && upd.Name() in w.files && w.files[upd.Name()].File?
    ensures var files' := UpdateMetadata(w, upd, env).w.files; upd.Name() in files' && files'[upd.Name()].File?
  {
    hide AddMetadata, ParseMode, ParseId;
  }

  lemma UpdateContentOnlyAt(w: World, upd: Update, env: Faults)
    requires upd.Name() in w.files ==> !w.files[upd.Name()].Link?
    ensures OnlyAt(w.files, UpdateContent(w, upd, env).w.files, upd.Name())
  {
  }

  lemma OnlyAtTransitive(a: Files, b: Files, c: Files, name: string)
    requires OnlyAt(a, b, name) && OnlyAt(b, c, name)
    ensures OnlyAt(a, c, name)
  {
  }

  /** With a state that is true of the filesystem, enforcing the goal touches only the node itself. */
  lemma EnforceOnlyAt(w: World, upd: Update, state: Kind, ensure: Kind, env: Faults, d: Defaults)
    requires state == KindOf(w.files, upd.Name()) && (ensure == state || state == Absent)
    requires ensure == Symlink ==> !upd.should.Get("mode").IsSet()
    requires ensure != Absent || state == Absent
    ensures OnlyAt(w.files, Enforce(w, upd, state, ensure, env, d).w.files, upd.Name())
  {
    var name := upd.Name();
    KindShape(w.files, name);
    hide UpdateMetadata, UpdateContent, KindOf;
    match ensure {
      case RegularFile =>
        var w1 := if state == Absent then CreateEmpty(w, name, env, d) else Done(w);
        assert OnlyAt(w.files, w1.w.files, name);
        if w1.Done? {
          EnforceFileOnlyAt(w1.w, upd, env);
          OnlyAtTransitive(w.files, w1.w.files, Enforce(w, upd, state, ensure, env, d).w.files, name);
        }
      case Folder =>
        var w1 := if state == Absent then CreateDirectory(w, name, env, d) else Done(w);
        assert OnlyAt(w.files, w1.w.files, name);
        if w1.Done? {
          UpdateMetadataOnlyAt(w1.w, upd, env);
          OnlyAtTransitive(w.files, w1.w.files, Enforce(w, upd, state, ensure, env, d).w.files, name);
        }
      case Symlink =>
        var w1 := UpdateTarget(w, upd, env, d);
        UpdateTargetOnlyAt(w, upd, env, d);
        if w1.Done? {
          UpdateMetadataOnlyAt(w1.w, upd, env);
          OnlyAtTransitive(w.files, w1.w.files, Enforce(w, upd, state, ensure, env, d).w.files, name);
        }
      case Absent =>
      case Other(_) =>
    }
  }

  lemma KindShape(files: Files, name: string)
    ensures KindOf(files, name) == Absent <==> name !in files
    ensures KindOf(files, name) == RegularFile <==> name in files && files[name].File?
    ensures KindOf(files, name) == Folder <==> name in files && files[name].Directory?
    ensures KindOf(files, name) == Symlink <==> name in files && files[name].Link?
  {
  }

  lemma EnforceFileOnlyAt(w: World, upd: Update, env: Faults)
    requires upd.Name() in w.files && w.files[upd.Name()].File?
    ensures OnlyAt(w.files, UpdateMetadata(w, upd, env).w.files, upd.Name())
    ensures UpdateMetadata(w, upd, env).Done? ==>
              OnlyAt(w.files, UpdateContent(UpdateMetadata(w, upd, env).w, upd, env).w.files, upd.Name())
  {
    UpdateMetadataOnlyAt(w, upd, env);
    UpdateMetadataKeepsType(w, upd, env);
    hide UpdateMetadata, UpdateContent;
    if UpdateMetadata(w, upd, env).Done? {
      UpdateContentOnlyAt(UpdateMetadata(w, upd, env).w, upd, env);
    }
  }

  lemma UpdateTargetOnlyAt(w: World, upd: Update, env: Faults, d: Defaults)
    requires KindOf(w.files, upd.Name()) in {Absent, Symlink}
    ensures OnlyAt(w.files, UpdateTarget(w, upd, env, d).w.files, upd.Name())
  {
  }

  /** One update from an accurate state, successful or not, stays within its path. */
  lemma SetOneSafe(w: World, upd: Update, env: Faults, d: Defaults)
    requires Accurate(w.files, upd) && NoModeOnLink(w.files, upd)
    ensures Confined(w.files, SetOne(w, upd, env, d).w.files, upd.Name())
    ensures !Force(upd.should) ==> KeepsDirectories(w.files, SetOne(w, upd, env, d).w.files)
  {
    var name := upd.Name();
    LoadedState(w.files, name);
    KindShape(w.files, name);
    var state, goal := KindOf(w.files, name), Goal(w.files, upd);
    assert goal == Wanted(upd.should, StateOf(upd.actual));
    hide Enforce, Load, StateOf, Wanted, KindOf;
    if state == Folder && goal != state && !Force(upd.should) {
    } else if goal == state {
      EnforceOnlyAt(w, upd, state, goal, env, d);
      OnlyAtIsConfined(w.files, SetOne(w, upd, env, d).w.files, name);
    } else {
      RemoveSafe(w, upd, state, goal, env);
      var w1 := Replace(w, upd, state, goal, env);
      if w1.Done? {
        KindShape(w1.w.files, name);
        EnforceOnlyAt(w1.w, upd, Absent, goal, env, d);
        OnlyAtIsConfined(w1.w.files, SetOne(w, upd, env, d).w.files, name);
      }
    }
  }

  lemma RemoveSafe(w: World, upd: Update, state: Kind, ensure: Kind, env: Faults)
    requires state == KindOf(w.files, upd.Name())
    ensures var r := Replace(w, upd, state, ensure, env);
            && Confined(w.files, r.w.files, upd.Name())
            && (state != Folder ==> KeepsDirectories(w.files, r.w.files))
            && (r.Done? ==> upd.Name() !in r.w.files)
  {
    KindShape(w.files, upd.Name());
    hide KindOf;
    assert Within(upd.Name(), upd.Name());
  }

  /** A directory that is to become something else without force: refused, nothing touched or logged. */
  lemma RejectedUntouched(w: World, upd: Update, env: Faults, d: Defaults)
    requires Accurate(w.files, upd) && !Force(upd.should)
    requires KindOf(w.files, upd.Name()) == Folder && Goal(w.files, upd) != Folder
    ensures SetOne(w, upd, env, d) == Failed(w, CannotChangeDirectory)
  {
    LoadedState(w.files, upd.Name());
  }

  /**
   * `force` is declared a boolean but looked up as a string. Read by its declared type, whatever
   * text is given, it has no effect: the directory stays.
   */
  lemma DeclaredForceIsNoForce(w: World, upd: Update, text: string, env: Faults, d: Defaults)
    requires Attrs.ReadString(Attrs.BooleanType, text) == Some(upd.should.Get("force"))
    requires Accurate(w.files, upd)
    requires KindOf(w.files, upd.Name()) == Folder && Goal(w.files, upd) != Folder
    ensures SetOne(w, upd, env, d) == Failed(w, CannotChangeDirectory)
  {
    assert upd.should.Get("force").Bool?;
    hide Attrs.ReadString, SetOne;
    RejectedUntouched(w, upd, env, d);
  }

  /* ---- lists of updates ---- */

  /** Updates of separate subtrees, each with the state that was loaded before the first of them. */
  ghost predicate Independent(files: Files, upds: seq<Update>) {
    && (forall i, j :: 0 <= i < j < |upds| ==> Apart(upds[i].Name(), upds[j].Name()))
    && forall i :: 0 <= i < |upds| ==> Accurate(files, upds[i]) && NoModeOnLink(files, upds[i])
  }

  ghost predicate Outside(upds: seq<Update>, q: string) {
    forall i :: 0 <= i < |upds| ==> !Within(upds[i].Name(), q)
  }

  ghost predicate SameAt(files: Files, files': Files, q: string) {
    (q in files <==> q in files') && (q in files ==> files'[q] == files[q])
  }

  lemma LoadSame(files: Files, files': Files, upd: Update)
    requires SameAt(files, files', upd.Name())
    requires Accurate(files, upd)
    ensures Accurate(files', upd)
    ensures Goal(files', upd) == Goal(files, upd)
    ensures OldContent(files', upd.Name()) == OldContent(files, upd.Name())
  {
    hide Digits;
  }

  /**
   * A run over independent updates, even one that fails half-way, changes nothing outside the
   * named subtrees, and removes no directory unless some update has force set.
   */
  lemma {:induction false} SetAllSafe(w: World, upds: seq<Update>, envs: nat -> Faults, d: Defaults)
    requires Independent(w.files, upds)
    ensures forall q :: Outside(upds, q) ==> SameAt(w.files, SetAll(w, upds, envs, d).w.files, q)
    ensures (forall u :: u in upds ==> !Force(u.should)) ==>
              KeepsDirectories(w.files, SetAll(w, upds, envs, d).w.files)
    decreases |upds|
  {
    if upds == [] {
    } else {
      hide SetOne, Accurate, NoModeOnLink, Within, KeepsDirectories, Independent, Confined, Goal, OldContent, Force;
      var rest, last := upds[..|upds| - 1], upds[|upds| - 1];
      IndependentSplit(w.files, upds);
      SetAllSafe(w, rest, envs, d);
      var w1 := SetAll(w, rest, envs, d);
      if w1.Done? {
        LoadSame(w.files, w1.w.files, last);
        ModeSame(w.files, w1.w.files, last);
        SetOneSafe(w1.w, last, envs(|upds| - 1), d);
        var files' := SetAll(w, upds, envs, d).w.files;
        forall q | Outside(upds, q) ensures SameAt(w.files, files', q) {
          assert Outside(rest, q);
          ConfinedAt(w1.w.files, files', last.Name(), q);
        }
        if forall u :: u in upds ==> !Force(u.should) {
          KeepsTransitive(w.files, w1.w.files, files');
        }
      } else {
        assert forall q :: Outside(upds, q) ==> Outside(rest, q);
      }
    }
  }

  lemma KeepsTransitive(a: Files, b: Files, c: Files)
    requires KeepsDirectories(a, b) && KeepsDirectories(b, c)
    ensures KeepsDirectories(a, c)
  {
  }

  lemma ModeSame(files: Files, files': Files, upd: Update)
    requires Goal(files', upd) == Goal(files, upd) && NoModeOnLink(files, upd)
    ensures NoModeOnLink(files', upd)
  {
  }

  lemma ReachedSame(files': Files, files'': Files, files: Files, base: Files, upd: Update)
    requires SameAt(files', files'', upd.Name()) && Reached(files', files, upd)
    requires Goal(base, upd) == Goal(files, upd) && OldContent(base, upd.Name()) == OldContent(files, upd.Name())
    ensures Reached(files'', base, upd)
  {
    hide Goal, OldContent;
  }

  /** If the whole run succeeds, every update has reached its own cell of the state table. */
  lemma {:induction false} SetAllConverges(w: World, upds: seq<Update>, envs: nat -> Faults, d: Defaults)
    requires Independent(w.files, upds)
    requires forall u :: u in upds ==> Entries(w.log, u.Name()) == []
    requires SetAll(w, upds, envs, d).Done?
    ensures forall u :: u in upds ==> Reached(SetAll(w, upds, envs, d).w.files, w.files, u)
    ensures forall n :: (forall u :: u in upds ==> u.Name() != n) ==>
              Entries(SetAll(w, upds, envs, d).w.log, n) == Entries(w.log, n)
    decreases |upds|
  {
    if upds == [] {
    } else {
      hide SetOne, Accurate, NoModeOnLink, Within, Reached, Goal, SetAll, Independent, Confined;
      var rest, last := upds[..|upds| - 1], upds[|upds| - 1];
      IndependentSplit(w.files, upds);
      SetAllLast(w, upds, envs, d);
      SetAllConverges(w, rest, envs, d);
      SetAllSafe(w, rest, envs, d);
      var w1 := SetAll(w, rest, envs, d).w;
      var w' := SetAll(w, upds, envs, d).w;
      LastConverges(w, w1, last, envs(|upds| - 1), d);
      forall u | u in upds ensures Reached(w'.files, w.files, u) {
        if u != last {
          ConfinedAt(w1.files, w'.files, last.Name(), u.Name());
          ReachedSame(w1.files, w'.files, w.files, w.files, u);
        }
      }
    }
  }

  lemma ConfinedAt(files: Files, files': Files, name: string, q: string)
    requires Confined(files, files', name) && !Within(name, q)
    ensures SameAt(files, files', q)
  {
  }

  lemma IndependentSplit(files: Files, upds: seq<Update>)
    requires Independent(files, upds) && upds != []
    ensures var rest, last := upds[..|upds| - 1], upds[|upds| - 1];
            && Independent(files, rest)
            && Accurate(files, last) && NoModeOnLink(files, last)
            && Outside(rest, last.Name())
            && last in upds
            && (forall u :: u in rest ==> u in upds && u.Name() != last.Name())
            && (forall u :: u in upds && u != last ==> u in rest && !Within(last.Name(), u.Name()))
  {
    hide Accurate, NoModeOnLink;
    var rest, last := upds[..|upds| - 1], upds[|upds| - 1];
    assert upds == rest + [last];
    forall u | u in rest ensures Apart(u.Name(), last.Name()) {
      var k :| 0 <= k < |rest| && rest[k] == u;
      assert Apart(upds[k].Name(), last.Name());
    }
  }

  lemma SetAllLast(w: World, upds: seq<Update>, envs: nat -> Faults, d: Defaults)
    requires upds != [] && SetAll(w, upds, envs, d).Done?
    ensures SetAll(w, upds[..|upds| - 1], envs, d).Done?
    ensures SetAll(w, upds, envs, d)
              == SetOne(SetAll(w, upds[..|upds| - 1], envs, d).w, upds[|upds| - 1], envs(|upds| - 1), d)
  {
  }

  lemma LastConverges(w: World, w1: World, last: Update, env: Faults, d: Defaults)
    requires Accurate(w.files, last) && NoModeOnLink(w.files, last)
    requires SameAt(w.files, w1.files, last.Name()) && Entries(w1.log, last.Name()) == []
    requires SetOne(w1, last, env, d).Done?
    ensures Reached(SetOne(w1, last, env, d).w.files, w.files, last)
    ensures Confined(w1.files, SetOne(w1, last, env, d).w.files, last.Name())
    ensures forall n :: n != last.Name() ==> Entries(SetOne(w1, last, env, d).w.log, n) == Entries(w1.log, n)
  {
    hide SetOne, Accurate, NoModeOnLink, Within, Reached, Goal, Final, FinalLog;
    LoadSame(w.files, w1.files, last);
    ModeSame(w.files, w1.files, last);
    SetOneSafe(w1, last, env, d);
    Converges(w1, last, env, d);
    SetOneFinal(w1, last, env, d);
    ReachedSame(SetOne(w1, last, env, d).w.files, SetOne(w1, last, env, d).w.files, w1.files, w.files, last);
  }
}
