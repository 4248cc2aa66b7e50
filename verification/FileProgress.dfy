/** When the file provider succeeds: exactly what a caller must ask for. */
module FileProgress {
  import opened Core
  import opened Text
  import opened Changes
  import opened FileSystem
  import opened FileTheorems
  import opened FileSafety

  /** A node that an update may take away. */
  predicate Removable(files: Files, upd: Update) {
    match KindOf(files, upd.Name())
    case Absent => true
    case RegularFile => true
    case Symlink => true
    case Folder => Force(upd.should)
    case Other(_) => false
  }

  /** What can be asked of a node in this state, one line for each reason of a refusal. */
  predicate Possible(files: Files, upd: Update) {
    var goal := Goal(files, upd);
    && !goal.Other?
    && (SameType(files, upd) || Removable(files, upd))
    && (goal != Absent ==> Readable(upd))
    && (goal == RegularFile ==> ContentReadable(upd))
    && (goal == Symlink ==> upd.should.Get("target").Str? && KindOf(files, upd.Name()) != Folder)
  }

  predicate ContentReadable(upd: Update) {
    upd.should.Get("content").IsSet() ==> upd.should.Get("content").Str?
  }

  lemma MetadataSucceedsIff(w: World, upd: Update, env: Faults)
    requires upd.Name() in w.files && env.failing == {}
    requires w.files[upd.Name()].Link? ==> !upd.should.Get("mode").IsSet()
    requires NoMetadata(Entries(w.log, upd.Name()))
    ensures UpdateMetadata(w, upd, env).Done? <==> Readable(upd)
  {
    var before := Entries(w.log, upd.Name());
    var w0 := w.(log := w.log[upd.Name() := AddMetadata(before, upd)]);
    MetadataLogged(before, upd, "owner");
    MetadataLogged(before, upd, "group");
    MetadataLogged(before, upd, "mode");
    if upd.Changed("owner") || upd.Changed("group") {
      OwnerSucceedsIff(w0, upd, env);
    }
    hide UpdateOwner, AddMetadata, ParseMode, ParseId;
  }

  lemma OwnerSucceedsIff(w: World, upd: Update, env: Faults)
    requires upd.Name() in w.files && env.failing == {}
    ensures UpdateOwner(w, upd, env).Done? <==>
              AskedOwner(upd.should, "owner").Some? && AskedOwner(upd.should, "group").Some?
    ensures var files' := UpdateOwner(w, upd, env).w.files;
            upd.Name() in files' && (files'[upd.Name()].Link? <==> w.files[upd.Name()].Link?)
  {
  }

  lemma FileSucceedsIff(w: World, files: Files, upd: Update, env: Faults, d: Defaults)
    requires Cleared(w, files, upd) && Goal(files, upd) == RegularFile && env.failing == {}
    ensures EnforceGoal(w, files, upd, env, d).Done? <==> Readable(upd) && ContentReadable(upd)
  {
    hide UpdateMetadata, UpdateContent, CreateEmpty, MetaAfter, Load, Readable, ContentReadable, ClearedFiles,
         StartFile;
    StartFileMade(w, files, upd, env, d);
    NewFileMade(w, files, upd, env, d);
    TypeLogHasNoMetadata(files, upd);
    var w1 := w.(files := w.files[upd.Name() := StartFile(files, upd, d)]);
    assert SameType(files, upd) ==> w1.files == w.files;
    StartIsFile(files, upd, d);
    MetadataSucceedsIff(w1, upd, env);
    if Readable(upd) {
      UpdateMetadataFinal(w1, upd, env);
      ContentSucceedsIff(UpdateMetadata(w1, upd, env).w, upd, env);
    }
  }

  lemma NewFileMade(w: World, files: Files, upd: Update, env: Faults, d: Defaults)
    requires Cleared(w, files, upd) && Goal(files, upd) == RegularFile && env.failing == {}
    ensures !SameType(files, upd) ==> CreateEmpty(w, upd.Name(), env, d).Done?
  {
    assert Within(upd.Name(), upd.Name());
  }

  lemma StartIsFile(files: Files, upd: Update, d: Defaults)
    ensures StartFile(files, upd, d).File?
  {
  }

  lemma ContentSucceedsIff(w: World, upd: Update, env: Faults)
    requires upd.Name() in w.files && w.files[upd.Name()].File? && env.failing == {}
    ensures UpdateContent(w, upd, env).Done? <==> ContentReadable(upd)
  {
  }

  lemma DirectorySucceedsIff(w: World, files: Files, upd: Update, env: Faults, d: Defaults)
    requires Cleared(w, files, upd) && Goal(files, upd) == Folder && env.failing == {}
    ensures EnforceGoal(w, files, upd, env, d).Done? <==> Readable(upd)
  {
    var name := upd.Name();
    assert Within(name, name);
    LoadedState(files, name);
    TypeLogHasNoMetadata(files, upd);
    hide UpdateMetadata, Load, Readable, Wanted;
    var w1 := if SameType(files, upd) then w else w.(files := w.files[name := Directory(d.directory)]);
    assert !SameType(files, upd) ==> CreateDirectory(w, name, env, d) == Done(w1);
    MetadataSucceedsIff(w1, upd, env);
  }

  lemma LinkSucceedsIff(w: World, files: Files, upd: Update, env: Faults, d: Defaults)
    requires Cleared(w, files, upd) && Goal(files, upd) == Symlink && env.failing == {}
    requires SameType(files, upd) || Removable(files, upd)
    ensures EnforceGoal(w, files, upd, env, d).Done? <==>
              Readable(upd) && upd.should.Get("target").Str? && KindOf(files, upd.Name()) != Folder
  {
    TargetSucceedsIff(w, files, upd, env, d);
    TypeLogHasNoMetadata(files, upd);
    hide UpdateMetadata, UpdateTarget, Load, Readable, KindOf, Wanted, AddDiff;
    if UpdateTarget(w, upd, env, d).Done? {
      UpdateTargetFinal(w, files, upd, env, d);
      MetadataSucceedsIff(UpdateTarget(w, upd, env, d).w, upd, env);
    }
  }

  lemma TargetSucceedsIff(w: World, files: Files, upd: Update, env: Faults, d: Defaults)
    requires Cleared(w, files, upd) && Goal(files, upd) == Symlink && env.failing == {}
    requires SameType(files, upd) || Removable(files, upd)
    ensures UpdateTarget(w, upd, env, d).Done? <==>
              upd.should.Get("target").Str? && KindOf(files, upd.Name()) != Folder
  {
    var name := upd.Name();
    assert Within(name, name);
    LoadedState(files, name);
    hide ModeText, IdText;
  }

  /**
   * If the system refuses nothing, an update from an accurate state succeeds exactly if what it
   * asks for is possible. Together with `Converges` this says when and where an update ends.
   */
  lemma SucceedsIff(w: World, upd: Update, env: Faults, d: Defaults)
    requires Accurate(w.files, upd) && NoModeOnLink(w.files, upd)
    requires Entries(w.log, upd.Name()) == []
    requires env.failing == {}
    ensures SetOne(w, upd, env, d).Done? <==> Possible(w.files, upd)
  {
    var name := upd.Name();
    LoadedState(w.files, name);
    var state, goal := KindOf(w.files, name), Goal(w.files, upd);
    hide Load, Enforce, Wanted, Readable, ContentReadable;
    assert StateOf(upd.actual) == state;
    if state == goal {
      assert Cleared(w, w.files, upd);
      EnforceSucceedsIff(w, w.files, upd, env, d);
    } else if Removable(w.files, upd) {
      var w1 := Replace(w, upd, state, goal, env).w;
      assert Cleared(w1, w.files, upd);
      EnforceSucceedsIff(w1, w.files, upd, env, d);
    }
  }

  lemma EnforceSucceedsIff(w: World, files: Files, upd: Update, env: Faults, d: Defaults)
    requires Cleared(w, files, upd) && env.failing == {}
    requires SameType(files, upd) || Removable(files, upd)
    ensures EnforceGoal(w, files, upd, env, d).Done? <==> Possible(files, upd)
  {
    match Goal(files, upd)
    case Absent =>
    case RegularFile => FileSucceedsIff(w, files, upd, env, d);
    case Folder => DirectorySucceedsIff(w, files, upd, env, d);
    case Symlink => LinkSucceedsIff(w, files, upd, env, d);
    case Other(_) =>
  }

  lemma PossibleSame(files: Files, files': Files, upd: Update)
    requires SameAt(files, files', upd.Name()) && Accurate(files, upd)
    ensures Possible(files', upd) <==> Possible(files, upd)
  {
    LoadSame(files, files', upd);
    hide Load, Readable, ContentReadable, Wanted, Force;
  }

  /** A run over independent updates succeeds exactly if each of them is possible at its start. */
  lemma {:induction false} RunSucceedsIff(w: World, upds: seq<Update>, envs: nat -> Faults, d: Defaults)
    requires Independent(w.files, upds)
    requires forall u :: u in upds ==> Entries(w.log, u.Name()) == []
    requires forall k: nat :: envs(k).failing == {}
    ensures SetAll(w, upds, envs, d).Done? <==> forall u :: u in upds ==> Possible(w.files, u)
    decreases |upds|
  {
    if upds != [] {
      hide SetOne, Independent, Accurate, NoModeOnLink, Possible, Load, Outside, SameAt, Within, Entries,
           Goal, Update.Name;
      var rest, last := upds[..|upds| - 1], upds[|upds| - 1];
      IndependentSplit(w.files, upds);
      RunSucceedsIff(w, rest, envs, d);
      if SetAll(w, rest, envs, d).Done? {
        var w1 := SetAll(w, rest, envs, d).w;
        SetAllSafe(w, rest, envs, d);
        SetAllConverges(w, rest, envs, d);
        LastSucceedsIff(w, w1, last, envs(|upds| - 1), d);
      }
    }
  }

  lemma LastSucceedsIff(w: World, w1: World, last: Update, env: Faults, d: Defaults)
    requires Accurate(w.files, last) && NoModeOnLink(w.files, last)
    requires SameAt(w.files, w1.files, last.Name()) && Entries(w1.log, last.Name()) == []
    requires env.failing == {}
    ensures SetOne(w1, last, env, d).Done? <==> Possible(w.files, last)
  {
    LoadSame(w.files, w1.files, last);
    PossibleSame(w.files, w1.files, last);
    hide SetOne, Possible, Load, SameAt, Entries, Goal;
    SucceedsIff(w1, last, env, d);
  }

  /* ---- what a failed update has destroyed ---- */

  /** The same node but for its metadata: type, content, target and device are equal. */
  predicate SameBody(n: Node, n': Node) {
    n' == n.WithMeta(n'.meta)
  }

  /** The node under a name is still there, whatever has become of its metadata. */
  predicate Kept(files: Files, files': Files, name: string)
    requires name in files
  {
    name in files' && SameBody(files[name], files'[name])
  }

  lemma KeptTransitive(a: Files, b: Files, c: Files, name: string)
    requires name in a && Kept(a, b, name) && Kept(b, c, name)
    ensures Kept(a, c, name)
  {
  }

  lemma KeptKind(files: Files, files': Files, name: string)
    requires name in files && Kept(files, files', name)
    ensures KindOf(files', name) == KindOf(files, name)
  {
  }

  lemma OwnerKeeps(w: World, upd: Update, env: Faults)
    requires upd.Name() in w.files
    ensures Kept(w.files, UpdateOwner(w, upd, env).w.files, upd.Name())
  {
  }

  lemma ModeKeeps(w: World, upd: Update, env: Faults)
    requires upd.Name() in w.files && (KindOf(w.files, upd.Name()) == Symlink ==> !upd.should.Get("mode").IsSet())
    ensures Kept(w.files, UpdateMode(w, upd, env).w.files, upd.Name())
  {
    hide ParseMode;
  }

  lemma MetadataKeeps(w: World, upd: Update, env: Faults)
    requires upd.Name() in w.files && (KindOf(w.files, upd.Name()) == Symlink ==> !upd.should.Get("mode").IsSet())
    ensures Kept(w.files, UpdateMetadata(w, upd, env).w.files, upd.Name())
    ensures KindOf(UpdateMetadata(w, upd, env).w.files, upd.Name()) == KindOf(w.files, upd.Name())
  {
    hide UpdateOwner, UpdateMode, AddMetadata, KindOf;
    var w0 := w.(log := w.log[upd.Name() := AddMetadata(Entries(w.log, upd.Name()), upd)]);
    OwnerKeeps(w0, upd, env);
    KeptKind(w0.files, UpdateOwner(w0, upd, env).w.files, upd.Name());
    ModeKeeps(w0, upd, env);
    ModeKeeps(UpdateOwner(w0, upd, env).w, upd, env);
    KeptKind(w.files, UpdateMetadata(w, upd, env).w.files, upd.Name());
  }

  lemma ContentKeepsKind(w: World, upd: Update, env: Faults)
    requires upd.Name() in w.files && w.files[upd.Name()].File?
    ensures KindOf(UpdateContent(w, upd, env).w.files, upd.Name()) == RegularFile
  {
  }

  /** With the goal enforced on a node of that type, or on none, the type is never a third one. */
  lemma EnforceKind(w: World, files: Files, upd: Update, env: Faults, d: Defaults)
    requires Cleared(w, files, upd) && env.failing == {}
    requires SameType(files, upd) || Removable(files, upd)
    requires upd.Name() in files
    ensures var kind := KindOf(EnforceGoal(w, files, upd, env, d).w.files, upd.Name());
            kind == (if SameType(files, upd) then KindOf(files, upd.Name()) else Absent) || kind == Goal(files, upd)
  {
    match Goal(files, upd)
    case Absent => EnforceAbsentKind(w, files, upd, env, d);
    case RegularFile => EnforceFileKind(w, files, upd, env, d);
    case Folder => EnforceDirectoryKind(w, files, upd, env, d);
    case Symlink => EnforceLinkKind(w, files, upd, env, d);
    case Other(_) => ClearedKind(w, files, upd);
  }

  /** What stands under the name when the goal is enforced: the old node, or none. */
  lemma ClearedKind(w: World, files: Files, upd: Update)
    requires Cleared(w, files, upd) && upd.Name() in files
    ensures KindOf(w.files, upd.Name()) == if SameType(files, upd) then KindOf(files, upd.Name()) else Absent
    ensures SameType(files, upd) ==> upd.Name() in w.files
  {
    assert Within(upd.Name(), upd.Name());
    hide Load, Wanted;
  }

  lemma EnforceAbsentKind(w: World, files: Files, upd: Update, env: Faults, d: Defaults)
    requires Cleared(w, files, upd) && upd.Name() in files && Goal(files, upd) == Absent
    ensures KindOf(EnforceGoal(w, files, upd, env, d).w.files, upd.Name()) == Absent
  {
    ClearedKind(w, files, upd);
    LoadedState(files, upd.Name());
    hide Load, Wanted;
  }

  lemma EnforceFileKind(w: World, files: Files, upd: Update, env: Faults, d: Defaults)
    requires Cleared(w, files, upd) && upd.Name() in files && Goal(files, upd) == RegularFile && env.failing == {}
    ensures KindOf(EnforceGoal(w, files, upd, env, d).w.files, upd.Name()) == RegularFile
  {
    StartFileMade(w, files, upd, env, d);
    NewFileMade(w, files, upd, env, d);
    StartIsFile(files, upd, d);
    var w1 := w.(files := w.files[upd.Name() := StartFile(files, upd, d)]);
    hide UpdateMetadata, UpdateContent, CreateEmpty, Load, ClearedFiles, StartFile, Wanted;
    assert SameType(files, upd) ==> w1.files == w.files;
    MetadataKeeps(w1, upd, env);
    var w2 := UpdateMetadata(w1, upd, env).w;
    LoadedState(w2.files, upd.Name());
    ContentKeepsKind(w2, upd, env);
  }

  lemma EnforceDirectoryKind(w: World, files: Files, upd: Update, env: Faults, d: Defaults)
    requires Cleared(w, files, upd) && upd.Name() in files && Goal(files, upd) == Folder && env.failing == {}
    ensures KindOf(EnforceGoal(w, files, upd, env, d).w.files, upd.Name()) == Folder
  {
    var name := upd.Name();
    assert Within(name, name);
    LoadedState(files, name);
    hide UpdateMetadata, Load, Wanted;
    var w1 := if SameType(files, upd) then w else w.(files := w.files[name := Directory(d.directory)]);
    assert !SameType(files, upd) ==> CreateDirectory(w, name, env, d) == Done(w1);
    MetadataKeeps(w1, upd, env);
  }

  lemma EnforceLinkKind(w: World, files: Files, upd: Update, env: Faults, d: Defaults)
    requires Cleared(w, files, upd) && upd.Name() in files && Goal(files, upd) == Symlink && env.failing == {}
    requires SameType(files, upd) || Removable(files, upd)
    ensures var kind := KindOf(EnforceGoal(w, files, upd, env, d).w.files, upd.Name());
            kind == (if SameType(files, upd) then KindOf(files, upd.Name()) else Absent) || kind == Symlink
  {
    TargetSucceedsIff(w, files, upd, env, d);
    TargetKind(w, files, upd, env, d);
    hide UpdateMetadata, UpdateTarget, Load, Wanted;
    if UpdateTarget(w, upd, env, d).Done? {
      MetadataKeeps(UpdateTarget(w, upd, env, d).w, upd, env);
    }
  }

  lemma TargetKind(w: World, files: Files, upd: Update, env: Faults, d: Defaults)
    requires Cleared(w, files, upd) && upd.Name() in files && Goal(files, upd) == Symlink && env.failing == {}
    requires SameType(files, upd) || Removable(files, upd)
    ensures var r := UpdateTarget(w, upd, env, d);
            if r.Done? then upd.Name() in r.w.files && KindOf(r.w.files, upd.Name()) == Symlink
            else KindOf(r.w.files, upd.Name()) == KindOf(w.files, upd.Name())
  {
    var name := upd.Name();
    assert Within(name, name);
    LoadedState(files, name);
    hide ModeText, IdText;
  }

  /* ---- a failed update of a node that has the right type ---- */

  lemma FailedFileKept(w: World, upd: Update, env: Faults, d: Defaults)
    requires Cleared(w, w.files, upd) && SameType(w.files, upd) && Goal(w.files, upd) == RegularFile
    requires EnforceGoal(w, w.files, upd, env, d).Failed?
    ensures upd.Name() in w.files && Kept(w.files, EnforceGoal(w, w.files, upd, env, d).w.files, upd.Name())
  {
    LoadedState(w.files, upd.Name());
    hide Load, Wanted, UpdateMetadata, UpdateContent, KindOf;
    MetadataKeeps(w, upd, env);
    FailedContentKept(UpdateMetadata(w, upd, env).w, upd, env);
  }

  lemma FailedContentKept(w: World, upd: Update, env: Faults)
    ensures UpdateContent(w, upd, env).Failed? ==> UpdateContent(w, upd, env).w.files == w.files
  {
  }

  lemma FailedDirectoryKept(w: World, upd: Update, env: Faults, d: Defaults)
    requires Cleared(w, w.files, upd) && SameType(w.files, upd) && Goal(w.files, upd) == Folder
    ensures upd.Name() in w.files && Kept(w.files, EnforceGoal(w, w.files, upd, env, d).w.files, upd.Name())
  {
    LoadedState(w.files, upd.Name());
    hide Load, Wanted, UpdateMetadata, KindOf;
    MetadataKeeps(w, upd, env);
  }

  /** Metadata that can not be read is noticed before anything is set, if no mode is asked for. */
  lemma FailedOwnerUntouched(w: World, upd: Update, env: Faults)
    requires upd.Name() in w.files && !upd.should.Get("mode").IsSet() && NoMetadata(Entries(w.log, upd.Name()))
    ensures UpdateMetadata(w, upd, env).Failed? ==> UpdateMetadata(w, upd, env).w.files == w.files
  {
    MetadataLogged(Entries(w.log, upd.Name()), upd, "mode");
    hide AddMetadata, ParseId;
  }

  /** A link is removed and made anew before its metadata is looked at. */
  lemma FailedLinkRemade(w: World, upd: Update, env: Faults, d: Defaults)
    requires Cleared(w, w.files, upd) && SameType(w.files, upd) && Goal(w.files, upd) == Symlink && env.failing == {}
    requires EnforceGoal(w, w.files, upd, env, d).Failed?
    ensures var files', target := EnforceGoal(w, w.files, upd, env, d).w.files, upd.should.Get("target");
            files' == if target.Str? then w.files[upd.Name() := Link(d.link, target.s)] else w.files
  {
    LoadedState(w.files, upd.Name());
    TargetSucceedsIff(w, w.files, upd, env, d);
    TypeLogHasNoMetadata(w.files, upd);
    NoTargetUntouched(w, upd, env, d);
    hide Load, Wanted, UpdateMetadata, UpdateTarget, KindOf;
    if UpdateTarget(w, upd, env, d).Done? {
      UpdateTargetFinal(w, w.files, upd, env, d);
      FailedOwnerUntouched(UpdateTarget(w, upd, env, d).w, upd, env);
    }
  }

  lemma NoTargetUntouched(w: World, upd: Update, env: Faults, d: Defaults)
    ensures !upd.should.Get("target").Str? ==> UpdateTarget(w, upd, env, d).w == w
  {
  }

  /** The node that a failed update of the right type leaves. */
  lemma SameTypeFailure(w: World, upd: Update, env: Faults, d: Defaults)
    requires Cleared(w, w.files, upd) && SameType(w.files, upd) && env.failing == {} && upd.Name() in w.files
    requires EnforceGoal(w, w.files, upd, env, d).Failed?
    ensures var files', target := EnforceGoal(w, w.files, upd, env, d).w.files, upd.should.Get("target");
            if Goal(w.files, upd) == Symlink && target.Str?
            then files' == w.files[upd.Name() := Link(d.link, target.s)]
            else Kept(w.files, files', upd.Name())
  {
    match Goal(w.files, upd)
    case Absent =>
    case RegularFile => FailedFileKept(w, upd, env, d);
    case Folder => FailedDirectoryKept(w, upd, env, d);
    case Symlink => FailedLinkRemade(w, upd, env, d);
    case Other(_) =>
  }

  /** The update asks for another target than that of the link that is there. */
  predicate Retargets(files: Files, upd: Update)
    requires upd.Name() in files
  {
    var target := upd.should.Get("target");
    files[upd.Name()].Link? && target.Str? && target.s != files[upd.Name()].target
  }

  /**
   * An update that fails although the system refuses nothing has destroyed the node it found,
   * beyond its metadata, exactly if it asked for another type and was allowed to remove the node,
   * or asked for a link with another target: whatever else is wrong with it is noticed only after
   * that. A link that was made anew has the metadata of a new one, even if its target is the same.
   */
  lemma FailureLosesNodeIff(w: World, upd: Update, env: Faults, d: Defaults)
    requires Accurate(w.files, upd) && NoModeOnLink(w.files, upd)
    requires Entries(w.log, upd.Name()) == [] && env.failing == {}
    requires upd.Name() in w.files && !Possible(w.files, upd)
    ensures SetOne(w, upd, env, d).Failed?
    ensures !Kept(w.files, SetOne(w, upd, env, d).w.files, upd.Name()) <==>
              if SameType(w.files, upd) then Retargets(w.files, upd) else Removable(w.files, upd)
    ensures SameType(w.files, upd) && w.files[upd.Name()].Link? && upd.should.Get("target").Str? ==>
              SetOne(w, upd, env, d).w.files == w.files[upd.Name() := Link(d.link, upd.should.Get("target").s)]
  {
    var name := upd.Name();
    SucceedsIff(w, upd, env, d);
    LoadedState(w.files, name);
    var state, goal := KindOf(w.files, name), Goal(w.files, upd);
    hide Load, Enforce, Wanted, Readable, ContentReadable, Possible, KindOf;
    assert StateOf(upd.actual) == state;
    if state == goal {
      assert Cleared(w, w.files, upd);
      SameTypeFailure(w, upd, env, d);
    } else if Removable(w.files, upd) {
      var w1 := Replace(w, upd, state, goal, env).w;
      assert Cleared(w1, w.files, upd);
      EnforceKind(w1, w.files, upd, env, d);
      OtherKindLost(w.files, EnforceGoal(w1, w.files, upd, env, d).w.files, name);
    } else {
      NotRemoved(w, upd, env);
    }
  }

  lemma OtherKindLost(files: Files, files': Files, name: string)
    requires name in files && KindOf(files', name) != KindOf(files, name)
    ensures !Kept(files, files', name)
  {
  }

  /** A node that may not be removed is refused before anything is done. */
  lemma NotRemoved(w: World, upd: Update, env: Faults)
    requires !Removable(w.files, upd)
    ensures Remove(w, upd.Name(), KindOf(w.files, upd.Name()), Force(upd.should), RemoveOld, env).Failed?
    ensures Remove(w, upd.Name(), KindOf(w.files, upd.Name()), Force(upd.should), RemoveOld, env).w == w
  {
  }

  /**
   * For example, a link that is to get another target and an owner that is no number: the update
   * fails, and the link that is left has the new target and the metadata of a new link.
   */
  lemma FailedLinkLost(w: World, name: string, env: Faults, d: Defaults)
    requires name in w.files && w.files[name].Link? && w.files[name].target == "a"
    requires Entries(w.log, name) == [] && env.failing == {}
    ensures var r := SetOne(w, Update(Load(w.files, name), BadOwnerLink(name)), env, d);
            && r.Failed? && name in r.w.files && r.w.files[name] == Link(d.link, "b")
            && !Kept(w.files, r.w.files, name)
  {
    var upd := Update(Load(w.files, name), BadOwnerLink(name));
    BadOwnerUnreadable(w.files, name);
    hide SetOne, Load, Wanted, Readable, BadOwnerLink;
    FailureLosesNodeIff(w, upd, env, d);
  }

  function BadOwnerLink(name: string): Resource {
    Resource(name, map["ensure" := Str("link"), "target" := Str("b"), "owner" := Str("root")])
  }

  lemma BadOwnerUnreadable(files: Files, name: string)
    requires name in files && files[name].Link?
    ensures var upd := Update(Load(files, name), BadOwnerLink(name));
            && upd.Name() == name && Accurate(files, upd) && NoModeOnLink(files, upd) && SameType(files, upd)
            && upd.should.Get("target") == Str("b") && !Possible(files, upd)
  {
    assert TrimLeft("root") == "root";
    assert DigitPrefix("root", 10) == "";
    assert ParseId("root") == None;
    OwnerText(files[name].meta.owner);
    hide ModeText, IdText, ParseId;
  }

  /** The text of an id never is a name. */
  lemma OwnerText(id: Id)
    ensures IdText(id) != "root"
  {
    DigitsParse(id, 10);
    assert 'r' in "root" by { assert "root"[0] == 'r'; }
    assert !IsDigit('r', 10);
  }
}
