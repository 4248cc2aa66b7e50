/** Convergence, stability and safety of the file provider. */
module FileTheorems {
  import opened Core
  import opened Changes
  import opened FileSystem

  ghost predicate Accurate(files: Files, upd: Update) {
    upd.actual == Load(files, upd.Name())
  }

  /** The type a node will have, in the terms of the state table of the provider. */
  function Goal(files: Files, upd: Update): Kind {
    Wanted(upd.should, KindOf(files, upd.Name()))
  }

  /** No mode is asked of a link: changing it would follow the link. */
  predicate NoModeOnLink(files: Files, upd: Update) {
    Goal(files, upd) == Symlink ==> !upd.should.Get("mode").IsSet()
  }

  /** Reading back what was loaded gives the type of the node, for special files too. */
  lemma LoadedState(files: Files, name: string)
    ensures StateOf(Load(files, name)) == KindOf(files, name)
    ensures KindOf(files, name) == Absent <==> name !in files
    ensures KindOf(files, name) == Folder <==> name in files && files[name].Directory?
    ensures KindOf(files, name) == RegularFile <==> name in files && files[name].File?
    ensures KindOf(files, name) == Symlink <==> name in files && files[name].Link?
  {
  }

  /* ---- a closed form of one successful update ---- */

  function IdAfter(asked: Option<Id>, before: Id): Id {
    match asked
    case Some(v) => if v == KEEP then before else v
    case None => before
  }

  function ModeAfter(v: Value, before: Mode): Mode {
    if v.Str? && ParseMode(v.s).Some? then ParseMode(v.s).value else before
  }

  /** Metadata is compared with the state before the update, even if the node is a new one. */
  function MetaAfter(upd: Update, m: Meta): Meta {
    var chown := upd.Changed("owner") || upd.Changed("group");
    Meta(if upd.Changed("mode") then ModeAfter(upd.should.Get("mode"), m.mode) else m.mode,
         if chown then IdAfter(AskedOwner(upd.should, "owner"), m.owner) else m.owner,
         if chown then IdAfter(AskedOwner(upd.should, "group"), m.group) else m.group)
  }

  function OldContent(files: Files, name: string): string {
    if name in files && files[name].File? then files[name].content else ""
  }

  /** The node that ends up under the name, unless the goal is its absence. */
  function FinalNode(files: Files, upd: Update, d: Defaults): Node {
    var name, goal := upd.Name(), Goal(files, upd);
    var kept := SameType(files, upd) && name in files;
    if goal == RegularFile then
      var c, start := upd.should.Get("content"), StartFile(files, upd, d);
      File(MetaAfter(upd, start.meta), if c.Str? then c.s else start.content)
    else if goal == Folder then Directory(MetaAfter(upd, if kept then files[name].meta else d.directory))
    else Link(MetaAfter(upd, d.link), upd.should.Lookup("target", ""))
  }

  function Final(files: Files, upd: Update, d: Defaults): Files {
    if Goal(files, upd) == Absent then ClearedFiles(files, upd)
    else ClearedFiles(files, upd)[upd.Name() := FinalNode(files, upd, d)]
  }

  function FinalLog(files: Files, upd: Update): seq<Change> {
    var name, goal := upd.Name(), Goal(files, upd);
    var typed := TypeLog(files, upd);
    if goal == Absent then typed
    else if goal == Symlink then AddMetadata(AddDiff(typed, "target", upd), upd)
    else
      var meta := AddMetadata(typed, upd);
      var c := upd.should.Get("content");
      if goal == RegularFile && c.Str? && c.s != OldContent(files, name)
      then meta + [Change("content", c, Str(OldContent(files, name)))]
      else meta
  }

  lemma MetadataLogged(chgs: seq<Change>, upd: Update, attr: string)
    ensures Logged(AddMetadata(chgs, upd), attr)
       <==> Logged(chgs, attr) || (attr in METADATA && upd.Changed(attr))
  {
    AddDiffsExact(chgs, METADATA, upd);
    var all := AddMetadata(chgs, upd);
    assert all == chgs + all[|chgs|..];
    if attr in METADATA && upd.Changed(attr) {
      assert Change(attr, upd.should.Get(attr), upd.actual.Get(attr)) in all[|chgs|..];
    }
  }

  predicate NoMetadata(chgs: seq<Change>) {
    forall c :: c in chgs ==> c.attr !in METADATA
  }

  /** Every piece of metadata that had to be changed could be read. */
  predicate Readable(upd: Update) {
    && (upd.Changed("owner") || upd.Changed("group") ==>
          AskedOwner(upd.should, "owner").Some? && AskedOwner(upd.should, "group").Some?)
    && (upd.Changed("mode") ==> upd.should.Get("mode").Str? && ParseMode(upd.should.Get("mode").s).Some?)
  }

  lemma UpdateOwnerFinal(w: World, upd: Update, env: Faults)
    requires upd.Name() in w.files
    requires UpdateOwner(w, upd, env).Done?
    ensures var n := w.files[upd.Name()];
            var m := n.meta.(owner := IdAfter(AskedOwner(upd.should, "owner"), n.meta.owner),
                             group := IdAfter(AskedOwner(upd.should, "group"), n.meta.group));
            UpdateOwner(w, upd, env).w == w.(files := w.files[upd.Name() := n.WithMeta(m)])
  {
  }

  lemma UpdateModeFinal(w: World, upd: Update, env: Faults)
    requires upd.Name() in w.files && !w.files[upd.Name()].Link?
    requires UpdateMode(w, upd, env).Done?
    ensures var n := w.files[upd.Name()];
            var m := n.meta.(mode := ModeAfter(upd.should.Get("mode"), n.meta.mode));
            UpdateMode(w, upd, env).w == w.(files := w.files[upd.Name() := n.WithMeta(m)])
  {
  }

  lemma ApplyMetadataFinal(w: World, upd: Update, env: Faults)
    requires upd.Name() in w.files
    requires w.files[upd.Name()].Link? ==> !upd.should.Get("mode").IsSet()
    requires ApplyMetadata(w, upd, env, upd.Changed("owner") || upd.Changed("group"), upd.Changed("mode")).Done?
    ensures var n := w.files[upd.Name()];
            ApplyMetadata(w, upd, env, upd.Changed("owner") || upd.Changed("group"), upd.Changed("mode")).w
              == w.(files := w.files[upd.Name() := n.WithMeta(MetaAfter(upd, n.meta))])
    ensures Readable(upd)
  {
    hide ParseId, ParseMode, ModeAfter, IdAfter;
    var n := w.files[upd.Name()];
    var chown := upd.Changed("owner") || upd.Changed("group");
    var w1 := if chown then UpdateOwner(w, upd, env).w else w;
    if chown {
      UpdateOwnerFinal(w, upd, env);
    }
    if upd.Changed("mode") {
      UpdateModeFinal(w1, upd, env);
    }
    assert n.WithMeta(n.meta) == n;
    assert w.files[upd.Name() := n] == w.files;
  }

  lemma UpdateMetadataFinal(w: World, upd: Update, env: Faults)
    requires upd.Name() in w.files
    requires w.files[upd.Name()].Link? ==> !upd.should.Get("mode").IsSet()
    requires NoMetadata(Entries(w.log, upd.Name()))
    requires UpdateMetadata(w, upd, env).Done?
    ensures var n := w.files[upd.Name()];
            UpdateMetadata(w, upd, env).w ==
              World(w.files[upd.Name() := n.WithMeta(MetaAfter(upd, n.meta))],
                    w.log[upd.Name() := AddMetadata(Entries(w.log, upd.Name()), upd)])
    ensures Readable(upd)
  {
    var before := Entries(w.log, upd.Name());
    var chgs := AddMetadata(before, upd);
    MetadataLogged(before, upd, "owner");
    MetadataLogged(before, upd, "group");
    MetadataLogged(before, upd, "mode");
    ApplyMetadataFinal(w.(log := w.log[upd.Name() := chgs]), upd, env);
  }

  predicate SameType(files: Files, upd: Update) {
    KindOf(files, upd.Name()) == Goal(files, upd)
  }

  /** The log after a change of type, which is always said to start from "absent". */
  function TypeLog(files: Files, upd: Update): seq<Change> {
    if SameType(files, upd) then [] else [Change("ensure", Str(Goal(files, upd).Text()), Str("absent"))]
  }

  lemma TypeLogHasNoMetadata(files: Files, upd: Update)
    ensures NoMetadata(TypeLog(files, upd))
    ensures NoMetadata(AddDiff(TypeLog(files, upd), "target", upd))
  {
  }

  function ClearedFiles(files: Files, upd: Update): Files {
    if SameType(files, upd) then files else files - Doomed(files, upd.Name())
  }

  /** The situation once a node of the wrong type is gone and its change of type is logged. */
  ghost predicate Cleared(w: World, files: Files, upd: Update) {
    && Accurate(files, upd) && NoModeOnLink(files, upd)
    && w.files == ClearedFiles(files, upd)
    && Entries(w.log, upd.Name()) == TypeLog(files, upd)
  }

  function EnforceGoal(w: World, files: Files, upd: Update, env: Faults, d: Defaults): Outcome {
    Enforce(w, upd, if SameType(files, upd) then Goal(files, upd) else Absent, Goal(files, upd), env, d)
  }

  ghost predicate Finished(w': World, w: World, files: Files, upd: Update, d: Defaults) {
    && w'.files == Final(files, upd, d)
    && w'.log == w.log[upd.Name() := FinalLog(files, upd)]
    && Readable(upd)
    && (Goal(files, upd) == Symlink ==> upd.should.Get("target").Str?)
  }

  /** What `UpdateContent` does to a regular file. */
  lemma UpdateContentFinal(w: World, upd: Update, env: Faults)
    requires upd.Name() in w.files && w.files[upd.Name()].File?
    requires UpdateContent(w, upd, env).Done?
    ensures var name, c := upd.Name(), upd.should.Get("content");
            var n := w.files[name];
            UpdateContent(w, upd, env).w ==
              World(w.files[name := File(n.meta, if c.Str? then c.s else n.content)],
                    if c.Str? && c.s != n.content
                    then Append(w.log, name, Change("content", c, Str(n.content))) else w.log)
  {
    var n := w.files[upd.Name()];
    assert w.files[upd.Name() := n] == w.files;
  }

  /** The file that the metadata and the content are then applied to. */
  function StartFile(files: Files, upd: Update, d: Defaults): Node {
    var name := upd.Name();
    File(if SameType(files, upd) && name in files then files[name].meta else d.file, OldContent(files, name))
  }

  lemma StartFileMade(w: World, files: Files, upd: Update, env: Faults, d: Defaults)
    requires Cleared(w, files, upd) && Goal(files, upd) == RegularFile
    ensures var name := upd.Name();
            if SameType(files, upd) then name in w.files && w.files[name] == StartFile(files, upd, d)
            else CreateEmpty(w, name, env, d).Done? ==>
                   CreateEmpty(w, name, env, d).w == w.(files := w.files[name := StartFile(files, upd, d)])
  {
    LoadedState(files, upd.Name());
  }

  lemma EnforceFileFinal(w: World, files: Files, upd: Update, env: Faults, d: Defaults)
    requires Cleared(w, files, upd) && Goal(files, upd) == RegularFile
    requires EnforceGoal(w, files, upd, env, d).Done?
    ensures Finished(EnforceGoal(w, files, upd, env, d).w, w, files, upd, d)
  {
    var name := upd.Name();
    StartFileMade(w, files, upd, env, d);
    var w1 := if SameType(files, upd) then w else CreateEmpty(w, name, env, d).w;
    assert w.files[name := StartFile(files, upd, d)] == w1.files;
    assert EnforceGoal(w, files, upd, env, d).w == UpdateContent(UpdateMetadata(w1, upd, env).w, upd, env).w;
    FinishFile(w1, w, files, upd, env, d);
  }

  lemma FinishFile(w1: World, w: World, files: Files, upd: Update, env: Faults, d: Defaults)
    requires Cleared(w, files, upd) && Goal(files, upd) == RegularFile
    requires w1 == w.(files := w.files[upd.Name() := StartFile(files, upd, d)])
    requires UpdateMetadata(w1, upd, env).Done? && UpdateContent(UpdateMetadata(w1, upd, env).w, upd, env).Done?
    ensures Finished(UpdateContent(UpdateMetadata(w1, upd, env).w, upd, env).w, w, files, upd, d)
  {
    hide UpdateMetadata, UpdateContent, AddMetadata, MetaAfter, Load, Readable, KindOf, Wanted;
    TypeLogHasNoMetadata(files, upd);
    UpdateMetadataFinal(w1, upd, env);
    UpdateContentFinal(UpdateMetadata(w1, upd, env).w, upd, env);
  }

  lemma EnforceDirectoryFinal(w: World, files: Files, upd: Update, env: Faults, d: Defaults)
    requires Cleared(w, files, upd) && Goal(files, upd) == Folder
    requires EnforceGoal(w, files, upd, env, d).Done?
    ensures Finished(EnforceGoal(w, files, upd, env, d).w, w, files, upd, d)
  {
    var name := upd.Name();
    LoadedState(files, name);
    var w1 := if SameType(files, upd) then w else CreateDirectory(w, name, env, d).w;
    var start := if SameType(files, upd) then files[name] else Directory(d.directory);
    assert w1.log == w.log && name in w1.files && w1.files[name] == start;
    assert w1.files == w.files[name := start];
    FinishDirectory(w1, w, files, upd, env, d);
  }

  lemma FinishDirectory(w1: World, w: World, files: Files, upd: Update, env: Faults, d: Defaults)
    requires Cleared(w, files, upd) && Goal(files, upd) == Folder
    requires SameType(files, upd) ==> upd.Name() in files && files[upd.Name()].Directory?
    requires var start := if SameType(files, upd) then files[upd.Name()] else Directory(d.directory);
             w1 == w.(files := w.files[upd.Name() := start])
    requires UpdateMetadata(w1, upd, env).Done?
    ensures Finished(UpdateMetadata(w1, upd, env).w, w, files, upd, d)
  {
    hide UpdateMetadata, AddMetadata, MetaAfter, Load, Readable, KindOf, Wanted;
    TypeLogHasNoMetadata(files, upd);
    UpdateMetadataFinal(w1, upd, env);
  }

  lemma UpdateTargetFinal(w: World, files: Files, upd: Update, env: Faults, d: Defaults)
    requires Cleared(w, files, upd) && Goal(files, upd) == Symlink
    requires UpdateTarget(w, upd, env, d).Done?
    ensures upd.should.Get("target").Str?
    ensures UpdateTarget(w, upd, env, d).w
            == World(ClearedFiles(files, upd)[upd.Name() := Link(d.link, upd.should.Lookup("target", ""))],
                     w.log[upd.Name() := AddDiff(TypeLog(files, upd), "target", upd)])
  {
    LoadedState(files, upd.Name());
    var link := Link(d.link, upd.should.Lookup("target", ""));
    assert (files - {upd.Name()})[upd.Name() := link] == files[upd.Name() := link];
  }

  lemma EnforceLinkFinal(w: World, files: Files, upd: Update, env: Faults, d: Defaults)
    requires Cleared(w, files, upd) && Goal(files, upd) == Symlink
    requires EnforceGoal(w, files, upd, env, d).Done?
    ensures Finished(EnforceGoal(w, files, upd, env, d).w, w, files, upd, d)
  {
    hide UpdateMetadata, UpdateTarget, AddMetadata, AddDiff, MetaAfter, Load, Readable, KindOf, Wanted;
    UpdateTargetFinal(w, files, upd, env, d);
    TypeLogHasNoMetadata(files, upd);
    UpdateMetadataFinal(UpdateTarget(w, upd, env, d).w, upd, env);
  }

  /** A successful update from an accurate state does exactly this, whatever the system refused. */
  lemma SetOneFinal(w: World, upd: Update, env: Faults, d: Defaults)
    requires Accurate(w.files, upd) && NoModeOnLink(w.files, upd)
    requires Entries(w.log, upd.Name()) == []
    requires SetOne(w, upd, env, d).Done?
    ensures Goal(w.files, upd) in {Absent, RegularFile, Folder, Symlink}
    ensures Goal(w.files, upd) != Absent ==> Readable(upd)
    ensures Goal(w.files, upd) == Symlink ==> upd.should.Get("target").Str?
    ensures SetOne(w, upd, env, d).w.files == Final(w.files, upd, d)
    ensures Entries(SetOne(w, upd, env, d).w.log, upd.Name()) == FinalLog(w.files, upd)
    ensures forall n :: n != upd.Name() ==> Entries(SetOne(w, upd, env, d).w.log, n) == Entries(w.log, n)
  {
    var name := upd.Name();
    LoadedState(w.files, name);
    var state, goal := KindOf(w.files, name), Goal(w.files, upd);
    hide Enforce, Load, Wanted, Final, FinalLog, Readable;
    assert StateOf(upd.actual) == state;
    if state == goal {
      assert Cleared(w, w.files, upd);
      EnforceFinal(w, w.files, upd, env, d);
    } else {
      ReplaceCleared(w, upd, env);
      EnforceFinal(Replace(w, upd, state, goal, env).w, w.files, upd, env, d);
    }
  }

  lemma ReplaceCleared(w: World, upd: Update, env: Faults)
    requires Accurate(w.files, upd) && NoModeOnLink(w.files, upd)
    requires Entries(w.log, upd.Name()) == [] && !SameType(w.files, upd)
    requires Replace(w, upd, KindOf(w.files, upd.Name()), Goal(w.files, upd), env).Done?
    ensures var w1 := Replace(w, upd, KindOf(w.files, upd.Name()), Goal(w.files, upd), env).w;
            && Cleared(w1, w.files, upd)
            && forall n :: n != upd.Name() ==> Entries(w1.log, n) == Entries(w.log, n)
  {
    LoadedState(w.files, upd.Name());
    hide Load, Wanted, Force;
  }

  lemma EnforceFinal(w: World, files: Files, upd: Update, env: Faults, d: Defaults)
    requires Cleared(w, files, upd)
    requires EnforceGoal(w, files, upd, env, d).Done?
    ensures Goal(files, upd) in {Absent, RegularFile, Folder, Symlink}
    ensures Goal(files, upd) != Absent ==> Readable(upd)
    ensures Goal(files, upd) == Symlink ==> upd.should.Get("target").Str?
    ensures EnforceGoal(w, files, upd, env, d).w.files == Final(files, upd, d)
    ensures Entries(EnforceGoal(w, files, upd, env, d).w.log, upd.Name()) == FinalLog(files, upd)
    ensures forall n :: n != upd.Name() ==> Entries(EnforceGoal(w, files, upd, env, d).w.log, n) == Entries(w.log, n)
  {
    var goal := Goal(files, upd);
    if goal == RegularFile {
      EnforceFileFinal(w, files, upd, env, d);
    } else if goal == Folder {
      EnforceDirectoryFinal(w, files, upd, env, d);
    } else if goal == Symlink {
      EnforceLinkFinal(w, files, upd, env, d);
    }
  }

  /* ---- convergence ---- */

  predicate EnsureLogged(chgs: seq<Change>) {
    Logged(chgs, "ensure")
  }

  predicate EnsureEntries(chgs: seq<Change>, files: Files, upd: Update) {
    && (EnsureLogged(chgs) <==> !SameType(files, upd))
    && forall c :: c in chgs && c.attr == "ensure" ==>
         c == Change("ensure", Str(Goal(files, upd).Text()), Str("absent"))
  }

  lemma EnsureEntriesMore(chgs: seq<Change>, more: seq<Change>, files: Files, upd: Update)
    requires EnsureEntries(chgs, files, upd)
    requires forall c :: c in more ==> c.attr != "ensure"
    ensures EnsureEntries(chgs + more, files, upd)
  {
    hide Goal, SameType;
    if EnsureLogged(chgs) {
      var c :| c in chgs && c.attr == "ensure";
      assert c in chgs + more;
    }
  }

  lemma AddMetadataMore(chgs: seq<Change>, upd: Update)
    ensures chgs <= AddMetadata(chgs, upd)
    ensures forall c :: c in AddMetadata(chgs, upd)[|chgs|..] ==> c.attr in METADATA
  {
    AddDiffsExact(chgs, METADATA, upd);
  }

  lemma FinalLogEnsure(files: Files, upd: Update)
    ensures EnsureEntries(FinalLog(files, upd), files, upd)
  {
    hide Goal, AddMetadata, SameType, OldContent;
    var typed := TypeLog(files, upd);
    assert typed != [] ==> typed[0] in typed;
    if Goal(files, upd) == Symlink {
      var start := AddDiff(typed, "target", upd);
      EnsureEntriesMore(typed, start[|typed|..], files, upd);
      assert start == typed + start[|typed|..];
      AddMetadataMore(start, upd);
      EnsureEntriesMore(start, AddMetadata(start, upd)[|start|..], files, upd);
    } else if Goal(files, upd) != Absent {
      AddMetadataMore(typed, upd);
      var meta := AddMetadata(typed, upd);
      EnsureEntriesMore(typed, meta[|typed|..], files, upd);
      assert meta == typed + meta[|typed|..];
      var all := FinalLog(files, upd);
      EnsureEntriesMore(meta, all[|meta|..], files, upd);
      assert all == meta + all[|meta|..];
    }
  }

  /** The cell of the state table that an update asks for has been reached. */
  predicate Reached(files': Files, files: Files, upd: Update) {
    var name, c, t := upd.Name(), upd.should.Get("content"), upd.should.Get("target");
    match Goal(files, upd)
    case Absent => name !in files'
    case RegularFile =>
      && name in files' && files'[name].File?
      && files'[name].content == if c.Str? then c.s else OldContent(files, name)
    case Folder => name in files' && files'[name].Directory?
    case Symlink => name in files' && files'[name].Link? && t == Str(files'[name].target)
    case Other(_) => false
  }

  lemma FinalReached(files: Files, upd: Update, d: Defaults)
    requires !Goal(files, upd).Other?
    requires Goal(files, upd) == Symlink ==> upd.should.Get("target").Str?
    ensures Reached(Final(files, upd, d), files, upd)
  {
    hide MetaAfter, Wanted;
  }

  /**
   * If an update from an accurate state succeeds, the node has the type in the cell of the
   * state table, the content or the target asked for, and the log says so: "ensure" is
   * recorded exactly when the type changed.
   */
  lemma Converges(w: World, upd: Update, env: Faults, d: Defaults)
    requires Accurate(w.files, upd) && NoModeOnLink(w.files, upd)
    requires Entries(w.log, upd.Name()) == []
    requires SetOne(w, upd, env, d).Done?
    ensures Reached(SetOne(w, upd, env, d).w.files, w.files, upd)
    ensures EnsureEntries(Entries(SetOne(w, upd, env, d).w.log, upd.Name()), w.files, upd)
  {
    hide SetOne, Final, FinalLog, Load, MetaAfter, Goal, Readable, OldContent, Reached;
    SetOneFinal(w, upd, env, d);
    FinalLogEnsure(w.files, upd);
    FinalReached(w.files, upd, d);
  }

  /** A directory never becomes a link; with force set, it is lost in the attempt. */
  lemma DirectoryToLinkFails(w: World, upd: Update, env: Faults, d: Defaults)
    requires Accurate(w.files, upd)
    requires KindOf(w.files, upd.Name()) == Folder && Goal(w.files, upd) == Symlink
    ensures SetOne(w, upd, env, d).Failed?
    ensures !Force(upd.should) ==> SetOne(w, upd, env, d).w == w
    ensures Force(upd.should) && RemoveOld !in env.failing ==>
              upd.Name() !in SetOne(w, upd, env, d).w.files && SetOne(w, upd, env, d).w.files != w.files
  {
    LoadedState(w.files, upd.Name());
  }

  /** The old node is removed before an impossible goal, or a link without target, is noticed. */
  lemma ImpossibleGoalLosesNode(w: World, upd: Update, env: Faults, d: Defaults)
    requires Accurate(w.files, upd) && RemoveOld !in env.failing
    requires KindOf(w.files, upd.Name()) in {RegularFile, Symlink}
    requires Goal(w.files, upd) != KindOf(w.files, upd.Name())
    requires Goal(w.files, upd).Other? || (Goal(w.files, upd) == Symlink && !upd.should.Get("target").Str?)
    ensures SetOne(w, upd, env, d).Failed?
    ensures SetOne(w, upd, env, d).w.files == w.files - {upd.Name()}
  {
    LoadedState(w.files, upd.Name());
  }
}
