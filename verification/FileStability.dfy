/** How many passes of the file provider it takes until nothing changes any more. */
module FileStability {
  import opened Core
  import opened Text
  import opened Changes
  import opened FileSystem
  import opened FileTheorems
  import Progress = FileProgress

  /** One pass loads the actual state from disk and enforces the desired one, with a new log. */
  function Asking(files: Files, name: string, should: Resource): Update {
    Update(Load(files, name), should)
  }

  function Pass(files: Files, name: string, should: Resource, env: Faults, d: Defaults): Outcome {
    SetOne(World(files, map[]), Asking(files, name, should), env, d)
  }

  predicate NoModeForLink(files: Files, name: string, should: Resource) {
    NoModeOnLink(files, Asking(files, name, should))
  }

  ghost predicate Quiet(files: Files, name: string, after: World) {
    after.files == files && Entries(after.log, name) == []
  }

  /* ---- metadata as the provider would print it ---- */

  /** Unset, or exactly the text of this id. */
  predicate IdAgrees(v: Value, id: Id) {
    v.IsSet() ==> v == Str(IdText(id))
  }

  predicate ModeAgrees(v: Value, m: Mode) {
    v.IsSet() ==> v == Str(ModeText(m))
  }

  predicate MetaAgrees(should: Resource, m: Meta) {
    && ModeAgrees(should.Get("mode"), m.mode)
    && IdAgrees(should.Get("owner"), m.owner)
    && IdAgrees(should.Get("group"), m.group)
  }

  ghost predicate Canonical(should: Resource) {
    && (exists m: Mode :: ModeAgrees(should.Get("mode"), m))
    && (exists id: Id :: IdAgrees(should.Get("owner"), id))
    && (exists id: Id :: IdAgrees(should.Get("group"), id))
  }

  lemma ModeTextInjective(m: nat, n: nat)
    requires ModeText(m) == ModeText(n)
    ensures m == n
  {
    ModeTextDenotes(m);
    ModeTextDenotes(n);
  }

  lemma MetaChanged(files: Files, name: string, should: Resource)
    requires name in files
    ensures var upd, m := Asking(files, name, should), files[name].meta;
            && (upd.Changed("owner") <==> !IdAgrees(should.Get("owner"), m.owner))
            && (upd.Changed("group") <==> !IdAgrees(should.Get("group"), m.group))
            && (upd.Changed("mode") <==> !ModeAgrees(should.Get("mode"), m.mode))
  {
    hide Digits;
  }

  /** Setting an id from its own text works, if it works at all. */
  lemma IdSet(v: Value, id: Id, before: Id)
    requires IdAgrees(v, id) && v.IsSet()
    requires ParseId(v.s).Some?
    ensures IdAfter(ParseId(v.s), before) == id
  {
    hide Digits, StringToInt;
    StringToIntOfDigits(0, id, 10);
    assert Zeros(0) + Digits(id, 10) == Digits(id, 10);
  }

  lemma IdTextInjective(m: nat, n: nat)
    requires IdText(m) == IdText(n)
    ensures m == n
  {
    DigitsInjective(m, n, 10);
  }

  /** After a pass on a node of the right type, canonical metadata is what was asked for. */
  lemma MetaSettles(files: Files, name: string, should: Resource)
    requires name in files && Canonical(should) && Readable(Asking(files, name, should))
    ensures MetaAgrees(should, MetaAfter(Asking(files, name, should), files[name].meta))
  {
    var upd, m := Asking(files, name, should), files[name].meta;
    var after := MetaAfter(upd, m);
    MetaChanged(files, name, should);
    var mode: Mode :| ModeAgrees(should.Get("mode"), mode);
    var owner: Id :| IdAgrees(should.Get("owner"), owner);
    var group: Id :| IdAgrees(should.Get("group"), group);
    hide Load, Digits, StringToInt, ParseId, ParseMode;
    if should.Get("mode").IsSet() {
      ModeTextRoundTrip(mode);
    }
    OwnerSettles(should.Get("owner"), owner, m.owner, upd.Changed("owner") || upd.Changed("group"));
    OwnerSettles(should.Get("group"), group, m.group, upd.Changed("owner") || upd.Changed("group"));
  }

  lemma OwnerSettles(v: Value, id: Id, before: Id, chown: bool)
    requires IdAgrees(v, id)
    requires !chown ==> IdAgrees(v, before)
    requires chown && v.Str? ==> ParseId(v.s).Some?
    ensures IdAgrees(v, if chown then IdAfter(if v.Str? then ParseId(v.s) else Some(KEEP), before) else before)
  {
    if v.IsSet() && chown {
      IdSet(v, id, before);
    }
  }

  /** Metadata that agrees is left alone and not logged; metadata that does not is logged. */
  lemma MetaQuiet(files: Files, name: string, should: Resource)
    requires name in files
    ensures var upd, m := Asking(files, name, should), files[name].meta;
            && (AddMetadata([], upd) == [] <==> MetaAgrees(should, m))
            && (MetaAgrees(should, m) ==> forall n :: MetaAfter(upd, n) == n)
  {
    var upd := Asking(files, name, should);
    MetaChanged(files, name, should);
    AddDiffsExact([], METADATA, upd);
    hide Load, AddDiffs, IdAgrees, ModeAgrees;
    assert METADATA[0] == "owner" && METADATA[1] == "group" && METADATA[2] == "mode";
  }

  /* ---- passes ---- */

  lemma PassFinal(files: Files, name: string, should: Resource, env: Faults, d: Defaults)
    requires NoModeForLink(files, name, should)
    requires Pass(files, name, should, env, d).Done?
    ensures var upd, w := Asking(files, name, should), Pass(files, name, should, env, d).w;
            && !Goal(files, upd).Other?
            && w.files == Final(files, upd, d)
            && Entries(w.log, name) == FinalLog(files, upd)
            && (Goal(files, upd) != Absent ==> Readable(upd))
            && (Goal(files, upd) == Symlink ==> should.Get("target").Str?)
  {
    hide SetOne, Final, FinalLog, Load, Goal, Readable;
    LoadName(files, name);
    SetOneFinal(World(files, map[]), Asking(files, name, should), env, d);
  }

  lemma LoadName(files: Files, name: string)
    ensures Load(files, name).name == name
  {
  }

  /** Once reached, a type is also the goal of every later pass. */
  lemma GoalStable(files: Files, files': Files, name: string, should: Resource)
    requires KindOf(files', name) == Goal(files, Asking(files, name, should))
    ensures Goal(files', Asking(files', name, should)) == Goal(files, Asking(files, name, should))
    ensures SameType(files', Asking(files', name, should))
  {
    LoadName(files, name);
    LoadName(files', name);
    hide Load, KindOf;
  }

  lemma FinalKind(files: Files, upd: Update, d: Defaults)
    requires !Goal(files, upd).Other?
    ensures KindOf(Final(files, upd, d), upd.Name()) == Goal(files, upd)
  {
    hide MetaAfter, Wanted;
  }

  /** After a pass the type is right, and the next pass will keep it. */
  lemma PassReaches(files: Files, name: string, should: Resource, env: Faults, d: Defaults)
    requires NoModeForLink(files, name, should)
    requires Pass(files, name, should, env, d).Done?
    ensures var upd, files' := Asking(files, name, should), Pass(files, name, should, env, d).w.files;
            && KindOf(files', name) == Goal(files, upd)
            && Goal(files', Asking(files', name, should)) == Goal(files, upd)
            && SameType(files', Asking(files', name, should))
            && NoModeForLink(files', name, should)
  {
    hide Pass, Final, FinalLog, Load, Readable, Goal;
    LoadName(files, name);
    PassFinal(files, name, should, env, d);
    FinalKind(files, Asking(files, name, should), d);
    GoalStable(files, Pass(files, name, should, env, d).w.files, name, should);
  }

  predicate ContentAgrees(should: Resource, n: Node) {
    n.File? && should.Get("content").Str? ==> n.content == should.Get("content").s
  }

  /** On a file or directory of the right type, a pass is quiet exactly when everything agrees. */
  lemma QuietIff(files: Files, name: string, should: Resource, env: Faults, d: Defaults)
    requires var upd := Asking(files, name, should);
             SameType(files, upd) && Goal(files, upd) in {RegularFile, Folder}
    requires Pass(files, name, should, env, d).Done?
    ensures name in files
    ensures Quiet(files, name, Pass(files, name, should, env, d).w)
       <==> MetaAgrees(should, files[name].meta) && ContentAgrees(should, files[name])
  {
    LoadName(files, name);
    KindNode(files, name);
    PassFinal(files, name, should, env, d);
    MetaQuiet(files, name, should);
    var upd, n := Asking(files, name, should), files[name];
    hide Pass, AddMetadata, Load, MetaAfter, MetaAgrees, Wanted, KindOf;
    assert FinalLog(files, upd) == [] <==> MetaAgrees(should, n.meta) && ContentAgrees(should, n);
    if MetaAgrees(should, n.meta) && ContentAgrees(should, n) {
      assert FinalNode(files, upd, d) == n;
      assert Final(files, upd, d) == files;
    }
  }

  lemma KindNode(files: Files, name: string)
    ensures KindOf(files, name) == RegularFile ==> name in files && files[name].File?
    ensures KindOf(files, name) == Folder ==> name in files && files[name].Directory?
    ensures KindOf(files, name) == Symlink ==> name in files && files[name].Link?
  {
  }

  /** What a pass over a file or directory of the right type leaves behind. */
  lemma PassOnSameType(files: Files, name: string, should: Resource, env: Faults, d: Defaults)
    requires var upd := Asking(files, name, should);
             SameType(files, upd) && Goal(files, upd) in {RegularFile, Folder}
    requires Pass(files, name, should, env, d).Done?
    ensures var files' := Pass(files, name, should, env, d).w.files;
            && name in files && name in files'
            && Readable(Asking(files, name, should))
            && files'[name].meta == MetaAfter(Asking(files, name, should), files[name].meta)
            && ContentAgrees(should, files'[name])
  {
    LoadName(files, name);
    KindNode(files, name);
    PassFinal(files, name, should, env, d);
    hide Pass, Load, MetaAfter, Readable, Wanted, KindOf, FinalLog;
  }

  lemma TwoPassesOnNode(files1: Files, name: string, should: Resource, env2: Faults, env3: Faults, d: Defaults)
    requires var upd := Asking(files1, name, should);
             SameType(files1, upd) && Goal(files1, upd) in {RegularFile, Folder}
    requires Pass(files1, name, should, env2, d).Done?
    requires Pass(Pass(files1, name, should, env2, d).w.files, name, should, env3, d).Done?
    ensures var files2 := Pass(files1, name, should, env2, d).w.files;
            (Quiet(files2, name, Pass(files2, name, should, env3, d).w) <==> Canonical(should))
  {
    hide Pass, Goal, Load, MetaAfter, Readable, ContentAgrees;
    var files2 := Pass(files1, name, should, env2, d).w.files;
    PassReaches(files1, name, should, env2, d);
    PassOnSameType(files1, name, should, env2, d);
    QuietIff(files2, name, should, env3, d);
    if Canonical(should) {
      MetaSettles(files1, name, should);
    }
  }

  /* ---- links ---- */

  lemma LinkMeta(files: Files, name: string, should: Resource, m: Meta)
    requires !should.Get("mode").IsSet()
    requires IdAgrees(should.Get("owner"), m.owner) && IdAgrees(should.Get("group"), m.group)
    requires Readable(Asking(files, name, should))
    ensures MetaAfter(Asking(files, name, should), m) == m
  {
    hide Load, Digits, StringToInt, ParseId, ParseMode, IdText;
    if should.Get("owner").IsSet() && AskedOwner(should, "owner").Some? {
      IdSet(should.Get("owner"), m.owner, m.owner);
    }
    if should.Get("group").IsSet() && AskedOwner(should, "group").Some? {
      IdSet(should.Get("group"), m.group, m.group);
    }
  }

  lemma PassOnLink(files: Files, name: string, should: Resource, env: Faults, d: Defaults)
    requires var upd := Asking(files, name, should);
             SameType(files, upd) && Goal(files, upd) == Symlink && NoModeForLink(files, name, should)
    requires Pass(files, name, should, env, d).Done?
    ensures name in files && should.Get("target").Str? && !should.Get("mode").IsSet()
    ensures Readable(Asking(files, name, should))
    ensures Pass(files, name, should, env, d).w.files
              == files[name := Link(MetaAfter(Asking(files, name, should), d.link), should.Get("target").s)]
    ensures Entries(Pass(files, name, should, env, d).w.log, name)
              == AddMetadata(AddDiff([], "target", Asking(files, name, should)), Asking(files, name, should))
  {
    LoadName(files, name);
    KindNode(files, name);
    PassFinal(files, name, should, env, d);
    hide Pass, Load, MetaAfter, Readable, Wanted, KindOf, AddMetadata;
  }

  lemma LoadedTarget(files: Files, name: string, should: Resource)
    requires name in files && files[name].Link? && should.Get("target") == Str(files[name].target)
    ensures AddDiff([], "target", Asking(files, name, should)) == []
  {
  }

  /** What a pass leaves of a link: a new one, with the metadata that was asked for. */
  lemma PassMakesLink(files: Files, name: string, should: Resource, env: Faults, d: Defaults)
    requires var upd := Asking(files, name, should);
             Goal(files, upd) == Symlink && NoModeForLink(files, name, should)
    requires Pass(files, name, should, env, d).Done?
    ensures var files1, upd := Pass(files, name, should, env, d).w.files, Asking(files, name, should);
            && name in files1 && should.Get("target").Str? && !should.Get("mode").IsSet() && Readable(upd)
            && files1[name] == Link(MetaAfter(upd, d.link), should.Get("target").s)
  {
    LoadName(files, name);
    PassFinal(files, name, should, env, d);
    hide Pass, Load, MetaAfter, Readable, Wanted, KindOf;
  }

  /** One pass suffices for a link exactly if nothing but what a new link has is asked of it. */
  lemma OnePassOnLink(files: Files, name: string, should: Resource, env1: Faults, env2: Faults, d: Defaults)
    requires var upd := Asking(files, name, should);
             Goal(files, upd) == Symlink && NoModeForLink(files, name, should)
    requires Pass(files, name, should, env1, d).Done?
    requires Pass(Pass(files, name, should, env1, d).w.files, name, should, env2, d).Done?
    ensures var files1 := Pass(files, name, should, env1, d).w.files;
            Quiet(files1, name, Pass(files1, name, should, env2, d).w) <==> IdsAgree(should, d.link)
  {
    hide Pass, Goal, Load, MetaAfter, Readable, IdAgrees, AddMetadata, AddDiff, NoModeForLink;
    var files1 := Pass(files, name, should, env1, d).w.files;
    PassMakesLink(files, name, should, env1, d);
    PassReaches(files, name, should, env1, d);
    PassOnLink(files1, name, should, env2, d);
    LoadedTarget(files1, name, should);
    MetaQuiet(files1, name, should);
    if IdsAgree(should, d.link) {
      LinkMeta(files, name, should, d.link);
    }
    var files2 := Pass(files1, name, should, env2, d).w.files;
    if files2 == files1 {
      assert files2[name].meta == files1[name].meta;
    }
  }

  /** The metadata that can be asked of a link. */
  predicate IdsAgree(should: Resource, m: Meta) {
    IdAgrees(should.Get("owner"), m.owner) && IdAgrees(should.Get("group"), m.group)
  }

  /* ---- the theorem ---- */

  /** What a desired state must look like for the provider to come to rest on it. */
  ghost predicate Settles(should: Resource, kind: Kind, d: Defaults) {
    match kind
    case Absent => true
    case Symlink => IdsAgree(should, d.link)
    case _ => Canonical(should)
  }

  /**
   * After two successful passes with the same desired state, a third one records no change and
   * leaves the filesystem as it is, exactly when the metadata asked for is canonical and, for a
   * link, what a new link gets anyway. Any calls may be refused in any of the passes.
   */
  lemma StableAfterTwoPassesIff(files: Files, name: string, should: Resource,
                                env1: Faults, env2: Faults, env3: Faults, d: Defaults)
    requires NoModeForLink(files, name, should)
    requires Pass(files, name, should, env1, d).Done?
    requires Pass(Pass(files, name, should, env1, d).w.files, name, should, env2, d).Done?
    requires var files2 := Pass(Pass(files, name, should, env1, d).w.files, name, should, env2, d).w.files;
             Pass(files2, name, should, env3, d).Done?
    ensures var files2 := Pass(Pass(files, name, should, env1, d).w.files, name, should, env2, d).w.files;
            (Quiet(files2, name, Pass(files2, name, should, env3, d).w) <==>
               Settles(should, Goal(files, Asking(files, name, should)), d))
  {
    hide Pass, Goal, Load, Quiet, Canonical, IdsAgree, NoModeForLink;
    var files1 := Pass(files, name, should, env1, d).w.files;
    var files2 := Pass(files1, name, should, env2, d).w.files;
    PassReaches(files, name, should, env1, d);
    PassReaches(files1, name, should, env2, d);
    PassFinal(files, name, should, env1, d);
    match Goal(files, Asking(files, name, should)) {
      case Absent => AbsentQuiet(files2, name, should, env3, d);
      case Symlink => OnePassOnLink(files1, name, should, env2, env3, d);
      case RegularFile => TwoPassesOnNode(files1, name, should, env2, env3, d);
      case Folder => TwoPassesOnNode(files1, name, should, env2, env3, d);
    }
  }

  lemma AbsentQuiet(files: Files, name: string, should: Resource, env: Faults, d: Defaults)
    requires var upd := Asking(files, name, should); SameType(files, upd) && Goal(files, upd) == Absent
    requires Pass(files, name, should, env, d).Done?
    ensures Quiet(files, name, Pass(files, name, should, env, d).w)
  {
    PassFinal(files, name, should, env, d);
    LoadName(files, name);
    hide Pass, Load, Wanted, KindOf;
  }

  /** The third pass does succeed if the system refuses nothing. */
  lemma QuietPassSucceeds(files: Files, name: string, should: Resource, env: Faults, d: Defaults)
    requires var upd := Asking(files, name, should);
             SameType(files, upd) && Goal(files, upd) in {Absent, RegularFile, Folder, Symlink}
    requires name in files ==> MetaAgrees(should, files[name].meta)
    requires should.Get("content").IsSet() ==> should.Get("content").Str?
    requires Goal(files, Asking(files, name, should)) == Symlink ==> should.Get("target").Str?
    requires env.failing == {}
    ensures Pass(files, name, should, env, d).Done?
  {
    hide Load, UpdateMetadata, Wanted, MetaAgrees;
    LoadName(files, name);
    KindNode(files, name);
    LoadedState(files, name);
    var w, upd := World(files, map[]), Asking(files, name, should);
    match Goal(files, upd) {
      case Absent =>
      case RegularFile => QuietMetadata(w, files, upd, env, []);
      case Folder => QuietMetadata(w, files, upd, env, []);
      case Symlink =>
        TargetAgain(files, name, should, env, d);
        QuietMetadata(UpdateTarget(w, upd, env, d).w, files, upd, env, AddDiff([], "target", upd));
    }
  }

  lemma TargetAgain(files: Files, name: string, should: Resource, env: Faults, d: Defaults)
    requires KindOf(files, name) == Symlink && should.Get("target").Str? && env.failing == {}
    ensures var upd := Asking(files, name, should);
            var r := UpdateTarget(World(files, map[]), upd, env, d);
            && r.Done? && Entries(r.w.log, name) == AddDiff([], "target", upd)
            && NoMetadata(AddDiff([], "target", upd))
  {
    LoadName(files, name);
    assert Within(name, name);
    hide ModeText, IdText;
  }

  lemma QuietMetadata(w: World, files: Files, upd: Update, env: Faults, chgs: seq<Change>)
    requires upd.Name() in files && upd == Asking(files, upd.Name(), upd.should)
    requires MetaAgrees(upd.should, files[upd.Name()].meta)
    requires Entries(w.log, upd.Name()) == chgs && NoMetadata(chgs)
    ensures UpdateMetadata(w, upd, env) == Done(w.(log := w.log[upd.Name() := chgs]))
  {
    MetaChanged(files, upd.Name(), upd.should);
    hide Load, UpdateMode, UpdateOwner, IdAgrees, ModeAgrees;
    AddDiffsExact(chgs, METADATA, upd);
    assert METADATA == ["owner", "group", "mode"];
  }

  /* ---- one pass ---- */

  /** The metadata from which an update starts: that of the node it keeps, or of a new one. */
  function StartMeta(files: Files, upd: Update, d: Defaults): Meta {
    var name, goal := upd.Name(), Goal(files, upd);
    if goal == Symlink then d.link
    else if SameType(files, upd) && name in files then files[name].meta
    else if goal == RegularFile then d.file
    else d.directory
  }

  /** The text can be one that is loaded for some mode, or for some id. */
  ghost predicate IsModeText(v: Value) {
    exists m: Mode :: ModeAgrees(v, m)
  }

  ghost predicate IsIdText(v: Value) {
    exists id: Id :: IdAgrees(v, id)
  }

  /**
   * What must be asked of a new node for a single pass to be enough: an attribute that differs
   * from the old node is set and must be written as it is loaded, any other is not set and must
   * be what a new node has anyway. Owner and group are set together.
   */
  ghost predicate SettlesAtOnce(upd: Update, start: Meta) {
    var mode, owner, group := upd.should.Get("mode"), upd.should.Get("owner"), upd.should.Get("group");
    && (if upd.Changed("mode") then IsModeText(mode) else ModeAgrees(mode, start.mode))
    && if upd.Changed("owner") || upd.Changed("group") then IsIdText(owner) && IsIdText(group)
       else IdAgrees(owner, start.owner) && IdAgrees(group, start.group)
  }

  lemma ModeSettlesIff(upd: Update, v: Value, before: Mode)
    requires v.Str? && ParseMode(v.s).Some?
    ensures ModeAgrees(v, ModeAfter(v, before)) <==> IsModeText(v)
  {
    hide ModeText, ParseMode;
    if IsModeText(v) {
      var m: Mode :| ModeAgrees(v, m);
      ModeTextRoundTrip(m);
    }
  }

  lemma IdSettlesIff(v: Value, before: Id)
    requires v.Str? ==> ParseId(v.s).Some?
    ensures IdAgrees(v, IdAfter(if v.Str? then ParseId(v.s) else Some(KEEP), before)) <==> IsIdText(v)
  {
    hide IdText, ParseId;
    if IsIdText(v) && v.IsSet() {
      var id: Id :| IdAgrees(v, id);
      IdSet(v, id, before);
    }
  }

  lemma MetaSettlesIff(upd: Update, start: Meta)
    requires Readable(upd)
    ensures MetaAgrees(upd.should, MetaAfter(upd, start)) <==> SettlesAtOnce(upd, start)
  {
    var mode, owner, group := upd.should.Get("mode"), upd.should.Get("owner"), upd.should.Get("group");
    hide ParseId, ParseMode, ModeAgrees, IdAgrees, IsIdText, IsModeText, ModeAfter, IdAfter;
    if upd.Changed("mode") {
      ModeSettlesIff(upd, mode, start.mode);
    }
    if upd.Changed("owner") || upd.Changed("group") {
      IdSettlesIff(owner, start.owner);
      IdSettlesIff(group, start.group);
    }
  }

  lemma OnePassOnNode(files: Files, name: string, should: Resource, env1: Faults, env2: Faults, d: Defaults)
    requires Goal(files, Asking(files, name, should)) in {RegularFile, Folder}
    requires Pass(files, name, should, env1, d).Done?
    requires Pass(Pass(files, name, should, env1, d).w.files, name, should, env2, d).Done?
    ensures var files1, upd := Pass(files, name, should, env1, d).w.files, Asking(files, name, should);
            (Quiet(files1, name, Pass(files1, name, should, env2, d).w) <==>
               SettlesAtOnce(upd, StartMeta(files, upd, d)))
  {
    LoadName(files, name);
    PassFinal(files, name, should, env1, d);
    PassReaches(files, name, should, env1, d);
    var files1, upd := Pass(files, name, should, env1, d).w.files, Asking(files, name, should);
    QuietIff(files1, name, should, env2, d);
    MetaSettlesIff(upd, StartMeta(files, upd, d));
    hide Pass, Load, MetaAfter, MetaAgrees, Wanted, Quiet, SettlesAtOnce, Readable;
  }

  /** What must be asked for in order that a single pass is enough. */
  ghost predicate OnePassEnough(files: Files, upd: Update, d: Defaults) {
    match Goal(files, upd)
    case Absent => true
    case Symlink => IdsAgree(upd.should, d.link)
    case _ => SettlesAtOnce(upd, StartMeta(files, upd, d))
  }

  /**
   * Metadata is compared with that of the node that was found, even if a new one has taken its
   * place; so one pass suffices, for a change of type or not, exactly under these conditions.
   */
  lemma OnePassSufficesIff(files: Files, name: string, should: Resource, env1: Faults, env2: Faults, d: Defaults)
    requires NoModeForLink(files, name, should)
    requires Pass(files, name, should, env1, d).Done?
    requires Pass(Pass(files, name, should, env1, d).w.files, name, should, env2, d).Done?
    ensures var files1 := Pass(files, name, should, env1, d).w.files;
            (Quiet(files1, name, Pass(files1, name, should, env2, d).w) <==>
               OnePassEnough(files, Asking(files, name, should), d))
  {
    hide Pass, Goal, Load, Quiet, SettlesAtOnce, StartMeta, IdsAgree, NoModeForLink;
    var files1 := Pass(files, name, should, env1, d).w.files;
    PassFinal(files, name, should, env1, d);
    PassReaches(files, name, should, env1, d);
    match Goal(files, Asking(files, name, should)) {
      case Absent => AbsentQuiet(files1, name, should, env2, d);
      case Symlink => OnePassOnLink(files, name, should, env1, env2, d);
      case RegularFile => OnePassOnNode(files, name, should, env1, env2, d);
      case Folder => OnePassOnNode(files, name, should, env1, env2, d);
    }
  }

  /**
   * For example, a link is to become a file with the mode that the link has: the mode is taken
   * for right and not set, and the second pass, which does set it, is not quiet.
   */
  lemma SecondPassNeeded(files: Files, name: string, env: Faults, d: Defaults)
    requires name in files && files[name].Link? && files[name].meta.mode == 511
    requires d.file.mode != 511 && env.failing == {}
    ensures var first := Pass(files, name, AsFile(name), env, d);
            && first.Done? && name in first.w.files && first.w.files[name].meta.mode == d.file.mode
            && var second := Pass(first.w.files, name, AsFile(name), env, d);
               second.Done? && !Quiet(first.w.files, name, second.w)
  {
    var should := AsFile(name);
    var upd := Asking(files, name, should);
    LinkAsFile(files, name);
    hide Pass, Load, Wanted, Quiet, MetaAfter, AsFile, Final, Readable;
    PassSucceeds(files, name, should, env, d);
    PassFinal(files, name, should, env, d);
    PassReaches(files, name, should, env, d);
    var files1 := Pass(files, name, should, env, d).w.files;
    NewFileMode(files, upd, d);
    LoadName(files, name);
    FileAsFile(files1, name);
    PassSucceeds(files1, name, should, env, d);
    OnePassSufficesIff(files, name, should, env, env, d);
    OtherMode(d.file.mode);
  }

  function AsFile(name: string): Resource {
    Resource(name, map["ensure" := Str("file"), "mode" := Str("0777")])
  }

  lemma PassSucceeds(files: Files, name: string, should: Resource, env: Faults, d: Defaults)
    requires env.failing == {} && NoModeForLink(files, name, should)
    requires Progress.Possible(files, Asking(files, name, should))
    ensures Pass(files, name, should, env, d).Done?
  {
    LoadName(files, name);
    hide SetOne, Load, Progress.Possible;
    Progress.SucceedsIff(World(files, map[]), Asking(files, name, should), env, d);
  }

  /** A link with this mode: another type is wanted, and the mode seems right. */
  lemma LinkAsFile(files: Files, name: string)
    requires name in files && files[name].Link? && files[name].meta.mode == 511
    ensures var upd := Asking(files, name, AsFile(name));
            && !SameType(files, upd) && Goal(files, upd) == RegularFile && NoModeForLink(files, name, AsFile(name))
            && !upd.Changed("mode") && !upd.Changed("owner") && !upd.Changed("group")
            && upd.should.Get("mode") == Str("0777")
            && Progress.Possible(files, upd)
  {
    FullMode();
    hide ModeText, IdText, ParseMode, ParseId;
  }

  lemma FileAsFile(files: Files, name: string)
    requires name in files && files[name].File?
    ensures var upd := Asking(files, name, AsFile(name));
            NoModeForLink(files, name, AsFile(name)) && Progress.Possible(files, upd)
  {
    FullMode();
    hide ModeText, IdText, ParseMode, ParseId;
  }

  lemma NewFileMode(files: Files, upd: Update, d: Defaults)
    requires Goal(files, upd) == RegularFile && !SameType(files, upd) && !upd.Changed("mode")
    ensures var files' := Final(files, upd, d);
            upd.Name() in files' && files'[upd.Name()].File? && files'[upd.Name()].meta.mode == d.file.mode
  {
    hide Load, Wanted;
  }

  lemma FullMode()
    ensures ModeText(511) == "0777" && ParseMode("0777") == Some(511)
  {
    assert Digits(7, 8) == "7";
    assert Digits(63, 8) == "77";
    assert Digits(511, 8) == "777";
    assert Zeros(1) == "0";
    ModeTextRoundTrip(511);
  }

  lemma OtherMode(m: Mode)
    requires m != 511
    ensures !ModeAgrees(Str("0777"), m)
  {
    FullMode();
    if ModeText(m) == ModeText(511) {
      ModeTextInjective(m, 511);
    }
  }

  /**
   * A mode without its leading zero is applied, but compared as text: however often the provider
   * runs, it is set and logged once more.
   */
  lemma ShortModeNeverSettles(files: Files, name: string, should: Resource,
                              env1: Faults, env2: Faults, env3: Faults, d: Defaults)
    requires should.Get("mode") == Str("660")
    requires Goal(files, Asking(files, name, should)) in {RegularFile, Folder}
    requires Pass(files, name, should, env1, d).Done?
    requires Pass(Pass(files, name, should, env1, d).w.files, name, should, env2, d).Done?
    requires var files2 := Pass(Pass(files, name, should, env1, d).w.files, name, should, env2, d).w.files;
             Pass(files2, name, should, env3, d).Done?
    ensures ParseMode("660") == Some(432)
    ensures var files2 := Pass(Pass(files, name, should, env1, d).w.files, name, should, env2, d).w.files;
            !Quiet(files2, name, Pass(files2, name, should, env3, d).w)
  {
    ShortMode(should);
    hide Pass, Load, Quiet, Canonical, Wanted, ParseMode;
    StableAfterTwoPassesIff(files, name, should, env1, env2, env3, d);
  }

  lemma ShortMode(should: Resource)
    requires should.Get("mode") == Str("660")
    ensures ParseMode("660") == Some(432) && !Canonical(should)
  {
    StringToIntPlain("660", 8);
    assert NumberOf("660", 8) == 432 by {
      assert "660"[..2] == "66" && "66"[..1] == "6" && "6"[..0] == "";
      assert NumberOf("6", 8) == 6;
      assert NumberOf("66", 8) == 54;
    }
    forall m: Mode ensures !ModeAgrees(should.Get("mode"), m) {
      ModeTextRoundTrip(m);
    }
  }
}
