/** The state table of the file provider in plain terms: what is asked for, and what is there then. */
module FileTable {
  import opened Core
  import opened Changes
  import opened FileSystem
  import opened FileTheorems
  import opened FileSafety
  import opened FileProgress

  /* ---- the table ---- */

  /** The names of the types, as they are loaded. */
  function LoadedType(n: Node): string {
    match n
    case File(_, _) => "file"
    case Directory(_) => "directory"
    case Link(_, _) => "link"
    case Special(_, device) =>
      match device
      case Block => "block"
      case Char => "char"
      case Fifo => "fifo"
      case Socket => "socket"
  }

  /** What is loaded of a path: nothing but its absence, or the type, the metadata and the target. */
  lemma LoadTable(files: Files, name: string)
    ensures Load(files, name).name == name
    ensures name !in files ==> Load(files, name).attrs == map["ensure" := Str("absent")]
    ensures name in files ==>
              var r, n := Load(files, name), files[name];
              && r.Get("ensure") == Str(if n.Special? then "present" else LoadedType(n))
              && r.Get("type") == Str(LoadedType(n)) && r.Get("mode") == Str(ModeText(n.meta.mode))
              && r.Get("owner") == Str(IdText(n.meta.owner)) && r.Get("group") == Str(IdText(n.meta.group))
              && r.Get("target") == if n.Link? then Str(n.target) else NoValue
  {
    hide ModeText, IdText;
  }

  /** The state that any actual resource claims, loaded or not: "present" stands for its type, or a file. */
  lemma ClaimedState(actual: Resource)
    ensures StateOf(actual).Text() ==
              if Said(actual, "absent") != "present" then Said(actual, "absent")
              else match actual.Get("type")
                   case Str(t) => t
                   case _ => "file"
  {
  }

  /** Two nodes of the same type. */
  predicate SameShape(n: Node, n': Node) {
    && (n.File? <==> n'.File?) && (n.Directory? <==> n'.Directory?) && (n.Link? <==> n'.Link?)
    && (n.Special? <==> n'.Special?)
  }

  /** The path is as it was, but for what the node holds. */
  predicate ShapeKept(files: Files, files': Files, name: string) {
    && (name in files <==> name in files')
    && (name in files ==> SameShape(files[name], files'[name]))
  }

  /** A link is asked for, or is there and left to be one. */
  predicate AsksForLink(files: Files, upd: Update) {
    var e := upd.should.Get("ensure");
    || e == Str("link")
    || ((e == Str("present") || !e.Str?) && upd.Name() in files && files[upd.Name()].Link?)
  }

  /** A file is what a path becomes if it is only to be present. */
  predicate AsksForFile(files: Files, upd: Update) {
    var e := upd.should.Get("ensure");
    || e == Str("file")
    || (e == Str("present") && upd.Name() !in files)
    || ((e == Str("present") || !e.Str?) && upd.Name() in files && files[upd.Name()].File?)
  }

  predicate AsksForDirectory(files: Files, upd: Update) {
    var e := upd.should.Get("ensure");
    || e == Str("directory")
    || ((e == Str("present") || !e.Str?) && upd.Name() in files && files[upd.Name()].Directory?)
  }

  predicate AsksForNothing(files: Files, upd: Update) {
    var e := upd.should.Get("ensure");
    e == Str("absent") || (!e.Str? && upd.Name() !in files)
  }

  lemma GoalAsked(files: Files, upd: Update)
    ensures Goal(files, upd) == RegularFile <==> AsksForFile(files, upd)
    ensures Goal(files, upd) == Folder <==> AsksForDirectory(files, upd)
    ensures Goal(files, upd) == Symlink <==> AsksForLink(files, upd)
    ensures Goal(files, upd) == Absent <==> AsksForNothing(files, upd)
  {
    LoadedState(files, upd.Name());
    hide KindOf;
  }

  /** An accurate update with a new log, and without a mode for a link. */
  ghost predicate Proper(w: World, upd: Update) {
    && Accurate(w.files, upd) && Entries(w.log, upd.Name()) == []
    && (AsksForLink(w.files, upd) ==> !upd.should.Get("mode").IsSet())
  }

  lemma ProperFacts(w: World, upd: Update)
    requires Proper(w, upd)
    ensures Accurate(w.files, upd) && NoModeOnLink(w.files, upd) && Entries(w.log, upd.Name()) == []
  {
    GoalAsked(w.files, upd);
    hide Load, Goal, AsksForLink;
  }

  lemma ReachedTable(w: World, upd: Update, env: Faults, d: Defaults)
    requires Proper(w, upd) && SetOne(w, upd, env, d).Done?
    ensures !Goal(w.files, upd).Other? && Reached(SetOne(w, upd, env, d).w.files, w.files, upd)
  {
    ProperFacts(w, upd);
    hide SetOne, Proper, Reached, Goal, Load;
    Converges(w, upd, env, d);
    SetOneFinal(w, upd, env, d);
  }

  /**
   * What stands under a name after a successful update, for every desired `ensure`: "present" is
   * what is there, or a file; an `ensure` that is not given leaves things as they are.
   */
  lemma StateTable(w: World, upd: Update, env: Faults, d: Defaults)
    requires Proper(w, upd) && SetOne(w, upd, env, d).Done?
    ensures var files, files', name, e := w.files, SetOne(w, upd, env, d).w.files, upd.Name(), upd.should.Get("ensure");
            && (e == Str("absent") ==> name !in files')
            && (e == Str("file") ==> name in files' && files'[name].File?)
            && (e == Str("directory") ==> name in files' && files'[name].Directory?)
            && (e == Str("link") ==> name in files' && files'[name].Link?)
            && (e == Str("present") ==>
                  if name in files then ShapeKept(files, files', name) else name in files' && files'[name].File?)
            && (!e.Str? ==> ShapeKept(files, files', name))
  {
    ReachedTable(w, upd, env, d);
    GoalAsked(w.files, upd);
    hide SetOne, Proper, Goal, Load;
  }

  /** What a file holds and where a link leads after a successful update. */
  lemma ContentTable(w: World, upd: Update, env: Faults, d: Defaults)
    requires Proper(w, upd) && SetOne(w, upd, env, d).Done?
    ensures var files, files', name := w.files, SetOne(w, upd, env, d).w.files, upd.Name();
            var content, target := upd.should.Get("content"), upd.should.Get("target");
            && (name in files' && files'[name].File? ==>
                  files'[name].content ==
                    if content.Str? then content.s
                    else if name in files && files[name].File? then files[name].content else "")
            && (name in files' && files'[name].Link? ==> target == Str(files'[name].target))
  {
    ReachedTable(w, upd, env, d);
    hide SetOne, Proper, Goal, Load;
  }

  /** Any other text is refused, whatever is there. */
  lemma OtherEnsureFails(w: World, upd: Update, env: Faults, d: Defaults)
    requires Proper(w, upd) && upd.should.Get("ensure").Str?
    requires upd.should.Get("ensure").s !in {"present", "absent", "file", "directory", "link"}
    ensures SetOne(w, upd, env, d).Failed?
  {
    GoalAsked(w.files, upd);
    if SetOne(w, upd, env, d).Done? {
      hide SetOne, Proper, Goal, Load, Reached;
      ReachedTable(w, upd, env, d);
    }
  }

  /** A directory becomes something else, or nothing, only if `force` is the text "true". */
  lemma DirectoryNeedsForce(w: World, upd: Update, env: Faults, d: Defaults)
    requires Proper(w, upd) && upd.Name() in w.files && w.files[upd.Name()].Directory?
    requires !AsksForDirectory(w.files, upd)
    ensures SetOne(w, upd, env, d) == Failed(w, CannotChangeDirectory) <==> upd.should.Get("force") != Str("true")
    ensures AsksForNothing(w.files, upd) && upd.should.Get("force") == Str("true") && env.failing == {} ==>
              SetOne(w, upd, env, d).Done?
  {
    LoadedState(w.files, upd.Name());
    GoalAsked(w.files, upd);
    ProperFacts(w, upd);
    hide Load, Goal, KindOf, UpdateMetadata, UpdateContent, UpdateTarget, Doomed, CreateEmpty, CreateDirectory;
    if upd.should.Get("force") != Str("true") {
      RejectedUntouched(w, upd, env, d);
    } else {
      assert Force(upd.should);
      OtherError(w, upd, env, d);
    }
    if AsksForNothing(w.files, upd) && env.failing == {} && Force(upd.should) {
      hide SetOne;
      SucceedsIff(w, upd, env, d);
    }
  }

  /** With force set, the update is not refused for being one of a directory. */
  lemma OtherError(w: World, upd: Update, env: Faults, d: Defaults)
    requires Force(upd.should)
    ensures SetOne(w, upd, env, d).Failed? ==> SetOne(w, upd, env, d).error != CannotChangeDirectory
  {
    var state := StateOf(upd.actual);
    var ensure := Wanted(upd.should, state);
    hide StateOf, Wanted, Force, Doomed, CreateEmpty, CreateDirectory, AddDiffs;
    forall w1: World, s: Kind ensures Enforce(w1, upd, s, ensure, env, d).Failed? ==>
                                        Enforce(w1, upd, s, ensure, env, d).error != CannotChangeDirectory {
      EnforceError(w1, upd, s, ensure, env, d);
    }
    hide Enforce;
  }

  lemma EnforceError(w: World, upd: Update, state: Kind, ensure: Kind, env: Faults, d: Defaults)
    ensures var r := Enforce(w, upd, state, ensure, env, d); r.Failed? ==> r.error != CannotChangeDirectory
  {
    hide Force, Doomed, AddDiffs, ParseId, ParseMode, Resolve;
    MetadataError(w, upd, env);
    MetadataError(CreateEmpty(w, upd.Name(), env, d).w, upd, env);
    MetadataError(CreateDirectory(w, upd.Name(), env, d).w, upd, env);
    MetadataError(UpdateTarget(w, upd, env, d).w, upd, env);
    hide UpdateMetadata;
  }

  lemma MetadataError(w: World, upd: Update, env: Faults)
    ensures UpdateMetadata(w, upd, env).Failed? ==> UpdateMetadata(w, upd, env).error != CannotChangeDirectory
  {
    hide AddDiffs, ParseId, ParseMode;
  }

  /* ---- removal ---- */

  /** The prefix of everything below a directory. */
  function Below(name: string): string {
    if name != "" && name[|name| - 1] == '/' then name else name + "/"
  }

  /**
   * A successful update that removes a directory, or puts something else in its place, takes all
   * that is below it, at any depth, and nothing else.
   */
  lemma RemovalTakesAll(w: World, upd: Update, env: Faults, d: Defaults)
    requires Proper(w, upd) && SetOne(w, upd, env, d).Done?
    requires upd.Name() in w.files && w.files[upd.Name()].Directory?
    requires var files' := SetOne(w, upd, env, d).w.files; upd.Name() in files' ==> !files'[upd.Name()].Directory?
    ensures var files, files', name := w.files, SetOne(w, upd, env, d).w.files, upd.Name();
            && (forall q :: q != name && Below(name) <= q ==> q !in files')
            && (forall q :: q != name && !(Below(name) <= q) ==>
                  (q in files' <==> q in files) && (q in files ==> files'[q] == files[q]))
  {
    ProperFacts(w, upd);
    ReachedTable(w, upd, env, d);
    LoadedState(w.files, upd.Name());
    hide SetOne, Proper, Goal, Load, KindOf, FinalNode;
    SetOneFinal(w, upd, env, d);
  }

  /** Every other successful update leaves all other paths alone. */
  lemma OthersUntouched(w: World, upd: Update, env: Faults, d: Defaults)
    requires Proper(w, upd) && SetOne(w, upd, env, d).Done?
    requires upd.Name() in w.files && w.files[upd.Name()].Directory? ==>
               var files' := SetOne(w, upd, env, d).w.files; upd.Name() in files' && files'[upd.Name()].Directory?
    ensures var files, files' := w.files, SetOne(w, upd, env, d).w.files;
            forall q :: q != upd.Name() ==> (q in files' <==> q in files) && (q in files ==> files'[q] == files[q])
  {
    ProperFacts(w, upd);
    ReachedTable(w, upd, env, d);
    LoadedState(w.files, upd.Name());
    hide SetOne, Proper, Goal, Load, KindOf, FinalNode;
    SetOneFinal(w, upd, env, d);
  }

  /* ---- the log ---- */

  /** The name of the type of a node, as it is logged. */
  function TypeName(files: Files, name: string): string {
    if name !in files then "absent"
    else match files[name]
         case File(_, _) => "file"
         case Directory(_) => "directory"
         case Link(_, _) => "link"
         case Special(_, _) => "special"
  }

  lemma MetadataLog(chgs: seq<Change>, upd: Update)
    ensures AddMetadata(chgs, upd) == chgs + One(upd, "owner") + One(upd, "group") + One(upd, "mode")
  {
    AddDiffsCons(chgs, "owner", ["group", "mode"], upd);
    AddDiffsCons(chgs + One(upd, "owner"), "group", ["mode"], upd);
    AddDiffsCons(chgs + One(upd, "owner") + One(upd, "group"), "mode", [], upd);
    AddNoDiffs(chgs + One(upd, "owner") + One(upd, "group") + One(upd, "mode"), upd);
    hide One, AddDiffs;
    assert METADATA == ["owner"] + ["group", "mode"] && ["group", "mode"] == ["group"] + ["mode"];
    assert ["mode"] == ["mode"] + [];
  }

  /**
   * The log of a successful update, entry by entry: the new type if it is another one, which is
   * always said to come from "absent"; the target of a link; owner, group and mode; the content.
   */
  lemma LogTable(w: World, upd: Update, env: Faults, d: Defaults)
    requires Proper(w, upd) && SetOne(w, upd, env, d).Done?
    ensures var files, w', name := w.files, SetOne(w, upd, env, d).w, upd.Name();
            var c := upd.should.Get("content");
            var was := if name in files && files[name].File? then files[name].content else "";
            var typed := if ShapeKept(files, w'.files, name) then []
                         else [Change("ensure", Str(TypeName(w'.files, name)), Str("absent"))];
            Entries(w'.log, name) ==
              if name !in w'.files then typed
              else if w'.files[name].Link? then
                typed + One(upd, "target") + One(upd, "owner") + One(upd, "group") + One(upd, "mode")
              else
                typed + One(upd, "owner") + One(upd, "group") + One(upd, "mode")
                  + if w'.files[name].File? && c.Str? && c.s != was then [Change("content", c, Str(was))] else []
  {
    ProperFacts(w, upd);
    ReachedTable(w, upd, env, d);
    LoadedState(w.files, upd.Name());
    SetOneFinal(w, upd, env, d);
    TypeLogged(w.files, SetOne(w, upd, env, d).w.files, upd);
    var typed := TypeLog(w.files, upd);
    MetadataLog(typed, upd);
    MetadataLog(typed + One(upd, "target"), upd);
    hide SetOne, Proper, Goal, Load, KindOf, Final, AddMetadata, One, TypeLog, TypeName, ShapeKept;
    AddDiffIsOne(typed, "target", upd);
  }

  lemma TypeLogged(files: Files, files': Files, upd: Update)
    requires !Goal(files, upd).Other? && Reached(files', files, upd)
    ensures TypeLog(files, upd) ==
              if ShapeKept(files, files', upd.Name()) then []
              else [Change("ensure", Str(TypeName(files', upd.Name())), Str("absent"))]
  {
    LoadedState(files, upd.Name());
    hide Goal, KindOf, Load;
  }
}
