/** How true the reports about files are: the reported resource and the one that is loaded next. */
module FileReport {
  import opened Core
  import opened Changes
  import opened FileSystem
  import opened FileTheorems
  import opened FileStability
  import opened Provider
  import Progress = FileProgress

  /** The report after a successful update, and what is on disk then, agree on an attribute. */
  predicate Tells(files: Files, upd: Update, d: Defaults, attr: string) {
    Report(upd, FinalLog(files, upd)).Get(attr) == Load(Final(files, upd, d), upd.Name()).Get(attr)
  }

  /* ---- what is reported ---- */

  /** What the log of an update says about each attribute. */
  lemma LogSays(files: Files, upd: Update, attr: string)
    requires attr in ["ensure", "type", "mode", "owner", "group", "target"]
    ensures Logged(FinalLog(files, upd), attr) <==>
              if attr == "ensure" then !SameType(files, upd)
              else if attr == "type" then false
              else if attr == "target" then Goal(files, upd) == Symlink && upd.Changed("target")
              else Goal(files, upd) != Absent && upd.Changed(attr)
    ensures forall c :: c in FinalLog(files, upd) && c.attr == attr ==>
              c.now == if attr == "ensure" then Str(Goal(files, upd).Text()) else upd.should.Get(attr)
  {
    var typed := TypeLog(files, upd);
    var targeted := AddDiff(typed, "target", upd);
    MetadataEntries(typed, upd);
    MetadataEntries(targeted, upd);
    MetadataLogged(typed, upd, attr);
    MetadataLogged(targeted, upd, attr);
    TypeLogged(files, upd, attr);
    LogShape(files, upd);
    hide AddMetadata, Goal, FinalLog, SameType;
    assert "content" !in METADATA && attr != "content";
  }

  /** The log of an update is made of entries that are known by their attributes. */
  lemma LogShape(files: Files, upd: Update)
    ensures var typed, log := TypeLog(files, upd), FinalLog(files, upd);
            match Goal(files, upd)
            case Absent => log == typed
            case Symlink => log == AddMetadata(AddDiff(typed, "target", upd), upd)
            case _ => log == AddMetadata(typed, upd)
                      || exists c: Change :: c.attr == "content" && log == AddMetadata(typed, upd) + [c]
  {
    hide AddMetadata, Wanted;
  }

  lemma TypeLogged(files: Files, upd: Update, attr: string)
    ensures Logged(TypeLog(files, upd), attr) <==> attr == "ensure" && !SameType(files, upd)
    ensures Logged(AddDiff(TypeLog(files, upd), "target", upd), attr) <==>
              (attr == "ensure" && !SameType(files, upd)) || (attr == "target" && upd.Changed("target"))
  {
    hide SameType, Goal;
    var typed := TypeLog(files, upd);
    if upd.Changed("target") {
      var c := Change("target", upd.should.Get("target"), upd.actual.Get("target"));
      assert AddDiff(typed, "target", upd) == typed + [c];
      assert c in typed + [c];
    }
    if !SameType(files, upd) {
      assert typed[0] in typed;
    }
  }

  lemma MetadataEntries(chgs: seq<Change>, upd: Update)
    ensures forall c :: c in AddMetadata(chgs, upd) ==>
              c in chgs || (c.attr in METADATA && c.now == upd.should.Get(c.attr))
  {
    AddDiffsExact(chgs, METADATA, upd);
    var all := AddMetadata(chgs, upd);
    hide AddDiffs;
    assert all == chgs + all[|chgs|..];
  }

  /* ---- what is loaded ---- */

  lemma LoadedAttrs(files: Files, name: string)
    requires name in files && !files[name].Special?
    ensures var r, n := Load(files, name), files[name];
            && r.Get("ensure") == Str(n.Kind().Text()) && r.Get("type") == Str(n.Kind().Text())
            && r.Get("mode") == Str(ModeText(n.meta.mode))
            && r.Get("owner") == Str(IdText(n.meta.owner)) && r.Get("group") == Str(IdText(n.meta.group))
            && r.Get("target") == (if n.Link? then Str(n.target) else NoValue)
    ensures Load(files, name).attrs.Keys ==
              {"ensure", "type", "mode", "owner", "group"} + if files[name].Link? then {"target"} else {}
  {
    hide ModeText, IdText;
  }

  lemma LoadedNothing(files: Files, name: string)
    requires name !in files
    ensures Load(files, name) == AbsentResource(name)
  {
  }

  lemma FinalIsNode(files: Files, upd: Update, d: Defaults)
    requires Goal(files, upd) in {RegularFile, Folder, Symlink}
    ensures var files', name := Final(files, upd, d), upd.Name();
            && name in files' && !files'[name].Special?
            && files'[name].Kind() == Goal(files, upd)
            && files'[name].meta == MetaAfter(upd, StartMeta(files, upd, d))
            && (Goal(files, upd) == Symlink ==>
                  files'[name].Link? && files'[name].target == upd.should.Lookup("target", ""))
            && (Goal(files, upd) != Symlink ==> !files'[name].Link?)
  {
    hide MetaAfter, Wanted;
  }

  /* ---- one attribute ---- */

  /** The reported mode is that of the node. */
  ghost predicate ModeTold(files: Files, upd: Update, start: Meta) {
    if upd.Changed("mode") then IsModeText(upd.should.Get("mode"))
    else upd.Name() in files && files[upd.Name()].meta.mode == start.mode
  }

  predicate OwnersChange(upd: Update) {
    upd.Changed("owner") || upd.Changed("group")
  }

  /** The reported owner or group is that of the node; both are set if one of them differs. */
  ghost predicate IdTold(files: Files, upd: Update, attr: string, was: Meta -> Id, start: Meta) {
    if upd.Changed(attr) then IsIdText(upd.should.Get(attr))
    else upd.Name() in files
         && ((OwnersChange(upd) && upd.should.Get(attr).IsSet()) || was(files[upd.Name()].meta) == was(start))
  }

  predicate TypeTold(files: Files, upd: Update) {
    if upd.Name() in files then SameType(files, upd)
    else upd.should.Get("type") == Str(Goal(files, upd).Text())
  }

  predicate TargetTold(files: Files, upd: Update) {
    || Goal(files, upd) == Symlink
    || (KindOf(files, upd.Name()) != Symlink && !upd.should.Get("target").IsSet())
  }

  /** An update that has a node as its goal, as `SetOneFinal` finds it after a success. */
  ghost predicate Carried(files: Files, upd: Update) {
    && Accurate(files, upd) && NoModeOnLink(files, upd)
    && Goal(files, upd) in {RegularFile, Folder, Symlink}
    && Readable(upd)
    && (Goal(files, upd) == Symlink ==> upd.should.Get("target").Str?)
    && (upd.Name() in files ==> !files[upd.Name()].Special?)
  }

  lemma NotAbsent(files: Files, upd: Update)
    requires Accurate(files, upd) && Goal(files, upd) in {RegularFile, Folder, Symlink}
    ensures !WantsAbsent(upd)
  {
    hide ModeText, IdText;
  }

  lemma EnsureTold(files: Files, upd: Update, d: Defaults)
    requires Carried(files, upd)
    ensures Tells(files, upd, d, "ensure")
  {
    var log := FinalLog(files, upd);
    NotAbsent(files, upd);
    Loaded(files, upd, d);
    LogSays(files, upd, "ensure");
    OverrideAt(upd.should.attrs + upd.actual.attrs, log, "ensure");
    hide FinalLog, Final, Load, Wanted, Override, Readable, StartMeta, MetaAfter;
  }

  lemma TypeToldIff(files: Files, upd: Update, d: Defaults)
    requires Carried(files, upd)
    ensures Tells(files, upd, d, "type") <==> TypeTold(files, upd)
  {
    NotAbsent(files, upd);
    Loaded(files, upd, d);
    LogSays(files, upd, "type");
    ReportedValue(upd, FinalLog(files, upd), "type");
    if upd.Name() in files {
      KindTexts(files, upd);
    }
    hide FinalLog, Final, Load, Wanted, Report, Readable, StartMeta, MetaAfter;
  }

  /** Different types have different names. */
  lemma KindTexts(files: Files, upd: Update)
    requires Goal(files, upd) in {RegularFile, Folder, Symlink} && upd.Name() in files && !files[upd.Name()].Special?
    ensures KindOf(files, upd.Name()).Text() == Goal(files, upd).Text() <==> SameType(files, upd)
  {
    hide Wanted;
  }

  lemma TargetToldIff(files: Files, upd: Update, d: Defaults)
    requires Carried(files, upd)
    ensures Tells(files, upd, d, "target") <==> TargetTold(files, upd)
  {
    NotAbsent(files, upd);
    TargetsLoaded(files, upd, d);
    LogSays(files, upd, "target");
    ReportedValue(upd, FinalLog(files, upd), "target");
    hide FinalLog, Final, Load, Wanted, Report, Readable, KindOf, WantsAbsent, Logged;
  }

  /** What is known of the target on both sides. */
  lemma TargetsLoaded(files: Files, upd: Update, d: Defaults)
    requires Carried(files, upd)
    ensures Load(Final(files, upd, d), upd.Name()).Get("target") ==
              if Goal(files, upd) == Symlink then upd.should.Get("target") else NoValue
    ensures KindOf(files, upd.Name()) == Symlink <==> "target" in upd.actual.attrs
    ensures "target" in upd.actual.attrs ==> upd.actual.attrs["target"].IsSet()
  {
    hide Final, Load, Carried, KindOf;
    FinalTarget(files, upd, d);
    ActualTarget(files, upd);
  }

  lemma FinalTarget(files: Files, upd: Update, d: Defaults)
    requires Carried(files, upd)
    ensures Load(Final(files, upd, d), upd.Name()).Get("target") ==
              if Goal(files, upd) == Symlink then upd.should.Get("target") else NoValue
  {
    FinalIsNode(files, upd, d);
    hide Final, Load, Wanted, Readable, KindOf, MetaAfter, StartMeta, Accurate, NoModeOnLink;
    LoadedAttrs(Final(files, upd, d), upd.Name());
  }

  lemma ActualTarget(files: Files, upd: Update)
    requires Carried(files, upd)
    ensures KindOf(files, upd.Name()) == Symlink <==> "target" in upd.actual.attrs
    ensures "target" in upd.actual.attrs ==> upd.actual.attrs["target"].IsSet()
  {
    LoadedState(files, upd.Name());
    hide Load, Wanted, Readable, KindOf, NoModeOnLink;
    if upd.Name() in files {
      LoadedAttrs(files, upd.Name());
    } else {
      LoadedNothing(files, upd.Name());
    }
  }

  lemma ModeToldIff(files: Files, upd: Update, d: Defaults)
    requires Carried(files, upd)
    ensures Tells(files, upd, d, "mode") <==> ModeTold(files, upd, StartMeta(files, upd, d))
  {
    var start := StartMeta(files, upd, d);
    NotAbsent(files, upd);
    Loaded(files, upd, d);
    LogSays(files, upd, "mode");
    ReportedValue(upd, FinalLog(files, upd), "mode");
    hide FinalLog, Final, Load, Wanted, Report, ModeText, ParseMode, StartMeta, ModeAfter;
    if upd.Changed("mode") {
      ModeSettlesIff(upd, upd.should.Get("mode"), start.mode);
    } else if upd.Name() in files && ModeText(files[upd.Name()].meta.mode) == ModeText(start.mode) {
      ModeTextInjective(files[upd.Name()].meta.mode, start.mode);
    }
  }

  lemma OwnerToldIff(files: Files, upd: Update, d: Defaults)
    requires Carried(files, upd)
    ensures Tells(files, upd, d, "owner") <==>
              IdTold(files, upd, "owner", (m: Meta) => m.owner, StartMeta(files, upd, d))
  {
    var start, v := StartMeta(files, upd, d), upd.should.Get("owner");
    NotAbsent(files, upd);
    Loaded(files, upd, d);
    LogSays(files, upd, "owner");
    ReportedValue(upd, FinalLog(files, upd), "owner");
    hide FinalLog, Final, Load, Wanted, Report, IdText, ParseId, StartMeta, IdAfter;
    if upd.Name() in files {
      IdReported(upd, "owner", files[upd.Name()].meta.owner, start.owner);
    } else if OwnersChange(upd) {
      IdSettlesIff(v, start.owner);
    }
  }

  lemma GroupToldIff(files: Files, upd: Update, d: Defaults)
    requires Carried(files, upd)
    ensures Tells(files, upd, d, "group") <==>
              IdTold(files, upd, "group", (m: Meta) => m.group, StartMeta(files, upd, d))
  {
    var start, v := StartMeta(files, upd, d), upd.should.Get("group");
    NotAbsent(files, upd);
    Loaded(files, upd, d);
    LogSays(files, upd, "group");
    ReportedValue(upd, FinalLog(files, upd), "group");
    hide FinalLog, Final, Load, Wanted, Report, IdText, ParseId, StartMeta, IdAfter;
    if upd.Name() in files {
      IdReported(upd, "group", files[upd.Name()].meta.group, start.group);
    } else if OwnersChange(upd) {
      IdSettlesIff(v, start.group);
    }
  }

  /** An id of a node that is there: reported as asked for if it differs, else as it was. */
  lemma IdReported(upd: Update, attr: string, was: Id, start: Id)
    requires attr == "owner" || attr == "group"
    requires upd.actual.Get(attr) == Str(IdText(was)) && Readable(upd)
    ensures var v, asked := upd.should.Get(attr), AskedOwner(upd.should, attr);
            var after := if OwnersChange(upd) then IdAfter(asked, start) else start;
            (if upd.Changed(attr) then v else Str(IdText(was))) == Str(IdText(after)) <==>
              if upd.Changed(attr) then IsIdText(v)
              else (OwnersChange(upd) && v.IsSet()) || was == start
  {
    var v := upd.should.Get(attr);
    hide IdText, ParseId, IdAfter;
    if OwnersChange(upd) {
      IdSettlesIff(v, start);
      if !upd.Changed(attr) && v.IsSet() {
        IdSet(v, was, start);
      }
      if !v.IsSet() {
        assert IdAfter(AskedOwner(upd.should, attr), start) == start by { UnsetIdStays(start); }
      }
    }
    if IdText(was) == IdText(start) {
      IdTextInjective(was, start);
    }
  }

  lemma UnsetIdStays(start: Id)
    ensures IdAfter(Some(KEEP), start) == start
  {
  }

  /** What is known of both sides: the actual state, and the state that is loaded next. */
  lemma Loaded(files: Files, upd: Update, d: Defaults)
    requires Carried(files, upd)
    ensures var r, goal := Load(Final(files, upd, d), upd.Name()), Goal(files, upd);
            var m := MetaAfter(upd, StartMeta(files, upd, d));
            && r.Get("ensure") == Str(goal.Text()) && r.Get("type") == Str(goal.Text())
            && r.Get("mode") == Str(ModeText(m.mode))
            && r.Get("owner") == Str(IdText(m.owner)) && r.Get("group") == Str(IdText(m.group))
            && r.Get("target") == if goal == Symlink then Str(upd.should.Lookup("target", "")) else NoValue
    ensures if upd.Name() in files then
              var n := files[upd.Name()];
              && upd.actual.Get("ensure") == Str(n.Kind().Text()) && upd.actual.Get("type") == Str(n.Kind().Text())
              && upd.actual.Get("mode") == Str(ModeText(n.meta.mode))
              && upd.actual.Get("owner") == Str(IdText(n.meta.owner))
              && upd.actual.Get("group") == Str(IdText(n.meta.group))
              && upd.actual.Get("target") == (if n.Link? then Str(n.target) else NoValue)
              && upd.actual.attrs.Keys ==
                   {"ensure", "type", "mode", "owner", "group"} + if n.Link? then {"target"} else {}
            else upd.actual == AbsentResource(upd.Name())
  {
    FinalIsNode(files, upd, d);
    LoadedAttrs(Final(files, upd, d), upd.Name());
    if upd.Name() in files {
      LoadedAttrs(files, upd.Name());
    } else {
      LoadedNothing(files, upd.Name());
    }
    hide Load, Final, MetaAfter, StartMeta, Wanted, Readable, ModeText, IdText;
  }

  /**
   * What is reported after a successful update is what the next `get` loads: always for "ensure",
   * and for the other attributes exactly under these conditions. The type and the target of a
   * node that was replaced are reported as they were before.
   */
  lemma ReportToldIff(w: World, upd: Update, env: Faults, d: Defaults)
    requires Accurate(w.files, upd) && NoModeOnLink(w.files, upd)
    requires Entries(w.log, upd.Name()) == []
    requires SetOne(w, upd, env, d).Done? && Goal(w.files, upd) != Absent
    ensures var w', name := SetOne(w, upd, env, d).w, upd.Name();
            var told, loaded := Report(upd, Entries(w'.log, name)), Load(w'.files, name);
            var start := StartMeta(w.files, upd, d);
            && told.Get("ensure") == loaded.Get("ensure")
            && (told.Get("type") == loaded.Get("type") <==> TypeTold(w.files, upd))
            && (told.Get("target") == loaded.Get("target") <==> TargetTold(w.files, upd))
            && (told.Get("mode") == loaded.Get("mode") <==> ModeTold(w.files, upd, start))
            && (told.Get("owner") == loaded.Get("owner") <==>
                  IdTold(w.files, upd, "owner", (m: Meta) => m.owner, start))
            && (told.Get("group") == loaded.Get("group") <==>
                  IdTold(w.files, upd, "group", (m: Meta) => m.group, start))
  {
    SetOneFinal(w, upd, env, d);
    SpecialStays(w, upd, env, d);
    hide SetOne, Final, FinalLog, Load, Report, StartMeta, TypeTold, TargetTold, ModeTold, IdTold, Wanted, Readable;
    assert Carried(w.files, upd);
    EnsureTold(w.files, upd, d);
    TypeToldIff(w.files, upd, d);
    TargetToldIff(w.files, upd, d);
    ModeToldIff(w.files, upd, d);
    OwnerToldIff(w.files, upd, d);
    GroupToldIff(w.files, upd, d);
  }

  lemma SpecialStays(w: World, upd: Update, env: Faults, d: Defaults)
    requires Accurate(w.files, upd) && SetOne(w, upd, env, d).Done?
    ensures upd.Name() in w.files ==> !w.files[upd.Name()].Special?
  {
    LoadedState(w.files, upd.Name());
    hide Load, UpdateMetadata, UpdateContent, UpdateTarget;
  }

  /** The report of an update that takes a node away is the absent resource that is loaded next. */
  lemma AbsenceTold(w: World, upd: Update, env: Faults, d: Defaults)
    requires Accurate(w.files, upd) && NoModeOnLink(w.files, upd) && Entries(w.log, upd.Name()) == []
    requires SetOne(w, upd, env, d).Done? && WantsAbsent(upd)
    ensures var w' := SetOne(w, upd, env, d).w;
            Report(upd, Entries(w'.log, upd.Name())) == Load(w'.files, upd.Name())
  {
    SetOneFinal(w, upd, env, d);
    WantedGone(w.files, upd, d);
    hide SetOne, Final, Load, Wanted;
    LoadedNothing(Final(w.files, upd, d), upd.Name());
  }

  lemma WantedGone(files: Files, upd: Update, d: Defaults)
    requires Accurate(files, upd) && WantsAbsent(upd)
    ensures upd.Name() !in Final(files, upd, d)
  {
    assert Within(upd.Name(), upd.Name());
    hide ModeText, IdText;
  }

  /**
   * For example, a link that has become a file is reported with the type "link", the target and
   * the mode of the link, none of which the file has.
   */
  lemma ReplacedLinkMisreported(w: World, name: string, env: Faults, d: Defaults)
    requires name in w.files && w.files[name].Link? && w.files[name].meta.mode != d.file.mode
    requires Entries(w.log, name) == [] && env.failing == {}
    ensures var upd := Update(Load(w.files, name), Resource(name, map["ensure" := Str("file")]));
            var r := SetOne(w, upd, env, d);
            && r.Done?
            && var told, loaded := Report(upd, Entries(r.w.log, name)), Load(r.w.files, name);
               && told.Get("ensure") == loaded.Get("ensure")
               && told.Get("type") != loaded.Get("type")
               && told.Get("target") != loaded.Get("target")
               && told.Get("mode") != loaded.Get("mode")
  {
    var upd := Update(Load(w.files, name), Resource(name, map["ensure" := Str("file")]));
    LinkToFile(w.files, name);
    hide SetOne, Load, Report, Wanted, Progress.Possible;
    Progress.SucceedsIff(w, upd, env, d);
    ReportToldIff(w, upd, env, d);
  }

  lemma LinkToFile(files: Files, name: string)
    requires name in files && files[name].Link?
    ensures var upd := Update(Load(files, name), Resource(name, map["ensure" := Str("file")]));
            && upd.Name() == name && Accurate(files, upd) && NoModeOnLink(files, upd)
            && Goal(files, upd) == RegularFile && !SameType(files, upd) && KindOf(files, name) == Symlink
            && !upd.Changed("mode") && Progress.Possible(files, upd)
  {
    hide ModeText, IdText;
  }
}
