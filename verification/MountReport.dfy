/** How true the reports about mounts are: the reported resource and the one that `get` shows next. */
module MountReport {
  import opened Core
  import opened Changes
  import opened Augeas
  import opened Fstab
  import opened Mount
  import opened MountGet
  import opened MountTheorems
  import opened MountReload
  import opened Provider
  import Progress = MountProgress

  /** An update as `provider::set` makes it: the actual state is what `get` has shown of the name. */
  ghost predicate FromGet(m: Mounts, upd: Update)
    requires GoodTable(m.fstab) && GoodTable(m.mtab)
  {
    && upd.should.name == upd.Name()
    && Again(m.fstab, m.mtab, upd) == [upd]
  }

  /** The attributes of a resource that comes from a line. */
  predicate HasLineAttrs(r: Resource) {
    && r.Get("target") == Str("/etc/fstab")
    && forall a :: a in r.attrs ==> r.attrs[a].Str?
  }

  lemma MakeAttrs(e: Entry, ens: string)
    requires GoodLine(e) && e.tag != Comment
    ensures HasLineAttrs(Make(e, ens)) && Make(e, ens).Get("ensure") == Str(ens)
  {
    hide Values;
  }

  /** What is known of an actual state that stems from `get`. */
  lemma ActualFromGet(m: Mounts, upd: Update)
    requires GoodTable(m.fstab) && GoodTable(m.mtab) && FromGet(m, upd)
    ensures AccurateState(m, upd)
    ensures if upd.actual.attrs == map[] then Status(m.fstab, m.mtab, upd.Name()) == "absent"
            else HasLineAttrs(upd.actual) && upd.actual.Get("ensure") == Str(Status(m.fstab, m.mtab, upd.Name()))
                 && Status(m.fstab, m.mtab, upd.Name()) != "absent"
  {
    var name := upd.Name();
    var found := Answer(m.fstab, m.mtab, name);
    OneAnswer(m.fstab, m.mtab, name);
    PairsAnswer(m.fstab, m.mtab, upd, found);
    AbsentIff(m, name);
    hide GoodTable, Again, Answer, Count, Status, HasLineAttrs;
    if found != [] {
      assert found[0] in found;
      LineAttrs(m.fstab, m.mtab, found[0]);
    }
  }

  lemma AbsentIff(m: Mounts, name: string)
    ensures Status(m.fstab, m.mtab, name) == "absent" <==> Count(m.fstab, name) + Count(m.mtab, name) == 0
  {
    hide Count;
  }

  lemma LineAttrs(fstab: Table, mtab: Table, r: Resource)
    requires ComesFrom(fstab, mtab, r)
    ensures HasLineAttrs(r) && r.Get("ensure") == Str(Status(fstab, mtab, r.name)) && r.attrs != map[]
  {
    hide Count, Make, FirstIndex, GoodLine, Status, HasLineAttrs;
    var t := if Count(fstab, r.name) > 0 then fstab else mtab;
    MakeAttrs(t[FirstIndex(t, r.name)], Status(fstab, mtab, r.name));
    assert r.Get("ensure") == Str(Status(fstab, mtab, r.name));
  }

  /* ---- what is reported ---- */

  lemma LogIsDiff(upd: Update)
    requires Ensure(upd) != "absent"
    ensures LogOf(upd) == DiffLog(upd, PROPERTIES) && "target" !in PROPERTIES
  {
    hide AddDiffs;
  }

  lemma EnsureToldIff(m: Mounts, upd: Update)
    requires AccurateState(m, upd) && Ensure(upd) in {"present", "unmounted", "mounted"}
    requires upd.actual.attrs != map[] ==> upd.actual.Get("ensure") == Str(StateOf(upd))
    ensures upd.At("ensure") == Str(Reached(Ensure(upd), Count(m.mtab, upd.Name()))) <==>
              EnsureRests(upd.should, Count(m.mtab, upd.Name()))
  {
    hide Count;
  }

  /** A field is reported as it is shown if it is a text, and not left to a default. */
  lemma FieldToldIff(upd: Update, ens: string, attr: string)
    requires attr in PROPERTIES && upd.At("device").IsSet() && upd.At("fstype").IsSet()
    ensures upd.At(attr) == Shown(upd, ens).Get(attr) <==> upd.At(attr).Str?
  {
    assert attr == "device" || attr == "fstype" || attr == "options" || attr == "dump" || attr == "pass";
  }

  lemma {:induction false} FieldsGiven(m: Mounts, upds: seq<Update>, envs: nat -> set<Step>, u: Update)
    requires u in upds && SetEach(m, upds, envs).Done? && Ensure(u) != "absent"
    ensures u.At("device").IsSet() && u.At("fstype").IsSet()
    decreases |upds|
  {
    hide SetOne, Ensure, Update.At;
    SetEachLast(m, upds, envs);
    var rest, last := upds[..|upds| - 1], upds[|upds| - 1];
    assert upds == rest + [last];
    if u in rest {
      FieldsGiven(m, rest, envs, u);
    } else {
      LastFieldsGiven(SetEach(m, rest, envs).m, last, envs(|upds| - 1));
    }
  }

  lemma LastFieldsGiven(m: Mounts, upd: Update, env: set<Step>)
    requires SetOne(m, upd, env).Done? && Ensure(upd) != "absent"
    ensures upd.At("device").IsSet() && upd.At("fstype").IsSet()
  {
    hide DoMount, DoUnmount, AddDiffs, Matches, Written, EraseMatching, MountChildren;
  }

  /** Not to be absent, in the terms of the report and of the provider. */
  lemma NotAbsent(m: Mounts, upd: Update)
    requires AccurateState(m, upd) && Ensure(upd) != "absent"
    requires upd.actual.attrs != map[] ==> upd.actual.Get("ensure") == Str(StateOf(upd))
    ensures !WantsAbsent(upd)
  {
    hide Status;
  }

  /** One attribute of a report, and of the resource that is shown. */
  predicate Tells(told: Resource, shown: Resource, attr: string) {
    told.Get(attr) == shown.Get(attr)
  }

  /**
   * After a successful run with a new log, and once the saved fstab has been loaded again, what
   * was reported about an update that is not for "absent" is what `get` shows: the state exactly
   * if it was reached and is one that `get` shows, a field exactly if it was given as a text
   * before or now, and the target exactly if the name was there or its only value was asked for.
   */
  lemma ReportToldIff(m: Mounts, upds: seq<Update>, envs: nat -> set<Step>, u: Update) returns (t: Table)
    requires Good(m) && GoodTable(m.fstab) && GoodTable(m.mtab) && DistinctUpdates(upds) && m.log == map[]
    requires forall v :: v in upds ==> FromGet(m, v)
    requires SetAll(m, upds, envs).Done? && u in upds && Ensure(u) != "absent"
    ensures var m', was := SetAll(m, upds, envs).m, Count(m.mtab, u.Name());
            && FitsTable(m'.saved) && ParseTable(PrintTable(m'.saved)) == Some(t)
            && GoodTable(t) && GoodTable(m'.mtab)
            && |Answer(t, m'.mtab, u.Name())| == 1
            && var told, shown := Report(u, Entries(m'.log, u.Name())), Answer(t, m'.mtab, u.Name())[0];
               && (Tells(told, shown, "ensure") <==> EnsureRests(u.should, was))
               && (forall a :: a in PROPERTIES ==> (Tells(told, shown, a) <==> u.At(a).Str?))
               && (Tells(told, shown, "target") <==>
                     u.actual.attrs != map[] || u.should.Get("target") == Str("/etc/fstab"))
  {
    var m', was := SetAll(m, upds, envs).m, Count(m.mtab, u.Name());
    LegalEnsure(m, upds, envs, u);
    FieldsGiven(m, upds, envs, u);
    EachRecords(m, upds, envs);
    hide SetAll, Good, GoodTable, FromGet, DistinctUpdates, Count, LogOf, Report, FitsTable, Answer,
         AccurateState, Ensure, Update.At, PROPERTIES, EnsureRests, Reached;
    forall v | v in upds ensures AccurateState(m, v) {
      ActualFromGet(m, v);
    }
    t := RunReloads(m, upds, envs);
    assert Answer(t, m'.mtab, u.Name()) == [Shown(u, Reached(Ensure(u), was))];
    OneUpdateToldIff(m, u, Reached(Ensure(u), was));
  }

  /** The same for one update, with the log it has left. */
  lemma OneUpdateToldIff(m: Mounts, u: Update, ens: string)
    requires GoodTable(m.fstab) && GoodTable(m.mtab) && FromGet(m, u)
    requires Ensure(u) in {"present", "unmounted", "mounted"} && ens == Reached(Ensure(u), Count(m.mtab, u.Name()))
    requires u.At("device").IsSet() && u.At("fstype").IsSet()
    ensures var told, shown := Report(u, LogOf(u)), Shown(u, ens);
            && (Tells(told, shown, "ensure") <==> EnsureRests(u.should, Count(m.mtab, u.Name())))
            && (forall a :: a in PROPERTIES ==> (Tells(told, shown, a) <==> u.At(a).Str?))
            && (Tells(told, shown, "target") <==>
                  u.actual.attrs != map[] || u.should.Get("target") == Str("/etc/fstab"))
  {
    ActualFromGet(m, u);
    var told, shown := Report(u, LogOf(u)), Shown(u, ens);
    ShownEnds(u, ens);
    hide GoodTable, FromGet, LogOf, Report, Shown, Count, PROPERTIES, Status;
    hide DiffLog;
    LogIsDiff(u);
    NotAbsent(m, u);
    ComparedIsReported(u, PROPERTIES, "ensure");
    EnsureToldIff(m, u);
    OtherIsReported(u, PROPERTIES, "target");
    forall a | a in PROPERTIES ensures Tells(told, shown, a) <==> u.At(a).Str? {
      ComparedIsReported(u, PROPERTIES, a);
      FieldToldIff(u, ens, a);
    }
  }

  lemma ShownEnds(upd: Update, ens: string)
    ensures Shown(upd, ens).Get("ensure") == Str(ens) && Shown(upd, ens).Get("target") == Str("/etc/fstab")
  {
  }

  /** An update for "absent" is reported as such exactly if that was said, not if it is only so. */
  lemma AbsenceToldIff(m: Mounts, upd: Update)
    requires GoodTable(m.fstab) && GoodTable(m.mtab) && FromGet(m, upd) && Ensure(upd) == "absent"
    ensures Report(upd, LogOf(upd)) == AbsentResource(upd.Name()) <==> upd.should.Get("ensure") == Str("absent")
  {
    ActualFromGet(m, upd);
    hide GoodTable, FromGet, Status, PROPERTIES;
    if upd.should.Get("ensure") != Str("absent") {
      assert upd.actual.attrs == map[];
      OverrideAt(upd.should.attrs + upd.actual.attrs, LogOf(upd), "ensure");
      hide Override;
      assert Report(upd, LogOf(upd)).Get("ensure") != Str("absent");
    }
  }

  /* ---- a new mount ---- */

  function NewMount(name: string): Update {
    Update(Unknown(name), Resource(name, map[
      "ensure" := Str("mounted"), "device" := Str("dev"), "fstype" := Str("ext4")]))
  }

  const NOTHING := Mounts([], 0, [], [], map[], [])

  /**
   * For example, a new mount for which no options are given is mounted with the default ones,
   * which `get` shows and the report does not.
   */
  lemma NewMountMisreported(name: string, envs: nat -> set<Step>) returns (t: Table)
    requires IsFile(name) && forall k: nat :: envs(k) == {}
    ensures var r := SetAll(NOTHING, [NewMount(name)], envs);
            && r.Done? && FitsTable(r.m.saved) && ParseTable(PrintTable(r.m.saved)) == Some(t)
            && GoodTable(t) && GoodTable(r.m.mtab) && |Answer(t, r.m.mtab, name)| == 1
            && var told, shown := Report(NewMount(name), Entries(r.m.log, name)), Answer(t, r.m.mtab, name)[0];
               && Tells(told, shown, "ensure") && Tells(told, shown, "device") && Tells(told, shown, "fstype")
               && !Tells(told, shown, "options") && !Tells(told, shown, "target")
  {
    var u := NewMount(name);
    NewMountUpdate(name);
    NewMountFromGet(name);
    NewMountFeasible(name);
    hide SetAll, NewMount, FromGet, Report, Answer, Progress.Feasible, FitsTable, AccurateState, NOTHING,
         Good, GoodTable;
    ActualFromGet(NOTHING, u);
    assert "device" in PROPERTIES && "fstype" in PROPERTIES && "options" in PROPERTIES;
    Progress.RunSucceedsIff(NOTHING, [u], envs);
    t := ReportToldIff(NOTHING, [u], envs, u);
  }

  lemma NewMountUpdate(name: string)
    ensures var u := NewMount(name);
            && u.Name() == name && u.should.name == name && u.actual.attrs == map[] && Ensure(u) == "mounted"
            && u.At("device") == Str("dev") && u.At("fstype") == Str("ext4") && u.At("options") == NoValue
            && u.At("dump") == NoValue && u.At("pass") == NoValue
            && EnsureRests(u.should, 0) && u.should.Get("target") == NoValue
    ensures DistinctUpdates([NewMount(name)])
  {
  }

  lemma NewMountFromGet(name: string)
    ensures Good(NOTHING) && GoodTable([]) && FitsTable([]) && NOTHING.log == map[]
    ensures NOTHING.fstab == [] && NOTHING.mtab == [] && Count([], name) == 0
    ensures FromGet(NOTHING, NewMount(name))
  {
    NewMountUpdate(name);
    OneAnswer([], [], name);
    PairsAnswer([], [], NewMount(name), Answer([], [], name));
    hide NewMount, Answer, Again;
    assert NewMount(name) == Update(Unknown(name), NewMount(name).should) by { NewMountActual(name); }
  }

  lemma NewMountActual(name: string)
    ensures NewMount(name).actual == Unknown(name)
  {
  }

  lemma NewMountFeasible(name: string)
    requires IsFile(name)
    ensures Progress.Feasible(NOTHING, NewMount(name))
  {
    NewMountUpdate(name);
    var r := Mount.MountRecord(NewMount(name));
    hide NewMount;
    assert r == Record("dev", name, "ext4", ["defaults", "0", "0"], None);
    assert IsSpec("dev") && IsFile("ext4") && IsFile("defaults") && IsNumber("0");
    assert WellFormed(r);
    assert !NewMount(name).Present() by { NewMountActual(name); }
  }
}
