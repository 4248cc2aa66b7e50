/** The mount provider in plain terms: lines, states, commands and the log. */
module MountTable {
  import opened Core
  import opened Changes
  import opened Augeas
  import opened Fstab
  import opened Mount
  import opened MountGet
  import opened MountTheorems
  import opened MountReload

  /* ---- lines ---- */

  /** The character classes of the lens. */
  lemma FieldClasses(s: string)
    ensures IsFile(s) <==> s != "" && forall c :: c in s ==> c !in {'#', ' ', '\t', '\n'}
    ensures IsSpec(s) <==> s != "" && s[0] !in {',', '#'} && forall c :: c in s ==> c !in {' ', '\t', '\n'}
    ensures IsNumber(s) <==> s != "" && forall c :: c in s ==> '0' <= c <= '9'
  {
    assert forall i :: 0 <= i < |s| ==> s[i] in s;
    if s != "" {
      assert s[0] in s;
    }
  }

  /** Which field of a record has to be of which class, and how many there may be. */
  lemma RecordClasses(r: Record)
    ensures WellFormed(r) <==>
              && IsSpec(r.spec) && IsFile(r.file) && IsFile(r.vfstype)
              && (r.extra == []
                  || (|r.extra| == 1 && IsFile(r.extra[0]))
                  || (|r.extra| == 2 && IsFile(r.extra[0]) && IsNumber(r.extra[1]))
                  || (|r.extra| == 3 && IsFile(r.extra[0]) && IsNumber(r.extra[1]) && IsNumber(r.extra[2])))
              && (r.remark.Some? ==>
                    && r.remark.value != "" && '\n' !in r.remark.value
                    && r.remark.value[0] !in {' ', '\t'} && r.remark.value[|r.remark.value| - 1] !in {' ', '\t'})
  {
    hide IsSpec, IsFile, IsNumber;
  }

  /** What is shown of a record: its fields, and for those that it leaves out the defaults. */
  lemma RecordShown(r: Record, tag: Label, ens: string)
    requires |r.extra| <= 3 && tag != Comment
    ensures GoodLine(Entry(tag, "", Children(r)))
    ensures Make(Entry(tag, "", Children(r)), ens) == Resource(r.file, map[
      "device" := Str(r.spec), "fstype" := Str(r.vfstype),
      "options" := Str(if |r.extra| >= 1 then r.extra[0] else "defaults"),
      "dump" := Str(if |r.extra| >= 2 then r.extra[1] else "0"),
      "pass" := Str(if |r.extra| >= 3 then r.extra[2] else "0"),
      "ensure" := Str(ens), "target" := Str("/etc/fstab")])
  {
    RecordValues(r);
    hide Children, Values;
  }

  lemma RecordValues(r: Record)
    requires |r.extra| <= 3
    ensures var cs, n := Children(r), |r.extra|;
            && Values(cs, Spec) == [r.spec] && Values(cs, MountPoint) == [r.file] && Values(cs, VfsType) == [r.vfstype]
            && Values(cs, Options) == (if n >= 1 then [r.extra[0]] else [])
            && Values(cs, Dump) == (if n >= 2 then [r.extra[1]] else [])
            && Values(cs, PassNo) == (if n >= 3 then [r.extra[2]] else [])
  {
    HeadValues(r, Spec);
    HeadValues(r, MountPoint);
    HeadValues(r, VfsType);
    HeadValues(r, Options);
    HeadValues(r, Dump);
    HeadValues(r, PassNo);
    ExtraValues(r.extra);
    hide Values, Children;
  }

  lemma HeadValues(r: Record, field: Field)
    requires |r.extra| <= 3 && field != Remark
    ensures Values(Children(r), field) ==
              (if field == Spec then [r.spec]
               else if field == MountPoint then [r.file]
               else if field == VfsType then [r.vfstype]
               else []) + Values(ExtraChildren(r.extra), field)
  {
    hide Values, Children, ExtraChildren, RemarkChildren;
    var a, b, c := Child(Spec, r.spec), Child(MountPoint, r.file), Child(VfsType, r.vfstype);
    var extra, remark := ExtraChildren(r.extra), RemarkChildren(r.remark);
    ChildrenParts(r);
    NoRemarkValue(r.remark, field);
    ValuesOne(a, field);
    ValuesOne(b, field);
    ValuesOne(c, field);
    ValuesAppend(extra, remark, field);
    ValuesAppend([c], extra + remark, field);
    ValuesAppend([b], [c] + (extra + remark), field);
    ValuesAppend([a], [b] + ([c] + (extra + remark)), field);
  }

  lemma ChildrenParts(r: Record)
    requires |r.extra| <= 3
    ensures Children(r) == [Child(Spec, r.spec)] + ([Child(MountPoint, r.file)] + ([Child(VfsType, r.vfstype)]
                             + (ExtraChildren(r.extra) + RemarkChildren(r.remark))))
  {
    hide ExtraChildren, RemarkChildren;
  }

  lemma NoRemarkValue(remark: Option<string>, field: Field)
    requires field != Remark
    ensures Values(RemarkChildren(remark), field) == []
  {
    NoneOfField(RemarkChildren(remark), field);
    hide Values;
  }

  lemma ExtraValues(extra: seq<string>)
    requires |extra| <= 3
    ensures var cs, n := ExtraChildren(extra), |extra|;
            && Values(cs, Spec) == [] && Values(cs, MountPoint) == [] && Values(cs, VfsType) == []
            && Values(cs, Options) == (if n >= 1 then [extra[0]] else [])
            && Values(cs, Dump) == (if n >= 2 then [extra[1]] else [])
            && Values(cs, PassNo) == (if n >= 3 then [extra[2]] else [])
  {
    var cs, n := ExtraChildren(extra), |extra|;
    assert |cs| == n && forall i :: 0 <= i < n ==> cs[i] == Child(ExtraField(i), extra[i]);
    hide Values, ExtraChildren;
    NoneOfField(cs, Spec);
    NoneOfField(cs, MountPoint);
    NoneOfField(cs, VfsType);
    if n >= 1 { OneValue(cs, 0); } else { NoneOfField(cs, Options); }
    if n >= 2 { OneValue(cs, 1); } else { NoneOfField(cs, Dump); }
    if n >= 3 { OneValue(cs, 2); } else { NoneOfField(cs, PassNo); }
  }

  /* ---- states ---- */

  lemma EnsureIsSaid(upd: Update)
    ensures StateOf(upd) == Said(upd.actual, "absent") && Ensure(upd) == Said(upd.should, Said(upd.actual, "absent"))
  {
  }

  /** Any other text is refused. */
  lemma OtherEnsureFails(m: Mounts, upd: Update, env: set<Step>)
    requires upd.should.Get("ensure").Str?
    requires upd.should.Get("ensure").s !in {"present", "absent", "unmounted", "mounted"}
    ensures SetOne(m, upd, env).Failed?
  {
    EnsureIsSaid(upd);
    hide UpdateFstab, DoMount, DoUnmount, RemoveFromFstab, Ensure;
  }

  /** The one answer of `get` for a name, with this state. */
  ghost predicate Lists(t: Table, mtab: Table, name: string, state: string)
    requires GoodTable(t) && GoodTable(mtab)
  {
    |Answer(t, mtab, name)| == 1 && Answer(t, mtab, name)[0].Get("ensure") == Str(state)
  }

  /** What is listed of a name that was on `was` lines of mtab, for every desired `ensure`. */
  ghost predicate Row(t: Table, mtab: Table, u: Update, was: nat, there: bool)
    requires GoodTable(t) && GoodTable(mtab)
  {
    var name, e := u.Name(), u.should.Get("ensure");
    && (e == Str("mounted") ==> Lists(t, mtab, name, "mounted"))
    && (e == Str("unmounted") && was <= 1 ==> Lists(t, mtab, name, "unmounted"))
    && (e == Str("absent") && was <= 1 ==> Answer(t, mtab, name) == [])
    && (e == Str("present") ==> Lists(t, mtab, name, if was > 0 then "mounted" else "unmounted"))
    && (!e.Str? ==>
          if !there then was == 0 && Answer(t, mtab, name) == []
          else Lists(t, mtab, name, if was > 0 then "mounted" else "unmounted"))
  }

  lemma RowOfAnswer(t: Table, mtab: Table, u: Update, was: nat, there: bool)
    requires GoodTable(t) && GoodTable(mtab)
    requires Ensure(u) != "absent" ==> Lists(t, mtab, u.Name(), Reached(Ensure(u), was))
    requires Ensure(u) == "absent" && was <= 1 ==> Answer(t, mtab, u.Name()) == []
    requires !u.should.Get("ensure").Str? ==>
               if !there then was == 0 && Ensure(u) == "absent"
               else Ensure(u) == if was > 0 then "mounted" else "unmounted"
    ensures Row(t, mtab, u, was, there)
  {
    EnsureIsSaid(u);
    hide GoodTable, Lists, Answer, Ensure, StateOf;
  }

  /**
   * What `get` lists of a name after a run: "present" keeps the mount, and a state that is not
   * given is kept.
   */
  lemma StateTable(m: Mounts, upds: seq<Update>, envs: nat -> set<Step>, u: Update) returns (t: Table)
    requires Good(m) && DistinctUpdates(upds) && u in upds
    requires forall v :: v in upds ==> AccurateState(m, v)
    requires SetAll(m, upds, envs).Done?
    ensures var m' := SetAll(m, upds, envs).m;
            && FitsTable(m'.saved) && ParseTable(PrintTable(m'.saved)) == Some(t)
            && GoodTable(t) && GoodTable(m'.mtab)
            && Row(t, m'.mtab, u, Count(m.mtab, u.Name()), Count(m.fstab, u.Name()) > 0)
  {
    UnsaidListed(m, upds, envs, u);
    hide SetAll, Good, AccurateState, DistinctUpdates, Answer, Count, Status, FitsTable, GoodTable, Shown, Ensure,
         StateOf, LeftLine, Lists, Reached, Row;
    t := RunReloads(m, upds, envs);
    var mtab, was := SetAll(m, upds, envs).m.mtab, Count(m.mtab, u.Name());
    if Ensure(u) != "absent" {
      ShownListed(t, mtab, u, Reached(Ensure(u), was));
    }
    RowOfAnswer(t, mtab, u, was, Count(m.fstab, u.Name()) > 0);
  }

  lemma ShownListed(t: Table, mtab: Table, upd: Update, ens: string)
    requires GoodTable(t) && GoodTable(mtab) && Answer(t, mtab, upd.Name()) == [Shown(upd, ens)]
    ensures Lists(t, mtab, upd.Name(), ens)
  {
    hide GoodTable, Answer;
  }

  /** A run can not succeed for a name that is only mounted, unless a state is asked for. */
  lemma {:induction false} UnsaidListed(m: Mounts, upds: seq<Update>, envs: nat -> set<Step>, u: Update)
    requires Good(m) && DistinctUpdates(upds) && u in upds && SetEach(m, upds, envs).Done?
    requires forall v :: v in upds ==> AccurateState(m, v)
    ensures !u.should.Get("ensure").Str? ==>
              if Count(m.fstab, u.Name()) == 0 then Count(m.mtab, u.Name()) == 0 && Ensure(u) == "absent"
              else Ensure(u) == if Count(m.mtab, u.Name()) > 0 then "mounted" else "unmounted"
    decreases |upds|
  {
    hide SetOne, Good, DistinctUpdates, Ensure, Status, Count, AccurateState, Update.Name, SetEach;
    SetEachLast(m, upds, envs);
    var rest, last := upds[..|upds| - 1], upds[|upds| - 1];
    RunSplit(upds);
    if u in rest {
      UnsaidListed(m, rest, envs, u);
    } else {
      SetEachReaches(m, rest, envs, set v | v in rest :: v.Name());
      UnsaidLast(m, SetEach(m, rest, envs).m, last, envs(|upds| - 1));
    }
  }

  lemma UnsaidLast(m: Mounts, m1: Mounts, upd: Update, env: set<Step>)
    requires AccurateState(m, upd) && Good(m1) && SetOne(m1, upd, env).Done?
    requires Count(m1.fstab, upd.Name()) == Count(m.fstab, upd.Name())
    requires Count(m1.mtab, upd.Name()) == Count(m.mtab, upd.Name())
    ensures !upd.should.Get("ensure").Str? ==>
              if Count(m.fstab, upd.Name()) == 0 then Count(m.mtab, upd.Name()) == 0 && Ensure(upd) == "absent"
              else Ensure(upd) == if Count(m.mtab, upd.Name()) > 0 then "mounted" else "unmounted"
  {
    SameCounts(m, m1, upd.Name());
    EnsureIsSaid(upd);
    hide SetOne, Good, Count;
    SetOneEffect(m1, upd, env);
  }

  /* ---- commands and log ---- */

  /**
   * The commands of a successful update, each with the fstab that was saved when it was run, and
   * what is saved in the end: "mounted" saves the new lines first, "unmounted" and "absent" save
   * what was there before, and "present" saves nothing yet.
   */
  lemma CommandsRun(m: Mounts, upd: Update, env: set<Step>)
    requires SetOne(m, upd, env).Done?
    ensures var m', name, state := SetOne(m, upd, env).m, upd.Name(), Said(upd.actual, "absent");
            var ensure := Said(upd.should, state);
            && m'.trace == m.trace + (
                 if ensure == "mounted" && state != "mounted" then [RanMount(name, m'.fstab)]
                 else if ensure in {"unmounted", "absent"} && state !in {"unmounted", "absent"}
                 then [RanUmount(name, m.fstab)]
                 else [])
            && m'.saved == if ensure == "mounted" then m'.fstab
                           else if ensure in {"unmounted", "absent"} then m.fstab
                           else m.saved
  {
    EnsureIsSaid(upd);
    var m0, name, state := LogEnsure(m, upd), upd.Name(), StateOf(upd);
    UpdateFstabCounts(m0, upd);
    UpdateFstabCounts(DoUnmount(m0, name, state, env).m, upd);
    RemoveKeepsRest(DoUnmount(m0, name, state, env).m, upd);
    MountTrace(UpdateFstab(m0, upd).m, name, state, env);
    UnmountTrace(m0, name, state, env);
    hide UpdateFstab, DoMount, DoUnmount, RemoveFromFstab, Ensure, StateOf, Count;
  }

  lemma RemoveKeepsRest(m: Mounts, upd: Update)
    ensures var m' := RemoveFromFstab(m, upd).m; m'.trace == m.trace && m'.saved == m.saved
  {
    hide RmMatching, RmEntry;
  }

  lemma MountTrace(m: Mounts, name: string, state: string, env: set<Step>)
    ensures var r := DoMount(m, name, state, env);
            r.Done? ==>
              && r.m.trace == m.trace + (if state != "mounted" then [RanMount(name, m.fstab)] else [])
              && r.m.saved == m.fstab && r.m.fstab == m.fstab
  {
    hide FitsTable, FirstIndex;
  }

  lemma UnmountTrace(m: Mounts, name: string, state: string, env: set<Step>)
    ensures var r := DoUnmount(m, name, state, env);
            r.Done? ==>
              && r.m.trace == m.trace + (if state !in {"unmounted", "absent"} then [RanUmount(name, m.fstab)] else [])
              && r.m.saved == m.fstab
  {
    hide FitsTable, LastIndex;
  }

  /** The log of a successful update, entry by entry. */
  lemma LogTable(m: Mounts, upd: Update, env: set<Step>)
    requires SetOne(m, upd, env).Done? && Entries(m.log, upd.Name()) == []
    ensures Entries(SetOne(m, upd, env).m.log, upd.Name()) ==
              if Said(upd.should, Said(upd.actual, "absent")) == "absent" then One(upd, "ensure")
              else One(upd, "ensure") + One(upd, "device") + One(upd, "fstype") + One(upd, "options")
                   + One(upd, "dump") + One(upd, "pass")
  {
    LogIsWritten(m, upd, env);
    EnsureIsSaid(upd);
    FieldsLogged([] + One(upd, "ensure"), upd);
    AddDiffIsOne([], "ensure", upd);
    hide SetOne, Ensure, StateOf, One, AddDiff, AddDiffs, PROPERTIES;
    assert [] + One(upd, "ensure") == One(upd, "ensure");
  }

  lemma FieldsLogged(chgs: seq<Change>, upd: Update)
    ensures AddDiffs(chgs, PROPERTIES, upd) ==
              chgs + One(upd, "device") + One(upd, "fstype") + One(upd, "options") + One(upd, "dump") + One(upd, "pass")
  {
    var a := chgs + One(upd, "device");
    var b := a + One(upd, "fstype");
    var c := b + One(upd, "options");
    var d := c + One(upd, "dump");
    AddDiffsCons(chgs, "device", ["fstype", "options", "dump", "pass"], upd);
    AddDiffsCons(a, "fstype", ["options", "dump", "pass"], upd);
    AddDiffsCons(b, "options", ["dump", "pass"], upd);
    AddDiffsCons(c, "dump", ["pass"], upd);
    AddDiffsCons(d, "pass", [], upd);
    AddNoDiffs(d + One(upd, "pass"), upd);
    hide AddDiffs, One;
    assert PROPERTIES == ["device"] + ["fstype", "options", "dump", "pass"];
    assert ["fstype", "options", "dump", "pass"] == ["fstype"] + ["options", "dump", "pass"];
    assert ["options", "dump", "pass"] == ["options"] + ["dump", "pass"] && ["dump", "pass"] == ["dump"] + ["pass"];
    assert ["pass"] == ["pass"] + [];
  }
}
