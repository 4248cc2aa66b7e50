/** What a fresh `get` shows after a run of the mount provider, and what a second run records. */
module MountReload {
  import opened Core
  import opened Text
  import opened Changes
  import opened Augeas
  import opened Fstab
  import opened Mount
  import opened MountGet
  import opened MountTheorems
  import opened MountProgress
  import opened Provider

  /* ---- the line that an update writes ---- */

  /** A line with exactly these children. */
  ghost predicate HasLine(t: Table, cs: seq<Child>) {
    exists e :: e in t && e.tag != Comment && e.children == cs
  }

  lemma WriteHasLine(m: Mounts, upd: Update)
    requires Ok(m.fstab, m.count) && UpdateFstab(m, upd).Done?
    ensures HasLine(UpdateFstab(m, upd).m.fstab, MountChildren(upd))
  {
    var t, name := m.fstab, upd.Name();
    assert MountChildren(upd) != [];
    hide GoodLine, LineOf, MountChildren, AddDiffs, Matches, HasValue;
    if upd.Present() {
      var i := OneMatch(t, MountPoint, name);
      GoodLineOf(t[i], name);
      IndexUnique(t, i);
      var e := t[i].(children := MountChildren(upd));
      assert t[i := e][i] == e;
    } else {
      LabelsAfterAppend(t, m.count, MountChildren(upd));
      var e := Entry(Fresh(m.count + 1), "", MountChildren(upd));
      assert (t + [e])[|t|] == e;
    }
  }

  /** A successful update leaves its line in the table, unless it is to be absent. */
  lemma SetOneWrites(m: Mounts, upd: Update, env: set<Step>)
    requires Good(m) && SetOne(m, upd, env).Done? && Ensure(upd) != "absent"
    ensures HasLine(SetOne(m, upd, env).m.fstab, MountChildren(upd))
  {
    var m0, name, state := LogEnsure(m, upd), upd.Name(), StateOf(upd);
    hide Ok, GoodTable, UpdateFstab, HasLine, FitsTable, FirstIndex, LastIndex, HasValue, MountChildren;
    if Ensure(upd) == "present" || Ensure(upd) == "mounted" {
      WriteHasLine(m0, upd);
    } else {
      WriteHasLine(DoUnmount(m0, name, state, env).m, upd);
    }
  }

  /** The line of an update stays when another name is updated. */
  lemma LineStays(t: Table, t': Table, upd: Update, name: string)
    requires SameOthers(t, t', name) && name != upd.Name() && GoodTable(t)
    requires HasLine(t, MountChildren(upd))
    ensures HasLine(t', MountChildren(upd))
  {
    hide GoodTable, GoodLine, HasValue, MountChildren;
    var e :| e in t && e.tag != Comment && e.children == MountChildren(upd);
    WrittenHasName(upd, e.tag, e.text);
    assert e == Entry(e.tag, e.text, MountChildren(upd));
    GoodIn(t, e);
    OneName(e, upd.Name(), name);
  }

  lemma GoodIn(t: Table, e: Entry)
    requires GoodTable(t) && e in t
    ensures GoodLine(e)
  {
  }

  /** What an update has left: one line with its name, and that is the one it has written. */
  ghost predicate LeftLine(t: Table, upd: Update) {
    Count(t, upd.Name()) == 1 && HasLine(t, MountChildren(upd))
  }

  lemma LastLeavesLine(m1: Mounts, m: Mounts, upd: Update, env: set<Step>)
    requires Good(m1) && SetOne(m1, upd, env).Done? && Ensure(upd) != "absent" && AccurateState(m, upd)
    requires Count(m1.fstab, upd.Name()) == Count(m.fstab, upd.Name())
    requires Count(m1.mtab, upd.Name()) == Count(m.mtab, upd.Name())
    ensures LeftLine(SetOne(m1, upd, env).m.fstab, upd)
  {
    SameCounts(m, m1, upd.Name());
    hide SetOne, HasLine, Count, Status, MountChildren, Ensure, Good;
    SetOneEffect(m1, upd, env);
    SetOneWrites(m1, upd, env);
  }

  lemma OthersKeepLine(m1: Mounts, m: Mounts, u: Update, last: Update, env: set<Step>)
    requires Good(m1) && SetOne(m1, last, env).Done? && AccurateState(m, last) && u.Name() != last.Name()
    requires Count(m1.fstab, last.Name()) == Count(m.fstab, last.Name())
    requires Count(m1.mtab, last.Name()) == Count(m.mtab, last.Name())
    requires LeftLine(m1.fstab, u)
    ensures LeftLine(SetOne(m1, last, env).m.fstab, u)
  {
    SameCounts(m, m1, last.Name());
    hide SetOne, HasLine, Count, Status, MountChildren, Ensure, SameOthers;
    SetOneEffect(m1, last, env);
    SetOneOthers(m1, last, env);
    LineStays(m1.fstab, SetOne(m1, last, env).m.fstab, u, last.Name());
  }

  /** After the updates of a run, each that is not to be absent has left its line. */
  lemma {:induction false} EachLeavesLine(m: Mounts, upds: seq<Update>, envs: nat -> set<Step>)
    requires Good(m) && DistinctUpdates(upds) && SetEach(m, upds, envs).Done?
    requires forall u :: u in upds ==> AccurateState(m, u)
    ensures forall u :: u in upds && Ensure(u) != "absent" ==> LeftLine(SetEach(m, upds, envs).m.fstab, u)
    decreases |upds|
  {
    if upds != [] {
      hide SetOne, LeftLine, AccurateState, DistinctUpdates, Count, Status, Ensure, Good, SetEach, Update.Name;
      var rest, last := upds[..|upds| - 1], upds[|upds| - 1];
      SetEachLast(m, upds, envs);
      RunSplit(upds);
      EachLeavesLine(m, rest, envs);
      SetEachReaches(m, rest, envs, set u | u in rest :: u.Name());
      var m1 := SetEach(m, rest, envs).m;
      forall u | u in upds && Ensure(u) != "absent" ensures LeftLine(SetEach(m, upds, envs).m.fstab, u) {
        if u in rest {
          OthersKeepLine(m1, m, u, last, envs(|upds| - 1));
        } else {
          LastLeavesLine(m1, m, last, envs(|upds| - 1));
        }
      }
    }
  }

  /* ---- the saved table, loaded again ---- */

  lemma {:induction false} RenumberSame(t: Table, n: nat)
    ensures |Renumber(t, n)| == |t|
    ensures forall i :: 0 <= i < |t| ==>
              && Renumber(t, n)[i].children == t[i].children
              && (Renumber(t, n)[i].tag == Comment <==> t[i].tag == Comment)
  {
    if t != [] {
      RenumberSame(t[1..], if t[0].tag == Comment then n else n + 1);
    }
  }

  /** Two tables with the same children, line by line. */
  predicate SameChildren(t: Table, t': Table) {
    && |t| == |t'|
    && forall i :: 0 <= i < |t| ==>
         t'[i].children == t[i].children && (t'[i].tag == Comment <==> t[i].tag == Comment)
  }

  lemma {:induction false} SameCountOf(t: Table, t': Table, name: string)
    requires SameChildren(t, t')
    ensures Count(t', name) == Count(t, name)
  {
    if t != [] {
      SameCountOf(t[1..], t'[1..], name);
    }
    hide Values;
  }

  lemma {:induction false} SameKept(t: Table, t': Table, names: set<string>)
    requires SameChildren(t, t')
    ensures Kept(t', names) == Kept(t, names)
  {
    if t != [] {
      SameKept(t[1..], t'[1..], names);
    }
    hide Values;
  }

  lemma SameGood(t: Table, t': Table)
    requires SameChildren(t, t') && GoodTable(t)
    ensures GoodTable(t')
  {
    hide Values;
    forall i | 0 <= i < |t'| ensures GoodLine(t'[i]) {
      assert GoodLine(t[i]);
    }
  }

  lemma SameLine(t: Table, t': Table, cs: seq<Child>)
    requires SameChildren(t, t') && HasLine(t, cs)
    ensures HasLine(t', cs)
  {
    var e :| e in t && e.tag != Comment && e.children == cs;
    var i :| 0 <= i < |t| && t[i] == e;
    assert t'[i] in t';
  }

  /* ---- what get shows of a name ---- */

  /** The overlay that a written line shows, with the state that the two tables give it. */
  function Shown(upd: Update, ens: string): Resource {
    Resource(upd.Name(), map[
      "device" := Str(upd.At("device").ToString()), "fstype" := Str(upd.At("fstype").ToString()),
      "options" := Str(TextOr(upd.At("options"), "defaults")), "dump" := Str(TextOr(upd.At("dump"), "0")),
      "pass" := Str(TextOr(upd.At("pass"), "0")), "ensure" := Str(ens), "target" := Str("/etc/fstab")])
  }

  lemma MakeOfChildren(e: Entry, upd: Update, ens: string)
    requires e.tag != Comment && e.children == MountChildren(upd)
    ensures GoodLine(e) && Make(e, ens) == Shown(upd, ens)
  {
    WrittenReadsBack(upd, e.tag, ens);
    hide Values, MountChildren;
  }

  /** With one line of a name, its position is where the name is found first. */
  lemma OnlyLine(t: Table, name: string, e: Entry)
    requires Count(t, name) == 1 && e in t && HasValue(e, MountPoint, name)
    ensures FirstIndex(t, name) < |t| && t[FirstIndex(t, name)] == e
  {
    FirstIndexFound(t, name);
    var i := OneMatch(t, MountPoint, name);
    NoMatch(t[..i], MountPoint, name);
    NoMatch(t[i + 1..], MountPoint, name);
    hide HasValue, FirstIndex, Count;
    var j :| 0 <= j < |t| && t[j] == e;
    OnlyIndex(t, i, j, name);
    OnlyIndex(t, i, FirstIndex(t, name), name);
  }

  lemma OnlyIndex(t: Table, i: nat, j: nat, name: string)
    requires i < |t| && j < |t| && HasValue(t[j], MountPoint, name)
    requires forall e :: e in t[..i] || e in t[i + 1..] ==> !HasValue(e, MountPoint, name)
    ensures i == j
  {
  }

  /** The answer of `get` for one name. */
  ghost function Answer(fstab: Table, mtab: Table, name: string): seq<Resource>
    requires GoodTable(fstab) && GoodTable(mtab)
  {
    Named(GetSpec(fstab, mtab), name)
  }

  lemma OneAnswer(fstab: Table, mtab: Table, name: string)
    requires GoodTable(fstab) && GoodTable(mtab)
    ensures |Answer(fstab, mtab, name)| == if Count(fstab, name) + Count(mtab, name) > 0 then 1 else 0
    ensures forall r :: r in Answer(fstab, mtab, name) ==> r.name == name && ComesFrom(fstab, mtab, r)
  {
    GetIsJoin(fstab, mtab);
    var rs := GetSpec(fstab, mtab);
    hide GetSpec, Count, ComesFrom, Before;
    NamedExact(rs, name);
    forall i, j | 0 <= i < j < |rs| ensures rs[i].name != rs[j].name {
      NotBeforeItself(rs[i].name);
    }
    NamedOnce(rs, name);
    var found := Named(rs, name);
    if HasName(rs, name) {
      var r :| r in rs && r.name == name;
      assert r in found;
    }
    assert found != [] ==> found[0] in found;
  }

  lemma AnswerOfLine(fstab: Table, mtab: Table, upd: Update)
    requires GoodTable(fstab) && GoodTable(mtab)
    requires Count(fstab, upd.Name()) == 1 && HasLine(fstab, MountChildren(upd))
    ensures Answer(fstab, mtab, upd.Name()) == [Shown(upd, Status(fstab, mtab, upd.Name()))]
  {
    hide Answer, GoodTable, Count, Status, MountChildren, HasValue, FirstIndex, Shown, Make, GoodLine;
    var name := upd.Name();
    OneAnswer(fstab, mtab, name);
    var e :| e in fstab && e.tag != Comment && e.children == MountChildren(upd);
    WrittenHasName(upd, e.tag, e.text);
    assert e == Entry(e.tag, e.text, MountChildren(upd));
    OnlyLine(fstab, name, e);
    MakeOfChildren(e, upd, Status(fstab, mtab, name));
    var found := Answer(fstab, mtab, name);
    assert found[0] in found;
    assert found == [found[0]];
  }

  /* ---- names that a run does not mention ---- */

  function FirstOf(lines: seq<seq<Child>>, name: string): Option<seq<Child>> {
    if lines == [] then None
    else if name in Values(lines[0], MountPoint) then Some(lines[0])
    else FirstOf(lines[1..], name)
  }

  lemma FirstIndexCons(t: Table, name: string)
    requires t != []
    ensures FirstIndex(t, name) == if HasValue(t[0], MountPoint, name) then 0 else FirstIndex(t[1..], name) + 1
  {
  }

  /** The first line of a name is the same if the lines of other names are. */
  lemma {:induction false} FirstOfKept(t: Table, names: set<string>, name: string)
    requires GoodTable(t) && name !in names
    ensures FirstOf(Kept(t, names), name) ==
              if FirstIndex(t, name) < |t| then Some(t[FirstIndex(t, name)].children) else None
  {
    if t != [] {
      FirstIndexCons(t, name);
      FirstOfKept(t[1..], names, name);
      if HasValue(t[0], MountPoint, name) {
        GoodLineOf(t[0], name);
      }
      KeptHead(t, names);
      HasValueIs(t[0], name);
      hide Values, HasValue, GoodLine, FirstIndex, Kept;
    }
  }

  lemma KeptHead(t: Table, names: set<string>)
    requires t != []
    ensures Kept(t, names) ==
              if NamedIn(t[0], names) then Kept(t[1..], names) else [t[0].children] + Kept(t[1..], names)
  {
  }

  lemma HasValueIs(e: Entry, name: string)
    ensures name in Values(e.children, MountPoint) <==> HasValue(e, MountPoint, name)
  {
  }

  /** A resource that `make` gets from a line with these children. */
  ghost predicate IsMade(cs: seq<Child>, ens: string, r: Resource) {
    GoodLine(Entry(Line(0), "", cs)) && r == Make(Entry(Line(0), "", cs), ens)
  }

  lemma MadeFromChildren(e: Entry, ens: string)
    requires GoodLine(e) && e.tag != Comment
    ensures IsMade(e.children, ens, Make(e, ens))
  {
    hide Values;
  }

  /** The children from which `get` makes the resource of a name, found without the named lines. */
  function Origin(fstab: Table, mtab: Table, names: set<string>, name: string): Option<seq<Child>> {
    FirstOf(Kept(if Count(fstab, name) > 0 then fstab else mtab, names), name)
  }

  lemma AnswerFrom(fstab: Table, mtab: Table, names: set<string>, name: string)
    requires GoodTable(fstab) && GoodTable(mtab) && name !in names
    ensures var found := Answer(fstab, mtab, name);
            if Count(fstab, name) + Count(mtab, name) == 0 then found == []
            else
              && |found| == 1 && Origin(fstab, mtab, names, name).Some?
              && IsMade(Origin(fstab, mtab, names, name).value, Status(fstab, mtab, name), found[0])
  {
    OneAnswer(fstab, mtab, name);
    hide Answer, GoodTable, Count, FirstIndex, Kept, FirstOf, Make, GoodLine, Status;
    var found := Answer(fstab, mtab, name);
    if |found| == 1 {
      assert found[0] in found;
      var t := if Count(fstab, name) > 0 then fstab else mtab;
      FirstOfKept(t, names, name);
      MadeFromChildren(t[FirstIndex(t, name)], Status(fstab, mtab, name));
    }
  }

  /** `get` shows the same of a name if both tables have the same lines of it. */
  lemma AnswerSame(fstab: Table, mtab: Table, fstab': Table, mtab': Table, names: set<string>, name: string)
    requires GoodTable(fstab) && GoodTable(mtab) && GoodTable(fstab') && GoodTable(mtab')
    requires Kept(fstab', names) == Kept(fstab, names) && Kept(mtab', names) == Kept(mtab, names)
    requires Count(fstab', name) == Count(fstab, name) && Count(mtab', name) == Count(mtab, name)
    requires name !in names
    ensures Answer(fstab', mtab', name) == Answer(fstab, mtab, name)
  {
    hide Answer, GoodTable, Count, Kept, FirstOf, Make, GoodLine;
    AnswerFrom(fstab, mtab, names, name);
    AnswerFrom(fstab', mtab', names, name);
    var found, found' := Answer(fstab, mtab, name), Answer(fstab', mtab', name);
    if |found| == 1 {
      assert found == [found[0]] && found' == [found'[0]];
    }
  }

  /* ---- the run ---- */

  /** A table that was saved, as it is loaded again. */
  lemma SavedTable(saved: Table) returns (t: Table)
    requires FitsTable(saved) && GoodTable(saved)
    ensures ParseTable(PrintTable(saved)) == Some(t) && SameChildren(saved, t) && GoodTable(t)
    ensures forall n :: Count(t, n) == Count(saved, n)
    ensures forall names :: Kept(t, names) == Kept(saved, names)
    ensures forall cs :: HasLine(saved, cs) ==> HasLine(t, cs)
  {
    ReloadOfSave(saved);
    t := Renumber(saved, 1);
    RenumberSame(saved, 1);
    SameGood(saved, t);
    hide ParseTable, PrintTable, FitsTable, Renumber, Count, Kept, HasLine, GoodTable, SameChildren;
    assert SameChildren(saved, t) by { SameRenumbered(saved); }
    forall n ensures Count(t, n) == Count(saved, n) {
      SameCountOf(saved, t, n);
    }
    forall names ensures Kept(t, names) == Kept(saved, names) {
      SameKept(saved, t, names);
    }
    forall cs | HasLine(saved, cs) ensures HasLine(t, cs) {
      SameLine(saved, t, cs);
    }
  }

  lemma SameRenumbered(t: Table)
    ensures SameChildren(t, Renumber(t, 1))
  {
    RenumberSame(t, 1);
  }

  /** The answer for an update, once the saved fstab has been loaded again. */
  lemma AnswerAfter(fstab: Table, mtab: Table, upd: Update, was: nat)
    requires GoodTable(fstab) && GoodTable(mtab)
    requires Status(fstab, mtab, upd.Name()) == Reached(Ensure(upd), was)
    requires Ensure(upd) != "absent" ==> LeftLine(fstab, upd)
    ensures Ensure(upd) != "absent" ==> Answer(fstab, mtab, upd.Name()) == [Shown(upd, Reached(Ensure(upd), was))]
    ensures Ensure(upd) == "absent" && was <= 1 ==> Answer(fstab, mtab, upd.Name()) == []
  {
    hide Answer, GoodTable, Count, HasLine, MountChildren, Shown, Ensure;
    OneAnswer(fstab, mtab, upd.Name());
    if Ensure(upd) != "absent" {
      AnswerOfLine(fstab, mtab, upd);
    }
  }

  /** Everything that is known after a successful run, about the tables that a fresh `get` reads. */
  ghost predicate Shows(t: Table, mtab: Table, m: Mounts, upds: seq<Update>, names: set<string>) {
    && GoodTable(t) && GoodTable(mtab) && GoodTable(m.fstab) && GoodTable(m.mtab)
    && (forall u :: u in upds ==> Status(t, mtab, u.Name()) == Reached(Ensure(u), Count(m.mtab, u.Name())))
    && (forall u :: u in upds && Ensure(u) != "absent" ==>
          && LeftLine(t, u)
          && Answer(t, mtab, u.Name()) == [Shown(u, Reached(Ensure(u), Count(m.mtab, u.Name())))])
    && (forall u :: u in upds && Ensure(u) == "absent" && Count(m.mtab, u.Name()) <= 1 ==>
          Answer(t, mtab, u.Name()) == [])
    && (forall n :: n !in names ==> Answer(t, mtab, n) == Answer(m.fstab, m.mtab, n))
  }

  /**
   * After a successful run over distinct names, and once the saved fstab has been loaded again,
   * `get` shows for each name that is not to be absent just the overlay, with the state that was
   * reached; nothing for one that is to be absent and was not mounted twice; and for each other
   * name the same as before.
   */
  lemma RunReloads(m: Mounts, upds: seq<Update>, envs: nat -> set<Step>) returns (t: Table)
    requires Good(m) && DistinctUpdates(upds)
    requires forall u :: u in upds ==> AccurateState(m, u)
    requires SetAll(m, upds, envs).Done?
    ensures var m' := SetAll(m, upds, envs).m;
            && FitsTable(m'.saved) && ParseTable(PrintTable(m'.saved)) == Some(t)
            && Shows(t, m'.mtab, m, upds, set u | u in upds :: u.Name())
  {
    var names := set u | u in upds :: u.Name();
    hide Good, Count, Status, Reached, Kept, FitsTable, LeftLine, Answer, Shown, Ensure, Update.Name,
         GoodTable, SetEach, AccurateState, DistinctUpdates;
    SetEachReaches(m, upds, envs, names);
    EachLeavesLine(m, upds, envs);
    var m' := SetEach(m, upds, envs).m;
    GoodTables(m);
    GoodTables(m');
    t := SavedTable(m'.fstab);
    forall u | u in upds
      ensures Status(t, m'.mtab, u.Name()) == Reached(Ensure(u), Count(m.mtab, u.Name()))
      ensures Ensure(u) != "absent" ==>
                && LeftLine(t, u)
                && Answer(t, m'.mtab, u.Name()) == [Shown(u, Reached(Ensure(u), Count(m.mtab, u.Name())))]
      ensures Ensure(u) == "absent" && Count(m.mtab, u.Name()) <= 1 ==> Answer(t, m'.mtab, u.Name()) == []
    {
      SameStatus(m'.fstab, t, m'.mtab, u.Name());
      if Ensure(u) != "absent" {
        LeftLineLoaded(m'.fstab, t, u);
      }
      AnswerAfter(t, m'.mtab, u, Count(m.mtab, u.Name()));
    }
    forall n | n !in names ensures Answer(t, m'.mtab, n) == Answer(m.fstab, m.mtab, n) {
      AnswerSame(m.fstab, m.mtab, t, m'.mtab, names, n);
    }
  }

  lemma GoodTables(m: Mounts)
    requires Good(m)
    ensures GoodTable(m.fstab) && GoodTable(m.mtab)
  {
  }

  lemma SameStatus(t: Table, t': Table, mtab: Table, name: string)
    requires Count(t', name) == Count(t, name)
    ensures Status(t', mtab, name) == Status(t, mtab, name)
  {
  }

  lemma LeftLineLoaded(t: Table, t': Table, upd: Update)
    requires LeftLine(t, upd)
    requires Count(t', upd.Name()) == Count(t, upd.Name())
    requires HasLine(t, MountChildren(upd)) ==> HasLine(t', MountChildren(upd))
    ensures LeftLine(t', upd)
  {
  }

  /* ---- a second run ---- */

  /** What one update records in a new log. */
  function LogOf(upd: Update): seq<Change> {
    var log := AddDiff([], "ensure", upd);
    if Ensure(upd) == "absent" then log else AddDiffs(log, PROPERTIES, upd)
  }

  lemma LogIsWritten(m: Mounts, upd: Update, env: set<Step>)
    requires SetOne(m, upd, env).Done? && Entries(m.log, upd.Name()) == []
    ensures Entries(SetOne(m, upd, env).m.log, upd.Name()) == LogOf(upd)
  {
    hide AddDiffs, FitsTable, FirstIndex, LastIndex, Matches, RmMatching, RmEntry, Written, EraseMatching,
         MountChildren;
  }

  lemma OtherLogs(m: Mounts, upd: Update, env: set<Step>, name: string)
    requires name != upd.Name()
    ensures Entries(SetOne(m, upd, env).m.log, name) == Entries(m.log, name)
  {
    var m0 := LogEnsure(m, upd);
    var m1 := DoUnmount(m0, upd.Name(), StateOf(upd), env).m;
    var m2 := UpdateFstab(m0, upd).m;
    hide UpdateFstab, DoMount, DoUnmount, RemoveFromFstab, AddDiff;
    CommandsKeepLog(m0, upd, env);
    CommandsKeepLog(m1, upd, env);
    CommandsKeepLog(m2, upd, env);
    FstabLog(m0, upd, name);
    FstabLog(m1, upd, name);
  }

  lemma CommandsKeepLog(m: Mounts, upd: Update, env: set<Step>)
    ensures DoUnmount(m, upd.Name(), StateOf(upd), env).m.log == m.log
    ensures DoMount(m, upd.Name(), StateOf(upd), env).m.log == m.log
    ensures RemoveFromFstab(m, upd).m.log == m.log
  {
    hide FitsTable, FirstIndex, LastIndex, RmMatching, RmEntry, RunMount, RunUmount, Flush, StateOf, Update.Name;
    FlushKeepsLog(m, env);
    if Flush(m, env).Done? {
      RunsKeepLog(Flush(m, env).m, upd.Name(), env);
    }
  }

  lemma FlushKeepsLog(m: Mounts, env: set<Step>)
    ensures Flush(m, env).m.log == m.log
  {
    hide FitsTable;
  }

  lemma RunsKeepLog(m: Mounts, name: string, env: set<Step>)
    ensures RunMount(m, name, env).m.log == m.log && RunUmount(m, name, env).m.log == m.log
  {
    hide FirstIndex, LastIndex;
  }

  lemma FstabLog(m: Mounts, upd: Update, name: string)
    requires name != upd.Name()
    ensures Entries(UpdateFstab(m, upd).m.log, name) == Entries(m.log, name)
  {
    hide AddDiffs, Matches, Written, EraseMatching, MountChildren;
  }

  /** After a run with a new log, each update has recorded its own differences. */
  lemma {:induction false} EachRecords(m: Mounts, upds: seq<Update>, envs: nat -> set<Step>)
    requires DistinctUpdates(upds) && SetEach(m, upds, envs).Done?
    requires forall u :: u in upds ==> Entries(m.log, u.Name()) == []
    ensures forall u :: u in upds ==> Entries(SetEach(m, upds, envs).m.log, u.Name()) == LogOf(u)
    ensures forall n :: (forall u :: u in upds ==> u.Name() != n) ==>
              Entries(SetEach(m, upds, envs).m.log, n) == Entries(m.log, n)
    decreases |upds|
  {
    if upds != [] {
      hide SetOne, LogOf, Entries, DistinctUpdates, Update.Name, SetEach;
      var rest, last := upds[..|upds| - 1], upds[|upds| - 1];
      SetEachLast(m, upds, envs);
      RunSplit(upds);
      EachRecords(m, rest, envs);
      var m1 := SetEach(m, rest, envs).m;
      forall n | n != last.Name()
        ensures Entries(SetOne(m1, last, envs(|upds| - 1)).m.log, n) == Entries(m1.log, n)
      {
        OtherLogs(m1, last, envs(|upds| - 1), n);
      }
      LogIsWritten(m1, last, envs(|upds| - 1));
    } else {
      NothingRun(m, envs);
    }
  }

  lemma NothingRun(m: Mounts, envs: nat -> set<Step>)
    ensures SetEach(m, [], envs) == Done(m)
  {
  }

  predicate TextOrUnset(v: Value) {
    v.IsSet() ==> v.Str?
  }

  /** The state asked for, if any, is one that is shown and that is reached. */
  predicate EnsureRests(should: Resource, was: nat) {
    should.Get("ensure").IsSet() ==>
      should.Get("ensure") == Str("mounted") || (should.Get("ensure") == Str("unmounted") && was <= 1)
  }

  /** A desired state on which the provider comes to rest, for a name that was mounted so often. */
  predicate Rests(should: Resource, was: nat) {
    && EnsureRests(should, was)
    && forall a :: a in PROPERTIES ==> TextOrUnset(should.Get(a))
  }

  lemma LogOfEmpty(upd: Update)
    requires Ensure(upd) != "absent"
    ensures LogOf(upd) == [] <==> !upd.Changed("ensure") && forall a :: a in PROPERTIES ==> !upd.Changed(a)
  {
    AddDiffsExact(AddDiff([], "ensure", upd), PROPERTIES, upd);
    hide AddDiffs, PROPERTIES;
  }

  /** An update of what the first one has left is settled in an attribute if its value is a text. */
  lemma PropertySettled(upd: Update, ens: string, attr: string)
    requires attr in PROPERTIES
    ensures Update(Shown(upd, ens), upd.should).Changed(attr) <==> !TextOrUnset(upd.should.Get(attr))
  {
    assert attr == "device" || attr == "fstype" || attr == "options" || attr == "dump" || attr == "pass";
  }

  lemma ShownAgain(upd: Update, was: nat)
    requires Ensure(upd) in {"present", "unmounted", "mounted"}
    ensures var again := Update(Shown(upd, Reached(Ensure(upd), was)), upd.should);
            LogOf(again) == [] <==> Rests(upd.should, was)
  {
    var st := Reached(Ensure(upd), was);
    var again := Update(Shown(upd, st), upd.should);
    assert again.actual.Get("ensure") == Str(st);
    hide Shown, PROPERTIES;
    assert Ensure(again) != "absent";
    LogOfEmpty(again);
    forall a | a in PROPERTIES ensures again.Changed(a) <==> !TextOrUnset(upd.should.Get(a)) {
      PropertySettled(upd, st, a);
    }
  }

  /** The update that a second run makes of the same desired state. */
  ghost function Again(t: Table, mtab: Table, upd: Update): seq<Update>
    requires GoodTable(t) && GoodTable(mtab)
  {
    PairOne(GetSpec(t, mtab), upd.should)
  }

  lemma PairsAnswer(t: Table, mtab: Table, upd: Update, found: seq<Resource>)
    requires GoodTable(t) && GoodTable(mtab) && upd.should.name == upd.Name()
    requires Answer(t, mtab, upd.Name()) == found && |found| <= 1
    ensures Again(t, mtab, upd) == [Update(if found == [] then Unknown(upd.Name()) else found[0], upd.should)]
  {
    hide GetSpec, GoodTable;
  }

  /** A name that is to be absent is logged whenever that is said, even if it is not there. */
  lemma AbsentLogged(actual: Resource, upd: Update)
    requires Ensure(upd) == "absent" && actual.Get("ensure") != Str("absent")
    requires upd.should.Get("ensure").IsSet()
    requires !upd.should.Get("ensure").Str? ==> actual.Get("ensure") == NoValue
    ensures LogOf(Update(actual, upd.should)) != []
  {
    var again := Update(actual, upd.should);
    AddDiffsExact(AddDiff([], "ensure", again), PROPERTIES, again);
    hide AddDiffs, PROPERTIES;
  }

  lemma SaysNoAbsent(upd: Update)
    requires Ensure(upd) == "absent" && !upd.should.Get("ensure").IsSet()
    ensures LogOf(Update(Unknown(upd.Name()), upd.should)) == []
  {
    hide PROPERTIES, AddDiffs;
  }

  /**
   * A second run, from what the first one has left, has nothing to record for an update exactly
   * under these conditions: one that is not to be absent must ask for a state that is reported,
   * and for texts; one that is to be absent must not say so.
   */
  lemma SecondRunQuietIff(m: Mounts, upds: seq<Update>, envs: nat -> set<Step>, u: Update) returns (t: Table)
    requires Good(m) && DistinctUpdates(upds) && u in upds
    requires forall v :: v in upds ==> AccurateState(m, v)
    requires SetAll(m, upds, envs).Done?
    requires u.should.name == u.Name()
    ensures var m' := SetAll(m, upds, envs).m;
            && FitsTable(m'.saved) && ParseTable(PrintTable(m'.saved)) == Some(t)
            && GoodTable(t) && GoodTable(m'.mtab)
            && var again := Again(t, m'.mtab, u);
               && |again| == 1
               && (LogOf(again[0]) == [] <==>
                     if Ensure(u) == "absent" then !u.should.Get("ensure").IsSet()
                     else Rests(u.should, Count(m.mtab, u.Name())))
  {
    var m', was := SetAll(m, upds, envs).m, Count(m.mtab, u.Name());
    LegalEnsure(m, upds, envs, u);
    hide SetAll, Good, Count, Status, FitsTable, Answer, Shown, AccurateState, DistinctUpdates, Again, LogOf,
         Rests, Ensure;
    t := RunReloads(m, upds, envs);
    OneAnswer(t, m'.mtab, u.Name());
    var found := Answer(t, m'.mtab, u.Name());
    PairsAnswer(t, m'.mtab, u, found);
    if Ensure(u) != "absent" {
      ShownAgain(u, was);
    } else {
      AbsentAgain(m, t, m'.mtab, u, found);
    }
  }

  /** What is left of a name that was to be absent: nothing, or what it was mounted over. */
  lemma AbsentAgain(m: Mounts, t: Table, mtab: Table, u: Update, found: seq<Resource>)
    requires Ensure(u) == "absent" && AccurateState(m, u)
    requires Status(t, mtab, u.Name()) == Reached("absent", Count(m.mtab, u.Name()))
    requires Count(m.mtab, u.Name()) <= 1 ==> found == []
    requires |found| <= 1
    requires forall r :: r in found ==> r.name == u.Name() && ComesFrom(t, mtab, r)
    ensures var actual := if found == [] then Unknown(u.Name()) else found[0];
            LogOf(Update(actual, u.should)) == [] <==> !u.should.Get("ensure").IsSet()
  {
    hide LogOf, ComesFrom, Count;
    if !u.should.Get("ensure").Str? {
      NotMountedIfAbsent(m, u);
    }
    if !u.should.Get("ensure").IsSet() {
      SaysNoAbsent(u);
    } else if found == [] {
      AbsentLogged(Unknown(u.Name()), u);
    } else {
      assert found[0] in found;
      EnsureIsStatus(t, mtab, found[0]);
      AbsentLogged(found[0], u);
    }
  }

  lemma NotMountedIfAbsent(m: Mounts, u: Update)
    requires Ensure(u) == "absent" && AccurateState(m, u) && !u.should.Get("ensure").Str?
    ensures Count(m.mtab, u.Name()) == 0
  {
    hide Count;
  }

  lemma {:induction false} LegalEnsure(m: Mounts, upds: seq<Update>, envs: nat -> set<Step>, u: Update)
    requires u in upds && SetEach(m, upds, envs).Done?
    ensures Ensure(u) in {"present", "absent", "unmounted", "mounted"}
    decreases |upds|
  {
    hide SetOne, Ensure;
    SetEachLast(m, upds, envs);
    var rest, last := upds[..|upds| - 1], upds[|upds| - 1];
    assert upds == rest + [last];
    if u in rest {
      LegalEnsure(m, rest, envs, u);
    } else {
      LegalLast(SetEach(m, rest, envs).m, last, envs(|upds| - 1));
    }
  }

  lemma LegalLast(m: Mounts, upd: Update, env: set<Step>)
    requires SetOne(m, upd, env).Done?
    ensures Ensure(upd) in {"present", "absent", "unmounted", "mounted"}
  {
    hide UpdateFstab, DoMount, DoUnmount, RemoveFromFstab;
  }

  /** "present" is a state that is never reported, so that asking for it is a change every time. */
  lemma PresentLoggedEveryTime(m: Mounts, upd: Update)
    requires AccurateState(m, upd) && upd.should.Get("ensure") == Str("present")
    ensures LogOf(upd) != [] && LogOf(upd)[0] == Change("ensure", Str("present"), upd.actual.Get("ensure"))
  {
    AddDiffsExact(AddDiff([], "ensure", upd), PROPERTIES, upd);
    hide AddDiffs, PROPERTIES, Count;
  }

  /** A name that is in neither table is not reported as absent, so that removing it is a change. */
  lemma AbsentLoggedEveryTime(name: string, should: Resource)
    requires should.Get("ensure") == Str("absent")
    ensures LogOf(Update(Unknown(name), should)) == [Change("ensure", Str("absent"), NoValue)]
  {
  }
}
