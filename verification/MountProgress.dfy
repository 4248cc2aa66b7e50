/** When the mount provider succeeds: exactly what a caller must ask for. */
module MountProgress {
  import opened Core
  import opened Changes
  import opened Augeas
  import opened Fstab
  import opened Mount
  import opened MountGet
  import opened MountTheorems

  /** The fields of the line are given, and a resource that is there has exactly one line. */
  predicate Writes(m: Mounts, upd: Update) {
    && upd.At("device").IsSet() && upd.At("fstype").IsSet()
    && (upd.Present() ==> Count(m.fstab, upd.Name()) == 1)
  }

  /** What can be asked of a filesystem in this state. */
  predicate Possible(m: Mounts, upd: Update) {
    && Ensure(upd) in {"present", "absent", "unmounted", "mounted"}
    && (Ensure(upd) != "absent" ==> Writes(m, upd))
    && (Ensure(upd) == "mounted" ==> WellFormed(MountRecord(upd)))
  }

  /* ---- which tables fit the lens ---- */

  lemma RecordFits(upd: Update)
    ensures FromChildren(MountChildren(upd)).Some? <==> WellFormed(MountRecord(upd))
  {
    var cs, r := MountChildren(upd), MountRecord(upd);
    hide WellFormed;
    assert cs[3..][0].field == Options && cs[3..][1].field == Dump && cs[3..][2].field == PassNo;
    assert ExtraCount(cs[3..]) == 3 && cs[6..] == [];
    assert ValuesOf(cs[3..6]) == r.extra;
  }

  lemma FitsReplaced(t: Table, i: nat, cs: seq<Child>)
    requires FitsTable(t) && i < |t| && t[i].tag != Comment
    ensures FitsTable(t[i := t[i].(children := cs)]) <==> FromChildren(cs).Some?
  {
    hide FromChildren;
    var t' := t[i := t[i].(children := cs)];
    assert t'[i].children == cs;
    assert FitsEntry(t[i]);
  }

  lemma FitsAppended(t: Table, e: Entry)
    requires FitsTable(t)
    ensures FitsTable(t + [e]) <==> FitsEntry(e)
  {
    hide FitsEntry;
    assert (t + [e])[|t|] == e;
  }

  lemma {:induction false} FitsRemoved(t: Table, name: string)
    requires FitsTable(t)
    ensures FitsTable(RmMatching(t, name))
  {
    hide FitsEntry;
    if t != [] {
      FitsRemoved(t[1..], name);
    }
  }

  lemma RewriteFits(t: Table, count: nat, upd: Update)
    requires Ok(t, count) && FitsTable(t) && Count(t, upd.Name()) == 1
    ensures var tag := Matches(t, MountPoint, upd.Name())[0];
            (FitsTable(Written(t, tag, MountChildren(upd))) <==> WellFormed(MountRecord(upd)))
  {
    var i := OneMatch(t, MountPoint, upd.Name());
    GoodLineOf(t[i], upd.Name());
    hide HasValue, GoodLine, LineOf, Matches, FitsTable, MountChildren, WellFormed, FromChildren;
    RecordFits(upd);
    IndexUnique(t, i);
    FitsReplaced(t, i, MountChildren(upd));
  }

  lemma AppendFits(t: Table, count: nat, upd: Update)
    requires Ok(t, count) && FitsTable(t)
    ensures FitsTable(Written(t, Fresh(count + 1), MountChildren(upd))) <==> WellFormed(MountRecord(upd))
  {
    hide GoodTable, FitsTable, WellFormed, FromChildren, UniqueLabels, Counted;
    RecordFits(upd);
    LabelsAfterAppend(t, count, MountChildren(upd));
    FitsAppended(t, Entry(Fresh(count + 1), "", MountChildren(upd)));
  }

  /** Writing the line of an update succeeds if it can, and the table fits if the record does. */
  lemma WriteSucceedsIff(m: Mounts, upd: Update)
    requires Ok(m.fstab, m.count) && FitsTable(m.fstab)
    ensures UpdateFstab(m, upd).Done? <==> Writes(m, upd)
    ensures UpdateFstab(m, upd).Done? ==>
              (FitsTable(UpdateFstab(m, upd).m.fstab) <==> WellFormed(MountRecord(upd)))
  {
    hide Ok, FitsTable, MountChildren, WellFormed, AddDiffs, Matches, Written;
    if Writes(m, upd) {
      if upd.Present() {
        RewriteFits(m.fstab, m.count, upd);
      } else {
        AppendFits(m.fstab, m.count, upd);
      }
    }
  }

  lemma RemoveSucceeds(m: Mounts, upd: Update)
    requires Ok(m.fstab, m.count) && FitsTable(m.fstab)
    ensures RemoveFromFstab(m, upd).Done? && FitsTable(RemoveFromFstab(m, upd).m.fstab)
  {
    hide FitsTable, GoodTable, UniqueLabels, Counted;
    FitsRemoved(m.fstab, upd.Name());
    LabelsAfterAppend(m.fstab, m.count, []);
  }

  /* ---- the commands ---- */

  lemma UnmountSucceeds(m: Mounts, upd: Update)
    requires FitsTable(m.fstab) && AccurateState(m, upd)
    ensures var r := DoUnmount(m, upd.Name(), StateOf(upd), {}); r.Done? && r.m.fstab == m.fstab && r.m.count == m.count
  {
    hide FitsTable, HasValue;
    FirstIndexFound(m.mtab, upd.Name());
    var i, last := FirstIndex(m.mtab, upd.Name()), LastIndex(m.mtab, upd.Name());
    hide FirstIndex, LastIndex, Count;
  }

  lemma MountSucceedsIff(m: Mounts, name: string, state: string)
    requires Count(m.fstab, name) > 0
    ensures DoMount(m, name, state, {}).Done? <==> FitsTable(m.fstab)
    ensures DoMount(m, name, state, {}).Done? ==> DoMount(m, name, state, {}).m.fstab == m.fstab
  {
    FirstIndexFound(m.fstab, name);
    hide FitsTable, FirstIndex, Count;
  }

  /**
   * If no step fails from outside, an update from an accurate state succeeds exactly if what it
   * asks for is possible. What it leaves can be saved if and only if the line that it writes, if
   * any, is well formed.
   */
  lemma SucceedsIff(m: Mounts, upd: Update)
    requires Good(m) && AccurateState(m, upd) && FitsTable(m.fstab)
    ensures SetOne(m, upd, {}).Done? <==> Possible(m, upd)
    ensures Possible(m, upd) ==>
              (FitsTable(SetOne(m, upd, {}).m.fstab) <==> (Ensure(upd) != "absent" ==> WellFormed(MountRecord(upd))))
  {
    var m0, name, state := LogEnsure(m, upd), upd.Name(), StateOf(upd);
    hide Ok, Count, GoodTable, UpdateFstab, DoMount, DoUnmount, RemoveFromFstab, Status, FitsTable, WellFormed;
    assert AccurateState(m0, upd) && Writes(m0, upd) == Writes(m, upd);
    if Ensure(upd) == "present" {
      WriteSucceedsIff(m0, upd);
    } else if Ensure(upd) == "absent" {
      UnmountSucceeds(m0, upd);
      RemoveSucceeds(DoUnmount(m0, name, state, {}).m, upd);
    } else if Ensure(upd) == "unmounted" {
      UnmountSucceeds(m0, upd);
      var m1 := DoUnmount(m0, name, state, {}).m;
      WriteSucceedsIff(m1, upd);
      assert Writes(m1, upd) == Writes(m, upd);
    } else if Ensure(upd) == "mounted" {
      WriteSucceedsIff(m0, upd);
      if UpdateFstab(m0, upd).Done? {
        UpdateFstabCounts(m0, upd);
        MountSucceedsIff(UpdateFstab(m0, upd).m, name, state);
      }
    }
  }

  /* ---- a whole run ---- */

  predicate Feasible(m: Mounts, upd: Update) {
    Possible(m, upd) && (Ensure(upd) != "absent" ==> WellFormed(MountRecord(upd)))
  }

  lemma FeasibleSame(m: Mounts, m1: Mounts, upd: Update)
    requires Count(m1.fstab, upd.Name()) == Count(m.fstab, upd.Name())
    requires Count(m1.mtab, upd.Name()) == Count(m.mtab, upd.Name())
    requires AccurateState(m, upd) && Feasible(m, upd)
    ensures AccurateState(m1, upd) && Feasible(m1, upd)
  {
    SameCounts(m, m1, upd.Name());
    hide Status, Count, WellFormed;
  }

  lemma {:induction false} EachSucceeds(m: Mounts, upds: seq<Update>, envs: nat -> set<Step>)
    requires Good(m) && DistinctUpdates(upds) && FitsTable(m.fstab)
    requires forall u :: u in upds ==> AccurateState(m, u) && Feasible(m, u)
    requires forall k: nat :: envs(k) == {}
    ensures SetEach(m, upds, envs).Done? && FitsTable(SetEach(m, upds, envs).m.fstab)
    decreases |upds|
  {
    if upds != [] {
      hide SetOne, Good, Count, Status, FitsTable, AccurateState, Feasible, Update.Name, StateOf, DistinctUpdates;
      var rest, last := upds[..|upds| - 1], upds[|upds| - 1];
      RunSplit(upds);
      EachSucceeds(m, rest, envs);
      SetEachReaches(m, rest, envs, set u | u in rest :: u.Name());
      var m1 := SetEach(m, rest, envs).m;
      FeasibleSame(m, m1, last);
      LastSucceeds(m1, last);
    }
  }

  lemma LastSucceeds(m: Mounts, upd: Update)
    requires Good(m) && AccurateState(m, upd) && FitsTable(m.fstab) && Feasible(m, upd)
    ensures SetOne(m, upd, {}).Done? && FitsTable(SetOne(m, upd, {}).m.fstab)
  {
    SucceedsIff(m, upd);
    hide SetOne, Good, AccurateState, FitsTable, Possible, WellFormed;
  }

  /* ---- a line that does not fit stays, so that the last save fails ---- */

  /** Lines of other names are the same ones as before. */
  ghost predicate SameOthers(t: Table, t': Table, name: string) {
    && (forall e :: e in t' ==> e in t || HasValue(e, MountPoint, name))
    && (forall e :: e in t ==> e in t' || HasValue(e, MountPoint, name))
  }

  lemma {:induction false} RmOthers(t: Table, name: string)
    ensures SameOthers(t, RmMatching(t, name), name)
  {
    hide HasValue;
    if t != [] {
      RmOthers(t[1..], name);
      assert t == [t[0]] + t[1..];
    }
  }

  lemma ReplacedOthers(t: Table, i: nat, e: Entry, name: string)
    requires i < |t| && HasValue(t[i], MountPoint, name) && HasValue(e, MountPoint, name)
    ensures SameOthers(t, t[i := e], name)
  {
    hide HasValue;
    var t' := t[i := e];
    forall x | x in t' ensures x in t || HasValue(x, MountPoint, name) {
      var j :| 0 <= j < |t'| && t'[j] == x;
    }
    forall x | x in t ensures x in t' || HasValue(x, MountPoint, name) {
      var j :| 0 <= j < |t| && t[j] == x;
      assert j != i ==> t'[j] == x;
    }
  }

  lemma WriteOthers(m: Mounts, upd: Update)
    requires Ok(m.fstab, m.count) && UpdateFstab(m, upd).Done?
    ensures SameOthers(m.fstab, UpdateFstab(m, upd).m.fstab, upd.Name())
  {
    var t, name := m.fstab, upd.Name();
    assert MountChildren(upd) != [];
    hide GoodLine, LineOf, MountChildren, AddDiffs, Matches, HasValue, SameOthers;
    if upd.Present() {
      var i := OneMatch(t, MountPoint, name);
      GoodLineOf(t[i], name);
      IndexUnique(t, i);
      WrittenHasName(upd, t[i].tag, t[i].text);
      ReplacedOthers(t, i, t[i].(children := MountChildren(upd)), name);
    } else {
      LabelsAfterAppend(t, m.count, MountChildren(upd));
      WrittenHasName(upd, Fresh(m.count + 1), "");
      AppendedOthers(t, Entry(Fresh(m.count + 1), "", MountChildren(upd)), name);
    }
  }

  lemma AppendedOthers(t: Table, e: Entry, name: string)
    requires HasValue(e, MountPoint, name)
    ensures SameOthers(t, t + [e], name)
  {
  }

  lemma WrittenHasName(upd: Update, tag: Label, text: string)
    requires tag != Comment
    ensures HasValue(Entry(tag, text, MountChildren(upd)), MountPoint, upd.Name())
  {
    WrittenLineOf(upd, tag, text);
  }

  lemma RemoveOthers(m: Mounts, upd: Update)
    requires Ok(m.fstab, m.count)
    ensures SameOthers(m.fstab, RemoveFromFstab(m, upd).m.fstab, upd.Name())
  {
    hide GoodTable, UniqueLabels, Counted, HasValue;
    RmOthers(m.fstab, upd.Name());
    LabelsAfterAppend(m.fstab, m.count, []);
  }

  lemma SetOneOthers(m: Mounts, upd: Update, env: set<Step>)
    requires Good(m) && SetOne(m, upd, env).Done?
    ensures SameOthers(m.fstab, SetOne(m, upd, env).m.fstab, upd.Name())
  {
    var m0, name, state := LogEnsure(m, upd), upd.Name(), StateOf(upd);
    hide Ok, GoodTable, UpdateFstab, RemoveFromFstab, SameOthers, FitsTable, FirstIndex, LastIndex, HasValue;
    if Ensure(upd) == "present" || Ensure(upd) == "mounted" {
      WriteOthers(m0, upd);
    } else if Ensure(upd) == "absent" {
      RemoveOthers(DoUnmount(m0, name, state, env).m, upd);
    } else {
      WriteOthers(DoUnmount(m0, name, state, env).m, upd);
    }
  }

  /** After some updates, every line that was not there before has the name of one of them. */
  lemma {:induction false} NewLinesAreNamed(m: Mounts, upds: seq<Update>, envs: nat -> set<Step>)
    requires Good(m) && DistinctUpdates(upds) && SetEach(m, upds, envs).Done?
    requires forall u :: u in upds ==> AccurateState(m, u)
    ensures forall e :: e in SetEach(m, upds, envs).m.fstab ==>
              e in m.fstab || exists u :: u in upds && HasValue(e, MountPoint, u.Name())
    decreases |upds|
  {
    if upds != [] {
      hide SetOne, Good, HasValue, AccurateState, DistinctUpdates, Count, Status;
      var rest, last := upds[..|upds| - 1], upds[|upds| - 1];
      SetEachLast(m, upds, envs);
      RunSplit(upds);
      NewLinesAreNamed(m, rest, envs);
      SetEachReaches(m, rest, envs, set u | u in rest :: u.Name());
      SetOneOthers(SetEach(m, rest, envs).m, last, envs(|upds| - 1));
    }
  }

  /** A table that fits after a further update has fitted before it. */
  lemma FittedBefore(m: Mounts, upds: seq<Update>, envs: nat -> set<Step>)
    requires upds != [] && Good(m) && DistinctUpdates(upds) && FitsTable(m.fstab)
    requires forall u :: u in upds ==> AccurateState(m, u)
    requires SetEach(m, upds, envs).Done? && FitsTable(SetEach(m, upds, envs).m.fstab)
    ensures FitsTable(SetEach(m, upds[..|upds| - 1], envs).m.fstab)
  {
    hide SetOne, HasValue, AccurateState, DistinctUpdates, FitsEntry, Count, Status;
    var rest, last := upds[..|upds| - 1], upds[|upds| - 1];
    SetEachLast(m, upds, envs);
    RunSplit(upds);
    var m1, m' := SetEach(m, rest, envs).m, SetEach(m, upds, envs).m;
    NewLinesAreNamed(m, rest, envs);
    SetEachReaches(m, rest, envs, set u | u in rest :: u.Name());
    SetOneOthers(m1, last, envs(|upds| - 1));
    forall i | 0 <= i < |m1.fstab| ensures FitsEntry(m1.fstab[i]) {
      var e := m1.fstab[i];
      assert e in m1.fstab && GoodLine(e);
      if e !in m.fstab {
        var u :| u in rest && HasValue(e, MountPoint, u.Name());
        OneName(e, u.Name(), last.Name());
        assert e in m'.fstab;
      }
    }
  }

  lemma OneName(e: Entry, a: string, b: string)
    requires GoodLine(e) && HasValue(e, MountPoint, a) && a != b
    ensures !HasValue(e, MountPoint, b)
  {
    HasNameOf(e, a);
    HasNameOf(e, b);
  }

  lemma {:induction false} FeasibleIfDone(m: Mounts, upds: seq<Update>, envs: nat -> set<Step>)
    requires Good(m) && DistinctUpdates(upds) && FitsTable(m.fstab)
    requires forall u :: u in upds ==> AccurateState(m, u)
    requires forall k: nat :: envs(k) == {}
    requires SetEach(m, upds, envs).Done? && FitsTable(SetEach(m, upds, envs).m.fstab)
    ensures forall u :: u in upds ==> Feasible(m, u)
    decreases |upds|
  {
    if upds != [] {
      hide SetOne, Good, Count, Status, FitsTable, AccurateState, Feasible, Update.Name, StateOf, DistinctUpdates;
      var rest, last := upds[..|upds| - 1], upds[|upds| - 1];
      SetEachLast(m, upds, envs);
      RunSplit(upds);
      FittedBefore(m, upds, envs);
      FeasibleIfDone(m, rest, envs);
      SetEachReaches(m, rest, envs, set u | u in rest :: u.Name());
      LastFeasible(m, SetEach(m, rest, envs).m, last);
    }
  }

  lemma LastFeasible(m: Mounts, m1: Mounts, upd: Update)
    requires Count(m1.fstab, upd.Name()) == Count(m.fstab, upd.Name())
    requires Count(m1.mtab, upd.Name()) == Count(m.mtab, upd.Name())
    requires AccurateState(m, upd) && Good(m1) && FitsTable(m1.fstab)
    requires SetOne(m1, upd, {}).Done? && FitsTable(SetOne(m1, upd, {}).m.fstab)
    ensures Feasible(m, upd)
  {
    SameCounts(m, m1, upd.Name());
    hide Status, Count, WellFormed, SetOne, Good, FitsTable;
    SucceedsIff(m1, upd);
  }

  /**
   * A run over distinct names succeeds exactly if every update is feasible at its start; by
   * `RunReachesStates` all of them then reach their state.
   */
  lemma RunSucceedsIff(m: Mounts, upds: seq<Update>, envs: nat -> set<Step>)
    requires Good(m) && DistinctUpdates(upds) && FitsTable(m.fstab)
    requires forall u :: u in upds ==> AccurateState(m, u)
    requires forall k: nat :: envs(k) == {}
    ensures SetAll(m, upds, envs).Done? <==> forall u :: u in upds ==> Feasible(m, u)
  {
    hide SetEach, Good, FitsTable, AccurateState, Feasible, DistinctUpdates;
    if SetAll(m, upds, envs).Done? {
      FeasibleIfDone(m, upds, envs);
    }
    if forall u :: u in upds ==> Feasible(m, u) {
      EachSucceeds(m, upds, envs);
    }
  }
}
