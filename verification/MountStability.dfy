/** A second run of the mount provider: it finds what the first one has left. */
module MountStability {
  import opened Core
  import opened Changes
  import opened Augeas
  import opened Fstab
  import opened Mount
  import opened MountGet
  import opened MountTheorems
  import opened MountProgress
  import opened MountReload
  import opened MountReport
  import opened Provider

  /* ---- the updates of the second run ---- */

  function Shoulds(upds: seq<Update>): seq<Resource> {
    seq(|upds|, i requires 0 <= i < |upds| => upds[i].should)
  }

  predicate SameNames(upds: seq<Update>) {
    forall u :: u in upds ==> u.should.name == u.Name()
  }

  /** What `provider::set` takes for the actual state of a name. */
  ghost function ActualOf(t: Table, mtab: Table, name: string): Resource
    requires GoodTable(t) && GoodTable(mtab)
  {
    if Answer(t, mtab, name) == [] then Unknown(name) else Answer(t, mtab, name)[0]
  }

  ghost function Repeated(t: Table, mtab: Table, upd: Update): Update
    requires GoodTable(t) && GoodTable(mtab)
  {
    Update(ActualOf(t, mtab, upd.Name()), upd.should)
  }

  ghost function Repeats(t: Table, mtab: Table, upds: seq<Update>): seq<Update>
    requires GoodTable(t) && GoodTable(mtab)
  {
    seq(|upds|, i requires 0 <= i < |upds| => Repeated(t, mtab, upds[i]))
  }

  lemma RepeatedIsPaired(t: Table, mtab: Table, upd: Update)
    requires GoodTable(t) && GoodTable(mtab) && upd.should.name == upd.Name()
    ensures Again(t, mtab, upd) == [Repeated(t, mtab, upd)]
    ensures Repeated(t, mtab, upd).Name() == upd.Name()
  {
    var found := Answer(t, mtab, upd.Name());
    OneAnswer(t, mtab, upd.Name());
    PairsAnswer(t, mtab, upd, found);
    hide Answer, Again, GoodTable, Count, ComesFrom;
    assert found != [] ==> found[0] in found;
  }

  lemma ListsCons(t: Table, mtab: Table, upds: seq<Update>)
    requires GoodTable(t) && GoodTable(mtab) && SameNames(upds) && upds != []
    ensures Shoulds(upds) == [upds[0].should] + Shoulds(upds[1..])
    ensures Repeats(t, mtab, upds) == [Repeated(t, mtab, upds[0])] + Repeats(t, mtab, upds[1..])
    ensures SameNames(upds[1..]) && upds[0].should.name == upds[0].Name()
  {
    hide GoodTable, Repeated;
    assert upds[0] in upds && forall u :: u in upds[1..] ==> u in upds;
  }

  lemma {:induction false} RepeatsArePaired(t: Table, mtab: Table, upds: seq<Update>)
    requires GoodTable(t) && GoodTable(mtab) && SameNames(upds)
    ensures PairAll(GetSpec(t, mtab), Shoulds(upds)) == Repeats(t, mtab, upds)
    decreases |upds|
  {
    if upds != [] {
      hide GetSpec, GoodTable, PairOne, PairAll, Repeated, Shoulds, Repeats, SameNames, Update.Name;
      ListsCons(t, mtab, upds);
      RepeatedIsPaired(t, mtab, upds[0]);
      RepeatsArePaired(t, mtab, upds[1..]);
      PairAllCons(GetSpec(t, mtab), upds[0].should, Shoulds(upds[1..]));
    }
  }

  /** The updates of the second run, as those of the first one. */
  lemma RepeatsFacts(t: Table, mtab: Table, upds: seq<Update>)
    requires GoodTable(t) && GoodTable(mtab) && SameNames(upds) && DistinctUpdates(upds)
    ensures var again := Repeats(t, mtab, upds);
            && DistinctUpdates(again)
            && (forall u :: u in upds ==> Repeated(t, mtab, u) in again && Repeated(t, mtab, u).Name() == u.Name())
            && (forall a :: a in again ==> exists u :: u in upds && a == Repeated(t, mtab, u))
            && (set a | a in again :: a.Name()) == (set u | u in upds :: u.Name())
  {
    var again := Repeats(t, mtab, upds);
    hide GoodTable, Repeated;
    forall i | 0 <= i < |upds| ensures again[i].Name() == upds[i].Name() {
      assert upds[i] in upds;
      RepeatedIsPaired(t, mtab, upds[i]);
    }
    forall u | u in upds ensures Repeated(t, mtab, u) in again && Repeated(t, mtab, u).Name() == u.Name() {
      var i :| 0 <= i < |upds| && upds[i] == u;
      assert again[i] == Repeated(t, mtab, u);
    }
    forall a | a in again ensures exists u :: u in upds && a == Repeated(t, mtab, u) {
      var i :| 0 <= i < |again| && again[i] == a;
      assert upds[i] in upds && a == Repeated(t, mtab, upds[i]);
    }
  }

  /* ---- the table that is loaded ---- */

  lemma {:induction false} RenumberFits(t: Table, n: nat)
    requires FitsTable(t)
    ensures FitsTable(Renumber(t, n))
  {
    if t != [] {
      hide FromChildren;
      assert FitsEntry(t[0]);
      RenumberFits(t[1..], if t[0].tag == Comment then n else n + 1);
    }
  }

  lemma {:induction false} RenumberLabels(t: Table, n: nat)
    ensures forall e :: e in Renumber(t, n) ==> e.tag == Comment || (e.tag.Line? && e.tag.n >= n)
    ensures UniqueLabels(Renumber(t, n))
  {
    if t != [] {
      var next := if t[0].tag == Comment then n else n + 1;
      RenumberLabels(t[1..], next);
      var rest, all := Renumber(t[1..], next), Renumber(t, n);
      forall i, j | 0 <= i < j < |all| && all[i].tag == all[j].tag ensures all[i].tag == Comment {
        assert all[j] == rest[j - 1] && rest[j - 1] in rest;
        if i > 0 {
          assert all[i] == rest[i - 1];
        }
      }
    }
  }

  /** What the provider knows after loading, with a new log. */
  function Restarted(t: Table, count: nat, mtab: Table): Mounts {
    Mounts(t, count, t, mtab, map[], [])
  }

  lemma LoadedIsGood(saved: Table, t: Table, count: nat, mtab: Table)
    requires FitsTable(saved) && ParseTable(PrintTable(saved)) == Some(t) && GoodTable(t) && GoodTable(mtab)
    ensures Good(Restarted(t, count, mtab)) && FitsTable(t)
  {
    ReloadOfSave(saved);
    RenumberFits(saved, 1);
    RenumberLabels(saved, 1);
    hide ParseTable, PrintTable, FitsTable, GoodTable, Renumber;
  }

  /* ---- one update of the second run ---- */

  /** What the first run has left of an update, for a name that was mounted `was` times. */
  ghost predicate LeftBy(t: Table, mtab: Table, upd: Update, was: nat) {
    && GoodTable(t) && GoodTable(mtab) && upd.should.name == upd.Name()
    && Ensure(upd) in {"present", "absent", "unmounted", "mounted"}
    && (!upd.should.Get("ensure").Str? ==> Reached(Ensure(upd), was) == Ensure(upd))
    && Status(t, mtab, upd.Name()) == Reached(Ensure(upd), was)
    && (Ensure(upd) != "absent" ==>
          LeftLine(t, upd) && Answer(t, mtab, upd.Name()) == [Shown(upd, Reached(Ensure(upd), was))])
    && (Ensure(upd) == "absent" && was <= 1 ==> Answer(t, mtab, upd.Name()) == [])
  }

  /** The state that is asked for is the same, said or not. */
  lemma SameEnsure(t: Table, count: nat, mtab: Table, upd: Update, was: nat)
    requires LeftBy(t, mtab, upd, was)
    ensures var m2, again := Restarted(t, count, mtab), Repeated(t, mtab, upd);
            && FromGet(m2, again) && AccurateState(m2, again)
            && again.Name() == upd.Name() && Ensure(again) == Ensure(upd)
  {
    var m2, again := Restarted(t, count, mtab), Repeated(t, mtab, upd);
    RepeatedIsPaired(t, mtab, upd);
    hide GoodTable, Again, Answer, LeftLine, Status, Repeated;
    assert again.should == upd.should by { RepeatedShould(t, mtab, upd); }
    ActualFromGet(m2, again);
  }

  lemma RepeatedShould(t: Table, mtab: Table, upd: Update)
    requires GoodTable(t) && GoodTable(mtab)
    ensures Repeated(t, mtab, upd).should == upd.should
  {
  }

  /** Writing what is shown writes the same line, and shows the same. */
  lemma ShownWritesSame(upd: Update, st: string, ens: string)
    ensures var again := Update(Shown(upd, st), upd.should);
            && MountRecord(again) == MountRecord(upd) && MountChildren(again) == MountChildren(upd)
            && Shown(again, ens) == Shown(upd, ens)
            && again.At("device").IsSet() && again.At("fstype").IsSet()
  {
    ShownFields(upd, st);
    FieldAgain(upd, st, "device", upd.At("device").ToString());
    FieldAgain(upd, st, "fstype", upd.At("fstype").ToString());
    FieldAgain(upd, st, "options", TextOr(upd.At("options"), "defaults"));
    FieldAgain(upd, st, "dump", TextOr(upd.At("dump"), "0"));
    FieldAgain(upd, st, "pass", TextOr(upd.At("pass"), "0"));
    hide Update.At, Value.ToString;
  }

  lemma ShownFields(upd: Update, st: string)
    ensures var r := Shown(upd, st);
            && r.name == upd.Name()
            && r.Get("device") == Str(upd.At("device").ToString())
            && r.Get("fstype") == Str(upd.At("fstype").ToString())
            && r.Get("options") == Str(TextOr(upd.At("options"), "defaults"))
            && r.Get("dump") == Str(TextOr(upd.At("dump"), "0")) && r.Get("pass") == Str(TextOr(upd.At("pass"), "0"))
  {
    hide Update.At, Value.ToString, TextOr;
  }

  lemma FieldAgain(upd: Update, st: string, attr: string, text: string)
    requires Shown(upd, st).Get(attr) == Str(text)
    requires upd.At(attr).IsSet() ==> text == upd.At(attr).ToString()
    ensures var again := Update(Shown(upd, st), upd.should);
            again.At(attr).IsSet() && again.At(attr).ToString() == text
  {
    hide Shown;
  }

  /** The line that an update has left in a table that fits the lens is well formed. */
  lemma LeftLineWellFormed(t: Table, upd: Update)
    requires FitsTable(t) && LeftLine(t, upd)
    ensures WellFormed(MountRecord(upd))
  {
    RecordFits(upd);
    hide FromChildren, MountChildren, WellFormed, Count;
    var e :| e in t && e.tag != Comment && e.children == MountChildren(upd);
    var i :| 0 <= i < |t| && t[i] == e;
    assert FitsEntry(t[i]);
  }

  lemma RepeatFeasible(t: Table, count: nat, mtab: Table, upd: Update, was: nat)
    requires LeftBy(t, mtab, upd, was) && FitsTable(t)
    ensures Feasible(Restarted(t, count, mtab), Repeated(t, mtab, upd))
  {
    var m2, again := Restarted(t, count, mtab), Repeated(t, mtab, upd);
    SameEnsure(t, count, mtab, upd, was);
    hide GoodTable, Status, Answer, HasLine, WellFormed, MountRecord, FitsTable, Ensure, Shown, FromGet, Update.Present;
    if Ensure(upd) != "absent" {
      ShownWritesSame(upd, Reached(Ensure(upd), was), "");
      LeftLineWellFormed(t, upd);
      assert again == Update(Shown(upd, Reached(Ensure(upd), was)), upd.should);
    }
  }

  /** The state that a second run reaches is the one that the first has reached. */
  lemma ReachedAgain(t: Table, mtab: Table, upd: Update, was: nat)
    requires LeftBy(t, mtab, upd, was) && (Ensure(upd) in {"unmounted", "absent"} ==> was <= 1)
    ensures Reached(Ensure(upd), Count(mtab, upd.Name())) == Reached(Ensure(upd), was)
    ensures Ensure(upd) == "absent" ==> Count(mtab, upd.Name()) == 0
  {
    hide GoodTable, Answer, HasLine, Count, Shown, Ensure;
  }

  /* ---- the second run ---- */

  lemma AllLeft(m: Mounts, upds: seq<Update>, envs: nat -> set<Step>, t: Table, mtab: Table, names: set<string>)
    requires forall u :: u in upds ==> AccurateState(m, u)
    requires SameNames(upds) && SetEach(m, upds, envs).Done? && Shows(t, mtab, m, upds, names)
    ensures forall u :: u in upds ==> LeftBy(t, mtab, u, Count(m.mtab, u.Name()))
  {
    hide SetEach, GoodTable, Answer, LeftLine, Count, Shown;
    forall u | u in upds ensures LeftBy(t, mtab, u, Count(m.mtab, u.Name())) {
      hide Status, AccurateState, Reached;
      LegalEnsure(m, upds, envs, u);
      UnsaidIsKept(m, u);
    }
  }

  /** A state that was not asked for is the one that was there. */
  lemma UnsaidIsKept(m: Mounts, u: Update)
    requires AccurateState(m, u) && Ensure(u) in {"present", "absent", "unmounted", "mounted"}
    ensures !u.should.Get("ensure").Str? ==> Reached(Ensure(u), Count(m.mtab, u.Name())) == Ensure(u)
  {
    hide Count;
  }

  /**
   * A second run with the same desired states, from what was saved and loaded again, succeeds if
   * nothing fails from outside. For each update it records nothing exactly under the conditions of
   * `SecondRunQuietIff`. If no name that is to be unmounted or absent was mounted twice, `get` then
   * shows the same of every name.
   */
  lemma SecondRun(m: Mounts, upds: seq<Update>, envs: nat -> set<Step>, envs2: nat -> set<Step>, count: nat)
      returns (t: Table, t2: Table)
    requires Good(m) && DistinctUpdates(upds) && SameNames(upds)
    requires forall u :: u in upds ==> AccurateState(m, u)
    requires SetAll(m, upds, envs).Done? && forall k: nat :: envs2(k) == {}
    ensures var m' := SetAll(m, upds, envs).m;
            && FitsTable(m'.saved) && ParseTable(PrintTable(m'.saved)) == Some(t)
            && GoodTable(t) && GoodTable(m'.mtab)
            && var second := SetAll(Restarted(t, count, m'.mtab), PairAll(GetSpec(t, m'.mtab), Shoulds(upds)), envs2);
               && second.Done?
               && (forall u :: u in upds ==>
                     (Entries(second.m.log, u.Name()) == [] <==>
                        if Ensure(u) == "absent" then !u.should.Get("ensure").IsSet()
                        else Rests(u.should, Count(m.mtab, u.Name()))))
               && FitsTable(second.m.saved) && ParseTable(PrintTable(second.m.saved)) == Some(t2)
               && GoodTable(t2) && GoodTable(second.m.mtab)
               && (NoneMountedTwice(m, upds) ==>
                     forall n :: Answer(t2, second.m.mtab, n) == Answer(t, m'.mtab, n))
  {
    hide SetAll, Good, FitsTable, GoodTable, AccurateState, DistinctUpdates, Answer, Count, Status, SameNames, Shows,
         Repeats, Repeated, Restarted, PairAll, GetSpec, Rests, NoneMountedTwice, Ensure, Update.Name, Feasible, LogOf;
    var names := set u | u in upds :: u.Name();
    t := RunReloads(m, upds, envs);
    var m' := SetAll(m, upds, envs).m;
    EachDone(m, upds, envs);
    ShowsGood(t, m'.mtab, m, upds, names);
    AllLeft(m, upds, envs, t, m'.mtab, names);
    var m2, again := Restarted(t, count, m'.mtab), Repeats(t, m'.mtab, upds);
    RepeatsArePaired(t, m'.mtab, upds);
    RepeatsFacts(t, m'.mtab, upds);
    LoadedIsGood(m'.saved, t, count, m'.mtab);
    RestartedParts(t, count, m'.mtab);
    forall a | a in again ensures AccurateState(m2, a) && Feasible(m2, a) {
      var u :| u in upds && a == Repeated(t, m'.mtab, u);
      hide LeftBy;
      SameEnsure(t, count, m'.mtab, u, Count(m.mtab, u.Name()));
      RepeatFeasible(t, count, m'.mtab, u, Count(m.mtab, u.Name()));
    }
    RunSucceedsIff(m2, again, envs2);
    t2 := RunReloads(m2, again, envs2);
    var second := SetAll(m2, again, envs2).m;
    ShowsGood(t2, second.mtab, m2, again, names);
    forall u | u in upds
      ensures Entries(second.log, u.Name()) == [] <==>
                if Ensure(u) == "absent" then !u.should.Get("ensure").IsSet()
                else Rests(u.should, Count(m.mtab, u.Name()))
    {
      SecondLog(m, upds, envs, u, t, m2, again, envs2);
    }
    if NoneMountedTwice(m, upds) {
      forall n ensures Answer(t2, second.mtab, n) == Answer(t, m'.mtab, n) {
        SecondAnswer(m, upds, t, count, m'.mtab, t2, second.mtab, names, n);
      }
    }
  }

  predicate NoneMountedTwice(m: Mounts, upds: seq<Update>) {
    forall u :: u in upds && Ensure(u) in {"unmounted", "absent"} ==> Count(m.mtab, u.Name()) <= 1
  }

  lemma EachDone(m: Mounts, upds: seq<Update>, envs: nat -> set<Step>)
    requires SetAll(m, upds, envs).Done?
    ensures SetEach(m, upds, envs).Done?
    ensures SetAll(m, upds, envs).m.log == SetEach(m, upds, envs).m.log
  {
    hide SetEach, FitsTable;
  }

  lemma ShowsGood(t: Table, mtab: Table, m: Mounts, upds: seq<Update>, names: set<string>)
    requires Shows(t, mtab, m, upds, names)
    ensures GoodTable(t) && GoodTable(mtab)
  {
  }

  lemma RestartedParts(t: Table, count: nat, mtab: Table)
    ensures var m2 := Restarted(t, count, mtab); m2.fstab == t && m2.mtab == mtab && m2.log == map[]
  {
  }

  /** What the second run records of an update. */
  lemma SecondLog(m: Mounts, upds: seq<Update>, envs: nat -> set<Step>, u: Update, t: Table,
                  m2: Mounts, again: seq<Update>, envs2: nat -> set<Step>)
    requires Good(m) && DistinctUpdates(upds) && u in upds && u.should.name == u.Name()
    requires forall v :: v in upds ==> AccurateState(m, v)
    requires SetAll(m, upds, envs).Done? && FitsTable(SetAll(m, upds, envs).m.saved)
    requires ParseTable(PrintTable(SetAll(m, upds, envs).m.saved)) == Some(t)
    requires GoodTable(t) && GoodTable(SetAll(m, upds, envs).m.mtab)
    requires DistinctUpdates(again) && SetAll(m2, again, envs2).Done? && m2.log == map[]
    requires Repeated(t, SetAll(m, upds, envs).m.mtab, u) in again
    ensures Entries(SetAll(m2, again, envs2).m.log, u.Name()) == [] <==>
              if Ensure(u) == "absent" then !u.should.Get("ensure").IsSet()
              else Rests(u.should, Count(m.mtab, u.Name()))
  {
    hide SetAll, Good, FitsTable, GoodTable, AccurateState, DistinctUpdates, Count, Rests, Ensure, LogOf,
         Again, Repeated;
    var mtab := SetAll(m, upds, envs).m.mtab;
    EachDone(m2, again, envs2);
    hide SetEach;
    EachRecords(m2, again, envs2);
    RepeatedIsPaired(t, mtab, u);
    var t' := SecondRunQuietIff(m, upds, envs, u);
    assert t' == t;
  }

  /** What `get` shows of a name after the second run. */
  lemma SecondAnswer(m: Mounts, upds: seq<Update>, t: Table, count: nat, mtab: Table, t2: Table, mtab2: Table,
                     names: set<string>, n: string)
    requires GoodTable(t) && GoodTable(mtab) && GoodTable(t2) && GoodTable(mtab2)
    requires names == set u | u in upds :: u.Name()
    requires forall u :: u in upds ==> LeftBy(t, mtab, u, Count(m.mtab, u.Name()))
    requires NoneMountedTwice(m, upds)
    requires var again := Repeats(t, mtab, upds);
             && Shows(t2, mtab2, Restarted(t, count, mtab), again, names)
             && forall u :: u in upds ==> Repeated(t, mtab, u) in again
    ensures Answer(t2, mtab2, n) == Answer(t, mtab, n)
  {
    hide GoodTable, Answer, Count, Status, LeftLine, Repeats, Repeated, Ensure, Shown, Reached;
    if n in names {
      var u :| u in upds && u.Name() == n;
      var was, a := Count(m.mtab, n), Repeated(t, mtab, u);
      SameEnsure(t, count, mtab, u, was);
      ReachedAgain(t, mtab, u, was);
      assert a.Name() == n && Ensure(a) == Ensure(u);
      if Ensure(u) != "absent" {
        RepeatedOfShown(t, mtab, u, Reached(Ensure(u), was));
        ShownWritesSame(u, Reached(Ensure(u), was), Reached(Ensure(u), was));
      }
    }
  }

  lemma RepeatedOfShown(t: Table, mtab: Table, upd: Update, st: string)
    requires GoodTable(t) && GoodTable(mtab) && Answer(t, mtab, upd.Name()) == [Shown(upd, st)]
    ensures Repeated(t, mtab, upd) == Update(Shown(upd, st), upd.should)
  {
    hide Answer, Shown, GoodTable;
  }
}
