/** A second run of the host provider: it finds what the first one has left. */
module HostStability {
  import opened Core
  import opened Changes
  import opened Provider
  import opened Augeas
  import opened Host
  import opened HostTheorems

  /** What `get` shows of a name after its update, if it is asked for that name. */
  function Left(upd: Update): Resource {
    if Ensure(upd) == "present" then Shown(upd) else AbsentResource(upd.Name())
  }

  function Again(upd: Update): Update {
    Update(Left(upd), upd.should)
  }

  function Agains(upds: seq<Update>): seq<Update> {
    seq(|upds|, i requires 0 <= i < |upds| => Again(upds[i]))
  }

  function Shoulds(upds: seq<Update>): seq<Resource> {
    seq(|upds|, i requires 0 <= i < |upds| => upds[i].should)
  }

  predicate SameNames(upds: seq<Update>) {
    forall u :: u in upds ==> u.should.name == u.Name()
  }

  /* ---- which updates a second run makes ---- */

  lemma {:induction false} NamedAddAbsent(rs: seq<Resource>, names: seq<string>, n: string)
    ensures Named(AddAbsentSpec(rs, names), n) ==
              if Named(rs, n) == [] && n in names then [AbsentResource(n)] else Named(rs, n)
    decreases |names|
  {
    if names != [] {
      assert names == [names[0]] + names[1..];
      var more := AbsentResource(names[0]);
      NamedSnoc(rs, more, n);
      NamedEmpty(rs, names[0]);
      hide Named;
      NamedAddAbsent(rs, names[1..], n);
      NamedAddAbsent(rs + [more], names[1..], n);
    }
  }

  /** What the first run has left in the list of resources. */
  ghost predicate Settled(rs: seq<Resource>, upds: seq<Update>) {
    forall u :: u in upds ==>
      && Ensure(u) in {"present", "absent"}
      && Named(rs, u.Name()) == if Ensure(u) == "present" then [Shown(u)] else []
  }

  lemma PairOneAgain(rs: seq<Resource>, upd: Update, names: seq<string>)
    requires Settled(rs, [upd]) && upd.should.name == upd.Name() && upd.Name() in names
    ensures PairOne(AddAbsentSpec(rs, names), upd.should) == [Again(upd)]
  {
    assert upd in [upd];
    hide Named, Shown, AddAbsentSpec, Ensure;
    NamedAddAbsent(rs, names, upd.Name());
  }

  lemma SettledParts(rs: seq<Resource>, upds: seq<Update>)
    requires Settled(rs, upds) && SameNames(upds) && upds != []
    ensures Settled(rs, [upds[0]]) && Settled(rs, upds[1..]) && SameNames(upds[1..])
    ensures upds[0].should.name == upds[0].Name() && upds[0] in upds && forall u :: u in upds[1..] ==> u in upds
  {
    hide Named, Shown, Ensure;
  }

  lemma ListsCons(upds: seq<Update>)
    requires upds != []
    ensures Shoulds(upds) == [upds[0].should] + Shoulds(upds[1..])
    ensures Agains(upds) == [Again(upds[0])] + Agains(upds[1..])
  {
    hide Again;
  }

  lemma {:induction false} PairsAgain(rs: seq<Resource>, upds: seq<Update>, names: seq<string>)
    requires Settled(rs, upds) && SameNames(upds) && forall u :: u in upds ==> u.Name() in names
    ensures PairAll(AddAbsentSpec(rs, names), Shoulds(upds)) == Agains(upds)
    decreases |upds|
  {
    if upds != [] {
      hide Settled, SameNames, AddAbsentSpec, PairOne, PairAll, Again, Update.Name, Shoulds, Agains;
      SettledParts(rs, upds);
      PairOneAgain(rs, upds[0], names);
      PairsAgain(rs, upds[1..], names);
      ListsCons(upds);
      PairAllCons(AddAbsentSpec(rs, names), upds[0].should, Shoulds(upds[1..]));
    }
  }

  /* ---- what it does to the table ---- */

  lemma AgainShows(upd: Update)
    requires Ensure(upd) in {"present", "absent"}
    ensures Ensure(Again(upd)) == Ensure(upd) && Again(upd).Name() == upd.Name()
    ensures Ensure(upd) == "present" ==> Shown(Again(upd)) == Shown(upd)
  {
    ShownAttrs(upd);
    if Ensure(upd) == "present" {
      SecondRunQuietIff(upd, Again(upd));
    }
    hide Shown;
  }

  /** Setting what is there already changes nothing. */
  lemma TableSetSame(rs: seq<Resource>, upd: Update)
    requires Ensure(upd) in {"present", "absent"}
    requires Named(rs, upd.Name()) == if Ensure(upd) == "present" then [Shown(upd)] else []
    ensures TableSet(rs, upd) == rs
  {
    hide TableSet, Shown, Named, HasName, Ensure;
    var a, was, b := TableSetSplit(rs, upd);
    NamedEmpty(rs, upd.Name());
    NamedExact(rs, upd.Name());
    if was != [] {
      assert was == [was[0]] && was[0] in rs;
      assert was[0] in Named(rs, upd.Name());
    }
  }

  /** What one update records in a new log. */
  function LogFor(upd: Update): seq<Change> {
    if Ensure(upd) == "present" then LogOf(upd) else AddDiff([], "ensure", upd)
  }

  lemma LogForWritten(st: State, upd: Update)
    requires SetOne(st, upd).Done? && Entries(st.log, upd.Name()) == []
    ensures Entries(SetOne(st, upd).st.log, upd.Name()) == LogFor(upd)
    ensures forall n :: n != upd.Name() ==> Entries(SetOne(st, upd).st.log, n) == Entries(st.log, n)
  {
    hide AddDiffs, Matches, Written, RmEntry, HostChildren;
  }

  /** After a run with a new log, each update has recorded its own differences. */
  ghost predicate Recorded(st: State, upds: seq<Update>) {
    && (forall u :: u in upds ==> Entries(st.log, u.Name()) == LogFor(u))
    && forall n :: (forall u :: u in upds ==> u.Name() != n) ==> Entries(st.log, n) == []
  }

  lemma SettledFront(rs: seq<Resource>, upds: seq<Update>)
    requires Settled(rs, upds) && upds != []
    ensures Settled(rs, upds[..|upds| - 1])
    ensures var last := upds[|upds| - 1];
            && Ensure(last) in {"present", "absent"}
            && Named(rs, last.Name()) == if Ensure(last) == "present" then [Shown(last)] else []
  {
    hide Named, Shown, Ensure;
    assert upds[|upds| - 1] in upds;
  }

  /** Updates of what is there already leave everything as it is. */
  lemma {:induction false} SettledRun(st: State, upds: seq<Update>)
    requires Ok(st) && DistinctUpdates(upds) && Settled(View(st.entries), upds) && st.log == map[]
    ensures SetAll(st, upds).Done? && Ok(SetAll(st, upds).st)
    ensures View(SetAll(st, upds).st.entries) == View(st.entries)
    ensures Recorded(SetAll(st, upds).st, upds)
    decreases |upds|
  {
    if upds != [] {
      var rest, last := upds[..|upds| - 1], upds[|upds| - 1];
      LastIsNew(upds);
      UpdatesSplit(upds);
      assert DistinctUpdates(rest);
      SettledFront(View(st.entries), upds);
      hide SetOne, Ok, View, Settled, Named, Shown, Ensure, DistinctUpdates, GoodTable, LogFor;
      SettledRun(st, rest);
      var st1 := SetAll(st, rest).st;
      LastSettled(st1, last);
    }
  }

  lemma LastSettled(st: State, upd: Update)
    requires Ok(st) && Ensure(upd) in {"present", "absent"} && Entries(st.log, upd.Name()) == []
    requires Named(View(st.entries), upd.Name()) == if Ensure(upd) == "present" then [Shown(upd)] else []
    ensures SetOne(st, upd).Done? && Ok(SetOne(st, upd).st)
    ensures View(SetOne(st, upd).st.entries) == View(st.entries)
    ensures Entries(SetOne(st, upd).st.log, upd.Name()) == LogFor(upd)
    ensures forall n :: n != upd.Name() ==> Entries(SetOne(st, upd).st.log, n) == Entries(st.log, n)
  {
    hide SetOne, Named, Shown, Ensure, GoodTable, UniqueLabels, Counted, View, LogFor, TableSet;
    SetOneSucceedsIff(st, upd);
    SetOneSim(st, upd);
    TableSetSame(View(st.entries), upd);
    LogForWritten(st, upd);
  }

  /* ---- what it records ---- */

  /** A desired state on which the provider comes to rest. */
  predicate Rests(upd: Update) {
    if Ensure(upd) == "present" then ReadsBack(upd.should) else TextOrUnset(upd.should.Get("ensure"))
  }

  lemma RestsIff(upd: Update)
    requires Ensure(upd) in {"present", "absent"}
    ensures LogFor(Again(upd)) == [] <==> Rests(upd)
  {
    AgainShows(upd);
    if Ensure(upd) == "present" {
      SecondRunQuietIff(upd, Again(upd));
      hide Shown, LogOf, Ensure, ReadsBack;
    }
  }

  lemma AgainsSettled(rs: seq<Resource>, upds: seq<Update>)
    requires Settled(rs, upds) && DistinctUpdates(upds)
    ensures Settled(rs, Agains(upds)) && DistinctUpdates(Agains(upds))
    ensures forall u :: u in upds ==> Again(u) in Agains(upds) && Again(u).Name() == u.Name()
  {
    hide Named, Shown, Ensure, Again;
    var agains := Agains(upds);
    forall i | 0 <= i < |upds|
      ensures agains[i].Name() == upds[i].Name() && Ensure(agains[i]) == Ensure(upds[i])
      ensures Ensure(upds[i]) == "present" ==> Shown(agains[i]) == Shown(upds[i])
      ensures Ensure(upds[i]) in {"present", "absent"}
    {
      assert upds[i] in upds;
      AgainShows(upds[i]);
    }
    forall u | u in upds ensures Again(u) in agains && Again(u).Name() == u.Name() {
      var i :| 0 <= i < |upds| && upds[i] == u;
      assert agains[i] == Again(u);
    }
  }

  lemma RunSettles(st: State, upds: seq<Update>)
    requires Ok(st) && DistinctUpdates(upds) && SetAll(st, upds).Done?
    ensures Ok(SetAll(st, upds).st) && Settled(View(SetAll(st, upds).st.entries), upds)
  {
    hide SetAll, Ok, View, Named, Shown, Ensure, DistinctUpdates, Others;
    RunShowsOverlays(st, upds);
  }

  /** The log of each update of a settled state is empty exactly if its desired state rests. */
  lemma SettledLogs(st: State, upds: seq<Update>)
    requires Ok(st) && Settled(View(st.entries), upds) && DistinctUpdates(upds) && st.log == map[]
    ensures var second := SetAll(st, Agains(upds));
            && second.Done? && Ok(second.st) && View(second.st.entries) == View(st.entries)
            && forall u :: u in upds ==> (Entries(second.st.log, u.Name()) == [] <==> Rests(u))
  {
    AgainsSettled(View(st.entries), upds);
    hide SetAll, Ok, View, Named, Shown, DistinctUpdates, GoodTable, LogFor, Rests, Again, Agains;
    SettledRun(st, Agains(upds));
    forall u | u in upds ensures Entries(SetAll(st, Agains(upds)).st.log, u.Name()) == [] <==> Rests(u) {
      hide Ensure;
      RestsIff(u);
    }
  }

  /**
   * A second run with the same desired states, from whatever tree shows what the first run has
   * left, succeeds and shows the same. For each update, it records nothing exactly if the desired
   * state can be read back as it was written.
   */
  lemma SecondRunIff(st: State, upds: seq<Update>, st2: State)
    requires Ok(st) && DistinctUpdates(upds) && SameNames(upds) && SetAll(st, upds).Done?
    requires Ok(SetAll(st, upds).st)  // by RunShowsOverlays
    requires Ok(st2) && View(st2.entries) == View(SetAll(st, upds).st.entries) && st2.log == map[]
    ensures var found := AddAbsentSpec(View(st2.entries), NamesOf(Shoulds(upds)));
            var second := SetAll(st2, PairAll(found, Shoulds(upds)));
            && second.Done? && Ok(second.st) && View(second.st.entries) == View(st2.entries)
            && forall u :: u in upds ==> (Entries(second.st.log, u.Name()) == [] <==> Rests(u))
  {
    hide SetAll, Ok, View, Settled, DistinctUpdates, GoodTable, Rests, AddAbsentSpec, PairAll, Again,
         SameNames, NamesOf;
    RunSettles(st, upds);
    NamesListed(upds);
    assert GoodTable(st2.entries) by { GoodIfOk(st2); }
    PairsAgain(View(st2.entries), upds, NamesOf(Shoulds(upds)));
    SettledLogs(st2, upds);
  }

  lemma GoodIfOk(st: State)
    requires Ok(st)
    ensures GoodTable(st.entries)
  {
  }

  lemma NamesListed(upds: seq<Update>)
    requires SameNames(upds)
    ensures forall u :: u in upds ==> u.Name() in NamesOf(Shoulds(upds))
  {
    var names := NamesOf(Shoulds(upds));
    forall u | u in upds ensures u.Name() in names {
      var i :| 0 <= i < |upds| && upds[i] == u;
      assert names[i] == u.Name();
    }
  }
}
