/** Writing the hosts table and reading it back: a simulation on lists of resources. */
module HostTheorems {
  import opened Core
  import opened Changes
  import opened Augeas
  import opened Provider
  import opened Host

  /* ---- the same updates on a list of resources ---- */

  function Position(rs: seq<Resource>, name: string): (p: nat)
    ensures p <= |rs|
  {
    if rs == [] || rs[0].name == name then 0 else 1 + Position(rs[1..], name)
  }

  /** What one update means for the list that `get` returns. */
  function TableSet(rs: seq<Resource>, upd: Update): seq<Resource> {
    var p := Position(rs, upd.Name());
    if Ensure(upd) == "present" then (if p < |rs| then rs[p := Shown(upd)] else rs + [Shown(upd)])
    else (if p < |rs| then rs[..p] + rs[p + 1..] else rs)
  }

  lemma {:induction false} PositionAfter(a: seq<Resource>, b: seq<Resource>, name: string)
    requires !HasName(a, name)
    ensures Position(a + b, name) == |a| + Position(b, name)
  {
    if a == [] {
      assert a + b == b;
    } else {
      assert a[0] in a && (a + b)[1..] == a[1..] + b;
      assert forall r :: r in a[1..] ==> r in a;
      PositionAfter(a[1..], b, name);
    }
  }

  /* ---- matches and names ---- */

  ghost predicate Ok(st: State) {
    GoodTable(st.entries) && UniqueLabels(st.entries) && Counted(st.entries, st.count)
  }

  lemma MatchIsName(e: Entry, name: string)
    requires GoodLine(e)
    ensures HasValue(e, Canonical, name) <==> e.tag != Comment && Show(e).name == name
  {
  }

  lemma {:induction false} MatchesAreNames(t: Table, name: string)
    requires GoodTable(t)
    ensures |Matches(t, Canonical, name)| == |Named(View(t), name)|
    ensures Matches(t, Canonical, name) == [] <==> !HasName(View(t), name)
  {
    if t != [] {
      MatchIsName(t[0], name);
      MatchesAreNames(t[1..], name);
      hide GoodLine, HasValue, Show;
      NamedEmpty(View(t), name);
    }
  }

  lemma NamedEmpty(rs: seq<Resource>, name: string)
    ensures Named(rs, name) == [] <==> !HasName(rs, name)
  {
    NamedExact(rs, name);
    assert Named(rs, name) != [] ==> Named(rs, name)[0] in Named(rs, name);
  }

  lemma GoodParts(a: Table, e: Entry, b: Table)
    requires GoodTable(a + [e] + b)
    ensures GoodTable(a) && GoodLine(e) && GoodTable(b)
  {
    var t := a + [e] + b;
    assert t[|a|] == e;
    assert forall i :: 0 <= i < |a| ==> a[i] == t[i];
    assert forall i :: 0 <= i < |b| ==> b[i] == t[|a| + 1 + i];
  }

  lemma GoodWhole(a: Table, e: Entry, b: Table)
    requires GoodTable(a) && GoodLine(e) && GoodTable(b)
    ensures GoodTable(a + [e] + b) && GoodTable([e])
    ensures View(a + [e] + b) == View(a) + View([e]) + View(b)
  {
    ViewAppend(a, [e]);
    ViewAppend(a + [e], b);
  }

  /* ---- one update ---- */

  /** The line of the only match, and what is around it. */
  lemma SplitAtMatch(t: Table, count: nat, name: string) returns (a: Table, e: Entry, b: Table)
    requires GoodTable(t) && UniqueLabels(t)
    requires |Matches(t, Canonical, name)| == 1
    ensures t == a + [e] + b && GoodTable(a) && GoodLine(e) && GoodTable(b)
    ensures Matches(t, Canonical, name) == [e.tag] && e.tag != Comment && Show(e).name == name
    ensures IndexOf(t, e.tag) == |a|
    ensures !HasName(View(a), name)
  {
    var i := OneMatch(t, Canonical, name);
    a, e, b := t[..i], t[i], t[i + 1..];
    assert t == a + [e] + b;
    GoodParts(a, e, b);
    MatchIsName(e, name);
    IndexUnique(t, i);
    MatchesAreNames(a, name);
  }

  ghost predicate Simulates(st: State, upd: Update, st': State) {
    && Ok(st) && Ok(st')
    && View(st'.entries) == TableSet(View(st.entries), upd)
    && |Named(View(st.entries), upd.Name())| <= 1
  }

  lemma TableSetAt(a: seq<Resource>, r: Resource, b: seq<Resource>, upd: Update)
    requires !HasName(a, upd.Name()) && r.name == upd.Name()
    ensures TableSet(a + [r] + b, upd) == if Ensure(upd) == "present" then a + [Shown(upd)] + b else a + b
  {
    hide Shown, Ensure;
    assert a + [r] + b == a + ([r] + b);
    PositionAfter(a, [r] + b, upd.Name());
  }

  lemma TableSetNew(rs: seq<Resource>, upd: Update)
    requires !HasName(rs, upd.Name())
    ensures TableSet(rs, upd) == if Ensure(upd) == "present" then rs + [Shown(upd)] else rs
  {
    hide Shown, Ensure;
    assert rs + [] == rs;
    PositionAfter(rs, [], upd.Name());
  }

  /** A line that was just written, as a table of its own. */
  lemma WrittenLine(upd: Update, tag: Label, text: string)
    requires tag != Comment
    ensures HostChildren(upd) != []
    ensures GoodLine(Entry(tag, text, HostChildren(upd))) && GoodTable([Entry(tag, text, HostChildren(upd))])
    ensures View([Entry(tag, text, HostChildren(upd))]) == [Shown(upd)]
  {
    WriteThenRead(upd, tag, text);
    HostChildrenValues(upd, Canonical);
    hide HostChildren, Shown, Show, GoodEntry;
  }

  lemma NewEntrySim(st: State, upd: Update)
    requires Ok(st) && Ensure(upd) == "present" && Matches(st.entries, Canonical, upd.Name()) == []
    ensures SetPresent(st, upd).Done? && Simulates(st, upd, SetPresent(st, upd).st)
  {
    hide HostChildren, Shown, Show, HasValue, GoodLine, GoodTable, Ensure, TableSet, Matches, UniqueLabels,
         Counted, View;
    var t, cs := st.entries, HostChildren(upd);
    var e := Entry(Fresh(st.count + 1), "", cs);
    WrittenLine(upd, e.tag, "");
    MatchesAreNames(t, upd.Name());
    LabelsAfterAppend(t, st.count, cs);
    ViewAppend(t, [e]);
    TableSetNew(View(t), upd);
    assert Written(t, e.tag, cs) == t + [e];
  }

  lemma ReplacedEntrySim(st: State, upd: Update)
    requires Ok(st) && Ensure(upd) == "present" && |Matches(st.entries, Canonical, upd.Name())| == 1
    ensures SetPresent(st, upd).Done? && Simulates(st, upd, SetPresent(st, upd).st)
  {
    hide HostChildren, Shown, Show, HasValue, GoodLine, GoodTable, Ensure, TableSet, Matches, UniqueLabels,
         Counted, View;
    var t, cs := st.entries, HostChildren(upd);
    MatchesAreNames(t, upd.Name());
    var a, e, b := SplitAtMatch(t, st.count, upd.Name());
    var e' := e.(children := cs);
    WrittenLine(upd, e.tag, e.text);
    LabelsAfterReplace(t, st.count, |a|, cs);
    assert t[|a|] == e;
    assert t[|a| := e'] == a + [e'] + b;
    GoodWhole(a, e, b);
    GoodWhole(a, e', b);
    ViewLine(e);
    TableSetAt(View(a), Show(e), View(b), upd);
    assert Written(t, e.tag, cs) == t[|a| := e'];
  }

  lemma ViewLine(e: Entry)
    requires GoodLine(e) && e.tag != Comment
    ensures GoodEntry(e) && GoodTable([e]) && View([e]) == [Show(e)]
  {
    hide Show, GoodEntry;
  }

  lemma SetPresentSim(st: State, upd: Update)
    requires Ok(st) && Ensure(upd) == "present" && SetPresent(st, upd).Done?
    ensures Simulates(st, upd, SetPresent(st, upd).st)
  {
    hide Simulates, Ok, Ensure;
    if Matches(st.entries, Canonical, upd.Name()) == [] {
      NewEntrySim(st, upd);
    } else {
      ReplacedEntrySim(st, upd);
    }
  }

  lemma SetAbsentSim(st: State, upd: Update)
    requires Ok(st) && Ensure(upd) == "absent" && SetAbsent(st, upd).Done?
    ensures Simulates(st, upd, SetAbsent(st, upd).st)
  {
    var t, name := st.entries, upd.Name();
    MatchesAreNames(t, name);
    if Matches(t, Canonical, name) == [] {
      hide Shown, Show, HasValue, GoodEntry, TableSet, Matches;
      LabelsAfterAppend(t, st.count, []);
      TableSetNew(View(t), upd);
    } else {
      var a, e, b := SplitAtMatch(t, st.count, name);
      hide Shown, Show, HasValue, GoodEntry, TableSet, Matches;
      LabelsAfterRemove(t, st.count, |a|);
      RemovedEntrySim(t, a, e, b, upd);
    }
  }

  lemma RemovedEntrySim(t: Table, a: Table, e: Entry, b: Table, upd: Update)
    requires GoodTable(t)
    requires t == a + [e] + b && GoodTable(a) && GoodLine(e) && GoodTable(b)
    requires e.tag != Comment && Show(e).name == upd.Name() && IndexOf(t, e.tag) == |a|
    requires !HasName(View(a), upd.Name()) && Ensure(upd) == "absent"
    ensures GoodTable(RmEntry(t, e.tag))
    ensures View(RmEntry(t, e.tag)) == TableSet(View(t), upd)
  {
    ViewLine(e);
    hide Shown, Show, GoodLine, GoodTable, Ensure, TableSet, View, HasName;
    assert t[..|a|] + t[|a| + 1..] == a + b;
    GoodWhole(a, e, b);
    ViewAppend(a, b);
    TableSetAt(View(a), Show(e), View(b), upd);
  }

  /** A successful update does to what `get` shows just what `TableSet` says. */
  lemma SetOneSim(st: State, upd: Update)
    requires Ok(st) && SetOne(st, upd).Done?
    ensures Ensure(upd) in {"present", "absent"}
    ensures Simulates(st, upd, SetOne(st, upd).st)
  {
    var st1 := LogEnsure(st, upd);
    var st2 := LogProperties(st1, upd);
    hide SetPresent, SetAbsent, LogEnsure, LogProperties;
    if Ensure(upd) == "present" {
      LogsOnly(st, upd);
      SetPresentSim(st2, upd);
    } else {
      LogsOnly(st, upd);
      SetAbsentSim(st1, upd);
    }
  }

  lemma LogsOnly(st: State, upd: Update)
    ensures LogEnsure(st, upd).entries == st.entries && LogEnsure(st, upd).count == st.count
    ensures LogProperties(LogEnsure(st, upd), upd).entries == st.entries
    ensures LogProperties(LogEnsure(st, upd), upd).count == st.count
  {
  }

  /* ---- whole runs ---- */

  /** The resources with other names, in order. */
  function Others(rs: seq<Resource>, names: set<string>): seq<Resource> {
    if rs == [] then []
    else if rs[0].name in names then Others(rs[1..], names)
    else [rs[0]] + Others(rs[1..], names)
  }

  lemma {:induction false} OthersAppend(a: seq<Resource>, b: seq<Resource>, names: set<string>)
    ensures Others(a + b, names) == Others(a, names) + Others(b, names)
  {
    if a == [] {
      assert a + b == b;
    } else {
      assert (a + b)[0] == a[0] && (a + b)[1..] == a[1..] + b;
      OthersAppend(a[1..], b, names);
    }
  }

  lemma {:induction false} OthersTwice(rs: seq<Resource>, few: set<string>, many: set<string>)
    requires few <= many
    ensures Others(Others(rs, few), many) == Others(rs, many)
  {
    if rs != [] {
      OthersTwice(rs[1..], few, many);
    }
  }

  lemma HasNameTail(rs: seq<Resource>, name: string)
    requires rs != []
    ensures HasName(rs, name) <==> rs[0].name == name || HasName(rs[1..], name)
  {
    assert rs == [rs[0]] + rs[1..];
  }

  lemma {:induction false} PositionIs(rs: seq<Resource>, name: string)
    ensures var p := Position(rs, name);
            && (p < |rs| <==> HasName(rs, name))
            && (p < |rs| ==> rs[p].name == name)
  {
    if rs != [] {
      HasNameTail(rs, name);
      PositionIs(rs[1..], name);
    }
  }

  lemma NamedMiddle(a: seq<Resource>, mid: seq<Resource>, b: seq<Resource>, n: string)
    ensures Named(a + mid + b, n) == Named(a, n) + Named(mid, n) + Named(b, n)
  {
    NamedAppend(a + mid, b, n);
    NamedAppend(a, mid, n);
  }

  lemma OthersMiddle(a: seq<Resource>, mid: seq<Resource>, b: seq<Resource>, names: set<string>)
    ensures Others(a + mid + b, names) == Others(a, names) + Others(mid, names) + Others(b, names)
  {
    OthersAppend(a + mid, b, names);
    OthersAppend(a, mid, names);
  }

  /** The part of the list in which an update changes something: one resource before, at most one after. */
  lemma TableSetSplit(rs: seq<Resource>, upd: Update)
      returns (a: seq<Resource>, was: seq<Resource>, b: seq<Resource>)
    ensures rs == a + was + b && !HasName(a, upd.Name())
    ensures was == [] ==> !HasName(rs, upd.Name())
    ensures was != [] ==> |was| == 1 && was[0].name == upd.Name()
    ensures TableSet(rs, upd) == a + (if Ensure(upd) == "present" then [Shown(upd)] else []) + b
  {
    hide Shown, Ensure, HasName, Position;
    var p := Position(rs, upd.Name());
    PositionIs(rs, upd.Name());
    if p < |rs| {
      a, was, b := rs[..p], [rs[p]], rs[p + 1..];
      PositionBefore(rs, upd.Name());
      assert rs == a + was + b && rs[p := Shown(upd)] == a + [Shown(upd)] + b;
      assert a + [] + b == a + b;
    } else {
      a, was, b := rs, [], [];
      assert rs + [Shown(upd)] + [] == rs + [Shown(upd)];
      assert rs + [] + [] == rs;
    }
  }

  lemma {:induction false} PositionBefore(rs: seq<Resource>, name: string)
    ensures !HasName(rs[..Position(rs, name)], name)
  {
    var p := Position(rs, name);
    if rs != [] && rs[0].name != name {
      PositionBefore(rs[1..], name);
      assert rs[..p] == [rs[0]] + rs[1..][..p - 1];
    }
  }

  /** One update leaves the other resources alone and settles its own. */
  lemma TableSetExact(rs: seq<Resource>, upd: Update, n: string, names: set<string>)
    requires |Named(rs, upd.Name())| <= 1 && upd.Name() in names
    ensures n != upd.Name() ==> Named(TableSet(rs, upd), n) == Named(rs, n)
    ensures n == upd.Name() ==> Named(TableSet(rs, upd), n) == if Ensure(upd) == "present" then [Shown(upd)] else []
    ensures Others(TableSet(rs, upd), names) == Others(rs, names)
  {
    var a, was, b := TableSetSplit(rs, upd);
    var now := if Ensure(upd) == "present" then [Shown(upd)] else [];
    assert now != [] ==> now[0].name == upd.Name();
    hide Shown, TableSet, Ensure;
    NamedMiddle(a, was, b, n);
    NamedMiddle(a, now, b, n);
    OthersMiddle(a, was, b, names);
    OthersMiddle(a, now, b, names);
    NamedEmpty(a, n);
    NamedEmpty(rs, n);
    assert |was| == 1 ==> was[1..] == [];
    assert |now| == 1 ==> now[1..] == [];
  }

  function NamesIn(upds: seq<Update>): set<string> {
    set u | u in upds :: u.Name()
  }

  ghost predicate DistinctUpdates(upds: seq<Update>) {
    forall i, j :: 0 <= i < j < |upds| ==> upds[i].Name() != upds[j].Name()
  }

  /**
   * After a successful run over updates of distinct names, `get` shows exactly one resource,
   * the overlay, for each update that ends in "present", none for each that ends in "absent",
   * and all other resources unchanged and in the same order.
   */
  lemma {:induction false} RunShowsOverlays(st: State, upds: seq<Update>)
    requires Ok(st) && DistinctUpdates(upds) && SetAll(st, upds).Done?
    ensures Ok(SetAll(st, upds).st)
    ensures forall u :: u in upds ==> Ensure(u) in {"present", "absent"}
    ensures forall u :: u in upds ==> Named(View(SetAll(st, upds).st.entries), u.Name())
                                        == if Ensure(u) == "present" then [Shown(u)] else []
    ensures Others(View(SetAll(st, upds).st.entries), NamesIn(upds)) == Others(View(st.entries), NamesIn(upds))
    decreases |upds|
  {
    if upds == [] {
    } else {
      hide SetOne, Shown, Ensure, TableSet, Ok, GoodTable, Others, View, Named, SetAll, NamesIn, HasName;
      var rest, last := upds[..|upds| - 1], upds[|upds| - 1];
      SetAllLast(st, upds);
      RunShowsOverlays(st, rest);
      var st1, st' := SetAll(st, rest).st, SetAll(st, upds).st;
      SetOneSim(st1, last);
      LastShows(View(st1.entries), View(st'.entries), upds);
      NamesInFewer(upds);
      OthersTwice(View(st.entries), NamesIn(rest), NamesIn(upds));
      OthersTwice(View(st1.entries), NamesIn(rest), NamesIn(upds));
      UpdatesSplit(upds);
    }
  }

  lemma UpdatesSplit(upds: seq<Update>)
    requires upds != []
    ensures forall u :: u in upds ==> u in upds[..|upds| - 1] || u == upds[|upds| - 1]
  {
    assert upds == upds[..|upds| - 1] + [upds[|upds| - 1]];
  }

  lemma NamesInFewer(upds: seq<Update>)
    requires upds != []
    ensures NamesIn(upds[..|upds| - 1]) <= NamesIn(upds)
  {
  }

  lemma SetAllLast(st: State, upds: seq<Update>)
    requires upds != [] && SetAll(st, upds).Done?
    ensures SetAll(st, upds[..|upds| - 1]).Done?
    ensures SetAll(st, upds) == SetOne(SetAll(st, upds[..|upds| - 1]).st, upds[|upds| - 1])
  {
  }

  /** The last update settles its own resource and keeps what the earlier ones have settled. */
  lemma LastShows(rs: seq<Resource>, rs': seq<Resource>, upds: seq<Update>)
    requires upds != [] && DistinctUpdates(upds)
    requires rs' == TableSet(rs, upds[|upds| - 1]) && |Named(rs, upds[|upds| - 1].Name())| <= 1
    requires forall u :: u in upds[..|upds| - 1] ==>
               Named(rs, u.Name()) == if Ensure(u) == "present" then [Shown(u)] else []
    ensures forall u :: u in upds ==> Named(rs', u.Name()) == if Ensure(u) == "present" then [Shown(u)] else []
    ensures Others(rs', NamesIn(upds)) == Others(rs, NamesIn(upds))
  {
    hide Shown, Ensure, TableSet, Named, Others;
    var rest, last := upds[..|upds| - 1], upds[|upds| - 1];
    TableSetExact(rs, last, last.Name(), NamesIn(upds));
    forall u | u in upds ensures Named(rs', u.Name()) == if Ensure(u) == "present" then [Shown(u)] else [] {
      if u != last {
        var k :| 0 <= k < |upds| && upds[k] == u;
        assert rest[k] == u && u in rest;
        TableSetExact(rs, last, u.Name(), NamesIn(upds));
      }
    }
  }

  /* ---- when a run succeeds ---- */

  /** An update can be carried out if its goal is a legal one and its name is not on several lines. */
  predicate Possible(rs: seq<Resource>, upd: Update) {
    Ensure(upd) in {"present", "absent"} && |Named(rs, upd.Name())| <= 1
  }

  lemma SetOneSucceedsIff(st: State, upd: Update)
    requires Ok(st)
    ensures SetOne(st, upd).Done? <==> Possible(View(st.entries), upd)
  {
    LogsOnly(st, upd);
    MatchesAreNames(st.entries, upd.Name());
    hide GoodTable, UniqueLabels, Counted, View, Named, Matches, Written, RmEntry, LogEnsure, LogProperties;
  }

  /** Resources of other names are not among those that a run may change. */
  lemma {:induction false} NamedInOthers(rs: seq<Resource>, names: set<string>, n: string)
    requires n !in names
    ensures Named(Others(rs, names), n) == Named(rs, n)
  {
    if rs != [] {
      NamedInOthers(rs[1..], names, n);
      if rs[0].name !in names {
        assert Others(rs, names)[1..] == Others(rs[1..], names);
      }
    }
  }

  /** A run over distinct names succeeds exactly if each update can be carried out at its start. */
  lemma {:induction false} RunSucceedsIff(st: State, upds: seq<Update>)
    requires Ok(st) && DistinctUpdates(upds)
    ensures SetAll(st, upds).Done? <==> forall u :: u in upds ==> Possible(View(st.entries), u)
    decreases |upds|
  {
    if upds != [] {
      var rest, last := upds[..|upds| - 1], upds[|upds| - 1];
      UpdatesSplit(upds);
      assert DistinctUpdates(rest);
      LastIsNew(upds);
      hide SetOne, Ok, View, Possible, Named, DistinctUpdates, Ensure, Shown, GoodTable, Others;
      RunSucceedsIff(st, rest);
      if SetAll(st, rest).Done? {
        RunShowsOverlays(st, rest);
        var st1 := SetAll(st, rest).st;
        SetOneSucceedsIff(st1, last);
        NamedInOthers(View(st.entries), NamesIn(rest), last.Name());
        NamedInOthers(View(st1.entries), NamesIn(rest), last.Name());
        PossibleSame(View(st.entries), View(st1.entries), last);
      }
    }
  }

  lemma LastIsNew(upds: seq<Update>)
    requires upds != [] && DistinctUpdates(upds)
    ensures upds[|upds| - 1].Name() !in NamesIn(upds[..|upds| - 1]) && upds[|upds| - 1] in upds
    ensures forall u :: u in upds[..|upds| - 1] ==> u in upds
  {
  }

  lemma PossibleSame(rs: seq<Resource>, rs': seq<Resource>, upd: Update)
    requires Named(rs, upd.Name()) == Named(rs', upd.Name())
    ensures Possible(rs, upd) <==> Possible(rs', upd)
  {
  }

  /* ---- a second run, and what is reported ---- */

  predicate TextOrUnset(v: Value) {
    v.IsSet() ==> v.Str?
  }

  predicate FilledOrUnset(v: Value) {
    v.IsSet() ==> v.Array? && v.a != []
  }

  /** A desired state that reads back as it was written. */
  predicate ReadsBack(should: Resource) {
    && TextOrUnset(should.Get("ip")) && TextOrUnset(should.Get("comment"))
    && FilledOrUnset(should.Get("host_aliases"))
    && (should.Get("ensure").IsSet() ==> should.Get("ensure") == Str("present"))
  }

  function LogOf(upd: Update): seq<Change> {
    AddDiffs(AddDiff([], "ensure", upd), PROPERTIES, upd)
  }

  lemma LogIsWritten(st: State, upd: Update)
    requires Ensure(upd) == "present" && Entries(st.log, upd.Name()) == []
    ensures Entries(SetOne(st, upd).st.log, upd.Name()) == LogOf(upd)
  {
    hide HostChildren, Written, Matches, AddDiffs;
  }

  lemma LogOfEmpty(upd: Update)
    ensures LogOf(upd) == [] <==>
              !upd.Changed("ensure") && !upd.Changed("ip") && !upd.Changed("host_aliases") && !upd.Changed("comment")
  {
    var start := AddDiff([], "ensure", upd);
    AddDiffsExact(start, PROPERTIES, upd);
    hide AddDiffs;
    assert PROPERTIES[0] == "ip" && PROPERTIES[1] == "host_aliases" && PROPERTIES[2] == "comment";
  }

  lemma ShownAttrs(upd: Update)
    ensures Shown(upd).name == upd.Name()
    ensures Shown(upd).Get("ip") == TextOf(upd.At("ip"))
    ensures Shown(upd).Get("host_aliases") == ArrayOrUnset(AliasList(upd.At("host_aliases")))
    ensures Shown(upd).Get("comment") == TextOf(upd.At("comment"))
    ensures Shown(upd).Get("ensure") == Str("present") && Shown(upd).Get("target") == Str(TARGET)
  {
    hide Update.At, TextOf, AliasList;
  }

  /**
   * Running again from what the first run left shows the same, and it records no change exactly
   * when the desired state reads back as it was written. An empty list of aliases does not: it
   * is logged as a change every time.
   */
  lemma SecondRunQuietIff(upd: Update, again: Update)
    requires again == Update(Shown(upd), upd.should)
    ensures Shown(again) == Shown(upd)
    ensures LogOf(again) == [] <==> ReadsBack(upd.should)
  {
    ShownAttrs(upd);
    LogOfEmpty(again);
    hide Shown, LogOf;
    assert again.At("ip") == (if upd.should.Get("ip").IsSet() then upd.should.Get("ip") else TextOf(upd.At("ip")));
    SameShown(upd, again);
  }

  lemma SameShown(upd: Update, again: Update)
    requires again.Name() == upd.Name()
    requires TextOf(again.At("ip")) == TextOf(upd.At("ip")) && TextOf(again.At("comment")) == TextOf(upd.At("comment"))
    requires AliasList(again.At("host_aliases")) == AliasList(upd.At("host_aliases"))
    ensures Shown(again) == Shown(upd)
  {
  }

  /** What `get` may have found: a line of the table, or nothing. */
  ghost predicate FromGet(actual: Resource) {
    || actual.attrs == map["ensure" := Str("absent")]
    || exists ip: Value, aliases: Value, comment: Value ::
         && TextOrUnset(ip) && TextOrUnset(comment) && FilledOrUnset(aliases)
         && actual.attrs == HostAttrs(ip, aliases, comment)
  }

  const WRITABLE := {"ensure", "ip", "host_aliases", "comment"}

  predicate Writable(should: Resource) {
    && ReadsBack(should)
    && should.attrs.Keys <= WRITABLE
    && forall a :: a in should.attrs ==> should.attrs[a].IsSet()
  }

  lemma LogOfDiffs(upd: Update)
    requires upd.should.attrs.Keys <= WRITABLE
    requires forall a :: a in upd.should.attrs ==> upd.should.attrs[a].IsSet()
    ensures forall c :: c in LogOf(upd) ==> c.attr in upd.should.attrs && c.now == upd.should.attrs[c.attr]
    ensures forall a :: Conflicting(upd, a) ==> Logged(LogOf(upd), a)
  {
    var start := AddDiff([], "ensure", upd);
    AddDiffsExact(start, PROPERTIES, upd);
    var all := LogOf(upd);
    assert all == start + all[|start|..];
    assert PROPERTIES[0] == "ip" && PROPERTIES[1] == "host_aliases" && PROPERTIES[2] == "comment";
    hide AddDiffs;
    forall a | Conflicting(upd, a) ensures Logged(all, a) {
      var c := Change(a, upd.should.Get(a), upd.actual.Get(a));
      if a == "ensure" {
        assert start[0] == c;
      } else {
        assert a in PROPERTIES;
        assert c in all[|start|..];
      }
      assert c in all;
    }
  }

  lemma OverlayOfLine(upd: Update, ip: Value, aliases: Value, comment: Value)
    requires Writable(upd.should)
    requires TextOrUnset(ip) && TextOrUnset(comment) && FilledOrUnset(aliases)
    requires upd.actual.attrs == HostAttrs(ip, aliases, comment)
    ensures upd.actual.attrs + upd.should.attrs == Shown(upd).attrs
  {
    var m := upd.actual.attrs + upd.should.attrs;
    OverlayKeys(upd, ip, aliases, comment);
    OverlayValues(upd, ip, aliases, comment);
    hide Shown, HostAttrs, Writable;
    forall a ensures (a in m <==> a in Shown(upd).attrs) && (a in m ==> m[a] == Shown(upd).attrs[a]) {
    }
  }

  const ATTRIBUTES := {"ensure", "target", "ip", "host_aliases", "comment"}

  lemma OverlayKeys(upd: Update, ip: Value, aliases: Value, comment: Value)
    requires Writable(upd.should)
    requires TextOrUnset(ip) && TextOrUnset(comment) && FilledOrUnset(aliases)
    requires upd.actual.attrs == HostAttrs(ip, aliases, comment)
    ensures (upd.actual.attrs + upd.should.attrs).Keys <= ATTRIBUTES && Shown(upd).attrs.Keys <= ATTRIBUTES
  {
    hide ReadsBack;
  }

  /** The entries that stand for a line, key by key. */
  lemma HostEntries(ip: Value, aliases: Value, comment: Value)
    ensures var m := HostAttrs(ip, aliases, comment);
            && "ensure" in m && m["ensure"] == Str("present") && "target" in m && m["target"] == Str(TARGET)
            && ("ip" in m <==> ip.IsSet()) && (ip.IsSet() ==> m["ip"] == ip)
            && ("host_aliases" in m <==> aliases.IsSet()) && (aliases.IsSet() ==> m["host_aliases"] == aliases)
            && ("comment" in m <==> comment.IsSet()) && (comment.IsSet() ==> m["comment"] == comment)
  {
  }

  /** An overlay of set values holds what `At` says. */
  lemma OverlayAt(upd: Update, key: string)
    requires key in upd.should.attrs ==> upd.should.attrs[key].IsSet()
    requires key in upd.actual.attrs ==> upd.actual.attrs[key].IsSet()
    ensures var m := upd.actual.attrs + upd.should.attrs;
            (key in m <==> upd.At(key).IsSet()) && (key in m ==> m[key] == upd.At(key))
  {
  }

  lemma TextOfText(v: Value)
    requires TextOrUnset(v)
    ensures TextOf(v) == v
  {
  }

  lemma ListOfFilled(v: Value)
    requires FilledOrUnset(v)
    ensures ArrayOrUnset(AliasList(v)) == v
  {
  }

  /** What `At` says of an entry whose desired values can be read back. */
  lemma WritableAt(upd: Update, ip: Value, aliases: Value, comment: Value)
    requires Writable(upd.should)
    requires TextOrUnset(ip) && TextOrUnset(comment) && FilledOrUnset(aliases)
    requires upd.actual.attrs == HostAttrs(ip, aliases, comment)
    ensures upd.At("ensure") == Str("present") && upd.At("target") == Str(TARGET)
    ensures TextOrUnset(upd.At("ip")) && TextOrUnset(upd.At("comment")) && FilledOrUnset(upd.At("host_aliases"))
    ensures forall k :: k in upd.actual.attrs ==> upd.actual.attrs[k].IsSet()
    ensures forall k :: k in upd.should.attrs ==> upd.should.attrs[k].IsSet()
  {
    HostEntries(ip, aliases, comment);
  }

  lemma OverlayValues(upd: Update, ip: Value, aliases: Value, comment: Value)
    requires Writable(upd.should)
    requires TextOrUnset(ip) && TextOrUnset(comment) && FilledOrUnset(aliases)
    requires upd.actual.attrs == HostAttrs(ip, aliases, comment)
    ensures var m := upd.actual.attrs + upd.should.attrs;
            forall a :: a in ATTRIBUTES ==>
              (a in m <==> a in Shown(upd).attrs) && (a in m ==> m[a] == Shown(upd).attrs[a])
  {
    hide HostAttrs, Writable, TextOf, ArrayOrUnset, AliasList, FilledOrUnset, TextOrUnset, Update.At;
    WritableAt(upd, ip, aliases, comment);
    TextOfText(upd.At("ip"));
    TextOfText(upd.At("comment"));
    ListOfFilled(upd.At("host_aliases"));
    HostEntries(upd.At("ip"), upd.At("host_aliases"), upd.At("comment"));
    forall a | a in ATTRIBUTES
      ensures var m := upd.actual.attrs + upd.should.attrs;
              (a in m <==> a in Shown(upd).attrs) && (a in m ==> m[a] == Shown(upd).attrs[a])
    {
      OverlayAt(upd, a);
    }
  }

  lemma OverlayOfNothing(upd: Update)
    requires Writable(upd.should) && Ensure(upd) == "present"
    requires upd.actual.attrs == map["ensure" := Str("absent")]
    ensures upd.actual.attrs + upd.should.attrs == Shown(upd).attrs - {"target"}
  {
    ShownAttrs(upd);
    var m := upd.actual.attrs + upd.should.attrs;
    forall a ensures (a in m <==> a in Shown(upd).attrs && a != "target") && (a in m ==> m[a] == Shown(upd).attrs[a]) {
    }
  }

  /**
   * Truthful reporting: the resource that is reported after an update is the one that the next
   * `get` shows, except that a new entry is reported without the read-only "target".
   */
  lemma ReportIsWhatGetShows(upd: Update)
    requires Ensure(upd) == "present" && Writable(upd.should) && FromGet(upd.actual)
    ensures Report(upd, LogOf(upd)) ==
              if upd.actual.Get("ensure") == Str("absent")
              then Resource(upd.Name(), Shown(upd).attrs - {"target"}) else Shown(upd)
  {
    hide LogOf, Writable, Shown, HostAttrs, TextOrUnset, FilledOrUnset;
    WritableFacts(upd.should);
    LogOfDiffs(upd);
    ActualNotAbsent(upd);
    ReportOfDiffs(upd, LogOf(upd));
    if upd.actual.attrs == map["ensure" := Str("absent")] {
      OverlayOfNothing(upd);
    } else {
      var ip, aliases, comment :|
        && TextOrUnset(ip) && TextOrUnset(comment) && FilledOrUnset(aliases)
        && upd.actual.attrs == HostAttrs(ip, aliases, comment);
      HostEntries(ip, aliases, comment);
      OverlayOfLine(upd, ip, aliases, comment);
      ShownName(upd);
    }
  }

  lemma WritableFacts(should: Resource)
    requires Writable(should)
    ensures should.attrs.Keys <= WRITABLE
    ensures forall a :: a in should.attrs ==> should.attrs[a].IsSet()
  {
  }

  lemma ShownName(upd: Update)
    ensures Shown(upd) == Resource(upd.Name(), Shown(upd).attrs)
  {
  }

  lemma ActualNotAbsent(upd: Update)
    requires Ensure(upd) == "present" && Writable(upd.should)
    ensures !WantsAbsent(upd)
  {
  }
}
