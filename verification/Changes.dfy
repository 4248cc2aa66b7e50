/** The change log: how differences between two states are recorded and reported. */
module Changes {
  import opened Core
  import opened Text

  /** The changes of each resource, by name. */
  type Log = map<string, seq<Change>>

  function Entries(log: Log, name: string): seq<Change> {
    if name in log then log[name] else []
  }

  /** What `changes_for` leaves behind: an entry for the name, empty if there was none. */
  function Touch(log: Log, name: string): Log {
    log[name := Entries(log, name)]
  }

  function Append(log: Log, name: string, c: Change): Log {
    log[name := Entries(log, name) + [c]]
  }

  predicate Logged(chgs: seq<Change>, attr: string) {
    exists c :: c in chgs && c.attr == attr
  }

  /* ---- changes::add ---- */

  function AddDiff(chgs: seq<Change>, attr: string, upd: Update): seq<Change> {
    if upd.Changed(attr)
    then chgs + [Change(attr, upd.should.Get(attr), upd.actual.Get(attr))]
    else chgs
  }

  function AddDiffs(chgs: seq<Change>, attrs: seq<string>, upd: Update): seq<Change>
    decreases |attrs|
  {
    if attrs == [] then chgs else AddDiffs(AddDiff(chgs, attrs[0], upd), attrs[1..], upd)
  }

  lemma {:induction false} AddDiffsSnoc(chgs: seq<Change>, attrs: seq<string>, last: string, upd: Update)
    ensures AddDiffs(chgs, attrs + [last], upd) == AddDiff(AddDiffs(chgs, attrs, upd), last, upd)
    decreases |attrs|
  {
    if attrs == [] {
      assert (attrs + [last])[1..] == [];
    } else {
      assert (attrs + [last])[1..] == attrs[1..] + [last];
      AddDiffsSnoc(AddDiff(chgs, attrs[0], upd), attrs[1..], last, upd);
    }
  }

  /** Diffing a list of attributes appends one change for each that differs, and nothing else. */
  lemma {:induction false} AddDiffsExact(chgs: seq<Change>, attrs: seq<string>, upd: Update)
    ensures chgs <= AddDiffs(chgs, attrs, upd)
    ensures forall c :: c in AddDiffs(chgs, attrs, upd)[|chgs|..] <==>
              c.attr in attrs && upd.Changed(c.attr)
              && c == Change(c.attr, upd.should.Get(c.attr), upd.actual.Get(c.attr))
    ensures AddDiffs(chgs, attrs, upd) == chgs <==> forall a :: a in attrs ==> !upd.Changed(a)
    decreases |attrs|
  {
    if attrs != [] {
      var next := AddDiff(chgs, attrs[0], upd);
      AddDiffsExact(next, attrs[1..], upd);
      var all := AddDiffs(chgs, attrs, upd);
      assert all[|chgs|..] == next[|chgs|..] + all[|next|..];
      assert attrs == [attrs[0]] + attrs[1..];
      assert forall a :: a in attrs <==> a == attrs[0] || a in attrs[1..];
    }
  }

  /** The entry of one attribute, if it is wanted and differs. */
  function One(upd: Update, attr: string): seq<Change> {
    var now, was := upd.should.Get(attr), upd.actual.Get(attr);
    if now != NoValue && now != was then [Change(attr, now, was)] else []
  }

  lemma AddDiffIsOne(chgs: seq<Change>, attr: string, upd: Update)
    ensures AddDiff(chgs, attr, upd) == chgs + One(upd, attr)
  {
  }

  lemma AddDiffsCons(chgs: seq<Change>, attr: string, attrs: seq<string>, upd: Update)
    ensures AddDiffs(chgs, [attr] + attrs, upd) == AddDiffs(chgs + One(upd, attr), attrs, upd)
  {
    AddDiffIsOne(chgs, attr, upd);
    hide One, AddDiff;
    assert ([attr] + attrs)[0] == attr && ([attr] + attrs)[1..] == attrs;
  }

  lemma AddNoDiffs(chgs: seq<Change>, upd: Update)
    ensures AddDiffs(chgs, [], upd) == chgs
  {
  }

  /* ---- changes::maybe_add ---- */

  predicate WantsAbsent(upd: Update) {
    upd.At("ensure") == Str("absent")
  }

  /** An attribute that `maybe_add` must see in the log when the resource is not to be absent. */
  predicate Differs(upd: Update, attr: string) {
    attr in upd.should.attrs && upd.should.attrs[attr] != upd.actual.Get(attr)
  }

  function MaybeAddOne(chgs: seq<Change>, attr: string, upd: Update): seq<Change>
    requires attr in upd.should.attrs
  {
    if Differs(upd, attr) && !Logged(chgs, attr)
    then chgs + [Change(attr, upd.should.attrs[attr], upd.actual.Get(attr))]
    else chgs
  }

  function MaybeAddEach(chgs: seq<Change>, attrs: seq<string>, upd: Update): seq<Change>
    requires forall a :: a in attrs ==> a in upd.should.attrs
    decreases |attrs|
  {
    if attrs == [] then chgs
    else MaybeAddEach(MaybeAddOne(chgs, attrs[0], upd), attrs[1..], upd)
  }

  ghost function MaybeAddKeys(chgs: seq<Change>, keys: set<string>, upd: Update): seq<Change>
    requires keys <= upd.should.attrs.Keys
  {
    MaybeAddEach(chgs, Sorted(keys), upd)
  }

  lemma MaybeAddKeysStep(chgs: seq<Change>, keys: set<string>, attr: string, upd: Update)
    requires keys <= upd.should.attrs.Keys && IsLeast(attr, keys)
    ensures MaybeAddKeys(chgs, keys, upd) == MaybeAddKeys(MaybeAddOne(chgs, attr, upd), keys - {attr}, upd)
  {
    SortedStep(attr, keys);
    assert Sorted(keys)[1..] == Sorted(keys - {attr});
  }

  lemma MaybeAddKeysNone(chgs: seq<Change>, upd: Update)
    ensures MaybeAddKeys(chgs, {}, upd) == chgs
  {
  }

  ghost function MaybeAdd(chgs: seq<Change>, upd: Update): seq<Change> {
    if WantsAbsent(upd)
    then if Logged(chgs, "ensure") then chgs else AddDiff(chgs, "ensure", upd)
    else MaybeAddKeys(chgs, upd.should.attrs.Keys, upd)
  }

  /** The attributes for which `maybe_add` owes an entry. */
  predicate Owed(chgs: seq<Change>, attr: string, upd: Update) {
    && !Logged(chgs, attr)
    && if WantsAbsent(upd) then attr == "ensure" && upd.Changed("ensure") else Differs(upd, attr)
  }

  /** The entry that `maybe_add` makes for an attribute that differs. */
  predicate IsDiff(c: Change, upd: Update) {
    && Differs(upd, c.attr)
    && c == Change(c.attr, upd.should.attrs[c.attr], upd.actual.Get(c.attr))
  }

  lemma {:induction false} MaybeAddEachAdds(chgs: seq<Change>, attrs: seq<string>, upd: Update)
    requires forall a :: a in attrs ==> a in upd.should.attrs
    ensures var r := MaybeAddEach(chgs, attrs, upd);
            && chgs <= r
            && forall c :: c in r[|chgs|..] <==> c.attr in attrs && IsDiff(c, upd) && !Logged(chgs, c.attr)
    decreases |attrs|
  {
    if attrs != [] {
      var a := attrs[0];
      var next := MaybeAddOne(chgs, a, upd);
      MaybeAddEachAdds(next, attrs[1..], upd);
      var r := MaybeAddEach(chgs, attrs, upd);
      assert attrs == [a] + attrs[1..];
      hide MaybeAddEach, Logged, IsDiff;
      assert r[|chgs|..] == next[|chgs|..] + r[|next|..];
      MaybeAddOneAdds(chgs, a, upd);
    }
  }

  lemma MaybeAddOneAdds(chgs: seq<Change>, a: string, upd: Update)
    requires a in upd.should.attrs
    ensures var next := MaybeAddOne(chgs, a, upd);
            && chgs <= next
            && (forall c :: c in next[|chgs|..] <==> c.attr == a && IsDiff(c, upd) && !Logged(chgs, c.attr))
            && (forall x :: x != a ==> (Logged(next, x) <==> Logged(chgs, x)))
            && (Logged(next, a) <==> Logged(chgs, a) || next != chgs)
    ensures !Differs(upd, a) ==> forall c :: IsDiff(c, upd) ==> c.attr != a
  {
    var next := MaybeAddOne(chgs, a, upd);
    if next != chgs {
      assert next[|chgs|] in next;
    }
  }

  predicate DistinctAttrs(chgs: seq<Change>) {
    forall i, j :: 0 <= i < j < |chgs| ==> chgs[i].attr != chgs[j].attr
  }

  lemma DistinctCons(c: Change, chgs: seq<Change>)
    requires DistinctAttrs(chgs) && !Logged(chgs, c.attr)
    ensures DistinctAttrs([c] + chgs)
  {
    var all := [c] + chgs;
    forall j | 1 <= j < |all| ensures all[j].attr != c.attr {
      assert all[j] == chgs[j - 1] && chgs[j - 1] in chgs;
    }
  }

  lemma {:induction false} MaybeAddEachDistinct(chgs: seq<Change>, attrs: seq<string>, upd: Update)
    requires forall a :: a in attrs ==> a in upd.should.attrs
    ensures chgs <= MaybeAddEach(chgs, attrs, upd)
    ensures DistinctAttrs(MaybeAddEach(chgs, attrs, upd)[|chgs|..])
    decreases |attrs|
  {
    MaybeAddEachAdds(chgs, attrs, upd);
    if attrs != [] {
      var next := MaybeAddOne(chgs, attrs[0], upd);
      MaybeAddEachDistinct(next, attrs[1..], upd);
      MaybeAddEachAdds(next, attrs[1..], upd);
      var r := MaybeAddEach(chgs, attrs, upd);
      assert r == MaybeAddEach(next, attrs[1..], upd);
      hide MaybeAddEach;
      assert r[|chgs|..] == next[|chgs|..] + r[|next|..];
      if next != chgs {
        var c := next[|chgs|];
        assert c in next && Logged(next, c.attr);
        DistinctCons(c, r[|next|..]);
      }
    }
  }

  /**
   * `maybe_add` keeps the log as an unchanged prefix and appends exactly one entry, with the
   * right values, for each attribute that differs and has no entry yet.
   */
  lemma MaybeAddExact(chgs: seq<Change>, upd: Update)
    ensures chgs <= MaybeAdd(chgs, upd)
    ensures forall c :: c in MaybeAdd(chgs, upd)[|chgs|..] <==>
              Owed(chgs, c.attr, upd)
              && c == Change(c.attr, upd.should.Get(c.attr), upd.actual.Get(c.attr))
    ensures DistinctAttrs(MaybeAdd(chgs, upd)[|chgs|..])
  {
    if !WantsAbsent(upd) {
      MaybeAddEachAdds(chgs, Sorted(upd.should.attrs.Keys), upd);
      MaybeAddEachDistinct(chgs, Sorted(upd.should.attrs.Keys), upd);
    }
  }

  predicate AttrsIn(chgs: seq<Change>, attrs: seq<string>) {
    forall c :: c in chgs ==> c.attr in attrs
  }

  ghost predicate InOrderOfAttrs(chgs: seq<Change>) {
    forall i, j :: 0 <= i < j < |chgs| ==> Before(chgs[i].attr, chgs[j].attr)
  }

  lemma InOrderCons(first: seq<Change>, attr: string, rest: seq<Change>, attrs: seq<string>)
    requires first == [] || (|first| == 1 && first[0].attr == attr)
    requires AttrsIn(rest, attrs) && InOrderOfAttrs(rest) && forall a :: a in attrs ==> Before(attr, a)
    ensures AttrsIn(first + rest, [attr] + attrs) && InOrderOfAttrs(first + rest)
  {
    hide Before;
    if first == [] {
      assert first + rest == rest;
    } else {
      assert forall i :: 0 <= i < |rest| ==> rest[i] in rest;
    }
  }

  lemma OneAdded(chgs: seq<Change>, attr: string, upd: Update)
    requires attr in upd.should.attrs
    ensures var next := MaybeAddOne(chgs, attr, upd);
            && chgs <= next
            && (next[|chgs|..] == [] || (|next[|chgs|..]| == 1 && next[|chgs|..][0].attr == attr))
  {
  }

  lemma {:induction false} MaybeAddEachInOrder(chgs: seq<Change>, attrs: seq<string>, upd: Update)
    requires forall a :: a in attrs ==> a in upd.should.attrs
    requires forall i, j :: 0 <= i < j < |attrs| ==> Before(attrs[i], attrs[j])
    ensures chgs <= MaybeAddEach(chgs, attrs, upd)
    ensures var added := MaybeAddEach(chgs, attrs, upd)[|chgs|..]; AttrsIn(added, attrs) && InOrderOfAttrs(added)
    decreases |attrs|
  {
    hide Before, MaybeAddOne, AttrsIn, InOrderOfAttrs;
    if attrs != [] {
      var next, rest := MaybeAddOne(chgs, attrs[0], upd), attrs[1..];
      assert attrs == [attrs[0]] + rest && forall a :: a in rest ==> Before(attrs[0], a);
      OneAdded(chgs, attrs[0], upd);
      MaybeAddEachInOrder(next, rest, upd);
      var r := MaybeAddEach(chgs, attrs, upd);
      assert r == MaybeAddEach(next, rest, upd);
      hide MaybeAddEach;
      assert r[|chgs|..] == next[|chgs|..] + r[|next|..];
      InOrderCons(next[|chgs|..], attrs[0], r[|next|..], rest);
    } else {
      NoneInOrder(chgs, upd);
      assert chgs[|chgs|..] == [];
    }
  }

  lemma NoneInOrder(chgs: seq<Change>, upd: Update)
    ensures MaybeAddEach(chgs, [], upd) == chgs && AttrsIn([], []) && InOrderOfAttrs([])
  {
  }

  /** New entries are made in the order of the names of the attributes. */
  lemma MaybeAddInOrder(chgs: seq<Change>, upd: Update)
    ensures chgs <= MaybeAdd(chgs, upd) && InOrderOfAttrs(MaybeAdd(chgs, upd)[|chgs|..])
  {
    if !WantsAbsent(upd) {
      SortedIsInOrder(upd.should.attrs.Keys);
      MaybeAddEachInOrder(chgs, Sorted(upd.should.attrs.Keys), upd);
    }
    hide Sorted, MaybeAddEach, Before;
  }

  /** Nothing is owed afterwards, so a second call changes nothing. */
  lemma MaybeAddIdempotent(chgs: seq<Change>, upd: Update)
    ensures forall a :: !Owed(MaybeAdd(chgs, upd), a, upd)
    ensures MaybeAdd(MaybeAdd(chgs, upd), upd) == MaybeAdd(chgs, upd)
  {
    var once := MaybeAdd(chgs, upd);
    MaybeAddExact(chgs, upd);
    forall a ensures !Owed(once, a, upd) {
      if Owed(chgs, a, upd) {
        var c := Change(a, upd.should.Get(a), upd.actual.Get(a));
        assert c in once[|chgs|..];
        assert c in once;
      } else if Logged(chgs, a) {
        var c :| c in chgs && c.attr == a;
        assert c in once;
      }
    }
    MaybeAddGrows(once, upd);
  }

  /** The log grows exactly when some attribute was owed. */
  lemma MaybeAddGrows(chgs: seq<Change>, upd: Update)
    ensures MaybeAdd(chgs, upd) != chgs <==> exists a :: Owed(chgs, a, upd)
  {
    MaybeAddExact(chgs, upd);
    var added := MaybeAdd(chgs, upd)[|chgs|..];
    if added != [] {
      assert added[0] in added;
      assert Owed(chgs, added[0].attr, upd);
    }
    if a :| Owed(chgs, a, upd) {
      assert Change(a, upd.should.Get(a), upd.actual.Get(a)) in added;
    }
  }

  /* ---- the context ---- */

  predicate HasName(rs: seq<Resource>, name: string) {
    exists r :: r in rs && r.name == name
  }

  function AbsentResource(name: string): Resource {
    Resource(name, map["ensure" := Str("absent")])
  }

  /** Appending an absent resource for each name that has none. */
  function AddAbsentSpec(rs: seq<Resource>, names: seq<string>): seq<Resource>
    decreases |names|
  {
    if names == [] then rs
    else if HasName(rs, names[0]) then AddAbsentSpec(rs, names[1..])
    else AddAbsentSpec(rs + [AbsentResource(names[0])], names[1..])
  }

  /**
   * `add_absent` keeps what was found, makes sure that every name is there, and appends each
   * missing name once, as an absent resource.
   */
  lemma {:induction false} AddAbsentExact(rs: seq<Resource>, names: seq<string>)
    ensures var all := AddAbsentSpec(rs, names);
            && rs <= all
            && (forall n :: n in names ==> HasName(all, n))
            && (forall r :: r in all[|rs|..] ==>
                  r == AbsentResource(r.name) && r.name in names && !HasName(rs, r.name))
    decreases |names|
  {
    if names != [] {
      var n := names[0];
      var next := if HasName(rs, n) then rs else rs + [AbsentResource(n)];
      AddAbsentExact(next, names[1..]);
      var all := AddAbsentSpec(rs, names);
      assert names == [n] + names[1..];
      HasNamePrefix(next, all, n);
      if next != rs {
        assert all[|rs|..] == [AbsentResource(n)] + all[|next|..];
        assert next[|rs|] == AbsentResource(n);
        forall m | HasName(rs, m) ensures HasName(next, m) {
          HasNamePrefix(rs, next, m);
        }
      }
    }
  }

  lemma HasNamePrefix(rs: seq<Resource>, all: seq<Resource>, name: string)
    requires rs <= all
    ensures HasName(rs, name) ==> HasName(all, name)
  {
    if HasName(rs, name) {
      var r :| r in rs && r.name == name;
      assert r in all;
    }
  }

  predicate DistinctNames(rs: seq<Resource>) {
    forall i, j :: 0 <= i < j < |rs| ==> rs[i].name != rs[j].name
  }

  lemma {:induction false} AddAbsentDistinct(rs: seq<Resource>, names: seq<string>)
    requires DistinctNames(rs)
    ensures DistinctNames(AddAbsentSpec(rs, names))
    decreases |names|
  {
    if names != [] {
      if !HasName(rs, names[0]) {
        forall i | 0 <= i < |rs| ensures rs[i].name != names[0] {
          assert rs[i] in rs;
        }
        AddAbsentDistinct(rs + [AbsentResource(names[0])], names[1..]);
      } else {
        AddAbsentDistinct(rs, names[1..]);
      }
    }
  }

  /** Two logs with the same names that agree on all of them, except possibly on one. */
  ghost predicate SameElsewhere(log: Log, log': Log, name: string) {
    && name in log && log.Keys == log'.Keys
    && forall n :: n in log && n != name ==> log'[n] == log[n]
  }

  /** The log of one provider run. References to a list of changes are names into `log` here. */
  class Context {
    var log: Log

    constructor ()
      ensures log == map[]
    {
      log := map[];
    }

    method ChangesFor(name: string) returns (chgs: seq<Change>)
      modifies this
      ensures log == Touch(old(log), name) && chgs == log[name]
    {
      if name !in log {
        log := log[name := []];
      }
      chgs := log[name];
      assert log == Touch(old(log), name);
    }

    method Add(name: string, attr: string, now: Value, was: Value)
      modifies this
      ensures log == Append(old(log), name, Change(attr, now, was))
    {
      var chgs := ChangesFor(name);
      log := log[name := chgs + [Change(attr, now, was)]];
    }

    method AddChanged(attr: string, upd: Update) returns (changed: bool)
      modifies this
      ensures changed == upd.Changed(attr)
      ensures log == old(log)[upd.Name() := AddDiff(Entries(old(log), upd.Name()), attr, upd)]
    {
      var chgs := ChangesFor(upd.Name());
      changed := upd.Changed(attr);
      if changed {
        Add(upd.Name(), attr, upd.should.Get(attr), upd.actual.Get(attr));
      }
    }

    method AddAllChanged(attrs: seq<string>, upd: Update) returns (changed: bool)
      modifies this
      ensures changed <==> exists a :: a in attrs && upd.Changed(a)
      ensures log == old(log)[upd.Name() := AddDiffs(Entries(old(log), upd.Name()), attrs, upd)]
    {
      var start := ChangesFor(upd.Name());
      changed := false;
      for i := 0 to |attrs|
        invariant changed <==> exists a :: a in attrs[..i] && upd.Changed(a)
        invariant log == old(log)[upd.Name() := AddDiffs(start, attrs[..i], upd)]
      {
        var c := AddChanged(attrs[i], upd);
        if c {
          changed := true;
        }
        AddDiffsSnoc(start, attrs[..i], attrs[i], upd);
        assert attrs[..i + 1] == attrs[..i] + [attrs[i]];
      }
      assert attrs[..|attrs|] == attrs;
    }

    method Exists(name: string, attr: string) returns (found: bool)
      ensures found == Logged(Entries(log, name), attr)
    {
      var chgs := Entries(log, name);
      for i := 0 to |chgs|
        invariant !Logged(chgs[..i], attr)
      {
        if chgs[i].attr == attr {
          return true;
        }
        assert chgs[..i + 1] == chgs[..i] + [chgs[i]];
      }
      assert chgs[..|chgs|] == chgs;
      return false;
    }

    method MaybeAddChanged(upd: Update) returns (changed: bool)
      modifies this
      ensures changed <==> MaybeAdd(Entries(old(log), upd.Name()), upd) != Entries(old(log), upd.Name())
      ensures log == old(log)[upd.Name() := MaybeAdd(Entries(old(log), upd.Name()), upd)]
    {
      hide MaybeAddKeys, Logged, Update.Changed;
      var start := ChangesFor(upd.Name());
      changed := false;
      if upd.At("ensure") == Str("absent") {
        changed := AddEnsureOwed(upd);
      } else {
        changed := AddAllOwed(upd);
      }
    }

    /** For a resource that is to be absent, only `ensure` is recorded. */
    method AddEnsureOwed(upd: Update) returns (changed: bool)
      requires upd.Name() in log
      modifies this
      ensures var chgs := old(log)[upd.Name()];
              && changed == (!Logged(chgs, "ensure") && upd.Changed("ensure"))
              && log == old(log)[upd.Name() := if changed then AddDiff(chgs, "ensure", upd) else chgs]
    {
      hide Logged;
      var found := Exists(upd.Name(), "ensure");
      changed := !found && upd.Changed("ensure");
      if changed {
        Add(upd.Name(), "ensure", upd.should.Get("ensure"), upd.actual.Get("ensure"));
      }
    }

    /** The loop of `maybe_add`, over the desired attributes in the order of their names. */
    method AddAllOwed(upd: Update) returns (changed: bool)
      requires upd.Name() in log
      modifies this
      ensures log == old(log)[upd.Name() := MaybeAddKeys(old(log)[upd.Name()], upd.should.attrs.Keys, upd)]
      ensures changed <==> log[upd.Name()] != old(log)[upd.Name()]
    {
      hide MaybeAddEach, Sorted, LexLe;
      var todo := upd.should.attrs.Keys;
      ghost var goal := MaybeAddKeys(log[upd.Name()], todo, upd);
      changed := false;
      while todo != {}
        invariant todo <= upd.should.attrs.Keys
        invariant SameElsewhere(old(log), log, upd.Name())
        invariant |old(log)[upd.Name()]| <= |log[upd.Name()]|
        invariant if changed then |old(log)[upd.Name()]| < |log[upd.Name()]|
                  else log[upd.Name()] == old(log)[upd.Name()]
        invariant MaybeAddKeys(log[upd.Name()], todo, upd) == goal
        decreases |todo|
      {
        LeastExists(todo);
        var attr :| IsLeast(attr, todo);
        MaybeAddKeysStep(log[upd.Name()], todo, attr, upd);
        var c := AddOwed(attr, upd);
        changed := changed || c;
        todo := todo - {attr};
      }
      MaybeAddKeysNone(log[upd.Name()], upd);
    }

    /** One turn of that loop. */
    method AddOwed(attr: string, upd: Update) returns (changed: bool)
      requires attr in upd.should.attrs && upd.Name() in log
      modifies this
      ensures SameElsewhere(old(log), log, upd.Name())
      ensures log[upd.Name()] == MaybeAddOne(old(log)[upd.Name()], attr, upd)
      ensures |log[upd.Name()]| == |old(log)[upd.Name()]| + if changed then 1 else 0
    {
      var found := Exists(upd.Name(), attr);
      changed := upd.should.attrs[attr] != upd.actual.Get(attr) && !found;
      if changed {
        Add(upd.Name(), attr, upd.should.attrs[attr], upd.actual.Get(attr));
      }
    }

    method AddAbsent(rsrcs: seq<Resource>, names: seq<string>) returns (all: seq<Resource>)
      ensures all == AddAbsentSpec(rsrcs, names)
    {
      all := rsrcs;
      for i := 0 to |names|
        invariant AddAbsentSpec(all, names[i..]) == AddAbsentSpec(rsrcs, names)
      {
        var found := FindByName(all, names[i]);
        if !found {
          all := all + [AbsentResource(names[i])];
        }
        assert names[i..][1..] == names[i + 1..];
      }
    }

    method FindByName(rsrcs: seq<Resource>, name: string) returns (found: bool)
      ensures found == HasName(rsrcs, name)
    {
      for i := 0 to |rsrcs|
        invariant forall j :: 0 <= j < i ==> rsrcs[j].name != name
      {
        if rsrcs[i].name == name {
          return true;
        }
      }
      return false;
    }
  }
}
