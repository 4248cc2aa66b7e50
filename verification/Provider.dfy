/** What all providers share: pairing states, looking up by name, and reporting the result. */
module Provider {
  import opened Core
  import opened Changes

  /* ---- provider::create(update, changes) and Update#resource ---- */

  type Attributes = map<string, Value>

  /** Assigning the new value of each change, in order. */
  function Override(attrs: Attributes, chgs: seq<Change>): Attributes
    decreases |chgs|
  {
    if chgs == [] then attrs
    else Override(attrs[chgs[0].attr := chgs[0].now], chgs[1..])
  }

  lemma {:induction false} OverrideSnoc(attrs: Attributes, chgs: seq<Change>, c: Change)
    ensures Override(attrs, chgs + [c]) == Override(attrs, chgs)[c.attr := c.now]
    decreases |chgs|
  {
    if chgs == [] {
      assert (chgs + [c])[1..] == [];
    } else {
      assert (chgs + [c])[1..] == chgs[1..] + [c];
      OverrideSnoc(attrs[chgs[0].attr := chgs[0].now], chgs[1..], c);
    }
  }

  /** The state after an update. `insert` does not overwrite, so the actual values come first. */
  function Report(upd: Update, chgs: seq<Change>): Resource {
    if WantsAbsent(upd) then AbsentResource(upd.Name())
    else Resource(upd.Name(), Override(upd.should.attrs + upd.actual.attrs, chgs))
  }

  method Create(upd: Update, chgs: seq<Change>) returns (res: Resource)
    ensures res == Report(upd, chgs)
  {
    res := Resource(upd.Name(), map[]);
    if upd.At("ensure") == Str("absent") {
      res := res.Set("ensure", Str("absent"));
    } else {
      res := res.(attrs := upd.actual.attrs + res.attrs);
      res := res.(attrs := upd.should.attrs + res.attrs);
      assert res.attrs == upd.should.attrs + upd.actual.attrs;
      ghost var start := res.attrs;
      for i := 0 to |chgs|
        invariant res == Resource(upd.Name(), Override(start, chgs[..i]))
      {
        res := res.Set(chgs[i].attr, chgs[i].now);
        OverrideSnoc(start, chgs[..i], chgs[i]);
        assert chgs[..i + 1] == chgs[..i] + [chgs[i]];
      }
      assert chgs[..|chgs|] == chgs;
    }
  }

  /** The overlay as the Ruby binding builds it: the desired values are merged over the actual ones. */
  function RubyReport(upd: Update, chgs: seq<Change>): Resource {
    Resource(upd.Name(), Override(upd.actual.attrs + upd.should.attrs, chgs))
  }

  method RubyResource(upd: Update, chgs: seq<Change>) returns (res: Resource)
    ensures res == RubyReport(upd, chgs)
  {
    var attrs := upd.actual.attrs + upd.should.attrs;
    ghost var start := attrs;
    for i := 0 to |chgs|
      invariant attrs == Override(start, chgs[..i])
    {
      attrs := attrs[chgs[i].attr := chgs[i].now];
      OverrideSnoc(start, chgs[..i], chgs[i]);
      assert chgs[..i + 1] == chgs[..i] + [chgs[i]];
    }
    assert chgs[..|chgs|] == chgs;
    res := Resource(upd.Name(), attrs);
  }

  /** A logged attribute has the value of one of its changes, any other keeps its value. */
  lemma {:induction false} OverrideAt(attrs: Attributes, chgs: seq<Change>, a: string)
    ensures a in Override(attrs, chgs) <==> a in attrs || Logged(chgs, a)
    ensures !Logged(chgs, a) && a in attrs ==> Override(attrs, chgs)[a] == attrs[a]
    ensures Logged(chgs, a) ==> exists c :: c in chgs && c.attr == a && Override(attrs, chgs)[a] == c.now
    decreases |chgs|
  {
    if chgs != [] {
      var c := chgs[0];
      assert chgs == [c] + chgs[1..];
      var next := attrs[c.attr := c.now];
      OverrideAt(next, chgs[1..], a);
      assert Logged(chgs, a) <==> c.attr == a || Logged(chgs[1..], a);
    }
  }

  /** Two bases give the same value to an attribute once it is logged. */
  lemma {:induction false} OverrideForgets(m: Attributes, m': Attributes, chgs: seq<Change>, a: string)
    requires Logged(chgs, a)
    ensures a in Override(m, chgs) && a in Override(m', chgs)
    ensures Override(m, chgs)[a] == Override(m', chgs)[a]
    decreases |chgs|
  {
    var c := chgs[0];
    assert chgs == [c] + chgs[1..];
    var n, n' := m[c.attr := c.now], m'[c.attr := c.now];
    if Logged(chgs[1..], a) {
      OverrideForgets(n, n', chgs[1..], a);
    } else {
      OverrideAt(n, chgs[1..], a);
      OverrideAt(n', chgs[1..], a);
    }
  }

  /** An attribute that both states have, with different values. */
  predicate Conflicting(upd: Update, a: string) {
    && a in upd.actual.attrs && a in upd.should.attrs
    && upd.actual.attrs[a] != upd.should.attrs[a]
  }

  /**
   * The C++ and the Ruby overlay agree exactly when every attribute on which the two states
   * disagree has been logged.
   */
  lemma ReportsAgreeIff(upd: Update, chgs: seq<Change>)
    requires !WantsAbsent(upd)
    ensures Report(upd, chgs) == RubyReport(upd, chgs)
       <==> forall a :: Conflicting(upd, a) ==> Logged(chgs, a)
  {
    var m := upd.should.attrs + upd.actual.attrs;
    var m' := upd.actual.attrs + upd.should.attrs;
    var r, r' := Override(m, chgs), Override(m', chgs);
    forall a
      ensures a in r <==> a in r'
      ensures a in r ==> (r[a] == r'[a] <==> !Conflicting(upd, a) || Logged(chgs, a))
      ensures Conflicting(upd, a) ==> a in r
    {
      OverrideAt(m, chgs, a);
      OverrideAt(m', chgs, a);
      if Logged(chgs, a) {
        OverrideForgets(m, m', chgs, a);
      }
    }
    if forall a :: Conflicting(upd, a) ==> Logged(chgs, a) {
      assert r == r';
    } else {
      var a :| Conflicting(upd, a) && !Logged(chgs, a);
      assert r[a] != r'[a];
    }
  }

  /**
   * When the resource is to be absent, C++ reports nothing but that, while Ruby still shows
   * every attribute; with derived changes they agree only if there is none but `ensure`.
   */
  lemma AbsentReportsAgreeIff(upd: Update)
    requires WantsAbsent(upd)
    ensures Report(upd, MaybeAdd([], upd)) == RubyReport(upd, MaybeAdd([], upd))
       <==> && upd.actual.attrs.Keys + upd.should.attrs.Keys == {"ensure"}
            && ("ensure" in upd.should.attrs ==> upd.should.attrs["ensure"].IsSet())
  {
    var chgs := MaybeAdd([], upd);
    var m := upd.actual.attrs + upd.should.attrs;
    var r := Override(m, chgs);
    forall a ensures a in r <==> a in m {
      MaybeAddExact([], upd);
      OverrideAt(m, chgs, a);
      if Logged(chgs, a) {
        assert chgs[0..] == chgs;
      }
    }
    OverrideAt(m, chgs, "ensure");
    if m.Keys == {"ensure"} {
      assert r == map["ensure" := r["ensure"]];
    }
  }

  /** The reported value of an attribute: that of its change if there is one, else what was there. */
  lemma ReportedValue(upd: Update, chgs: seq<Change>, attr: string)
    requires !WantsAbsent(upd)
    requires forall c :: c in chgs && c.attr == attr ==> c.now == upd.should.Get(attr)
    ensures Report(upd, chgs).Get(attr) ==
              if Logged(chgs, attr) then upd.should.Get(attr)
              else if attr in upd.actual.attrs then upd.actual.attrs[attr] else upd.should.Get(attr)
  {
    OverrideAt(upd.should.attrs + upd.actual.attrs, chgs, attr);
    hide Override;
  }

  /** The log of an update that compares `ensure` and a list of attributes. */
  function DiffLog(upd: Update, attrs: seq<string>): seq<Change> {
    AddDiffs(AddDiff([], "ensure", upd), attrs, upd)
  }

  lemma DiffLogSays(upd: Update, attrs: seq<string>, attr: string)
    ensures Logged(DiffLog(upd, attrs), attr) <==> (attr == "ensure" || attr in attrs) && upd.Changed(attr)
    ensures forall c :: c in DiffLog(upd, attrs) ==> c.now == upd.should.Get(c.attr)
  {
    var start := AddDiff([], "ensure", upd);
    AddDiffsExact(start, attrs, upd);
    var log := DiffLog(upd, attrs);
    hide AddDiffs;
    assert log == start + log[|start|..];
    if attr in attrs && upd.Changed(attr) {
      assert Change(attr, upd.should.Get(attr), upd.actual.Get(attr)) in log[|start|..];
    }
    if attr == "ensure" && upd.Changed(attr) {
      assert start[0] in log;
    }
  }

  /** An attribute that is compared is reported as the overlay has it. */
  lemma ComparedIsReported(upd: Update, attrs: seq<string>, attr: string)
    requires !WantsAbsent(upd) && (attr == "ensure" || attr in attrs)
    requires attr in upd.actual.attrs ==> upd.actual.attrs[attr].IsSet()
    ensures Report(upd, DiffLog(upd, attrs)).Get(attr) == upd.At(attr)
  {
    DiffLogSays(upd, attrs, attr);
    hide DiffLog, Report, WantsAbsent;
    ReportedValue(upd, DiffLog(upd, attrs), attr);
  }

  /** Any other attribute is reported as it was, or as it was asked for. */
  lemma OtherIsReported(upd: Update, attrs: seq<string>, attr: string)
    requires !WantsAbsent(upd) && attr != "ensure" && attr !in attrs
    ensures Report(upd, DiffLog(upd, attrs)).Get(attr) ==
              if attr in upd.actual.attrs then upd.actual.attrs[attr] else upd.should.Get(attr)
  {
    DiffLogSays(upd, attrs, attr);
    hide DiffLog, Report, WantsAbsent;
    ReportedValue(upd, DiffLog(upd, attrs), attr);
  }

  /** Changes that only repeat the desired state, and miss no conflict, report the overlay. */
  lemma ReportOfDiffs(upd: Update, chgs: seq<Change>)
    requires !WantsAbsent(upd)
    requires forall c :: c in chgs ==> c.attr in upd.should.attrs && c.now == upd.should.attrs[c.attr]
    requires forall a :: Conflicting(upd, a) ==> Logged(chgs, a)
    ensures Report(upd, chgs) == Resource(upd.Name(), upd.actual.attrs + upd.should.attrs)
  {
    var m := upd.should.attrs + upd.actual.attrs;
    var r := Override(m, chgs);
    forall a
      ensures a in r <==> a in upd.actual.attrs || a in upd.should.attrs
      ensures a in r ==> r[a] == (upd.actual.attrs + upd.should.attrs)[a]
    {
      OverrideAt(m, chgs, a);
    }
    assert r == upd.actual.attrs + upd.should.attrs;
  }

  /**
   * With the changes that `maybe_add` derives from an empty log, the reported state is the
   * actual state overridden by the desired one, or just its absence.
   */
  lemma ReportIsOverlay(upd: Update)
    ensures Report(upd, MaybeAdd([], upd)) ==
      if WantsAbsent(upd) then AbsentResource(upd.Name())
      else Resource(upd.Name(), upd.actual.attrs + upd.should.attrs)
  {
    if !WantsAbsent(upd) {
      var chgs := MaybeAdd([], upd);
      MaybeAddExact([], upd);
      assert chgs[0..] == chgs;
      forall a | Conflicting(upd, a) ensures Logged(chgs, a) {
        assert Owed([], a, upd);
        assert Change(a, upd.should.Get(a), upd.actual.Get(a)) in chgs;
      }
      ReportOfDiffs(upd, chgs);
    }
  }

  /* ---- provider::set: pairing what is with what should be ---- */

  function Named(rs: seq<Resource>, name: string): seq<Resource> {
    if rs == [] then []
    else if rs[0].name == name then [rs[0]] + Named(rs[1..], name)
    else Named(rs[1..], name)
  }

  function Unknown(name: string): Resource {
    Resource(name, map[])
  }

  function WithShould(found: seq<Resource>, should: Resource): seq<Update> {
    seq(|found|, i requires 0 <= i < |found| => Update(found[i], should))
  }

  function PairOne(iss: seq<Resource>, should: Resource): seq<Update> {
    var found := Named(iss, should.name);
    if found == [] then [Update(Unknown(should.name), should)] else WithShould(found, should)
  }

  function PairAll(iss: seq<Resource>, shoulds: seq<Resource>): seq<Update>
    decreases |shoulds|
  {
    if shoulds == [] then [] else PairOne(iss, shoulds[0]) + PairAll(iss, shoulds[1..])
  }

  lemma {:induction false} NamedSnoc(rs: seq<Resource>, r: Resource, name: string)
    ensures Named(rs + [r], name) == Named(rs, name) + if r.name == name then [r] else []
  {
    if rs == [] {
      assert (rs + [r])[1..] == [];
    } else {
      assert (rs + [r])[1..] == rs[1..] + [r];
      NamedSnoc(rs[1..], r, name);
    }
  }

  lemma {:induction false} PairAllSnoc(iss: seq<Resource>, shoulds: seq<Resource>, s: Resource)
    ensures PairAll(iss, shoulds + [s]) == PairAll(iss, shoulds) + PairOne(iss, s)
    decreases |shoulds|
  {
    if shoulds == [] {
      assert (shoulds + [s])[1..] == [];
    } else {
      assert (shoulds + [s])[1..] == shoulds[1..] + [s];
      PairAllSnoc(iss, shoulds[1..], s);
    }
  }

  lemma PairAllCons(iss: seq<Resource>, should: Resource, rest: seq<Resource>)
    ensures PairAll(iss, [should] + rest) == PairOne(iss, should) + PairAll(iss, rest)
  {
    hide PairOne;
    assert ([should] + rest)[1..] == rest;
  }

  /** The two nested loops of `provider::set` that build the updates. */
  method BuildUpdates(iss: seq<Resource>, shoulds: seq<Resource>) returns (upds: seq<Update>)
    ensures upds == PairAll(iss, shoulds)
  {
    upds := [];
    for i := 0 to |shoulds|
      invariant upds == PairAll(iss, shoulds[..i])
    {
      var matches := BuildMatches(iss, shoulds[i]);
      upds := upds + matches;
      PairAllSnoc(iss, shoulds[..i], shoulds[i]);
      assert shoulds[..i + 1] == shoulds[..i] + [shoulds[i]];
    }
    assert shoulds[..|shoulds|] == shoulds;
  }

  method BuildMatches(iss: seq<Resource>, should: Resource) returns (upds: seq<Update>)
    ensures upds == PairOne(iss, should)
  {
    upds := [];
    var found := false;
    for j := 0 to |iss|
      invariant upds == WithShould(Named(iss[..j], should.name), should)
      invariant found <==> Named(iss[..j], should.name) != []
    {
      if iss[j].name == should.name {
        found := true;
        upds := upds + [Update(iss[j], should)];
      }
      NamedSnoc(iss[..j], iss[j], should.name);
      assert iss[..j + 1] == iss[..j] + [iss[j]];
    }
    assert iss[..|iss|] == iss;
    if !found {
      upds := upds + [Update(Unknown(should.name), should)];
    }
  }

  lemma {:induction false} NamedExact(rs: seq<Resource>, name: string)
    ensures forall r :: r in Named(rs, name) <==> r in rs && r.name == name
  {
    if rs != [] {
      NamedExact(rs[1..], name);
      assert rs == [rs[0]] + rs[1..];
    }
  }

  lemma {:induction false} NamedOnce(rs: seq<Resource>, name: string)
    requires DistinctNames(rs)
    ensures |Named(rs, name)| <= 1
  {
    if rs != [] {
      NamedOnce(rs[1..], name);
      NamedExact(rs[1..], name);
      var rest := Named(rs[1..], name);
      assert forall r :: r in rs[1..] ==> r.name != rs[0].name;
      assert rest != [] ==> rest[0] in rest;
    }
  }

  /**
   * Every update pairs states of the same name, its desired state is one of those asked for,
   * and its actual state was found unless nothing of that name was.
   */
  lemma {:induction false} PairSound(iss: seq<Resource>, shoulds: seq<Resource>)
    ensures forall u :: u in PairAll(iss, shoulds) ==>
              && u.actual.name == u.should.name && u.should in shoulds
              && (u.actual in iss || (u.actual == Unknown(u.should.name) && !HasName(iss, u.should.name)))
    ensures forall r, s :: r in iss && s in shoulds && r.name == s.name
                           ==> Update(r, s) in PairAll(iss, shoulds)
    decreases |shoulds|
  {
    if shoulds != [] {
      PairSound(iss, shoulds[1..]);
      var s := shoulds[0];
      assert shoulds == [s] + shoulds[1..];
      NamedExact(iss, s.name);
      var found := Named(iss, s.name);
      var one := PairOne(iss, s);
      forall r | r in iss && r.name == s.name ensures Update(r, s) in one {
        assert r in found;
        var k :| 0 <= k < |found| && found[k] == r;
        assert one[k] == Update(r, s);
      }
      forall u | u in one ensures u.actual.name == s.name && u.should == s
        && (u.actual in iss || (u.actual == Unknown(s.name) && !HasName(iss, s.name)))
      {
        assert forall r :: r in iss && r.name == s.name ==> r in found;
        if found != [] {
          var k :| 0 <= k < |one| && one[k] == u;
          assert u == Update(found[k], s) && found[k] in found;
        }
      }
    }
  }

  lemma PairOneOnly(iss: seq<Resource>, should: Resource)
    requires DistinctNames(iss)
    ensures |PairOne(iss, should)| == 1 && PairOne(iss, should)[0].should == should
  {
    NamedOnce(iss, should.name);
  }

  /** With distinct names in the answer of `get`, there is exactly one update for each desired state. */
  lemma {:induction false} PairOnePerShould(iss: seq<Resource>, shoulds: seq<Resource>)
    requires DistinctNames(iss)
    ensures |PairAll(iss, shoulds)| == |shoulds|
    ensures forall i :: 0 <= i < |shoulds| ==> PairAll(iss, shoulds)[i].should == shoulds[i]
    decreases |shoulds|
  {
    if shoulds != [] {
      PairOneOnly(iss, shoulds[0]);
      hide PairOne;
      PairOnePerShould(iss, shoulds[1..]);
      var first, rest := PairOne(iss, shoulds[0])[0], PairAll(iss, shoulds[1..]);
      assert PairAll(iss, shoulds) == [first] + rest;
      hide PairAll;
      forall i | 0 <= i < |shoulds| ensures ([first] + rest)[i].should == shoulds[i] {
        if i > 0 {
          assert ([first] + rest)[i] == rest[i - 1] && shoulds[1..][i - 1] == shoulds[i];
        }
      }
    }
  }

  /** The position in `shoulds` from which each update stems. */
  function Origins(iss: seq<Resource>, shoulds: seq<Resource>, from: nat): seq<nat>
    decreases |shoulds|
  {
    if shoulds == [] then []
    else seq(|PairOne(iss, shoulds[0])|, _ => from) + Origins(iss, shoulds[1..], from + 1)
  }

  lemma {:induction false} OriginsLength(iss: seq<Resource>, shoulds: seq<Resource>, from: nat)
    ensures |Origins(iss, shoulds, from)| == |PairAll(iss, shoulds)|
    decreases |shoulds|
  {
    if shoulds != [] {
      OriginsLength(iss, shoulds[1..], from + 1);
    }
    hide PairOne;
  }

  predicate InOrder(o: seq<nat>, from: nat, until: nat) {
    && (forall i :: 0 <= i < |o| ==> from <= o[i] < until)
    && (forall i, j :: 0 <= i < j < |o| ==> o[i] <= o[j])
  }

  lemma InOrderCons(n: nat, rest: seq<nat>, from: nat, until: nat)
    requires InOrder(rest, from + 1, until) && from < until
    ensures InOrder(seq(n, _ => from) + rest, from, until)
  {
    var first := seq(n, _ => from);
    var o := first + rest;
    forall i | 0 <= i < |o| ensures from <= o[i] < until {
      assert if i < n then o[i] == first[i] else o[i] == rest[i - n];
    }
    forall i, j | 0 <= i < j < |o| ensures o[i] <= o[j] {
      assert if i < n then o[i] == first[i] else o[i] == rest[i - n];
      assert if j < n then o[j] == first[j] else o[j] == rest[j - n];
    }
  }

  /** Each origin is a position, and the positions do not go back. */
  lemma {:induction false} OriginsInOrder(iss: seq<Resource>, shoulds: seq<Resource>, from: nat)
    ensures InOrder(Origins(iss, shoulds, from), from, from + |shoulds|)
    decreases |shoulds|
  {
    hide PairOne, InOrder;
    if shoulds != [] {
      OriginsInOrder(iss, shoulds[1..], from + 1);
      InOrderCons(|PairOne(iss, shoulds[0])|, Origins(iss, shoulds[1..], from + 1), from, from + |shoulds|);
    } else {
      assert InOrder([], from, from) by { NoneInOrder(from); }
    }
  }

  lemma NoneInOrder(from: nat)
    ensures InOrder([], from, from)
  {
  }

  lemma PairOneSome(iss: seq<Resource>, should: Resource)
    ensures |PairOne(iss, should)| >= 1
    ensures forall i :: 0 <= i < |PairOne(iss, should)| ==> PairOne(iss, should)[i].should == should
  {
    hide Named;
  }

  lemma {:induction false} OriginsComplete(iss: seq<Resource>, shoulds: seq<Resource>, from: nat)
    ensures forall k :: from <= k < from + |shoulds| ==> k in Origins(iss, shoulds, from)
    decreases |shoulds|
  {
    hide PairOne;
    if shoulds != [] {
      PairOneSome(iss, shoulds[0]);
      OriginsComplete(iss, shoulds[1..], from + 1);
      var o := Origins(iss, shoulds, from);
      assert o[0] == from;
      forall k | from < k < from + |shoulds| ensures k in o {
        assert k in Origins(iss, shoulds[1..], from + 1);
      }
    }
  }

  lemma {:induction false} OriginsRight(iss: seq<Resource>, shoulds: seq<Resource>, from: nat)
    ensures |Origins(iss, shoulds, from)| == |PairAll(iss, shoulds)|
    ensures var o, p := Origins(iss, shoulds, from), PairAll(iss, shoulds);
            forall i :: 0 <= i < |p| ==> from <= o[i] < from + |shoulds| && p[i].should == shoulds[o[i] - from]
    decreases |shoulds|
  {
    hide PairOne;
    OriginsLength(iss, shoulds, from);
    OriginsInOrder(iss, shoulds, from);
    if shoulds != [] {
      var n := |PairOne(iss, shoulds[0])|;
      var p, o := PairAll(iss, shoulds), Origins(iss, shoulds, from);
      var p', o' := PairAll(iss, shoulds[1..]), Origins(iss, shoulds[1..], from + 1);
      PairOneSome(iss, shoulds[0]);
      OriginsLength(iss, shoulds[1..], from + 1);
      OriginsInOrder(iss, shoulds[1..], from + 1);
      OriginsRight(iss, shoulds[1..], from + 1);
      forall i | 0 <= i < |p| ensures p[i].should == shoulds[o[i] - from] {
        if i >= n {
          assert p[i] == p'[i - n] && o[i] == o'[i - n];
        }
      }
    }
  }

  /** Even with repeated names, updates follow the order of the desired states and skip none. */
  lemma PairOrdered(iss: seq<Resource>, shoulds: seq<Resource>, from: nat)
    ensures var o, p := Origins(iss, shoulds, from), PairAll(iss, shoulds);
            && |o| == |p|
            && (forall i :: 0 <= i < |p| ==> from <= o[i] < from + |shoulds| && p[i].should == shoulds[o[i] - from])
            && (forall i, j :: 0 <= i < j < |o| ==> o[i] <= o[j])
            && (forall k :: from <= k < from + |shoulds| ==> k in o)
  {
    hide Origins, PairAll;
    OriginsRight(iss, shoulds, from);
    OriginsInOrder(iss, shoulds, from);
    OriginsComplete(iss, shoulds, from);
  }

  function NamesOf(rs: seq<Resource>): seq<string> {
    seq(|rs|, i requires 0 <= i < |rs| => rs[i].name)
  }

  /** When `get` ends in `add_absent`, every desired state meets an actual one it was given. */
  lemma PairAfterAddAbsent(rs: seq<Resource>, shoulds: seq<Resource>)
    ensures var iss := AddAbsentSpec(rs, NamesOf(shoulds));
            forall u :: u in PairAll(iss, shoulds) ==> u.actual in iss
  {
    var names := NamesOf(shoulds);
    var iss := AddAbsentSpec(rs, names);
    AddAbsentExact(rs, names);
    PairSound(iss, shoulds);
    forall s | s in shoulds ensures HasName(iss, s.name) {
      var k :| 0 <= k < |shoulds| && shoulds[k] == s;
      assert names[k] == s.name;
    }
  }

  /** The result of `provider::set`: each update with the changes recorded under its name. */
  method CollectChanges(ctx: Context, upds: seq<Update>) returns (res: seq<(Update, seq<Change>)>)
    modifies ctx
    ensures |res| == |upds|
    ensures forall i :: 0 <= i < |upds| ==> res[i] == (upds[i], Entries(old(ctx.log), upds[i].Name()))
    ensures forall n :: Entries(ctx.log, n) == Entries(old(ctx.log), n)
  {
    res := [];
    for i := 0 to |upds|
      invariant |res| == i
      invariant forall n :: Entries(ctx.log, n) == Entries(old(ctx.log), n)
      invariant forall j :: 0 <= j < i ==> res[j] == (upds[j], Entries(old(ctx.log), upds[j].Name()))
    {
      var chgs := ctx.ChangesFor(upds[i].Name());
      res := res + [(upds[i], chgs)];
    }
  }

  /* ---- provider::find ---- */

  datatype Lookup = NotFound | Found(r: Resource) | Ambiguous

  method Find(rsrcs: seq<Resource>, name: string) returns (res: Lookup)
    ensures res.NotFound? <==> !HasName(rsrcs, name)
    ensures res.Found? <==> |Named(rsrcs, name)| == 1
    ensures res.Found? ==> res.r in rsrcs && res.r.name == name
  {
    res := NotFound;
    for i := 0 to |rsrcs|
      invariant !res.Ambiguous?
      invariant Named(rsrcs[..i], name) == if res.Found? then [res.r] else []
    {
      if rsrcs[i].name == name {
        if res.Found? {
          NamedExact(rsrcs, name);
          NamedTwice(rsrcs, i, name);
          return Ambiguous;
        }
        res := Found(rsrcs[i]);
      }
      NamedSnoc(rsrcs[..i], rsrcs[i], name);
      assert rsrcs[..i + 1] == rsrcs[..i] + [rsrcs[i]];
    }
    assert rsrcs[..|rsrcs|] == rsrcs;
    NamedExact(rsrcs, name);
    if res.Found? {
      assert res.r in Named(rsrcs, name);
    }
  }

  lemma {:induction false} NamedAppend(a: seq<Resource>, b: seq<Resource>, name: string)
    ensures Named(a + b, name) == Named(a, name) + Named(b, name)
  {
    if a == [] {
      assert a + b == b;
    } else {
      assert (a + b)[0] == a[0] && (a + b)[1..] == a[1..] + b;
      NamedAppend(a[1..], b, name);
    }
  }

  /** The updates of one desired state follow the order in which its actual states were found. */
  lemma FoundInOrder(a: seq<Resource>, b: seq<Resource>, should: Resource)
    ensures HasName(a, should.name) && HasName(b, should.name) ==>
              PairOne(a + b, should) == PairOne(a, should) + PairOne(b, should)
    ensures HasName(a, should.name) && !HasName(b, should.name) ==> PairOne(a + b, should) == PairOne(a, should)
    ensures !HasName(a, should.name) ==> PairOne(a + b, should) == PairOne(b, should)
    ensures forall r: Resource :: r.name == should.name ==> PairOne([r], should) == [Update(r, should)]
  {
    NamedAppend(a, b, should.name);
    NamedExact(a, should.name);
    NamedExact(b, should.name);
    forall r: Resource | r.name == should.name ensures PairOne([r], should) == [Update(r, should)] {
      assert [r][1..] == [] && Named([r], should.name) == [r];
    }
    hide Named;
    var x, y := Named(a, should.name), Named(b, should.name);
    assert x != [] ==> x[0] in x;
    assert y != [] ==> y[0] in y;
    assert WithShould(x + y, should) == WithShould(x, should) + WithShould(y, should);
    assert x + [] == x && [] + y == y;
  }

  lemma NamedTwice(rs: seq<Resource>, i: nat, name: string)
    requires i < |rs| && rs[i].name == name && Named(rs[..i], name) != []
    ensures |Named(rs, name)| >= 2
  {
    assert rs == rs[..i] + rs[i..];
    NamedAppend(rs[..i], rs[i..], name);
  }
}
