/** The host provider in plain terms: what a line holds, what is shown, and the log. */
module HostTable {
  import opened Core
  import opened Changes
  import opened Provider
  import opened Augeas
  import opened Host
  import opened HostTheorems
  import opened HostStability

  /* ---- lines ---- */

  /** The place of a field in a line of the hosts file. */
  function Place(field: Field): nat {
    match field
    case IpAddr => 0
    case Canonical => 1
    case Alias => 2
    case _ => 3
  }

  /** A line has its fields in this order, and only these. */
  lemma FieldsInOrder(upd: Update)
    ensures var cs := HostChildren(upd);
            && (forall i, j :: 0 <= i < j < |cs| ==> Place(cs[i].field) <= Place(cs[j].field))
            && forall i :: 0 <= i < |cs| ==> cs[i].field in {IpAddr, Canonical, Alias, Remark}
  {
    var a, b := OptChild(IpAddr, upd.At("ip")), [Child(Canonical, upd.Name())];
    var c, d := AliasChildren(AliasList(upd.At("host_aliases"))), OptChild(Remark, upd.At("comment"));
    assert HostChildren(upd) == a + b + c + d;
    assert forall i :: 0 <= i < |a| ==> a[i].field == IpAddr;
    assert forall i :: 0 <= i < |c| ==> c[i].field == Alias;
    assert forall i :: 0 <= i < |d| ==> d[i].field == Remark;
    hide HostChildren, OptChild, AliasChildren, AliasList, Update.At;
    InPlaces(a, b, c, d);
  }

  lemma InPlaces(a: seq<Child>, b: seq<Child>, c: seq<Child>, d: seq<Child>)
    requires forall i :: 0 <= i < |a| ==> a[i].field == IpAddr
    requires forall i :: 0 <= i < |b| ==> b[i].field == Canonical
    requires forall i :: 0 <= i < |c| ==> c[i].field == Alias
    requires forall i :: 0 <= i < |d| ==> d[i].field == Remark
    ensures var cs := a + b + c + d;
            && (forall i, j :: 0 <= i < j < |cs| ==> Place(cs[i].field) <= Place(cs[j].field))
            && forall i :: 0 <= i < |cs| ==> cs[i].field in {IpAddr, Canonical, Alias, Remark}
  {
  }

  /* ---- states ---- */

  lemma EnsureIsSaid(upd: Update)
    ensures Ensure(upd) == Said(upd.should, Said(upd.actual, "absent"))
  {
  }

  /** Any other text is refused. */
  lemma OtherEnsureFails(st: State, upd: Update)
    requires upd.should.Get("ensure").Str? && upd.should.Get("ensure").s !in {"present", "absent"}
    ensures SetOne(st, upd).Failed?
  {
    EnsureIsSaid(upd);
    hide Ensure, SetPresent, SetAbsent;
  }

  /** The text of a value that is set. */
  function TextIn(v: Value): Value {
    match v
    case NoValue => NoValue
    case _ => Str(v.ToString())
  }

  /** The resource that stands for an update: its overlay, as it is read from a line. */
  predicate IsOverlay(r: Resource, upd: Update) {
    && r.name == upd.Name()
    && r.Get("ensure") == Str("present") && r.Get("target") == Str("/etc/hosts")
    && r.Get("ip") == TextIn(upd.At("ip")) && r.Get("comment") == TextIn(upd.At("comment"))
    && (match upd.At("host_aliases")
        case Array(a) => r.Get("host_aliases") == if a == [] then NoValue else Array(a)
        case _ => r.Get("host_aliases") == NoValue)
  }

  lemma ShownIsOverlay(upd: Update)
    ensures IsOverlay(Shown(upd), upd)
  {
    ShownAttrs(upd);
    hide Shown, Update.At;
  }

  /**
   * What `get` lists of a name after a run, for every desired `ensure`: the overlay once, or
   * nothing; a state that is not given is kept.
   */
  lemma StateTable(st: State, upds: seq<Update>, u: Update)
    requires Ok(st) && DistinctUpdates(upds) && u in upds && SetAll(st, upds).Done?
    ensures Ok(SetAll(st, upds).st)
    ensures var found, e := Named(View(SetAll(st, upds).st.entries), u.Name()), u.should.Get("ensure");
            && (e == Str("present") || (!e.Str? && u.actual.Get("ensure") == Str("present")) ==>
                  |found| == 1 && IsOverlay(found[0], u))
            && (e == Str("absent") || (!e.Str? && u.actual.Get("ensure") != Str("present")) ==> found == [])
  {
    ShownIsOverlay(u);
    EnsureIsSaid(u);
    hide SetAll, Ok, View, Named, Shown, Ensure, DistinctUpdates, Others, IsOverlay;
    RunShowsOverlays(st, upds);
  }

  /* ---- log ---- */

  /** The log of a successful update, entry by entry. */
  lemma LogTable(st: State, upd: Update)
    requires SetOne(st, upd).Done? && Entries(st.log, upd.Name()) == []
    ensures Entries(SetOne(st, upd).st.log, upd.Name()) ==
              if Said(upd.should, Said(upd.actual, "absent")) == "present"
              then One(upd, "ensure") + One(upd, "ip") + One(upd, "host_aliases") + One(upd, "comment")
              else One(upd, "ensure")
  {
    LogForWritten(st, upd);
    EnsureIsSaid(upd);
    var start := [] + One(upd, "ensure");
    AddDiffIsOne([], "ensure", upd);
    AddDiffsCons(start, "ip", ["host_aliases", "comment"], upd);
    AddDiffsCons(start + One(upd, "ip"), "host_aliases", ["comment"], upd);
    AddDiffsCons(start + One(upd, "ip") + One(upd, "host_aliases"), "comment", [], upd);
    AddNoDiffs(start + One(upd, "ip") + One(upd, "host_aliases") + One(upd, "comment"), upd);
    hide SetOne, Ensure, One, AddDiff, AddDiffs;
    assert start == One(upd, "ensure");
    assert PROPERTIES == ["ip"] + ["host_aliases", "comment"] && ["comment"] == ["comment"] + [];
    assert ["host_aliases", "comment"] == ["host_aliases"] + ["comment"];
  }
}
