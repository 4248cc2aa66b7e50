/** The host provider: desired states become lines of the hosts table, and lines become resources. */
module Host {
  import opened Core
  import opened Changes
  import opened Augeas

  datatype HostError = MultipleEntries | IllegalEnsure | MissingCanonical | AmbiguousChild | SaveFailed

  datatype State = State(entries: Table, count: nat, log: Log)

  datatype Outcome = Done(st: State) | Failed(st: State, error: HostError)

  /* ---- one entry, written and read ---- */

  function OptChild(field: Field, v: Value): seq<Child> {
    if v.IsSet() then [Child(field, v.ToString())] else []
  }

  function AliasList(v: Value): seq<string> {
    if v.Array? then v.a else []
  }

  function AliasChildren(a: seq<string>): seq<Child> {
    seq(|a|, i requires 0 <= i < |a| => Child(Alias, a[i]))
  }

  /** The children that `update_base` gives an entry, in the order in which it sets them. */
  function HostChildren(upd: Update): seq<Child> {
    OptChild(IpAddr, upd.At("ip")) + [Child(Canonical, upd.Name())]
      + AliasChildren(AliasList(upd.At("host_aliases"))) + OptChild(Remark, upd.At("comment"))
  }

  function WithAttr(attrs: map<string, Value>, key: string, v: Value): map<string, Value> {
    if v.IsSet() then attrs[key := v] else attrs
  }

  const TARGET := "/etc/hosts"

  function HostAttrs(ip: Value, aliases: Value, comment: Value): map<string, Value> {
    WithAttr(WithAttr(WithAttr(map["ensure" := Str("present"), "target" := Str(TARGET)],
                               "ip", ip), "host_aliases", aliases), "comment", comment)
  }

  function First(vs: seq<string>): Value {
    if vs == [] then NoValue else Str(vs[0])
  }

  function ArrayOrUnset(vs: seq<string>): Value {
    if vs == [] then NoValue else Array(vs)
  }

  /** What the lens guarantees of a line, and what reading it relies on. */
  predicate GoodEntry(e: Entry) {
    && |Values(e.children, Canonical)| == 1
    && |Values(e.children, IpAddr)| <= 1 && |Values(e.children, Remark)| <= 1
  }

  predicate GoodLine(e: Entry) {
    if e.tag == Comment then e.children == [] else GoodEntry(e)
  }

  predicate GoodTable(t: Table) {
    forall i :: 0 <= i < |t| ==> GoodLine(t[i])
  }

  function Show(e: Entry): Resource
    requires GoodEntry(e)
  {
    Resource(Values(e.children, Canonical)[0],
             HostAttrs(First(Values(e.children, IpAddr)), ArrayOrUnset(Values(e.children, Alias)),
                       First(Values(e.children, Remark))))
  }

  function TextOf(v: Value): Value {
    if v.IsSet() then Str(v.ToString()) else NoValue
  }

  /** The overlay of an update as `get` will show it. */
  function Shown(upd: Update): Resource {
    Resource(upd.Name(), HostAttrs(TextOf(upd.At("ip")), ArrayOrUnset(AliasList(upd.At("host_aliases"))),
                                   TextOf(upd.At("comment"))))
  }

  lemma {:induction false} AliasValues(a: seq<string>, field: Field)
    ensures Values(AliasChildren(a), field) == if field == Alias then a else []
  {
    if a != [] {
      AliasValues(a[1..], field);
      assert AliasChildren(a)[1..] == AliasChildren(a[1..]);
      assert a == [a[0]] + a[1..];
    }
  }

  lemma HostChildrenValues(upd: Update, field: Field)
    ensures Values(HostChildren(upd), field) ==
              match field
              case IpAddr => (if upd.At("ip").IsSet() then [upd.At("ip").ToString()] else [])
              case Canonical => [upd.Name()]
              case Alias => AliasList(upd.At("host_aliases"))
              case Remark => (if upd.At("comment").IsSet() then [upd.At("comment").ToString()] else [])
              case _ => []
  {
    var a, b := OptChild(IpAddr, upd.At("ip")), [Child(Canonical, upd.Name())];
    var c, d := AliasChildren(AliasList(upd.At("host_aliases"))), OptChild(Remark, upd.At("comment"));
    ValuesAppend(a + b + c, d, field);
    ValuesAppend(a + b, c, field);
    ValuesAppend(a, b, field);
    AliasValues(AliasList(upd.At("host_aliases")), field);
    OptValues(IpAddr, upd.At("ip"), field);
    OptValues(Remark, upd.At("comment"), field);
    ValuesOne(Child(Canonical, upd.Name()), field);
    hide Values, AliasChildren, OptChild, Value.ToString;
  }

  lemma OptValues(own: Field, v: Value, field: Field)
    ensures Values(OptChild(own, v), field) == if v.IsSet() && own == field then [v.ToString()] else []
  {
  }

  /** Reading an entry back after writing it shows the overlay. */
  lemma WriteThenRead(upd: Update, tag: Label, text: string)
    ensures GoodEntry(Entry(tag, text, HostChildren(upd)))
    ensures Show(Entry(tag, text, HostChildren(upd))) == Shown(upd)
  {
    hide HostChildren, Value.ToString;
    HostChildrenValues(upd, IpAddr);
    HostChildrenValues(upd, Canonical);
    HostChildrenValues(upd, Alias);
    HostChildrenValues(upd, Remark);
  }

  lemma NoRemarkYet(upd: Update)
    ensures Values([] + OptChild(IpAddr, upd.At("ip")) + [Child(Canonical, upd.Name())]
                     + AliasChildren(AliasList(upd.At("host_aliases"))), Remark) == []
  {
    var a, b := [] + OptChild(IpAddr, upd.At("ip")), [Child(Canonical, upd.Name())];
    var c := AliasChildren(AliasList(upd.At("host_aliases")));
    ValuesAppend(a + b, c, Remark);
    ValuesAppend(a, b, Remark);
    AliasValues(AliasList(upd.At("host_aliases")), Remark);
  }

  /* ---- one update ---- */

  function SetPresent(st: State, upd: Update): Outcome {
    var tags := Matches(st.entries, Canonical, upd.Name());
    if |tags| == 0 then
      Done(st.(entries := Written(st.entries, Fresh(st.count + 1), HostChildren(upd)), count := st.count + 1))
    else if |tags| == 1 then Done(st.(entries := Written(st.entries, tags[0], HostChildren(upd))))
    else Failed(st, MultipleEntries)
  }

  function SetAbsent(st: State, upd: Update): Outcome {
    var tags := Matches(st.entries, Canonical, upd.Name());
    if |tags| == 0 then Done(st.(entries := RmEntry(st.entries, Fresh(st.count + 1)), count := st.count + 1))
    else if |tags| == 1 then Done(st.(entries := RmEntry(st.entries, tags[0])))
    else Failed(st, MultipleEntries)
  }

  function Ensure(upd: Update): string {
    upd.should.Lookup("ensure", upd.actual.Lookup("ensure", "absent"))
  }

  const PROPERTIES := ["ip", "host_aliases", "comment"]

  function LogEnsure(st: State, upd: Update): State {
    st.(log := st.log[upd.Name() := AddDiff(Entries(st.log, upd.Name()), "ensure", upd)])
  }

  function LogProperties(st: State, upd: Update): State {
    st.(log := st.log[upd.Name() := AddDiffs(Entries(st.log, upd.Name()), PROPERTIES, upd)])
  }

  function SetOne(st: State, upd: Update): Outcome {
    var st1 := LogEnsure(st, upd);
    if Ensure(upd) == "present" then SetPresent(LogProperties(st1, upd), upd)
    else if Ensure(upd) == "absent" then SetAbsent(st1, upd)
    else Failed(st1, IllegalEnsure)
  }

  function SetAll(st: State, upds: seq<Update>): Outcome
    decreases |upds|
  {
    if upds == [] then Done(st)
    else
      match SetAll(st, upds[..|upds| - 1])
      case Failed(s, e) => Failed(s, e)
      case Done(s) => SetOne(s, upds[|upds| - 1])
  }

  /** The resources of a table, in the order of its lines. */
  function View(t: Table): seq<Resource>
    requires GoodTable(t)
  {
    if t == [] then []
    else if t[0].tag == Comment then View(t[1..])
    else [Show(t[0])] + View(t[1..])
  }

  /* ---- the provider ---- */

  class Provider {
    var tree: Tree
    var saved: Table

    constructor (tree: Tree)
      ensures this.tree == tree
    {
      this.tree := tree;
      saved := tree.entries;
    }

    ghost function Now(ctx: Context): State
      reads this, tree, ctx
    {
      State.State(tree.entries, tree.count, ctx.log)
    }

    /** The node of the only entry with this name, or that of a new one. */
    method Base(upd: Update) returns (tag: Option<Label>)
      modifies tree
      ensures tree.entries == old(tree.entries)
      ensures var tags := Matches(tree.entries, Canonical, upd.Name());
              && tree.count == old(tree.count) + (if tags == [] then 1 else 0)
              && tag == if |tags| == 0 then Some(Fresh(tree.count)) else if |tags| == 1 then Some(tags[0]) else None
    {
      var tags := tree.Match(Canonical, upd.Name());
      if |tags| == 1 {
        return Some(tags[0]);
      } else if |tags| == 0 {
        var made := tree.MakeNodeSeqNext();
        return Some(made);
      } else {
        return None;
      }
    }

    /** `node::set`: nothing happens for an unset value. */
    method SetValue(ghost start: Table, tag: Label, ghost cs: seq<Child>, field: Field, v: Value)
      requires tree.entries == Written(start, tag, cs) && Values(cs, field) == []
      modifies tree`entries
      ensures tree.entries == Written(start, tag, cs + OptChild(field, v))
    {
      if v.IsSet() {
        SetAfterWritten(start, tag, cs, field, v.ToString());
        var ok := tree.Set(tag, field, v.ToString());
      } else {
        assert cs + [] == cs;
      }
    }

    method AppendAliases(ghost start: Table, tag: Label, ghost cs: seq<Child>, aliases: seq<string>)
      requires tree.entries == Written(start, tag, cs)
      modifies tree`entries
      ensures tree.entries == Written(start, tag, cs + AliasChildren(aliases))
    {
      assert cs + AliasChildren(aliases[..0]) == cs;
      for i := 0 to |aliases|
        invariant tree.entries == Written(start, tag, cs + AliasChildren(aliases[..i]))
      {
        ghost var done := cs + AliasChildren(aliases[..i]);
        AppendAfterWritten(start, tag, done, Alias, aliases[i]);
        tree.Append(tag, Alias, aliases[i]);
        assert cs + AliasChildren(aliases[..i + 1]) == done + [Child(Alias, aliases[i])];
      }
      assert aliases[..|aliases|] == aliases;
    }

    method UpdateBase(ctx: Context, upd: Update) returns (r: Option<HostError>)
      modifies tree
      ensures match SetPresent(old(Now(ctx)), upd)
              case Done(st) => r == None && Now(ctx) == st
              case Failed(st, e) => r == Some(e) && Now(ctx) == st
    {
      var tag := Base(upd);
      if tag.None? {
        return Some(MultipleEntries);
      }
      WriteEntry(tag.value, upd);
      return None;
    }

    method WriteEntry(tag: Label, upd: Update)
      modifies tree`entries
      ensures tree.entries == Written(old(tree.entries), tag, HostChildren(upd))
    {
      ghost var start := tree.entries;
      tree.Erase(tag);
      SetValue(start, tag, [], IpAddr, upd.At("ip"));
      ghost var cs := [] + OptChild(IpAddr, upd.At("ip"));
      SetValue(start, tag, cs, Canonical, Str(upd.Name()));
      assert OptChild(Canonical, Str(upd.Name())) == [Child(Canonical, upd.Name())];
      cs := cs + [Child(Canonical, upd.Name())];
      AppendAliases(start, tag, cs, AliasList(upd.At("host_aliases")));
      cs := cs + AliasChildren(AliasList(upd.At("host_aliases")));
      NoRemarkYet(upd);
      SetValue(start, tag, cs, Remark, upd.At("comment"));
      assert cs + OptChild(Remark, upd.At("comment")) == HostChildren(upd);
    }

    method SetUpdate(ctx: Context, upd: Update) returns (r: Option<HostError>)
      modifies tree, ctx
      ensures match SetOne(old(Now(ctx)), upd)
              case Done(st) => r == None && Now(ctx) == st
              case Failed(st, e) => r == Some(e) && Now(ctx) == st
    {
      var state := upd.actual.Lookup("ensure", "absent");
      var ensure := upd.should.Lookup("ensure", state);
      var any := ctx.AddChanged("ensure", upd);
      if ensure == "present" {
        any := ctx.AddAllChanged(PROPERTIES, upd);
        r := UpdateBase(ctx, upd);
      } else if ensure == "absent" {
        var tag := Base(upd);
        if tag.None? {
          return Some(MultipleEntries);
        }
        tree.Rm(tag.value);
        return None;
      } else {
        return Some(IllegalEnsure);
      }
    }

    method SetUpdates(ctx: Context, upds: seq<Update>, saveWorks: bool) returns (r: Option<HostError>)
      modifies this`saved, tree, ctx
      ensures match SetAll(old(Now(ctx)), upds)
              case Done(st) => Now(ctx) == st && (r == None <==> saveWorks) && (saveWorks ==> saved == st.entries)
              case Failed(st, e) => r == Some(e) && Now(ctx) == st && saved == old(saved)
    {
      for i := 0 to |upds|
        invariant tree == old(tree) && saved == old(saved)
        invariant SetAll(old(Now(ctx)), upds[..i]) == Done(Now(ctx))
      {
        assert upds[..i + 1][..i] == upds[..i];
        r := SetUpdate(ctx, upds[i]);
        if r.Some? {
          SetAllFails(old(Now(ctx)), upds, i + 1);
          return r;
        }
      }
      assert upds[..|upds|] == upds;
      if !saveWorks {
        return Some(SaveFailed);
      }
      saved := tree.entries;
      return None;
    }

    /** Reading all hosts; an entry that the lens does not produce is an error. */
    method Get(ctx: Context, names: seq<string>) returns (r: Option<seq<Resource>>)
      ensures r.Some? <==> forall e :: e in tree.entries && e.tag != Comment ==> GoodEntry(e)
      ensures r.Some? && GoodTable(tree.entries) ==> r.value == AddAbsentSpec(View(tree.entries), names)
    {
      var res := [];
      for i := 0 to |tree.entries|
        invariant forall j :: 0 <= j < i && tree.entries[j].tag != Comment ==> GoodEntry(tree.entries[j])
        invariant GoodTable(tree.entries) ==> res == View(tree.entries[..i])
      {
        var e := tree.entries[i];
        if e.tag != Comment {
          if !GoodEntry(e) {
            return None;
          }
          res := res + [Show(e)];
        }
        if GoodTable(tree.entries) {
          assert tree.entries[..i + 1] == tree.entries[..i] + [e];
          ViewAppend(tree.entries[..i], [e]);
        }
      }
      assert tree.entries[..|tree.entries|] == tree.entries;
      var all := ctx.AddAbsent(res, names);
      return Some(all);
    }
  }

  lemma {:induction false} ViewAppend(a: Table, b: Table)
    requires GoodTable(a) && GoodTable(b)
    ensures GoodTable(a + b) && View(a + b) == View(a) + View(b)
  {
    if a == [] {
      assert a + b == b;
    } else {
      hide Show, GoodEntry;
      var t := a + b;
      assert forall i :: 0 <= i < |t| ==> t[i] == if i < |a| then a[i] else b[i - |a|];
      ViewAppend(a[1..], b);
      assert (a + b)[0] == a[0] && (a + b)[1..] == a[1..] + b;
    }
  }

  lemma {:induction false} SetAllFails(st: State, upds: seq<Update>, k: nat)
    requires k <= |upds| && SetAll(st, upds[..k]).Failed?
    ensures SetAll(st, upds) == SetAll(st, upds[..k])
    decreases |upds| - k
  {
    if k < |upds| {
      assert upds[..k + 1][..k] == upds[..k];
      SetAllFails(st, upds, k + 1);
    } else {
      assert upds[..k] == upds;
    }
  }
}
