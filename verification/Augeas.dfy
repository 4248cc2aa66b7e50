/** The part of an Augeas tree that holds one table: a list of entries with labelled children. */
module Augeas {
  import opened Core

  /** `Line(n)` is a line that was loaded, `Fresh(k)` one made under the name "0<k>". */
  datatype Label = Line(n: nat) | Fresh(k: nat) | Comment

  datatype Field = IpAddr | Canonical | Alias | Remark | Spec | MountPoint | VfsType | Options | Dump | PassNo

  datatype Child = Child(field: Field, value: string)

  /** Comments are entries with a text and no children, and all have the same label. */
  datatype Entry = Entry(tag: Label, text: string, children: seq<Child>)

  type Table = seq<Entry>

  /* ---- reading ---- */

  function Values(cs: seq<Child>, field: Field): seq<string> {
    if cs == [] then []
    else if cs[0].field == field then [cs[0].value] + Values(cs[1..], field)
    else Values(cs[1..], field)
  }

  lemma {:induction false} ValuesAppend(a: seq<Child>, b: seq<Child>, field: Field)
    ensures Values(a + b, field) == Values(a, field) + Values(b, field)
  {
    if a == [] {
      assert a + b == b;
    } else {
      assert (a + b)[1..] == a[1..] + b;
      ValuesAppend(a[1..], b, field);
    }
  }

  lemma ValuesOne(c: Child, field: Field)
    ensures Values([c], field) == if c.field == field then [c.value] else []
  {
  }

  lemma {:induction false} NoneOfField(cs: seq<Child>, f: Field)
    requires forall j :: 0 <= j < |cs| ==> cs[j].field != f
    ensures Values(cs, f) == []
  {
    if cs != [] {
      NoneOfField(cs[1..], f);
    }
  }

  predicate HasValue(e: Entry, field: Field, v: string) {
    v in Values(e.children, field)
  }

  /** The labels of the entries that match `*[field = 'v']`. */
  function Matches(t: Table, field: Field, v: string): seq<Label> {
    if t == [] then []
    else if HasValue(t[0], field, v) then [t[0].tag] + Matches(t[1..], field, v)
    else Matches(t[1..], field, v)
  }

  lemma {:induction false} MatchesAppend(a: Table, b: Table, field: Field, v: string)
    ensures Matches(a + b, field, v) == Matches(a, field, v) + Matches(b, field, v)
  {
    hide HasValue;
    if a == [] {
      assert a + b == b;
    } else {
      assert (a + b)[0] == a[0] && (a + b)[1..] == a[1..] + b;
      MatchesAppend(a[1..], b, field, v);
    }
  }

  lemma {:induction false} NoMatch(t: Table, field: Field, v: string)
    ensures Matches(t, field, v) == [] <==> forall e :: e in t ==> !HasValue(e, field, v)
  {
    hide HasValue;
    if t != [] {
      NoMatch(t[1..], field, v);
      assert t == [t[0]] + t[1..];
    }
  }

  /** Where a table with exactly one match splits. */
  lemma {:induction false} OneMatch(t: Table, field: Field, v: string) returns (i: nat)
    requires |Matches(t, field, v)| == 1
    ensures i < |t| && HasValue(t[i], field, v) && Matches(t, field, v) == [t[i].tag]
    ensures Matches(t[..i], field, v) == [] && Matches(t[i + 1..], field, v) == []
  {
    hide HasValue;
    if HasValue(t[0], field, v) {
      i := 0;
    } else {
      var j := OneMatch(t[1..], field, v);
      i := j + 1;
      assert t[..i] == [t[0]] + t[1..][..j];
      assert t[i + 1..] == t[1..][j + 1..];
      assert Matches(t[..i], field, v) == Matches(t[1..][..j], field, v);
    }
  }

  /* ---- labels ---- */

  /** The position of the entry with this label, or the length of the table. */
  function IndexOf(t: Table, tag: Label): (i: nat)
    ensures i <= |t|
    ensures i < |t| ==> t[i].tag == tag
    ensures forall j :: 0 <= j < i ==> t[j].tag != tag
  {
    if t == [] || t[0].tag == tag then 0
    else
      var k := IndexOf(t[1..], tag);
      assert forall j :: 1 <= j < k + 1 ==> t[j] == t[1..][j - 1];
      k + 1
  }

  ghost predicate UniqueLabels(t: Table) {
    forall i, j :: 0 <= i < j < |t| && t[i].tag == t[j].tag ==> t[i].tag == Comment
  }

  /** Labels made so far are not above the counter, so that the next one is new. */
  ghost predicate Counted(t: Table, count: nat) {
    forall e :: e in t && e.tag.Fresh? ==> e.tag.k <= count
  }

  lemma IndexUnique(t: Table, i: nat)
    requires UniqueLabels(t) && i < |t| && t[i].tag != Comment
    ensures IndexOf(t, t[i].tag) == i
  {
  }

  /* ---- changing the tree ---- */

  /** `rm` on the path of an entry. */
  function RmEntry(t: Table, tag: Label): Table {
    var i := IndexOf(t, tag);
    if i < |t| then t[..i] + t[i + 1..] else t
  }

  /** `rm` on all children of an entry. */
  function EraseChildren(t: Table, tag: Label): Table {
    var i := IndexOf(t, tag);
    if i < |t| then t[i := t[i].(children := [])] else t
  }

  function ReplaceFirst(cs: seq<Child>, field: Field, v: string): seq<Child> {
    if cs == [] then []
    else if cs[0].field == field then [Child(field, v)] + cs[1..]
    else [cs[0]] + ReplaceFirst(cs[1..], field, v)
  }

  /** Setting a child makes it if there is none, and fails if there are several. */
  function SetChildIn(cs: seq<Child>, field: Field, v: string): Option<seq<Child>> {
    var n := |Values(cs, field)|;
    if n == 0 then Some(cs + [Child(field, v)])
    else if n == 1 then Some(ReplaceFirst(cs, field, v))
    else None
  }

  /** `set`, which also makes the entry if it is not there yet. */
  function SetChild(t: Table, tag: Label, field: Field, v: string): Option<Table> {
    var i := IndexOf(t, tag);
    if i == |t| then Some(t + [Entry(tag, "", [Child(field, v)])])
    else
      match SetChildIn(t[i].children, field, v)
      case None => None
      case Some(cs) => Some(t[i := t[i].(children := cs)])
  }

  /** `set` with "[last()+1]". */
  function AppendChild(t: Table, tag: Label, field: Field, v: string): Table {
    var i := IndexOf(t, tag);
    if i == |t| then t + [Entry(tag, "", [Child(field, v)])]
    else t[i := t[i].(children := t[i].children + [Child(field, v)])]
  }

  /** A table in which the entry with this label has these children; a new entry comes last. */
  function Written(t: Table, tag: Label, cs: seq<Child>): Table {
    var i := IndexOf(t, tag);
    if i < |t| then t[i := t[i].(children := cs)]
    else if cs == [] then t
    else t + [Entry(tag, "", cs)]
  }

  lemma WrittenIndex(t: Table, tag: Label, cs: seq<Child>)
    ensures IndexOf(Written(t, tag, cs), tag) == if IndexOf(t, tag) < |t| || cs != [] then IndexOf(t, tag) else |t|
  {
    var i := IndexOf(t, tag);
    var w := Written(t, tag, cs);
    var j := IndexOf(w, tag);
    if i < |t| || cs != [] {
      assert w[i].tag == tag;
      assert forall k :: 0 <= k < i ==> w[k] == t[k];
    }
  }

  lemma EraseIsWritten(t: Table, tag: Label)
    ensures EraseChildren(t, tag) == Written(t, tag, [])
  {
  }

  lemma SetAfterWritten(t: Table, tag: Label, cs: seq<Child>, field: Field, v: string)
    requires Values(cs, field) == []
    ensures SetChild(Written(t, tag, cs), tag, field, v) == Some(Written(t, tag, cs + [Child(field, v)]))
  {
    WrittenIndex(t, tag, cs);
    if IndexOf(t, tag) < |t| || cs != [] {
      WrittenAgain(t, tag, cs, cs + [Child(field, v)]);
    } else {
      assert cs + [Child(field, v)] == [Child(field, v)];
    }
  }

  /** Writing an entry twice keeps only the second version. */
  lemma WrittenAgain(t: Table, tag: Label, cs: seq<Child>, cs': seq<Child>)
    requires IndexOf(t, tag) < |t| || cs != []
    requires cs' != []
    ensures var w, i := Written(t, tag, cs), IndexOf(t, tag);
            i < |w| && w[i := w[i].(children := cs')] == Written(t, tag, cs')
  {
    var i := IndexOf(t, tag);
    if i < |t| {
      assert t[i := t[i].(children := cs)][i := t[i].(children := cs')] == t[i := t[i].(children := cs')];
    } else {
      assert (t + [Entry(tag, "", cs)])[i := Entry(tag, "", cs')] == t + [Entry(tag, "", cs')];
    }
  }

  lemma AppendAfterWritten(t: Table, tag: Label, cs: seq<Child>, field: Field, v: string)
    ensures AppendChild(Written(t, tag, cs), tag, field, v) == Written(t, tag, cs + [Child(field, v)])
  {
    WrittenIndex(t, tag, cs);
    if IndexOf(t, tag) < |t| || cs != [] {
      WrittenAgain(t, tag, cs, cs + [Child(field, v)]);
    } else {
      assert cs + [Child(field, v)] == [Child(field, v)];
    }
  }

  /* ---- labels stay unique and counted ---- */

  lemma LabelsAfterReplace(t: Table, count: nat, i: nat, cs: seq<Child>)
    requires UniqueLabels(t) && Counted(t, count) && i < |t|
    ensures UniqueLabels(t[i := t[i].(children := cs)]) && Counted(t[i := t[i].(children := cs)], count)
  {
    var t' := t[i := t[i].(children := cs)];
    forall e | e in t' && e.tag.Fresh? ensures e.tag.k <= count {
      var j :| 0 <= j < |t'| && t'[j] == e;
      assert t[j] in t;
    }
  }

  lemma LabelsAfterAppend(t: Table, count: nat, cs: seq<Child>)
    requires UniqueLabels(t) && Counted(t, count)
    ensures IndexOf(t, Fresh(count + 1)) == |t|
    ensures var t' := t + [Entry(Fresh(count + 1), "", cs)]; UniqueLabels(t') && Counted(t', count + 1)
  {
    forall j | 0 <= j < |t| ensures t[j].tag != Fresh(count + 1) {
      assert t[j] in t;
    }
  }

  lemma LabelsAfterRemove(t: Table, count: nat, i: nat)
    requires UniqueLabels(t) && Counted(t, count) && i < |t|
    ensures UniqueLabels(t[..i] + t[i + 1..]) && Counted(t[..i] + t[i + 1..], count)
  {
  }

  /* ---- the handle ---- */

  class Tree {
    var entries: Table
    var count: nat

    constructor (entries: Table, count: nat)
      ensures this.entries == entries && this.count == count
    {
      this.entries := entries;
      this.count := count;
    }

    method Match(field: Field, v: string) returns (labels: seq<Label>)
      ensures labels == Matches(entries, field, v)
    {
      labels := [];
      for i := 0 to |entries|
        invariant labels == Matches(entries[..i], field, v)
      {
        if HasValue(entries[i], field, v) {
          labels := labels + [entries[i].tag];
        }
        assert entries[..i + 1] == entries[..i] + [entries[i]];
        MatchesAppend(entries[..i], [entries[i]], field, v);
      }
      assert entries[..|entries|] == entries;
    }

    method MakeNodeSeqNext() returns (tag: Label)
      modifies this`count
      ensures count == old(count) + 1 && tag == Fresh(count)
    {
      count := count + 1;
      tag := Fresh(count);
    }

    method Rm(tag: Label)
      modifies this`entries
      ensures entries == RmEntry(old(entries), tag)
    {
      var i := IndexOf(entries, tag);
      if i < |entries| {
        entries := entries[..i] + entries[i + 1..];
      }
    }

    /**
     * Starts writing an entry: erases its children. `base` and `cs` follow what has been written
     * since, see `Written`.
     */
    method Erase(tag: Label)
      modifies this`entries
      ensures entries == Written(old(entries), tag, [])
    {
      EraseIsWritten(entries, tag);
      var i := IndexOf(entries, tag);
      if i < |entries| {
        entries := entries[i := entries[i].(children := [])];
      }
    }

    /** `set`; fails without effect if several children have that name. */
    method Set(tag: Label, field: Field, v: string) returns (ok: bool)
      modifies this`entries
      ensures ok == SetChild(old(entries), tag, field, v).Some?
      ensures entries == if ok then SetChild(old(entries), tag, field, v).value else old(entries)
    {
      match SetChild(entries, tag, field, v)
      case None => ok := false;
      case Some(t) =>
        entries := t;
        ok := true;
    }

    method Append(tag: Label, field: Field, v: string)
      modifies this`entries
      ensures entries == AppendChild(old(entries), tag, field, v)
    {
      entries := AppendChild(entries, tag, field, v);
    }
  }
}
