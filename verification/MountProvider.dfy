/** The mount provider as an object: it edits the fstab in memory, saves it and runs commands. */
module MountProvider {
  import opened Core
  import opened Text
  import opened Changes
  import opened Augeas
  import opened Fstab
  import opened Mount

  type Status = Option<MountError>

  function Ended(r: Status, m: Mounts): Outcome {
    match r
    case None => Done(m)
    case Some(e) => Failed(m, e)
  }

  class Provider {
    const tree: Tree
    var saved: Table
    var mtab: Table
    ghost var trace: seq<Event>

    constructor (tree: Tree, mtab: Table)
      ensures this.tree == tree && saved == tree.entries && this.mtab == mtab && trace == []
    {
      this.tree := tree;
      saved := tree.entries;
      this.mtab := mtab;
      trace := [];
    }

    ghost function Now(log: Log): Mounts
      reads this, tree
    {
      Mounts(tree.entries, tree.count, saved, mtab, log, trace)
    }

    /* ---- get ---- */

    /** The resources by name, first those of the fstab, then those of mtab. */
    method Collect() returns (m: Option<ByName>)
      ensures m.Some? <==> forall e :: (e in tree.entries || e in mtab) && e.tag != Comment ==> GoodLine(e)
      ensures m.Some? && GoodTable(tree.entries) && GoodTable(mtab) ==> m.value == BothMap(tree.entries, mtab)
    {
      hide Values, Make;
      var resources: ByName := map[];
      for i := 0 to |tree.entries|
        invariant forall j :: 0 <= j < i && tree.entries[j].tag != Comment ==> GoodLine(tree.entries[j])
        invariant GoodTable(tree.entries) ==> resources == FstabMap(tree.entries[..i])
      {
        var e := tree.entries[i];
        if e.tag != Comment {
          if !GoodLine(e) {
            return None;
          }
          if NameOf(e) !in resources {
            resources := resources[NameOf(e) := Make(e, "unmounted")];
          }
        }
        assert tree.entries[..i + 1][..i] == tree.entries[..i];
      }
      assert tree.entries[..|tree.entries|] == tree.entries;
      for i := 0 to |mtab|
        invariant forall j :: 0 <= j < i && mtab[j].tag != Comment ==> GoodLine(mtab[j])
        invariant GoodTable(tree.entries) && GoodTable(mtab) ==> resources == BothMap(tree.entries, mtab[..i])
      {
        var e := mtab[i];
        if e.tag != Comment {
          if !GoodLine(e) {
            return None;
          }
          if NameOf(e) in resources {
            resources := resources[NameOf(e) := resources[NameOf(e)].Set("ensure", Str("mounted"))];
          } else {
            resources := resources[NameOf(e) := Make(e, "ghost")];
          }
        }
        assert mtab[..i + 1][..i] == mtab[..i];
      }
      assert mtab[..|mtab|] == mtab;
      return Some(resources);
    }

    method Get() returns (r: Option<seq<Resource>>)
      ensures r.Some? <==> forall e :: (e in tree.entries || e in mtab) && e.tag != Comment ==> GoodLine(e)
      ensures r.Some? && GoodTable(tree.entries) && GoodTable(mtab) ==> r.value == GetSpec(tree.entries, mtab)
    {
      var m := Collect();
      if m.None? {
        return None;
      }
      var list := Listing(m.value);
      return Some(list);
    }

    static method Listing(m: ByName) returns (list: seq<Resource>)
      ensures list == InOrder(m, m.Keys)
    {
      hide LexLe, Sorted;
      list := [];
      var todo := m.Keys;
      while todo != {}
        invariant todo <= m.Keys
        invariant list + InOrder(m, todo) == InOrder(m, m.Keys)
        decreases |todo|
      {
        LeastExists(todo);
        var name :| IsLeast(name, todo);
        InOrderStep(m, todo, name);
        list := list + [m[name]];
        todo := todo - {name};
      }
      InOrderNone(m);
    }

    /* ---- set ---- */

    method Save(env: set<Step>, ghost log: Log) returns (r: Status)
      modifies this`saved
      ensures Ended(r, Now(log)) == Flush(old(Now(log)), env)
    {
      if Saving in env || !FitsTable(tree.entries) {
        return Some(SaveFailed);
      }
      saved := tree.entries;
      return None;
    }

    method SetValue(ghost start: Table, tag: Label, ghost cs: seq<Child>, field: Field, v: string)
      requires tree.entries == Written(start, tag, cs) && Values(cs, field) == []
      modifies tree`entries
      ensures tree.entries == Written(start, tag, cs + [Child(field, v)])
    {
      SetAfterWritten(start, tag, cs, field, v);
      var ok := tree.Set(tag, field, v);
    }

    method WriteEntry(tag: Label, upd: Update)
      modifies tree`entries
      ensures tree.entries == Written(old(tree.entries), tag, MountChildren(upd))
    {
      ghost var start := tree.entries;
      ghost var cs := MountChildren(upd);
      hide Values;
      tree.Erase(tag);
      PrefixValues(upd);
      assert cs[..0] == [];
      SetValue(start, tag, cs[..0], Spec, upd.At("device").ToString());
      assert cs[..0] + [cs[0]] == cs[..1];
      SetValue(start, tag, cs[..1], MountPoint, upd.Name());
      assert cs[..1] + [cs[1]] == cs[..2];
      SetValue(start, tag, cs[..2], VfsType, upd.At("fstype").ToString());
      assert cs[..2] + [cs[2]] == cs[..3];
      SetValue(start, tag, cs[..3], Options, TextOr(upd.At("options"), "defaults"));
      assert cs[..3] + [cs[3]] == cs[..4];
      SetValue(start, tag, cs[..4], Dump, TextOr(upd.At("dump"), "0"));
      assert cs[..4] + [cs[4]] == cs[..5];
      SetValue(start, tag, cs[..5], PassNo, TextOr(upd.At("pass"), "0"));
      assert cs[..5] + [cs[5]] == cs;
    }

    method WriteBase(upd: Update, ghost log: Log) returns (r: Status)
      modifies tree
      ensures Ended(r, Now(log)) == UpdateBase(old(Now(log)), upd)
    {
      if !upd.At("device").IsSet() || !upd.At("fstype").IsSet() {
        return Some(MissingField);
      }
      if upd.Present() {
        var tags := tree.Match(MountPoint, upd.Name());
        if |tags| != 1 {
          EraseAll(upd.Name());
          return Some(NotResolved);
        }
        WriteEntry(tags[0], upd);
      } else {
        var tag := tree.MakeNodeSeqNext();
        WriteEntry(tag, upd);
      }
      return None;
    }

    method EraseAll(name: string)
      modifies tree`entries
      ensures tree.entries == EraseMatching(old(tree.entries), name)
    {
      hide EraseMatching, HasValue;
      var start := tree.entries;
      EraseNone(name);
      for i := 0 to |start|
        invariant |EraseMatching(start[..i], name)| == i
        invariant tree.entries == EraseMatching(start[..i], name) + start[i..]
      {
        EraseStep(start, i, name);
        if HasValue(start[i], MountPoint, name) {
          tree.entries := tree.entries[i := start[i].(children := [])];
        }
      }
      assert start[..|start|] == start;
    }

    method RemoveBase(upd: Update, ghost log: Log) returns (r: Status)
      modifies tree
      ensures Ended(r, Now(log)) == RemoveFromFstab(old(Now(log)), upd)
    {
      if upd.Present() {
        tree.entries := RmMatching(tree.entries, upd.Name());
      } else {
        var tag := tree.MakeNodeSeqNext();
        tree.Rm(tag);
      }
      return None;
    }

    method WriteFstab(ctx: Context, upd: Update) returns (r: Status)
      modifies tree, ctx
      ensures Ended(r, Now(ctx.log)) == UpdateFstab(old(Now(ctx.log)), upd)
    {
      hide AddDiffs, UpdateBase;
      var any := ctx.AddAllChanged(PROPERTIES, upd);
      r := WriteBase(upd, ctx.log);
    }

    method MountNow(name: string, state: string, env: set<Step>, ghost log: Log) returns (r: Status)
      modifies this
      ensures Ended(r, Now(log)) == DoMount(old(Now(log)), name, state, env)
    {
      r := Save(env, log);
      if r.None? && state != "mounted" {
        trace := trace + [RanMount(name, saved)];
        var i := FirstIndex(saved, name);
        if Mounting in env || i == |saved| {
          return Some(CommandFailed);
        }
        mtab := mtab + [Entry(Line(|mtab| + 1), "", saved[i].children)];
      }
    }

    method UnmountNow(name: string, state: string, env: set<Step>, ghost log: Log) returns (r: Status)
      modifies this
      ensures Ended(r, Now(log)) == DoUnmount(old(Now(log)), name, state, env)
    {
      r := Save(env, log);
      if r.None? && state != "unmounted" && state != "absent" {
        trace := trace + [RanUmount(name, saved)];
        var i := LastIndex(mtab, name);
        if Unmounting in env || i == -1 {
          return Some(CommandFailed);
        }
        mtab := mtab[..i] + mtab[i + 1..];
      }
    }

    method SetUpdate(ctx: Context, upd: Update, env: set<Step>) returns (r: Status)
      modifies this, tree, ctx
      ensures Ended(r, Now(ctx.log)) == SetOne(old(Now(ctx.log)), upd, env)
    {
      hide UpdateFstab, RemoveFromFstab, DoMount, DoUnmount;
      var state := upd.actual.Lookup("ensure", "absent");
      var ensure := upd.should.Lookup("ensure", state);
      var any := ctx.AddChanged("ensure", upd);
      if ensure == "present" {
        r := WriteFstab(ctx, upd);
      } else if ensure == "absent" {
        r := UnmountNow(upd.Name(), state, env, ctx.log);
        if r.None? {
          r := RemoveBase(upd, ctx.log);
        }
      } else if ensure == "unmounted" {
        r := UnmountNow(upd.Name(), state, env, ctx.log);
        if r.None? {
          r := WriteFstab(ctx, upd);
        }
      } else if ensure == "mounted" {
        r := WriteFstab(ctx, upd);
        if r.None? {
          r := MountNow(upd.Name(), state, env, ctx.log);
        }
      } else {
        r := Some(IllegalEnsure);
      }
    }

    method SetUpdates(ctx: Context, upds: seq<Update>, envs: nat -> set<Step>) returns (r: Status)
      modifies this, tree, ctx
      ensures Ended(r, Now(ctx.log)) == SetAll(old(Now(ctx.log)), upds, envs)
    {
      hide SetOne, Flush;
      ghost var start := Now(ctx.log);
      for i := 0 to |upds|
        invariant SetEach(start, upds[..i], envs) == Done(Now(ctx.log))
      {
        assert upds[..i + 1][..i] == upds[..i];
        r := SetUpdate(ctx, upds[i], envs(i));
        if r.Some? {
          SetEachFails(start, upds, i + 1, envs);
          return r;
        }
      }
      assert upds[..|upds|] == upds;
      r := Save(envs(|upds|), ctx.log);
    }
  }

  lemma InOrderStep(m: ByName, keys: set<string>, name: string)
    requires keys <= m.Keys && IsLeast(name, keys)
    ensures InOrder(m, keys) == [m[name]] + InOrder(m, keys - {name})
  {
    SortedStep(name, keys);
  }

  lemma InOrderNone(m: ByName)
    ensures InOrder(m, {}) == []
  {
  }

  /** While the fields are set one by one, the next one is not there yet. */
  lemma PrefixValues(upd: Update)
    ensures var cs := MountChildren(upd);
            && Values(cs[..0], Spec) == [] && Values(cs[..1], MountPoint) == [] && Values(cs[..2], VfsType) == []
            && Values(cs[..3], Options) == [] && Values(cs[..4], Dump) == [] && Values(cs[..5], PassNo) == []
  {
    var cs := MountChildren(upd);
    NoneOfField(cs[..0], Spec);
    NoneOfField(cs[..1], MountPoint);
    NoneOfField(cs[..2], VfsType);
    NoneOfField(cs[..3], Options);
    NoneOfField(cs[..4], Dump);
    NoneOfField(cs[..5], PassNo);
  }

  lemma {:induction false} EraseSnoc(t: Table, e: Entry, name: string)
    ensures EraseMatching(t + [e], name)
              == EraseMatching(t, name) + [if HasValue(e, MountPoint, name) then e.(children := []) else e]
  {
    hide HasValue;
    if t == [] {
      assert (t + [e])[1..] == [];
    } else {
      assert (t + [e])[1..] == t[1..] + [e];
      EraseSnoc(t[1..], e, name);
    }
  }

  /** One more entry of a table erased, or left alone. */
  lemma EraseStep(start: Table, i: nat, name: string)
    requires i < |start| && |EraseMatching(start[..i], name)| == i
    ensures var entries := EraseMatching(start[..i], name) + start[i..];
            var e := if HasValue(start[i], MountPoint, name) then start[i].(children := []) else start[i];
            && EraseMatching(start[..i + 1], name) == EraseMatching(start[..i], name) + [e]
            && entries[i := e] == EraseMatching(start[..i + 1], name) + start[i + 1..]
            && (!HasValue(start[i], MountPoint, name) ==> entries[i := e] == entries)
  {
    EraseSnoc(start[..i], start[i], name);
    hide EraseMatching, HasValue;
    assert start[..i + 1] == start[..i] + [start[i]];
    assert start[i..] == [start[i]] + start[i + 1..];
  }

  lemma EraseNone(name: string)
    ensures EraseMatching([], name) == []
  {
  }

  lemma {:induction false} SetEachFails(m: Mounts, upds: seq<Update>, k: nat, envs: nat -> set<Step>)
    requires k <= |upds| && SetEach(m, upds[..k], envs).Failed?
    ensures SetEach(m, upds, envs) == SetEach(m, upds[..k], envs)
    decreases |upds| - k
  {
    if k < |upds| {
      assert upds[..k + 1][..k] == upds[..k];
      SetEachFails(m, upds, k + 1, envs);
    } else {
      assert upds[..k] == upds;
    }
  }
}
