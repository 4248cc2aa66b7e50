/** `get` of the mount provider is a join of two tables, and entries read back as they were written. */
module MountGet {
  import opened Core
  import opened Text
  import opened Changes
  import opened Augeas
  import opened Fstab
  import opened Mount

  function Count(t: Table, name: string): nat {
    |Matches(t, MountPoint, name)|
  }

  lemma CountAppend(a: Table, b: Table, name: string)
    ensures Count(a + b, name) == Count(a, name) + Count(b, name)
  {
    MatchesAppend(a, b, MountPoint, name);
  }

  lemma CountOne(e: Entry, name: string)
    ensures Count([e], name) == if HasValue(e, MountPoint, name) then 1 else 0
  {
    hide HasValue;
    assert Matches([e][1..], MountPoint, name) == [];
  }

  lemma HasNameOf(e: Entry, name: string)
    requires GoodLine(e)
    ensures HasValue(e, MountPoint, name) <==> e.tag != Comment && NameOf(e) == name
  {
  }

  lemma {:induction false} FirstIndexSnoc(t: Table, e: Entry, name: string)
    ensures FirstIndex(t + [e], name) ==
              if FirstIndex(t, name) < |t| then FirstIndex(t, name)
              else if HasValue(e, MountPoint, name) then |t| else |t| + 1
  {
    hide HasValue;
    if t == [] {
      assert (t + [e])[1..] == [];
    } else {
      assert (t + [e])[0] == t[0] && (t + [e])[1..] == t[1..] + [e];
      FirstIndexSnoc(t[1..], e, name);
    }
  }

  lemma {:induction false} FirstIndexFound(t: Table, name: string)
    ensures FirstIndex(t, name) < |t| <==> Count(t, name) > 0
  {
    hide HasValue;
    if t != [] {
      FirstIndexFound(t[1..], name);
    }
  }

  lemma LastOf(t: Table)
    requires t != []
    ensures t == t[..|t| - 1] + [t[|t| - 1]]
  {
  }

  lemma {:induction false} FstabMapExact(t: Table, name: string)
    requires GoodTable(t)
    ensures name in FstabMap(t) <==> Count(t, name) > 0
    ensures name in FstabMap(t) ==>
              var i := FirstIndex(t, name);
              i < |t| && t[i].tag != Comment && FstabMap(t)[name] == Make(t[i], "unmounted")
    decreases |t|
  {
    FirstIndexFound(t, name);
    if t != [] {
      var rest, e := t[..|t| - 1], t[|t| - 1];
      LastOf(t);
      FstabMapExact(rest, name);
      FirstIndexFound(rest, name);
      FirstIndexSnoc(rest, e, name);
      CountAppend(rest, [e], name);
      CountOne(e, name);
      assert GoodLine(e);
      HasNameOf(e, name);
      hide Make, HasValue, Matches, GoodLine;
    }
  }

  lemma MakeSetEnsure(e: Entry, a: string, b: string)
    requires GoodLine(e) && e.tag != Comment
    ensures Make(e, a).Set("ensure", Str(b)) == Make(e, b)
    ensures Make(e, a).Get("ensure") == Str(a) && Make(e, a).name == NameOf(e)
  {
    hide Values;
    assert Make(e, a).attrs["ensure" := Str(b)] == Make(e, b).attrs;
  }

  /** The state of a name in the two tables. A repeated line of mtab makes a ghost look mounted. */
  function Status(fstab: Table, mtab: Table, name: string): string {
    if Count(fstab, name) > 0 then (if Count(mtab, name) > 0 then "mounted" else "unmounted")
    else if Count(mtab, name) == 0 then "absent"
    else if Count(mtab, name) == 1 then "ghost"
    else "mounted"
  }

  /** The line from which a name gets its attributes: the first one, and fstab before mtab. */
  ghost predicate ComesFrom(fstab: Table, mtab: Table, r: Resource) {
    var t := if Count(fstab, r.name) > 0 then fstab else mtab;
    var i := FirstIndex(t, r.name);
    i < |t| && GoodLine(t[i]) && t[i].tag != Comment && r == Make(t[i], Status(fstab, mtab, r.name))
  }

  lemma {:induction false} BothMapExact(fstab: Table, mtab: Table, name: string)
    requires GoodTable(fstab) && GoodTable(mtab)
    ensures name in BothMap(fstab, mtab) <==> Count(fstab, name) + Count(mtab, name) > 0
    ensures name in BothMap(fstab, mtab) ==>
              BothMap(fstab, mtab)[name].name == name && ComesFrom(fstab, mtab, BothMap(fstab, mtab)[name])
    decreases |mtab|
  {
    if mtab == [] {
      FstabMapExact(fstab, name);
      if name in FstabMap(fstab) {
        var e := fstab[FirstIndex(fstab, name)];
        MakeSetEnsure(e, "unmounted", "unmounted");
        HasNameOf(e, name);
      }
    } else {
      BothMapStep(fstab, mtab, name);
    }
  }

  /** A further line of mtab: what it means for the line and the status of a name. */
  lemma StatusStep(fstab: Table, rest: Table, e: Entry, name: string)
    requires GoodLine(e)
    ensures var hit := e.tag != Comment && NameOf(e) == name;
            && Count(rest + [e], name) == Count(rest, name) + (if hit then 1 else 0)
            && (Count(rest, name) > 0 ==>
                  FirstIndex(rest + [e], name) == FirstIndex(rest, name) && FirstIndex(rest, name) < |rest|)
            && (Count(rest, name) == 0 && hit ==> FirstIndex(rest + [e], name) == |rest|)
  {
    HasNameOf(e, name);
    CountAppend(rest, [e], name);
    CountOne(e, name);
    FirstIndexSnoc(rest, e, name);
    FirstIndexFound(rest, name);
  }

  lemma ComesFromStep(fstab: Table, rest: Table, e: Entry, r: Resource)
    requires GoodLine(e) && ComesFrom(fstab, rest, r)
    requires Count(fstab, r.name) + Count(rest, r.name) > 0
    ensures var hit := e.tag != Comment && NameOf(e) == r.name;
            ComesFrom(fstab, rest + [e], if hit then r.Set("ensure", Str("mounted")) else r)
  {
    StatusStep(fstab, rest, e, r.name);
    var t := if Count(fstab, r.name) > 0 then fstab else rest;
    var line := t[FirstIndex(t, r.name)];
    MakeSetEnsure(line, Status(fstab, rest, r.name), "mounted");
    hide Make, Count, FirstIndex, GoodLine, NameOf;
  }

  lemma {:induction false} BothMapStep(fstab: Table, mtab: Table, name: string)
    requires GoodTable(fstab) && GoodTable(mtab) && mtab != []
    ensures name in BothMap(fstab, mtab) <==> Count(fstab, name) + Count(mtab, name) > 0
    ensures name in BothMap(fstab, mtab) ==>
              BothMap(fstab, mtab)[name].name == name && ComesFrom(fstab, mtab, BothMap(fstab, mtab)[name])
    decreases |mtab|, 0
  {
    hide Make, FirstIndex, GoodLine, Count, Status, FstabMap, ComesFrom, NameOf;
    var rest, e := mtab[..|mtab| - 1], mtab[|mtab| - 1];
    LastOf(mtab);
    BothMapExact(fstab, rest, name);
    StatusStep(fstab, rest, e, name);
    var before := BothMap(fstab, rest);
    if name in before {
      ComesFromStep(fstab, rest, e, before[name]);
    } else if e.tag != Comment && NameOf(e) == name {
      NewGhost(fstab, rest, e);
    }
  }

  lemma NewGhost(fstab: Table, rest: Table, e: Entry)
    requires GoodLine(e) && e.tag != Comment
    requires Count(fstab, NameOf(e)) == 0 && Count(rest, NameOf(e)) == 0
    ensures Make(e, "ghost").name == NameOf(e)
    ensures ComesFrom(fstab, rest + [e], Make(e, "ghost"))
  {
    StatusStep(fstab, rest, e, NameOf(e));
    MakeSetEnsure(e, "ghost", "ghost");
    hide Make, Count, FirstIndex, GoodLine, NameOf;
  }

  /**
   * For any two tables, the answer is sorted by name without repetition, holds exactly the
   * names of both tables, and shows for each the attributes of its first line and its status.
   */
  lemma GetIsJoin(fstab: Table, mtab: Table)
    requires GoodTable(fstab) && GoodTable(mtab)
    ensures var rs := GetSpec(fstab, mtab);
            && (forall i, j :: 0 <= i < j < |rs| ==> Before(rs[i].name, rs[j].name))
            && (forall n :: HasName(rs, n) <==> Count(fstab, n) + Count(mtab, n) > 0)
            && (forall r :: r in rs ==> ComesFrom(fstab, mtab, r))
  {
    hide LexLe, Before, ComesFrom, BothMap, Count;
    var m := BothMap(fstab, mtab);
    SortedIsInOrder(m.Keys);
    var keys, rs := Sorted(m.Keys), GetSpec(fstab, mtab);
    forall i | 0 <= i < |rs| ensures rs[i].name == keys[i] && ComesFrom(fstab, mtab, rs[i]) {
      assert keys[i] in keys;
      BothMapExact(fstab, mtab, keys[i]);
    }
    forall n ensures HasName(rs, n) <==> Count(fstab, n) + Count(mtab, n) > 0 {
      BothMapExact(fstab, mtab, n);
      NameListed(rs, keys, n);
    }
  }

  lemma NameListed(rs: seq<Resource>, keys: seq<string>, n: string)
    requires |rs| == |keys| && forall i :: 0 <= i < |rs| ==> rs[i].name == keys[i]
    ensures HasName(rs, n) <==> n in keys
  {
    if n in keys {
      var k :| 0 <= k < |keys| && keys[k] == n;
      assert rs[k] in rs;
    }
  }

  lemma EnsureIsStatus(fstab: Table, mtab: Table, r: Resource)
    requires ComesFrom(fstab, mtab, r)
    ensures r.Get("ensure") == Str(Status(fstab, mtab, r.name))
  {
    var t := if Count(fstab, r.name) > 0 then fstab else mtab;
    var e := t[FirstIndex(t, r.name)];
    MakeSetEnsure(e, Status(fstab, mtab, r.name), "");
    FirstIndexFound(t, r.name);
    hide Count, Make, FirstIndex, GoodLine;
  }

  /** When a listed filesystem is reported as mounted, and when as a ghost. */
  lemma MountedIff(fstab: Table, mtab: Table)
    requires GoodTable(fstab) && GoodTable(mtab)
    ensures forall r :: r in GetSpec(fstab, mtab) ==>
              && (r.Get("ensure") == Str("mounted") <==>
                    Count(mtab, r.name) >= 2 || (Count(mtab, r.name) == 1 && Count(fstab, r.name) > 0))
              && (r.Get("ensure") == Str("ghost") <==> Count(fstab, r.name) == 0 && Count(mtab, r.name) == 1)
  {
    GetIsJoin(fstab, mtab);
    hide GetSpec, ComesFrom, Count;
    forall r | r in GetSpec(fstab, mtab) ensures r.Get("ensure") == Str(Status(fstab, mtab, r.name)) {
      EnsureIsStatus(fstab, mtab, r);
    }
  }

  /** A filesystem that is not in fstab but twice in mtab is reported as mounted, not as a ghost. */
  lemma GhostCalledMounted(e: Entry)
    requires GoodLine(e) && e.tag != Comment
    ensures GetSpec([], [e]) == [Make(e, "ghost")]
    ensures GetSpec([], [e, e]) == [Make(e, "mounted")]
  {
    assert [e, e][..1] == [e] && [e][..0] == [];
    MakeSetEnsure(e, "ghost", "mounted");
    hide GoodLine, Make, NameOf;
    OnlyOne(map[NameOf(e) := Make(e, "ghost")], NameOf(e));
    OnlyOne(map[NameOf(e) := Make(e, "mounted")], NameOf(e));
    assert BothMap([], [e]) == map[NameOf(e) := Make(e, "ghost")];
    assert BothMap([], [e, e]) == map[NameOf(e) := Make(e, "mounted")];
  }

  lemma OnlyOne(m: ByName, name: string)
    requires m.Keys == {name}
    ensures InOrder(m, m.Keys) == [m[name]]
  {
    LexTotal(name, name);
    SortedStep(name, {name});
    assert {name} - {name} == {};
  }

  /* ---- writing and reading one entry ---- */

  /** The children that are written are always the full record of the lens. */
  lemma WritesFullRecord(upd: Update)
    ensures MountChildren(upd) == Children(MountRecord(upd)) && |MountRecord(upd).extra| == 3
    ensures WellFormed(MountRecord(upd)) ==> FromChildren(MountChildren(upd)) == Some(MountRecord(upd))
  {
    if WellFormed(MountRecord(upd)) {
      ChildrenRoundTrip(MountRecord(upd));
    }
    hide WellFormed, FromChildren;
    var r := MountRecord(upd);
    assert ExtraChildren(r.extra) == [Child(Options, r.extra[0]), Child(Dump, r.extra[1]), Child(PassNo, r.extra[2])];
  }

  /** Reading such an entry gives the overlay, with the defaults for what was not given. */
  lemma WrittenReadsBack(upd: Update, tag: Label, ens: string)
    requires tag != Comment
    ensures GoodLine(Entry(tag, "", MountChildren(upd)))
    ensures Make(Entry(tag, "", MountChildren(upd)), ens) == Resource(upd.Name(), map[
      "device" := Str(upd.At("device").ToString()), "fstype" := Str(upd.At("fstype").ToString()),
      "options" := Str(TextOr(upd.At("options"), "defaults")), "dump" := Str(TextOr(upd.At("dump"), "0")),
      "pass" := Str(TextOr(upd.At("pass"), "0")), "ensure" := Str(ens), "target" := Str("/etc/fstab")])
  {
    var cs := MountChildren(upd);
    SixValues(cs);
    hide Values, TextOr;
  }

  lemma SixValues(cs: seq<Child>)
    requires |cs| == 6
    requires cs[0].field == Spec && cs[1].field == MountPoint && cs[2].field == VfsType
    requires cs[3].field == Options && cs[4].field == Dump && cs[5].field == PassNo
    ensures Values(cs, Spec) == [cs[0].value] && Values(cs, MountPoint) == [cs[1].value]
    ensures Values(cs, VfsType) == [cs[2].value] && Values(cs, Options) == [cs[3].value]
    ensures Values(cs, Dump) == [cs[4].value] && Values(cs, PassNo) == [cs[5].value]
  {
    hide Values;
    OneValue(cs, 0);
    OneValue(cs, 1);
    OneValue(cs, 2);
    OneValue(cs, 3);
    OneValue(cs, 4);
    OneValue(cs, 5);
  }

  /** A field that occurs once has one value. */
  lemma {:induction false} OneValue(cs: seq<Child>, i: nat)
    requires i < |cs| && forall j :: 0 <= j < |cs| && j != i ==> cs[j].field != cs[i].field
    ensures Values(cs, cs[i].field) == [cs[i].value]
  {
    var f := cs[i].field;
    assert cs == cs[..i] + [cs[i]] + cs[i + 1..];
    ValuesAppend(cs[..i] + [cs[i]], cs[i + 1..], f);
    ValuesAppend(cs[..i], [cs[i]], f);
    ValuesOne(cs[i], f);
    hide Values;
    NoneOfField(cs[..i], f);
    NoneOfField(cs[i + 1..], f);
  }
}
