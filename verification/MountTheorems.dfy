/** Runs of the mount provider: commands come after their entry is saved, and states are reached. */
module MountTheorems {
  import opened Core
  import opened Changes
  import opened Augeas
  import opened Fstab
  import opened Mount
  import opened MountGet

  /* ---- no filesystem is mounted before its line has been saved ---- */

  ghost predicate Ordered(trace: seq<Event>) {
    forall i :: 0 <= i < |trace| && trace[i].RanMount? ==> Count(trace[i].saved, trace[i].name) > 0
  }

  lemma WrittenCounts(t: Table, tag: Label, upd: Update)
    ensures Count(Written(t, tag, MountChildren(upd)), upd.Name()) > 0
  {
    var cs := MountChildren(upd);
    var w := Written(t, tag, cs);
    var i := IndexOf(t, tag);
    SixValues(cs);
    hide Values;
    assert i < |w| && w[i].children == cs;
    assert w[i] in w && HasValue(w[i], MountPoint, upd.Name());
    NoMatch(w, MountPoint, upd.Name());
  }

  lemma UpdateFstabCounts(m: Mounts, upd: Update)
    ensures UpdateFstab(m, upd).Done? ==> Count(UpdateFstab(m, upd).m.fstab, upd.Name()) > 0
    ensures var m' := UpdateFstab(m, upd).m; m'.trace == m.trace && m'.saved == m.saved && m'.mtab == m.mtab
  {
    hide MountChildren, AddDiffs, Matches;
    WrittenCounts(m.fstab, Fresh(m.count + 1), upd);
    var tags := Matches(m.fstab, MountPoint, upd.Name());
    if |tags| == 1 {
      WrittenCounts(m.fstab, tags[0], upd);
    }
  }

  /** In every step of one update, for any state and any failures, each `mount` finds its line saved. */
  lemma SetOneOrdered(m: Mounts, upd: Update, env: set<Step>)
    requires Ordered(m.trace)
    ensures Ordered(SetOne(m, upd, env).m.trace)
  {
    hide UpdateFstab, DoMount, DoUnmount, RemoveFromFstab, Count, Ordered;
    var m0, name, state := LogEnsure(m, upd), upd.Name(), StateOf(upd);
    if Ensure(upd) == "present" {
      UpdateFstabCounts(m0, upd);
    } else if Ensure(upd) == "mounted" {
      UpdateFstabCounts(m0, upd);
      if UpdateFstab(m0, upd).Done? {
        MountOrdered(UpdateFstab(m0, upd).m, name, state, env);
      }
    } else {
      UnmountOrdered(m0, name, state, env);
      RemoveKeepsTrace(DoUnmount(m0, name, state, env).m, upd);
      UpdateFstabCounts(DoUnmount(m0, name, state, env).m, upd);
    }
  }

  lemma UnmountOrdered(m: Mounts, name: string, state: string, env: set<Step>)
    requires Ordered(m.trace)
    ensures Ordered(DoUnmount(m, name, state, env).m.trace)
  {
    hide Count, FitsTable, LastIndex;
  }

  lemma MountOrdered(m: Mounts, name: string, state: string, env: set<Step>)
    requires Ordered(m.trace) && Count(m.fstab, name) > 0
    ensures Ordered(DoMount(m, name, state, env).m.trace)
  {
    hide Count, FitsTable, FirstIndex;
  }

  lemma RemoveKeepsTrace(m: Mounts, upd: Update)
    ensures RemoveFromFstab(m, upd).m.trace == m.trace
  {
    hide RmMatching, RmEntry;
  }

  lemma {:induction false} SetEachOrdered(m: Mounts, upds: seq<Update>, envs: nat -> set<Step>)
    requires Ordered(m.trace)
    ensures Ordered(SetEach(m, upds, envs).m.trace)
    decreases |upds|
  {
    if upds != [] {
      hide SetOne, Ordered;
      SetEachOrdered(m, upds[..|upds| - 1], envs);
      var m1 := SetEach(m, upds[..|upds| - 1], envs);
      if m1.Done? {
        SetOneOrdered(m1.m, upds[|upds| - 1], envs(|upds| - 1));
      }
    }
  }

  /**
   * Over any run, successful or not, every `mount NAME` is run when the saved fstab already
   * holds NAME, so that the command never fails for want of a line.
   */
  lemma MountsAfterSaving(m: Mounts, upds: seq<Update>, envs: nat -> set<Step>)
    requires Ordered(m.trace)
    ensures Ordered(SetAll(m, upds, envs).m.trace)
  {
    hide SetEach, FitsTable, Ordered;
    SetEachOrdered(m, upds, envs);
  }

  lemma FlushFits(m: Mounts, env: set<Step>)
    requires FitsTable(m.saved)
    ensures FitsTable(Flush(m, env).m.saved)
  {
  }

  lemma SetOneFits(m: Mounts, upd: Update, env: set<Step>)
    requires FitsTable(m.saved)
    ensures FitsTable(SetOne(m, upd, env).m.saved)
  {
    var m0 := LogEnsure(m, upd);
    UpdateFstabCounts(m0, upd);
    hide UpdateFstab, FitsTable, Matches, LastIndex, FirstIndex, RmMatching;
    if UpdateFstab(m0, upd).Done? {
      FlushFits(UpdateFstab(m0, upd).m, env);
    }
    if Ensure(upd) == "unmounted" {
      UpdateFstabCounts(DoUnmount(m0, upd.Name(), StateOf(upd), env).m, upd);
    }
  }

  /** What is on disk always fits the lens, so loading it again gives the same entries. */
  lemma {:induction false} SavedReloads(m: Mounts, upds: seq<Update>, envs: nat -> set<Step>)
    requires FitsTable(m.saved)
    ensures FitsTable(SetEach(m, upds, envs).m.saved)
    ensures var saved := SetEach(m, upds, envs).m.saved; ParseTable(PrintTable(saved)) == Some(Renumber(saved, 1))
    decreases |upds|
  {
    if upds != [] {
      hide SetOne, FitsTable, ParseTable, PrintTable, Renumber;
      SavedReloads(m, upds[..|upds| - 1], envs);
      var m1 := SetEach(m, upds[..|upds| - 1], envs);
      if m1.Done? {
        SetOneFits(m1.m, upds[|upds| - 1], envs(|upds| - 1));
      }
    }
    ReloadOfSave(SetEach(m, upds, envs).m.saved);
  }

  /* ---- what one update does to the counts of names, and to the other lines ---- */

  predicate NamedIn(e: Entry, names: set<string>) {
    exists n :: n in names && HasValue(e, MountPoint, n)
  }

  /** The lines of other names, in order. */
  function Kept(t: Table, names: set<string>): seq<seq<Child>> {
    if t == [] then []
    else if NamedIn(t[0], names) then Kept(t[1..], names)
    else [t[0].children] + Kept(t[1..], names)
  }

  lemma {:induction false} KeptAppend(a: Table, b: Table, names: set<string>)
    ensures Kept(a + b, names) == Kept(a, names) + Kept(b, names)
  {
    hide NamedIn;
    if a == [] {
      assert a + b == b;
    } else {
      assert (a + b)[0] == a[0] && (a + b)[1..] == a[1..] + b;
      KeptAppend(a[1..], b, names);
    }
  }

  lemma KeptOne(e: Entry, names: set<string>)
    ensures Kept([e], names) == if NamedIn(e, names) then [] else [e.children]
  {
    hide NamedIn;
    assert Kept([e][1..], names) == [];
  }

  /** A line of this name, and of no other. */
  ghost predicate LineOf(e: Entry, name: string) {
    forall n :: HasValue(e, MountPoint, n) <==> n == name
  }

  /** Two tables that differ only in lines of one name, of which there were `was` and are `now`. */
  ghost predicate DifferAt(t: Table, t': Table, name: string, was: nat, now: nat) {
    && Count(t, name) == was && Count(t', name) == now
    && (forall n :: n != name ==> Count(t', n) == Count(t, n))
    && (forall names :: name in names ==> Kept(t', names) == Kept(t, names))
  }

  lemma LineNamedIn(e: Entry, name: string, names: set<string>)
    requires LineOf(e, name) && name in names
    ensures NamedIn(e, names)
  {
    assert HasValue(e, MountPoint, name);
  }

  /** Lines of one name between others can be exchanged for any number of lines of that name. */
  lemma ExchangeAt(a: Table, olds: Table, news: Table, b: Table, name: string)
    requires |olds| <= 1 && |news| <= 1
    requires olds != [] ==> LineOf(olds[0], name)
    requires news != [] ==> LineOf(news[0], name)
    ensures DifferAt(a + olds + b, a + news + b, name, Count(a, name) + Count(b, name) + |olds|,
                     Count(a, name) + Count(b, name) + |news|)
  {
    hide HasValue, Kept, Matches;
    forall n
      ensures Count(a + olds + b, n) == Count(a, n) + Count(b, n) + (if n == name then |olds| else 0)
      ensures Count(a + news + b, n) == Count(a, n) + Count(b, n) + (if n == name then |news| else 0)
    {
      CountMiddle(a, olds, b, name, n);
      CountMiddle(a, news, b, name, n);
    }
    forall names | name in names ensures Kept(a + news + b, names) == Kept(a + olds + b, names) {
      KeptMiddle(a, olds, b, name, names);
      KeptMiddle(a, news, b, name, names);
    }
  }

  lemma CountMiddle(a: Table, mid: Table, b: Table, name: string, n: string)
    requires |mid| <= 1 && (mid != [] ==> LineOf(mid[0], name))
    ensures Count(a + mid + b, n) == Count(a, n) + Count(b, n) + (if n == name then |mid| else 0)
  {
    hide Count, HasValue;
    CountAppend(a + mid, b, n);
    CountAppend(a, mid, n);
    if mid == [] {
      CountNone(n);
    } else {
      assert mid == [mid[0]];
      CountOne(mid[0], n);
    }
  }

  lemma CountNone(n: string)
    ensures Count([], n) == 0
  {
  }

  lemma KeptMiddle(a: Table, mid: Table, b: Table, name: string, names: set<string>)
    requires |mid| <= 1 && (mid != [] ==> LineOf(mid[0], name)) && name in names
    ensures Kept(a + mid + b, names) == Kept(a, names) + Kept(b, names)
  {
    hide NamedIn, LineOf, Kept;
    KeptAppend(a + mid, b, names);
    KeptAppend(a, mid, names);
    if mid == [] {
      KeptNone(names);
    } else {
      assert mid == [mid[0]];
      KeptOne(mid[0], names);
      LineNamedIn(mid[0], name, names);
    }
  }

  lemma GoodLineOf(e: Entry, name: string)
    requires GoodLine(e) && HasValue(e, MountPoint, name)
    ensures LineOf(e, name) && e.tag != Comment
  {
    forall n ensures HasValue(e, MountPoint, n) <==> n == name {
      HasNameOf(e, n);
      HasNameOf(e, name);
    }
  }

  lemma WrittenLineOf(upd: Update, tag: Label, text: string)
    requires tag != Comment
    ensures GoodLine(Entry(tag, text, MountChildren(upd))) && LineOf(Entry(tag, text, MountChildren(upd)), upd.Name())
  {
    SixValues(MountChildren(upd));
    hide Values;
  }

  /* ---- the three changes of a table ---- */

  ghost predicate Ok(t: Table, count: nat) {
    GoodTable(t) && UniqueLabels(t) && Counted(t, count)
  }

  /** A new line at the end. */
  lemma AppendLine(t: Table, e: Entry, name: string)
    requires GoodTable(t) && GoodLine(e) && LineOf(e, name)
    ensures GoodTable(t + [e]) && DifferAt(t, t + [e], name, Count(t, name), Count(t, name) + 1)
  {
    ExchangeAt(t, [], [e], [], name);
    CountNone(name);
    assert t + [] + [] == t && t + [e] + [] == t + [e];
  }

  /** A line taken away. */
  lemma DropLine(t: Table, i: nat, name: string)
    requires GoodTable(t) && i < |t| && HasValue(t[i], MountPoint, name)
    ensures Count(t, name) >= 1 && GoodTable(t[..i] + t[i + 1..])
    ensures DifferAt(t, t[..i] + t[i + 1..], name, Count(t, name), Count(t, name) - 1)
  {
    hide HasValue, GoodLine;
    GoodLineOf(t[i], name);
    ExchangeAt(t[..i], [t[i]], [], t[i + 1..], name);
    assert t[..i] + [t[i]] + t[i + 1..] == t;
    assert t[..i] + [] + t[i + 1..] == t[..i] + t[i + 1..];
  }

  /** A line rewritten under the same name. */
  lemma RewriteLine(t: Table, i: nat, e: Entry, name: string)
    requires GoodTable(t) && i < |t| && HasValue(t[i], MountPoint, name)
    requires GoodLine(e) && LineOf(e, name)
    ensures GoodTable(t[i := e]) && DifferAt(t, t[i := e], name, Count(t, name), Count(t, name))
  {
    hide HasValue, GoodLine;
    GoodLineOf(t[i], name);
    ExchangeAt(t[..i], [t[i]], [e], t[i + 1..], name);
    assert t[..i] + [t[i]] + t[i + 1..] == t;
    assert t[..i] + [e] + t[i + 1..] == t[i := e];
  }

  /** All lines of a name taken away. */
  lemma {:induction false} RmMatchingDiffers(t: Table, name: string)
    requires GoodTable(t)
    ensures GoodTable(RmMatching(t, name))
    ensures DifferAt(t, RmMatching(t, name), name, Count(t, name), 0)
  {
    if t == [] {
    } else {
      RmMatchingDiffers(t[1..], name);
      hide GoodLine, HasValue;
      var first := if HasValue(t[0], MountPoint, name) then [] else [t[0]];
      var rest := RmMatching(t[1..], name);
      assert t == [t[0]] + t[1..] && RmMatching(t, name) == first + rest;
      assert GoodLine(t[0]);
      if first == [] {
        GoodLineOf(t[0], name);
      }
      RmStep(t[0], t[1..], first, rest, name);
    }
  }

  lemma RmStep(e: Entry, t: Table, first: Table, rest: Table, name: string)
    requires if first == [] then LineOf(e, name) else first == [e] && !HasValue(e, MountPoint, name)
    requires DifferAt(t, rest, name, Count(t, name), 0)
    ensures DifferAt([e] + t, first + rest, name, Count([e] + t, name), 0)
  {
    hide HasValue, NamedIn, Kept, Count;
    forall n {:trigger Count(first + rest, n)}
      ensures Count(first + rest, n) == if n == name then 0 else Count([e] + t, n)
    {
      CountAppend([e], t, n);
      CountAppend(first, rest, n);
      CountOne(e, n);
      CountNone(n);
    }
    forall names | name in names ensures Kept(first + rest, names) == Kept([e] + t, names) {
      KeptAppend([e], t, names);
      KeptAppend(first, rest, names);
      KeptOne(e, names);
      if first == [] {
        LineNamedIn(e, name, names);
        KeptNone(names);
      }
    }
  }

  lemma KeptNone(names: set<string>)
    ensures Kept([], names) == []
  {
  }

  lemma {:induction false} RmMatchingLabels(t: Table, count: nat, name: string)
    requires UniqueLabels(t) && Counted(t, count)
    ensures UniqueLabels(RmMatching(t, name)) && Counted(RmMatching(t, name), count)
    ensures forall e :: e in RmMatching(t, name) ==> e in t
  {
    hide HasValue;
    if t != [] {
      assert t == [t[0]] + t[1..];
      RmMatchingLabels(t[1..], count, name);
      var rest := RmMatching(t[1..], name);
      forall j | 0 <= j < |rest| && rest[j].tag == t[0].tag ensures rest[j].tag == Comment {
        assert rest[j] in t[1..];
        var k :| 0 <= k < |t[1..]| && t[1..][k] == rest[j];
        assert t[k + 1] == rest[j];
      }
    }
  }

  /* ---- the effect of one update ---- */

  ghost predicate Good(m: Mounts) {
    Ok(m.fstab, m.count) && GoodTable(m.mtab)
  }

  ghost predicate AccurateState(m: Mounts, upd: Update) {
    StateOf(upd) == Status(m.fstab, m.mtab, upd.Name())
  }

  lemma NewLineEffect(t: Table, count: nat, upd: Update)
    requires Ok(t, count) && Count(t, upd.Name()) == 0
    ensures Ok(Written(t, Fresh(count + 1), MountChildren(upd)), count + 1)
    ensures DifferAt(t, Written(t, Fresh(count + 1), MountChildren(upd)), upd.Name(), 0, 1)
  {
    hide HasValue, GoodLine, GoodTable, DifferAt, Matches, LineOf, UniqueLabels, Counted;
    var e := Entry(Fresh(count + 1), "", MountChildren(upd));
    LabelsAfterAppend(t, count, MountChildren(upd));
    WrittenLineOf(upd, e.tag, "");
    AppendLine(t, e, upd.Name());
  }

  lemma RewrittenLineEffect(t: Table, count: nat, upd: Update)
    requires Ok(t, count) && Count(t, upd.Name()) == 1
    ensures var tag := Matches(t, MountPoint, upd.Name())[0];
            && Ok(Written(t, tag, MountChildren(upd)), count)
            && DifferAt(t, Written(t, tag, MountChildren(upd)), upd.Name(), 1, 1)
  {
    var i := OneMatch(t, MountPoint, upd.Name());
    GoodLineOf(t[i], upd.Name());
    hide HasValue, GoodLine, DifferAt, LineOf, Matches;
    IndexUnique(t, i);
    LabelsAfterReplace(t, count, i, MountChildren(upd));
    WrittenLineOf(upd, t[i].tag, t[i].text);
    RewriteLine(t, i, t[i].(children := MountChildren(upd)), upd.Name());
  }

  lemma UpdateFstabEffect(m: Mounts, upd: Update)
    requires Ok(m.fstab, m.count) && UpdateFstab(m, upd).Done?
    requires !upd.Present() ==> Count(m.fstab, upd.Name()) == 0
    ensures var m' := UpdateFstab(m, upd).m;
            && Ok(m'.fstab, m'.count)
            && DifferAt(m.fstab, m'.fstab, upd.Name(), Count(m.fstab, upd.Name()), 1)
            && m'.mtab == m.mtab
            && Count(m.fstab, upd.Name()) == if upd.Present() then 1 else 0
  {
    hide Ok, DifferAt, MountChildren, AddDiffs, Written;
    if upd.Present() {
      RewrittenLineEffect(m.fstab, m.count, upd);
    } else {
      NewLineEffect(m.fstab, m.count, upd);
    }
  }

  lemma RemoveEffect(m: Mounts, upd: Update)
    requires Ok(m.fstab, m.count)
    requires !upd.Present() ==> Count(m.fstab, upd.Name()) == 0
    ensures var r := RemoveFromFstab(m, upd);
            && r.Done? && Ok(r.m.fstab, r.m.count) && r.m.mtab == m.mtab
            && DifferAt(m.fstab, r.m.fstab, upd.Name(), Count(m.fstab, upd.Name()), 0)
  {
    hide DifferAt, GoodTable, UniqueLabels, Counted;
    if upd.Present() {
      RmMatchingDiffers(m.fstab, upd.Name());
      RmMatchingLabels(m.fstab, m.count, upd.Name());
    } else {
      LabelsAfterAppend(m.fstab, m.count, []);
      SameDiffers(m.fstab, upd.Name());
      MoreCounted(m.fstab, m.count);
    }
  }

  lemma SameDiffers(t: Table, name: string)
    ensures DifferAt(t, t, name, Count(t, name), Count(t, name))
  {
  }

  lemma MoreCounted(t: Table, count: nat)
    requires Counted(t, count)
    ensures Counted(t, count + 1)
  {
  }

  lemma DoMountEffect(m: Mounts, name: string, state: string, env: set<Step>)
    requires Good(m) && DoMount(m, name, state, env).Done?
    ensures var m' := DoMount(m, name, state, env).m;
            && m'.fstab == m.fstab && m'.count == m.count && GoodTable(m'.mtab)
            && DifferAt(m.mtab, m'.mtab, name, Count(m.mtab, name),
                        Count(m.mtab, name) + if state != "mounted" then 1 else 0)
  {
    hide FitsTable, DifferAt, Count;
    SameDiffers(m.mtab, name);
    if state != "mounted" {
      var i := FirstIndex(m.fstab, name);
      var e := Entry(Line(|m.mtab| + 1), "", m.fstab[i].children);
      assert GoodLine(m.fstab[i]) && HasValue(m.fstab[i], MountPoint, name);
      assert GoodLine(e) && HasValue(e, MountPoint, name);
      hide GoodTable, HasValue, GoodLine, LineOf;
      GoodLineOf(e, name);
      AppendLine(m.mtab, e, name);
    }
  }

  lemma DoUnmountEffect(m: Mounts, name: string, state: string, env: set<Step>)
    requires Good(m) && DoUnmount(m, name, state, env).Done?
    ensures var m', ran := DoUnmount(m, name, state, env).m, state != "unmounted" && state != "absent";
            && m'.fstab == m.fstab && m'.count == m.count && GoodTable(m'.mtab)
            && (ran ==> Count(m.mtab, name) >= 1)
            && DifferAt(m.mtab, m'.mtab, name, Count(m.mtab, name),
                        if ran && Count(m.mtab, name) >= 1 then Count(m.mtab, name) - 1 else Count(m.mtab, name))
  {
    hide FitsTable, DifferAt, Count, GoodTable, HasValue;
    SameDiffers(m.mtab, name);
    if state != "unmounted" && state != "absent" {
      DropLine(m.mtab, LastIndex(m.mtab, name), name);
    }
  }

  /** How many lines of mtab a successful update leaves for its name. */
  function MountsAfter(ensure: string, state: string, was: nat): nat {
    if ensure == "mounted" then (if state != "mounted" then was + 1 else was)
    else if ensure == "present" then was
    else if state != "unmounted" && state != "absent" && was >= 1 then was - 1 else was
  }

  lemma SetOneEffect(m: Mounts, upd: Update, env: set<Step>)
    requires Good(m) && AccurateState(m, upd) && SetOne(m, upd, env).Done?
    ensures var m', name := SetOne(m, upd, env).m, upd.Name();
            && Ensure(upd) in {"present", "absent", "unmounted", "mounted"}
            && Good(m')
            && DifferAt(m.fstab, m'.fstab, name, Count(m.fstab, name), if Ensure(upd) == "absent" then 0 else 1)
            && DifferAt(m.mtab, m'.mtab, name, Count(m.mtab, name),
                        MountsAfter(Ensure(upd), StateOf(upd), Count(m.mtab, name)))
            && (Ensure(upd) != "absent" ==> Count(m.fstab, name) == if upd.Present() then 1 else 0)
  {
    var m0, name, state := LogEnsure(m, upd), upd.Name(), StateOf(upd);
    assert !upd.Present() ==> Count(m.fstab, name) == 0;
    hide Ok, Count, DifferAt, GoodTable, UpdateFstab, DoMount, DoUnmount, RemoveFromFstab, Status;
    SameDiffers(m.mtab, name);
    if Ensure(upd) == "present" {
      UpdateFstabEffect(m0, upd);
    } else if Ensure(upd) == "absent" {
      DoUnmountEffect(m0, name, state, env);
      RemoveEffect(DoUnmount(m0, name, state, env).m, upd);
    } else if Ensure(upd) == "unmounted" {
      DoUnmountEffect(m0, name, state, env);
      UpdateFstabEffect(DoUnmount(m0, name, state, env).m, upd);
    } else {
      UpdateFstabEffect(m0, upd);
      DoMountEffect(UpdateFstab(m0, upd).m, name, state, env);
    }
  }

  /* ---- the state that is reached ---- */

  /**
   * What a fresh `get` reports after a successful update that asked for `ensure`, where `was` is
   * the number of lines that mtab held: `umount` takes away only one of them.
   */
  function Reached(ensure: string, was: nat): string {
    if ensure == "mounted" then "mounted"
    else if ensure == "present" then (if was > 0 then "mounted" else "unmounted")
    else if ensure == "unmounted" then (if was <= 1 then "unmounted" else "mounted")
    else (if was <= 1 then "absent" else if was == 2 then "ghost" else "mounted")
  }

  lemma ReachedIff(ensure: string, was: nat)
    requires ensure in {"mounted", "unmounted", "absent"}
    ensures Reached(ensure, was) == ensure <==> ensure == "mounted" || was <= 1
  {
  }

  lemma SetOneReaches(m: Mounts, upd: Update, env: set<Step>)
    requires Good(m) && AccurateState(m, upd) && SetOne(m, upd, env).Done?
    ensures Good(SetOne(m, upd, env).m)
    ensures Status(SetOne(m, upd, env).m.fstab, SetOne(m, upd, env).m.mtab, upd.Name())
              == Reached(Ensure(upd), Count(m.mtab, upd.Name()))
  {
    hide SetOne, Good, Count;
    SetOneEffect(m, upd, env);
  }

  ghost predicate DistinctUpdates(upds: seq<Update>) {
    forall i, j :: 0 <= i < j < |upds| ==> upds[i].Name() != upds[j].Name()
  }

  /** What is known after the updates of a run, but for the last save. */
  lemma {:induction false} SetEachReaches(m: Mounts, upds: seq<Update>, envs: nat -> set<Step>, names: set<string>)
    requires Good(m) && DistinctUpdates(upds)
    requires forall u :: u in upds ==> AccurateState(m, u) && u.Name() in names
    requires SetEach(m, upds, envs).Done?
    ensures var m' := SetEach(m, upds, envs).m;
            && Good(m')
            && (forall u :: u in upds ==>
                  Status(m'.fstab, m'.mtab, u.Name()) == Reached(Ensure(u), Count(m.mtab, u.Name())))
            && (forall n :: (forall u :: u in upds ==> u.Name() != n) ==>
                  Count(m'.fstab, n) == Count(m.fstab, n) && Count(m'.mtab, n) == Count(m.mtab, n))
            && Kept(m'.fstab, names) == Kept(m.fstab, names) && Kept(m'.mtab, names) == Kept(m.mtab, names)
    decreases |upds|
  {
    if upds == [] {
    } else {
      hide SetOne, Good, Count, Status, Ensure, Reached, Kept, Update.Name, StateOf, SetEach, DistinctUpdates;
      var rest, last := upds[..|upds| - 1], upds[|upds| - 1];
      SetEachLast(m, upds, envs);
      RunSplit(upds);
      SetEachReaches(m, rest, envs, names);
      var m1, m' := SetEach(m, rest, envs).m, SetEach(m, upds, envs).m;
      LastReaches(m, m1, last, envs(|upds| - 1), names);
      forall u | u in upds ensures Status(m'.fstab, m'.mtab, u.Name()) == Reached(Ensure(u), Count(m.mtab, u.Name())) {
        if u != last {
          SameCounts(m1, m', u.Name());
        }
      }
    }
  }

  lemma SameCounts(m: Mounts, m': Mounts, name: string)
    requires Count(m'.fstab, name) == Count(m.fstab, name) && Count(m'.mtab, name) == Count(m.mtab, name)
    ensures Status(m'.fstab, m'.mtab, name) == Status(m.fstab, m.mtab, name)
  {
  }

  lemma RunSplit(upds: seq<Update>)
    requires upds != [] && DistinctUpdates(upds)
    ensures var rest, last := upds[..|upds| - 1], upds[|upds| - 1];
            && DistinctUpdates(rest)
            && last in upds
            && (forall u :: u in rest ==> u in upds && u.Name() != last.Name())
            && (forall u :: u in upds ==> u in rest || u == last)
  {
    var rest, last := upds[..|upds| - 1], upds[|upds| - 1];
    assert upds == rest + [last];
  }

  lemma SetEachLast(m: Mounts, upds: seq<Update>, envs: nat -> set<Step>)
    requires upds != [] && SetEach(m, upds, envs).Done?
    ensures SetEach(m, upds[..|upds| - 1], envs).Done?
    ensures SetEach(m, upds, envs)
              == SetOne(SetEach(m, upds[..|upds| - 1], envs).m, upds[|upds| - 1], envs(|upds| - 1))
  {
    hide SetOne;
  }

  /** The last update sees its own name as it was before the run. */
  lemma LastReaches(m: Mounts, m1: Mounts, last: Update, env: set<Step>, names: set<string>)
    requires Good(m1) && AccurateState(m, last) && SetOne(m1, last, env).Done?
    requires Count(m1.fstab, last.Name()) == Count(m.fstab, last.Name())
    requires Count(m1.mtab, last.Name()) == Count(m.mtab, last.Name())
    requires last.Name() in names
    ensures var m' := SetOne(m1, last, env).m;
            && Good(m')
            && Status(m'.fstab, m'.mtab, last.Name()) == Reached(Ensure(last), Count(m.mtab, last.Name()))
            && (forall n :: n != last.Name() ==>
                  Count(m'.fstab, n) == Count(m1.fstab, n) && Count(m'.mtab, n) == Count(m1.mtab, n))
            && Kept(m'.fstab, names) == Kept(m1.fstab, names) && Kept(m'.mtab, names) == Kept(m1.mtab, names)
  {
    SameCounts(m, m1, last.Name());
    hide SetOne, Good, Count, Reached, Status, Kept;
    SetOneReaches(m1, last, env);
    SetOneEffect(m1, last, env);
  }

  /**
   * After a successful run over distinct names with accurate states, what is saved and what is
   * mounted give each name the state asked for (see `Reached`), and all other lines of both
   * tables are unchanged and in order.
   */
  lemma RunReachesStates(m: Mounts, upds: seq<Update>, envs: nat -> set<Step>, names: set<string>)
    requires Good(m) && DistinctUpdates(upds)
    requires forall u :: u in upds ==> AccurateState(m, u) && u.Name() in names
    requires SetAll(m, upds, envs).Done?
    ensures var m' := SetAll(m, upds, envs).m;
            && (forall u :: u in upds ==>
                  Status(m'.saved, m'.mtab, u.Name()) == Reached(Ensure(u), Count(m.mtab, u.Name())))
            && Kept(m'.saved, names) == Kept(m.fstab, names) && Kept(m'.mtab, names) == Kept(m.mtab, names)
            && FitsTable(m'.saved)
  {
    hide SetEach, Good, Count, Status, Reached, Kept, FitsTable;
    SetEachReaches(m, upds, envs, names);
  }

  /**
   * An update reaches the state that it asks for exactly if that is "mounted" or the name was
   * mounted once at most: `umount` takes away only one mount.
   */
  lemma StateReachedIff(m: Mounts, upd: Update, env: set<Step>)
    requires Good(m) && AccurateState(m, upd) && SetOne(m, upd, env).Done?
    requires Ensure(upd) in {"mounted", "unmounted", "absent"}
    ensures var m' := SetOne(m, upd, env).m;
            Status(m'.fstab, m'.mtab, upd.Name()) == Ensure(upd) <==>
              Ensure(upd) == "mounted" || Count(m.mtab, upd.Name()) <= 1
  {
    hide SetOne, Good, AccurateState, Status, Count, Reached, Ensure;
    SetOneReaches(m, upd, env);
    ReachedIff(Ensure(upd), Count(m.mtab, upd.Name()));
  }

  /** The same after a whole run, for what is saved and mounted then. */
  lemma RunReachesStateIff(m: Mounts, upds: seq<Update>, envs: nat -> set<Step>, u: Update)
    requires Good(m) && DistinctUpdates(upds) && u in upds
    requires forall v :: v in upds ==> AccurateState(m, v)
    requires SetAll(m, upds, envs).Done? && Ensure(u) in {"mounted", "unmounted", "absent"}
    ensures var m' := SetAll(m, upds, envs).m;
            Status(m'.saved, m'.mtab, u.Name()) == Ensure(u) <==>
              Ensure(u) == "mounted" || Count(m.mtab, u.Name()) <= 1
  {
    hide SetAll, Good, AccurateState, DistinctUpdates, Status, Count, Reached, Ensure;
    RunReachesStates(m, upds, envs, set v | v in upds :: v.Name());
    ReachedIff(Ensure(u), Count(m.mtab, u.Name()));
  }
}
