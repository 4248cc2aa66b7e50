/** What the lines of a script become: changes in the log, a resource that was found, arguments. */
module SimpleReports {
  import opened Core
  import opened Text
  import opened Changes
  import opened Simple
  import opened SimpleProvider

  /* ---- update ---- */

  /** A change as a script reports it; the old value may be left out. */
  datatype Told = Told(attr: string, now: string, was: Option<string>)

  function ToldChange(t: Told): Change {
    Change(t.attr, Str(t.now), match t.was case Some(s) => Str(s) case None => NoValue)
  }

  function ToldChanges(ts: seq<Told>): seq<Change> {
    seq(|ts|, i requires 0 <= i < |ts| => ToldChange(ts[i]))
  }

  function ToldLines(t: Told): seq<string> {
    [t.attr + ": " + t.now] + match t.was case Some(s) => ["ral_was: " + s] case None => []
  }

  function AllToldLines(ts: seq<Told>): seq<string> {
    if ts == [] then [] else AllToldLines(ts[..|ts| - 1]) + ToldLines(ts[|ts| - 1])
  }

  predicate ToldAttr(attr: string) {
    ':' !in attr && attr != "name" && attr != "ral_derive" && attr != "ral_was" && attr != "ral_error"
  }

  predicate Tellable(t: Told) {
    ToldAttr(t.attr) && Trimmed(t.now) && (t.was.Some? ==> Trimmed(t.was.value))
  }

  predicate ToldOnLines(t: Told) {
    Free(t.attr, '\n') && Free(t.now, '\n') && (t.was.Some? ==> Free(t.was.value, '\n'))
  }

  lemma ReadAttrLine(chgs: seq<Change>, derive: bool, name: string, attr: string, now: string)
    requires ToldAttr(attr) && Trimmed(now)
    ensures var lines := [attr + ": " + now];
            && DataCount(lines) == 1
            && Body(lines, SetEntry(name), Log(chgs, derive))
                 == Parsed(Log(chgs + [Change(attr, Str(now), NoValue)], derive), None, "")
  {
    OneLine(attr, now, SetEntry(name), Log(chgs, derive));
    assert Line(attr, now) == attr + ": " + now;
    hide Body, Line, Trimmed;
  }

  lemma ReadWasLine(chgs: seq<Change>, derive: bool, name: string, c: Change, was: string)
    requires Trimmed(was)
    ensures var lines := ["ral_was: " + was];
            && DataCount(lines) == 1
            && Body(lines, SetEntry(name), Log(chgs + [c], derive))
                 == Parsed(Log(chgs + [c.(was := Str(was))], derive), None, "")
  {
    var all := chgs + [c];
    OneLine("ral_was", was, SetEntry(name), Log(all, derive));
    assert Line("ral_was", was) == "ral_was: " + was;
    hide Body, Line, Trimmed;
    assert all[|all| - 1 := c.(was := Str(was))] == chgs + [c.(was := Str(was))];
  }

  /** The lines of one change. */
  lemma ReadTold(chgs: seq<Change>, derive: bool, name: string, t: Told)
    requires Tellable(t)
    ensures var lines := ToldLines(t);
            && DataCount(lines) == |lines|
            && Body(lines, SetEntry(name), Log(chgs, derive)) == Parsed(Log(chgs + [ToldChange(t)], derive), None, "")
  {
    ReadAttrLine(chgs, derive, name, t.attr, t.now);
    var first := [t.attr + ": " + t.now];
    if t.was.Some? {
      var c := Change(t.attr, Str(t.now), NoValue);
      ReadWasLine(chgs, derive, name, c, t.was.value);
      hide Body, DataCount, Trimmed;
      BodyAppend(first, ["ral_was: " + t.was.value], SetEntry(name), Log(chgs, derive));
    } else {
      assert ToldLines(t) == first;
      hide Body, DataCount, Trimmed;
    }
  }

  lemma {:induction false} ReadAllTold(chgs: seq<Change>, derive: bool, name: string, ts: seq<Told>)
    requires forall t :: t in ts ==> Tellable(t)
    ensures var lines := AllToldLines(ts);
            && DataCount(lines) == |lines|
            && Body(lines, SetEntry(name), Log(chgs, derive)) == Parsed(Log(chgs + ToldChanges(ts), derive), None, "")
    decreases |ts|
  {
    if ts == [] {
      assert chgs + ToldChanges(ts) == chgs;
    } else {
      var front, last := ts[..|ts| - 1], ts[|ts| - 1];
      assert ts == front + [last];
      hide Body, DataCount, Tellable, ToldLines, ToldChange;
      ReadAllTold(chgs, derive, name, front);
      ReadTold(chgs + ToldChanges(front), derive, name, last);
      BodyAppend(AllToldLines(front), ToldLines(last), SetEntry(name), Log(chgs, derive));
      assert chgs + ToldChanges(front) + [ToldChange(last)] == chgs + ToldChanges(ts);
    }
  }

  lemma AllToldFree(ts: seq<Told>)
    requires forall t :: t in ts ==> ToldOnLines(t)
    ensures AllFree(AllToldLines(ts), '\n')
    decreases |ts|
  {
    if ts != [] {
      var front, last := ts[..|ts| - 1], ts[|ts| - 1];
      assert ts == front + [last];
      assert last in ts;
      hide ToldOnLines, ToldLines;
      AllToldFree(front);
      ToldFree(last);
    }
  }

  lemma ToldFree(t: Told)
    requires ToldOnLines(t)
    ensures AllFree(ToldLines(t), '\n')
  {
    LineFree(t.attr, t.now);
    assert Line(t.attr, t.now) == t.attr + ": " + t.now;
    if t.was.Some? {
      assert Free("ral_was", '\n');
      LineFree("ral_was", t.was.value);
      assert Line("ral_was", t.was.value) == "ral_was: " + t.was.value;
    }
  }

  /**
   * What a script reports about an update becomes just that in the log: any list of changes, each
   * with its new value and, if it was told, its old one, after the changes that were there.
   */
  lemma ReportsAreLogged(chgs: seq<Change>, upd: Update, ts: seq<Told>)
    requires Args(upd) != []
    requires forall t :: t in ts ==> Tellable(t) && ToldOnLines(t)
    ensures var lines := LinesOf("# simple\n" + TextOf(AllToldLines(ts)));
            && Outcome(Batch(lines, SetEntry(upd.Name()), Log(chgs, false)), true) == None
            && SetLog(chgs, upd, lines, true) == chgs + ToldChanges(ts)
  {
    ReadAllTold(chgs, false, upd.Name(), ts);
    AllToldFree(ts);
    hide Body, AllToldLines, TextOf, LinesOf, Args, MaybeAdd, Tellable, ToldOnLines;
    LinesWithHeader(AllToldLines(ts));
    assert (["# simple"] + AllToldLines(ts))[1..] == AllToldLines(ts);
  }

  lemma LinesWithHeader(lines: seq<string>)
    requires AllFree(lines, '\n')
    ensures LinesOf("# simple\n" + TextOf(lines)) == ["# simple"] + lines
  {
    LinesOfText(["# simple"] + lines);
    assert (["# simple"] + lines)[1..] == lines;
    assert "# simple" + "\n" == "# simple\n";
  }

  /** A script that names another resource fails; what it has reported before stays in the log. */
  lemma WrongNameFails(chgs: seq<Change>, name: string, ts: seq<Told>, other: string, more: seq<string>)
    requires (forall t :: t in ts ==> Tellable(t)) && Trimmed(other) && other != name
    ensures var lines := ["# simple"] + (AllToldLines(ts) + (["name: " + other] + more));
            Batch(lines, SetEntry(name), Log(chgs, false))
              == Parsed(Log(chgs + ToldChanges(ts), false), Some(WrongName), "")
  {
    ReadAllTold(chgs, false, name, ts);
    var rest := ["name: " + other] + more;
    var log := Log(chgs + ToldChanges(ts), false);
    NameLine(log, name, other, more);
    hide Body, DataCount, AllToldLines, ToldChanges, Trimmed;
    BodyAppend(AllToldLines(ts), rest, SetEntry(name), Log(chgs, false));
    assert (["# simple"] + (AllToldLines(ts) + rest))[1..] == AllToldLines(ts) + rest;
  }

  /** Naming the resource itself has no effect. */
  lemma NameLine(log: SimpleProvider.Log, name: string, other: string, more: seq<string>)
    requires Trimmed(other)
    ensures Body(["name: " + other] + more, SetEntry(name), log) ==
              if other == name then Body(more, SetEntry(name), log) else Parsed(log, Some(WrongName), "")
  {
    LineParts("name", other);
    assert Line("name", other) == "name: " + other;
    hide Line, HasColon, KeyOf, ValueOf, Trimmed;
    var lines := ["name: " + other] + more;
    assert lines[0] == "name: " + other && lines[1..] == more;
  }

  /** `ral_derive` asks for the other differences exactly if its value is "true"; the last one counts. */
  lemma DeriveLine(log: SimpleProvider.Log, name: string, value: string, more: seq<string>)
    requires Trimmed(value)
    ensures Body(["ral_derive: " + value] + more, SetEntry(name), log)
         == Body(more, SetEntry(name), log.(derive := value == "true"))
  {
    LineParts("ral_derive", value);
    assert Line("ral_derive", value) == "ral_derive: " + value;
    hide Line, HasColon, KeyOf, ValueOf, Trimmed;
    var lines := ["ral_derive: " + value] + more;
    assert lines[0] == "ral_derive: " + value && lines[1..] == more;
  }

  /** A command that fails derives nothing, whatever it has asked for; what it has reported stays. */
  lemma FailureDerivesNothing(chgs: seq<Change>, upd: Update, ts: seq<Told>)
    requires Args(upd) != []
    requires forall t :: t in ts ==> Tellable(t)
    ensures SetLog(chgs, upd, ["# simple"] + (["ral_derive: true"] + AllToldLines(ts)), false) == chgs + ToldChanges(ts)
    ensures SetLog(chgs, upd, ["# simple"] + (["ral_derive: true"] + AllToldLines(ts)), true)
         == MaybeAdd(chgs + ToldChanges(ts), upd)
  {
    hide Body, AllToldLines, Args, MaybeAdd, Tellable, ToldChanges, SetEntry;
    ReadAllTold(chgs, true, upd.Name(), ts);
    assert "ral_derive: " + "true" == "ral_derive: true";
    DeriveLine(Log(chgs, false), upd.Name(), "true", AllToldLines(ts));
    var rest := ["ral_derive: true"] + AllToldLines(ts);
    assert (["# simple"] + rest)[1..] == rest;
  }

  /* ---- errors ---- */

  /** A value for which there is nothing yet that could have it ends the reading, in each action. */
  lemma ValueBeforeNameFails(key: string, value: string, more: seq<string>, name: string, derive: bool)
    requires ToldAttr(key) && key != "ral_unknown" && Trimmed(value)
    ensures Body([key + ": " + value] + more, ListEntry, []) == Parsed([], Some(ValueBeforeName), "")
    ensures Body([key + ": " + value] + more, FindEntry, ([], false)) == Parsed(([], false), Some(Undefined), "")
    ensures Body(["ral_was: " + value] + more, SetEntry(name), Log([], derive))
         == Parsed(Log([], derive), Some(Undefined), "")
  {
    LineParts(key, value);
    LineParts("ral_was", value);
    assert Line(key, value) == key + ": " + value && Line("ral_was", value) == "ral_was: " + value;
    hide Line, HasColon, KeyOf, ValueOf, Trimmed;
    assert ([key + ": " + value] + more)[0] == key + ": " + value;
    assert (["ral_was: " + value] + more)[0] == "ral_was: " + value;
  }

  lemma {:induction false} ConcatIsJoin(lines: seq<string>)
    ensures Concat(lines) == Join(lines, "")
  {
    if |lines| > 1 {
      ConcatIsJoin(lines[1..]);
      ConcatCons(lines[0], lines[1..]);
      assert [lines[0]] + lines[1..] == lines;
      assert lines[0] + "" + Join(lines[1..], "") == lines[0] + Join(lines[1..], "");
    } else if |lines| == 1 {
      assert lines[..0] == [] && lines == [lines[0]];
    }
  }

  /** The message of a reported error: the value of its first line and all lines of the block. */
  lemma ErrorMessage<S>(value: string, block: seq<string>, more: seq<string>, entry: Callback<S>, s: S)
    requires Trimmed(value) && "ral_eom" !in block
    ensures var r := Body(["ral_error: " + value] + (block + (["ral_eom"] + more)), entry, s);
            r.state == s && r.error == Some(Reported(value + Join(block, "")))
  {
    LineParts("ral_error", value);
    assert Line("ral_error", value) == "ral_error: " + value;
    hide Line, HasColon, KeyOf, ValueOf, Trimmed;
    var rest := block + (["ral_eom"] + more);
    var lines := ["ral_error: " + value] + rest;
    assert lines[0] == "ral_error: " + value && lines[1..] == rest;
    assert rest[|block|] == "ral_eom";
    EomAfter(block, ["ral_eom"] + more);
    assert rest[..|block|] == block;
    ConcatIsJoin(block);
    hide Concat;
  }

  lemma EomAfter(block: seq<string>, tail: seq<string>)
    requires EOM !in block && tail != [] && tail[0] == EOM
    ensures FirstEom(block + tail) == |block|
  {
    var all, k := block + tail, FirstEom(block + tail);
    assert all[|block|] == EOM;
    assert forall i :: 0 <= i < |block| ==> all[i] == block[i] && block[i] in block;
    forall j | |block| < j <= |all| ensures EOM in all[..j] {
      assert all[..j][|block|] == EOM;
    }
  }

  /* ---- find ---- */

  /** Reading what was found is like listing it, as long as nothing is said to be unknown. */
  lemma {:induction false} FindIsList(lines: seq<string>, rs: seq<Resource>, unknown: bool)
    requires DataCount(lines) == |lines| && Body(lines, ListEntry, rs).error == None
    requires forall i :: 0 <= i < |lines| ==> KeyOf(lines[i]) != "ral_unknown"
    ensures Body(lines, FindEntry, (rs, unknown)) == Parsed((Body(lines, ListEntry, rs).state, unknown), None, "")
    decreases |lines|
  {
    if lines != [] {
      var key, value := KeyOf(lines[0]), ValueOf(lines[0]);
      hide KeyOf, ValueOf, HasColon, SetLast;
      FindIsList(lines[1..], ListEntry(rs, key, value).state, unknown);
    }
  }

  lemma {:induction false} KeysOfAttrs(r: Resource, order: seq<string>)
    requires forall k :: k in order ==> k in r.attrs && r.attrs[k].Str? && ':' !in k && Trimmed(r.attrs[k].s)
    ensures forall l :: l in AttrLines(r, order) ==> KeyOf(l) in order
    decreases |order|
  {
    if order != [] {
      var front, key := order[..|order| - 1], order[|order| - 1];
      assert order == front + [key];
      KeysOfAttrs(r, front);
      LineParts(key, r.attrs[key].s);
      hide KeyOf, Line, Trimmed;
    }
  }

  /** A resource that a script prints is the one that is found. */
  lemma FindRoundTrip(p: Printed)
    requires Printable(p) && OnOneLine(p) && "ral_unknown" !in p.r.attrs
    ensures var lines := LinesOf("# simple\n" + TextOf(ResourceLines(p)));
            Batch(lines, FindEntry, ([], false)) == Parsed(([p.r], false), None, "")
  {
    ReadResource([], p);
    ResourceLinesFree(p);
    KeysOfAttrs(p.r, p.order);
    LineParts("name", p.r.name);
    var lines := ResourceLines(p);
    assert forall i :: 0 <= i < |lines| ==> lines[i] in lines;
    hide Body, DataCount, KeyOf, Line, AttrLines, TextOf, LinesOf, FindEntry;
    FindIsList(lines, [], false);
    LinesWithHeader(lines);
    assert [] + [p.r] == [p.r];
    assert (["# simple"] + lines)[1..] == lines;
  }

  /** Once a script has said that it does not know the resource, that is remembered. */
  lemma UnknownLine(rs: seq<Resource>, unknown: bool, value: string, more: seq<string>)
    requires Trimmed(value)
    ensures Body(["ral_unknown: " + value] + more, FindEntry, (rs, unknown)) == Body(more, FindEntry, (rs, true))
  {
    LineParts("ral_unknown", value);
    assert Line("ral_unknown", value) == "ral_unknown: " + value;
    hide Line, HasColon, KeyOf, ValueOf, Trimmed;
    var lines := ["ral_unknown: " + value] + more;
    assert lines[0] == "ral_unknown: " + value && lines[1..] == more;
  }

  /* ---- arguments ---- */

  /** The attributes that are to change, in the order of their names. */
  ghost predicate AreChanged(upd: Update, keys: seq<string>) {
    && (forall k :: k in keys <==> k in upd.should.attrs && upd.Changed(k))
    && forall i, j :: 0 <= i < j < |keys| ==> Before(keys[i], keys[j])
  }

  function ChangedOf(upd: Update, keys: seq<string>): seq<string> {
    if keys == [] then []
    else if upd.Changed(keys[0]) then [keys[0]] + ChangedOf(upd, keys[1..])
    else ChangedOf(upd, keys[1..])
  }

  lemma {:induction false} ChangedOfExact(upd: Update, keys: seq<string>)
    requires forall i, j :: 0 <= i < j < |keys| ==> Before(keys[i], keys[j])
    ensures var ks := ChangedOf(upd, keys);
            && (forall k :: k in ks <==> k in keys && upd.Changed(k))
            && (forall i, j :: 0 <= i < j < |ks| ==> Before(ks[i], ks[j]))
            && ArgsOf(upd, keys) == seq(|ks|, i requires 0 <= i < |ks| =>
                 ks[i] + "='" + upd.should.Get(ks[i]).ToString() + "'")
  {
    hide Before, Update.Changed, Value.ToString;
    if keys != [] {
      assert keys == [keys[0]] + keys[1..];
      ChangedOfExact(upd, keys[1..]);
      assert forall k :: k in keys[1..] ==> Before(keys[0], k);
    }
  }

  /**
   * The arguments of an update: the name, and for each attribute that is to change, in the order
   * of their names, the attribute and its desired value in quotes.
   */
  lemma ArgumentsExact(upd: Update) returns (keys: seq<string>)
    ensures AreChanged(upd, keys)
    ensures AllArgs(upd) == ["name='" + upd.Name() + "'"] + seq(|keys|, i requires 0 <= i < |keys| =>
              keys[i] + "='" + upd.should.Get(keys[i]).ToString() + "'")
  {
    SortedIsInOrder(upd.should.attrs.Keys);
    keys := ChangedOf(upd, Sorted(upd.should.attrs.Keys));
    ChangedOfExact(upd, Sorted(upd.should.attrs.Keys));
    hide Sorted, Before, ChangedOf, ArgsOf;
    assert "name" + "='" == "name='";
  }
}
