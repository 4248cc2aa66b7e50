/** Updates by a script that answers in JSON: reported changes are imported, others are derived. */
module JsonProvider {
  import opened Core
  import opened Changes
  import opened Json
  import P = Provider

  datatype Imported = Imported(log: Log, error: Option<JsonError>)

  /* ---- importing reported changes ---- */

  /** `{ k, which }` as a path into a change object. */
  function Inner(ms: Members, k: string, which: string): Option<Json> {
    match Find(ms, k)
    case Some(JObject(inner)) => Find(inner, which)
    case _ => None
  }

  /**
   * One attribute of a change object. The value of an attribute that is not declared is read as an
   * empty optional, which is then dereferenced.
   */
  function ReadChange(ms: Members, k: string, declared: set<string>): Result<Change> {
    var now, was := Inner(ms, k, "is"), Inner(ms, k, "was");
    if now.None? || was.None? then Err(Malformed)
    else if k !in declared then Err(UndefinedRead)
    else
      match ReadValue(now.value)
      case Err(e) => Err(e)
      case Ok(n) =>
        match ReadValue(was.value)
        case Err(e) => Err(e)
        case Ok(w) => Ok(Change(k, n, w))
  }

  function ImportKeys(log: Log, name: string, ms: Members, keys: seq<string>, declared: set<string>): Imported
    decreases |keys|
  {
    if keys == [] then Imported(log, None)
    else if keys[0] == "name" then ImportKeys(log, name, ms, keys[1..], declared)
    else
      match ReadChange(ms, keys[0], declared)
      case Err(e) => Imported(log, Some(e))
      case Ok(c) => ImportKeys(Append(log, name, c), name, ms, keys[1..], declared)
  }

  function ImportOne(log: Log, ms: Members, declared: set<string>): Imported {
    match Find(ms, "name")
    case None => Imported(log, Some(Malformed))
    case Some(JString(name)) => ImportKeys(Touch(log, name), name, ms, Keys(ms), declared)
    case Some(_) => Imported(log, Some(DataError))
  }

  function ImportAll(log: Log, entries: seq<Members>, declared: set<string>): Imported
    decreases |entries|
  {
    if entries == [] then Imported(log, None)
    else
      var one := ImportOne(log, entries[0], declared);
      if one.error.Some? then one else ImportAll(one.log, entries[1..], declared)
  }

  /* ---- deriving the others ---- */

  ghost function DeriveOne(log: Log, upd: Update): Log {
    if upd.Name() in log then log else log[upd.Name() := MaybeAdd([], upd)]
  }

  ghost function DeriveAll(log: Log, upds: seq<Update>): Log
    decreases |upds|
  {
    if upds == [] then log else DeriveAll(DeriveOne(log, upds[0]), upds[1..])
  }

  /* ---- the answer to an update ---- */

  /** The answer of the script; entries of `changes` that are no objects do not conform. */
  datatype Answer = Answer(error: bool, changes: Option<seq<Json>>, derive: Option<Json>)

  predicate AllObjects(elems: seq<Json>) {
    forall i :: 0 <= i < |elems| ==> elems[i].JObject?
  }

  function Objects(elems: seq<Json>): seq<Members>
    requires AllObjects(elems)
  {
    seq(|elems|, i requires 0 <= i < |elems| => elems[i].members)
  }

  function ImportAnswer(log: Log, answer: Answer, declared: set<string>): Imported {
    if answer.error then Imported(log, Some(UpdateFailed))
    else if answer.changes.None? then Imported(log, None)
    else if !AllObjects(answer.changes.value) then Imported(log, Some(DataError))
    else ImportAll(log, Objects(answer.changes.value), declared)
  }

  predicate WantsDerive(answer: Answer) {
    answer.derive == Some(JBool(true))
  }

  ghost function SetSpec(log: Log, upds: seq<Update>, answer: Answer, declared: set<string>): Imported {
    var got := ImportAnswer(log, answer, declared);
    if got.error.Some? then got
    else if answer.derive.Some? && !answer.derive.value.JBool? then Imported(got.log, Some(DataError))
    else if WantsDerive(answer) then Imported(DeriveAll(got.log, upds), None)
    else got
  }

  /* ---- the provider ---- */

  method ImportChange(ctx: Context, ms: Members, declared: set<string>) returns (error: Option<JsonError>)
    modifies ctx
    ensures Imported(ctx.log, error) == ImportOne(old(ctx.log), ms, declared)
  {
    hide ReadValue;
    var named := Find(ms, "name");
    if named.None? {
      return Some(Malformed);
    }
    if !named.value.JString? {
      return Some(DataError);
    }
    var name := named.value.s;
    var start := ctx.ChangesFor(name);
    error := ImportAttributes(ctx, name, ms, declared);
  }

  method ImportAttributes(ctx: Context, name: string, ms: Members, declared: set<string>)
      returns (error: Option<JsonError>)
    modifies ctx
    ensures Imported(ctx.log, error) == ImportKeys(old(ctx.log), name, ms, Keys(ms), declared)
  {
    hide ReadValue, Find;
    var keys := Keys(ms);
    for i := 0 to |keys|
      invariant ImportKeys(ctx.log, name, ms, keys[i..], declared) == ImportKeys(old(ctx.log), name, ms, keys, declared)
    {
      assert keys[i..][1..] == keys[i + 1..];
      var k := keys[i];
      if k == "name" {
        continue;
      }
      var now, was := Inner(ms, k, "is"), Inner(ms, k, "was");
      if now.None? || was.None? {
        return Some(Malformed);
      }
      var n := ValueFromJson(declared, k, now.value);
      if n.Err? {
        return Some(n.error);
      }
      var w := ValueFromJson(declared, k, was.value);
      if w.Err? {
        return Some(w.error);
      }
      if n.value.None? || w.value.None? {
        return Some(UndefinedRead);
      }
      ctx.Add(name, k, n.value.value, w.value.value);
    }
    return None;
  }

  method ImportChanges(ctx: Context, entries: seq<Members>, declared: set<string>) returns (error: Option<JsonError>)
    modifies ctx
    ensures Imported(ctx.log, error) == ImportAll(old(ctx.log), entries, declared)
  {
    hide ImportOne;
    for i := 0 to |entries|
      invariant ImportAll(ctx.log, entries[i..], declared) == ImportAll(old(ctx.log), entries, declared)
    {
      assert entries[i..][1..] == entries[i + 1..];
      error := ImportChange(ctx, entries[i], declared);
      if error.Some? {
        return;
      }
    }
    return None;
  }

  method Derive(ctx: Context, upds: seq<Update>)
    modifies ctx
    ensures ctx.log == DeriveAll(old(ctx.log), upds)
  {
    hide MaybeAdd;
    for i := 0 to |upds|
      invariant DeriveAll(ctx.log, upds[i..]) == DeriveAll(old(ctx.log), upds)
    {
      assert upds[i..][1..] == upds[i + 1..];
      if upds[i].Name() !in ctx.log {
        var any := ctx.MaybeAddChanged(upds[i]);
      }
    }
  }

  method Set(ctx: Context, upds: seq<Update>, answer: Answer, declared: set<string>) returns (error: Option<JsonError>)
    modifies ctx
    ensures Imported(ctx.log, error) == SetSpec(old(ctx.log), upds, answer, declared)
  {
    hide ImportAll, DeriveAll;
    if answer.error {
      return Some(UpdateFailed);
    }
    if answer.changes.Some? {
      if !AllObjects(answer.changes.value) {
        return Some(DataError);
      }
      error := ImportChanges(ctx, Objects(answer.changes.value), declared);
      if error.Some? {
        return;
      }
    }
    if answer.derive.Some? && !answer.derive.value.JBool? {
      return Some(DataError);
    }
    if answer.derive == Some(JBool(true)) {
      Derive(ctx, upds);
    }
    return None;
  }

  /* ---- what a run leaves in the log ---- */

  function FirstNamed(upds: seq<Update>, name: string): Option<Update> {
    if upds == [] then None
    else if upds[0].Name() == name then Some(upds[0])
    else FirstNamed(upds[1..], name)
  }

  /** Deriving touches exactly the names that had no log, and the first update for each decides. */
  lemma {:induction false} DeriveExact(log: Log, upds: seq<Update>, name: string)
    ensures name in log ==> name in DeriveAll(log, upds) && DeriveAll(log, upds)[name] == log[name]
    ensures name !in log && FirstNamed(upds, name).Some? ==>
              name in DeriveAll(log, upds) && DeriveAll(log, upds)[name] == MaybeAdd([], FirstNamed(upds, name).value)
    ensures name !in log && FirstNamed(upds, name).None? ==> name !in DeriveAll(log, upds)
    decreases |upds|
  {
    if upds != [] {
      hide MaybeAdd;
      DeriveExact(DeriveOne(log, upds[0]), upds[1..], name);
    }
  }

  /** The changes that an object reports, up to the first that can not be read. */
  function Reported(ms: Members, keys: seq<string>, declared: set<string>): seq<Change> {
    if keys == [] then []
    else if keys[0] == "name" then Reported(ms, keys[1..], declared)
    else
      match ReadChange(ms, keys[0], declared)
      case Err(_) => []
      case Ok(c) => [c] + Reported(ms, keys[1..], declared)
  }

  predicate IsNamed(ms: Members, name: string) {
    Find(ms, "name") == Some(JString(name))
  }

  /** The changes reported for a name by all objects together. */
  function ReportedFor(entries: seq<Members>, name: string, declared: set<string>): seq<Change> {
    if entries == [] then []
    else if IsNamed(entries[0], name)
    then Reported(entries[0], Keys(entries[0]), declared) + ReportedFor(entries[1..], name, declared)
    else ReportedFor(entries[1..], name, declared)
  }

  lemma {:induction false} ImportKeysExact(log: Log, name: string, ms: Members,
                                           keys: seq<string>, declared: set<string>)
    requires name in log
    ensures ImportKeys(log, name, ms, keys, declared).log == log[name := log[name] + Reported(ms, keys, declared)]
    ensures ImportKeys(log, name, ms, keys, declared).error == None <==>
              forall k :: k in keys && k != "name" ==> ReadChange(ms, k, declared).Ok?
    decreases |keys|
  {
    hide ReadChange;
    if keys == [] {
      assert log[name] + [] == log[name];
    } else {
      assert keys == [keys[0]] + keys[1..];
      if keys[0] == "name" {
        ImportKeysExact(log, name, ms, keys[1..], declared);
      } else if ReadChange(ms, keys[0], declared).Ok? {
        var c := ReadChange(ms, keys[0], declared).value;
        var next := Append(log, name, c);
        ImportKeysExact(next, name, ms, keys[1..], declared);
        var more := Reported(ms, keys[1..], declared);
        assert log[name] + [c] + more == log[name] + ([c] + more);
        assert next[name := next[name] + more] == log[name := log[name] + ([c] + more)];
      } else {
        assert log[name] + [] == log[name];
      }
    }
  }

  /** A change object that can be imported: it has a name, and all its other members are changes. */
  ghost predicate WellFormed(ms: Members, declared: set<string>) {
    && (exists name :: IsNamed(ms, name))
    && forall k :: k in Keys(ms) && k != "name" ==> ReadChange(ms, k, declared).Ok?
  }

  predicate Mentioned(entries: seq<Members>, name: string) {
    exists ms :: ms in entries && IsNamed(ms, name)
  }

  lemma ImportOneExact(log: Log, ms: Members, declared: set<string>)
    ensures ImportOne(log, ms, declared).error == None <==> WellFormed(ms, declared)
    ensures forall name :: IsNamed(ms, name) ==>
              ImportOne(log, ms, declared).log
                == log[name := Entries(log, name) + Reported(ms, Keys(ms), declared)]
  {
    if Find(ms, "name").Some? && Find(ms, "name").value.JString? {
      var name := Find(ms, "name").value.s;
      assert IsNamed(ms, name);
      hide ReadChange, Reported;
      ImportKeysExact(Touch(log, name), name, ms, Keys(ms), declared);
    }
  }

  /**
   * The import succeeds exactly if all objects are well formed, and then the log of each name has
   * grown by what was reported for it, in order; every name that is mentioned now has a log.
   */
  lemma {:induction false} ImportExact(log: Log, entries: seq<Members>, declared: set<string>, name: string)
    ensures ImportAll(log, entries, declared).error == None <==> forall ms :: ms in entries ==> WellFormed(ms, declared)
    ensures ImportAll(log, entries, declared).error == None ==>
              var after := ImportAll(log, entries, declared).log;
              && (name in after <==> name in log || Mentioned(entries, name))
              && Entries(after, name) == Entries(log, name) + ReportedFor(entries, name, declared)
    decreases |entries|
  {
    if entries != [] {
      var ms := entries[0];
      assert entries == [ms] + entries[1..];
      ImportOneExact(log, ms, declared);
      hide ImportOne, WellFormed, Reported, Mentioned, IsNamed;
      var one := ImportOne(log, ms, declared);
      if one.error == None {
        ImportExact(one.log, entries[1..], declared, name);
        NamedIfWellFormed(ms, declared);
        MentionedCons(ms, entries[1..], name);
      }
    }
  }

  lemma MentionedCons(ms: Members, rest: seq<Members>, name: string)
    ensures Mentioned([ms] + rest, name) <==> IsNamed(ms, name) || Mentioned(rest, name)
  {
    hide IsNamed;
    assert ms in [ms] + rest && forall x :: x in rest ==> x in [ms] + rest;
  }

  lemma NamedIfWellFormed(ms: Members, declared: set<string>)
    requires WellFormed(ms, declared)
    ensures exists n :: IsNamed(ms, n)
  {
  }

  function EntriesOf(answer: Answer): seq<Members>
    requires answer.changes.Some? ==> AllObjects(answer.changes.value)
  {
    if answer.changes.None? then [] else Objects(answer.changes.value)
  }

  /**
   * What a successful update leaves in a fresh log: for a name that the script has mentioned,
   * exactly what it has reported; for the name of an update that it has not mentioned, the derived
   * differences, if the script has asked for them; and nothing else.
   */
  lemma SetLogsExactly(upds: seq<Update>, answer: Answer, declared: set<string>, name: string)
    requires SetSpec(map[], upds, answer, declared).error == None
    ensures answer.changes.Some? ==> AllObjects(answer.changes.value)
    ensures var after := SetSpec(map[], upds, answer, declared).log;
            var entries := EntriesOf(answer);
            if Mentioned(entries, name) then
              name in after && after[name] == ReportedFor(entries, name, declared)
            else if WantsDerive(answer) && FirstNamed(upds, name).Some? then
              name in after && after[name] == MaybeAdd([], FirstNamed(upds, name).value)
            else name !in after
  {
    hide ImportAll, DeriveAll, MaybeAdd, Mentioned, ReportedFor;
    var entries := EntriesOf(answer);
    ImportExact(map[], entries, declared, name);
    assert [] + ReportedFor(entries, name, declared) == ReportedFor(entries, name, declared);
    var log := ImportAnswer(map[], answer, declared).log;
    if answer.changes.None? {
      assert entries == [];
      NothingImported(declared);
    }
    assert log == ImportAll(map[], entries, declared).log;
    DeriveExact(log, upds, name);
  }

  lemma NothingImported(declared: set<string>)
    ensures ImportAll(map[], [], declared) == Imported(map[], None)
  {
  }

  /** When the script leaves it all to be derived, what is reported is the overlay of the two states. */
  lemma DerivedReportIsOverlay(upds: seq<Update>, declared: set<string>, name: string)
    requires FirstNamed(upds, name).Some?
    ensures var upd := FirstNamed(upds, name).value;
            var after := SetSpec(map[], upds, Answer(false, None, Some(JBool(true))), declared).log;
            P.Report(upd, Entries(after, name)) ==
              if WantsAbsent(upd) then AbsentResource(upd.Name())
              else Resource(upd.Name(), upd.actual.attrs + upd.should.attrs)
  {
    hide MaybeAdd, P.Report;
    DeriveExact(map[], upds, name);
    P.ReportIsOverlay(FirstNamed(upds, name).value);
  }

  /* ---- how a script writes changes ---- */

  /** Unset values are written as null here. */
  function ChangeValue(v: Value): Json {
    if v.IsSet() then ValueToJson(v) else JNull
  }

  function ChangeMember(c: Change): Member {
    Member(c.attr, JObject([Member("is", ChangeValue(c.now)), Member("was", ChangeValue(c.was))]))
  }

  function ChangeMembers(chgs: seq<Change>): Members {
    if chgs == [] then [] else [ChangeMember(chgs[0])] + ChangeMembers(chgs[1..])
  }

  lemma ChangeValueIsRead(v: Value)
    ensures ReadValue(ChangeValue(v)) == Ok(v)
  {
    ValueIsRead(v);
  }

  lemma ChangeIsRead(ms: Members, c: Change, declared: set<string>)
    requires c.attr in declared && Find(ms, c.attr) == Some(ChangeMember(c).value)
    ensures ReadChange(ms, c.attr, declared) == Ok(c)
  {
    ChangeValueIsRead(c.now);
    ChangeValueIsRead(c.was);
    var inner := ChangeMember(c).value.members;
    assert inner[1..] == [Member("was", ChangeValue(c.was))];
    assert Find(inner, "is") == Some(ChangeValue(c.now));
    assert Find(inner, "was") == Some(ChangeValue(c.was));
  }

  predicate Writable(chgs: seq<Change>, declared: set<string>) {
    DistinctAttrs(chgs) && forall c :: c in chgs ==> c.attr in declared && c.attr != "name"
  }

  lemma {:induction false} FindChange(chgs: seq<Change>, c: Change)
    requires DistinctAttrs(chgs) && c in chgs
    ensures Find(ChangeMembers(chgs), c.attr) == Some(ChangeMember(c).value)
    decreases |chgs|
  {
    assert ChangeMembers(chgs)[1..] == ChangeMembers(chgs[1..]);
    if chgs[0] != c {
      assert chgs == [chgs[0]] + chgs[1..];
      var i :| 0 <= i < |chgs| && chgs[i] == c;
      assert chgs[0].attr != c.attr;
      FindChange(chgs[1..], c);
    }
  }

  lemma {:induction false} ReportedAll(ms: Members, chgs: seq<Change>, declared: set<string>)
    requires forall c :: c in chgs ==> ReadChange(ms, c.attr, declared) == Ok(c) && c.attr != "name"
    ensures Reported(ms, Keys(ChangeMembers(chgs)), declared) == chgs
    decreases |chgs|
  {
    if chgs != [] {
      assert chgs == [chgs[0]] + chgs[1..];
      assert Keys(ChangeMembers(chgs)) == [chgs[0].attr] + Keys(ChangeMembers(chgs[1..]));
      hide ReadChange;
      ReportedAll(ms, chgs[1..], declared);
    }
  }

  lemma {:induction false} KeysOfChanges(chgs: seq<Change>, k: string)
    ensures k in Keys(ChangeMembers(chgs)) ==> Logged(chgs, k)
    decreases |chgs|
  {
    if chgs != [] {
      assert chgs == [chgs[0]] + chgs[1..];
      assert Keys(ChangeMembers(chgs)) == [chgs[0].attr] + Keys(ChangeMembers(chgs[1..]));
      KeysOfChanges(chgs[1..], k);
    }
  }

  /** Changes of declared attributes that are written as an object are imported as they were. */
  lemma ChangesRoundTrip(name: string, chgs: seq<Change>, declared: set<string>)
    requires Writable(chgs, declared)
    ensures var ms := [Member("name", JString(name))] + ChangeMembers(chgs);
            WellFormed(ms, declared) && IsNamed(ms, name) && Reported(ms, Keys(ms), declared) == chgs
  {
    var rest := ChangeMembers(chgs);
    var ms := [Member("name", JString(name))] + rest;
    assert ms[1..] == rest;
    assert IsNamed(ms, name);
    forall c | c in chgs ensures ReadChange(ms, c.attr, declared) == Ok(c) {
      FindChange(chgs, c);
      assert Find(ms, c.attr) == Find(rest, c.attr);
      ChangeIsRead(ms, c, declared);
    }
    hide ReadChange, Find, ChangeMembers;
    ReportedAll(ms, chgs, declared);
    assert Keys(ms) == ["name"] + Keys(rest);
    forall k | k in Keys(ms) && k != "name" ensures ReadChange(ms, k, declared).Ok? {
      KeysOfChanges(chgs, k);
    }
  }
}
