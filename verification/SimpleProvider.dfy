/** The actions of a `simple` provider: what they make of the keys and values of a script. */
module SimpleProvider {
  import opened Core
  import opened Text
  import opened Changes
  import opened Simple

  /* ---- list ---- */

  /** `res.back()[key] = value` */
  function SetLast(rs: seq<Resource>, key: string, value: string): seq<Resource>
    requires rs != []
  {
    rs[..|rs| - 1] + [rs[|rs| - 1].Set(key, Str(value))]
  }

  function ListEntry(rs: seq<Resource>, key: string, value: string): Step<seq<Resource>> {
    if key == "name" then Step(rs + [Resource(value, map[])], None)
    else if rs == [] then Step(rs, Some(ValueBeforeName))
    else Step(SetLast(rs, key, value), None)
  }

  method Instances(lines: seq<string>, commandOk: bool) returns (r: Option<seq<Resource>>, error: Option<SimpleError>)
    ensures var p := Batch(lines, ListEntry, []);
            error == Outcome(p, commandOk) && r == if error == None then Some(p.state) else None
  {
    var res;
    error, res := RunAction(lines, commandOk, ListEntry, []);
    r := if error == None then Some(res) else None;
  }

  /* ---- find ---- */

  /** Without a name before it, a value has nowhere to go: the result is undefined. */
  function FindEntry(s: (seq<Resource>, bool), key: string, value: string): Step<(seq<Resource>, bool)> {
    if key == "name" then Step((s.0 + [Resource(value, map[])], s.1), None)
    else if key == "ral_unknown" then Step((s.0, true), None)
    else if s.0 == [] then Step(s, Some(Undefined))
    else Step((SetLast(s.0, key, value), s.1), None)
  }

  /** `unknown` starts out as false. */
  method Find(lines: seq<string>, commandOk: bool) returns (r: Option<seq<Resource>>, error: Option<SimpleError>)
    ensures var p := Batch(lines, FindEntry, ([], false));
            && error == Outcome(p, commandOk)
            && r == if error.Some? then None else Some(if p.state.1 then [] else p.state.0)
  {
    var s;
    error, s := RunAction(lines, commandOk, FindEntry, ([], false));
    if error.Some? {
      return None, error;
    }
    var res, unknown := s.0, s.1;
    if unknown {
      res := [];
    }
    r := Some(res);
  }

  /* ---- printing what `list` reads ---- */

  /** A resource with the order in which a script prints its attributes. */
  datatype Printed = Printed(r: Resource, order: seq<string>)

  predicate PrintableKey(key: string) {
    ':' !in key && key != "name" && key != ERROR_KEY
  }

  ghost predicate Printable(p: Printed) {
    && Trimmed(p.r.name)
    && (forall k :: k in p.order <==> k in p.r.attrs)
    && (forall i, j :: 0 <= i < j < |p.order| ==> p.order[i] != p.order[j])
    && forall k :: k in p.r.attrs ==> PrintableKey(k) && p.r.attrs[k].Str? && Trimmed(p.r.attrs[k].s)
  }

  function Line(key: string, value: string): string {
    key + ": " + value
  }

  function AttrLines(r: Resource, order: seq<string>): seq<string>
    requires forall k :: k in order ==> k in r.attrs && r.attrs[k].Str?
  {
    if order == [] then []
    else AttrLines(r, order[..|order| - 1]) + [Line(order[|order| - 1], r.attrs[order[|order| - 1]].s)]
  }

  ghost function ResourceLines(p: Printed): seq<string>
    requires Printable(p)
  {
    [Line("name", p.r.name)] + AttrLines(p.r, p.order)
  }

  ghost function ListLines(ps: seq<Printed>): seq<string>
    requires forall p :: p in ps ==> Printable(p)
  {
    if ps == [] then [] else ListLines(ps[..|ps| - 1]) + ResourceLines(ps[|ps| - 1])
  }

  function ResourcesOf(ps: seq<Printed>): seq<Resource> {
    seq(|ps|, i requires 0 <= i < |ps| => ps[i].r)
  }

  lemma {:induction false} ColonAfter(key: string, tail: string)
    requires ':' !in key && tail != "" && tail[0] == ':'
    ensures Colon(key + tail) == |key|
  {
    if key == "" {
      assert key + tail == tail;
    } else {
      assert key[0] in key && (key + tail)[1..] == key[1..] + tail;
      ColonAfter(key[1..], tail);
    }
  }

  /** A printed line is taken apart into its key and its value. */
  lemma LineParts(key: string, value: string)
    requires ':' !in key && Trimmed(value)
    ensures HasColon(Line(key, value)) && KeyOf(Line(key, value)) == key && ValueOf(Line(key, value)) == value
  {
    var tail := ": " + value;
    assert Line(key, value) == key + tail;
    ColonAfter(key, tail);
    assert (key + tail)[|key| + 1..] == " " + value;
    assert Blank(" ") && " " + value + "" == " " + value;
    TrimAround(" ", value, "");
  }

  /** Reading a body whose lines are all data is a fold over its lines. */
  lemma {:induction false} BodyAppend<S>(a: seq<string>, b: seq<string>, entry: Callback<S>, s: S)
    requires Body(a, entry, s).error == None && DataCount(a) == |a|
    ensures Body(a + b, entry, s) == Body(b, entry, Body(a, entry, s).state)
    ensures DataCount(b) == |b| ==> DataCount(a + b) == |a + b|
    decreases |a|
  {
    if a == [] {
      assert a + b == b;
    } else {
      assert (a + b)[0] == a[0] && (a + b)[1..] == a[1..] + b;
      BodyAppend(a[1..], b, entry, entry(s, KeyOf(a[0]), ValueOf(a[0])).state);
    }
  }

  lemma OneLine<S>(key: string, value: string, entry: Callback<S>, s: S)
    requires ':' !in key && Trimmed(value) && key != ERROR_KEY
    ensures DataCount([Line(key, value)]) == 1
    ensures var r := entry(s, key, value); Body([Line(key, value)], entry, s) == Parsed(r.state, r.error, "")
  {
    LineParts(key, value);
    hide Line, HasColon, KeyOf, ValueOf;
    var lines := [Line(key, value)];
    assert lines[1..] == [];
  }

  function Part(r: Resource, order: seq<string>): Resource {
    r.(attrs := map k | k in r.attrs && k in order :: r.attrs[k])
  }

  /** The line of one attribute, after those before it. */
  lemma ReadAttr(rs: seq<Resource>, r: Resource, front: seq<string>, key: string)
    requires key in r.attrs && PrintableKey(key) && r.attrs[key].Str? && Trimmed(r.attrs[key].s)
    ensures var lines := [Line(key, r.attrs[key].s)];
            && DataCount(lines) == 1
            && Body(lines, ListEntry, rs + [Part(r, front)]) == Parsed(rs + [Part(r, front + [key])], None, "")
  {
    OneLine(key, r.attrs[key].s, ListEntry, rs + [Part(r, front)]);
    hide Line, Body, DataCount, Trimmed;
    var all := rs + [Part(r, front)];
    assert all[..|all| - 1] == rs;
    assert Part(r, front).Set(key, Str(r.attrs[key].s)).attrs == Part(r, front + [key]).attrs;
  }

  lemma {:induction false} ReadAttrs(rs: seq<Resource>, r: Resource, order: seq<string>)
    requires forall k :: k in order ==> k in r.attrs && PrintableKey(k) && r.attrs[k].Str? && Trimmed(r.attrs[k].s)
    ensures var lines := AttrLines(r, order);
            && DataCount(lines) == |lines|
            && Body(lines, ListEntry, rs + [Part(r, [])]) == Parsed(rs + [Part(r, order)], None, "")
    decreases |order|
  {
    if order != [] {
      hide Body, DataCount, Part, PrintableKey, Trimmed, Line;
      var front, key := order[..|order| - 1], order[|order| - 1];
      assert order == front + [key];
      ReadAttrs(rs, r, front);
      ReadAttr(rs, r, front, key);
      BodyAppend(AttrLines(r, front), [Line(key, r.attrs[key].s)], ListEntry, rs + [Part(r, [])]);
    }
  }

  lemma ReadResource(rs: seq<Resource>, p: Printed)
    requires Printable(p)
    ensures var lines := ResourceLines(p);
            && DataCount(lines) == |lines|
            && Body(lines, ListEntry, rs) == Parsed(rs + [p.r], None, "")
  {
    OneLine("name", p.r.name, ListEntry, rs);
    assert Part(p.r, []) == Resource(p.r.name, map[]);
    assert Part(p.r, p.order).attrs == p.r.attrs;
    hide Line, Body, PrintableKey;
    ReadAttrs(rs, p.r, p.order);
    BodyAppend([Line("name", p.r.name)], AttrLines(p.r, p.order), ListEntry, rs);
  }

  /** One more resource after a list that reads well. */
  lemma ReadOneMore(front: seq<Printed>, last: Printed)
    requires Printable(last) && forall p :: p in front ==> Printable(p)
    requires var lines := ListLines(front);
             && DataCount(lines) == |lines|
             && Body(lines, ListEntry, []) == Parsed(ResourcesOf(front), None, "")
    ensures var lines := ListLines(front) + ResourceLines(last);
            && DataCount(lines) == |lines|
            && Body(lines, ListEntry, []) == Parsed(ResourcesOf(front) + [last.r], None, "")
  {
    hide Body, Printable, ResourceLines, ListLines, DataCount, ResourcesOf;
    ReadResource(ResourcesOf(front), last);
    BodyAppend(ListLines(front), ResourceLines(last), ListEntry, []);
  }

  lemma {:induction false} ReadAll(ps: seq<Printed>)
    requires forall p :: p in ps ==> Printable(p)
    ensures var lines := ListLines(ps);
            && DataCount(lines) == |lines|
            && Body(lines, ListEntry, []) == Parsed(ResourcesOf(ps), None, "")
    decreases |ps|
  {
    if ps != [] {
      var front, last := ps[..|ps| - 1], ps[|ps| - 1];
      assert ps == front + [last];
      hide Body, Printable, ResourceLines, DataCount;
      ReadAll(front);
      ReadOneMore(front, last);
      assert ResourcesOf(ps) == ResourcesOf(front) + [last.r];
    } else {
      assert ResourcesOf(ps) == [];
    }
  }

  lemma ListLinesRead(ps: seq<Printed>)
    requires forall p :: p in ps ==> Printable(p)
    ensures Batch([HEADER] + ListLines(ps), ListEntry, []) == Parsed(ResourcesOf(ps), None, "")
  {
    ReadAll(ps);
    hide Body, ListLines;
    assert ([HEADER] + ListLines(ps))[1..] == ListLines(ps);
  }

  /* ---- lines as text ---- */

  /** Every line ends with a line end. */
  function TextOf(lines: seq<string>): string {
    if lines == [] then "" else lines[0] + "\n" + TextOf(lines[1..])
  }

  /** The lines of a text; what follows the last line end is a line unless it is empty. */
  function LinesOf(text: string): seq<string> {
    var parts := Split(text, '\n');
    if parts[|parts| - 1] == "" then parts[..|parts| - 1] else parts
  }

  lemma {:induction false} SplitText(lines: seq<string>)
    requires AllFree(lines, '\n')
    ensures Split(TextOf(lines), '\n') == lines + [""]
  {
    if lines != [] {
      SplitText(lines[1..]);
      SplitHead(lines[0], TextOf(lines[1..]), '\n');
      hide Split, Free;
      assert TextOf(lines) == lines[0] + ['\n'] + TextOf(lines[1..]);
      assert [lines[0]] + (lines[1..] + [""]) == lines + [""];
    }
  }

  lemma LinesOfText(lines: seq<string>)
    requires AllFree(lines, '\n')
    ensures LinesOf(TextOf(lines)) == lines
  {
    SplitText(lines);
    hide Split, TextOf;
    assert (lines + [""])[..|lines|] == lines;
  }

  /** Names, keys and values that fit on a line. */
  ghost predicate OnOneLine(p: Printed) {
    && Free(p.r.name, '\n')
    && forall k :: k in p.r.attrs ==> Free(k, '\n') && (p.r.attrs[k].Str? ==> Free(p.r.attrs[k].s, '\n'))
  }

  lemma LineFree(key: string, value: string)
    requires Free(key, '\n') && Free(value, '\n')
    ensures Free(Line(key, value), '\n')
  {
    var text := ": ";
    assert text[0] == ':' && text[1] == ' ';
    assert Free(key + text, '\n');
  }

  lemma {:induction false} AttrLinesFree(r: Resource, order: seq<string>)
    requires forall k :: k in order ==> k in r.attrs && r.attrs[k].Str?
    requires forall k :: k in order ==> Free(k, '\n') && Free(r.attrs[k].s, '\n')
    ensures AllFree(AttrLines(r, order), '\n')
    decreases |order|
  {
    if order != [] {
      var front, key := order[..|order| - 1], order[|order| - 1];
      assert order == front + [key];
      AttrLinesFree(r, front);
      LineFree(key, r.attrs[key].s);
    }
  }

  lemma ResourceLinesFree(p: Printed)
    requires Printable(p) && OnOneLine(p)
    ensures AllFree(ResourceLines(p), '\n')
  {
    AttrLinesFree(p.r, p.order);
    LineFree("name", p.r.name);
  }

  lemma {:induction false} ListLinesFree(ps: seq<Printed>)
    requires forall p :: p in ps ==> Printable(p) && OnOneLine(p)
    ensures AllFree(ListLines(ps), '\n')
    decreases |ps|
  {
    if ps != [] {
      var front, last := ps[..|ps| - 1], ps[|ps| - 1];
      assert ps == front + [last];
      assert last in ps;
      hide Printable, OnOneLine, ResourceLines, Line;
      ListLinesFree(front);
      ResourceLinesFree(last);
    }
  }

  /**
   * Printing any list of resources in the documented format, with the attributes of each in any
   * order, and reading the text with `list` gives the same list.
   */
  lemma ListRoundTrip(ps: seq<Printed>)
    requires forall p :: p in ps ==> Printable(p) && OnOneLine(p)
    ensures Batch(LinesOf(TextOf(["# simple"] + ListLines(ps))), ListEntry, []) == Parsed(ResourcesOf(ps), None, "")
  {
    ListLinesRead(ps);
    ListLinesFree(ps);
    hide Batch, ListLines, Printable, OnOneLine, TextOf, LinesOf;
    LinesOfText([HEADER] + ListLines(ps));
  }

  /* ---- lines that are not in the documented format ---- */

  lemma {:induction false} PaddedColon(pad: string, line: string)
    requires Blank(pad)
    ensures Colon(pad + line) == |pad| + Colon(line)
  {
    if pad == "" {
      assert pad + line == line;
    } else {
      assert pad[0] in pad && (pad + line)[1..] == pad[1..] + line;
      PaddedColon(pad[1..], line);
    }
  }

  /** Lines are not trimmed: blanks in front become part of the key, and do not touch the value. */
  lemma KeysAreNotTrimmed(pad: string, line: string)
    requires Blank(pad)
    ensures KeyOf(pad + line) == KeyOf(line) <==> pad == ""
    ensures HasColon(line) ==> ValueOf(pad + line) == ValueOf(line)
  {
    PaddedColon(pad, line);
    var p := Colon(line);
    assert (pad + line)[..|pad| + p] == pad + line[..p];
    if HasColon(line) {
      assert (pad + line)[|pad| + p + 1..] == line[p + 1..];
    }
    assert |KeyOf(pad + line)| == |pad| + |KeyOf(line)|;
    if pad == "" {
      assert pad + line == line;
    }
  }

  lemma {:induction false} NoColonAt(line: string)
    requires ':' !in line
    ensures Colon(line) == |line|
  {
    if line != "" {
      NoColonAt(line[1..]);
    }
  }

  /**
   * A line without ':' is an error and ends the reading, but the callback sees it all the same,
   * as a key and as a value; only "ral_error" does not reach it.
   */
  lemma ColonlessLine<S>(lines: seq<string>, line: string, more: seq<string>, entry: Callback<S>, s: S)
    requires ':' !in line
    requires Body(lines, entry, s).error == None && DataCount(lines) == |lines|
    ensures var before, r := Body(lines, entry, s).state, Batch([HEADER] + (lines + ([line] + more)), entry, s);
            && r.error.Some?
            && r.state == if line == ERROR_KEY then before else entry(before, line, Trim(line)).state
  {
    hide Body, DataCount, Trim;
    var rest := [line] + more;
    BodyAppend(lines, rest, entry, s);
    ColonlessFirst(line, more, entry, Body(lines, entry, s).state);
    assert ([HEADER] + (lines + rest))[1..] == lines + rest;
  }

  lemma ColonlessFirst<S>(line: string, more: seq<string>, entry: Callback<S>, s: S)
    requires ':' !in line
    ensures var r := Body([line] + more, entry, s);
            r.error.Some? && r.state == if line == ERROR_KEY then s else entry(s, line, Trim(line)).state
  {
    NoColonAt(line);
    assert KeyOf(line) == line && ValueOf(line) == Trim(line) && !HasColon(line);
    hide Colon, Trim, KeyOf, ValueOf, HasColon;
    assert ([line] + more)[0] == line;
  }

  /* ---- update ---- */

  datatype Log = Log(chgs: seq<Change>, derive: bool)

  /** The callback of `set`; `ral_was` belongs to the change before it. */
  function SetEntry(name: string): Callback<Log> {
    (s: Log, key: string, value: string) =>
      if key == "ral_derive" then Step(s.(derive := value == "true"), None)
      else if key == "name" then Step(s, if value != name then Some(WrongName) else None)
      else if key == "ral_was" then
        if s.chgs == [] then Step(s, Some(Undefined))
        else Step(s.(chgs := s.chgs[|s.chgs| - 1 := s.chgs[|s.chgs| - 1].(was := Str(value))]), None)
      else Step(s.(chgs := s.chgs + [Change(key, Str(value), NoValue)]), None)
  }

  function Quoted(key: string, value: string): string {
    key + "='" + value + "'"
  }

  /** The arguments of the command for these keys: those that are to be changed. */
  function ArgsOf(upd: Update, keys: seq<string>): seq<string> {
    if keys == [] then []
    else if upd.Changed(keys[0]) then [Quoted(keys[0], upd.should.Get(keys[0]).ToString())] + ArgsOf(upd, keys[1..])
    else ArgsOf(upd, keys[1..])
  }

  ghost function Args(upd: Update): seq<string> {
    ArgsOf(upd, Sorted(upd.should.attrs.Keys))
  }

  /** What one update leaves in the change log. */
  ghost function SetLog(chgs: seq<Change>, upd: Update, lines: seq<string>, commandOk: bool): seq<Change> {
    if Args(upd) == [] then chgs
    else
      var p := Batch(lines, SetEntry(upd.Name()), Log(chgs, false));
      if Outcome(p, commandOk) == None && p.state.derive then MaybeAdd(p.state.chgs, upd) else p.state.chgs
  }

  lemma ArgsStep(upd: Update, keys: set<string>, key: string)
    requires IsLeast(key, keys)
    ensures ArgsOf(upd, Sorted(keys)) ==
              (if upd.Changed(key) then [Quoted(key, upd.should.Get(key).ToString())] else [])
                + ArgsOf(upd, Sorted(keys - {key}))
  {
    SortedStep(key, keys);
    assert Sorted(keys)[1..] == Sorted(keys - {key});
  }

  /** All arguments: the name, and what is to change. */
  ghost function AllArgs(upd: Update): seq<string> {
    [Quoted("name", upd.Name())] + Args(upd)
  }

  method BuildArgs(upd: Update) returns (args: seq<string>)
    ensures args == AllArgs(upd)
  {
    hide Sorted, LexLe, Quoted, ArgsOf;
    args := [Quoted("name", upd.Name())];
    var todo := upd.should.attrs.Keys;
    while todo != {}
      invariant todo <= upd.should.attrs.Keys
      invariant args + ArgsOf(upd, Sorted(todo)) == [Quoted("name", upd.Name())] + Args(upd)
      decreases |todo|
    {
      LeastExists(todo);
      var key :| IsLeast(key, todo);
      ArgsStep(upd, todo, key);
      if upd.Changed(key) {
        args := args + [Quoted(key, upd.should.Get(key).ToString())];
      }
      todo := todo - {key};
    }
    NoArgs(upd);
  }

  lemma NoArgs(upd: Update)
    ensures ArgsOf(upd, Sorted({})) == []
  {
  }

  /** The script is run, and its output used, only if there is something to change. */
  method SetUpdate(ctx: Context, upd: Update, lines: seq<string>, commandOk: bool)
      returns (ran: bool, error: Option<SimpleError>)
    modifies ctx
    ensures ran <==> Args(upd) != []
    ensures var start := Log(Entries(old(ctx.log), upd.Name()), false);
            error == if ran then Outcome(Batch(lines, SetEntry(upd.Name()), start), commandOk)
                     else None
    ensures ctx.log == old(ctx.log)[upd.Name() := SetLog(Entries(old(ctx.log), upd.Name()), upd, lines, commandOk)]
  {
    hide Batch, MaybeAdd, ArgsOf;
    var chgs := ctx.ChangesFor(upd.Name());
    var args := BuildArgs(upd);
    ran := |args| > 1;
    error := None;
    if ran {
      var s;
      error, s := RunAction(lines, commandOk, SetEntry(upd.Name()), Log(chgs, false));
      ctx.log := ctx.log[upd.Name() := s.chgs];
      if error == None && s.derive {
        var any := ctx.MaybeAddChanged(upd);
      }
    }
  }

  lemma {:induction false} ArgsOfEmpty(upd: Update, keys: seq<string>)
    ensures ArgsOf(upd, keys) == [] <==> forall k :: k in keys ==> !upd.Changed(k)
  {
    if keys != [] {
      ArgsOfEmpty(upd, keys[1..]);
      assert keys == [keys[0]] + keys[1..];
    }
  }

  /** The script is run exactly when some attribute differs from what is wanted. */
  lemma RunsIff(upd: Update)
    ensures Args(upd) != [] <==> exists a :: upd.Changed(a)
  {
    ArgsOfEmpty(upd, Sorted(upd.should.attrs.Keys));
    if a :| upd.Changed(a) {
      assert a in upd.should.attrs.Keys;
    }
  }

  /** With `ral_derive`, no difference is left unrecorded, whatever else the script has reported. */
  lemma DeriveCovers(chgs: seq<Change>, upd: Update, lines: seq<string>, commandOk: bool)
    requires Args(upd) != []
    requires var p := Batch(lines, SetEntry(upd.Name()), Log(chgs, false));
             Outcome(p, commandOk) == None && p.state.derive
    ensures forall a :: !Owed(SetLog(chgs, upd, lines, commandOk), a, upd)
  {
    hide Batch, MaybeAdd, Owed;
    MaybeAddIdempotent(Batch(lines, SetEntry(upd.Name()), Log(chgs, false)).state.chgs, upd);
  }

  /** The shortest answer to an update makes the log the derived differences. */
  lemma DeriveOnly(upd: Update)
    requires Args(upd) != []
    ensures SetLog([], upd, [HEADER, Line("ral_derive", "true")], true) == MaybeAdd([], upd)
  {
    hide Args, MaybeAdd;
    var lines := [HEADER, Line("ral_derive", "true")];
    assert lines[1..] == [Line("ral_derive", "true")];
    OneLine("ral_derive", "true", SetEntry(upd.Name()), Log([], false));
  }

  /* ---- a list of updates ---- */

  /** The lines that a script prints when it is run, and whether it succeeds. */
  datatype Answer = Answer(lines: seq<string>, ok: bool)

  ghost function LogAfter(log: map<string, seq<Change>>, upd: Update, a: Answer): map<string, seq<Change>> {
    log[upd.Name() := SetLog(Entries(log, upd.Name()), upd, a.lines, a.ok)]
  }

  ghost function ErrorOf(log: map<string, seq<Change>>, upd: Update, a: Answer): Option<SimpleError> {
    if Args(upd) == [] then None
    else Outcome(Batch(a.lines, SetEntry(upd.Name()), Log(Entries(log, upd.Name()), false)), a.ok)
  }

  /** All updates up to the first that fails. */
  ghost function LogAfterAll(log: map<string, seq<Change>>, upds: seq<Update>,
                             answers: seq<Answer>): map<string, seq<Change>>
    requires |upds| == |answers|
    decreases |upds|
  {
    if upds == [] then log
    else
      var next := LogAfter(log, upds[0], answers[0]);
      if ErrorOf(log, upds[0], answers[0]).Some? then next else LogAfterAll(next, upds[1..], answers[1..])
  }

  ghost function ErrorOfAll(log: map<string, seq<Change>>, upds: seq<Update>, answers: seq<Answer>): Option<SimpleError>
    requires |upds| == |answers|
    decreases |upds|
  {
    if upds == [] then None
    else if ErrorOf(log, upds[0], answers[0]).Some? then ErrorOf(log, upds[0], answers[0])
    else ErrorOfAll(LogAfter(log, upds[0], answers[0]), upds[1..], answers[1..])
  }

  method SetUpdates(ctx: Context, upds: seq<Update>, answers: seq<Answer>) returns (error: Option<SimpleError>)
    requires |upds| == |answers|
    modifies ctx
    ensures ctx.log == LogAfterAll(old(ctx.log), upds, answers)
    ensures error == ErrorOfAll(old(ctx.log), upds, answers)
  {
    hide SetLog, Args, Batch;
    error := None;
    for i := 0 to |upds|
      invariant error == None
      invariant LogAfterAll(ctx.log, upds[i..], answers[i..]) == LogAfterAll(old(ctx.log), upds, answers)
      invariant ErrorOfAll(ctx.log, upds[i..], answers[i..]) == ErrorOfAll(old(ctx.log), upds, answers)
    {
      assert upds[i..][1..] == upds[i + 1..] && answers[i..][1..] == answers[i + 1..];
      var ran;
      ran, error := SetUpdate(ctx, upds[i], answers[i].lines, answers[i].ok);
      if error.Some? {
        return;
      }
    }
  }

  ghost predicate DistinctUpdates(upds: seq<Update>) {
    forall i, j :: 0 <= i < j < |upds| ==> upds[i].Name() != upds[j].Name()
  }

  /**
   * After a run over distinct names that succeeds, the log of each name is what its own script
   * has left there, whatever the other scripts have printed.
   */
  lemma {:induction false} RunLogsEach(log: map<string, seq<Change>>, upds: seq<Update>, answers: seq<Answer>)
    requires |upds| == |answers| && DistinctUpdates(upds)
    requires ErrorOfAll(log, upds, answers) == None
    ensures forall i :: 0 <= i < |upds| ==>
              Entries(LogAfterAll(log, upds, answers), upds[i].Name())
                == SetLog(Entries(log, upds[i].Name()), upds[i], answers[i].lines, answers[i].ok)
    ensures forall n :: (forall i :: 0 <= i < |upds| ==> upds[i].Name() != n) ==>
              Entries(LogAfterAll(log, upds, answers), n) == Entries(log, n)
    decreases |upds|
  {
    hide SetLog, ErrorOf, Update.Name;
    if upds != [] {
      var next := LogAfter(log, upds[0], answers[0]);
      RunLogsEach(next, upds[1..], answers[1..]);
      var after := LogAfterAll(log, upds, answers);
      assert forall i :: 1 <= i < |upds| ==> upds[1..][i - 1] == upds[i];
      forall i | 0 <= i < |upds|
        ensures Entries(after, upds[i].Name())
                  == SetLog(Entries(log, upds[i].Name()), upds[i], answers[i].lines, answers[i].ok)
      {
        if i > 0 {
          assert upds[1..][i - 1] == upds[i] && answers[1..][i - 1] == answers[i];
        }
      }
    }
  }
}
