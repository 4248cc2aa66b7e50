/** What the user and group providers share: the commands they build, and how these are read. */
module Accounts {
  import opened Core
  import opened Text
  import opened Changes

  datatype Tool = AddTool | ModTool | DelTool

  datatype Command = Command(tool: Tool, args: seq<string>)

  datatype AccountError = RoleWanted | CommandFailed

  /** What one update does: the change log it leaves, the command it runs and how it ends. */
  datatype Outcome = Outcome(chgs: seq<Change>, command: Option<Command>, error: Option<AccountError>)

  function StateOf(upd: Update): string {
    upd.actual.Lookup("ensure", "absent")
  }

  function EnsureOf(upd: Update): string {
    upd.should.Lookup("ensure", StateOf(upd))
  }

  lemma EnsureIsSaid(upd: Update)
    ensures StateOf(upd) == Said(upd.actual, "absent")
    ensures EnsureOf(upd) == Said(upd.should, Said(upd.actual, "absent"))
  {
  }

  function LogEnsure(chgs: seq<Change>, upd: Update): seq<Change> {
    if EnsureOf(upd) != StateOf(upd)
    then chgs + [Change("ensure", Str(EnsureOf(upd)), Str(StateOf(upd)))]
    else chgs
  }

  /** Running a command that succeeds or not. */
  function Ran(chgs: seq<Change>, command: Command, ok: bool): Outcome {
    Outcome(chgs, Some(command), if ok then None else Some(CommandFailed))
  }

  /* ---- building arguments ---- */

  /** The option of useradd and usermod that sets an attribute; groupadd and groupmod share -g. */
  function OptionOf(attr: string): string {
    if attr == "comment" then "-c"
    else if attr == "gid" then "-g"
    else if attr == "home" then "-d"
    else if attr == "shell" then "-s"
    else if attr == "uid" then "-u"
    else "-G"
  }

  function PropArgs(upd: Update, props: seq<string>): seq<string> {
    if props == [] then []
    else if upd.Changed(props[0])
    then [OptionOf(props[0]), upd.should.Get(props[0]).ToString()] + PropArgs(upd, props[1..])
    else PropArgs(upd, props[1..])
  }

  lemma {:induction false} PropArgsSnoc(upd: Update, props: seq<string>, last: string)
    ensures PropArgs(upd, props + [last]) ==
              PropArgs(upd, props) + if upd.Changed(last) then [OptionOf(last), upd.should.Get(last).ToString()] else []
  {
    if props == [] {
      assert (props + [last])[1..] == [];
    } else {
      assert (props + [last])[1..] == props[1..] + [last];
      hide OptionOf;
      PropArgsSnoc(upd, props[1..], last);
    }
  }

  /* ---- reading arguments ---- */

  /** The attribute that an option with an operand sets. */
  function AttrOf(option: string): Option<string> {
    if option == "-c" then Some("comment")
    else if option == "-g" then Some("gid")
    else if option == "-d" then Some("home")
    else if option == "-s" then Some("shell")
    else if option == "-u" then Some("uid")
    else if option == "-G" then Some("groups")
    else None
  }

  datatype Home = Made | NotMade

  function HomeOf(option: string): Option<Home> {
    if option == "-m" then Some(Made) else if option == "-M" then Some(NotMade) else None
  }

  datatype Given = Given(attr: string, text: string)

  datatype Options = Options(given: seq<Given>, home: seq<Home>)

  /** Options as the commands read them: an operand is whatever word follows, even "-m". */
  function ReadOptions(words: seq<string>): Option<Options> {
    if words == [] then Some(Options([], []))
    else if HomeOf(words[0]).Some? then
      match ReadOptions(words[1..])
      case None => None
      case Some(o) => Some(o.(home := [HomeOf(words[0]).value] + o.home))
    else if AttrOf(words[0]).Some? && |words| > 1 then
      match ReadOptions(words[2..])
      case None => None
      case Some(o) => Some(o.(given := [Given(AttrOf(words[0]).value, words[1])] + o.given))
    else None
  }

  datatype Call = Call(options: Options, name: string)

  /** The last word is the account, the words before it are options. */
  function ReadCall(words: seq<string>): Option<Call> {
    if words == [] then None
    else match ReadOptions(words[..|words| - 1])
         case None => None
         case Some(o) => Some(Call(o, words[|words| - 1]))
  }

  function CommaList(text: string): seq<string> {
    if text == "" then [] else Split(text, ',')
  }

  /** The change that an option asks for, seen from the actual state. */
  function ChangeOf(g: Given, actual: Resource): Change {
    if g.attr == "groups"
    then Change("groups", Array(CommaList(g.text)), Array(actual.LookupArray("groups", [])))
    else Change(g.attr, Str(g.text), actual.Get(g.attr))
  }

  function ChangesOf(given: seq<Given>, actual: Resource): seq<Change> {
    seq(|given|, i requires 0 <= i < |given| => ChangeOf(given[i], actual))
  }

  /* ---- reading what was built ---- */

  /** The attributes that have an option and are strings. */
  predicate IsProp(attr: string) {
    attr == "comment" || attr == "gid" || attr == "home" || attr == "shell" || attr == "uid"
  }

  /** Desired values of these attributes are strings: their declared type. */
  predicate AreStrings(r: Resource, props: seq<string>) {
    forall p :: p in props ==> IsProp(p) && (r.Get(p).IsSet() ==> r.Get(p).Str?)
  }

  lemma OptionIsRead(attr: string)
    requires IsProp(attr) || attr == "groups"
    ensures AttrOf(OptionOf(attr)) == Some(attr) && HomeOf(OptionOf(attr)) == None
  {
    assert OptionOf(attr)[1] != 'm' && OptionOf(attr)[1] != 'M';
  }

  lemma ReadPair(attr: string, text: string, rest: seq<string>)
    requires IsProp(attr) || attr == "groups"
    requires ReadOptions(rest).Some?
    ensures ReadOptions([OptionOf(attr), text] + rest) ==
              Some(ReadOptions(rest).value.(given := [Given(attr, text)] + ReadOptions(rest).value.given))
  {
    OptionIsRead(attr);
    var words := [OptionOf(attr), text] + rest;
    assert words[2..] == rest;
    hide OptionOf, AttrOf, HomeOf;
  }

  /** What the options for a list of attributes say. */
  function PropsGiven(upd: Update, props: seq<string>): seq<Given> {
    if props == [] then []
    else if upd.Changed(props[0])
    then [Given(props[0], upd.should.Get(props[0]).ToString())] + PropsGiven(upd, props[1..])
    else PropsGiven(upd, props[1..])
  }

  lemma {:induction false} ReadPropArgs(upd: Update, props: seq<string>, tail: seq<string>)
    requires AreStrings(upd.should, props) && ReadOptions(tail).Some?
    ensures ReadOptions(PropArgs(upd, props) + tail) ==
              Some(ReadOptions(tail).value.(given := PropsGiven(upd, props) + ReadOptions(tail).value.given))
  {
    hide ReadOptions, OptionOf;
    if props == [] {
      assert PropArgs(upd, props) + tail == tail;
      assert [] + ReadOptions(tail).value.given == ReadOptions(tail).value.given;
    } else {
      var p := props[0];
      assert p in props && props == [p] + props[1..];
      ReadPropArgs(upd, props[1..], tail);
      if upd.Changed(p) {
        var text := upd.should.Get(p).ToString();
        ReadPair(p, text, PropArgs(upd, props[1..]) + tail);
        assert PropArgs(upd, props) + tail == [OptionOf(p), text] + (PropArgs(upd, props[1..]) + tail);
        var given := ReadOptions(tail).value.given;
        assert [Given(p, text)] + (PropsGiven(upd, props[1..]) + given) == PropsGiven(upd, props) + given;
      }
    }
  }

  /** The changes that the options ask for are those in the log. */
  lemma {:induction false} PropsLogged(chgs: seq<Change>, upd: Update, props: seq<string>)
    requires AreStrings(upd.should, props)
    ensures AddDiffs(chgs, props, upd) == chgs + ChangesOf(PropsGiven(upd, props), upd.actual)
    decreases |props|
  {
    if props != [] {
      var p := props[0];
      assert p in props && props == [p] + props[1..];
      var next := AddDiff(chgs, p, upd);
      PropsLogged(next, upd, props[1..]);
      if upd.Changed(p) {
        var g := Given(p, upd.should.Get(p).ToString());
        assert ChangesOf([g] + PropsGiven(upd, props[1..]), upd.actual)
            == [ChangeOf(g, upd.actual)] + ChangesOf(PropsGiven(upd, props[1..]), upd.actual);
      }
    }
  }

  /** A comma list is read as the list that was written unless commas or a lone "" intervene. */
  lemma CommaListIff(list: seq<string>)
    ensures CommaList(Join(list, ",")) == list <==> AllFree(list, ',') && list != [""]
  {
    if list != [] {
      JoinOfSplit(Join(list, ","), ',');
      if AllFree(list, ',') {
        SplitOfJoin(list, ',');
        JoinEmpty(list);
      }
    }
  }

  lemma JoinEmpty(list: seq<string>)
    requires list != []
    ensures Join(list, ",") == "" <==> list == [""]
  {
  }
}
