/** Setting users: the command that is built for an update. */
module User {
  import opened Core
  import opened Text
  import opened Changes
  import opened Accounts

  const PROPS := ["comment", "gid", "home", "shell", "uid"]

  function ActualGroups(upd: Update): seq<string> {
    upd.actual.LookupArray("groups", [])
  }

  function WantedGroups(upd: Update): seq<string> {
    upd.should.LookupArray("groups", ActualGroups(upd))
  }

  function Elements(list: seq<string>): set<string> {
    set x | x in list
  }

  predicate GroupsDiffer(upd: Update) {
    Elements(ActualGroups(upd)) != Elements(WantedGroups(upd))
  }

  function GroupArgs(upd: Update): seq<string> {
    if GroupsDiffer(upd) then ["-G", Join(WantedGroups(upd), ",")] else []
  }

  function HomeArgs(upd: Update): seq<string> {
    if upd.should.LookupBool("managehome", false) then ["-m"]
    else if StateOf(upd) == "absent" then ["-M"]
    else []
  }

  function UserArgs(upd: Update): seq<string> {
    PropArgs(upd, PROPS) + GroupArgs(upd) + HomeArgs(upd) + [upd.Name()]
  }

  /** The log after the differences of a user that is to be present. */
  function LogUser(chgs: seq<Change>, upd: Update): seq<Change> {
    LogWanted(LogEnsure(chgs, upd), upd)
  }

  function LogWanted(chgs: seq<Change>, upd: Update): seq<Change> {
    var props := AddDiffs(chgs, PROPS, upd);
    if GroupsDiffer(upd)
    then props + [Change("groups", Array(WantedGroups(upd)), Array(ActualGroups(upd)))]
    else props
  }

  function SetOne(chgs: seq<Change>, upd: Update, ok: bool): Outcome {
    if EnsureOf(upd) == "present" then
      var log := LogUser(chgs, upd);
      if log == [] then Outcome(log, None, None)
      else Ran(log, Command(if StateOf(upd) == "present" then ModTool else AddTool, UserArgs(upd)), ok)
    else
      var log := LogEnsure(chgs, upd);
      if EnsureOf(upd) == "absent" && StateOf(upd) != "absent" then Ran(log, Command(DelTool, ["-r", upd.Name()]), ok)
      else Outcome(log, None, if EnsureOf(upd) == "role" then Some(RoleWanted) else None)
  }

  predicate Typed(upd: Update) {
    AreStrings(upd.should, PROPS)
  }

  /** The groups that are wanted are names that can stand in a comma list. */
  predicate Listable(list: seq<string>) {
    AllFree(list, ',') && list != [""]
  }

  /* ---- the provider ---- */

  method BuildProps(ctx: Context, upd: Update) returns (args: seq<string>)
    requires Typed(upd) && upd.Name() in ctx.log
    modifies ctx
    ensures args == PropArgs(upd, PROPS)
    ensures ctx.log == old(ctx.log)[upd.Name() := AddDiffs(old(ctx.log)[upd.Name()], PROPS, upd)]
  {
    hide PropArgs, AddDiffs, OptionOf;
    args := [];
    PropsNone(ctx.log[upd.Name()], upd);
    for i := 0 to |PROPS|
      invariant args == PropArgs(upd, PROPS[..i])
      invariant ctx.log == old(ctx.log)[upd.Name() := AddDiffs(old(ctx.log)[upd.Name()], PROPS[..i], upd)]
    {
      var prop := PROPS[i];
      if upd.should.Get(prop).IsSet() && upd.actual.Get(prop) != upd.should.Get(prop) {
        assert prop in PROPS;
        ctx.Add(upd.Name(), prop, Str(upd.should.Get(prop).s), upd.actual.Get(prop));
        args := args + [OptionOf(prop)];
        args := args + [upd.should.Get(prop).ToString()];
      }
      assert PROPS[..i + 1] == PROPS[..i] + [prop];
      PropArgsSnoc(upd, PROPS[..i], prop);
      AddDiffsSnoc(old(ctx.log)[upd.Name()], PROPS[..i], prop, upd);
    }
    assert PROPS[..|PROPS|] == PROPS;
  }

  lemma PropsNone(chgs: seq<Change>, upd: Update)
    ensures PropArgs(upd, PROPS[..0]) == [] && AddDiffs(chgs, PROPS[..0], upd) == chgs
  {
  }

  method BuildArgs(ctx: Context, upd: Update) returns (args: seq<string>)
    requires Typed(upd) && upd.Name() in ctx.log
    modifies ctx
    ensures args == UserArgs(upd)
    ensures ctx.log == old(ctx.log)[upd.Name() := LogWanted(old(ctx.log)[upd.Name()], upd)]
  {
    hide PropArgs, AddDiffs, Join;
    args := BuildProps(ctx, upd);
    var groups := upd.should.LookupArray("groups", upd.actual.LookupArray("groups", []));
    if Elements(upd.actual.LookupArray("groups", [])) != Elements(groups) {
      ctx.Add(upd.Name(), "groups", Array(groups), Array(upd.actual.LookupArray("groups", [])));
      var list := PrintJoined(groups, ",");
      args := args + ["-G", list];
    }
    assert args == PropArgs(upd, PROPS) + GroupArgs(upd);
    if upd.should.LookupBool("managehome", false) {
      args := args + ["-m"];
    } else if upd.actual.Lookup("ensure", "absent") == "absent" {
      args := args + ["-M"];
    }
    assert args == PropArgs(upd, PROPS) + GroupArgs(upd) + HomeArgs(upd);
    args := args + [upd.Name()];
  }

  method SetUpdate(ctx: Context, upd: Update, ok: bool)
      returns (command: Option<Command>, error: Option<AccountError>)
    requires Typed(upd)
    modifies ctx
    ensures var out := SetOne(Entries(old(ctx.log), upd.Name()), upd, ok);
            && command == out.command && error == out.error
            && ctx.log == old(ctx.log)[upd.Name() := out.chgs]
  {
    hide UserArgs, LogWanted;
    ghost var start := ctx.ChangesFor(upd.Name());
    command, error := None, None;
    var state := upd.actual.Lookup("ensure", "absent");
    var ensure := upd.should.Lookup("ensure", state);
    if ensure != state {
      ctx.Add(upd.Name(), "ensure", Str(ensure), Str(state));
    }
    assert ctx.log == old(ctx.log)[upd.Name() := LogEnsure(start, upd)];
    if ensure == "present" {
      var args := BuildArgs(ctx, upd);
      if ctx.log[upd.Name()] != [] {
        command := Some(Command(if state == "present" then ModTool else AddTool, args));
        error := if ok then None else Some(CommandFailed);
      }
    } else if ensure == "absent" {
      if state != "absent" {
        command := Some(Command(DelTool, ["-r", upd.Name()]));
        error := if ok then None else Some(CommandFailed);
      }
    } else if ensure == "role" {
      error := Some(RoleWanted);
    }
  }

  /* ---- what the command says ---- */

  function HomeFlags(upd: Update): seq<Home> {
    if upd.should.LookupBool("managehome", false) then [Made]
    else if StateOf(upd) == "absent" then [NotMade]
    else []
  }

  function GroupsGiven(upd: Update): seq<Given> {
    if GroupsDiffer(upd) then [Given("groups", Join(WantedGroups(upd), ","))] else []
  }

  lemma ReadHome(upd: Update)
    ensures ReadOptions(HomeArgs(upd)) == Some(Options([], HomeFlags(upd)))
  {
    assert [Made] + [] == [Made] && [NotMade] + [] == [NotMade];
    assert ReadOptions([]) == Some(Options([], []));
  }

  lemma ReadGroups(upd: Update)
    ensures ReadOptions(GroupArgs(upd) + HomeArgs(upd)) == Some(Options(GroupsGiven(upd), HomeFlags(upd)))
  {
    ReadHome(upd);
    if GroupsDiffer(upd) {
      assert OptionOf("groups") == "-G";
      hide OptionOf, ReadOptions, HomeArgs, HomeFlags, GroupsDiffer, Join;
      ReadPair("groups", Join(WantedGroups(upd), ","), HomeArgs(upd));
      assert GroupsGiven(upd) + [] == GroupsGiven(upd);
    } else {
      assert GroupArgs(upd) + HomeArgs(upd) == HomeArgs(upd);
    }
  }

  lemma ReadUserArgs(upd: Update)
    requires Typed(upd)
    ensures ReadCall(UserArgs(upd)) ==
              Some(Call(Options(PropsGiven(upd, PROPS) + GroupsGiven(upd), HomeFlags(upd)), upd.Name()))
  {
    hide ReadOptions, PropArgs, GroupArgs, HomeArgs, PropsGiven, GroupsGiven, HomeFlags, AreStrings;
    var words := UserArgs(upd);
    assert words[..|words| - 1] == PropArgs(upd, PROPS) + (GroupArgs(upd) + HomeArgs(upd));
    ReadGroups(upd);
    ReadPropArgs(upd, PROPS, GroupArgs(upd) + HomeArgs(upd));
  }

  /**
   * The command for a user that is to be present can be read back. It names the user, and it is
   * useradd exactly if the log says that "ensure" has changed. What its options ask for is what
   * this update has added to the log, in the same order and with the same values, unless a list
   * of groups is given that can not be told from its text. The home directory is made if that was
   * asked for, and expressly not made for any other new user.
   */
  lemma CommandSaysTheLog(chgs: seq<Change>, upd: Update, ok: bool)
    requires Typed(upd)
    requires EnsureOf(upd) == "present" && SetOne(chgs, upd, ok).command.Some?
    ensures ReadCall(SetOne(chgs, upd, ok).command.value.args).Some?
    ensures var out := SetOne(chgs, upd, ok);
            var call := ReadCall(out.command.value.args).value;
            && call.name == upd.Name()
            && (out.chgs == LogEnsure(chgs, upd) + ChangesOf(call.options.given, upd.actual) <==>
                  !GroupsDiffer(upd) || Listable(WantedGroups(upd)))
            && out.command.value.tool == (if LogEnsure(chgs, upd) == chgs then ModTool else AddTool)
            && (Made in call.options.home <==> upd.should.Get("managehome") == Bool(true))
            && (NotMade in call.options.home <==>
                  upd.should.Get("managehome") != Bool(true) && StateOf(upd) == "absent")
  {
    LoggedAsEnsure(chgs, upd);
    HomeFlagsExact(upd);
    LogSaysOptions(chgs, upd);
    hide ReadCall, UserArgs, LogUser, LogEnsure, HomeFlags, AreStrings, Listable, Join, AddDiffs, GroupsDiffer;
  }

  lemma LoggedAsEnsure(chgs: seq<Change>, upd: Update)
    requires EnsureOf(upd) == "present"
    ensures LogEnsure(chgs, upd) == chgs <==> StateOf(upd) == "present"
  {
    if StateOf(upd) != "present" {
      assert |LogEnsure(chgs, upd)| == |chgs| + 1;
    }
  }

  lemma HomeFlagsExact(upd: Update)
    ensures Made in HomeFlags(upd) <==> upd.should.Get("managehome") == Bool(true)
    ensures NotMade in HomeFlags(upd) <==>
              upd.should.Get("managehome") != Bool(true) && StateOf(upd) == "absent"
  {
  }

  lemma LogSaysOptions(chgs: seq<Change>, upd: Update)
    requires Typed(upd)
    ensures ReadCall(UserArgs(upd)).Some?
    ensures var call := ReadCall(UserArgs(upd)).value;
            && call.name == upd.Name() && call.options.home == HomeFlags(upd)
            && (LogUser(chgs, upd) == LogEnsure(chgs, upd) + ChangesOf(call.options.given, upd.actual) <==>
                  !GroupsDiffer(upd) || Listable(WantedGroups(upd)))
  {
    ReadUserArgs(upd);
    PropsLogged(LogEnsure(chgs, upd), upd, PROPS);
    GroupsSay(upd);
    hide ReadOptions, ReadCall, AddDiffs, LogEnsure, PropsGiven, GroupsGiven, ChangesOf, AreStrings, Listable,
         GroupsDiffer;
    var props, groups := ChangesOf(PropsGiven(upd, PROPS), upd.actual), ChangesOf(GroupsGiven(upd), upd.actual);
    ChangesOfAppend(PropsGiven(upd, PROPS), GroupsGiven(upd), upd.actual);
    var log := LogEnsure(chgs, upd);
    assert log + (props + groups) == log + props + groups;
    assert LogUser(chgs, upd) == log + props + GroupsLog(upd);
    assert |groups| == |GroupsLog(upd)|;
    SameEnd(log + props, groups, GroupsLog(upd));
  }

  function GroupsLog(upd: Update): seq<Change> {
    if GroupsDiffer(upd) then [Change("groups", Array(WantedGroups(upd)), Array(ActualGroups(upd)))] else []
  }

  lemma GroupsSay(upd: Update)
    ensures |ChangesOf(GroupsGiven(upd), upd.actual)| == |GroupsLog(upd)|
    ensures ChangesOf(GroupsGiven(upd), upd.actual) == GroupsLog(upd) <==>
              !GroupsDiffer(upd) || Listable(WantedGroups(upd))
  {
    CommaListIff(WantedGroups(upd));
    hide GroupsDiffer, Join, CommaList, AllFree;
    var said, logged := ChangesOf(GroupsGiven(upd), upd.actual), GroupsLog(upd);
    if GroupsDiffer(upd) {
      assert said == [ChangeOf(GroupsGiven(upd)[0], upd.actual)];
      assert said[0] == logged[0] <==> Listable(WantedGroups(upd));
    }
  }

  lemma SameEnd(a: seq<Change>, b: seq<Change>, c: seq<Change>)
    requires |b| == |c|
    ensures a + b == a + c <==> b == c
  {
    if a + b == a + c {
      assert b == (a + b)[|a|..] && c == (a + c)[|a|..];
    }
  }

  lemma ChangesOfAppend(a: seq<Given>, b: seq<Given>, actual: Resource)
    ensures ChangesOf(a + b, actual) == ChangesOf(a, actual) + ChangesOf(b, actual)
  {
  }

  /** The groups of a state, none if they are no list. */
  function GroupsIn(r: Resource): seq<string> {
    match r.Get("groups")
    case Array(a) => a
    case _ => []
  }

  /**
   * -G is given exactly if groups are asked for and are not those that are there: order and
   * repetition do not matter.
   */
  lemma GroupsGivenIff(upd: Update)
    requires Typed(upd)
    ensures ReadCall(UserArgs(upd)).Some?
    ensures var call := ReadCall(UserArgs(upd)).value;
            (exists g :: g in call.options.given && g.attr == "groups") <==>
              && upd.should.Get("groups").Array?
              && exists x :: (x in GroupsIn(upd.actual)) != (x in GroupsIn(upd.should))
  {
    ReadUserArgs(upd);
    GroupsAre(upd);
    hide ReadCall, UserArgs, AreStrings, ActualGroups, WantedGroups, GroupsIn;
    PropsGivenExact(upd, PROPS);
    assert "groups" !in PROPS;
    ElementsDiffer(ActualGroups(upd), WantedGroups(upd));
    if GroupsDiffer(upd) {
      assert GroupsGiven(upd)[0] in GroupsGiven(upd);
    }
  }

  lemma GroupsAre(upd: Update)
    ensures ActualGroups(upd) == GroupsIn(upd.actual)
    ensures WantedGroups(upd) == if upd.should.Get("groups").Array? then GroupsIn(upd.should) else GroupsIn(upd.actual)
  {
  }

  lemma ElementsDiffer(a: seq<string>, b: seq<string>)
    ensures Elements(a) != Elements(b) <==> exists x :: (x in a) != (x in b)
  {
    assert forall x :: x in Elements(a) <==> x in a;
    assert forall x :: x in Elements(b) <==> x in b;
  }

  lemma {:induction false} PropsGivenExact(upd: Update, props: seq<string>)
    ensures forall g :: g in PropsGiven(upd, props) <==>
              g.attr in props && upd.Changed(g.attr) && g.text == upd.should.Get(g.attr).ToString()
  {
    if props != [] {
      PropsGivenExact(upd, props[1..]);
      assert props == [props[0]] + props[1..];
    }
  }

  /** What differs between the actual and the desired state of a user, apart from its existence. */
  predicate AnyDiffers(upd: Update) {
    GroupsDiffer(upd) || exists p :: p in PROPS && upd.Changed(p)
  }

  /** For a user that is to be present, a command is run exactly if something is in the log. */
  lemma PresentRunsIff(chgs: seq<Change>, upd: Update, ok: bool)
    requires EnsureOf(upd) == "present"
    ensures SetOne(chgs, upd, ok).command.Some? <==> SetOne(chgs, upd, ok).chgs != []
    ensures SetOne(chgs, upd, ok).chgs != chgs <==> StateOf(upd) != "present" || AnyDiffers(upd)
  {
    AddDiffsExact(LogEnsure(chgs, upd), PROPS, upd);
    hide AddDiffs, UserArgs, GroupsDiffer, PROPS;
    if StateOf(upd) != "present" {
      assert |LogEnsure(chgs, upd)| == |chgs| + 1;
    }
  }

  /** The state of a user after a successful command: what was wanted, and the rest as it was. */
  function After(upd: Update): Resource {
    Resource(upd.Name(), map k | k in upd.actual.attrs.Keys + upd.should.attrs.Keys :: upd.At(k))
  }

  /** Once a user is as it was wanted, nothing is logged and nothing is run. */
  lemma SettledUserIsLeftAlone(upd: Update, ok: bool)
    requires Typed(upd)
    requires EnsureOf(upd) == "present" && (upd.should.Get("ensure").IsSet() ==> upd.should.Get("ensure").Str?)
    ensures SetOne([], Update(After(upd), upd.should), ok) == Outcome([], None, None)
  {
    var again := Update(After(upd), upd.should);
    hide UserArgs, AddDiffs, PROPS;
    assert EnsureOf(again) == StateOf(again) == "present";
    forall p ensures !again.Changed(p) {
    }
    AddDiffsExact([], PROPS, again);
    PresentRunsIff([], again, ok);
  }

  /* ---- what is run and logged, for each state that can be asked for ---- */

  /** A user that is to be absent is deleted exactly if it is there, and only that is logged. */
  lemma RemovalRunsIff(chgs: seq<Change>, upd: Update, ok: bool)
    requires upd.should.Get("ensure") == Str("absent")
    ensures var out, state := SetOne(chgs, upd, ok), upd.actual.Get("ensure");
            if state.Str? && state != Str("absent") then
              && out.command == Some(Command(DelTool, ["-r", upd.Name()]))
              && out.chgs == chgs + [Change("ensure", Str("absent"), state)]
              && (out.error == None <==> ok)
            else out == Outcome(chgs, None, None)
  {
  }

  /** Any state but "present" and "absent" is logged and not acted upon; "role" is an error. */
  lemma OtherStatesRunNothing(chgs: seq<Change>, upd: Update, ok: bool)
    requires upd.should.Get("ensure").Str? && upd.should.Get("ensure").s !in {"present", "absent"}
    ensures var out, now, was := SetOne(chgs, upd, ok), upd.should.Get("ensure"), Str(Said(upd.actual, "absent"));
            && out.command == None
            && out.chgs == chgs + (if now != was then [Change("ensure", now, was)] else [])
            && out.error == if now == Str("role") then Some(RoleWanted) else None
  {
  }

  /** A user of which no state is asked is left in the state it is in. */
  lemma UnsaidStateIsKept(chgs: seq<Change>, upd: Update, ok: bool)
    requires !upd.should.Get("ensure").Str?
    ensures var out := SetOne(chgs, upd, ok);
            if upd.actual.Get("ensure") == Str("present") then
              && out.chgs == chgs + PropertyLog(upd)
              && (out.command.Some? ==> out.command.value.tool == ModTool)
            else out.command == None && out.chgs == chgs
  {
    PropertiesLogged(chgs, upd);
    EnsureIsSaid(upd);
    hide LogWanted, UserArgs, PropertyLog;
  }

  /** All that is compared of a user that is to be present, in the order in which it is logged. */
  function PropertyLog(upd: Update): seq<Change> {
    One(upd, "comment") + One(upd, "gid") + One(upd, "home") + One(upd, "shell") + One(upd, "uid")
      + if upd.should.Get("groups").Array? && Elements(GroupsIn(upd.should)) != Elements(GroupsIn(upd.actual))
        then [Change("groups", upd.should.Get("groups"), Array(GroupsIn(upd.actual)))] else []
  }

  lemma PropertiesLogged(chgs: seq<Change>, upd: Update)
    ensures LogWanted(chgs, upd) == chgs + PropertyLog(upd)
  {
    var a := chgs + One(upd, "comment");
    var b := a + One(upd, "gid");
    var c := b + One(upd, "home");
    var d := c + One(upd, "shell");
    AddDiffsCons(chgs, "comment", ["gid", "home", "shell", "uid"], upd);
    AddDiffsCons(a, "gid", ["home", "shell", "uid"], upd);
    AddDiffsCons(b, "home", ["shell", "uid"], upd);
    AddDiffsCons(c, "shell", ["uid"], upd);
    AddDiffsCons(d, "uid", [], upd);
    AddNoDiffs(d + One(upd, "uid"), upd);
    GroupsAre(upd);
    hide AddDiffs, One, Elements;
    assert PROPS == ["comment"] + ["gid", "home", "shell", "uid"];
    assert ["gid", "home", "shell", "uid"] == ["gid"] + ["home", "shell", "uid"];
    assert ["home", "shell", "uid"] == ["home"] + ["shell", "uid"] && ["shell", "uid"] == ["shell"] + ["uid"];
    assert ["uid"] == ["uid"] + [];
  }

  /** The log and the command of a user that is to be present, in full. */
  lemma PresentLogsAll(chgs: seq<Change>, upd: Update, ok: bool)
    requires upd.should.Get("ensure") == Str("present")
    ensures var out, state := SetOne(chgs, upd, ok), Said(upd.actual, "absent");
            && out.chgs == chgs + (if state == "present" then []
                                   else [Change("ensure", Str("present"), Str(state))]) + PropertyLog(upd)
            && (out.command.Some? <==> out.chgs != [])
            && (out.command.Some? ==>
                  out.command.value.tool == (if state == "present" then ModTool else AddTool))
            && (out.error == None <==> out.command == None || ok)
  {
    EnsureIsSaid(upd);
    PropertiesLogged(LogEnsure(chgs, upd), upd);
    hide LogWanted, UserArgs, PropertyLog;
  }
}
