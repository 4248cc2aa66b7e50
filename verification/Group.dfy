/** Setting groups: only the gid is ever passed on. */
module Group {
  import opened Core
  import opened Changes
  import opened Accounts

  const PROPS := ["gid"]

  function GroupArgs(upd: Update): seq<string> {
    PropArgs(upd, PROPS) + [upd.Name()]
  }

  function SetOne(chgs: seq<Change>, upd: Update, ok: bool): Outcome {
    var log := LogEnsure(chgs, upd);
    if EnsureOf(upd) == "present" then
      var all := AddDiffs(log, PROPS, upd);
      if all == [] then Outcome(all, None, None)
      else Ran(all, Command(if StateOf(upd) == "present" then ModTool else AddTool, GroupArgs(upd)), ok)
    else if EnsureOf(upd) == "absent" && StateOf(upd) != "absent" then
      Ran(log, Command(DelTool, [upd.Name()]), ok)
    else Outcome(log, None, None)
  }

  method SetUpdate(ctx: Context, upd: Update, ok: bool)
      returns (command: Option<Command>, error: Option<AccountError>)
    modifies ctx
    ensures var out := SetOne(Entries(old(ctx.log), upd.Name()), upd, ok);
            && command == out.command && error == out.error
            && ctx.log == old(ctx.log)[upd.Name() := out.chgs]
  {
    hide PropArgs, AddDiffs, OptionOf;
    ghost var start := ctx.ChangesFor(upd.Name());
    command, error := None, None;
    var state := upd.actual.Lookup("ensure", "absent");
    var ensure := upd.should.Lookup("ensure", state);
    if ensure != state {
      ctx.Add(upd.Name(), "ensure", Str(ensure), Str(state));
    }
    assert ctx.log == old(ctx.log)[upd.Name() := LogEnsure(start, upd)];
    if ensure == "present" {
      var args := BuildProps(ctx, upd);
      args := args + [upd.Name()];
      if ctx.log[upd.Name()] != [] {
        command := Some(Command(if state == "present" then ModTool else AddTool, args));
        error := if ok then None else Some(CommandFailed);
      }
    } else if ensure == "absent" {
      if state != "absent" {
        command := Some(Command(DelTool, [upd.Name()]));
        error := if ok then None else Some(CommandFailed);
      }
    }
  }

  method BuildProps(ctx: Context, upd: Update) returns (args: seq<string>)
    requires upd.Name() in ctx.log
    modifies ctx
    ensures args == PropArgs(upd, PROPS)
    ensures ctx.log == old(ctx.log)[upd.Name() := AddDiffs(old(ctx.log)[upd.Name()], PROPS, upd)]
  {
    hide PropArgs, AddDiffs, OptionOf;
    args := [];
    PropsNone(ctx.log[upd.Name()], upd);
    for i := 0 to |PROPS|
      invariant args == PropArgs(upd, PROPS[..i])
      invariant ctx.log == old(ctx.log)[upd.Name() := AddDiffs(old(ctx.log)[upd.Name()], PROPS[..i], upd)]
    {
      assert PROPS[..i + 1] == PROPS[..i] + [PROPS[i]];
      PropArgsSnoc(upd, PROPS[..i], PROPS[i]);
      AddDiffsSnoc(old(ctx.log)[upd.Name()], PROPS[..i], PROPS[i], upd);
      var added := ctx.AddChanged(PROPS[i], upd);
      if added {
        args := args + [OptionOf(PROPS[i]), upd.should.Get(PROPS[i]).ToString()];
      }
    }
    assert PROPS[..|PROPS|] == PROPS;
  }

  lemma PropsNone(chgs: seq<Change>, upd: Update)
    ensures PropArgs(upd, PROPS[..0]) == [] && AddDiffs(chgs, PROPS[..0], upd) == chgs
  {
  }

  /**
   * The command for a group that is to be present names it, asks for exactly the changes that were
   * logged besides "ensure", and is groupadd exactly if the log says that "ensure" has changed.
   */
  lemma CommandSaysTheLog(chgs: seq<Change>, upd: Update, ok: bool)
    requires AreStrings(upd.should, PROPS)
    requires EnsureOf(upd) == "present" && SetOne(chgs, upd, ok).command.Some?
    ensures ReadCall(SetOne(chgs, upd, ok).command.value.args).Some?
    ensures var out := SetOne(chgs, upd, ok);
            var call := ReadCall(out.command.value.args).value;
            && call.name == upd.Name() && call.options.home == []
            && out.chgs == LogEnsure(chgs, upd) + ChangesOf(call.options.given, upd.actual)
            && out.command.value.tool == (if LogEnsure(chgs, upd) == chgs then ModTool else AddTool)
  {
    assert StateOf(upd) != "present" ==> |LogEnsure(chgs, upd)| == |chgs| + 1;
    LogSaysOptions(chgs, upd);
    hide ReadCall, GroupArgs, AreStrings, AddDiffs;
  }

  lemma LogSaysOptions(chgs: seq<Change>, upd: Update)
    requires AreStrings(upd.should, PROPS)
    ensures ReadCall(GroupArgs(upd)).Some?
    ensures var call := ReadCall(GroupArgs(upd)).value;
            && call.name == upd.Name() && call.options.home == []
            && AddDiffs(LogEnsure(chgs, upd), PROPS, upd)
               == LogEnsure(chgs, upd) + ChangesOf(call.options.given, upd.actual)
  {
    assert ReadOptions([]) == Some(Options([], []));
    ReadPropArgs(upd, PROPS, []);
    PropsLogged(LogEnsure(chgs, upd), upd, PROPS);
    hide ReadOptions, PropArgs, AddDiffs, LogEnsure, PropsGiven, AreStrings;
    var words := GroupArgs(upd);
    assert words[..|words| - 1] == PropArgs(upd, PROPS) + [];
    assert PropsGiven(upd, PROPS) + [] == PropsGiven(upd, PROPS);
  }

  /** For a group that is to be present, a command is run exactly if something is in the log. */
  lemma PresentRunsIff(chgs: seq<Change>, upd: Update, ok: bool)
    requires EnsureOf(upd) == "present"
    ensures SetOne(chgs, upd, ok).command.Some? <==> SetOne(chgs, upd, ok).chgs != []
    ensures SetOne(chgs, upd, ok).chgs != chgs <==> StateOf(upd) != "present" || upd.Changed("gid")
  {
    AddDiffsExact(LogEnsure(chgs, upd), PROPS, upd);
    assert "gid" in PROPS;
    hide AddDiffs, GroupArgs;
    if StateOf(upd) != "present" {
      assert |LogEnsure(chgs, upd)| == |chgs| + 1;
    }
  }

  /** Two updates that differ in other attributes only have the same effect: members are never set. */
  lemma OnlyGidAndEnsureMatter(chgs: seq<Change>, upd: Update, other: Update, ok: bool)
    requires upd.Name() == other.Name()
    requires EnsureOf(upd) == EnsureOf(other) && StateOf(upd) == StateOf(other)
    requires upd.actual.Get("gid") == other.actual.Get("gid") && upd.should.Get("gid") == other.should.Get("gid")
    ensures SetOne(chgs, upd, ok) == SetOne(chgs, other, ok)
  {
    var log := LogEnsure(chgs, upd);
    assert PROPS[1..] == [];
    assert AddDiffs(log, PROPS, upd) == AddDiff(log, "gid", upd);
    assert AddDiffs(log, PROPS, other) == AddDiff(log, "gid", other);
    assert PropArgs(upd, PROPS) == PropArgs(other, PROPS);
  }

  /* ---- what is run and logged, for each state that can be asked for ---- */

  /** A group that is to be absent is deleted exactly if it is there, and only that is logged. */
  lemma RemovalRunsIff(chgs: seq<Change>, upd: Update, ok: bool)
    requires upd.should.Get("ensure") == Str("absent")
    ensures var out, state := SetOne(chgs, upd, ok), upd.actual.Get("ensure");
            if state.Str? && state != Str("absent") then
              && out.command == Some(Command(DelTool, [upd.Name()]))
              && out.chgs == chgs + [Change("ensure", Str("absent"), state)]
              && (out.error == None <==> ok)
            else out == Outcome(chgs, None, None)
  {
  }

  /** Any state but "present" and "absent" is logged and not acted upon. */
  lemma OtherStatesRunNothing(chgs: seq<Change>, upd: Update, ok: bool)
    requires upd.should.Get("ensure").Str? && upd.should.Get("ensure").s !in {"present", "absent"}
    ensures var out, now, was := SetOne(chgs, upd, ok), upd.should.Get("ensure"), Str(Said(upd.actual, "absent"));
            out == Outcome(chgs + (if now != was then [Change("ensure", now, was)] else []), None, None)
  {
  }

  /** A group of which no state is asked is left in the state it is in. */
  lemma UnsaidStateIsKept(chgs: seq<Change>, upd: Update, ok: bool)
    requires !upd.should.Get("ensure").Str?
    ensures var out := SetOne(chgs, upd, ok);
            if upd.actual.Get("ensure") == Str("present") then
              && out.chgs == chgs + One(upd, "gid")
              && (out.command.Some? ==> out.command.value.tool == ModTool)
            else out.command == None && out.chgs == chgs
  {
    GidLogged(chgs, upd);
    EnsureIsSaid(upd);
    hide AddDiffs, GroupArgs, One;
  }

  lemma GidLogged(chgs: seq<Change>, upd: Update)
    ensures AddDiffs(chgs, PROPS, upd) == chgs + One(upd, "gid")
  {
    AddDiffsCons(chgs, "gid", [], upd);
    AddNoDiffs(chgs + One(upd, "gid"), upd);
    assert PROPS == ["gid"] + [];
  }

  /** The log and the command of a group that is to be present, in full. */
  lemma PresentLogsAll(chgs: seq<Change>, upd: Update, ok: bool)
    requires upd.should.Get("ensure") == Str("present")
    ensures var out, state := SetOne(chgs, upd, ok), Said(upd.actual, "absent");
            && out.chgs == chgs + (if state == "present" then []
                                   else [Change("ensure", Str("present"), Str(state))]) + One(upd, "gid")
            && (out.command.Some? <==> out.chgs != [])
            && (out.command.Some? ==>
                  out.command.value.tool == (if state == "present" then ModTool else AddTool))
            && (out.error == None <==> out.command == None || ok)
  {
    EnsureIsSaid(upd);
    GidLogged(LogEnsure(chgs, upd), upd);
    hide AddDiffs, GroupArgs, One;
  }
}
