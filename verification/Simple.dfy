/** The `simple` calling convention: a provider script answers in lines, which are read one by one. */
module Simple {
  import opened Core
  import opened Text

  datatype SimpleError =
    | BadHeader | NoColon | Reported(message: string) | CommandFailed(message: string)
    | ValueBeforeName | WrongName | Undefined

  /** What a callback does with one key and value: a new state, and an error if it has one. */
  datatype Step<S> = Step(state: S, error: Option<SimpleError>)

  type Callback<!S> = (S, string, string) -> Step<S>

  const HEADER := "# simple"
  const EOM := "ral_eom"
  const ERROR_KEY := "ral_error"

  /** The position of the first ':', or the length of the line. */
  function Colon(line: string): (p: nat)
    ensures p <= |line|
    ensures ':' !in line[..p] && (p < |line| ==> line[p] == ':')
  {
    if line == "" || line[0] == ':' then 0 else 1 + Colon(line[1..])
  }

  /** Without a ':', the whole line serves as the key, and as the value too. */
  function KeyOf(line: string): string {
    line[..Colon(line)]
  }

  function ValueOf(line: string): string {
    if Colon(line) == |line| then Trim(line) else Trim(line[Colon(line) + 1..])
  }

  predicate HasColon(line: string) {
    Colon(line) < |line|
  }

  /* ---- the whole output at once ---- */

  /** The state and the error in the end, and the text of an error message that was not finished. */
  datatype Parsed<S> = Parsed(state: S, error: Option<SimpleError>, pending: string)

  function Concat(lines: seq<string>): string {
    if lines == [] then "" else Concat(lines[..|lines| - 1]) + lines[|lines| - 1]
  }

  function FirstEom(lines: seq<string>): (k: nat)
    ensures k <= |lines| && EOM !in lines[..k] && (k < |lines| ==> lines[k] == EOM)
  {
    if lines == [] || lines[0] == EOM then 0
    else
      var k := 1 + FirstEom(lines[1..]);
      assert lines[..k] == [lines[0]] + lines[1..][..k - 1];
      k
  }

  /** Inside an error block everything up to the end mark is its message. */
  function Block<S>(lines: seq<string>, message: string, s: S): Parsed<S> {
    var k := FirstEom(lines);
    if k < |lines| then Parsed(s, Some(Reported(message + Concat(lines[..k]))), message + Concat(lines[..k]))
    else Parsed(s, None, message + Concat(lines))
  }

  function Body<S>(lines: seq<string>, entry: Callback<S>, s: S): Parsed<S>
    decreases |lines|
  {
    if lines == [] then Parsed(s, None, "")
    else
      var line := lines[0];
      var key, value := KeyOf(line), ValueOf(line);
      if key == ERROR_KEY then
        if HasColon(line) then Block(lines[1..], value, s) else Parsed(s, Some(NoColon), value)
      else
        var r := entry(s, key, value);
        if r.error.Some? then Parsed(r.state, r.error, "")
        else if !HasColon(line) then Parsed(r.state, Some(NoColon), "")
        else Body(lines[1..], entry, r.state)
  }

  function Batch<S>(lines: seq<string>, entry: Callback<S>, s: S): Parsed<S> {
    if lines == [] then Parsed(s, None, "")
    else if lines[0] != HEADER then Parsed(s, Some(BadHeader), "")
    else Body(lines[1..], entry, s)
  }

  /** The outcome of `run_action`, given whether the command itself succeeded. */
  function Outcome<S>(p: Parsed<S>, commandOk: bool): Option<SimpleError> {
    if p.error.Some? then p.error
    else if !commandOk then Some(CommandFailed(p.pending))
    else None
  }

  /* ---- line by line ---- */

  /** What is left to do, in the middle of the output. */
  function Resume<S>(lines: seq<string>, count: nat, inError: bool, message: string,
                     entry: Callback<S>, s: S): Parsed<S> {
    if count == 0 then Batch(lines, entry, s)
    else if inError then Block(lines, message, s)
    else Body(lines, entry, s)
  }

  lemma BlockStep<S>(line: string, rest: seq<string>, message: string, s: S)
    requires line != EOM
    ensures Block([line] + rest, message, s) == Block(rest, message + line, s)
  {
    var k := FirstEom(rest);
    assert ([line] + rest)[1..] == rest;
    assert FirstEom([line] + rest) == k + 1;
    assert ([line] + rest)[..k + 1] == [line] + rest[..k];
    ConcatCons(line, rest[..k]);
    ConcatCons(line, rest);
    assert message + (line + Concat(rest[..k])) == message + line + Concat(rest[..k]);
    assert message + (line + Concat(rest)) == message + line + Concat(rest);
  }

  lemma {:induction false} ConcatCons(line: string, rest: seq<string>)
    ensures Concat([line] + rest) == line + Concat(rest)
  {
    var all := [line] + rest;
    if rest == [] {
      assert all[..|all| - 1] == [];
      assert all == [line];
    } else {
      assert all[..|all| - 1] == [line] + rest[..|rest| - 1];
      ConcatCons(line, rest[..|rest| - 1]);
    }
  }

  /** The closures of `run_action` share these variables. */
  class Reader<S> {
    var lineCount: nat
    var inError: bool
    var message: string
    var result: Option<SimpleError>
    var state: S
    const entry: Callback<S>

    constructor (entry: Callback<S>, state: S)
      ensures lineCount == 0 && !inError && message == "" && result == None
      ensures this.state == state && this.entry == entry
    {
      lineCount, inError, message, result := 0, false, "", None;
      this.state, this.entry := state, entry;
    }

    /** One line; the answer says whether reading goes on. */
    method OutCallback(line: string) returns (goOn: bool)
      requires result == None && (inError ==> lineCount > 0)
      requires !inError ==> message == ""
      modifies this
      ensures goOn == (result == None) && lineCount == old(lineCount) + 1
      ensures goOn ==> (!inError ==> message == "")
      ensures goOn ==> forall rest ::
                Resume([line] + rest, old(lineCount), old(inError), old(message), entry, old(state))
                  == Resume(rest, lineCount, inError, message, entry, state)
      ensures !goOn ==> forall rest ::
                Resume([line] + rest, old(lineCount), old(inError), old(message), entry, old(state))
                  == Parsed(state, result, message)
    {
      lineCount := lineCount + 1;
      if lineCount == 1 {
        if line != HEADER {
          result := Some(BadHeader);
        }
        assert forall rest: seq<string> :: ([line] + rest)[1..] == rest;
      } else if inError {
        if line != EOM {
          message := message + line;
          forall rest ensures Block([line] + rest, old(message), state) == Block(rest, message, state) {
            BlockStep(line, rest, old(message), state);
          }
        } else {
          result := Some(Reported(message));
          forall rest ensures Block([line] + rest, message, state) == Parsed(state, result, message) {
            assert FirstEom([line] + rest) == 0;
            assert message + Concat([]) == message;
          }
        }
      } else {
        assert forall rest: seq<string> :: ([line] + rest)[1..] == rest;
        if !HasColon(line) {
          result := Some(NoColon);
        }
        var key, value := KeyOf(line), ValueOf(line);
        if key == ERROR_KEY {
          inError := true;
          message := value;
        } else {
          var r := entry(state, key, value);
          state := r.state;
          if r.error.Some? {
            result := r.error;
          }
        }
      }
      goOn := result == None;
    }
  }

  /**
   * Reading line by line until a callback says stop gives just what parsing the whole output
   * gives, with the same effects on the state.
   */
  method RunAction<S>(lines: seq<string>, commandOk: bool, entry: Callback<S>, start: S)
      returns (error: Option<SimpleError>, state: S)
    ensures var p := Batch(lines, entry, start); state == p.state && error == Outcome(p, commandOk)
  {
    var reader := new Reader<S>(entry, start);
    ghost var whole := Batch(lines, entry, start);
    var i, goOn := 0, true;
    while i < |lines| && goOn
      invariant 0 <= i <= |lines|
      invariant goOn == (reader.result == None)
      invariant goOn ==> reader.lineCount == i && (reader.inError ==> i > 0)
      invariant goOn ==> (!reader.inError ==> reader.message == "")
      invariant goOn ==>
                  Resume(lines[i..], reader.lineCount, reader.inError, reader.message, entry, reader.state) == whole
      invariant !goOn ==> whole == Parsed(reader.state, reader.result, reader.message)
      invariant fresh(reader) && reader.entry == entry
      decreases |lines| - i
    {
      assert lines[i..] == [lines[i]] + lines[i + 1..];
      goOn := reader.OutCallback(lines[i]);
      i := i + 1;
    }
    if goOn {
      assert lines[i..] == [];
      assert reader.message + Concat([]) == reader.message;
    }
    state := reader.state;
    error := reader.result;
    if !commandOk && error == None {
      error := Some(CommandFailed(reader.message));
    }
  }

  /* ---- what the first failure decides ---- */

  lemma BlockDecides<S>(lines: seq<string>, more: seq<string>, message: string, s: S)
    requires Block(lines, message, s).error.Some?
    ensures Block(lines + more, message, s) == Block(lines, message, s)
  {
    var k := FirstEom(lines);
    EomInPrefix(lines, more);
    assert (lines + more)[..k] == lines[..k];
  }

  lemma {:induction false} EomInPrefix(lines: seq<string>, more: seq<string>)
    requires FirstEom(lines) < |lines|
    ensures FirstEom(lines + more) == FirstEom(lines)
  {
    if lines[0] != EOM {
      assert (lines + more)[1..] == lines[1..] + more;
      EomInPrefix(lines[1..], more);
    }
  }

  lemma {:induction false} BodyDecides<S>(lines: seq<string>, more: seq<string>, entry: Callback<S>, s: S)
    requires Body(lines, entry, s).error.Some?
    ensures Body(lines + more, entry, s) == Body(lines, entry, s)
    decreases |lines|
  {
    var line := lines[0];
    assert (lines + more)[0] == line && (lines + more)[1..] == lines[1..] + more;
    if KeyOf(line) == ERROR_KEY {
      if HasColon(line) {
        BlockDecides(lines[1..], more, ValueOf(line), s);
      }
    } else {
      var r := entry(s, KeyOf(line), ValueOf(line));
      if r.error.None? && HasColon(line) {
        BodyDecides(lines[1..], more, entry, r.state);
      }
    }
  }

  /** Nothing after the first failure has any effect on the error or on the state. */
  lemma FirstFailureDecides<S>(lines: seq<string>, more: seq<string>, entry: Callback<S>, s: S)
    requires Batch(lines, entry, s).error.Some?
    ensures Batch(lines + more, entry, s) == Batch(lines, entry, s)
  {
    assert (lines + more)[0] == lines[0] && (lines + more)[1..] == lines[1..] + more;
    if lines[0] == HEADER {
      BodyDecides(lines[1..], more, entry, s);
    }
  }

  /* ---- when the output is accepted ---- */

  /** The lines before the first error block. */
  function DataCount(lines: seq<string>): (n: nat)
    ensures n <= |lines|
  {
    if lines == [] || (HasColon(lines[0]) && KeyOf(lines[0]) == "ral_error") then 0 else 1 + DataCount(lines[1..])
  }

  predicate Accepted<S>(lines: seq<string>, entry: Callback<S>, s: S) {
    lines == [] ||
    (&& HasColon(lines[0])
     && entry(s, KeyOf(lines[0]), ValueOf(lines[0])).error == None
     && Accepted(lines[1..], entry, entry(s, KeyOf(lines[0]), ValueOf(lines[0])).state))
  }

  lemma {:induction false} BodySucceedsIff<S>(lines: seq<string>, entry: Callback<S>, s: S)
    ensures var n := DataCount(lines);
            Body(lines, entry, s).error == None <==>
              Accepted(lines[..n], entry, s) && (n < |lines| ==> EOM !in lines[n + 1..])
    decreases |lines|
  {
    if lines != [] {
      var line, n := lines[0], DataCount(lines);
      if HasColon(line) && KeyOf(line) == ERROR_KEY {
        var k := FirstEom(lines[1..]);
        assert k == |lines[1..]| ==> lines[1..][..k] == lines[1..];
      } else {
        assert lines[..n][0] == line && lines[..n][1..] == lines[1..][..n - 1];
        assert n < |lines| ==> lines[n + 1..] == lines[1..][n..];
        BodySucceedsIff(lines[1..], entry, entry(s, KeyOf(line), ValueOf(line)).state);
      }
    }
  }

  /**
   * An action fails exactly on a bad header, a line without ':', an error of the callback, an
   * error block that is complete, or a failed command. A block that is not ended is ignored.
   */
  lemma SucceedsIff<S>(lines: seq<string>, commandOk: bool, entry: Callback<S>, s: S)
    ensures Outcome(Batch(lines, entry, s), commandOk) == None <==>
              && commandOk
              && (lines != [] ==>
                    && lines[0] == "# simple"
                    && var n := DataCount(lines[1..]);
                       && Accepted(lines[1..][..n], entry, s)
                       && (n < |lines| - 1 ==> "ral_eom" !in lines[n + 2..]))
  {
    if lines != [] {
      BodySucceedsIff(lines[1..], entry, s);
      var n := DataCount(lines[1..]);
      assert n < |lines| - 1 ==> lines[1..][n + 1..] == lines[n + 2..];
    }
  }
}
