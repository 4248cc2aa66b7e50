/** The filesystem as the file provider sees it, and the system calls that the provider makes. */
module FileSystem {
  import opened Core
  import opened Text
  import opened Changes

  type Mode = m: nat | m < 4096 witness 0
  type Id = n: nat | n < 0x1_0000_0000 witness 0

  datatype Meta = Meta(mode: Mode, owner: Id, group: Id)

  /** The values of `ensure` and `type`. Those the provider knows nothing about keep their text. */
  datatype Kind = Absent | RegularFile | Folder | Symlink | Other(text: string) {
    function Text(): string {
      match this
      case Absent => "absent"
      case RegularFile => "file"
      case Folder => "directory"
      case Symlink => "link"
      case Other(t) => t
    }
  }

  function ReadKind(s: string): (k: Kind)
    ensures k.Text() == s
  {
    if s == "absent" then Absent
    else if s == "file" then RegularFile
    else if s == "directory" then Folder
    else if s == "link" then Symlink
    else Other(s)
  }

  datatype Device = Block | Char | Fifo | Socket

  datatype Node =
    | File(meta: Meta, content: string)
    | Directory(meta: Meta)
    | Link(meta: Meta, target: string)
    | Special(meta: Meta, device: Device)
  {
    function Kind(): Kind {
      match this
      case File(_, _) => RegularFile
      case Directory(_) => Folder
      case Link(_, _) => Symlink
      case Special(_, Block) => Other("block")
      case Special(_, Char) => Other("char")
      case Special(_, Fifo) => Other("fifo")
      case Special(_, Socket) => Other("socket")
    }

    function WithMeta(m: Meta): Node {
      match this
      case File(_, c) => File(m, c)
      case Directory(_) => Directory(m)
      case Link(_, t) => Link(m, t)
      case Special(_, d) => Special(m, d)
    }
  }

  type Files = map<string, Node>

  /** What a new node of each type looks like: the umask and the identity of the process. */
  datatype Defaults = Defaults(file: Meta, directory: Meta, link: Meta)

  /** The places in which updating one file calls the system. Each is reached at most once. */
  datatype Syscall = RemoveOld | RemoveForLink | CreateFile | MakeDirectory | MakeLink
                   | Chown | Chmod | OpenRead | OpenWrite

  /**
   * How the system behaves during one update: which calls it refuses, what a refused removal
   * leaves behind, and where a path that names a link leads.
   */
  datatype Faults = Faults(failing: set<Syscall>, kept: set<string>, follow: string)

  datatype FileError =
    | CannotChangeDirectory | DirectoryWithoutForce | UnknownFileType | IllegalEnsure
    | TargetNotSet | BadOwner | BadGroup | BadMode | ModeNotString | ContentNotString
    | SystemError(call: Syscall)

  datatype World = World(files: Files, log: Log)

  datatype Outcome = Done(w: World) | Failed(w: World, error: FileError) {
    predicate IsFailure() { Failed? }

    function PropagateFailure(): Outcome
      requires Failed?
    {
      this
    }

    function Extract(): World
      requires Done?
    {
      w
    }
  }

  /* ---- paths ---- */

  /** `q` is `p` or lies below it. */
  predicate Within(p: string, q: string) {
    q == p || (if p != "" && p[|p| - 1] == '/' then p else p + "/") <= q
  }

  predicate Apart(p: string, q: string) {
    !Within(p, q) && !Within(q, p)
  }

  /** What removing `p` and everything below it takes away. */
  function Doomed(files: Files, p: string): set<string> {
    if p !in files then {}
    else if files[p].Directory? then set q | q in files && Within(p, q)
    else {p}
  }

  function Resolve(files: Files, p: string, env: Faults): string {
    if p in files && files[p].Link? then env.follow else p
  }

  function KindOf(files: Files, p: string): Kind {
    if p in files then files[p].Kind() else Absent
  }

  /* ---- modes and ids as text ---- */

  /** Octal, at least four digits, or five if one of the special bits is set. */
  function ModeText(m: nat): string {
    var d := Digits(m, 8);
    var width := if m > 511 then 5 else 4;
    Zeros(if |d| < width then width - |d| else 0) + d
  }

  /** A mode is read back only from a text that is octal to its end and stays within the mask. */
  function ParseMode(s: string): Option<Mode> {
    match StringToInt(s, 8)
    case None => None
    case Some(n) => if n.used == |s| && 0 <= n.value < 4096 then Some(n.value) else None
  }

  const KEEP: Id := 0xffff_ffff

  function IdText(n: nat): string {
    Digits(n, 10)
  }

  /** Whatever follows the digits is ignored, and negative numbers wrap around. */
  function ParseId(s: string): Option<Id> {
    match StringToInt(s, 10)
    case None => None
    case Some(n) => Some(n.value % 0x1_0000_0000)
  }

  /** Rendering in octal with zero padding loses nothing, for any number that `stoi` can read. */
  lemma ModeTextRoundTrip(m: nat)
    requires m <= INT_MAX
    ensures StringToInt(ModeText(m), 8) == Some(Number(m, |ModeText(m)|))
    ensures m < 4096 ==> ParseMode(ModeText(m)) == Some(m)
    ensures |ModeText(m)| >= if m > 511 then 5 else 4
  {
    hide Digits, StringToInt;
    var d := Digits(m, 8);
    var width := if m > 511 then 5 else 4;
    StringToIntOfDigits(if |d| < width then width - |d| else 0, m, 8);
  }

  /** The octal text of every natural number denotes that number, beyond the range of int too. */
  lemma ModeTextDenotes(m: nat)
    ensures AllDigits(ModeText(m), 8) && NumberOf(ModeText(m), 8) == m
  {
    var d := Digits(m, 8);
    var width := if m > 511 then 5 else 4;
    DigitsParse(m, 8);
    LeadingZeros(if |d| < width then width - |d| else 0, d, 8);
  }

  /** The text of a mode is as short as its width allows: four characters up to 0777, then five. */
  lemma ModeTextWidth(m: nat)
    requires m < 4096
    ensures |ModeText(m)| == if m > 0x1ff then 5 else 4
  {
    hide Digits;
    ShortOctal(m);
  }

  lemma ShortOctal(m: nat)
    requires m < 4096
    ensures |Digits(m, 8)| <= 4
    ensures m <= 0x1ff ==> |Digits(m, 8)| <= 3
  {
    assert |Digits(m / 8 / 8 / 8, 8)| == 1;
    if m <= 0x1ff {
      assert |Digits(m / 8 / 8, 8)| == 1;
    }
  }

  /** A mode is read from blanks, a sign and octal digits, and from nothing else. */
  lemma ModeReadIff(s: string, m: Mode)
    ensures ParseMode(s) == Some(m) <==>
              exists pad, sign, digits :: WritesMode(s, m, pad, sign, digits)
  {
    hide NumberOf, StringToInt, Signed;
    if ParseMode(s) == Some(m) {
      var pad, sign, digits, rest := StringToIntReads(s, 8);
      StringToIntOfText(pad, sign, digits, rest, 8);
      assert rest == "";
      assert digits + "" == digits;
      assert WritesMode(s, m, pad, sign, digits);
    }
    if pad, sign, digits :| WritesMode(s, m, pad, sign, digits) {
      assert digits + "" == digits;
      StringToIntOfText(pad, sign, digits, "", 8);
    }
  }

  /** The text is made of these parts, and its octal value is this mode. */
  ghost predicate WritesMode(s: string, m: Mode, pad: string, sign: string, digits: string) {
    && s == pad + (sign + digits) && Blank(pad) && IsSign(sign)
    && digits != "" && AllDigits(digits, 8) && Signed(NumberOf(digits, 8), sign) == m
  }

  /** An id is read from blanks, a sign and digits, whatever follows; negative ones wrap around. */
  lemma IdRead(pad: string, sign: string, digits: string, rest: string)
    requires Blank(pad) && IsSign(sign) && digits != "" && AllDigits(digits, 10)
    requires rest != "" ==> !IsDigit(rest[0], 10)
    ensures var v := Signed(NumberOf(digits, 10), sign);
            ParseId(pad + (sign + (digits + rest))) ==
              if -0x8000_0000 <= v <= 0x7fff_ffff then Some(if v < 0 then v + 0x1_0000_0000 else v) else None
  {
    hide NumberOf, StringToInt, Signed;
    StringToIntOfText(pad, sign, digits, rest, 10);
  }

  /** The text of an id has no leading zeros. */
  lemma IdTextPlain(n: nat)
    ensures AllDigits(IdText(n), 10) && NumberOf(IdText(n), 10) == n
    ensures IdText(n)[0] == '0' ==> IdText(n) == "0"
  {
    DigitsParse(n, 10);
    NoLeadingZero(n, 10);
    hide Digits, NumberOf;
  }

  lemma IdTextRoundTrip(n: nat)
    requires n <= INT_MAX
    ensures ParseId(IdText(n)) == Some(n)
  {
    hide Digits, StringToInt;
    StringToIntOfDigits(0, n, 10);
    assert Zeros(0) + Digits(n, 10) == Digits(n, 10);
  }

  /* ---- reading ---- */

  /** The attributes that are read from disk, without the times and the checksum. */
  function Load(files: Files, name: string): Resource {
    if name !in files then AbsentResource(name)
    else
      var n := files[name];
      var kind := n.Kind();
      var base := map["ensure" := Str(if kind.Other? then "present" else kind.Text()), "type" := Str(kind.Text()),
                      "mode" := Str(ModeText(n.meta.mode)),
                      "owner" := Str(IdText(n.meta.owner)), "group" := Str(IdText(n.meta.group))];
      Resource(name, if n.Link? then base["target" := Str(n.target)] else base)
  }

  /* ---- single steps ---- */

  function Remove(w: World, path: string, state: Kind, force: bool, call: Syscall, env: Faults): Outcome {
    if state == Absent then Done(w)
    else if state == Folder && !force then Failed(w, DirectoryWithoutForce)
    else if state.Other? then Failed(w, UnknownFileType)
    else if call in env.failing
    then Failed(w.(files := w.files - (Doomed(w.files, path) - env.kept)), SystemError(call))
    else Done(w.(files := w.files - Doomed(w.files, path)))
  }

  /** Opening for writing creates the file or empties it. */
  function CreateEmpty(w: World, name: string, env: Faults, d: Defaults): Outcome {
    var p := Resolve(w.files, name, env);
    if CreateFile in env.failing || (p in w.files && !w.files[p].File?)
    then Failed(w, SystemError(CreateFile))
    else Done(w.(files := w.files[p := File(if p in w.files then w.files[p].meta else d.file, "")]))
  }

  function CreateDirectory(w: World, name: string, env: Faults, d: Defaults): Outcome {
    var p := Resolve(w.files, name, env);
    if MakeDirectory in env.failing then Failed(w, SystemError(MakeDirectory))
    else if p in w.files && w.files[p].Directory? then Done(w)
    else if name in w.files then Failed(w, SystemError(MakeDirectory))
    else Done(w.(files := w.files[name := Directory(d.directory)]))
  }

  function CreateLink(w: World, name: string, target: string, env: Faults, d: Defaults): Outcome {
    if MakeLink in env.failing || name in w.files then Failed(w, SystemError(MakeLink))
    else Done(w.(files := w.files[name := Link(d.link, target)]))
  }

  /** `lchown`; an id of all ones leaves that part alone. */
  function ChangeOwner(w: World, name: string, owner: Id, group: Id, env: Faults): Outcome {
    if Chown in env.failing || name !in w.files then Failed(w, SystemError(Chown))
    else
      var n := w.files[name];
      var m := n.meta.(owner := if owner == KEEP then n.meta.owner else owner,
                       group := if group == KEEP then n.meta.group else group);
      Done(w.(files := w.files[name := n.WithMeta(m)]))
  }

  /** `chmod`, which follows links. */
  function ChangeMode(w: World, name: string, mode: Mode, env: Faults): Outcome {
    var p := Resolve(w.files, name, env);
    if Chmod in env.failing || p !in w.files || w.files[p].Link? then Failed(w, SystemError(Chmod))
    else
      var n := w.files[p];
      Done(w.(files := w.files[p := n.WithMeta(n.meta.(mode := mode))]))
  }

  /* ---- the parts of an update ---- */

  function AskedOwner(should: Resource, attr: string): Option<Id> {
    var v := should.Get(attr);
    if v.Str? then ParseId(v.s) else Some(KEEP)
  }

  function UpdateOwner(w: World, upd: Update, env: Faults): Outcome {
    var owner := AskedOwner(upd.should, "owner");
    var group := AskedOwner(upd.should, "group");
    if owner.None? then Failed(w, BadOwner)
    else if group.None? then Failed(w, BadGroup)
    else ChangeOwner(w, upd.Name(), owner.value, group.value, env)
  }

  function UpdateMode(w: World, upd: Update, env: Faults): Outcome {
    var v := upd.should.Get("mode");
    if !v.Str? then Failed(w, ModeNotString)
    else
      match ParseMode(v.s)
      case None => Failed(w, BadMode)
      case Some(m) => ChangeMode(w, upd.Name(), m, env)
  }

  const METADATA := ["owner", "group", "mode"]

  function AddMetadata(chgs: seq<Change>, upd: Update): seq<Change> {
    AddDiffs(chgs, METADATA, upd)
  }

  function UpdateMetadata(w: World, upd: Update, env: Faults): Outcome {
    var chgs := AddMetadata(Entries(w.log, upd.Name()), upd);
    ApplyMetadata(w.(log := w.log[upd.Name() := chgs]), upd, env,
                  Logged(chgs, "owner") || Logged(chgs, "group"), Logged(chgs, "mode"))
  }

  function ApplyMetadata(w: World, upd: Update, env: Faults, chown: bool, chmod: bool): Outcome {
    var w1 :- if chown then UpdateOwner(w, upd, env) else Done(w);
    if chmod then UpdateMode(w1, upd, env) else Done(w1)
  }

  function UpdateContent(w: World, upd: Update, env: Faults): Outcome {
    var v := upd.should.Get("content");
    var p := Resolve(w.files, upd.Name(), env);
    if !v.IsSet() then Done(w)
    else if !v.Str? then Failed(w, ContentNotString)
    else if OpenRead in env.failing || p !in w.files || !w.files[p].File? then Failed(w, SystemError(OpenRead))
    else
      var before := w.files[p].content;
      if before == v.s then Done(w)
      else if OpenWrite in env.failing then Failed(w, SystemError(OpenWrite))
      else Done(World(w.files[p := w.files[p].(content := v.s)],
                      Append(w.log, upd.Name(), Change("content", v, Str(before)))))
  }

  /** The link is always made anew, after removing whatever the actual state says is there. */
  function UpdateTarget(w: World, upd: Update, env: Faults, d: Defaults): Outcome {
    var v := upd.should.Get("target");
    if !v.Str? then Failed(w, TargetNotSet)
    else
      var w1 :- Remove(w, upd.Name(), ReadKind(upd.actual.Lookup("ensure", "absent")), false, RemoveForLink, env);
      var w2 :- CreateLink(w1, upd.Name(), v.s, env, d);
      Done(w2.(log := w2.log[upd.Name() := AddDiff(Entries(w2.log, upd.Name()), "target", upd)]))
  }

  /* ---- one update ---- */

  /** The state that the actual resource claims; "present" stands for the type it names. */
  function StateOf(actual: Resource): Kind {
    var e := actual.Lookup("ensure", "absent");
    ReadKind(if e == "present" then actual.Lookup("type", "file") else e)
  }

  /** The state asked for; "present" is the current one, or a file if there is none. */
  function Wanted(should: Resource, state: Kind): Kind {
    var e := should.Lookup("ensure", state.Text());
    if e == "present" then (if state == Absent then RegularFile else state) else ReadKind(e)
  }

  predicate Force(should: Resource) {
    should.Lookup("force", "false") == "true"
  }

  /** A change of type: remove the old node, then record the new state as coming from "absent". */
  function Replace(w: World, upd: Update, state: Kind, ensure: Kind, env: Faults): Outcome {
    var w1 :- Remove(w, upd.Name(), state, Force(upd.should), RemoveOld, env);
    Done(w1.(log := Append(w1.log, upd.Name(), Change("ensure", Str(ensure.Text()), Str("absent")))))
  }

  function Enforce(w: World, upd: Update, state: Kind, ensure: Kind, env: Faults, d: Defaults): Outcome {
    match ensure
    case RegularFile =>
      var w1 :- if state == Absent then CreateEmpty(w, upd.Name(), env, d) else Done(w);
      var w2 :- UpdateMetadata(w1, upd, env);
      UpdateContent(w2, upd, env)
    case Folder =>
      var w1 :- if state == Absent then CreateDirectory(w, upd.Name(), env, d) else Done(w);
      UpdateMetadata(w1, upd, env)
    case Symlink =>
      var w1 :- UpdateTarget(w, upd, env, d);
      UpdateMetadata(w1, upd, env)
    case Absent => Remove(w, upd.Name(), state, Force(upd.should), RemoveOld, env)
    case Other(_) => Failed(w, IllegalEnsure)
  }

  function SetOne(w: World, upd: Update, env: Faults, d: Defaults): Outcome {
    var state := StateOf(upd.actual);
    var ensure := Wanted(upd.should, state);
    if state == Folder && ensure != state && !Force(upd.should) then Failed(w, CannotChangeDirectory)
    else if ensure == state then Enforce(w, upd, state, ensure, env, d)
    else
      var w1 :- Replace(w, upd, state, ensure, env);
      Enforce(w1, upd, Absent, ensure, env, d)
  }

  /** A list of updates, up to the first failure. */
  function SetAll(w: World, upds: seq<Update>, envs: nat -> Faults, d: Defaults): Outcome
    decreases |upds|
  {
    if upds == [] then Done(w)
    else
      var w1 :- SetAll(w, upds[..|upds| - 1], envs, d);
      SetOne(w1, upds[|upds| - 1], envs(|upds| - 1), d)
  }
}
