/** The mount provider: the fstab, the table of mounted filesystems, and the commands between them. */
module Mount {
  import opened Core
  import opened Text
  import opened Changes
  import opened Augeas
  import opened Fstab

  datatype MountError =
    | MissingField | NotResolved | SaveFailed | CommandFailed | IllegalEnsure | MissingMountPoint

  /** A command that was run, with the fstab as it was saved at that moment. */
  datatype Event = RanMount(name: string, saved: Table) | RanUmount(name: string, saved: Table)

  /** The fstab in memory and on disk, the table of mounts of the system, and what has happened. */
  datatype Mounts = Mounts(fstab: Table, count: nat, saved: Table, mtab: Table, log: Log, trace: seq<Event>)

  /** The external steps of one update. Each is taken at most once. */
  datatype Step = Saving | Mounting | Unmounting

  datatype Outcome = Done(m: Mounts) | Failed(m: Mounts, error: MountError) {
    predicate IsFailure() { Failed? }

    function PropagateFailure(): Outcome
      requires Failed?
    {
      this
    }

    function Extract(): Mounts
      requires Done?
    {
      m
    }
  }

  /* ---- entries and resources ---- */

  function TextOr(v: Value, deflt: string): string {
    if v.IsSet() then v.ToString() else deflt
  }

  /** The record that `update_base` writes; every field is there. */
  function MountRecord(upd: Update): Record {
    Record(upd.At("device").ToString(), upd.Name(), upd.At("fstype").ToString(),
           [TextOr(upd.At("options"), "defaults"), TextOr(upd.At("dump"), "0"), TextOr(upd.At("pass"), "0")], None)
  }

  function MountChildren(upd: Update): seq<Child> {
    [Child(Spec, upd.At("device").ToString()), Child(MountPoint, upd.Name()),
     Child(VfsType, upd.At("fstype").ToString()), Child(Options, TextOr(upd.At("options"), "defaults")),
     Child(Dump, TextOr(upd.At("dump"), "0")), Child(PassNo, TextOr(upd.At("pass"), "0"))]
  }

  /** What the lens guarantees of each line. */
  predicate GoodLine(e: Entry) {
    if e.tag == Comment then e.children == []
    else
      && |Values(e.children, MountPoint)| == 1
      && |Values(e.children, Spec)| <= 1 && |Values(e.children, VfsType)| <= 1
      && |Values(e.children, Options)| <= 1 && |Values(e.children, Dump)| <= 1 && |Values(e.children, PassNo)| <= 1
  }

  predicate GoodTable(t: Table) {
    forall i :: 0 <= i < |t| ==> GoodLine(t[i])
  }

  function NameOf(e: Entry): string
    requires GoodLine(e) && e.tag != Comment
  {
    Values(e.children, MountPoint)[0]
  }

  function Extract(attrs: map<string, Value>, key: string, vs: seq<string>): map<string, Value> {
    if vs == [] then attrs else attrs[key := Str(vs[0])]
  }

  function ExtractOr(attrs: map<string, Value>, key: string, vs: seq<string>, deflt: string): map<string, Value> {
    attrs[key := Str(if vs == [] then deflt else vs[0])]
  }

  function Make(e: Entry, ens: string): Resource
    requires GoodLine(e) && e.tag != Comment
  {
    var a := Extract(map[], "device", Values(e.children, Spec));
    var b := Extract(a, "fstype", Values(e.children, VfsType));
    var c := ExtractOr(b, "options", Values(e.children, Options), "defaults");
    var d := ExtractOr(c, "dump", Values(e.children, Dump), "0");
    var p := ExtractOr(d, "pass", Values(e.children, PassNo), "0");
    Resource(NameOf(e), p["ensure" := Str(ens)]["target" := Str("/etc/fstab")])
  }

  /* ---- get ---- */

  type ByName = map<string, Resource>

  /** One line of the fstab: `emplace` keeps the first resource of each name. */
  function JoinFstab(m: ByName, e: Entry): ByName
    requires GoodLine(e)
  {
    if e.tag == Comment || NameOf(e) in m then m else m[NameOf(e) := Make(e, "unmounted")]
  }

  /** One line of mtab: a name that is already there is mounted, whichever table it came from. */
  function JoinMtab(m: ByName, e: Entry): ByName
    requires GoodLine(e)
  {
    if e.tag == Comment then m
    else if NameOf(e) in m then m[NameOf(e) := m[NameOf(e)].Set("ensure", Str("mounted"))]
    else m[NameOf(e) := Make(e, "ghost")]
  }

  function FstabMap(t: Table): ByName
    requires GoodTable(t)
  {
    if t == [] then map[] else JoinFstab(FstabMap(t[..|t| - 1]), t[|t| - 1])
  }

  function BothMap(fstab: Table, mtab: Table): ByName
    requires GoodTable(fstab) && GoodTable(mtab)
    decreases |mtab|
  {
    if mtab == [] then FstabMap(fstab) else JoinMtab(BothMap(fstab, mtab[..|mtab| - 1]), mtab[|mtab| - 1])
  }

  /** The resources in the order of their names. */
  ghost function InOrder(m: ByName, keys: set<string>): seq<Resource>
    requires keys <= m.Keys
  {
    seq(|Sorted(keys)|, i requires 0 <= i < |Sorted(keys)| => m[Sorted(keys)[i]])
  }

  ghost function GetSpec(fstab: Table, mtab: Table): seq<Resource>
    requires GoodTable(fstab) && GoodTable(mtab)
  {
    var m := BothMap(fstab, mtab);
    InOrder(m, m.Keys)
  }

  /* ---- set ---- */

  function Flush(m: Mounts, env: set<Step>): Outcome {
    if Saving in env || !FitsTable(m.fstab) then Failed(m, SaveFailed) else Done(m.(saved := m.fstab))
  }

  /** Dropping the children of every entry that matches, which is what `erase` does to a pattern. */
  function EraseMatching(t: Table, name: string): Table {
    if t == [] then []
    else [if HasValue(t[0], MountPoint, name) then t[0].(children := []) else t[0]] + EraseMatching(t[1..], name)
  }

  function RmMatching(t: Table, name: string): Table {
    if t == [] then []
    else if HasValue(t[0], MountPoint, name) then RmMatching(t[1..], name)
    else [t[0]] + RmMatching(t[1..], name)
  }

  /**
   * A present resource is looked up, and if there is not exactly one match the path stays a
   * pattern: values cannot be set through it. Any other resource gets a new entry.
   */
  function UpdateBase(m: Mounts, upd: Update): Outcome {
    var tags := Matches(m.fstab, MountPoint, upd.Name());
    if !upd.At("device").IsSet() || !upd.At("fstype").IsSet() then Failed(m, MissingField)
    else if !upd.Present() then
      Done(m.(fstab := Written(m.fstab, Fresh(m.count + 1), MountChildren(upd)), count := m.count + 1))
    else if |tags| == 1 then Done(m.(fstab := Written(m.fstab, tags[0], MountChildren(upd))))
    else Failed(m.(fstab := EraseMatching(m.fstab, upd.Name())), NotResolved)
  }

  function RemoveFromFstab(m: Mounts, upd: Update): Outcome {
    if upd.Present() then Done(m.(fstab := RmMatching(m.fstab, upd.Name())))
    else Done(m.(fstab := RmEntry(m.fstab, Fresh(m.count + 1)), count := m.count + 1))
  }

  const PROPERTIES := ["device", "fstype", "options", "dump", "pass"]

  function UpdateFstab(m: Mounts, upd: Update): Outcome {
    UpdateBase(m.(log := m.log[upd.Name() := AddDiffs(Entries(m.log, upd.Name()), PROPERTIES, upd)]), upd)
  }

  /** The position of the last line with this name, or -1. */
  function LastIndex(t: Table, name: string): (i: int)
    ensures -1 <= i < |t| && (i >= 0 ==> HasValue(t[i], MountPoint, name))
    ensures forall j :: i < j < |t| ==> !HasValue(t[j], MountPoint, name)
  {
    if t == [] then -1
    else if HasValue(t[|t| - 1], MountPoint, name) then |t| - 1
    else LastIndex(t[..|t| - 1], name)
  }

  function FirstIndex(t: Table, name: string): (i: nat)
    ensures i <= |t| && (i < |t| ==> HasValue(t[i], MountPoint, name))
    ensures forall j :: 0 <= j < i ==> !HasValue(t[j], MountPoint, name)
  {
    if t == [] || HasValue(t[0], MountPoint, name) then 0
    else
      var k := FirstIndex(t[1..], name);
      assert forall j :: 1 <= j < k + 1 ==> t[j] == t[1..][j - 1];
      k + 1
  }

  /** The command reads the saved fstab, and adds a line to the table of mounts. */
  function RunMount(m: Mounts, name: string, env: set<Step>): Outcome {
    var ran := m.(trace := m.trace + [RanMount(name, m.saved)]);
    var i := FirstIndex(m.saved, name);
    if Mounting in env || i == |m.saved| then Failed(ran, CommandFailed)
    else Done(ran.(mtab := m.mtab + [Entry(Line(|m.mtab| + 1), "", m.saved[i].children)]))
  }

  /** The command takes away the topmost, that is the latest, mount of that name. */
  function RunUmount(m: Mounts, name: string, env: set<Step>): Outcome {
    var ran := m.(trace := m.trace + [RanUmount(name, m.saved)]);
    var i := LastIndex(m.mtab, name);
    if Unmounting in env || i == -1 then Failed(ran, CommandFailed)
    else Done(ran.(mtab := m.mtab[..i] + m.mtab[i + 1..]))
  }

  function DoMount(m: Mounts, name: string, state: string, env: set<Step>): Outcome {
    var m1 :- Flush(m, env);
    if state != "mounted" then RunMount(m1, name, env) else Done(m1)
  }

  function DoUnmount(m: Mounts, name: string, state: string, env: set<Step>): Outcome {
    var m1 :- Flush(m, env);
    if state != "unmounted" && state != "absent" then RunUmount(m1, name, env) else Done(m1)
  }

  function StateOf(upd: Update): string {
    upd.actual.Lookup("ensure", "absent")
  }

  function Ensure(upd: Update): string {
    upd.should.Lookup("ensure", StateOf(upd))
  }

  function LogEnsure(m: Mounts, upd: Update): Mounts {
    m.(log := m.log[upd.Name() := AddDiff(Entries(m.log, upd.Name()), "ensure", upd)])
  }

  function SetOne(m: Mounts, upd: Update, env: set<Step>): Outcome {
    var m0 := LogEnsure(m, upd);
    if Ensure(upd) == "present" then UpdateFstab(m0, upd)
    else if Ensure(upd) == "absent" then
      var m1 :- DoUnmount(m0, upd.Name(), StateOf(upd), env);
      RemoveFromFstab(m1, upd)
    else if Ensure(upd) == "unmounted" then
      var m1 :- DoUnmount(m0, upd.Name(), StateOf(upd), env);
      UpdateFstab(m1, upd)
    else if Ensure(upd) == "mounted" then
      var m1 :- UpdateFstab(m0, upd);
      DoMount(m1, upd.Name(), StateOf(upd), env)
    else Failed(m0, IllegalEnsure)
  }

  function SetEach(m: Mounts, upds: seq<Update>, envs: nat -> set<Step>): Outcome
    decreases |upds|
  {
    if upds == [] then Done(m)
    else
      var m1 :- SetEach(m, upds[..|upds| - 1], envs);
      SetOne(m1, upds[|upds| - 1], envs(|upds| - 1))
  }

  /** All updates up to the first failure, and then a last save. */
  function SetAll(m: Mounts, upds: seq<Update>, envs: nat -> set<Step>): Outcome {
    var m1 :- SetEach(m, upds, envs);
    Flush(m1, envs(|upds|))
  }
}
