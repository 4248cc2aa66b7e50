/** The file provider: its methods change the filesystem and the change log step by step. */
module FileProvider {
  import opened Core
  import opened Changes
  import opened FileSystem

  type Status = Option<FileError>

  function Ended(r: Status, w: World): Outcome {
    match r
    case None => Done(w)
    case Some(e) => Failed(w, e)
  }

  class Provider {
    var files: Files
    const defaults: Defaults

    constructor (files: Files, defaults: Defaults)
      ensures this.files == files && this.defaults == defaults
    {
      this.files := files;
      this.defaults := defaults;
    }

    ghost function State(ctx: Context): World
      reads this, ctx
    {
      World(files, ctx.log)
    }

    method RemoveAt(path: string, state: Kind, force: bool, call: Syscall, env: Faults, ghost log: Log)
      returns (r: Status)
      modifies this
      ensures Ended(r, World(files, log)) == Remove(World(old(files), log), path, state, force, call, env)
    {
      if state == Absent {
        return None;
      }
      if state == Folder && !force {
        return Some(DirectoryWithoutForce);
      }
      if state == Folder || state == RegularFile || state == Symlink {
        if call in env.failing {
          files := files - (Doomed(files, path) - env.kept);
          return Some(SystemError(call));
        }
        files := files - Doomed(files, path);
        return None;
      }
      return Some(UnknownFileType);
    }

    method CreateFileAt(name: string, env: Faults, ghost log: Log) returns (r: Status)
      modifies this
      ensures Ended(r, World(files, log)) == CreateEmpty(World(old(files), log), name, env, defaults)
    {
      var p := Resolve(files, name, env);
      if CreateFile in env.failing || (p in files && !files[p].File?) {
        return Some(SystemError(CreateFile));
      }
      files := files[p := File(if p in files then files[p].meta else defaults.file, "")];
      return None;
    }

    method CreateDirectoryAt(name: string, env: Faults, ghost log: Log) returns (r: Status)
      modifies this
      ensures Ended(r, World(files, log)) == CreateDirectory(World(old(files), log), name, env, defaults)
    {
      var p := Resolve(files, name, env);
      if MakeDirectory in env.failing {
        return Some(SystemError(MakeDirectory));
      }
      if p in files && files[p].Directory? {
        return None;
      }
      if name in files {
        return Some(SystemError(MakeDirectory));
      }
      files := files[name := Directory(defaults.directory)];
      return None;
    }

    method UpdateMetadataOf(ctx: Context, upd: Update, env: Faults) returns (r: Status)
      modifies this, ctx
      ensures Ended(r, State(ctx)) == UpdateMetadata(old(State(ctx)), upd, env)
    {
      var any := ctx.AddAllChanged(METADATA, upd);
      var ownerChanged := ctx.Exists(upd.Name(), "owner");
      var groupChanged := ctx.Exists(upd.Name(), "group");
      var modeChanged := ctx.Exists(upd.Name(), "mode");
      r := None;
      if ownerChanged || groupChanged {
        r := UpdateOwnerOf(upd, env, ctx.log);
      }
      if r.None? && modeChanged {
        r := UpdateModeOf(upd, env, ctx.log);
      }
    }

    method UpdateOwnerOf(upd: Update, env: Faults, ghost log: Log) returns (r: Status)
      modifies this
      ensures Ended(r, World(files, log)) == UpdateOwner(World(old(files), log), upd, env)
    {
      var uid: Id, gid: Id := KEEP, KEEP;
      var owner, group := upd.should.Get("owner"), upd.should.Get("group");
      if owner.Str? {
        var parsed := ParseId(owner.s);
        if parsed.None? {
          return Some(BadOwner);
        }
        uid := parsed.value;
      }
      if group.Str? {
        var parsed := ParseId(group.s);
        if parsed.None? {
          return Some(BadGroup);
        }
        gid := parsed.value;
      }
      var name := upd.Name();
      if Chown in env.failing || name !in files {
        return Some(SystemError(Chown));
      }
      var m := files[name].meta;
      if uid != KEEP {
        m := m.(owner := uid);
      }
      if gid != KEEP {
        m := m.(group := gid);
      }
      files := files[name := files[name].WithMeta(m)];
      return None;
    }

    method UpdateModeOf(upd: Update, env: Faults, ghost log: Log) returns (r: Status)
      modifies this
      ensures Ended(r, World(files, log)) == UpdateMode(World(old(files), log), upd, env)
    {
      var text := upd.should.Get("mode");
      if !text.Str? {
        return Some(ModeNotString);
      }
      var mode := ParseMode(text.s);
      if mode.None? {
        return Some(BadMode);
      }
      var p := Resolve(files, upd.Name(), env);
      if Chmod in env.failing || p !in files || files[p].Link? {
        return Some(SystemError(Chmod));
      }
      files := files[p := files[p].WithMeta(files[p].meta.(mode := mode.value))];
      return None;
    }

    method UpdateContentOf(ctx: Context, upd: Update, env: Faults) returns (r: Status)
      modifies this, ctx
      ensures Ended(r, State(ctx)) == UpdateContent(old(State(ctx)), upd, env)
    {
      var content := upd.should.Get("content");
      if !content.Str? {
        if content.IsSet() {
          return Some(ContentNotString);
        }
        return None;
      }
      var p := Resolve(files, upd.Name(), env);
      if OpenRead in env.failing || p !in files || !files[p].File? {
        return Some(SystemError(OpenRead));
      }
      var buf := files[p].content;
      if buf != content.s {
        if OpenWrite in env.failing {
          return Some(SystemError(OpenWrite));
        }
        files := files[p := files[p].(content := content.s)];
        ctx.Add(upd.Name(), "content", content, Str(buf));
      }
      return None;
    }

    method UpdateTargetOf(ctx: Context, upd: Update, env: Faults) returns (r: Status)
      modifies this, ctx
      ensures Ended(r, State(ctx)) == UpdateTarget(old(State(ctx)), upd, env, defaults)
    {
      var target := upd.should.Get("target");
      if !target.Str? {
        return Some(TargetNotSet);
      }
      var state := ReadKind(upd.actual.Lookup("ensure", "absent"));
      if state != Absent {
        r := RemoveAt(upd.Name(), state, false, RemoveForLink, env, ctx.log);
        if r.Some? {
          return r;
        }
      }
      if MakeLink in env.failing || upd.Name() in files {
        return Some(SystemError(MakeLink));
      }
      files := files[upd.Name() := Link(defaults.link, target.s)];
      var changed := ctx.AddChanged("target", upd);
      return None;
    }

    method SetUpdate(ctx: Context, upd: Update, env: Faults) returns (r: Status)
      modifies this, ctx
      ensures Ended(r, State(ctx)) == SetOne(old(State(ctx)), upd, env, defaults)
    {
      var stateText := upd.actual.Lookup("ensure", "absent");
      if stateText == "present" {
        stateText := upd.actual.Lookup("type", "file");
      }
      var state := ReadKind(stateText);
      var ensureText := upd.should.Lookup("ensure", stateText);
      var ensure := ReadKind(ensureText);
      if ensureText == "present" {
        if state == Absent {
          ensure := RegularFile;
        } else {
          ensure := state;
        }
      }
      var force := upd.should.Lookup("force", "false") == "true";
      if state == Folder && state != ensure && !force {
        return Some(CannotChangeDirectory);
      }
      if ensure != state {
        if state != Absent {
          r := RemoveAt(upd.Name(), state, force, RemoveOld, env, ctx.log);
          if r.Some? {
            return r;
          }
          state := Absent;
        }
        ctx.Add(upd.Name(), "ensure", Str(ensure.Text()), Str(state.Text()));
      }
      r := EnforceState(ctx, upd, state, ensure, force, env);
    }

    method EnforceState(ctx: Context, upd: Update, state: Kind, ensure: Kind, force: bool, env: Faults)
      returns (r: Status)
      requires force == Force(upd.should)
      modifies this, ctx
      ensures Ended(r, State(ctx)) == Enforce(old(State(ctx)), upd, state, ensure, env, defaults)
    {
      r := None;
      if ensure == RegularFile {
        if state == Absent {
          r := CreateFileAt(upd.Name(), env, ctx.log);
        }
        if r.None? {
          r := UpdateMetadataOf(ctx, upd, env);
        }
        if r.None? {
          r := UpdateContentOf(ctx, upd, env);
        }
      } else if ensure == Folder {
        if state == Absent {
          r := CreateDirectoryAt(upd.Name(), env, ctx.log);
        }
        if r.None? {
          r := UpdateMetadataOf(ctx, upd, env);
        }
      } else if ensure == Symlink {
        r := UpdateTargetOf(ctx, upd, env);
        if r.None? {
          r := UpdateMetadataOf(ctx, upd, env);
        }
      } else if ensure == Absent {
        r := RemoveAt(upd.Name(), state, force, RemoveOld, env, ctx.log);
      } else {
        r := Some(IllegalEnsure);
      }
    }

    method SetUpdates(ctx: Context, upds: seq<Update>, envs: nat -> Faults) returns (r: Status)
      modifies this, ctx
      ensures Ended(r, State(ctx)) == SetAll(old(State(ctx)), upds, envs, defaults)
    {
      r := None;
      for i := 0 to |upds|
        invariant r == None
        invariant SetAll(old(State(ctx)), upds[..i], envs, defaults) == Done(State(ctx))
      {
        assert upds[..i + 1][..i] == upds[..i];
        r := SetUpdate(ctx, upds[i], envs(i));
        if r.Some? {
          SetAllFails(old(State(ctx)), upds, i + 1, envs, defaults);
          return r;
        }
      }
      assert upds[..|upds|] == upds;
    }
  }

  /** Once an update has failed, the later ones are not tried. */
  lemma {:induction false} SetAllFails(w: World, upds: seq<Update>, k: nat, envs: nat -> Faults, d: Defaults)
    requires k <= |upds| && SetAll(w, upds[..k], envs, d).Failed?
    ensures SetAll(w, upds, envs, d) == SetAll(w, upds[..k], envs, d)
    decreases |upds| - k
  {
    if k < |upds| {
      assert upds[..k + 1][..k] == upds[..k];
      SetAllFails(w, upds, k + 1, envs, d);
    } else {
      assert upds[..k] == upds;
    }
  }
}
