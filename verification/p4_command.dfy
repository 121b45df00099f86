/** `P4Command`: a wrapper around the `p4` command-line client. The process
    itself is the oracle `script`; every command is recorded in `log`. */
module P4Client {

  import opened Outcomes
  import opened Strings
  import opened Specs
  import opened Responses
  import opened Commands

  class P4Command {
    const user: string
    const workspace: string
    /** The environment every command runs with. */
    const runEnv: map<string, string>
    /** The `p4` process: the n-th command of this object's life receives `script(n)`. */
    const script: nat -> Response
    /** Every command issued so far, in order. */
    var log: seq<Invocation>

    /** `environ` is the process environment the object was created in. */
    constructor (port: string, user: string, password: string, workspace: string,
                 environ: map<string, string>, script: nat -> Response)
      ensures this.user == user && this.workspace == workspace && this.script == script
      ensures runEnv == environ["P4USER" := user]["P4PASSWD" := password]["P4PORT" := port]["P4CLIENT" := workspace]
      ensures log == []
    {
      this.user := user;
      this.workspace := workspace;
      this.runEnv := environ["P4USER" := user]["P4PASSWD" := password]["P4PORT" := port]["P4CLIENT" := workspace];
      this.script := script;
      this.log := [];
    }

    /** `_p4(args, stdin)`: run one command and return its response. */
    method P4(args: seq<string>, stdin: Option<string>) returns (r: Response)
      modifies this
      ensures log == old(log) + [Invocation(args, stdin)]
      ensures r == script(|old(log)|)
    {
      r := script(|log|);
      log := log + [Invocation(args, stdin)];
    }

    method Add(changelist: string, path: string)
      modifies this
      ensures log == old(log) + [Invocation(AddArgs(changelist, path), None)]
    {
      var _ := P4(AddArgs(changelist, path), None);
    }

    method Edit(changelist: string, path: string)
      modifies this
      ensures log == old(log) + [Invocation(EditArgs(changelist, path), None)]
    {
      var _ := P4(EditArgs(changelist, path), None);
    }

    method Reopen(changelist: string, filetype: string, path: string)
      modifies this
      ensures log == old(log) + [Invocation(ReopenArgs(changelist, filetype, path), None)]
    {
      var _ := P4(ReopenArgs(changelist, filetype, path), None);
    }

    method Revert(path: string)
      modifies this
      ensures log == old(log) + [Invocation(RevertArgs([path]), None)]
    {
      var _ := P4(RevertArgs([path]), None);
    }

    method Copy(changelist: string, source: string, dest: string)
      modifies this
      ensures log == old(log) + [Invocation(CopyArgs(changelist, source, dest), None)]
    {
      var _ := P4(CopyArgs(changelist, source, dest), None);
    }

    method Where(path: string) returns (r: Result<WhereNames, P4Error>)
      modifies this
      ensures log == old(log) + [Invocation(["where", path], None)]
      ensures r == WhereOutcome(path, script(|old(log)|))
    {
      var resp := P4(["where", path], None);
      if resp.returncode != 0 {
        return Err(WhereFailed(path, resp.stderr));
      }
      var fields := SplitOn(resp.stdout, ' ');
      if |fields| != 3 {
        return Err(WhereUnpack(|fields|));
      }
      return Ok(WhereNames(fields[0], fields[1], RStrip(fields[2], '\n')));
    }

    /** `treerevert(path)`; `walk` lists the files under a local directory. */
    method TreeRevert(path: string, walk: string -> seq<string>) returns (r: Result<(), P4Error>)
      modifies this
      ensures log == old(log) + TreeRevertTrace(path, walk, script, |old(log)|).issued
      ensures r == TreeRevertTrace(path, walk, script, |old(log)|).result
    {
      var w := Where(path);
      if w.Err? {
        return Err(w.error);
      }
      var _ := P4(RevertArgs(walk(w.value.clientFs)), None);
      return Ok(());
    }

    method MergeChangelists(keep: string, merge: string) returns (r: Result<(), P4Error>)
      modifies this
      ensures log == old(log) + MergeTrace(keep, merge, script, |old(log)|).issued
      ensures r == MergeTrace(keep, merge, script, |old(log)|).result
    {
      if !AllDigits(keep) || !AllDigits(merge) {
        return Err(InvalidArgument);
      }
      var q := P4(["opened", "-c", merge], None);
      if q.returncode != 0 {
        return Err(OpenedFailed(merge));
      }
      var files := CollectOpenedFiles(q.stdout);
      if |files| > 0 {
        var re := P4(["reopen", "-c", keep] + files, None);
        if re.returncode != 0 {
          return Err(ReopenFailed(|files|, files[0], re.stderr));
        }
      }
      var d := P4(["changelist", "-d", merge], None);
      if d.returncode != 0 {
        return Err(ChangelistDeleteFailed(merge, d.stderr));
      }
      return Ok(());
    }

    method BulkCopy(changelist: string, copies: seq<seq<string>>) returns (r: Result<(), P4Error>)
      modifies this
      ensures log == old(log) + BulkCopyTrace(user, workspace, changelist, copies, script, |old(log)|).issued
      ensures r == BulkCopyTrace(user, workspace, changelist, copies, script, |old(log)|).result
    {
      if !ValidCopies(copies) {
        return Err(InvalidArgument);
      }
      var name := BranchName(user, workspace, changelist);
      var view := RenderView(Pairs(copies));
      var created := P4(["branch", "-i"], Some(BranchSpec(name, user, view)));
      if created.returncode != 0 {
        return Err(BranchCreateFailed(name, created.stderr));
      }
      // try: the copy's failure is held while the finally clause runs
      var copied := P4(["copy", "-c", changelist, "-b", name], None);
      var pending: Option<P4Error> := if copied.returncode != 0 then Some(CopyFailed(name, copied.stderr)) else None;
      // finally: always delete the temporary branch; its failure replaces a pending one
      var deleted := P4(["branch", "-d", name], None);
      if deleted.returncode != 0 {
        return Err(BranchDeleteFailed(name, deleted.stderr));
      }
      if pending.Some? {
        return Err(pending.value);
      }
      return Ok(());
    }

    method GetChangelistNumber() returns (r: Result<string, P4Error>)
      modifies this
      ensures log == old(log) + [Invocation(["change", "-i"], Some(ChangeSpec(workspace, user)))]
      ensures r == ChangeOutcome(script(|old(log)|))
    {
      var resp := P4(["change", "-i"], Some(ChangeSpec(workspace, user)));
      if resp.returncode != 0 {
        // the source raises the undefined name `p4Error` here
        return Err(ChangeNameError);
      }
      var m := MatchChangeCreated(resp.stdout);
      if m.None? {
        return Err(ChangeNumberUnparsed(resp.stdout, resp.stderr));
      }
      return Ok(m.value);
    }
  }
}
