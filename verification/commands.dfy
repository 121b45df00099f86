/** The commands `P4Command` issues and what each of its checked operations
    makes of the responses. The `p4` process is an oracle `script`: the n-th
    command issued (counting from 0) receives `script(n)`. Each operation is
    specified by the commands it issues, in order, and by its result. */
module Commands {

  import opened Outcomes
  import opened Strings
  import opened Specs
  import opened Responses

  /** One run of `p4`: its arguments (after the binary) and the stdin text, if any. */
  datatype Invocation = Invocation(args: seq<string>, stdin: Option<string>)

  /** What `_p4` returns: `(stdout, stderr, returncode)`. */
  datatype Response = Response(stdout: string, stderr: string, returncode: int)

  /** The exceptions the operations raise, with the identifiers they name. */
  datatype P4Error =
    | InvalidArgument                                    // a failed `assert` on the arguments
    | WhereFailed(path: string, stderr: string)
    | WhereUnpack(fields: nat)                           // `ValueError`: not three fields
    | ChangeNameError                                    // `NameError`: `p4Error` is undefined
    | ChangeNumberUnparsed(stdout: string, stderr: string)
    | OpenedFailed(changelist: string)
    | ReopenFailed(count: nat, first: string, stderr: string)
    | ChangelistDeleteFailed(changelist: string, stderr: string)
    | BranchCreateFailed(branch: string, stderr: string)
    | CopyFailed(branch: string, stderr: string)
    | BranchDeleteFailed(branch: string, stderr: string)

  /** The commands an operation issued, in order, and what it returned or raised. */
  datatype Trace<T> = Trace(issued: seq<Invocation>, result: Result<T, P4Error>)

  /** Every issued command got a zero return code. */
  ghost predicate AllSucceeded(issued: seq<Invocation>, script: nat -> Response, n: nat) {
    forall j :: n <= j < n + |issued| ==> script(j).returncode == 0
  }

  // The argument lists of the single-command wrappers.

  function AddArgs(changelist: string, path: string): seq<string> {
    ["add", "-c", changelist, "-I", path]
  }

  function EditArgs(changelist: string, path: string): seq<string> {
    ["edit", "-c", changelist, path]
  }

  function ReopenArgs(changelist: string, filetype: string, path: string): seq<string> {
    ["reopen", "-c", changelist, "-t", filetype, path]
  }

  function RevertArgs(paths: seq<string>): seq<string> {
    ["revert"] + paths
  }

  function CopyArgs(changelist: string, source: string, dest: string): seq<string> {
    ["copy", "-c", changelist, source, dest]
  }

  // where

  /** `where(path)` given the response to `p4 where path`. */
  function WhereOutcome(path: string, r: Response): Result<WhereNames, P4Error> {
    if r.returncode != 0 then Err(WhereFailed(path, r.stderr))
    else
      match ParseWhere(r.stdout)
      case None => Err(WhereUnpack(Count(r.stdout, ' ') + 1))
      case Some(w) => Ok(w)
  }

  /** A failing `where` names the path; a succeeding one parses two spaces'
      worth of output; anything else is the unpacking error. */
  lemma WhereOutcomeCases(path: string, r: Response)
    ensures r.returncode != 0 ==> WhereOutcome(path, r) == Err(WhereFailed(path, r.stderr))
    ensures r.returncode == 0 ==>
              (WhereOutcome(path, r).Ok? <==> Count(r.stdout, ' ') == 2)
    ensures r.returncode == 0 && Count(r.stdout, ' ') != 2 ==>
              WhereOutcome(path, r) == Err(WhereUnpack(Count(r.stdout, ' ') + 1))
  {
    ParseWhereAccepts(r.stdout);
  }

  /** A typical one-line `where` reply parses into its three names, with the
      newline dropped. */
  lemma WhereExample()
    ensures WhereOutcome("//depot/f.txt",
                         Response("//depot/f.txt" + " " + "//ws/f.txt" + " " + "/home/u/ws/f.txt" + "\n", "", 0))
            == Ok(WhereNames("//depot/f.txt", "//ws/f.txt", "/home/u/ws/f.txt"))
  {
    var fs := "/home/u/ws/f.txt";
    assert ' ' !in "//depot/f.txt" && ' ' !in "//ws/f.txt" && ' ' !in fs + "\n";
    ParseWhereOf("//depot/f.txt", "//ws/f.txt", fs + "\n");
    assert "//depot/f.txt" + " " + "//ws/f.txt" + " " + fs + "\n"
           == "//depot/f.txt" + " " + "//ws/f.txt" + " " + (fs + "\n");
    assert (fs + "\n")[..|fs|] == fs;
    assert fs[|fs| - 1] == 't';
    assert RStrip(fs, '\n') == fs;
    assert RStrip(fs + "\n", '\n') == fs;
  }

  // get_changelist_number

  /** `get_changelist_number` given the response to `p4 change -i`. */
  function ChangeOutcome(r: Response): Result<string, P4Error> {
    if r.returncode != 0 then Err(ChangeNameError)
    else
      match MatchChangeCreated(r.stdout)
      case None => Err(ChangeNumberUnparsed(r.stdout, r.stderr))
      case Some(digits) => Ok(digits)
  }

  /** The changelist number is returned exactly when the command succeeded and
      its output begins `Change <digits> created` and a non-newline character;
      it is a non-empty string of digits. */
  lemma ChangeOutcomeMeaning(r: Response, digits: string)
    ensures ChangeOutcome(r) == Ok(digits) <==>
      (r.returncode == 0 && 0 < |digits| && AllDigits(digits)
       && |digits| + 15 < |r.stdout|
       && r.stdout[..|digits| + 15] == "Change " + digits + " created"
       && r.stdout[|digits| + 15] != '\n')
    ensures r.returncode != 0 ==> ChangeOutcome(r) == Err(ChangeNameError)
    ensures r.returncode == 0 && MatchChangeCreated(r.stdout).None? ==>
              ChangeOutcome(r) == Err(ChangeNumberUnparsed(r.stdout, r.stderr))
  {
    MatchChangeCreatedIff(r.stdout, digits);
  }

  // merge_changelists

  function OpenedInvocation(merge: string): Invocation {
    Invocation(["opened", "-c", merge], None)
  }

  function ReopenAllInvocation(keep: string, files: seq<string>): Invocation {
    Invocation(["reopen", "-c", keep] + files, None)
  }

  function DeleteChangelistInvocation(merge: string): Invocation {
    Invocation(["changelist", "-d", merge], None)
  }

  /** `merge_changelists(keep, merge)` when its first command is the n-th. */
  function MergeTrace(keep: string, merge: string, script: nat -> Response, n: nat): Trace<()> {
    if !AllDigits(keep) || !AllDigits(merge) then Trace([], Err(InvalidArgument))
    else
      var q := script(n);
      if q.returncode != 0 then Trace([OpenedInvocation(merge)], Err(OpenedFailed(merge)))
      else
        var files := OpenedFiles(q.stdout);
        if |files| > 0 then
          var re := script(n + 1);
          if re.returncode != 0 then
            Trace([OpenedInvocation(merge), ReopenAllInvocation(keep, files)],
                  Err(ReopenFailed(|files|, files[0], re.stderr)))
          else
            var d := script(n + 2);
            Trace([OpenedInvocation(merge), ReopenAllInvocation(keep, files), DeleteChangelistInvocation(merge)],
                  if d.returncode != 0 then Err(ChangelistDeleteFailed(merge, d.stderr)) else Ok(()))
        else
          var d := script(n + 1);
          Trace([OpenedInvocation(merge), DeleteChangelistInvocation(merge)],
                if d.returncode != 0 then Err(ChangelistDeleteFailed(merge, d.stderr)) else Ok(()))
  }

  /** Both ids are validated before any command: a non-digit in either means
      nothing is issued; all-digit ids (the empty one included) always issue a
      command and never fail validation. */
  lemma MergeValidatesFirst(keep: string, merge: string, script: nat -> Response, n: nat)
    ensures var t := MergeTrace(keep, merge, script, n);
      (t.issued == [] <==> !(AllDigits(keep) && AllDigits(merge)))
      && (t.result == Err(InvalidArgument) <==> t.issued == [])
  {
  }

  /** The order of `merge_changelists`: `opened`, then `reopen` of every opened
      file into `keep` only when there is one, then deletion of `merge`; a
      non-zero return code stops the sequence and is what surfaces. */
  lemma MergeOrder(keep: string, merge: string, script: nat -> Response, n: nat)
    requires AllDigits(keep) && AllDigits(merge)
    ensures var t := MergeTrace(keep, merge, script, n);
      var files := OpenedFiles(script(n).stdout);
      1 <= |t.issued| <= 3
      && t.issued[0] == OpenedInvocation(merge)
      && (script(n).returncode != 0 ==> t == Trace([OpenedInvocation(merge)], Err(OpenedFailed(merge))))
      && (script(n).returncode == 0 && files == [] ==>
            t.issued == [OpenedInvocation(merge), DeleteChangelistInvocation(merge)])
      && (script(n).returncode == 0 && files != [] ==>
            t.issued[1] == ReopenAllInvocation(keep, files)
            && (script(n + 1).returncode != 0 <==> |t.issued| == 2)
            && (script(n + 1).returncode != 0 ==>
                  t.result == Err(ReopenFailed(|files|, files[0], script(n + 1).stderr))))
      && (script(n).returncode == 0 && (files == [] || script(n + 1).returncode == 0) ==>
            t.issued[|t.issued| - 1] == DeleteChangelistInvocation(merge)
            && (script(n + |t.issued| - 1).returncode != 0 ==>
                  t.result == Err(ChangelistDeleteFailed(merge, script(n + |t.issued| - 1).stderr))))
      && (forall j :: n <= j < n + |t.issued| - 1 ==> script(j).returncode == 0)
  {
  }

  /** `merge_changelists` returns normally exactly when every command it issued
      succeeded, and then its last command deleted `merge`. */
  lemma MergeSucceedsIff(keep: string, merge: string, script: nat -> Response, n: nat)
    ensures var t := MergeTrace(keep, merge, script, n);
      t.result.Ok? <==> (t.issued != [] && AllSucceeded(t.issued, script, n)
                         && t.issued[|t.issued| - 1] == DeleteChangelistInvocation(merge))
  {
    var t := MergeTrace(keep, merge, script, n);
    if t.issued != [] && AllSucceeded(t.issued, script, n) {
      assert script(n).returncode == 0;
      if |t.issued| == 3 {
        assert script(n + 1).returncode == 0;
        assert script(n + 2).returncode == 0;
      } else if |t.issued| == 2 {
        assert script(n + 1).returncode == 0;
      }
    }
  }

  /** When `opened` lists `path#rest` lines, exactly those paths, in listing
      order, are reopened into `keep` in one command, and then `merge` is
      deleted. */
  lemma MergeReopensListedFiles(keep: string, merge: string, paths: seq<string>, revs: seq<string>,
                                script: nat -> Response, n: nat)
    requires AllDigits(keep) && AllDigits(merge)
    requires 0 < |paths| == |revs|
    requires forall k :: 0 <= k < |paths| ==> '#' !in paths[k] && NoLineBreak(paths[k]) && NoLineBreak(revs[k])
    requires script(n).returncode == 0 && script(n).stdout == OpenedListing(paths, revs)
    requires script(n + 1).returncode == 0 && script(n + 2).returncode == 0
    ensures MergeTrace(keep, merge, script, n)
            == Trace([Invocation(["opened", "-c", merge], None),
                      Invocation(["reopen", "-c", keep] + paths, None),
                      Invocation(["changelist", "-d", merge], None)],
                     Ok(()))
  {
    OpenedFilesOfListing(paths, revs);
  }

  // bulk_copy

  /** The argument check of `bulk_copy`: every copy is a pair of depot paths. */
  predicate ValidCopies(copies: seq<seq<string>>) {
    forall k :: 0 <= k < |copies| ==>
      |copies[k]| == 2 && |copies[k][0]| >= 2 && copies[k][0][..2] == "//"
      && |copies[k][1]| >= 2 && copies[k][1][..2] == "//"
  }

  /** The validated pairs as copies, in input order. */
  function Pairs(copies: seq<seq<string>>): (cs: seq<Copy>)
    requires forall k :: 0 <= k < |copies| ==> |copies[k]| == 2
    ensures |cs| == |copies|
    ensures forall k :: 0 <= k < |copies| ==> cs[k] == Copy(copies[k][0], copies[k][1])
  {
    seq(|copies|, k requires 0 <= k < |copies| => Copy(copies[k][0], copies[k][1]))
  }

  function CreateBranchInvocation(name: string, user: string, copies: seq<Copy>): Invocation {
    Invocation(["branch", "-i"], Some(BranchSpec(name, user, View(copies))))
  }

  function CopyWithBranchInvocation(changelist: string, name: string): Invocation {
    Invocation(["copy", "-c", changelist, "-b", name], None)
  }

  function DeleteBranchInvocation(name: string): Invocation {
    Invocation(["branch", "-d", name], None)
  }

  /** `bulk_copy(changelist, copies)` for `user` in `workspace`, when its first
      command is the n-th. The `raise` inside `finally` replaces a pending copy
      error, so a failed delete is what surfaces whenever it fails. */
  function BulkCopyTrace(user: string, workspace: string, changelist: string,
                         copies: seq<seq<string>>, script: nat -> Response, n: nat): Trace<()>
  {
    if !ValidCopies(copies) then Trace([], Err(InvalidArgument))
    else
      var name := BranchName(user, workspace, changelist);
      var create := CreateBranchInvocation(name, user, Pairs(copies));
      var c := script(n);
      if c.returncode != 0 then Trace([create], Err(BranchCreateFailed(name, c.stderr)))
      else
        var cp := script(n + 1);
        var d := script(n + 2);
        Trace([create, CopyWithBranchInvocation(changelist, name), DeleteBranchInvocation(name)],
              if d.returncode != 0 then Err(BranchDeleteFailed(name, d.stderr))
              else if cp.returncode != 0 then Err(CopyFailed(name, cp.stderr))
              else Ok(()))
  }

  /** Invalid copies issue nothing; valid ones always start by creating the
      temporary branch. */
  lemma BulkCopyValidatesFirst(user: string, workspace: string, changelist: string,
                               copies: seq<seq<string>>, script: nat -> Response, n: nat)
    ensures var t := BulkCopyTrace(user, workspace, changelist, copies, script, n);
      (t.issued == [] <==> !ValidCopies(copies))
      && (t.result == Err(InvalidArgument) <==> t.issued == [])
      && (t.issued != [] ==> t.issued[0].args == ["branch", "-i"])
  {
  }

  /** The temporary branch never outlives the call: if creating it fails that
      is the only command and its error names the branch; if creating it
      succeeds, the copy through it follows and the call ends with exactly one
      deletion of it, whatever the copy returned. */
  lemma BulkCopyCleansUp(user: string, workspace: string, changelist: string,
                         copies: seq<seq<string>>, script: nat -> Response, n: nat)
    requires ValidCopies(copies)
    ensures var t := BulkCopyTrace(user, workspace, changelist, copies, script, n);
      var name := BranchName(user, workspace, changelist);
      (script(n).returncode != 0 ==>
         t.issued == [CreateBranchInvocation(name, user, Pairs(copies))]
         && t.result == Err(BranchCreateFailed(name, script(n).stderr)))
      && (script(n).returncode == 0 ==>
         t.issued == [CreateBranchInvocation(name, user, Pairs(copies)),
                      CopyWithBranchInvocation(changelist, name),
                      DeleteBranchInvocation(name)])
      && (forall i :: 0 <= i < |t.issued| - 1 ==> t.issued[i] != DeleteBranchInvocation(name))
  {
  }

  /** `bulk_copy` returns normally exactly when all three commands succeeded. A
      failed delete surfaces even when the copy failed too; a failed copy
      surfaces when the delete succeeded. */
  lemma BulkCopyErrorPriority(user: string, workspace: string, changelist: string,
                              copies: seq<seq<string>>, script: nat -> Response, n: nat)
    requires ValidCopies(copies) && script(n).returncode == 0
    ensures var t := BulkCopyTrace(user, workspace, changelist, copies, script, n);
      var name := BranchName(user, workspace, changelist);
      (t.result.Ok? <==> AllSucceeded(t.issued, script, n))
      && (script(n + 2).returncode != 0 ==>
            t.result == Err(BranchDeleteFailed(name, script(n + 2).stderr)))
      && (script(n + 2).returncode == 0 && script(n + 1).returncode != 0 ==>
            t.result == Err(CopyFailed(name, script(n + 1).stderr)))
  {
    var t := BulkCopyTrace(user, workspace, changelist, copies, script, n);
    if AllSucceeded(t.issued, script, n) {
      assert script(n + 1).returncode == 0;
      assert script(n + 2).returncode == 0;
    }
  }

  /** The stdin of the branch creation is the spec of the branch named after
      user, workspace and changelist; its View lines hold the copies in input
      order, and when no path holds a line break the View text reads back as
      exactly those copies. */
  lemma BulkCopyBranchSpec(user: string, workspace: string, changelist: string,
                           copies: seq<seq<string>>, script: nat -> Response, n: nat)
    requires ValidCopies(copies)
    requires forall k :: 0 <= k < |copies| ==> NoLineBreak(copies[k][0]) && NoLineBreak(copies[k][1])
    ensures var t := BulkCopyTrace(user, workspace, changelist, copies, script, n);
      var name := BranchName(user, workspace, changelist);
      t.issued[0].stdin
        == Some(Unlines(BranchSpecHeader(name, user) + ViewLines(Pairs(copies)) + [""]))
      && ParseView(View(Pairs(copies))) == Some(Pairs(copies))
  {
    var cs := Pairs(copies);
    BranchSpecLayout(BranchName(user, workspace, changelist), user, cs);
    assert forall k :: 0 <= k < |cs| ==> CopyHasNoLineBreak(cs[k]);
    ViewRoundTrip(cs);
  }

  // treerevert

  /** `treerevert(path)` where `walk` lists the files under a local directory
      (the `os.walk` of the source): `where`, then one `revert` of every file
      found, whose return code is ignored. */
  function TreeRevertTrace(path: string, walk: string -> seq<string>,
                           script: nat -> Response, n: nat): Trace<()>
  {
    var whereCall := Invocation(["where", path], None);
    match WhereOutcome(path, script(n))
    case Err(e) => Trace([whereCall], Err(e))
    case Ok(w) => Trace([whereCall, Invocation(RevertArgs(walk(w.clientFs)), None)], Ok(()))
  }

  /** `treerevert` reverts exactly the files found under the local name that
      `where` gave, in one command; when `where` fails nothing is reverted. */
  lemma TreeRevertReverts(path: string, walk: string -> seq<string>, script: nat -> Response, n: nat)
    ensures var t := TreeRevertTrace(path, walk, script, n);
      t.issued[0] == Invocation(["where", path], None)
      && (t.result.Ok? <==> WhereOutcome(path, script(n)).Ok?)
      && (WhereOutcome(path, script(n)).Ok? ==>
            t.issued == [t.issued[0],
                         Invocation(["revert"] + walk(WhereOutcome(path, script(n)).value.clientFs), None)])
      && (WhereOutcome(path, script(n)).Err? ==>
            t == Trace([Invocation(["where", path], None)], Err(WhereOutcome(path, script(n)).error)))
      && (script(n).returncode != 0 ==> t.result == Err(WhereFailed(path, script(n).stderr)))
  {
  }
}
