/** The texts `P4Command` renders: the temporary branch name, the View field
    of a branch spec, and the branch and changelist specs fed to
    `p4 branch -i` and `p4 change -i`. */
module Specs {

  import opened Outcomes
  import opened Strings
  import opened ViewEscaper

  /** One copy: a source and a destination depot path. */
  datatype Copy = Copy(src: string, dest: string)

  /** The temporary branch name: user, workspace, `temp` and changelist,
      joined by hyphens. */
  function BranchName(user: string, workspace: string, changelist: string): string {
    user + "-" + workspace + "-temp-" + changelist
  }

  /** The temporary branch name is namespaced by changelist: for one user and
      workspace, two changelists never share a branch name. */
  lemma BranchNameSeparatesChangelists(user: string, workspace: string, c1: string, c2: string)
    requires BranchName(user, workspace, c1) == BranchName(user, workspace, c2)
    ensures c1 == c2
  {
    var k := |user + "-" + workspace + "-temp-"|;
    assert c1 == BranchName(user, workspace, c1)[k..];
    assert c2 == BranchName(user, workspace, c2)[k..];
  }

  /** The converse does not hold across users and workspaces: a hyphen inside
      a user or workspace name lets two different pairs share a temporary
      branch name for the same changelist. */
  lemma BranchNameHyphenCollision(changelist: string)
    ensures BranchName("a-b", "c", changelist) == BranchName("a", "b-c", changelist)
    ensures ("a-b", "c") != ("a", "b-c")
  {
    assert "a-b" + "-" + "c" == "a" + "-" + "b-c";
  }

  predicate CopyHasNoLineBreak(c: Copy) {
    NoLineBreak(c.src) && NoLineBreak(c.dest)
  }

  /** One line of the View field, without its final '\n'. */
  function ViewLine(c: Copy): string {
    "\t" + Escaped(c.src) + " " + Escaped(c.dest)
  }

  function ViewLines(copies: seq<Copy>): (lines: seq<string>)
    ensures |lines| == |copies|
    ensures forall k :: 0 <= k < |copies| ==> lines[k] == ViewLine(copies[k])
  {
    seq(|copies|, k requires 0 <= k < |copies| => ViewLine(copies[k]))
  }

  /** The View field: per copy, a tab, the escaped source, a space, the
      escaped destination and a newline. */
  function View(copies: seq<Copy>): string {
    Unlines(ViewLines(copies))
  }

  lemma ViewOne(c: Copy)
    ensures View([c]) == ViewLine(c) + "\n"
  {
    var line := ViewLine(c);
    assert ViewLines([c]) == [line];
    assert [line][1..] == [];
    assert Unlines([line]) == line + "\n" + Unlines([]);
    assert line + "\n" + [] == line + "\n";
  }

  lemma ViewSnoc(copies: seq<Copy>, c: Copy)
    ensures View(copies + [c]) == View(copies) + ViewLine(c) + "\n"
  {
    ViewOne(c);
    ViewAppend(copies, [c]);
  }

  /** The comprehension of `bulk_copy` that renders the View text, calling
      `_view_escape` on both paths of each copy in turn. */
  method RenderView(copies: seq<Copy>) returns (view: string)
    ensures view == View(copies)
  {
    view := "";
    for k := 0 to |copies|
      invariant view == View(copies[..k])
    {
      var src := ViewEscape(copies[k].src);
      var dest := ViewEscape(copies[k].dest);
      var line := "\t" + src + " " + dest;
      ViewSnoc(copies[..k], copies[k]);
      view := view + line + "\n";
      assert copies[..k + 1] == copies[..k] + [copies[k]];
    }
    assert copies[..|copies|] == copies;
  }

  /** Reads one View line back into its two (unescaped) paths. */
  function ParseViewLine(line: string): Option<Copy> {
    if |line| == 0 || line[0] != '\t' then None
    else
      var body := line[1..];
      var a := Before(body, ' ');
      if |a| == |body| then None
      else
        match (Unescape(a), Unescape(body[|a| + 1..]))
        case (Some(src), Some(dest)) => Some(Copy(src, dest))
        case _ => None
  }

  function ParseViewLines(lines: seq<string>): Option<seq<Copy>> {
    if lines == [] then Some([])
    else
      match (ParseViewLine(lines[0]), ParseViewLines(lines[1..]))
      case (Some(c), Some(cs)) => Some([c] + cs)
      case _ => None
  }

  /** Reads a View field back into its copies, in order. */
  function ParseView(view: string): Option<seq<Copy>> {
    ParseViewLines(SplitLines(view))
  }

  lemma EscapedKeepsNoLineBreak(s: string)
    requires NoLineBreak(s)
    ensures NoLineBreak(Escaped(s))
    ensures ' ' !in Escaped(s)
  {
    EscapedIsClean(s);
    var e := Escaped(s);
    forall i | 0 <= i < |e| ensures !IsLineBreak(e[i]) {
      if e[i] in s {
        var j :| 0 <= j < |s| && s[j] == e[i];
      }
    }
  }

  lemma ParseViewLineOf(c: Copy)
    ensures ParseViewLine(ViewLine(c)) == Some(c)
  {
    var a, b := Escaped(c.src), Escaped(c.dest);
    EscapedIsClean(c.src);
    var line := ViewLine(c);
    assert line[1..] == a + [' '] + b;
    BeforeFirst(a, ' ', b);
    assert line[1..][|a| + 1..] == b;
    UnescapeEscaped(c.src);
    UnescapeEscaped(c.dest);
  }

  lemma {:induction false} ParseViewLinesOf(copies: seq<Copy>)
    ensures ParseViewLines(ViewLines(copies)) == Some(copies)
    decreases |copies|
  {
    if copies != [] {
      ParseViewLineOf(copies[0]);
      ParseViewLinesOf(copies[1..]);
      assert ViewLines(copies)[1..] == ViewLines(copies[1..]);
      assert copies == [copies[0]] + copies[1..];
    }
  }

  /** The View field determines the copies exactly and in input order, provided
      no path holds a line break. */
  lemma ViewRoundTrip(copies: seq<Copy>)
    requires forall k :: 0 <= k < |copies| ==> CopyHasNoLineBreak(copies[k])
    ensures forall k :: 0 <= k < |copies| ==> NoLineBreak(ViewLine(copies[k]))
    ensures SplitLines(View(copies)) == ViewLines(copies)
    ensures ParseView(View(copies)) == Some(copies)
  {
    forall k | 0 <= k < |copies| ensures NoLineBreak(ViewLine(copies[k])) {
      EscapedKeepsNoLineBreak(copies[k].src);
      EscapedKeepsNoLineBreak(copies[k].dest);
    }
    SplitLinesUnlines(ViewLines(copies));
    ParseViewLinesOf(copies);
  }

  /** The View text of consecutive batches of copies is the concatenation of
      their View texts: the copies' order is kept. */
  lemma ViewAppend(a: seq<Copy>, b: seq<Copy>)
    ensures View(a + b) == View(a) + View(b)
  {
    assert ViewLines(a + b) == ViewLines(a) + ViewLines(b);
    UnlinesAppend(ViewLines(a), ViewLines(b));
  }

  /** The Description line of the temporary branch spec (a tab, then the text). */
  const BranchDescription: string :=
    "\tTemporary branch spec generated by M-Build. Should be able to be safely be deleted if you aren't running any M-Build perforce commands."

  /** The fixed fields of the branch spec, one per line, ending with the
      `View:` heading; fields are separated by blank lines. */
  function BranchSpecHeader(name: string, user: string): seq<string> {
    ["Branch: " + name, "", "Owner: " + user, "", "Description:", BranchDescription, "",
     "Options: unlocked", "", "View:"]
  }

  /** The branch spec sent on stdin to `p4 branch -i`: the header lines, the
      View text, and the blank line that closes the template. */
  function BranchSpec(name: string, user: string, view: string): string {
    Unlines(BranchSpecHeader(name, user)) + view + "\n"
  }

  lemma NoLineBreakAppend(a: string, b: string)
    requires NoLineBreak(a) && NoLineBreak(b)
    ensures NoLineBreak(a + b)
  {
    forall i | 0 <= i < |a + b| ensures !IsLineBreak((a + b)[i]) {
      if i >= |a| {
        assert (a + b)[i] == b[i - |a|];
      }
    }
  }

  /** The branch spec is a sequence of '\n'-terminated lines: the fixed fields,
      then one View line per copy in input order, then the blank line that
      closes the spec. */
  lemma BranchSpecLayout(name: string, user: string, copies: seq<Copy>)
    ensures BranchSpec(name, user, View(copies))
            == Unlines(BranchSpecHeader(name, user) + ViewLines(copies) + [""])
  {
    var header := BranchSpecHeader(name, user);
    UnlinesAppend(header, ViewLines(copies));
    UnlinesAppend(header + ViewLines(copies), [""]);
  }

  /** The fields of a new changelist's spec, one per line, blank-line separated. */
  function ChangeSpecFields(workspace: string, user: string): seq<string> {
    ["Change: new", "", "Client: " + workspace, "", "User: " + user, "",
     "Status: new", "", "Description:", "\tM-Build generated changelist.", ""]
  }

  /** The changelist spec sent on stdin to `p4 change -i`. */
  function ChangeSpec(workspace: string, user: string): string {
    Unlines(ChangeSpecFields(workspace, user))
  }

  /** The changelist spec, read line by line, gives back its fields: a new
      changelist of the workspace, owned by the user, with the fixed
      description; the text ends with a blank line. */
  lemma ChangeSpecLines(workspace: string, user: string)
    requires NoLineBreak(workspace) && NoLineBreak(user)
    ensures SplitLines(ChangeSpec(workspace, user)) == ChangeSpecFields(workspace, user)
  {
    assert NoLineBreak("\tM-Build generated changelist.");
    NoLineBreakAppend("Client: ", workspace);
    NoLineBreakAppend("User: ", user);
    SplitLinesUnlines(ChangeSpecFields(workspace, user));
  }
}
