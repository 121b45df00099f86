/** Parsing of the standard output of `p4 where`, `p4 change -i` and `p4 opened`. */
module Responses {

  import opened Outcomes
  import opened Strings

  /** The three names `where` returns: depot, client (p4 syntax) and local file. */
  datatype WhereNames = WhereNames(depot: string, clientP4: string, clientFs: string)

  /** The `where` reply split on single spaces into exactly three names, the
      last with its trailing newlines stripped. `None` is the unpacking
      `ValueError`: the reply did not split into exactly three fields. */
  function ParseWhere(out: string): Option<WhereNames> {
    var fields := SplitOn(out, ' ');
    if |fields| != 3 then None
    else Some(WhereNames(fields[0], fields[1], RStrip(fields[2], '\n')))
  }

  /** `where` output parses exactly when it holds exactly two spaces. */
  lemma ParseWhereAccepts(out: string)
    ensures ParseWhere(out).Some? <==> Count(out, ' ') == 2
  {
  }

  /** Parsed `where` output is the depot name, a space, the client name, a
      space, and the local name followed by nothing but newlines, which are all
      dropped. */
  lemma ParseWhereFields(out: string, w: WhereNames)
    requires ParseWhere(out) == Some(w)
    ensures ' ' !in w.depot && ' ' !in w.clientP4 && ' ' !in w.clientFs
    ensures |w.depot| + |w.clientP4| + 2 + |w.clientFs| <= |out|
    ensures out[..|w.depot| + |w.clientP4| + 2] == w.depot + " " + w.clientP4 + " "
    ensures out[|w.depot| + |w.clientP4| + 2..][..|w.clientFs|] == w.clientFs
    ensures forall i :: |w.depot| + |w.clientP4| + 2 + |w.clientFs| <= i < |out| ==> out[i] == '\n'
    ensures w.clientFs == [] || w.clientFs[|w.clientFs| - 1] != '\n'
  {
    var fields := SplitOn(out, ' ');
    var a, b, c := fields[0], fields[1], fields[2];
    SplitOnJoins(out, ' ');
    assert fields[1..][1..] == [c];
    assert JoinOn(fields[1..], ' ') == b + [' '] + c;
    assert out == a + [' '] + (b + [' '] + c);
    var k := |a| + 1 + |b| + 1;
    assert out[..k] == a + " " + b + " ";
    assert out[k..] == c;
    assert ' ' !in w.clientFs by {
      assert forall i :: 0 <= i < |w.clientFs| ==> w.clientFs[i] == c[i];
    }
  }

  /** Conversely, three space-free names joined by spaces parse back, with the
      trailing newlines of the last one stripped. */
  lemma ParseWhereOf(depot: string, clientP4: string, clientFs: string)
    requires ' ' !in depot && ' ' !in clientP4 && ' ' !in clientFs
    ensures ParseWhere(depot + " " + clientP4 + " " + clientFs)
            == Some(WhereNames(depot, clientP4, RStrip(clientFs, '\n')))
  {
    SplitOnFirst(clientP4, ' ', clientFs);
    SplitOnFirst(depot, ' ', clientP4 + " " + clientFs);
    assert depot + " " + clientP4 + " " + clientFs == depot + [' '] + (clientP4 + [' '] + clientFs);
    SplitOnNone(clientFs, ' ');
  }

  lemma {:induction false} SplitOnNone(s: string, sep: char)
    requires sep !in s
    ensures SplitOn(s, sep) == [s]
    decreases |s|
  {
    if s != [] {
      SplitOnNone(s[1..], sep);
      assert [s[0]] + s[1..] == s;
    }
  }

  const ChangePrefix := "Change "
  const CreatedInfix := " created"

  /** The digits of the `Change <digits> created<any>` match. The match is
      anchored at the start only; `[0-9]+` is greedy, and the only character
      that may follow it is a space, so it takes the whole run of digits; `.`
      is any character except '\n'. */
  function MatchChangeCreated(out: string): Option<string> {
    if |out| < |ChangePrefix| || out[..|ChangePrefix|] != ChangePrefix then None
    else
      var rest := out[|ChangePrefix|..];
      var n := DigitRun(rest);
      var tail := rest[n..];
      if 0 < n && |tail| > |CreatedInfix| && tail[..|CreatedInfix|] == CreatedInfix
         && tail[|CreatedInfix|] != '\n'
      then Some(rest[..n])
      else None
  }

  /** `Change <digits> created`, any character but a newline, and any text
      after it give back the digits. */
  lemma MatchChangeCreatedOf(digits: string, c: char, tail: string)
    requires 0 < |digits| && AllDigits(digits) && c != '\n'
    ensures MatchChangeCreated(ChangePrefix + digits + CreatedInfix + [c] + tail) == Some(digits)
  {
    var out := ChangePrefix + digits + CreatedInfix + [c] + tail;
    assert out[..7] == ChangePrefix;
    var rest := out[7..];
    assert rest == digits + (CreatedInfix + [c] + tail);
    DigitRunOf(digits, CreatedInfix + [c] + tail);
    assert rest[|digits|..] == CreatedInfix + [c] + tail;
  }

  /** The number is returned exactly when the output begins `Change `, the
      digits, ` created` and one more character that is not a newline. */
  lemma MatchChangeCreatedIff(out: string, digits: string)
    ensures MatchChangeCreated(out) == Some(digits) <==>
      (0 < |digits| && AllDigits(digits)
       && |digits| + 15 < |out|
       && out[..|digits| + 15] == ChangePrefix + digits + CreatedInfix
       && out[|digits| + 15] != '\n')
  {
    var k := |digits| + 15;
    if 0 < |digits| && AllDigits(digits) && k < |out|
       && out[..k] == ChangePrefix + digits + CreatedInfix && out[k] != '\n'
    {
      assert out == ChangePrefix + digits + CreatedInfix + [out[k]] + out[k + 1..] by {
        assert out == out[..k] + [out[k]] + out[k + 1..];
      }
      MatchChangeCreatedOf(digits, out[k], out[k + 1..]);
    }
    if MatchChangeCreated(out) == Some(digits) {
      var rest := out[7..];
      var n := DigitRun(rest);
      assert digits == rest[..n];
      assert out[..k] == out[..7] + rest[..n] + rest[n..][..8];
    }
  }

  /** `Change 137 created.` followed by a newline gives `137`. */
  lemma MatchChangeCreatedExample()
    ensures MatchChangeCreated(ChangePrefix + "137" + CreatedInfix + ".\n") == Some("137")
  {
    MatchChangeCreatedOf("137", '.', "\n");
    assert ChangePrefix + "137" + CreatedInfix + ".\n" == ChangePrefix + "137" + CreatedInfix + ['.'] + "\n";
  }

  /** The file path of one `opened` line: `line.partition('#')[0]`. */
  function OpenedPath(line: string): string {
    Before(line, '#')
  }

  /** The file list `merge_changelists` builds from `p4 opened` output: one
      entry per line, in line order. */
  function OpenedFiles(listing: string): (files: seq<string>)
    ensures |files| == |SplitLines(listing)|
    ensures forall k :: 0 <= k < |files| ==> files[k] == OpenedPath(SplitLines(listing)[k])
  {
    var lines := SplitLines(listing);
    seq(|lines|, k requires 0 <= k < |lines| => OpenedPath(lines[k]))
  }

  /** The loop of `merge_changelists` that collects the file list. */
  method CollectOpenedFiles(listing: string) returns (files: seq<string>)
    ensures files == OpenedFiles(listing)
    ensures forall k :: 0 <= k < |files| ==> '#' !in files[k] && NoLineBreak(files[k])
  {
    var lines := SplitLines(listing);
    files := [];
    for i := 0 to |lines|
      invariant |files| == i
      invariant forall k :: 0 <= k < i ==> files[k] == OpenedPath(lines[k])
    {
      files := files + [OpenedPath(lines[i])];
    }
    forall k | 0 <= k < |files| ensures NoLineBreak(files[k]) {
      assert files[k] == lines[k][..|files[k]|];
      assert NoLineBreak(lines[k]);
    }
  }

  /** One `opened` line: a depot path, `#`, and the rest (revision and action). */
  function OpenedLine(path: string, rev: string): string {
    path + "#" + rev
  }

  /** An `opened` listing: one '\n'-terminated `path#rest` line per file. */
  function OpenedListing(paths: seq<string>, revs: seq<string>): string
    requires |paths| == |revs|
  {
    Unlines(seq(|paths|, k requires 0 <= k < |paths| => OpenedLine(paths[k], revs[k])))
  }

  /** A listing of `path#rest` lines gives back exactly its paths, in order. */
  lemma OpenedFilesOfListing(paths: seq<string>, revs: seq<string>)
    requires |paths| == |revs|
    requires forall k :: 0 <= k < |paths| ==> '#' !in paths[k] && NoLineBreak(paths[k]) && NoLineBreak(revs[k])
    ensures OpenedFiles(OpenedListing(paths, revs)) == paths
  {
    var lines := seq(|paths|, k requires 0 <= k < |paths| => OpenedLine(paths[k], revs[k]));
    forall k | 0 <= k < |lines| ensures NoLineBreak(lines[k]) {
      forall i | 0 <= i < |lines[k]| ensures !IsLineBreak(lines[k][i]) {
        if i < |paths[k]| {
          assert lines[k][i] == paths[k][i];
        } else if i > |paths[k]| {
          assert lines[k][i] == revs[k][i - |paths[k]| - 1];
        }
      }
    }
    SplitLinesUnlines(lines);
    forall k | 0 <= k < |paths| ensures OpenedPath(lines[k]) == paths[k] {
      BeforeFirst(paths[k], '#', revs[k]);
    }
  }
}
