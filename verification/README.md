# p4 command wrapper: a Dafny model

This project models `P4Command` and `_view_escape` from `mbuild/src/p4/p4_command.py`.
`P4Command` is a thin wrapper around the Perforce `p4` command-line client. It builds argument lists and stdin specs, runs `p4`, and parses its text replies into values or errors. The model covers:

- **View escaping** (`_view_escape`). This rewrites `@ # * %` and space as `%` plus the lowercase hex of the code point. A path without those characters is returned as it is. The model has the method, a specification function `Escaped`, and a decoder `Unescape` with a proved round trip.
- **Rendered texts.** These are the temporary branch name `user-workspace-temp-changelist`, the View field (one tab-indented `escaped-src escaped-dest` line per copy, in input order), and the branch and changelist specs fed to `p4 branch -i` and `p4 change -i`.
- **Response parsing.** The `where` reply is split into three space-separated fields, and all trailing newlines are stripped from the third. The `change -i` reply is matched against `Change <digits> created.`. The file path of each `opened` line is everything before its first `#`.
- **The checked command sequences** `where`, `treerevert`, `merge_changelists`, `bulk_copy` and `get_changelist_number`, plus the unchecked single-command wrappers `add`, `edit`, `reopen`, `revert` and `copy`.

The `p4` process is replaced by an oracle. A `P4Command` object holds a constant `script: nat -> Response`, and the n-th command it issues receives `script(n)`. The object also holds a `log` of every `Invocation` (arguments and stdin), in order. Each checked operation is specified in module `Commands` by a pure trace function. That function gives the commands issued, in order, and the result or error. Each class method's `ensures` ties `log` and the method's return value to that function. Lemmas then state what the traces promise:

- validation happens before any command;
- commands come in a fixed order;
- the sequence stops at the first failure;
- the temporary branch is always deleted once it has been created;
- one rule decides which error surfaces.

Module layout: `Outcomes` (Option and Result), `Strings` (the Python string operations the source relies on), `ViewEscaper`, `Specs` (rendering), `Responses` (parsing), `Commands` (argument lists, error kinds, traces) and `P4Client` (the class).

Some of the code's behaviour may be unexpected. The model follows the code:

- In `bulk_copy` the delete's `raise` sits inside `finally`. So when both the copy and the delete fail, the delete failure is the error that surfaces and the copy failure is lost. It does not work the other way round.
- `where` strips every trailing `'\n'` from the third field (`rstrip`), not just one. `split(' ')` splits on single spaces and keeps empty fields. Output without exactly two spaces raises the unpacking `ValueError`.
- `re.match` is anchored at the start of the output only. Its final `.` matches any character except a newline, so `Change 5 created` followed directly by `'\n'` does not match.
- A non-zero return code from `p4 change -i` raises `NameError`, because `p4Error` (line 208) is not defined. The model names this error kind `ChangeNameError`.
- `merge_changelists` accepts the empty string as an id, because `all([])` is true. An empty line in the `opened` output becomes an empty path argument to `reopen`.
- The temporary branch name joins user, workspace and changelist with hyphens, and user and workspace names may themselves hold hyphens. So user `a-b` in workspace `c` and user `a` in workspace `b-c` use the same temporary branch for the same changelist (`BranchNameHyphenCollision`). Only the changelist is always recoverable from the name (`BranchNameSeparatesChangelists`).
- `_view_escape` does not escape tabs or line breaks. `ViewRoundTrip` therefore reads the View text back only for paths without line breaks.

## Model

| member | source | states |
|---|---|---|
| `ViewEscaper.Escaped` | mbuild/src/p4/p4_command.py:25-30 | the specification of the escaping loop: each input character, in order, replaced by its `EscapeChar` text; its properties are the `Escaped*` and `UnescapeEscaped` lemmas below |
| `ViewEscaper.ViewEscape` | mbuild/src/p4/p4_command.py:18-32 | the result is `Escaped(s)`, the character-by-character escaping, and it is `s` itself when `s` has no bad character |
| `ViewEscaper.EscapeChar` | mbuild/src/p4/p4_command.py:26-30 | a bad character becomes `%` and two hex digits whose value is its code point; any other character is copied |
| `ViewEscaper.EscapeTable` | mbuild/src/p4/p4_command.py:20-28 | the five escapes are exactly `%40 %23 %2a %25 %20` (lowercase, unpadded `hex()`) |
| `ViewEscaper.EscapedIdentity` | mbuild/src/p4/p4_command.py:20-32 | escaping leaves `s` unchanged if and only if `s` has none of `@ # * %` or space, so the fast path agrees with the loop |
| `ViewEscaper.EscapedLength` | mbuild/src/p4/p4_command.py:25-30 | the output is the input's length plus two per bad character |
| `ViewEscaper.EscapedAppend` | mbuild/src/p4/p4_command.py:25-30 | escaping works piecewise and keeps order: `Escaped(a + b) == Escaped(a) + Escaped(b)` |
| `ViewEscaper.EscapedIsClean` | mbuild/src/p4/p4_command.py:25-30 | the output holds no `@ # *` or space; every `%` is followed by two hex digits; every other character comes from the input |
| `ViewEscaper.UnescapeEscaped` | mbuild/src/p4/p4_command.py:25-30 | decoding the `%xx` escapes gives the input back |
| `ViewEscaper.EscapedInjective` | mbuild/src/p4/p4_command.py:18-32 | two paths with the same escaped form are equal |
| `Specs.BranchName` | mbuild/src/p4/p4_command.py:132 | the temporary branch name: user, `-`, workspace, `-temp-`, changelist; `BranchNameSeparatesChangelists` and `BranchNameHyphenCollision` say when two names coincide |
| `Specs.BranchNameSeparatesChangelists` | mbuild/src/p4/p4_command.py:132 | for one user and workspace, different changelists get different temporary branch names |
| `Specs.BranchNameHyphenCollision` | mbuild/src/p4/p4_command.py:132 | user `a-b` with workspace `c` and user `a` with workspace `b-c` get the same temporary branch name for any changelist, so the name does not separate user/workspace pairs |
| `Specs.View` | mbuild/src/p4/p4_command.py:135 | the View text: for each copy in input order, a tab, the escaped source, a space, the escaped destination and a newline; `ViewRoundTrip` reads it back |
| `Specs.RenderView` | mbuild/src/p4/p4_command.py:135 | the loop over the copies, calling `ViewEscape` on each path, builds exactly `View(copies)` |
| `Specs.ViewAppend` | mbuild/src/p4/p4_command.py:135 | the View text of a list of copies is the concatenation of its parts' View texts, in input order |
| `Specs.ViewRoundTrip` | mbuild/src/p4/p4_command.py:135 | the View text splits into one line per copy, in order, and reads back as exactly the copies when no path holds a line break |
| `Specs.BranchSpec` | mbuild/src/p4/p4_command.py:136-148 | the `branch -i` stdin: the `Branch:`, `Owner:`, `Description:`, `Options: unlocked` and `View:` lines, the View text, and a closing newline; laid out line by line in `BranchSpecLayout` |
| `Specs.BranchSpecLayout` | mbuild/src/p4/p4_command.py:136-148 | the branch spec is the fixed field lines (`Branch: name`, `Owner: user`, description, `Options: unlocked`, `View:`), then one View line per copy, then a closing blank line |
| `Specs.ChangeSpec` | mbuild/src/p4/p4_command.py:192-204 | the `change -i` stdin: a new change of the workspace owned by the user with the fixed description; read back line by line in `ChangeSpecLines` |
| `Specs.ChangeSpecLines` | mbuild/src/p4/p4_command.py:192-204 | the changelist spec reads line by line as `Change: new`, `Client: workspace`, `User: user`, `Status: new` and the fixed description, separated by blank lines |
| `Strings.SplitOn` | mbuild/src/p4/p4_command.py:185 | `split(' ')` yields one more field than there are separators, and no field holds a separator |
| `Strings.SplitOnJoins` | mbuild/src/p4/p4_command.py:185 | joining the fields of `split(sep)` with `sep` gives the input back |
| `Strings.RStrip` | mbuild/src/p4/p4_command.py:188 | `rstrip('\n')` gives a prefix that does not end in `'\n'`, and everything removed is `'\n'` |
| `Strings.Before` | mbuild/src/p4/p4_command.py:104 | `partition('#')[0]` is the prefix before the first `#`: it holds no `#`, and it is the whole line or is followed by `#` |
| `Strings.SplitLines` | mbuild/src/p4/p4_command.py:103 | the lines `splitlines()` yields hold no line break |
| `Strings.SplitLinesCons` | mbuild/src/p4/p4_command.py:103 | a break-free line ended by `'\n'`, by `"\r\n"`, or by a `'\r'` not followed by `'\n'` is split off as one line with its break dropped |
| `Strings.SplitLinesOneLine` | mbuild/src/p4/p4_command.py:103 | break-free text is one line, or no line at all when it is empty, so a last line without a terminator is kept |
| `Strings.SplitLinesUnlines` | mbuild/src/p4/p4_command.py:103 | `splitlines()` of newline-terminated lines gives those lines back |
| `Responses.ParseWhere` | mbuild/src/p4/p4_command.py:185-188 | the unpacking of `where` output: exactly three space-separated fields, trailing newlines stripped from the third, otherwise the unpacking failure; characterised by `ParseWhereAccepts`, `ParseWhereFields` and `ParseWhereOf` |
| `Responses.ParseWhereAccepts` | mbuild/src/p4/p4_command.py:185 | the three-way unpacking succeeds exactly when the output holds two spaces |
| `Responses.ParseWhereFields` | mbuild/src/p4/p4_command.py:185-188 | the parsed names are the output's space-free fields in order; the local name lost only its trailing newlines and does not end in one |
| `Responses.ParseWhereOf` | mbuild/src/p4/p4_command.py:185-188 | three space-free names joined by spaces parse back, with trailing newlines stripped from the last |
| `Responses.MatchChangeCreated` | mbuild/src/p4/p4_command.py:210-213 | the start-anchored match of `Change `, a maximal run of digits, ` created` and one non-newline character, returning the digits; characterised by `MatchChangeCreatedIff` |
| `Responses.MatchChangeCreatedIff` | mbuild/src/p4/p4_command.py:210-213 | digits `d` are returned if and only if the output starts with `Change d created` and one more character that is not a newline, and `d` is a non-empty run of digits |
| `Responses.MatchChangeCreatedOf` | mbuild/src/p4/p4_command.py:210-213 | `Change `, a non-empty digit run, ` created`, any character but a newline and any further text give back exactly that digit run |
| `Responses.MatchChangeCreatedExample` | mbuild/src/p4/p4_command.py:210-213 | `Change 137 created.` followed by a newline yields `137` |
| `Responses.OpenedFiles` | mbuild/src/p4/p4_command.py:102-104 | one path per `splitlines()` line of the `opened` output, in order, each the text before the line's first `#` |
| `Responses.CollectOpenedFiles` | mbuild/src/p4/p4_command.py:102-104 | the loop yields one path per `opened` line, in line order, each the line's text before its first `#` |
| `Responses.OpenedFilesOfListing` | mbuild/src/p4/p4_command.py:102-104 | a listing of `path#rest` lines yields exactly its paths, in order |
| `Strings.AllDigits` | mbuild/src/p4/p4_command.py:93-95 | the `all(c.isdigit() ...)` test: every character is an ASCII digit, so the empty string passes |
| `Commands.ValidCopies` | mbuild/src/p4/p4_command.py:125-127 | the argument check of `bulk_copy`: every copy is a pair whose source and destination both start with `//` |
| `Commands.WhereOutcome` | mbuild/src/p4/p4_command.py:181-188 | `where` given the response: the failure naming the path on a non-zero return code, else the parsed names or the unpacking failure; see `WhereOutcomeCases` |
| `Commands.WhereOutcomeCases` | mbuild/src/p4/p4_command.py:181-188 | a non-zero return code raises an error naming the path; otherwise the call succeeds exactly when the output has two spaces, and fails with the unpacking error when it does not |
| `Commands.WhereExample` | mbuild/src/p4/p4_command.py:181-188 | `//depot/f.txt //ws/f.txt /home/u/ws/f.txt` plus a newline yields the three names without the newline |
| `Commands.ChangeOutcome` | mbuild/src/p4/p4_command.py:206-213 | `get_changelist_number` given the response: `NameError` on a non-zero return code, the unparsed-output error when the match fails, else the digits; see `ChangeOutcomeMeaning` |
| `Commands.ChangeOutcomeMeaning` | mbuild/src/p4/p4_command.py:206-213 | a number is returned exactly when the return code is zero and the output matches; a non-zero return code gives the `NameError`; a zero return code with unmatched output gives the unparsed-output error carrying stdout and stderr |
| `Commands.MergeTrace` | mbuild/src/p4/p4_command.py:91-115 | the commands `merge_changelists` issues and its result, step by step, for a given scripted `p4`; see the `Merge*` lemmas |
| `Commands.MergeValidatesFirst` | mbuild/src/p4/p4_command.py:91-96 | a non-digit in either id issues no command and raises the validation error; all-digit ids, the empty one included, always issue a command |
| `Commands.MergeOrder` | mbuild/src/p4/p4_command.py:97-115 | the first command is `opened -c merge`; `reopen -c keep` with the files follows only when the file list is non-empty; then `changelist -d merge`, whose failure raises the delete error naming `merge`; no command follows a failing one |
| `Commands.MergeSucceedsIff` | mbuild/src/p4/p4_command.py:97-115 | the merge returns normally exactly when every command it issued succeeded and the last one deleted `merge` |
| `Commands.MergeReopensListedFiles` | mbuild/src/p4/p4_command.py:97-115 | when `opened` lists `path#rest` lines, exactly those paths are reopened into `keep` in one command, in listing order, and then `merge` is deleted |
| `Commands.BulkCopyTrace` | mbuild/src/p4/p4_command.py:123-163 | the commands `bulk_copy` issues and its result, with the `finally` delete always issued after the copy and its failure taking priority; see the `BulkCopy*` lemmas |
| `Commands.BulkCopyValidatesFirst` | mbuild/src/p4/p4_command.py:123-127 | invalid copies (not pairs, or a path not starting with `//`) issue nothing; valid ones start with `branch -i` |
| `Commands.BulkCopyCleansUp` | mbuild/src/p4/p4_command.py:150-163 | a failed `branch -i` is the only command and its error names the branch; otherwise `copy -c cl -b name` and then exactly one `branch -d name` follow, whatever the copy returned |
| `Commands.BulkCopyErrorPriority` | mbuild/src/p4/p4_command.py:154-163 | the call succeeds exactly when all three commands succeed; a delete failure surfaces even over a copy failure; a copy failure surfaces when the delete succeeded |
| `Commands.BulkCopyBranchSpec` | mbuild/src/p4/p4_command.py:132-151 | the `branch -i` stdin is the spec of the branch named after user, workspace and changelist, with the copies' View lines in input order, which read back as the copies |
| `Commands.TreeRevertTrace` | mbuild/src/p4/p4_command.py:82-89 | the commands `treerevert` issues and its result: `where`, then one `revert` of the files the walk finds under the local name; see `TreeRevertReverts` |
| `Commands.TreeRevertReverts` | mbuild/src/p4/p4_command.py:82-89 | `where` comes first; if it fails (non-zero return code or output that does not unpack), it is the only command and its error surfaces; otherwise one `revert` lists every file found under the local name it gave |
| `P4Client.P4Command.constructor` | mbuild/src/p4/p4_command.py:36-57 | stores user and workspace; the run environment is the given environment with `P4USER`, `P4PASSWD`, `P4PORT` and `P4CLIENT` overwritten; the log starts empty |
| `P4Client.P4Command.P4` | mbuild/src/p4/p4_command.py:165-179 | appends the invocation to the log and returns the scripted response for its position |
| `P4Client.P4Command.Add` | mbuild/src/p4/p4_command.py:59-63 | issues exactly `add -c changelist -I path` and ignores the result |
| `P4Client.P4Command.Edit` | mbuild/src/p4/p4_command.py:65-68 | issues exactly `edit -c changelist path` and ignores the result |
| `P4Client.P4Command.Reopen` | mbuild/src/p4/p4_command.py:70-75 | issues exactly `reopen -c changelist -t filetype path` and ignores the result |
| `P4Client.P4Command.Revert` | mbuild/src/p4/p4_command.py:77-80 | issues exactly `revert path` and ignores the result |
| `P4Client.P4Command.Copy` | mbuild/src/p4/p4_command.py:117-121 | issues exactly `copy -c changelist source dest` and ignores the result |
| `P4Client.P4Command.Where` | mbuild/src/p4/p4_command.py:181-188 | issues `where path` and returns `WhereOutcome` of its response |
| `P4Client.P4Command.TreeRevert` | mbuild/src/p4/p4_command.py:82-89 | the log grows by exactly the commands of `TreeRevertTrace`, and the result is that trace's |
| `P4Client.P4Command.MergeChangelists` | mbuild/src/p4/p4_command.py:91-115 | the log grows by exactly the commands of `MergeTrace`, and the result is that trace's |
| `P4Client.P4Command.BulkCopy` | mbuild/src/p4/p4_command.py:123-163 | the log grows by exactly the commands of `BulkCopyTrace`, and the result is that trace's |
| `P4Client.P4Command.GetChangelistNumber` | mbuild/src/p4/p4_command.py:190-213 | issues `change -i` with the changelist spec on stdin and returns `ChangeOutcome` of its response |

## Left out

- Process execution in `_p4` (`subprocess.Popen`, `communicate`) is left out. The oracle `script` and the `log` stand in for it. The environment is stored but has no modelled effect.
- The `loud` flag and its printing of the command line are left out. So is the `print` in `treerevert`. Both are output only.
- Locating the binary with `which('p4')`, the `NoP4BinaryError` raised when it is missing, and the `sys.path` set-up are left out. These are environment lookups outside this file.
- `os.walk` in `treerevert` is a function parameter `walk` from a local directory to the files under it. The filesystem itself is not modelled.
- The wording of the error messages is not modelled. Each error kind carries the identifiers its message names: path, changelist, branch name, file count, first file, and stderr.
- The `isinstance` assertions are guaranteed by the Dafny types. The other `assert`s are modelled as the `InvalidArgument` error, so the model assumes Python runs without `-O`.
- `P4Command._changelist_number` is set in the constructor and never read, so it is left out.
- Python 2 `str` is a byte string. The model uses Dafny `char`. The five escaped characters are ASCII, so their escapes are the same either way.
- The `ViewRoundTrip` and `BulkCopyBranchSpec` read-back statements assume that no path holds a line break. The source does not escape line breaks.
