# arxiv_latex_cleaner: a verified model of its cleaning core

arxiv_latex_cleaner prepares a LaTeX project for upload to arXiv. It copies the
project into a new folder and on the way:

- removes the comments from every TeX file;
- removes the commands a user lists (such as `\todo{...}`);
- drops the TeX files that no other TeX file refers to;
- sorts the other files into groups (TeX or not, in the root folder or not, figures,
  files to delete).

This Dafny project models that core and proves properties of the model. It has six
modules, one per file:

- `Wrappers` (wrappers.dfy): an `Option` type.
- `Text` (text.dfy): the Python string and list operations the core relies on.
  - `s.find`, `s.lstrip`, `s.count`.
  - `''.join` and `'\n'.join`, and `s.split('\n')`.
  - Order-preserving list comprehensions.
  - Subsequences, used to state that filters keep order.
- `Paths` (paths.dfy): `os.path.splitext` with POSIX separators.
- `Stripping` (stripping.dfy): the three fixed regular expressions and the
  `_remove_comments` pipeline.
  - `_remove_comments_inline` uses the lookbehind `(?<!\\)%`.
  - `_remove_environment` matches `\begin{env}[\s\S]*?\end{env}`.
  - `_remove_command` matches a brace-balanced argument.
  - Each expression is written as a scanner over strings. Lemmas prove which span
    each scanner deletes at the front of the text, that text in which no match starts
    is kept in order, and that the text is unchanged exactly when nothing matches.
  - `_remove_comments` is a method with the source's loop over
    `commands_to_delete`.
- `Filters` (filters.dfy): the pattern filters and the list arithmetic of
  `_split_all_files`.
  - `_keep_pattern` is a method with the source's loop.
  - Regular-expression matching of file names is a parameter (`Matcher`), so every
    property holds for any matcher.
- `Pruning` (pruning.dfy): the loop of `_keep_only_referenced_tex` and
  `_add_root_tex_files`.
  - The loop is a method with its nested loops over sets.
  - The function `Prune` specifies it.
  - The `splits` dictionary is the class `Splits`. Its entry `tex_to_copy` is a
    field the two operations update in place.

Where the documented behaviour and the code differ, the model follows the code:

- **Inline comment, kept percent.** A line is cut just after its first unescaped
  `%`, and the `%` stays: `"x=1 % y"` becomes `"x=1 %\n"`.
- **Inline comment, spaces before tabs.** Leading spaces are stripped before leading
  tabs. So `"\t % note"` is not a whole-line comment and becomes `"\t %\n"`.
- **No trailing element dropped.** `_remove_comments` says it removes the extra
  element after the final `split('\n')`, but it does not. Joining its result with
  newlines always gives back the cleaned text, and there is always one more line
  than there are newlines.
- **Pruning is a greatest fixed point.** It starts from ALL TeX files and removes
  files that no kept file refers to. It does not grow the set from the root files.
  So two files below the root that refer only to each other are both kept
  (`Pruning.MutualReferencesKept`). Every file reachable from a root file is kept,
  but not only those.
- **Three levels of braces.** A command's argument may nest three levels of braces,
  counting its outer pair.

## Model

All source paths are in `arxiv_latex_cleaner/arxiv_latex_cleaner.py`.

| member | source | states |
|---|---|---|
| Stripping.FindUnescapedPercent | arxiv_latex_cleaner/arxiv_latex_cleaner.py:122 | the search returns the first `%` at or after the start that no backslash immediately precedes, or none when there is no such `%` |
| Stripping.CutAtComment | arxiv_latex_cleaner/arxiv_latex_cleaner.py:122-126 | with an unescaped `%`, the line up to and including the first one, then a newline; without one, the line unchanged |
| Stripping.RemoveCommentsInline | arxiv_latex_cleaner/arxiv_latex_cleaner.py:116-126 | the four cases in order: `auto-ignore` keeps the line; a line whose first character after leading spaces, then tabs, is `%` becomes empty; otherwise the line is cut after its first unescaped `%`; a line with no unescaped `%` is unchanged |
| Stripping.WholeLineCommentPercent | arxiv_latex_cleaner/arxiv_latex_cleaner.py:120-122 | the `%` that makes a line a whole-line comment is itself an unescaped `%`, since only spaces and tabs precede it |
| Stripping.InlineCleanLineUnchanged | arxiv_latex_cleaner/arxiv_latex_cleaner.py:116-126 | a line with no unescaped `%` is returned unchanged, so a line whose only `%` is escaped, such as `100\% done`, is kept as is |
| Stripping.InlineTruncatesAfterPercent | arxiv_latex_cleaner/arxiv_latex_cleaner.py:122-124 | `"x=1 % y"` becomes `"x=1 %\n"`: the `%` is kept and a newline is added |
| Stripping.InlineKeepsEscapedPercent | arxiv_latex_cleaner/arxiv_latex_cleaner.py:122-126 | an escaped `\%` is not a comment: `"100\% done"` is unchanged |
| Stripping.InlineWholeLine | arxiv_latex_cleaner/arxiv_latex_cleaner.py:120-121 | an indented whole-line comment becomes the empty string, its newline included |
| Stripping.InlineTabThenSpace | arxiv_latex_cleaner/arxiv_latex_cleaner.py:120-124 | a tab then a space before `%` is not a whole-line comment, because spaces are stripped before tabs |
| Stripping.RemoveEnvironment | arxiv_latex_cleaner/arxiv_latex_cleaner.py:109-113 | the result is never longer than the text and is a subsequence of it: text is only deleted, and what remains keeps its order |
| Stripping.RemoveEnvironmentUnchanged | arxiv_latex_cleaner/arxiv_latex_cleaner.py:109-113 | the text is unchanged if and only if it holds no begin marker with an end marker after it |
| Stripping.RemoveEnvironmentPassThrough | arxiv_latex_cleaner/arxiv_latex_cleaner.py:109-113 | text in which no begin marker starts is copied through, in order, ahead of the cleaned rest: the scan is leftmost first and keeps everything outside the deleted spans |
| Stripping.RemoveEnvironmentFirstSpan | arxiv_latex_cleaner/arxiv_latex_cleaner.py:111-113 | a leading begin marker is deleted together with everything up to the FIRST end marker after it (the shortest match); scanning continues after that end marker |
| Stripping.ScanArgumentCorrect | arxiv_latex_cleaner/arxiv_latex_cleaner.py:105 | the depth-counting scan stops exactly where the depth first returns to 0, provided it never exceeds 3 on the way |
| Stripping.ArgumentLengthCorrect | arxiv_latex_cleaner/arxiv_latex_cleaner.py:105 | the scanner returns `n` if and only if the first `n` characters form a brace group that the argument pattern accepts: balanced and nested at most 3 deep |
| Stripping.NestedArgument | arxiv_latex_cleaner/arxiv_latex_cleaner.py:105 | a nested group such as `{x{y}z}` is an accepted argument |
| Stripping.RemoveCommand | arxiv_latex_cleaner/arxiv_latex_cleaner.py:99-106 | the result is never longer than the text and is a subsequence of it |
| Stripping.RemoveCommandUnchanged | arxiv_latex_cleaner/arxiv_latex_cleaner.py:99-106 | the text is unchanged if and only if no `\command` followed by an accepted argument occurs in it, so unbalanced or too-deep arguments are left alone |
| Stripping.RemoveCommandPassThrough | arxiv_latex_cleaner/arxiv_latex_cleaner.py:99-106 | text in which no `\command` with an accepted argument starts is copied through, in order, ahead of the cleaned rest, even when it holds other commands |
| Stripping.RemoveCommandDeletes | arxiv_latex_cleaner/arxiv_latex_cleaner.py:105-106 | `\command` followed by an accepted argument is deleted and nothing is put in its place |
| Stripping.RemoveNestedNote | arxiv_latex_cleaner/arxiv_latex_cleaner.py:105-106 | `"a \note{x{y}z} b"` with command `note` becomes `"a  b"` |
| Stripping.RemoveNoteAfterTextbf | arxiv_latex_cleaner/arxiv_latex_cleaner.py:105-106 | `"\textbf{x} \note{y}"` with command `note` becomes `"\textbf{x} "`: another command ahead of the match survives |
| Stripping.CleanLines | arxiv_latex_cleaner/arxiv_latex_cleaner.py:150 | one cleaned line per input line, each the inline cleaning of the line at the same index |
| Stripping.RemoveComments | arxiv_latex_cleaner/arxiv_latex_cleaner.py:148-156 | the result is the split of the text after these stages, in this order: line cleaning, joining, comment-environment removal, then each listed command in list order; joining the result with newlines gives back that text, and it has one more line than the text has newlines |
| Stripping.StripUnchanged | arxiv_latex_cleaner/arxiv_latex_cleaner.py:148-155 | content without an unescaped `%`, without a complete comment environment and without a removable command comes out of the stages as the plain join of its lines |
| Stripping.CommandsUnchanged | arxiv_latex_cleaner/arxiv_latex_cleaner.py:152-153 | the command loop leaves text alone when none of the commands occurs removably in it |
| Text.JoinSplitLines | arxiv_latex_cleaner/arxiv_latex_cleaner.py:156 | joining the pieces of `split('\n')` with newlines gives back the text |
| Text.SplitLines | arxiv_latex_cleaner/arxiv_latex_cleaner.py:156 | `split('\n')` gives one more piece than there are newlines, and no piece contains a newline |
| Text.SplitJoinLines | arxiv_latex_cleaner/arxiv_latex_cleaner.py:156 | splitting newline-free lines joined with newlines gives back the lines |
| Filters.KeepPattern | arxiv_latex_cleaner/arxiv_latex_cleaner.py:62-68 | the output holds the items some pattern matches, each with its multiplicity, in input order (a subsequence of the input) |
| Filters.RemovePattern | arxiv_latex_cleaner/arxiv_latex_cleaner.py:71-76 | the output holds the items no pattern matches, in input order |
| Filters.KeepRemovePartition | arxiv_latex_cleaner/arxiv_latex_cleaner.py:62-76 | the items kept by `_keep_pattern` and by `_remove_pattern` with the same patterns together make up the input exactly, duplicates included |
| Filters.KeepOnlyReferenced | arxiv_latex_cleaner/arxiv_latex_cleaner.py:232-234 | the names whose extension-stripped form occurs in the contents, in their order and with their multiplicity |
| Filters.SplitAllFiles | arxiv_latex_cleaner/arxiv_latex_cleaner.py:281-301 | files not in the root are the listed files absent from the root listing; the files to copy are those matching no delete or figure pattern; the figures are the files matching a figure pattern; TeX and non-TeX files partition the files to copy, in the root and below it; every list keeps the order of the list it is drawn from |
| Paths.SplitExt | arxiv_latex_cleaner/arxiv_latex_cleaner.py:234 | the two parts concatenate to the path; there is an extension exactly when the final component has a dot after a non-dot character; the extension is one dot followed by no dot and no `/` |
| Paths.StripExt | arxiv_latex_cleaner/arxiv_latex_cleaner.py:234 | the base name is a prefix of the path |
| Paths.SplitExtExamples | arxiv_latex_cleaner/arxiv_latex_cleaner.py:234 | `figs/plot.png` splits into `figs/plot` and `.png`; `.bashrc` has no extension |
| Pruning.StepShrinks | arxiv_latex_cleaner/arxiv_latex_cleaner.py:244-249 | a round keeps the root files and stays within the previous set |
| Pruning.StepMonotone | arxiv_latex_cleaner/arxiv_latex_cleaner.py:244-249 | a round over a larger set keeps at least what a round over a smaller set keeps |
| Pruning.StepPreservesClosed | arxiv_latex_cleaner/arxiv_latex_cleaner.py:244-249 | if the set holds every TeX file its members refer to, so does the next round's set |
| Pruning.Prune | arxiv_latex_cleaner/arxiv_latex_cleaner.py:243-256 | the final set contains the root files, lies within the starting set, is left unchanged by one more round, and has every non-root member referred to by some member |
| Pruning.PruneClosed | arxiv_latex_cleaner/arxiv_latex_cleaner.py:243-256 | every TeX file that a kept file refers to is kept |
| Pruning.PruneGreatest | arxiv_latex_cleaner/arxiv_latex_cleaner.py:243-256 | any set of candidate files whose non-root members are all referred to from within the set is kept whole: the result is the greatest such set |
| Pruning.ChainKept | arxiv_latex_cleaner/arxiv_latex_cleaner.py:243-256 | every file reachable from a root file along a chain of references is kept |
| Pruning.MutualReferencesKept | arxiv_latex_cleaner/arxiv_latex_cleaner.py:243-256 | two non-root files that refer only to each other are both kept |
| Pruning.RoundShrinks | arxiv_latex_cleaner/arxiv_latex_cleaner.py:252-256 | a round that changes the set removes at least one non-root file |
| Pruning.AddIfReferenced | arxiv_latex_cleaner/arxiv_latex_cleaner.py:247-249 | the inner loop adds the file exactly when some file of the previous round's set refers to it, and adds nothing else |
| Pruning.Round | arxiv_latex_cleaner/arxiv_latex_cleaner.py:244-249 | one pass of the nested loops gives the root files plus every file of the previous set that the previous set refers to |
| Pruning.ReferencedTexFiles | arxiv_latex_cleaner/arxiv_latex_cleaner.py:243-256 | the loop ends with the fixed point reached from all TeX files, after at least 1 and at most (number of non-root TeX files) + 1 rounds |
| Pruning.ListOfSet | arxiv_latex_cleaner/arxiv_latex_cleaner.py:253 | `list(referenced)` holds each member of the set exactly once |
| Pruning.Splits.KeepOnlyReferencedTex | arxiv_latex_cleaner/arxiv_latex_cleaner.py:237-256 | `tex_to_copy` is written, without duplicates, with exactly the files of the fixed point |
| Pruning.Splits.AddRootTexFiles | arxiv_latex_cleaner/arxiv_latex_cleaner.py:259-266 | `tex_to_copy` becomes the old list with each missing root TeX file appended in root order |
| Pruning.AddMissingPrefix | arxiv_latex_cleaner/arxiv_latex_cleaner.py:264-266 | entries already in the list keep their order and position |
| Pruning.AddMissingHasRoots | arxiv_latex_cleaner/arxiv_latex_cleaner.py:264-266 | afterwards every root TeX file, and every old entry, is in the list |
| Pruning.AddMissingAppended | arxiv_latex_cleaner/arxiv_latex_cleaner.py:264-266 | only root files that were missing are appended, each once, in root order |
| Pruning.AddMissingPresent | arxiv_latex_cleaner/arxiv_latex_cleaner.py:264-266 | when every root file is already present nothing is appended |
| Pruning.AddMissingIdempotent | arxiv_latex_cleaner/arxiv_latex_cleaner.py:259-266 | a second call changes nothing |
| Pruning.RootsAlreadyKept | arxiv_latex_cleaner/arxiv_latex_cleaner.py:243-266 | a list holding exactly the fixed point already holds every root TeX file, so `_add_root_tex_files` run after `_keep_only_referenced_tex` appends nothing |

## Left out

- File-system work is not modelled: listing and walking folders (`_list_all_files`), copying, reading and writing files, and creating or erasing folders. So `_split_all_files` takes the two listings as inputs.
- Figure resizing with PIL, PDF compression with ghostscript, and the subprocess runs of the pre- and post-commands are not modelled. They are foreign code and I/O.
- `run_arxiv_cleaner` is not modelled: it wires the operations together, parses the JSON configuration and replaces keywords in copied files. The Windows `os.path.join` patch is not modelled either.
- Regular expressions are not modelled in general. The pattern filters take the matcher as a parameter.
- `Stripping.RemoveCommand`, `Stripping.RemoveEnvironment` and `Pruning.Refs` are modelled for names taken literally. A command, environment or file name that holds regular-expression metacharacters (a `.` in a file name matches any character in the source) is treated as plain text.
- `Paths.SplitExt` follows POSIX `os.path.splitext`. Windows separators are not modelled.
- `Pruning.ListOfSet` leaves the order of `list(referenced)` unspecified, as Python's set iteration order is. The contract states only which files are present, each once.
- `Pruning.ReferencedTexFiles` iterates its sets with the `for` loops of the source. The source's iteration order does not change the result, so the model picks members in any order.
- `Pruning.Splits.KeepOnlyReferencedTex` requires an entry in `contents` for every TeX file. The source's dictionary lookup raises `KeyError` otherwise, and its caller always reads every TeX file first.
- `Pruning.Splits.AddRootTexFiles` requires the 'tex_to_copy' entry to exist. The source's lookup raises `KeyError` otherwise, and its caller always runs `_keep_only_referenced_tex`, which writes the entry, just before it (arxiv_latex_cleaner/arxiv_latex_cleaner.py:388-389).
- Python's automatic line endings from `readlines()` are not modelled: lines are strings given as input.
