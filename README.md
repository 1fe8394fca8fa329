# Color Selector build script: version patch, version check and project paths

The build script of the Color Selector repository prepares a build. It deletes the
`bin` and `obj` directories of the ColorSelector and ColorSelectorTestApp projects.
It then writes the version number given on the command line into the
`<AssemblyVersion>` line of each project's `.csproj` file. This project models the
script's text handling and proves what it does:

- `BuildScript.UpdateCsprojAssemblyVersion` is the patcher with the file already
  read. A file is a `seq<string>` of lines as `readlines` returns them, each with its
  trailing `"\n"` where it has one. The version string, a global of the script, is a
  parameter. The result is `MissingTag` when the script prints its warning and
  returns without writing. Otherwise it is `Rewrite(lines)`, the list written back.
  The method keeps the source's loop: every tag line overwrites
  `assemblyVersionLine`, so the last one wins. It is proved equal to the
  specification function `BuildScript.Patch`, which composes `list.index`,
  `list.remove` and `list.insert` exactly as the script does.
- The lemmas about `Patch` show what that composition amounts to. Exactly one
  position is overwritten: the first line equal to the last tag line. The new line
  keeps that line's indentation, everything before its first `<`. The quirk is
  pinned down both ways. When an earlier line is identical to the last tag line,
  the earlier copy is rewritten and the last one is left as it was. A second run
  then rewrites the second copy too. Without such a duplicate, patching is
  idempotent.
- `BuildScript.VersionStringAccepted` is the check `len(versionString.split('.')) != 3`.
  It holds exactly when the string contains two `.` characters. The components may
  be empty or non-numeric.
- `BuildScript.DeriveProjectPaths` builds the four project paths with `\` joins.
  `BuildScript.ParentAndName` cuts a path at its last backslash and is the inverse
  used to state the layout.
- Module `PyBuiltins` states the Python built-ins involved over sequences: substring
  `in`, `index`, `remove`, `insert`, `split`, with `join` and `rindex` as partners.
  Where Python raises `ValueError`, the function requires what the script has
  already established.

## Model

| member | source | states |
|---|---|---|
| `PyBuiltins.ContainsIff` | buildScript.py:29 | the substring test `"<AssemblyVersion>" in line` holds exactly when the tag occurs at some position of the line |
| `PyBuiltins.ContainsFirst` | buildScript.py:29 | a line holding a non-empty pattern holds the pattern's first character (so a tag line holds `<`) |
| `PyBuiltins.ContainsNotShorter` | buildScript.py:29 | a line shorter than the tag never holds it |
| `PyBuiltins.IndexOf` | buildScript.py:38-40 | `text.index(line)` and `line.index("<")` give a position holding the element with no equal element before it |
| `PyBuiltins.IndexOfUnique` | buildScript.py:38 | the first-occurrence position is the only position with no earlier equal element |
| `PyBuiltins.Remove` | buildScript.py:43 | `text.remove(line)` drops exactly the element at the first equal position and keeps the rest in order |
| `PyBuiltins.Insert` | buildScript.py:44 | `text.insert(i, x)` puts `x` at position `i` (at the end when `i` is past it) with the elements before and after unchanged |
| `PyBuiltins.RemoveThenInsert` | buildScript.py:43-44 | removing the first equal element and inserting at its index equals overwriting that one position |
| `PyBuiltins.SplitLength` | buildScript.py:58 | `s.split('.')` has one part more than `s` has `.` characters |
| `PyBuiltins.SplitPartsFree` | buildScript.py:58 | no part of a split holds the separator |
| `PyBuiltins.JoinSplit` | buildScript.py:58 | joining the parts of a split with the separator gives the string back |
| `PyBuiltins.SplitJoin` | buildScript.py:58 | splitting a join of separator-free parts gives the parts back |
| `PyBuiltins.LastIndexOf` | buildScript.py:70-73 | the last position holding the element, with no equal element after it (inverse side of the path joins) |
| `PyBuiltins.LastIndexOfUnique` | buildScript.py:70-73 | the last-occurrence position is the only position with no later equal element |
| `BuildScript.TagLineHasAngle` | buildScript.py:33-40 | a tag line is never empty and holds `<`, so the emptiness test means "no match" and `line.index("<")` cannot fail |
| `BuildScript.LastTagIndex` | buildScript.py:28-30 | the scan selects None exactly when no line holds the tag, otherwise a tag line with no tag line after it |
| `BuildScript.LastTagIndexIs` | buildScript.py:28-30 | a tag line with no later tag line is the one the scan selects |
| `BuildScript.Indentation` | buildScript.py:40 | the kept indentation is a prefix of the line, stops at its first `<` and holds no `<` |
| `BuildScript.VersionLineRoundTrip` | buildScript.py:40-44 | the written line is a tag line ending in `"\n"` whose indentation is the one it was built from |
| `BuildScript.RemoveAndInsertAt` | buildScript.py:38-44 | taking the index of the first line equal to the selected one, removing that line and inserting the new line at the index overwrites exactly that one position |
| `BuildScript.Patch` | buildScript.py:28-44 | the file is left unwritten exactly when no line holds the tag; a rewritten file has as many lines as the original |
| `BuildScript.UpdateCsprojAssemblyVersion` | buildScript.py:19-48 | the scan-and-edit procedure returns exactly what `Patch` specifies |
| `BuildScript.PatchReplacesOnePosition` | buildScript.py:38-44 | with `k` the last tag line, the result is the input with only the first line equal to line `k` overwritten by the version line built from line `k`'s indentation; that position is at or before `k` |
| `BuildScript.PatchRewritesEarlierDuplicate` | buildScript.py:28-44 | when an earlier line is identical to the last tag line, the earlier one is rewritten and the last tag line is unchanged |
| `BuildScript.PatchKeepsEarlierTagLine` | buildScript.py:28-44 | when the last tag line has no earlier duplicate, it is the line rewritten, and an earlier tag line is left unchanged |
| `BuildScript.PatchFixedPoint` | buildScript.py:38-44 | the file obtained by overwriting the last tag line with its version line is written back unchanged by another run; with `PatchReplacesOnePosition` this makes the patch idempotent when the selected line has no earlier duplicate |
| `BuildScript.PatchUpToDate` | buildScript.py:38-44 | a file whose last tag line already is the version line for this version is written back unchanged |
| `BuildScript.PatchDuplicateFirstRun` | buildScript.py:38-44 | with two identical tag lines, a run rewrites the first copy and leaves the second, the last tag line, unchanged |
| `BuildScript.PatchDuplicateSecondRun` | buildScript.py:38-44 | a second run on that result rewrites the second copy too, so the patch is not idempotent on duplicates |
| `BuildScript.PatchSingleVersionLine` | buildScript.py:28-44 | a file with one version line, indented by any run of characters without `<`, gets that line rewritten with the new version and the same indentation, and every other line is kept in place |
| `BuildScript.VersionStringAcceptedIff` | buildScript.py:58-60 | the version string is accepted exactly when it holds two `.` characters |
| `BuildScript.AcceptedVersionParts` | buildScript.py:58 | an accepted string is its three `.`-free components joined by `.` |
| `BuildScript.ThreeComponentsAccepted` | buildScript.py:58 | any three `.`-free components, empty or non-numeric included, joined by `.` are accepted and split back into themselves |
| `BuildScript.ParentAndNameOfJoin` | buildScript.py:70-73 | a `dir\name` join with a backslash-free name cuts back into `dir` and `name` at its last backslash |
| `BuildScript.ProjectPathsLayout` | buildScript.py:70-73 | each project directory lies directly in the script's directory, and each `.csproj` file directly in its project directory, under the fixed names |
| `BuildScript.ProjectPathsUnderCurrentDirectory` | buildScript.py:70-73 | every derived path starts with the script's directory followed by `\`, and each project file path with its project directory followed by `\` |

## Left out

- `CleanDirectories` (buildScript.py:5-16) and its second pass after `time.sleep(3)` (buildScript.py:77-82): existence checks and recursive deletes on the filesystem, with no text logic.
- Reading and writing the project files (buildScript.py:24-25, 47-48): a file enters as the list `readlines` returns and leaves as the `Rewrite` value; `MissingTag` means the file is not written.
- The two calls of the patcher on the two project files (buildScript.py:87-88): each is one independent use of `UpdateCsprojAssemblyVersion`.
- The argument count check and `sys.exit` (buildScript.py:51-53) and the `realpath`/`basename` check that the script lies in "Color Selector" (buildScript.py:63-67): operating-system queries and process exit. The script's directory is a parameter of `DeriveProjectPaths`.
- Console output (buildScript.py:34, 52, 59, 66, 76, 83, 86, 89): the warning of line 34 is the `MissingTag` result; the other messages carry no logic.
- `PyBuiltins.Insert`: models `list.insert` only for non-negative indices, the only kind the script passes.
- `PyBuiltins.IndexOf` and `PyBuiltins.Remove`: require the element to be present instead of modelling the `ValueError` Python raises otherwise; the script calls them only on a line it found in the list and on a tag line, which holds `<`.
