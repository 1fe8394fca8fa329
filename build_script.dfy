/**
 * The text handling of the Color Selector build script: the patch that writes a
 * new version number into the `<AssemblyVersion>` line of a `.csproj` file, the
 * shape check on the version string given on the command line, and the
 * derivation of the project directories and project files from the script's
 * own directory.
 *
 * A file is the list of its lines as Python's `readlines` returns them: each
 * line keeps its trailing "\n" when it has one.  The version string, a global of
 * the script, is passed in explicitly.
 */
module BuildScript {
  import opened PyBuiltins

  const AssemblyVersionOpen: string := "<AssemblyVersion>"
  const AssemblyVersionClose: string := "</AssemblyVersion>"

  /** The test at the heart of the scan: the line holds the opening tag. */
  predicate HasAssemblyVersionTag(line: string)
  {
    Contains(line, AssemblyVersionOpen)
  }

  /** A tag line is not empty and holds a '<', so `line.index("<")` succeeds. */
  lemma TagLineHasAngle(line: string)
    requires HasAssemblyVersionTag(line)
    ensures '<' in line && line != ""
  {
    ContainsFirst(line, AssemblyVersionOpen);
  }

  /**
   * The position of the line the scan selects: the last line holding the tag,
   * or None when no line holds it.
   */
  function LastTagIndex(text: seq<string>): (r: Option<nat>)
    ensures r.None? <==> forall i | 0 <= i < |text| :: !HasAssemblyVersionTag(text[i])
    ensures r.Some? ==>
      r.value < |text| && HasAssemblyVersionTag(text[r.value]) &&
      forall j | r.value < j < |text| :: !HasAssemblyVersionTag(text[j])
  {
    if |text| == 0 then None
    else if HasAssemblyVersionTag(text[|text| - 1]) then Some(|text| - 1)
    else LastTagIndex(text[..|text| - 1])
  }

  /** A tag line with no tag line after it is the one the scan selects. */
  lemma LastTagIndexIs(text: seq<string>, k: nat)
    requires k < |text| && HasAssemblyVersionTag(text[k])
    requires forall j | k < j < |text| :: !HasAssemblyVersionTag(text[j])
    ensures LastTagIndex(text) == Some(k)
  {
  }

  /** The indentation kept from the selected line: everything before its first '<'. */
  function Indentation(line: string): (indent: string)
    requires '<' in line
    ensures |indent| < |line| && indent == line[..|indent|]
    ensures line[|indent|] == '<' && '<' !in indent
  {
    line[..IndexOf(line, '<')]
  }

  /** The line written in place of the selected one. */
  function VersionLine(indent: string, versionString: string): string
  {
    indent + AssemblyVersionOpen + versionString + AssemblyVersionClose + "\n"
  }

  /**
   * A written line is itself a tag line, ends in a newline, and gives back the
   * indentation it was built from (an indentation never holds '<').
   */
  lemma VersionLineRoundTrip(indent: string, versionString: string)
    requires '<' !in indent
    ensures HasAssemblyVersionTag(VersionLine(indent, versionString))
    ensures '<' in VersionLine(indent, versionString)
    ensures Indentation(VersionLine(indent, versionString)) == indent
    ensures VersionLine(indent, versionString)[|VersionLine(indent, versionString)| - 1] == '\n'
  {
    var line := VersionLine(indent, versionString);
    assert line[|indent|..|indent| + |AssemblyVersionOpen|] == AssemblyVersionOpen;
    ContainsIff(line, AssemblyVersionOpen);
    assert OccursAt(AssemblyVersionOpen, line, |indent|);
    assert line[..|indent|] == indent;
    IndexOfUnique(line, '<', |indent|);
  }

  /**
   * What the patcher does with a file: leave it alone with a warning because no
   * line holds the tag, or write back the edited list of lines.
   */
  datatype Update = MissingTag | Rewrite(lines: seq<string>)

  /**
   * The patch as the script composes it: pick the last tag line, find the first
   * line equal to it, remove that line and insert the new one at its index.
   */
  function Patch(text: seq<string>, versionString: string): (u: Update)
    ensures u.MissingTag? <==> forall i | 0 <= i < |text| :: !HasAssemblyVersionTag(text[i])
    ensures u.Rewrite? ==> |u.lines| == |text|
  {
    match LastTagIndex(text)
    case None => MissingTag
    case Some(k) =>
      var line := text[k];
      TagLineHasAngle(line);
      Rewrite(RemoveAndInsertAt(text, line, VersionLine(Indentation(line), versionString)))
  }

  /**
   * Lines 38 and 43-44 of the script: take the index of the first line equal to
   * `line`, remove that line, insert `newLine` at the index.
   */
  function RemoveAndInsertAt(text: seq<string>, line: string, newLine: string): (r: seq<string>)
    requires line in text
    ensures r == text[IndexOf(text, line) := newLine]
  {
    var assemblyIndex := IndexOf(text, line);
    RemoveThenInsert(text, line, newLine);
    Insert(Remove(text, line), assemblyIndex, newLine)
  }

  /**
   * `UpdateCsprojAssemblyVersion` with the file already read: the scan keeps
   * overwriting `assemblyVersionLine` with each tag line, so the last one wins;
   * then the first equal line is removed and the new line inserted at its index.
   */
  method UpdateCsprojAssemblyVersion(lines: seq<string>, versionString: string)
    returns (u: Update)
    ensures u == Patch(lines, versionString)
  {
    var text := lines;
    var assemblyVersionLine := "";
    ghost var selected: Option<nat> := None;

    for i := 0 to |text|
      invariant selected == LastTagIndex(text[..i])
      invariant selected.None? ==> assemblyVersionLine == ""
      invariant selected.Some? ==>
        selected.value < i && assemblyVersionLine == text[selected.value]
    {
      assert text[..i + 1][..i] == text[..i];
      if Contains(text[i], AssemblyVersionOpen) {
        assemblyVersionLine := text[i];
        selected := Some(i);
      }
    }
    assert text[..|text|] == text;

    // A tag line is never empty, so the initial "" survives exactly when no line matched.
    if assemblyVersionLine == "" {
      assert selected.None? by {
        if selected.Some? {
          TagLineHasAngle(assemblyVersionLine);
        }
      }
      return MissingTag;
    }

    TagLineHasAngle(assemblyVersionLine);
    var assemblyIndex := IndexOf(text, assemblyVersionLine);
    var leadingSpaces := Indentation(assemblyVersionLine);

    text := Remove(text, assemblyVersionLine);
    text := Insert(text, assemblyIndex, VersionLine(leadingSpaces, versionString));
    u := Rewrite(text);
  }

  /**
   * When `k` is the last tag line, the patched file is the original with one
   * position overwritten: the first line equal to line `k`, which gets the new
   * version line built from line `k`'s indentation.
   */
  lemma PatchReplacesOnePosition(text: seq<string>, versionString: string, k: nat)
    requires k < |text| && HasAssemblyVersionTag(text[k])
    requires forall j | k < j < |text| :: !HasAssemblyVersionTag(text[j])
    ensures IndexOf(text, text[k]) <= k && '<' in text[k]
    ensures Patch(text, versionString) ==
      Rewrite(text[IndexOf(text, text[k]) := VersionLine(Indentation(text[k]), versionString)])
  {
    LastTagIndexIs(text, k);
    TagLineHasAngle(text[k]);
    RemoveThenInsert(text, text[k], VersionLine(Indentation(text[k]), versionString));
  }

  /**
   * The quirk of "last match wins" combined with "remove the first equal line":
   * when an earlier line is identical to the last tag line, that earlier line is
   * rewritten and the last tag line itself is left as it was.
   */
  lemma PatchRewritesEarlierDuplicate(text: seq<string>, versionString: string, j: nat, k: nat)
    requires j < k < |text| && text[j] == text[k] && text[j] !in text[..j]
    requires HasAssemblyVersionTag(text[k])
    requires forall m | k < m < |text| :: !HasAssemblyVersionTag(text[m])
    ensures '<' in text[k] && Patch(text, versionString).Rewrite?
    ensures Patch(text, versionString).lines[j] == VersionLine(Indentation(text[k]), versionString)
    ensures Patch(text, versionString).lines[k] == text[k]
  {
    IndexOfUnique(text, text[k], j);
    PatchReplacesOnePosition(text, versionString, k);
  }

  /**
   * Earlier tag lines never decide the outcome: when the last tag line has no
   * earlier duplicate, it is the line rewritten, with its own indentation, and
   * an earlier tag line is left exactly as it was.
   */
  lemma PatchKeepsEarlierTagLine(text: seq<string>, versionString: string, j: nat, k: nat)
    requires j < k < |text| && text[k] !in text[..k]
    requires HasAssemblyVersionTag(text[j]) && HasAssemblyVersionTag(text[k])
    requires forall m | k < m < |text| :: !HasAssemblyVersionTag(text[m])
    ensures '<' in text[k] && Patch(text, versionString).Rewrite?
    ensures Patch(text, versionString).lines[k] == VersionLine(Indentation(text[k]), versionString)
    ensures Patch(text, versionString).lines[j] == text[j]
  {
    IndexOfUnique(text, text[k], k);
    PatchReplacesOnePosition(text, versionString, k);
  }

  /**
   * A file whose last tag line already is the version line for this version is
   * written back unchanged.
   */
  lemma PatchUpToDate(text: seq<string>, versionString: string, k: nat, indent: string)
    requires '<' !in indent
    requires k < |text| && text[k] == VersionLine(indent, versionString)
    requires forall j | k < j < |text| :: !HasAssemblyVersionTag(text[j])
    ensures Patch(text, versionString) == Rewrite(text)
  {
    VersionLineRoundTrip(indent, versionString);
    PatchReplacesOnePosition(text, versionString, k);
    UpdateWithSameValue(text, IndexOf(text, text[k]));
  }

  /**
   * Patching is idempotent when the selected line has no earlier duplicate:
   * `PatchReplacesOnePosition` then gives `text[k := line]` as the first run's
   * result, and a second run leaves that file as it is.
   */
  lemma PatchFixedPoint(text: seq<string>, versionString: string, k: nat)
    requires LastTagIndex(text) == Some(k)
    ensures '<' in text[k]
    ensures var once := text[k := VersionLine(Indentation(text[k]), versionString)];
      Patch(once, versionString) == Rewrite(once)
  {
    TagLineHasAngle(text[k]);
    var indent := Indentation(text[k]);
    var line := VersionLine(indent, versionString);
    UpdateKeepsLater(text, k, line);
    PatchUpToDate(text[k := line], versionString, k, indent);
  }

  /**
   * With two identical tag lines, the first run rewrites the first copy and
   * leaves the second one, the last tag line, as it was.
   */
  lemma PatchDuplicateFirstRun(line: string, versionString: string)
    requires HasAssemblyVersionTag(line)
    ensures '<' in line
    ensures Patch([line, line], versionString) ==
      Rewrite([VersionLine(Indentation(line), versionString), line])
  {
    var first := [line, line];
    assert first[..0] == [];
    IndexOfUnique(first, line, 0);
    PatchReplacesOnePosition(first, versionString, 1);
    assert first[0 := VersionLine(Indentation(line), versionString)]
      == [VersionLine(Indentation(line), versionString), line];
  }

  /**
   * A second run on that result rewrites the second copy as well: the patch is
   * not idempotent when the selected line has an earlier duplicate (unless the
   * line already carried the new version).
   */
  lemma PatchDuplicateSecondRun(line: string, versionString: string)
    requires HasAssemblyVersionTag(line) && '<' in line
    requires line != VersionLine(Indentation(line), versionString)
    ensures Patch([VersionLine(Indentation(line), versionString), line], versionString) ==
      Rewrite([VersionLine(Indentation(line), versionString), VersionLine(Indentation(line), versionString)])
  {
    var newLine := VersionLine(Indentation(line), versionString);
    var second := [newLine, line];
    assert second[1 := newLine] == [newLine, newLine];
    assert second[..1] == [newLine];
    IndexOfUnique(second, line, 1);
    PatchReplacesOnePosition(second, versionString, 1);
  }

  /**
   * A file with a single version line, indented by `indent`: that line is
   * rewritten with the new version and the same indentation, and every other
   * line is kept as it was and where it was.
   */
  lemma PatchSingleVersionLine(before: seq<string>, after: seq<string>, indent: string,
                               oldVersion: string, versionString: string)
    requires '<' !in indent
    requires forall i | 0 <= i < |before| :: !HasAssemblyVersionTag(before[i])
    requires forall i | 0 <= i < |after| :: !HasAssemblyVersionTag(after[i])
    ensures Patch(before + [VersionLine(indent, oldVersion)] + after, versionString)
      == Rewrite(before + [VersionLine(indent, versionString)] + after)
  {
    var line := VersionLine(indent, oldVersion);
    var text := before + [line] + after;
    var k := |before|;
    VersionLineRoundTrip(indent, oldVersion);
    assert forall j | k < j < |text| :: text[j] == after[j - k - 1];
    assert forall j | 0 <= j < k :: text[..k][j] == before[j];
    IndexOfUnique(text, line, k);
    PatchReplacesOnePosition(text, versionString, k);
    UpdateBetween(before, line, after, VersionLine(indent, versionString));
  }

  /**
   * The version string is accepted exactly when splitting it on '.' gives three
   * parts, that is, when it holds exactly two '.' characters.
   */
  function VersionStringAccepted(versionString: string): (ok: bool)
  {
    |Split(versionString, '.')| == 3
  }

  lemma VersionStringAcceptedIff(versionString: string)
    ensures VersionStringAccepted(versionString) <==> multiset(versionString)['.'] == 2
  {
    SplitLength(versionString, '.');
  }

  /**
   * An accepted version string is its three components joined by '.'; the
   * components hold no '.' but need not be numbers, and may be empty.
   */
  lemma AcceptedVersionParts(versionString: string)
    requires VersionStringAccepted(versionString)
    ensures var parts := Split(versionString, '.');
      versionString == parts[0] + "." + parts[1] + "." + parts[2] &&
      '.' !in parts[0] && '.' !in parts[1] && '.' !in parts[2]
  {
    var parts := Split(versionString, '.');
    JoinSplit(versionString, '.');
    SplitPartsFree(versionString, '.');
    assert Join(parts, '.') == parts[0] + "." + Join(parts[1..], '.');
    assert parts[1..][1..] == [parts[2]];
    assert Join(parts[1..], '.') == parts[1] + "." + parts[2];
  }

  /** Any three components free of '.', numeric or not, empty or not, are accepted. */
  lemma ThreeComponentsAccepted(major: string, minor: string, revision: string)
    requires '.' !in major && '.' !in minor && '.' !in revision
    ensures VersionStringAccepted(major + "." + minor + "." + revision)
    ensures Split(major + "." + minor + "." + revision, '.') == [major, minor, revision]
  {
    var parts := [major, minor, revision];
    assert Join(parts[1..], '.') == minor + "." + revision;
    assert Join(parts, '.') == major + "." + minor + "." + revision;
    SplitJoin(parts, '.');
  }

  /** Python's `"{0}\\{1}".format(dir, name)`: a Windows path join. */
  function PathJoin(dir: string, name: string): string
  {
    dir + "\\" + name
  }

  /** The partner of `PathJoin`: cut a path at its last backslash. */
  function ParentAndName(path: string): (string, string)
    requires '\\' in path
  {
    var i := LastIndexOf(path, '\\');
    (path[..i], path[i + 1..])
  }

  /** A path joined from a directory and a name free of backslashes splits back into them. */
  lemma ParentAndNameOfJoin(dir: string, name: string)
    requires '\\' !in name
    ensures '\\' in PathJoin(dir, name)
    ensures ParentAndName(PathJoin(dir, name)) == (dir, name)
  {
    var path := PathJoin(dir, name);
    assert path[|dir|] == '\\';
    assert path[|dir| + 1..] == name;
    LastIndexOfUnique(path, '\\', |dir|);
    assert path[..|dir|] == dir;
  }

  const ColorSelectorFolder: string := "ColorSelector"
  const StandaloneFolder: string := "ColorSelectorTestApp"
  const ColorSelectorProjectFile: string := "ColorSelector.csproj"
  const StandaloneProjectFile: string := "ColorSelectorStandalone.csproj"

  /** The two project directories and their project files. */
  datatype ProjectPaths = ProjectPaths(
    colorSelectorDir: string,
    colorSelectorStandaloneDir: string,
    colorSelectorCsproj: string,
    colorSelectorStandaloneCsproj: string)

  function DeriveProjectPaths(currentDirectory: string): ProjectPaths
  {
    var colorSelectorDir := PathJoin(currentDirectory, ColorSelectorFolder);
    var colorSelectorStandaloneDir := PathJoin(currentDirectory, StandaloneFolder);
    ProjectPaths(
      colorSelectorDir,
      colorSelectorStandaloneDir,
      PathJoin(colorSelectorDir, ColorSelectorProjectFile),
      PathJoin(colorSelectorStandaloneDir, StandaloneProjectFile))
  }

  /**
   * Each project directory sits directly in the script's directory, and each
   * project file directly in its own project directory.
   */
  lemma ProjectPathsLayout(currentDirectory: string)
    ensures var p := DeriveProjectPaths(currentDirectory);
      && '\\' in p.colorSelectorDir && '\\' in p.colorSelectorStandaloneDir
      && '\\' in p.colorSelectorCsproj && '\\' in p.colorSelectorStandaloneCsproj
      && ParentAndName(p.colorSelectorDir) == (currentDirectory, ColorSelectorFolder)
      && ParentAndName(p.colorSelectorStandaloneDir) == (currentDirectory, StandaloneFolder)
      && ParentAndName(p.colorSelectorCsproj) == (p.colorSelectorDir, ColorSelectorProjectFile)
      && ParentAndName(p.colorSelectorStandaloneCsproj) == (p.colorSelectorStandaloneDir, StandaloneProjectFile)
  {
    var p := DeriveProjectPaths(currentDirectory);
    assert '\\' !in ColorSelectorFolder && '\\' !in StandaloneFolder;
    assert '\\' !in ColorSelectorProjectFile && '\\' !in StandaloneProjectFile;
    ParentAndNameOfJoin(currentDirectory, ColorSelectorFolder);
    ParentAndNameOfJoin(currentDirectory, StandaloneFolder);
    ParentAndNameOfJoin(p.colorSelectorDir, ColorSelectorProjectFile);
    ParentAndNameOfJoin(p.colorSelectorStandaloneDir, StandaloneProjectFile);
  }

  /** Every derived path starts with the script's directory and a backslash. */
  lemma ProjectPathsUnderCurrentDirectory(currentDirectory: string)
    ensures var p := DeriveProjectPaths(currentDirectory);
      var root := currentDirectory + "\\";
      root <= p.colorSelectorDir && root <= p.colorSelectorStandaloneDir &&
      p.colorSelectorDir + "\\" <= p.colorSelectorCsproj &&
      p.colorSelectorStandaloneDir + "\\" <= p.colorSelectorStandaloneCsproj &&
      root <= p.colorSelectorCsproj && root <= p.colorSelectorStandaloneCsproj
  {
  }
}
