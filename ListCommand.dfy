/** src/commands/list.js: printing the declared git dependencies, with their
    repository, ref and subpath, and optionally what is installed for each. */
module ListCommand {
  import opened Wrappers
  import opened Strings
  import opened Dicts
  import opened Fs
  import opened Git
  import opened PackageManager
  import opened Install

  /** What list sends to the console and the logger, and the package.json
      files it reads, in order. Colours are not modelled. */
  datatype ListEvent =
    | Print(text: string)        // console.log
    | Warn(text: string)         // logger.warn
    | ReportError(text: string)  // logger.error
    | Debug(text: string)        // logger.debug
    | Read(path: Path)           // fs.readJson

  const NoDependenciesMessage := "No git dependencies found in package.json"
  const ListFailedPrefix := "Failed to list dependencies: "
  const NotInstalledLine := "  Status: Not installed"
  const InstalledLine := "  Status: Installed"

  function Header(): seq<ListEvent> {
    [Print("\nGit Dependencies:"), Print("----------------")]
  }

  function DetailFailedMessage(name: string, message: string): string {
    "Failed to get detailed info for " + name + ": " + message
  }

  /** The lines printed from an installed package's package.json: the version
      and description when truthy, the number of dependencies when the
      section is present. */
  function ManifestLines(pj: PackageJson): (out: seq<ListEvent>)
    ensures Truthy(pj.version) ==> Print("  Version: " + pj.version.value) in out
    ensures Truthy(pj.description) ==> Print("  Description: " + pj.description.value) in out
    ensures pj.dependencies.Some? ==> Print("  Dependencies: " + NatToString(|Keys(pj.dependencies.value)|)) in out
    ensures |out| == (if Truthy(pj.version) then 1 else 0) + (if Truthy(pj.description) then 1 else 0) +
                     (if pj.dependencies.Some? then 1 else 0)
    ensures forall e :: e in out ==> e.Print?
  {
    (if Truthy(pj.version) then [Print("  Version: " + pj.version.value)] else []) +
    (if Truthy(pj.description) then [Print("  Description: " + pj.description.value)] else []) +
    (if pj.dependencies.Some? then [Print("  Dependencies: " + NatToString(|Keys(pj.dependencies.value)|))] else [])
  }

  /** showDependencyDetails: the status of the package's directory (the same
      directory install uses) and, when installed, details from its
      package.json. Any error is caught and logged at debug level. */
  function DetailLines(h: Host, fs: FileSystem, name: string): (out: seq<ListEvent>)
    ensures DestinationFor(h, name).Err? ==> out == [Debug(DetailFailedMessage(name, DestinationFor(h, name).error))]
    ensures DestinationFor(h, name).Ok? && DestinationFor(h, name).value !in fs ==> out == [Print(NotInstalledLine)]
    ensures |out| >= 1
    ensures DestinationFor(h, name).Ok? && DestinationFor(h, name).value in fs ==> out[0] == Print(InstalledLine)
    ensures DestinationFor(h, name).Ok? && DestinationFor(h, name).value in fs ==>
      var p := PackageJsonOf(DestinationFor(h, name).value);
      && (p !in fs ==> out == [Print(InstalledLine)])
      && (p in fs && fs[p].JsonFile? ==> out == [Print(InstalledLine), Read(p)] + ManifestLines(fs[p].json))
      && (p in fs && !fs[p].JsonFile? ==>
            out == [Print(InstalledLine), Read(p), Debug(DetailFailedMessage(name, ReadJson(fs, p).error))])
    ensures forall e :: e in out ==> !e.ReportError? && !e.Warn?
    ensures forall e :: e in out && e.Read? ==>
      DestinationFor(h, name).Ok? && e.path == PackageJsonOf(DestinationFor(h, name).value)
  {
    match DestinationFor(h, name)
    case Err(m) => [Debug(DetailFailedMessage(name, m))]
    case Ok(packageDir) =>
      var packageJsonPath := PackageJsonOf(packageDir);
      if packageDir !in fs then [Print(NotInstalledLine)]
      else if packageJsonPath !in fs then [Print(InstalledLine)]
      else
        [Print(InstalledLine), Read(packageJsonPath)] +
        match ReadJson(fs, packageJsonPath)
        case Err(m) => [Debug(DetailFailedMessage(name, m))]
        case Ok(pj) => ManifestLines(pj)
  }

  /** showDependencyDetails. */
  method ShowDependencyDetails(h: Host, fs: FileSystem, name: string) returns (out: seq<ListEvent>)
    ensures out == DetailLines(h, fs, name)
  {
    var packageDir := DestinationFor(h, name);
    if packageDir.Err? {
      return [Debug(DetailFailedMessage(name, packageDir.error))];
    }
    var packageJsonPath := PackageJsonOf(packageDir.value);
    if packageDir.value !in fs {
      return [Print(NotInstalledLine)];
    }
    out := [Print(InstalledLine)];
    if packageJsonPath in fs {
      out := out + [Read(packageJsonPath)];
      var packageJson := ReadJson(fs, packageJsonPath);
      if packageJson.Err? {
        return out + [Debug(DetailFailedMessage(name, packageJson.error))];
      }
      var lines := ShowManifest(packageJson.value);
      out := out + lines;
    }
  }

  /** The part of showDependencyDetails that prints from a package.json. */
  method ShowManifest(pj: PackageJson) returns (out: seq<ListEvent>)
    ensures out == ManifestLines(pj)
  {
    out := [];
    if Truthy(pj.version) {
      out := out + [Print("  Version: " + pj.version.value)];
    }
    if Truthy(pj.description) {
      out := out + [Print("  Description: " + pj.description.value)];
    }
    if pj.dependencies.Some? {
      out := out + [Print("  Dependencies: " + NatToString(|Keys(pj.dependencies.value)|))];
    }
  }

  /** The four lines every entry starts with. */
  function BaseLines(name: string, r: GitReference): seq<ListEvent> {
    [Print(name + ":"), Print("  Repository: " + r.url), Print("  Reference: " + r.ref), Print("  Path: " + r.path)]
  }

  /** The block printed for one entry: its base lines, its details when asked
      for, and an empty line. */
  function EntryLines(h: Host, fs: FileSystem, name: string, gitUrl: string, detail: bool): seq<ListEvent> {
    BaseLines(name, Parse(gitUrl)) + (if detail then DetailLines(h, fs, name) else []) + [Print("")]
  }

  /** The blocks of the entries, in order. */
  function EntriesLines(h: Host, fs: FileSystem, entries: seq<Entry>, detail: bool): seq<ListEvent>
    decreases |entries|
  {
    if entries == [] then []
    else
      var last := entries[|entries| - 1];
      EntriesLines(h, fs, entries[..|entries| - 1], detail) + EntryLines(h, fs, last.0, last.1, detail)
  }

  /** What list emits. */
  function ListOutput(h: Host, fs: FileSystem, detail: bool): seq<ListEvent> {
    match GetGitDependencies(h, fs)
    case Err(m) => [ReportError(ListFailedPrefix + m)]
    case Ok(section) =>
      if section.None? || |section.value| == 0 then [Warn(NoDependenciesMessage)]
      else Header() + EntriesLines(h, fs, section.value, detail)
  }

  /** The body of list's loop for one entry. */
  method ShowEntry(h: Host, fs: FileSystem, name: string, gitUrl: string, detail: bool) returns (block: seq<ListEvent>)
    ensures block == EntryLines(h, fs, name, gitUrl, detail)
  {
    var parsed := ParseGitUrl(gitUrl);
    block := BaseLines(name, parsed);
    if detail {
      var details := ShowDependencyDetails(h, fs, name);
      block := block + details;
    }
    block := block + [Print("")];
  }

  lemma EntriesLinesSnoc(h: Host, fs: FileSystem, entries: seq<Entry>, i: nat, detail: bool)
    requires i < |entries|
    ensures EntriesLines(h, fs, entries[..i + 1], detail) ==
      EntriesLines(h, fs, entries[..i], detail) + EntryLines(h, fs, entries[i].0, entries[i].1, detail)
  {
    assert entries[..i + 1][..i] == entries[..i];
  }

  /** list. */
  method List(h: Host, fs: FileSystem, detail: bool) returns (events: seq<ListEvent>)
    ensures events == ListOutput(h, fs, detail)
  {
    var read := GetGitDependencies(h, fs);
    if read.Err? {
      return [ReportError(ListFailedPrefix + read.error)];
    }
    var gitDependencies := read.value;
    if gitDependencies.None? || |gitDependencies.value| == 0 {
      return [Warn(NoDependenciesMessage)];
    }
    var lines := ShowEntries(h, fs, gitDependencies.value, detail);
    events := Header() + lines;
  }

  /** list's loop over the section's entries. */
  method ShowEntries(h: Host, fs: FileSystem, entries: seq<Entry>, detail: bool) returns (events: seq<ListEvent>)
    ensures events == EntriesLines(h, fs, entries, detail)
  {
    events := [];
    for i := 0 to |entries|
      invariant events == EntriesLines(h, fs, entries[..i], detail)
    {
      var block := ShowEntry(h, fs, entries[i].0, entries[i].1, detail);
      EntriesLinesSnoc(h, fs, entries, i, detail);
      events := events + block;
    }
    assert entries[..|entries|] == entries;
  }

  // ---------------------------------------------------------------------------
  // Properties of list

  /** An absent or empty section gives the warning alone. */
  lemma ListEmpty(h: Host, fs: FileSystem, detail: bool)
    requires GetGitDependencies(h, fs).Ok?
    requires GetGitDependencies(h, fs).value.None? || GetGitDependencies(h, fs).value == Some([])
    ensures ListOutput(h, fs, detail) == [Warn(NoDependenciesMessage)]
  {
  }

  /** The blocks of two runs of entries are the blocks of the first followed
      by those of the second. */
  lemma {:induction false} EntriesLinesAppend(h: Host, fs: FileSystem, a: seq<Entry>, b: seq<Entry>, detail: bool)
    ensures EntriesLines(h, fs, a + b, detail) == EntriesLines(h, fs, a, detail) + EntriesLines(h, fs, b, detail)
    decreases |b|
  {
    if b == [] {
      assert a + b == a;
    } else {
      var b' := b[..|b| - 1];
      assert (a + b)[..|a + b| - 1] == a + b';
      assert (a + b)[|a + b| - 1] == b[|b| - 1];
      EntriesLinesAppend(h, fs, a, b', detail);
    }
  }

  /** Every entry's block appears in the output, in manifest order, whatever
      the details of the other entries do. */
  lemma ListShowsEveryEntry(h: Host, fs: FileSystem, detail: bool, i: nat)
    requires GetGitDependencies(h, fs).Ok? && GetGitDependencies(h, fs).value.Some?
    requires i < |GetGitDependencies(h, fs).value.value|
    ensures var entries := GetGitDependencies(h, fs).value.value;
      ListOutput(h, fs, detail) ==
        Header() + EntriesLines(h, fs, entries[..i], detail) +
        EntryLines(h, fs, entries[i].0, entries[i].1, detail) +
        EntriesLines(h, fs, entries[i + 1..], detail)
  {
    var entries := GetGitDependencies(h, fs).value.value;
    assert ListOutput(h, fs, detail) == Header() + EntriesLines(h, fs, entries, detail);
    EntriesAround(h, fs, entries, i, detail);
  }

  lemma EntriesAround(h: Host, fs: FileSystem, entries: seq<Entry>, i: nat, detail: bool)
    requires i < |entries|
    ensures EntriesLines(h, fs, entries, detail) ==
      EntriesLines(h, fs, entries[..i], detail) + EntryLines(h, fs, entries[i].0, entries[i].1, detail) +
      EntriesLines(h, fs, entries[i + 1..], detail)
  {
    assert entries == entries[..i] + [entries[i]] + entries[i + 1..];
    EntriesLinesAppend(h, fs, entries[..i] + [entries[i]], entries[i + 1..], detail);
    EntriesLinesAppend(h, fs, entries[..i], [entries[i]], detail);
    assert [entries[i]][..0] == [];
  }

  /** Each block starts with the entry's name, repository, ref and subpath,
      and ends with an empty line, whatever its details are. */
  lemma EntryBlockShape(h: Host, fs: FileSystem, name: string, gitUrl: string, detail: bool)
    ensures |EntryLines(h, fs, name, gitUrl, detail)| >= 5
    ensures EntryLines(h, fs, name, gitUrl, detail)[..4] == BaseLines(name, Parse(gitUrl))
    ensures EntryLines(h, fs, name, gitUrl, detail)[|EntryLines(h, fs, name, gitUrl, detail)| - 1] == Print("")
  {
  }

  /** A package that is not installed shows that status and nothing is read. */
  lemma DetailsOfMissingPackage(h: Host, fs: FileSystem, name: string)
    requires DestinationFor(h, name).Ok? && DestinationFor(h, name).value !in fs
    ensures forall e :: e in DetailLines(h, fs, name) ==> !e.Read?
  {
  }

  /** The details of a scoped package are looked up under the '@' directory. */
  lemma DetailsOfScopedPackage(h: Host, fs: FileSystem, scoped: string, pkg: string)
    requires IsName(scoped) && scoped[0] == '@' && IsName(pkg)
    requires NodeModules(h) + [scoped, pkg] in fs
    ensures DetailLines(h, fs, scoped + "/" + pkg)[0] == Print(InstalledLine)
  {
    ScopedDestination(h, scoped, pkg);
  }

  /** An installed package with a readable package.json shows the number of
      its dependencies when it declares the section. */
  lemma DetailsCountDependencies(h: Host, fs: FileSystem, name: string)
    requires DestinationFor(h, name).Ok?
    requires DestinationFor(h, name).value in fs
    requires PackageJsonOf(DestinationFor(h, name).value) in fs
    requires fs[PackageJsonOf(DestinationFor(h, name).value)].JsonFile?
    requires fs[PackageJsonOf(DestinationFor(h, name).value)].json.dependencies.Some?
    ensures var deps := fs[PackageJsonOf(DestinationFor(h, name).value)].json.dependencies.value;
      Print("  Dependencies: " + NatToString(|Keys(deps)|)) in DetailLines(h, fs, name)
  {
  }
}
