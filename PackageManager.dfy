/** src/utils/package-manager.js: choosing a package manager, installing an
    extracted package's own dependencies, and reading and updating the
    `gitDependencies` section of the project's package.json. */
module PackageManager {
  import opened Wrappers
  import opened Strings
  import opened Dicts
  import opened Fs

  datatype Manager = Pnpm | Yarn | Npm

  function CommandName(m: Manager): string {
    match m
    case Pnpm => "pnpm"
    case Yarn => "yarn"
    case Npm => "npm"
  }

  function LockFile(m: Manager): string {
    match m
    case Pnpm => "pnpm-lock.yaml"
    case Yarn => "yarn.lock"
    case Npm => "package-lock.json"
  }

  /** The order in which detectPackageManager tries the managers. */
  function Rank(m: Manager): nat {
    match m
    case Pnpm => 0
    case Yarn => 1
    case Npm => 2
  }

  /** commandExists: whether `which` (or `where`) finds the command. */
  predicate Available(h: Host, m: Manager) {
    CommandName(m) in h.commands
  }

  /** The manager's lockfile exists in the working directory (a relative
      name, so resolved against the process's directory) and the manager is
      installed. */
  predicate Locked(h: Host, fs: FileSystem, m: Manager) {
    h.cwd + [LockFile(m)] in fs && Available(h, m)
  }

  /** detectPackageManager: the first manager, in the order pnpm, yarn, npm,
      whose lockfile is present and which is installed; failing that the
      first that is installed; failing that npm. */
  function DetectPackageManager(h: Host, fs: FileSystem): (m: Manager)
    ensures (exists x :: Locked(h, fs, x)) ==>
      Locked(h, fs, m) && forall x :: Rank(x) < Rank(m) ==> !Locked(h, fs, x)
    ensures (forall x :: !Locked(h, fs, x)) && (exists x :: Available(h, x)) ==>
      Available(h, m) && forall x :: Rank(x) < Rank(m) ==> !Available(h, x)
    ensures (forall x :: !Available(h, x)) ==> m == Npm
  {
    if Locked(h, fs, Pnpm) then Pnpm
    else if Locked(h, fs, Yarn) then Yarn
    else if Locked(h, fs, Npm) then Npm
    else if Available(h, Pnpm) then Pnpm
    else if Available(h, Yarn) then Yarn
    else if Available(h, Npm) then Npm
    else Npm
  }

  /** The flag that limits each manager's install to production dependencies. */
  function ProductionFlag(m: Manager): string {
    match m
    case Npm => "--omit=dev"
    case Pnpm => "--prod"
    case Yarn => "--production"
  }

  /** The production-only install command the program runs for each manager:
      `<manager> install`, then a space and the manager's flag. */
  function InstallCommand(m: Manager): (cmd: string)
    ensures StartsWith(cmd, CommandName(m) + " install ")
    ensures m == Npm ==> cmd == "npm install --omit=dev"
    ensures m == Pnpm ==> cmd == "pnpm install --prod"
    ensures m == Yarn ==> cmd == "yarn install --production"
  {
    var installCmd := CommandName(m) + " install ";
    PrefixOfConcat(installCmd, ProductionFlag(m));
    installCmd + ProductionFlag(m)
  }

  lemma PrefixOfConcat(a: string, b: string)
    ensures StartsWith(a + b, a)
  {
    assert (a + b)[..|a|] == a;
  }

  function CommandFailedMessage(cmd: string): string {
    "Command failed: " + cmd
  }

  /** `path.join(packageDir, "package.json")`. */
  function PackageJsonOf(packageDir: Path): Path {
    packageDir + ["package.json"]
  }

  /** Whether the package.json at `p` declares any dependencies: a section that
      is present is an object, and truthy even when empty. */
  predicate DeclaresDependencies(fs: FileSystem, p: Path)
    requires p in fs && fs[p].JsonFile?
  {
    fs[p].json.dependencies.Some? || fs[p].json.devDependencies.Some?
  }

  /** installPackageDependencies: runs the detected manager's install command
      in `packageDir` when its package.json declares dependencies. A missing
      package.json is skipped; an unreadable one, or a failing command, throws. */
  function InstallPackageDependencies(h: Host, w: World, packageDir: Path): (res: (World, Result<()>))
    ensures res.0.fs == w.fs && res.0.temps == w.temps
    ensures var p := PackageJsonOf(packageDir);
      var runs := p in w.fs && w.fs[p].JsonFile? && DeclaresDependencies(w.fs, p);
      var cmd := InstallCommand(DetectPackageManager(h, w.fs));
      && res.0.log == w.log + (if runs then [Exec(cmd, packageDir)] else [])
      && (res.1.Err? <==> (p in w.fs && !w.fs[p].JsonFile?) || (runs && h.execFails(cmd, packageDir)))
      && (runs && h.execFails(cmd, packageDir) ==> res.1 == Err(CommandFailedMessage(cmd)))
  {
    var packageJsonPath := PackageJsonOf(packageDir);
    if packageJsonPath !in w.fs then (w, Ok(()))
    else match ReadJson(w.fs, packageJsonPath)
      case Err(m) => (w, Err(m))
      case Ok(packageJson) =>
        if packageJson.dependencies.None? && packageJson.devDependencies.None? then (w, Ok(()))
        else
          var installCmd := InstallCommand(DetectPackageManager(h, w.fs));
          var w' := w.(log := w.log + [Exec(installCmd, packageDir)]);
          if h.execFails(installCmd, packageDir) then (w', Err(CommandFailedMessage(installCmd)))
          else (w', Ok(()))
  }

  const NoManifestMessage := "package.json not found in the current directory"

  /** getGitDependencies: the `gitDependencies` section of the project's
      package.json, `None` (null) when it has none. */
  function GetGitDependencies(h: Host, fs: FileSystem): (r: Result<Option<Dict>>)
    ensures ManifestPath(h) !in fs ==> r == Err(NoManifestMessage)
    ensures r.Ok? <==> ManifestPath(h) in fs && fs[ManifestPath(h)].JsonFile?
    ensures r.Ok? ==> r.value == fs[ManifestPath(h)].json.gitDependencies
  {
    var packageJsonPath := ManifestPath(h);
    if packageJsonPath !in fs then Err(NoManifestMessage)
    else match ReadJson(fs, packageJsonPath)
      case Err(m) => Err(m)
      case Ok(packageJson) => Ok(packageJson.gitDependencies)
  }

  /** The package.json saveGitDependency writes: the section (created empty
      when absent) with `dependencies` assigned into it, all else as read. */
  function WithGitDependencies(pj: PackageJson, dependencies: Dict): (r: PackageJson)
    ensures r.gitDependencies.Some?
    ensures r == pj.(gitDependencies := r.gitDependencies)
    ensures forall k ::
              Get(r.gitDependencies.value, k) ==
              (if k in Keys(dependencies) then Get(dependencies, k) else Get(pj.gitDependencies.GetOr([]), k))
  {
    var section := pj.gitDependencies.GetOr([]);
    forall k
      ensures Get(Overlay(section, dependencies), k) ==
        if k in Keys(dependencies) then Get(dependencies, k) else Get(section, k)
    {
      GetOverlay(section, dependencies, k);
    }
    pj.(gitDependencies := Some(Overlay(section, dependencies)))
  }

  /** The outcome of saveGitDependency. */
  function SaveResult(h: Host, w: World, dependencies: Dict): (World, Result<()>) {
    var packageJsonPath := ManifestPath(h);
    if packageJsonPath !in w.fs then (w, Err(NoManifestMessage))
    else match ReadJson(w.fs, packageJsonPath)
      case Err(m) => (w, Err(m))
      case Ok(packageJson) =>
        (w.(fs := w.fs[packageJsonPath := JsonFile(WithGitDependencies(packageJson, dependencies))],
            log := w.log + [WriteFile(packageJsonPath)]), Ok(()))
  }

  /** saveGitDependency: assigns each entry of `dependencies` into the
      section, in order, and writes the file back. */
  method SaveGitDependency(h: Host, w: World, dependencies: Dict) returns (w': World, r: Result<()>)
    ensures (w', r) == SaveResult(h, w, dependencies)
    ensures ManifestPath(h) !in w.fs ==> w' == w && r == Err(NoManifestMessage)
    ensures r.Ok? <==> ManifestPath(h) in w.fs && w.fs[ManifestPath(h)].JsonFile?
    ensures r.Err? ==> w' == w
  {
    var packageJsonPath := ManifestPath(h);
    if packageJsonPath !in w.fs {
      return w, Err(NoManifestMessage);
    }
    var read := ReadJson(w.fs, packageJsonPath);
    if read.Err? {
      return w, Err(read.error);
    }
    var packageJson := read.value;
    var section: Dict := packageJson.gitDependencies.GetOr([]);
    for i := 0 to |dependencies|
      invariant Overlay(section, dependencies[i..]) == Overlay(packageJson.gitDependencies.GetOr([]), dependencies)
    {
      assert dependencies[i..][1..] == dependencies[i + 1..];
      section := Put(section, dependencies[i].0, dependencies[i].1);
    }
    packageJson := packageJson.(gitDependencies := Some(section));
    w' := w.(fs := w.fs[packageJsonPath := JsonFile(packageJson)], log := w.log + [WriteFile(packageJsonPath)]);
    r := Ok(());
  }

  /** Reading the section back after a save answers the saved values for the
      saved names and the previous values for all other names. */
  lemma GetAfterSave(h: Host, w: World, dependencies: Dict, k: string)
    requires ManifestPath(h) in w.fs && w.fs[ManifestPath(h)].JsonFile?
    ensures var (w', r) := SaveResult(h, w, dependencies);
      var before := GetGitDependencies(h, w.fs).value.GetOr([]);
      && r.Ok?
      && GetGitDependencies(h, w'.fs).Ok?
      && GetGitDependencies(h, w'.fs).value.Some?
      && Get(GetGitDependencies(h, w'.fs).value.value, k) ==
           if k in Keys(dependencies) then Get(dependencies, k) else Get(before, k)
  {
  }

  /** Saving no entries into a manifest without the section creates it empty. */
  lemma SaveNothingCreatesSection(h: Host, w: World)
    requires ManifestPath(h) in w.fs && w.fs[ManifestPath(h)].JsonFile?
    requires w.fs[ManifestPath(h)].json.gitDependencies.None?
    ensures GetGitDependencies(h, SaveResult(h, w, []).0.fs) == Ok(Some([]))
  {
  }

  /** Saving the same entries twice leaves the same package.json as saving
      them once. */
  lemma SaveIdempotent(pj: PackageJson, dependencies: Dict)
    ensures WithGitDependencies(WithGitDependencies(pj, dependencies), dependencies) == WithGitDependencies(pj, dependencies)
  {
    OverlayIdempotent(pj.gitDependencies.GetOr([]), dependencies);
  }

  /** Existing names keep their place in the section; new names are added
      after them. */
  lemma SaveKeepsOrder(pj: PackageJson, dependencies: Dict)
    ensures var before := Keys(pj.gitDependencies.GetOr([]));
      var after := Keys(WithGitDependencies(pj, dependencies).gitDependencies.value);
      |before| <= |after| && after[..|before|] == before
  {
    OverlayKeepsOrder(pj.gitDependencies.GetOr([]), dependencies);
  }
}
