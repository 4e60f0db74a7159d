/** The program's environment: POSIX paths as `path.join` builds them, the
    filesystem as a finite map from paths to nodes, the parts of a
    `package.json` the program reads, the log of effects the program performs,
    and the host's answers to questions the program cannot decide itself
    (what git and the package manager do, which commands are installed). */
module Fs {
  import opened Wrappers
  import opened Strings
  import opened Dicts

  /** An absolute path, one element per segment below the root. */
  type Path = seq<string>

  /** One segment of a `path.join` argument: empty segments and "." vanish,
      ".." goes up (and stays at the root). */
  function Step(p: Path, segment: string): Path {
    if segment == "" || segment == "." then p
    else if segment == ".." then (if p == [] then [] else p[..|p| - 1])
    else p + [segment]
  }

  function JoinSegments(p: Path, segments: seq<string>): Path
    decreases |segments|
  {
    if segments == [] then p else JoinSegments(Step(p, segments[0]), segments[1..])
  }

  /** `path.join(p, s)`. */
  function Join(p: Path, s: string): Path {
    JoinSegments(p, Split(s, '/'))
  }

  /** A segment that `path.join` keeps as it is. */
  predicate IsName(segment: string) {
    segment != "" && segment != "." && segment != ".." && '/' !in segment
  }

  lemma JoinName(p: Path, segment: string)
    requires IsName(segment)
    ensures Join(p, segment) == p + [segment]
  {
    assert Split(segment, '/') == [segment];
    assert [segment][1..] == [];
    assert Step(p, segment) == p + [segment];
    assert JoinSegments(p + [segment], []) == p + [segment];
  }

  lemma JoinEmpty(p: Path)
    ensures Join(p, "") == p
  {
    assert Split("", '/') == [""];
    assert [""][1..] == [];
  }

  predicate IsPrefixOf(prefix: Path, p: Path) {
    |prefix| <= |p| && p[..|prefix|] == prefix
  }

  /** The fields of a `package.json` the program reads, each absent or present.
      Dependency sections are JSON objects, which are truthy even when empty. */
  datatype PackageJson = PackageJson(
    name: Option<string>,
    version: Option<string>,
    description: Option<string>,
    dependencies: Option<Dict>,
    devDependencies: Option<Dict>,
    gitDependencies: Option<Dict>)

  /** JavaScript truthiness of a string-valued field. */
  predicate Truthy(field: Option<string>) {
    field.Some? && field.value != ""
  }

  /** A directory, a file holding valid JSON, or any other file. */
  datatype Node = Dir | JsonFile(json: PackageJson) | OtherFile

  type FileSystem = map<Path, Node>

  const NotFoundMessage := "ENOENT: no such file or directory"
  const IsDirMessage := "EISDIR: illegal operation on a directory, read"
  const BadJsonMessage := "Unexpected token in JSON"

  /** `fs.readJson(p)` (and `JSON.parse(fs.readFile(p))`). */
  function ReadJson(fs: FileSystem, p: Path): (r: Result<PackageJson>)
    ensures r.Ok? <==> p in fs && fs[p].JsonFile?
    ensures r.Ok? ==> r.value == fs[p].json
  {
    if p !in fs then Err(NotFoundMessage)
    else match fs[p]
      case Dir => Err(IsDirMessage)
      case OtherFile => Err(BadJsonMessage)
      case JsonFile(json) => Ok(json)
  }

  function Ancestors(p: Path): set<Path> {
    set k | 1 <= k <= |p| :: p[..k]
  }

  /** `fs.ensureDir(p)`: `p` and its missing ancestors become directories. */
  function WithDirectory(fs: FileSystem, p: Path): (r: FileSystem)
    ensures p == [] || p in r
    ensures forall q :: q in fs ==> q in r && r[q] == fs[q]
  {
    assert p != [] ==> p == p[..|p|];
    fs + map q | q in Ancestors(p) && q !in fs :: Dir
  }

  /** The entries of `tree` moved below `dir`. */
  function Relocated(tree: FileSystem, from: Path, dir: Path): (r: FileSystem)
    ensures forall p :: p in tree && IsPrefixOf(from, p) ==> dir + p[|from|..] in r && r[dir + p[|from|..]] == tree[p]
    ensures forall q :: q in r ==> IsPrefixOf(dir, q)
  {
    var targets := set p | p in tree && IsPrefixOf(from, p) :: dir + p[|from|..];
    var r := map q | q in targets && |dir| <= |q| && from + q[|dir|..] in tree :: tree[from + q[|dir|..]];
    assert forall p :: p in tree && IsPrefixOf(from, p) ==> from + (dir + p[|from|..])[|dir|..] == p;
    r
  }

  /** `fs.copy(src, dst, { overwrite: true })`: everything below `src` is
      copied below `dst`, replacing files already there and keeping the rest. */
  function CopiedInto(fs: FileSystem, src: Path, dst: Path): (r: FileSystem)
    ensures forall p :: p in fs && IsPrefixOf(src, p) ==> dst + p[|src|..] in r && r[dst + p[|src|..]] == fs[p]
    ensures forall q :: q in fs && !IsPrefixOf(dst, q) ==> q in r && r[q] == fs[q]
    ensures fs.Keys <= r.Keys
  {
    fs + Relocated(fs, src, dst)
  }

  /** What the program does to the outside world, in the order it does it. */
  datatype Effect =
    | GitClone(url: string, dir: Path, options: seq<string>)   // git.clone(url, dir, options)
    | GitCheckout(dir: Path, ref: string)                      // simpleGit(dir).checkout(ref)
    | EnsureDir(path: Path)                                    // fs.ensureDir(path)
    | Copy(src: Path, dst: Path)                               // fs.copy(src, dst, { overwrite: true })
    | Exec(command: string, cwd: Path)                         // execSync(command, { cwd })
    | WriteFile(path: Path)                                    // fs.writeFile(path, ...)

  /** The state the program changes: the filesystem, how many temporary
      directories it has created, and the effects so far. */
  datatype World = World(fs: FileSystem, temps: nat, log: seq<Effect>)

  /** The answers of everything outside the program. */
  datatype Host = Host(
    cwd: Path,                                            // process.cwd()
    commands: set<string>,                                // commands `which`/`where` finds
    tempDir: nat -> Path,                                 // the n-th directory tmp.dirSync returns
    cloneError: (string, seq<string>) -> Option<string>,  // message of a failing git clone of url with options
    checkoutError: (string, string) -> Option<string>,    // message of a failing checkout of ref in a clone of url
    tree: (string, string) -> FileSystem,                 // the files of url at ref, relative to the clone
    execFails: (string, Path) -> bool)                    // whether the command exits non-zero in that directory

  /** `path.join(process.cwd(), "package.json")`. */
  function ManifestPath(h: Host): Path {
    h.cwd + ["package.json"]
  }
}
