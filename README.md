# git-deps, modelled in Dafny

`git-deps` installs packages straight from Git repositories. A project declares
them in a `gitDependencies` section of its `package.json`, mapping a package
name to a reference of the form `url#tok&tok`, where a token is a ref (branch,
tag or commit) or `path:<subdirectory>`. `git-deps install` groups the declared
references by repository and ref, clones each repository once into a temporary
directory, copies each package's subtree into `node_modules/<name>` (skipping
packages already there unless forced) and runs the host package manager's
production install in it. Given a Git URL, it first clones that URL to learn
the package's name, records it in the section, and installs it. `git-deps list`
prints the declared entries and, on request, the status of each installed
package.

This project models that core. It covers the utilities in `src/utils/git.js`
and `src/utils/package-manager.js` and the two commands in
`src/commands/install.js` and `src/commands/list.js`. It proves the properties
the code promises about them.

## How the model is built

- `Wrappers`: Option and Result. A thrown `Error` is modelled by its message.
- `Strings`: splitting and joining on a character, prefixes, and decimal
  rendering of a count.
- `Dicts`: a JSON object of strings, as an insertion-ordered list of
  (key, value) pairs with distinct keys.
  - Assignment keeps the key's position and appends new keys.
  - `Overlay` is the `for … of Object.entries(d)` assignment loop.
- `Fs`: the program's environment, in three parts.
  - POSIX paths as segment lists, with `Join` resolving `""`, `.` and `..` as
    `path.join` does.
  - The filesystem as a finite map from paths to directories, JSON files and
    other files.
  - A `World` value (filesystem, temporary directories handed out so far, and
    the log of effects: clones, checkouts, `ensureDir`, `copy`, `execSync`,
    `writeFile`). A `Host` value holds everything outside the program: its
    working directory, the installed commands, the temporary directory names,
    whether each clone, checkout and command fails, and each repository's
    files at each ref.
- `Git`, `PackageManager`, `Install` and `ListCommand` follow the four source
  files.
  - An operation that loops in the source is a method with a loop. Its
    `ensures` ties the result to a recursive specification function. The
    properties are proved about that function. These methods are
    `ParseGitUrl`, `SaveGitDependency`, `GroupDependenciesByRepo`, `Install`
    (with `InstallGroups` and `InstallMembers` for its two loops) and `List`
    (with `ShowEntries`).
  - The steps of `List` that print without a loop, `ShowEntry`,
    `ShowManifest` and `ShowDependencyDetails`, are methods as well. In the
    source they are separate steps that read files and print line by line,
    skipping or returning early on each missing piece, so each method appends its events
    in that order. Each is proved to compute a specification function
    (`EntryLines`, `ManifestLines`, `DetailLines`). The lemmas about the
    listing are stated on those functions, which the lemmas can call.
  - An effect sequence without a loop is a function from a `World` to the new
    `World` and a result.

Behaviour of the code that is easy to misread, which the model follows:

- A scoped name `@scope/pkg` is installed at `node_modules/@scope/pkg`; the `@`
  is kept.
- `url.split("#")` is destructured into two pieces. So the fragment is the
  text between the first and second `#`, and anything after a second `#` is
  dropped.
- With ref `HEAD` the clone is shallow, and `checkout("HEAD")` still follows.
- Only 40 lower-case hex digits count as a commit hash.
- `fs.copy` with `overwrite` merges into an existing destination rather than
  replacing it.
- Installing a Git URL clones its repository twice.
- Lockfiles are looked up relative to the working directory.

## Model

| member | source | states |
|---|---|---|
| Git.ParseGitUrl | src/utils/git.js:18-38 | the token loop computes `Parse`: the url before the first '#', the last non-path token as ref and the remainder of the last `path:` token as subpath |
| Git.Parse | src/utils/git.js:19 | the parsed url never contains '#' |
| Git.ParseWithoutFragment | src/utils/git.js:19-23 | without a '#' the whole text is the url, with ref "HEAD" and path "/" |
| Git.ParseEmptyFragment | src/utils/git.js:19-23 | a trailing '#', or an empty first fragment, gives the defaults |
| Git.ParseIgnoresSecondFragment | src/utils/git.js:19 | text after a second '#' does not affect the result |
| Git.ParseTwoTokens | src/utils/git.js:25-35 | a fragment `a&b` is parsed as the two tokens `[a, b]` |
| Git.ParseRefAndPath | src/utils/git.js:25-37 | one ref token and one `path:` token give that ref and that path, in either order |
| Git.ParseSingleRef | src/utils/git.js:25-37 | a lone ref token sets the ref and leaves the path "/" |
| Git.ParseSinglePath | src/utils/git.js:29-31 | a lone `path:` token sets the path and leaves the ref "HEAD" |
| Git.ParseLaterRefWins | src/utils/git.js:29-35 | of two ref tokens the later is the ref |
| Git.ParseLaterPathWins | src/utils/git.js:29-35 | of two path tokens the later is the path |
| Git.IsGitUrl | src/utils/git.js:87-101 | accepts exactly the `https://`, `http://` and `git://` prefixes, `git@host:….git` with a host of letters, digits, `_`, `.` and `-`, and `./`, `../` or `/` paths ending in ".git" |
| Git.GitUrlMarker | src/utils/git.js:87-101 | every Git URL contains ':' or starts with '.' or '/', so a plain package name is never one |
| Git.GitUrlShape | src/utils/git.js:87-101 | every Git URL starts with an http, https or git scheme or ends in ".git" |
| Git.UrlPathname | src/utils/git.js:50-67 | `new URL` throws when the text has no scheme; under a special scheme the pathname is never empty and starts with '/' |
| Git.RepoNameFromUrl | src/utils/git.js:45-80 | the repository name is always a single path segment, never containing '/', whichever branch produced it |
| Git.SchemeUrlPathname | src/utils/git.js:50-67 | for `scheme://host` followed by a path without query or fragment, the pathname is that path with its `.` and `..` segments resolved; an empty path is "/" under a special scheme and "" under any other |
| Git.NormalizedPlainPath | src/utils/git.js:50-67 | a path of plain segments (non-empty, not `.` or `..`, no '/', '?' or '#') comes out of the parser unchanged |
| Git.RepoNameOfSegments | src/utils/git.js:67-75 | a pathname of plain segments, with or without a final '/', names its last segment without ".git" when there are at least two segments, and "unknown-repo" when there are fewer |
| Git.RepoNameOfSchemeUrl | src/utils/git.js:50-75 | `scheme://host/s1/…/sn` with plain segments, under any valid scheme, special or not, names `sn` without its ".git" when n ≥ 2 and "unknown-repo" when n < 2 |
| Git.RepoNameOfOwnerRepoUrl | src/utils/git.js:50-73 | `scheme://host/owner/repo` names `repo` without its ".git" |
| Git.RepoNameIgnoresFinalDot | src/utils/git.js:50-75 | a final `.` segment is dropped by the parser, leaving the name of the segments before it |
| Git.RepoNameOfFinalDotDot | src/utils/git.js:50-75 | a final `..` segment removes the segment before it, and the name is that of the segments left |
| Git.RepoNameOfScpUrl | src/utils/git.js:50-58 | `user@host:owner/name.git` names `name` |
| Git.RepoNameOfScpUrlWithoutSuffix | src/utils/git.js:50-58 | `user@host:owner/name` names `name` |
| Git.PlanClone | src/utils/git.js:122-139 | a lower-case commit hash is cloned in full and checked out; "HEAD" is cloned shallowly and checked out; any other ref is cloned shallowly with `--branch` and not checked out; checkout happens exactly when `--branch` is absent |
| Git.PlanCloneOfBranch | src/utils/git.js:125-129 | a branch name is cloned with `--depth=1 --single-branch --branch main` |
| Git.PlanCloneOfUpperCaseHash | src/utils/git.js:122 | an upper-case 40-digit hash is treated as a branch |
| Git.PlanCloneDeterminesRef | src/utils/git.js:122-129 | two refs with the same clone options are the same ref, unless both are commit hashes, which are cloned with no options and told apart by the checkout |
| Git.CloneRepo | src/utils/git.js:110-145 | takes one new temporary directory; succeeds exactly when the clone, and a checkout where planned, succeed; logs the clone then the checkout; answers the directory; prefixes every failure with "Git clone failed: "; a failed clone answers the prefix and the clone's own message with only the clone logged; a failed checkout answers the prefix and the checkout's message with the clone and the checkout logged |
| Git.CloneRepoHoldsTree | src/utils/git.js:131-141 | after a successful clone the temporary directory holds the repository's files at the ref |
| Git.CloneRepoKeepsOthers | src/utils/git.js:110-145 | cloning changes nothing outside the temporary directory |
| Git.SourcePathOf | src/utils/git.js:154 | subpath "/" selects the clone itself and "/name" its child `name` |
| Git.ExtractFiles | src/utils/git.js:153-162 | fails exactly when the source is missing, then changing nothing and naming the subpath; otherwise logs `ensureDir(dest)` then `copy(source, dest)` |
| Git.ExtractFilesCopies | src/utils/git.js:160-161 | afterwards the destination exists and holds every entry below the source |
| Git.ExtractFilesKeepsOthers | src/utils/git.js:160-161 | extracting changes nothing outside the destination |
| Git.GetPackageName | src/utils/git.js:170-190 | answers the name exactly when the package.json under the subpath exists, is readable and has a truthy name; null otherwise, never an error |
| PackageManager.DetectPackageManager | src/utils/package-manager.js:28-49 | the first of pnpm, yarn, npm with a lockfile and an installed command; else the first installed; else npm |
| PackageManager.InstallCommand | src/utils/package-manager.js:71-79 | the command is exactly `npm install --omit=dev`, `pnpm install --prod` or `yarn install --production`, by manager, and so starts with `<manager> install ` |
| PackageManager.InstallPackageDependencies | src/utils/package-manager.js:55-88 | runs the detected manager's command in the package exactly when its package.json exists and declares `dependencies` or `devDependencies`; fails on an unreadable package.json or a failing command; changes no file |
| PackageManager.GetGitDependencies | src/utils/package-manager.js:94-104 | a missing manifest throws "package.json not found…"; otherwise the `gitDependencies` field, or null when absent |
| PackageManager.WithGitDependencies | src/utils/package-manager.js:121-129 | the section exists afterwards; the saved keys take the saved values and other keys keep theirs; no other field changes |
| PackageManager.SaveGitDependency | src/utils/package-manager.js:111-137 | the assignment loop writes the overlaid section back; a missing or unreadable manifest fails and writes nothing |
| PackageManager.GetAfterSave | src/utils/package-manager.js:94-137 | reading the section after a save answers the saved value for every saved name and the old value for every other name |
| PackageManager.SaveNothingCreatesSection | src/utils/package-manager.js:121-124 | saving `{}` into a manifest without the section creates it empty |
| PackageManager.SaveIdempotent | src/utils/package-manager.js:121-129 | saving the same entries twice gives the same package.json as saving them once |
| PackageManager.SaveKeepsOrder | src/utils/package-manager.js:127-129 | saved names already present keep their place, and new names come after the old ones |
| Dicts.GetOverlay | src/utils/package-manager.js:127-129 | after the assignment loop each assigned key has its new value and every other key its old one |
| Install.GroupDependenciesByRepo | src/commands/install.js:111-126 | the loop computes `Grouped`, whose groups are non-empty and carry one key each |
| Install.RepoKeyInjective | src/commands/install.js:116 | two references get the same key exactly when they share url and ref |
| Install.GroupedIsReference | src/commands/install.js:111-126 | the group keys are the distinct keys in order of first appearance, and each group holds exactly the entries with its key, in order |
| Install.GroupKeysDistinct | src/commands/install.js:118-122 | no two groups share a key |
| Install.EveryEntryGrouped | src/commands/install.js:114-123 | every entry is a member of some group |
| Install.DestinationFor | src/commands/install.js:137-147 | the destination is found for every name except a scope without '/', which fails with the `path` type error |
| Install.ScopedDestination | src/commands/install.js:140-143 | `@scope/pkg` is installed at `node_modules/@scope/pkg` |
| Install.ScopedDestinationDropsExtra | src/commands/install.js:142-143 | pieces of a scoped name after the second are ignored |
| Install.BareScopeFails | src/commands/install.js:142-143 | a scoped name without '/' makes `path.join` throw |
| Install.PlainDestination | src/commands/install.js:144-147 | an unscoped name is installed at `node_modules/<name>` |
| Install.CopyAndInstall | src/commands/install.js:155-159 | a missing source fails with nothing done; otherwise the filesystem is the copied one and the log is `ensureDir(dest)`, `copy(source, dest)`, then the detected manager's install command run in the destination exactly when the copied package.json declares dependencies |
| Install.CopyAndInstallRunsOwnInstall | src/commands/install.js:155-159 | a package whose own package.json in the clone declares dependencies has the detected manager's install command run in its destination, right after the copy |
| Install.InstallDependency | src/commands/install.js:135-162 | without force an existing destination is skipped with nothing done; otherwise the files are extracted and their dependencies installed; a bad scoped name fails with nothing done |
| Install.RunMembers | src/commands/install.js:94-96 | the members' installs only extend the log and take no temporary directory; no members do nothing |
| Install.InstallDependencyClonesNothing | src/commands/install.js:135-162 | installing one dependency clones nothing |
| Install.CloneRepoClonesOnce | src/utils/git.js:131 | `cloneRepo` clones its url once, with the options its ref calls for, whether it succeeds or fails |
| Install.RunGroups | src/commands/install.js:85-97 | a run that succeeds uses one temporary directory per group |
| Install.RunGroupsClonesEachGroupOnce | src/commands/install.js:85-97 | a run that succeeds clones each group's repository once, from its first member's url with the clone options of that member's ref, in group order, and nothing else |
| Install.RunGroupsClonesPrefix | src/commands/install.js:85-103 | any run makes the clones (url and options) of a prefix of the groups, in order, and nothing else |
| Install.RunMembersStopsAtError | src/commands/install.js:94-96 | once a member fails, the run over the whole group equals the run up to that member: no later member is extracted or installed |
| Install.RunGroupsStopsAtError | src/commands/install.js:85-97 | once a clone or a member fails, the run over all groups equals the run up to that group: no later group is cloned or installed |
| Install.InstallMembers | src/commands/install.js:94-96 | the inner loop computes `RunMembers` |
| Install.InstallGroups | src/commands/install.js:85-97 | the outer loop computes `RunGroups` |
| Install.SelectDependencies | src/commands/install.js:35-73 | no argument selects the whole section; a declared name with a truthy url selects that entry; an undeclared one stops with an error |
| Install.AdHocName | src/commands/install.js:46-48 | the name is the truthy `name` of the package.json under the subpath in the clone when there is one, and otherwise the repository name of the url |
| Install.AdHoc | src/commands/install.js:37-56 | a failed clone stops with its error; a selection clones first and selects the single entry mapping the chosen name to the full Git URL |
| Install.Single | src/commands/install.js:53-56 | `{ [name]: gitUrl }` has the one key `name` with value `gitUrl` |
| Install.Install | src/commands/install.js:25-104 | the command computes `InstallSpec`: read the section, select, group, clone and install; every error is caught and reported as the outcome |
| Install.InstallWithoutManifest | src/commands/install.js:26-103 | without a package.json install fails at once and changes nothing |
| Install.InstallCreatesMissingSection | src/commands/install.js:29-79 | a manifest without the section gets an empty one, and nothing is installed: the only effect is the manifest write, and nothing is cloned |
| Install.InstallNothingDeclared | src/commands/install.js:76-79 | an empty section and no argument leave everything as it was |
| Install.InstallUnknownName | src/commands/install.js:62-69 | an undeclared name is reported, with no clone, write or install |
| Install.InstallAllStopsAtError | src/commands/install.js:85-103 | when installing the whole section fails in some group, install ends there with `Failed` and that error, in the world the failing run left |
| Install.InstallAllClonesEachRepositoryOnce | src/commands/install.js:71-97 | installing the whole section clones each group's url once, with the clone options of its ref, in order, and as many times as there are distinct (url, ref) pairs |
| Install.AdHocRecordsDependency | src/commands/install.js:48-53 | the saved section maps the chosen name to the full Git URL, fragment included; the name is the package.json name in the clone when there is one, else the repository name of the url |
| Install.AdHocClonesOnce | src/commands/install.js:43 | choosing the name for a Git URL clones its url once, with the clone options of its ref |
| Install.GroupedSingle | src/commands/install.js:111-126 | a single dependency forms a single group |
| Install.InstallSpecOfAdHoc | src/commands/install.js:38-97 | a completed install of a Git URL is its ad-hoc selection followed by a run over its one group |
| Install.AdHocClonesTwice | src/commands/install.js:43-91 | a completed install of a Git URL clones that url exactly twice, both times with the clone options of its ref |
| Install.SingleRunClonesOnce | src/commands/install.js:85-97 | installing one dependency's group clones its url once, with the clone options of its ref |
| ListCommand.ManifestLines | src/commands/list.js:78-89 | prints the version and the description when truthy and the number of dependency keys when the section is present, each once and nothing else |
| ListCommand.DetailLines | src/commands/list.js:51-94 | a bad name logs at debug level; a missing directory prints "Not installed" only; an installed one prints "Installed", then, when its package.json exists, reads it and prints `ManifestLines` of it, or one debug line when it cannot be read; errors are never reported above debug level; only the package's own package.json is read |
| ListCommand.ShowManifest | src/commands/list.js:78-89 | the three checks compute `ManifestLines` |
| ListCommand.ShowDependencyDetails | src/commands/list.js:51-94 | computes `DetailLines` |
| ListCommand.ShowEntry | src/commands/list.js:28-40 | one iteration prints the entry's block |
| ListCommand.ShowEntries | src/commands/list.js:27-41 | the loop prints the entries' blocks in order |
| ListCommand.List | src/commands/list.js:14-45 | computes `ListOutput`: an error becomes one error line; a missing or empty section one warning; otherwise the header and each entry's block |
| ListCommand.ListEmpty | src/commands/list.js:18-21 | a missing or empty section gives the warning alone |
| ListCommand.EntriesLinesAppend | src/commands/list.js:27-41 | the blocks of two runs of entries are the blocks of each, one after the other |
| ListCommand.ListShowsEveryEntry | src/commands/list.js:27-41 | every entry's block appears in manifest order, between the blocks before it and after it, whatever the details of the others |
| ListCommand.EntryBlockShape | src/commands/list.js:30-40 | every block starts with the name, repository, ref and path lines, and ends with an empty line, whatever its details |
| ListCommand.DetailsOfMissingPackage | src/commands/list.js:68-71 | a package that is not installed has no package.json read |
| ListCommand.DetailsOfScopedPackage | src/commands/list.js:57-60 | the details of `@scope/pkg` are looked up in `node_modules/@scope/pkg` |
| ListCommand.DetailsCountDependencies | src/commands/list.js:86-89 | an installed package declaring dependencies shows their count |

## Left out

- The WHATWG URL parser behind `new URL` is modelled only as far as the
  pathname goes. It covers the scheme rule, special schemes with an authority,
  other schemes with or without `//`, the resolution of `.` and `..` segments
  in paths that start with '/', and query and fragment cut-offs. Not modelled:
  - percent-encoded dot segments such as `%2e`, and percent-encoding generally;
  - the backslash as a path separator in special URLs;
  - the trimming of leading and trailing control characters and spaces, and
    the removal of tabs and newlines, from the input;
  - the `file:` scheme's own host rules (it is parsed as a non-special scheme);
  - ports, credentials, IPv6 hosts and host validation.
- The regular expressions are written out as predicates for the exact
  patterns used, with `.` excluding the line terminators.
- Not modelled in JSON values:
  - non-string values in the dependency sections;
  - prototype keys such as `__proto__`;
  - JavaScript's ordering of integer-like keys before other keys in
    `Object.entries`.

  Dictionaries are insertion-ordered.
- A `gitDependencies` field that is present but falsy (`""`, `0`, `false`) is
  not modelled. A present section is an object.
- Reading and serialising JSON are not modelled. A manifest is a parsed value,
  and an unreadable one is a file that is not JSON.
- Failures of `tmp.dirSync`, `fs.ensureDir`, `fs.copy` and `fs.writeFile` are
  not modelled; each of these operations succeeds.
- The uniqueness of temporary directory names is not modelled. The names are
  whatever the host supplies.
- Copying when the source and destination overlap is not modelled.
- The effect of `execSync` of the package manager on the filesystem is not
  modelled. The command is logged, and the host says whether it fails.
- `commandExists` is the host's set of installed commands. The choice between
  `which` and `where` per platform is left out.
- Logging is not modelled, as follows:
  - install: logging, spinners and colours are left out, and its outcome is
    returned instead;
  - list: console and logger output, and each `package.json` it reads, are
    events without colours.
- `process.exit(1)` after a caught install error is the outcome `Failed`.
- Command-line wiring of `commander` in `src/index.js` and `bin/git-deps.js`
  is not part of this model.
- Sequencing of `async`/`await` is modelled as plain sequential evaluation.
- In the filesystem map, the root directory exists only when it is present
  in the map.
- Install.RunMembers: the model does not state as a separate lemma that each
  member is installed once from its group's clone. That follows from its
  definition and is not restated.
- Literal test vectors of the repository's tests are not restated one by one.
  The general lemmas above (parsing, names, clone plans, destinations) cover
  them.
