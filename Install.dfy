/** src/commands/install.js: grouping the dependencies to install by
    repository and ref, so each repository is cloned once, and installing
    each dependency from its clone into node_modules. */
module Install {
  import opened Wrappers
  import opened Strings
  import opened Dicts
  import opened Fs
  import opened Git
  import opened PackageManager

  // ---------------------------------------------------------------------------
  // groupDependenciesByRepo

  /** One entry of a repository group, `{ name, gitUrl, parsed }`. */
  datatype Member = Member(name: string, gitUrl: string, parsed: GitReference)

  /** A group of dependencies that share a repository and ref. */
  datatype Group = Group(key: string, members: seq<Member>)

  /** `${parsed.url}#${parsed.ref}`. */
  function RepoKey(r: GitReference): string {
    r.url + "#" + r.ref
  }

  /** Repository keys tell apart exactly the (url, ref) pairs of parsed
      references, whose urls never contain '#'. */
  lemma RepoKeyInjective(a: GitReference, b: GitReference)
    requires '#' !in a.url && '#' !in b.url
    ensures RepoKey(a) == RepoKey(b) <==> a.url == b.url && a.ref == b.ref
  {
    if RepoKey(a) == RepoKey(b) {
      var k := RepoKey(a);
      assert k == a.url + ['#'] + a.ref;
      assert k == b.url + ['#'] + b.ref;
      IndexOfAfter(a.url, '#', a.ref);
      IndexOfAfter(b.url, '#', b.ref);
      assert a.url == k[..|a.url|] && b.url == k[..|b.url|];
      assert a.ref == k[|a.url| + 1..] && b.ref == k[|b.url| + 1..];
    }
  }

  function MemberOf(e: Entry): Member {
    Member(e.0, e.1, Parse(e.1))
  }

  function KeyOf(m: Member): string {
    RepoKey(m.parsed)
  }

  /** The position of the group with that key, `|groups|` when there is none. */
  function FindGroup(groups: seq<Group>, key: string): (j: nat)
    ensures j <= |groups|
    ensures j < |groups| ==> groups[j].key == key
    ensures forall i :: 0 <= i < j ==> groups[i].key != key
  {
    if groups == [] then 0
    else if groups[0].key == key then 0
    else 1 + FindGroup(groups[1..], key)
  }

  /** Groups whose members are non-empty and all carry the group's key. */
  predicate WellFormed(groups: seq<Group>) {
    forall j :: 0 <= j < |groups| ==>
      groups[j].members != [] && forall m :: m in groups[j].members ==> KeyOf(m) == groups[j].key
  }

  /** `groups[key] ||= []; groups[key].push(m)`. */
  function AddMember(groups: seq<Group>, m: Member): (r: seq<Group>)
    requires WellFormed(groups)
    ensures WellFormed(r)
  {
    var j := FindGroup(groups, KeyOf(m));
    if j < |groups| then groups[j := Group(KeyOf(m), groups[j].members + [m])]
    else groups + [Group(KeyOf(m), [m])]
  }

  /** The value groupDependenciesByRepo returns for these entries. */
  function Grouped(entries: seq<Entry>): (r: seq<Group>)
    ensures WellFormed(r)
    decreases |entries|
  {
    if entries == [] then []
    else AddMember(Grouped(entries[..|entries| - 1]), MemberOf(entries[|entries| - 1]))
  }

  /** groupDependenciesByRepo. */
  method GroupDependenciesByRepo(dependencies: Dict) returns (groups: seq<Group>)
    ensures groups == Grouped(dependencies)
  {
    groups := [];
    for i := 0 to |dependencies|
      invariant groups == Grouped(dependencies[..i])
    {
      assert dependencies[..i + 1][..i] == dependencies[..i];
      var (name, gitUrl) := dependencies[i];
      var parsed := ParseGitUrl(gitUrl);
      var key := RepoKey(parsed);
      var j := FindGroup(groups, key);
      if j == |groups| {
        groups := groups + [Group(key, [])];
      }
      assert [] + [Member(name, gitUrl, parsed)] == [Member(name, gitUrl, parsed)];
      groups := groups[j := Group(key, groups[j].members + [Member(name, gitUrl, parsed)])];
    }
    assert dependencies[..|dependencies|] == dependencies;
  }

  // The reference definition of the grouping: one group per distinct key, in
  // order of first appearance, holding the members with that key in order.

  function MembersOf(entries: seq<Entry>): (ms: seq<Member>)
    ensures |ms| == |entries| && forall i :: 0 <= i < |entries| ==> ms[i] == MemberOf(entries[i])
  {
    if entries == [] then [] else MembersOf(entries[..|entries| - 1]) + [MemberOf(entries[|entries| - 1])]
  }

  function KeysOf(ms: seq<Member>): (ks: seq<string>)
    ensures |ks| == |ms| && forall i :: 0 <= i < |ms| ==> ks[i] == KeyOf(ms[i])
  {
    if ms == [] then [] else KeysOf(ms[..|ms| - 1]) + [KeyOf(ms[|ms| - 1])]
  }

  function GroupKeys(groups: seq<Group>): (ks: seq<string>)
    ensures |ks| == |groups| && forall i :: 0 <= i < |groups| ==> ks[i] == groups[i].key
  {
    if groups == [] then [] else GroupKeys(groups[..|groups| - 1]) + [groups[|groups| - 1].key]
  }

  /** The distinct elements of `s`, in order of first appearance. */
  function Dedup(s: seq<string>): (r: seq<string>)
    ensures forall x :: x in r <==> x in s
    ensures forall i, j :: 0 <= i < j < |r| ==> r[i] != r[j]
  {
    if s == [] then []
    else
      var d := Dedup(s[..|s| - 1]);
      assert forall x :: x in s <==> x in s[..|s| - 1] || x == s[|s| - 1];
      if s[|s| - 1] in d then d else d + [s[|s| - 1]]
  }

  /** The members with that key, in order. */
  function WithKey(ms: seq<Member>, key: string): (r: seq<Member>)
    ensures forall m :: m in r <==> m in ms && KeyOf(m) == key
  {
    if ms == [] then []
    else
      var rest := WithKey(ms[..|ms| - 1], key);
      assert forall m :: m in ms <==> m in ms[..|ms| - 1] || m == ms[|ms| - 1];
      if KeyOf(ms[|ms| - 1]) == key then rest + [ms[|ms| - 1]] else rest
  }

  lemma {:induction false} WithKeyOfUnused(ms: seq<Member>, key: string)
    requires key !in KeysOf(ms)
    ensures WithKey(ms, key) == []
    decreases |ms|
  {
    if ms != [] {
      var prefix := ms[..|ms| - 1];
      assert KeysOf(ms) == KeysOf(prefix) + [KeyOf(ms[|ms| - 1])];
      WithKeyOfUnused(prefix, key);
    }
  }

  lemma {:induction false} KeysSnoc(ms: seq<Member>, m: Member)
    ensures KeysOf(ms + [m]) == KeysOf(ms) + [KeyOf(m)]
  {
    assert (ms + [m])[..|ms|] == ms;
  }

  lemma {:induction false} WithKeySnoc(ms: seq<Member>, m: Member, key: string)
    ensures WithKey(ms + [m], key) == WithKey(ms, key) + (if KeyOf(m) == key then [m] else [])
  {
    assert (ms + [m])[..|ms|] == ms;
  }

  lemma {:induction false} DedupSnoc(ks: seq<string>, k: string)
    ensures Dedup(ks + [k]) == if k in Dedup(ks) then Dedup(ks) else Dedup(ks) + [k]
  {
    assert (ks + [k])[..|ks|] == ks;
  }

  /** `groups` is the reference grouping of `ms`. */
  predicate IsReferenceGrouping(groups: seq<Group>, ms: seq<Member>) {
    GroupKeys(groups) == Dedup(KeysOf(ms)) &&
    forall j :: 0 <= j < |groups| ==> groups[j].members == WithKey(ms, groups[j].key)
  }

  lemma GroupKeysUpdate(groups: seq<Group>, j: nat, g: Group)
    requires j < |groups| && g.key == groups[j].key
    ensures GroupKeys(groups[j := g]) == GroupKeys(groups)
  {
    assert forall i :: 0 <= i < |groups| ==> GroupKeys(groups[j := g])[i] == GroupKeys(groups)[i];
  }

  lemma {:induction false} ExistingGroupKeys(groups: seq<Group>, ms: seq<Member>, m: Member)
    requires WellFormed(groups) && GroupKeys(groups) == Dedup(KeysOf(ms))
    requires FindGroup(groups, KeyOf(m)) < |groups|
    ensures GroupKeys(AddMember(groups, m)) == Dedup(KeysOf(ms + [m]))
  {
    var k := KeyOf(m);
    var j := FindGroup(groups, k);
    assert GroupKeys(groups)[j] == k;
    GroupKeysUpdate(groups, j, Group(k, groups[j].members + [m]));
    KeysSnoc(ms, m);
    DedupSnoc(KeysOf(ms), k);
  }

  lemma {:induction false} ExistingGroupMembersAt(groups: seq<Group>, ms: seq<Member>, m: Member, i: nat)
    requires WellFormed(groups) && IsReferenceGrouping(groups, ms)
    requires FindGroup(groups, KeyOf(m)) < |groups| && i < |groups|
    ensures AddMember(groups, m)[i].members == WithKey(ms + [m], AddMember(groups, m)[i].key)
  {
    var j := FindGroup(groups, KeyOf(m));
    WithKeySnoc(ms, m, groups[i].key);
    if i != j {
      assert GroupKeys(groups)[i] != GroupKeys(groups)[j];
    }
  }

  lemma {:induction false} AddToExistingGroup(groups: seq<Group>, ms: seq<Member>, m: Member)
    requires WellFormed(groups) && IsReferenceGrouping(groups, ms)
    requires FindGroup(groups, KeyOf(m)) < |groups|
    ensures IsReferenceGrouping(AddMember(groups, m), ms + [m])
  {
    ExistingGroupKeys(groups, ms, m);
    forall i | 0 <= i < |AddMember(groups, m)|
      ensures AddMember(groups, m)[i].members == WithKey(ms + [m], AddMember(groups, m)[i].key)
    {
      ExistingGroupMembersAt(groups, ms, m, i);
    }
  }

  lemma {:induction false} NewGroupKeys(groups: seq<Group>, ms: seq<Member>, m: Member)
    requires WellFormed(groups) && GroupKeys(groups) == Dedup(KeysOf(ms))
    requires FindGroup(groups, KeyOf(m)) == |groups|
    ensures GroupKeys(AddMember(groups, m)) == Dedup(KeysOf(ms + [m]))
  {
    var k := KeyOf(m);
    var after := AddMember(groups, m);
    assert k !in GroupKeys(groups);
    KeysSnoc(ms, m);
    DedupSnoc(KeysOf(ms), k);
    assert after[..|groups|] == groups;
  }

  lemma {:induction false} NewGroupMembersAt(groups: seq<Group>, ms: seq<Member>, m: Member, i: nat)
    requires WellFormed(groups) && IsReferenceGrouping(groups, ms)
    requires FindGroup(groups, KeyOf(m)) == |groups| && i <= |groups|
    ensures AddMember(groups, m)[i].members == WithKey(ms + [m], AddMember(groups, m)[i].key)
  {
    var k := KeyOf(m);
    if i < |groups| {
      WithKeySnoc(ms, m, groups[i].key);
    } else {
      assert k !in GroupKeys(groups);
      WithKeyOfUnused(ms, k);
      WithKeySnoc(ms, m, k);
    }
  }

  lemma {:induction false} AddNewGroup(groups: seq<Group>, ms: seq<Member>, m: Member)
    requires WellFormed(groups) && IsReferenceGrouping(groups, ms)
    requires FindGroup(groups, KeyOf(m)) == |groups|
    ensures IsReferenceGrouping(AddMember(groups, m), ms + [m])
  {
    NewGroupKeys(groups, ms, m);
    forall i | 0 <= i < |AddMember(groups, m)|
      ensures AddMember(groups, m)[i].members == WithKey(ms + [m], AddMember(groups, m)[i].key)
    {
      NewGroupMembersAt(groups, ms, m, i);
    }
  }

  /** The grouping agrees with the reference definition: the group keys are
      the distinct keys in order of first appearance, and each group holds
      exactly the members with its key, in their order. */
  lemma {:induction false} GroupedIsReference(entries: seq<Entry>)
    ensures GroupKeys(Grouped(entries)) == Dedup(KeysOf(MembersOf(entries)))
    ensures forall j :: 0 <= j < |Grouped(entries)| ==>
      Grouped(entries)[j].members == WithKey(MembersOf(entries), Grouped(entries)[j].key)
    decreases |entries|
  {
    assert IsReferenceGrouping(Grouped(entries), MembersOf(entries)) by {
      if entries != [] {
        var prefix := entries[..|entries| - 1];
        var m := MemberOf(entries[|entries| - 1]);
        GroupedIsReference(prefix);
        if FindGroup(Grouped(prefix), KeyOf(m)) < |Grouped(prefix)| {
          AddToExistingGroup(Grouped(prefix), MembersOf(prefix), m);
        } else {
          AddNewGroup(Grouped(prefix), MembersOf(prefix), m);
        }
      }
    }
  }

  /** No two groups share a key, so no repository and ref is cloned twice. */
  lemma {:induction false} GroupKeysDistinct(entries: seq<Entry>)
    ensures forall i, j :: 0 <= i < j < |Grouped(entries)| ==> Grouped(entries)[i].key != Grouped(entries)[j].key
  {
    GroupedIsReference(entries);
    var g := Grouped(entries);
    forall i, j | 0 <= i < j < |g| ensures g[i].key != g[j].key {
      assert GroupKeys(g)[i] == g[i].key && GroupKeys(g)[j] == g[j].key;
    }
  }

  /** Every dependency lands in the group of its key. */
  lemma {:induction false} EveryEntryGrouped(entries: seq<Entry>, i: nat)
    requires i < |entries|
    ensures exists j :: 0 <= j < |Grouped(entries)| && MemberOf(entries[i]) in Grouped(entries)[j].members
  {
    GroupedIsReference(entries);
    var g := Grouped(entries);
    var k := KeyOf(MemberOf(entries[i]));
    assert KeysOf(MembersOf(entries))[i] == k;
    assert k in GroupKeys(g);
    var j :| 0 <= j < |g| && GroupKeys(g)[j] == k;
    assert MembersOf(entries)[i] == MemberOf(entries[i]);
  }

  // ---------------------------------------------------------------------------
  // installDependency

  const PathTypeError := "The \"path\" argument must be of type string. Received undefined"

  /** `path.join(process.cwd(), "node_modules")`. */
  function NodeModules(h: Host): Path {
    h.cwd + ["node_modules"]
  }

  /** The destination installDependency computes: `node_modules/<scope>/<pkg>`
      from the first two '/'-pieces of a scoped name, `node_modules/<name>`
      otherwise. A scoped name without '/' leaves `pkgName` undefined, and
      `path.join` throws. */
  function DestinationFor(h: Host, name: string): (r: Result<Path>)
    ensures r.Err? ==> StartsWith(name, "@") && '/' !in name && r.error == PathTypeError
  {
    var nodeModulesDir := NodeModules(h);
    if StartsWith(name, "@") then
      var parts := Split(name, '/');
      if |parts| < 2 then Err(PathTypeError)
      else Ok(Join(Join(nodeModulesDir, parts[0]), parts[1]))
    else Ok(Join(nodeModulesDir, name))
  }

  /** The destination of a name starting with '@' with at least two pieces. */
  lemma ScopedPieces(h: Host, name: string, scoped: string, pkg: string)
    requires |name| > 0 && name[0] == '@'
    requires IsName(scoped) && IsName(pkg)
    requires |Split(name, '/')| >= 2 && Split(name, '/')[0] == scoped && Split(name, '/')[1] == pkg
    ensures DestinationFor(h, name) == Ok(NodeModules(h) + [scoped, pkg])
  {
    assert name[..1] == "@";
    assert StartsWith(name, "@");
    JoinName(NodeModules(h), scoped);
    JoinName(NodeModules(h) + [scoped], pkg);
    assert NodeModules(h) + [scoped] + [pkg] == NodeModules(h) + [scoped, pkg];
  }

  /** `@scope/pkg` is installed at `node_modules/@scope/pkg`, keeping the '@'. */
  lemma ScopedDestination(h: Host, scoped: string, pkg: string)
    requires IsName(scoped) && scoped[0] == '@' && IsName(pkg)
    ensures DestinationFor(h, scoped + "/" + pkg) == Ok(NodeModules(h) + [scoped, pkg])
  {
    var n := scoped + "/" + pkg;
    assert n == scoped + ['/'] + pkg;
    SplitTwo(scoped, '/', pkg);
    ScopedPieces(h, n, scoped, pkg);
  }

  /** Pieces of a scoped name after the second are dropped. */
  lemma ScopedDestinationDropsExtra(h: Host, scoped: string, pkg: string, extra: string)
    requires IsName(scoped) && scoped[0] == '@' && IsName(pkg)
    ensures DestinationFor(h, scoped + "/" + pkg + "/" + extra) == Ok(NodeModules(h) + [scoped, pkg])
  {
    var n := scoped + "/" + pkg + "/" + extra;
    var tail := pkg + ['/'] + extra;
    assert n == scoped + ['/'] + tail;
    SplitAfter(scoped, '/', tail);
    SplitAfter(pkg, '/', extra);
    ScopedPieces(h, n, scoped, pkg);
  }

  /** A scope alone cannot be installed. */
  lemma BareScopeFails(h: Host, name: string)
    requires StartsWith(name, "@") && '/' !in name
    ensures DestinationFor(h, name) == Err(PathTypeError)
  {
    assert Split(name, '/') == [name];
  }

  /** An unscoped name is installed at `node_modules/<name>`. */
  lemma PlainDestination(h: Host, name: string)
    requires IsName(name) && !StartsWith(name, "@")
    ensures DestinationFor(h, name) == Ok(NodeModules(h) + [name])
  {
    JoinName(NodeModules(h), name);
  }

  /** The part of installDependency after the destination is chosen: the
      subtree is copied to `destDir` and its own dependencies are installed. */
  function CopyAndInstall(h: Host, w: World, subPath: string, repoDir: Path, destDir: Path): (res: (World, Result<()>))
    ensures res.0.temps == w.temps
    ensures SourcePath(repoDir, subPath) !in w.fs ==> res == (w, Err(MissingSourceMessage(subPath)))
    ensures SourcePath(repoDir, subPath) in w.fs ==> |w.log| + 2 <= |res.0.log|
    ensures SourcePath(repoDir, subPath) in w.fs ==>
      res.0.log[..|w.log| + 2] == w.log + [EnsureDir(destDir), Copy(SourcePath(repoDir, subPath), destDir)]
    ensures SourcePath(repoDir, subPath) in w.fs ==>
      NoClones(res.0.log[|w.log| + 2..])
    ensures SourcePath(repoDir, subPath) in w.fs ==>
      var copied := ExtractFiles(w, repoDir, subPath, destDir).0;
      var p := PackageJsonOf(destDir);
      var runs := p in copied.fs && copied.fs[p].JsonFile? && DeclaresDependencies(copied.fs, p);
      && res.0.fs == copied.fs
      && res.0.log == w.log + [EnsureDir(destDir), Copy(SourcePath(repoDir, subPath), destDir)] +
                      (if runs then [Exec(InstallCommand(DetectPackageManager(h, copied.fs)), destDir)] else [])
  {
    var (extracted, r) := ExtractFiles(w, repoDir, subPath, destDir);
    if r.Err? then (extracted, r)
    else InstallPackageDependencies(h, extracted, destDir)
  }

  /** A copied package whose own package.json declares dependencies has them
      installed by the detected manager, in its destination. */
  lemma CopyAndInstallRunsOwnInstall(h: Host, w: World, subPath: string, repoDir: Path, destDir: Path)
    requires SourcePath(repoDir, subPath) + ["package.json"] in w.fs
    requires w.fs[SourcePath(repoDir, subPath) + ["package.json"]].JsonFile?
    requires DeclaresDependencies(w.fs, SourcePath(repoDir, subPath) + ["package.json"])
    requires SourcePath(repoDir, subPath) in w.fs
    requires !IsPrefixOf(destDir, SourcePath(repoDir, subPath) + ["package.json"])
    ensures CopyAndInstall(h, w, subPath, repoDir, destDir).0.log ==
      w.log + [EnsureDir(destDir), Copy(SourcePath(repoDir, subPath), destDir),
               Exec(InstallCommand(DetectPackageManager(h, ExtractFiles(w, repoDir, subPath, destDir).0.fs)), destDir)]
  {
    var src := SourcePath(repoDir, subPath);
    var own := src + ["package.json"];
    var copied := ExtractFiles(w, repoDir, subPath, destDir).0;
    var p := PackageJsonOf(destDir);
    assert IsPrefixOf(src, own) && own[|src|..] == ["package.json"];
    ExtractFilesCopies(w, repoDir, subPath, destDir, own);
    assert destDir + own[|src|..] == p;
    assert p in copied.fs && copied.fs[p] == w.fs[own];
    assert copied.fs[p].JsonFile? && DeclaresDependencies(copied.fs, p);
  }

  /** installDependency: unless forced, an existing destination is left as it
      is; otherwise the subtree is copied there and its own dependencies are
      installed. */
  function InstallDependency(h: Host, w: World, name: string, subPath: string, repoDir: Path, force: bool): (res: (World, Result<()>))
    ensures res.0.temps == w.temps
    ensures w.log <= res.0.log
    ensures DestinationFor(h, name).Err? ==> res == (w, Err(DestinationFor(h, name).error))
    ensures DestinationFor(h, name).Ok? && !force && DestinationFor(h, name).value in w.fs ==> res == (w, Ok(()))
    ensures DestinationFor(h, name).Ok? && (force || DestinationFor(h, name).value !in w.fs) ==>
      res == CopyAndInstall(h, w, subPath, repoDir, DestinationFor(h, name).value)
  {
    match DestinationFor(h, name)
    case Err(m) => (w, Err(m))
    case Ok(destDir) =>
      if !force && destDir in w.fs then (w, Ok(()))
      else CopyAndInstall(h, w, subPath, repoDir, destDir)
  }

  // ---------------------------------------------------------------------------
  // Which repositories were cloned

  /** A clone as the log records it: the url and the options it was given. */
  type Clone = (string, seq<string>)

  /** The clone a dependency's repository is made from: its url, with the
      options its ref calls for. */
  function CloneOf(parsed: GitReference): Clone {
    (parsed.url, PlanClone(parsed.ref).options)
  }

  /** The clones in an effect log, in order. */
  function Clones(log: seq<Effect>): seq<Clone> {
    if log == [] then []
    else (if log[0].GitClone? then [(log[0].url, log[0].options)] else []) + Clones(log[1..])
  }

  /** A log extension with no clone in it. */
  predicate NoClones(log: seq<Effect>) {
    forall i :: 0 <= i < |log| ==> !log[i].GitClone?
  }

  lemma {:induction false} ClonesOfNoClones(log: seq<Effect>)
    requires NoClones(log)
    ensures Clones(log) == []
  {
    if log != [] {
      ClonesOfNoClones(log[1..]);
    }
  }

  lemma {:induction false} ClonesAppend(a: seq<Effect>, b: seq<Effect>)
    ensures Clones(a + b) == Clones(a) + Clones(b)
  {
    if a == [] {
      assert a + b == b;
    } else {
      assert (a + b)[0] == a[0];
      assert (a + b)[1..] == a[1..] + b;
      ClonesAppend(a[1..], b);
    }
  }

  /** Installing a dependency from a clone clones nothing. */
  lemma InstallDependencyClonesNothing(h: Host, w: World, name: string, subPath: string, repoDir: Path, force: bool)
    ensures Clones(InstallDependency(h, w, name, subPath, repoDir, force).0.log) == Clones(w.log)
  {
    var res := InstallDependency(h, w, name, subPath, repoDir, force);
    if res.0.log != w.log {
      var destDir := DestinationFor(h, name).value;
      var copied := [EnsureDir(destDir), Copy(SourcePath(repoDir, subPath), destDir)];
      var rest := res.0.log[|w.log| + 2..];
      assert res.0.log == w.log + copied + rest;
      ClonesAppend(w.log + copied, rest);
      ClonesAppend(w.log, copied);
      ClonesOfNoClones(rest);
      ClonesOfNoClones(copied);
    }
  }

  lemma {:induction false} CloneRepoClonesOnce(h: Host, w: World, url: string, ref: string)
    ensures Clones(CloneRepo(h, w, url, ref).0.log) == Clones(w.log) + [(url, PlanClone(ref).options)]
  {
    var (w', r) := CloneRepo(h, w, url, ref);
    var plan := PlanClone(ref);
    var dir := h.tempDir(w.temps);
    var tail := if r.Ok? && plan.checkout then [GitCheckout(dir, ref)] else [];
    if h.cloneError(url, plan.options).None? && plan.checkout && h.checkoutError(url, ref).Some? {
      assert w'.log == w.log + [GitClone(url, dir, plan.options)] + [GitCheckout(dir, ref)];
      tail := [GitCheckout(dir, ref)];
    }
    assert w'.log == w.log + [GitClone(url, dir, plan.options)] + tail;
    ClonesAppend(w.log + [GitClone(url, dir, plan.options)], tail);
    ClonesAppend(w.log, [GitClone(url, dir, plan.options)]);
    assert Clones(tail) == [];
  }

  // ---------------------------------------------------------------------------
  // install: processing the groups

  /** Every group has a first member to take the repository from. */
  predicate NonEmptyGroups(groups: seq<Group>) {
    forall j :: 0 <= j < |groups| ==> groups[j].members != []
  }

  /** The inner loop of install: each member of a group is installed from the
      group's clone, in order; the first failure ends the loop. */
  function RunMembers(h: Host, w: World, repoDir: Path, members: seq<Member>, force: bool): (res: (World, Result<()>))
    ensures res.0.temps == w.temps
    ensures w.log <= res.0.log
    ensures members == [] ==> res == (w, Ok(()))
    decreases |members|
  {
    if members == [] then (w, Ok(()))
    else
      var (w1, r) := InstallDependency(h, w, members[0].name, members[0].parsed.path, repoDir, force);
      if r.Err? then (w1, r) else RunMembers(h, w1, repoDir, members[1..], force)
  }

  /** The outer loop of install: each group's repository is cloned once, from
      its first member's url and ref, and its members are installed from that
      clone; the first failure ends the loop. */
  function RunGroups(h: Host, w: World, groups: seq<Group>, force: bool): (res: (World, Result<()>))
    requires NonEmptyGroups(groups)
    ensures res.1.Ok? ==> res.0.temps == w.temps + |groups|
    decreases |groups|
  {
    if groups == [] then (w, Ok(()))
    else
      var first := groups[0].members[0].parsed;
      var (w1, c) := CloneRepo(h, w, first.url, first.ref);
      match c
      case Err(e) => (w1, Err(e))
      case Ok(repoDir) =>
        var (w2, r) := RunMembers(h, w1, repoDir, groups[0].members, force);
        if r.Err? then (w2, r) else RunGroups(h, w2, groups[1..], force)
  }

  /** The clone each group is made from, in order: the url and ref of its
      first member. */
  function GroupClones(groups: seq<Group>): (clones: seq<Clone>)
    requires NonEmptyGroups(groups)
    ensures |clones| == |groups|
    ensures forall j :: 0 <= j < |groups| ==> clones[j] == CloneOf(groups[j].members[0].parsed)
  {
    if groups == [] then [] else [CloneOf(groups[0].members[0].parsed)] + GroupClones(groups[1..])
  }

  lemma {:induction false} RunMembersClonesNothing(h: Host, w: World, repoDir: Path, members: seq<Member>, force: bool)
    ensures Clones(RunMembers(h, w, repoDir, members, force).0.log) == Clones(w.log)
    decreases |members|
  {
    if members != [] {
      var (w1, r) := InstallDependency(h, w, members[0].name, members[0].parsed.path, repoDir, force);
      InstallDependencyClonesNothing(h, w, members[0].name, members[0].parsed.path, repoDir, force);
      if r.Ok? {
        RunMembersClonesNothing(h, w1, repoDir, members[1..], force);
      }
    }
  }

  lemma ShiftFirst(before: seq<Clone>, middle: seq<Clone>, after: seq<Clone>, u: Clone, rest: seq<Clone>)
    requires middle == before + [u] && after == middle + rest
    ensures after == before + ([u] + rest)
  {
  }

  lemma NonEmptyTail(groups: seq<Group>)
    requires NonEmptyGroups(groups) && groups != []
    ensures NonEmptyGroups(groups[1..])
  {
    forall j | 0 <= j < |groups| - 1 ensures groups[1..][j].members != [] {
      assert groups[1..][j] == groups[j + 1];
    }
  }

  /** The world after the first group of a run: its clone, then its members. */
  function AfterFirstGroup(h: Host, w: World, groups: seq<Group>, force: bool): (World, Result<()>)
    requires NonEmptyGroups(groups) && groups != []
  {
    var first := groups[0].members[0].parsed;
    var (w1, c) := CloneRepo(h, w, first.url, first.ref);
    if c.Err? then (w1, Err(c.error)) else RunMembers(h, w1, c.value, groups[0].members, force)
  }

  lemma RunGroupsStep(h: Host, w: World, groups: seq<Group>, force: bool)
    requires NonEmptyGroups(groups) && groups != []
    requires RunGroups(h, w, groups, force).1.Ok?
    ensures AfterFirstGroup(h, w, groups, force).1.Ok?
    ensures RunGroups(h, w, groups, force) == RunGroups(h, AfterFirstGroup(h, w, groups, force).0, groups[1..], force)
  {
  }

  /** The run after its first group: stopped by that group's failure, or
      going on with the remaining groups. */
  lemma RunGroupsUnfold(h: Host, w: World, groups: seq<Group>, force: bool)
    requires NonEmptyGroups(groups) && groups != []
    ensures NonEmptyGroups(groups[1..])
    ensures AfterFirstGroup(h, w, groups, force).1.Err? ==> RunGroups(h, w, groups, force) == AfterFirstGroup(h, w, groups, force)
    ensures AfterFirstGroup(h, w, groups, force).1.Ok? ==>
      RunGroups(h, w, groups, force) == RunGroups(h, AfterFirstGroup(h, w, groups, force).0, groups[1..], force)
  {
    NonEmptyTail(groups);
  }

  lemma FirstGroupClonesOnce(h: Host, w: World, groups: seq<Group>, force: bool)
    requires NonEmptyGroups(groups) && groups != []
    ensures Clones(AfterFirstGroup(h, w, groups, force).0.log) == Clones(w.log) + [CloneOf(groups[0].members[0].parsed)]
  {
    var first := groups[0].members[0].parsed;
    var (w1, c) := CloneRepo(h, w, first.url, first.ref);
    CloneRepoClonesOnce(h, w, first.url, first.ref);
    if c.Ok? {
      RunMembersClonesNothing(h, w1, c.value, groups[0].members, force);
    }
  }

  /** A successful run clones each group's repository exactly once, in the
      order of the groups, and nothing else. */
  lemma {:induction false} RunGroupsClonesEachGroupOnce(h: Host, w: World, groups: seq<Group>, force: bool)
    requires NonEmptyGroups(groups)
    requires RunGroups(h, w, groups, force).1.Ok?
    ensures Clones(RunGroups(h, w, groups, force).0.log) == Clones(w.log) + GroupClones(groups)
    decreases |groups|
  {
    if groups != [] {
      var a := AfterFirstGroup(h, w, groups, force).0;
      var tail := groups[1..];
      var u := CloneOf(groups[0].members[0].parsed);
      RunGroupsStep(h, w, groups, force);
      FirstGroupClonesOnce(h, w, groups, force);
      NonEmptyTail(groups);
      RunGroupsClonesEachGroupOnce(h, a, tail, force);
      assert GroupClones(groups) == [u] + GroupClones(tail);
      ShiftFirst(Clones(w.log), Clones(a.log), Clones(RunGroups(h, a, tail, force).0.log), u, GroupClones(tail));
    }
  }

  /** `after` is `before` followed by the first few of `clones`. */
  predicate ClonedPrefix(before: seq<Clone>, after: seq<Clone>, clones: seq<Clone>) {
    exists k :: 0 <= k <= |clones| && after == before + clones[..k]
  }

  lemma PrefixCons(before: seq<Clone>, middle: seq<Clone>, after: seq<Clone>, u: Clone, rest: seq<Clone>)
    requires middle == before + [u] && ClonedPrefix(middle, after, rest)
    ensures ClonedPrefix(before, after, [u] + rest)
  {
    var k :| 0 <= k <= |rest| && after == middle + rest[..k];
    assert ([u] + rest)[..k + 1] == [u] + rest[..k];
  }

  /** Whatever happens, the run clones the repositories of a prefix of the
      groups, in order, and nothing else (that an error ends the run is
      `RunGroupsStopsAtError`). */
  lemma {:induction false} RunGroupsClonesPrefix(h: Host, w: World, groups: seq<Group>, force: bool)
    requires NonEmptyGroups(groups)
    ensures ClonedPrefix(Clones(w.log), Clones(RunGroups(h, w, groups, force).0.log), GroupClones(groups))
    decreases |groups|
  {
    if groups == [] {
      assert Clones(w.log) == Clones(w.log) + GroupClones(groups)[..0];
    } else {
      var a := AfterFirstGroup(h, w, groups, force);
      var tail := groups[1..];
      var u := CloneOf(groups[0].members[0].parsed);
      RunGroupsUnfold(h, w, groups, force);
      FirstGroupClonesOnce(h, w, groups, force);
      assert GroupClones(groups) == [u] + GroupClones(tail);
      if a.1.Err? {
        assert ClonedPrefix(Clones(a.0.log), Clones(a.0.log), GroupClones(tail)) by {
          assert Clones(a.0.log) == Clones(a.0.log) + GroupClones(tail)[..0];
        }
      } else {
        RunGroupsClonesPrefix(h, a.0, tail, force);
      }
      PrefixCons(Clones(w.log), Clones(a.0.log), Clones(RunGroups(h, w, groups, force).0.log), u, GroupClones(tail));
    }
  }

  /** A failing member ends the group: once the members before `i` have
      failed, the run over the whole group is the run over those members, so
      no later member is extracted or installed. */
  lemma {:induction false} RunMembersStopsAtError(h: Host, w: World, repoDir: Path, members: seq<Member>, i: nat, force: bool)
    requires i <= |members|
    requires RunMembers(h, w, repoDir, members[..i], force).1.Err?
    ensures RunMembers(h, w, repoDir, members, force) == RunMembers(h, w, repoDir, members[..i], force)
    decreases i
  {
    assert members[..i] != [];
    assert members[..i][0] == members[0];
    var (w1, r) := InstallDependency(h, w, members[0].name, members[0].parsed.path, repoDir, force);
    if r.Ok? {
      assert members[..i][1..] == members[1..][..i - 1];
      RunMembersStopsAtError(h, w1, repoDir, members[1..], i - 1, force);
    }
  }

  /** A failing clone or member ends the run: once the groups before `i` have
      failed, the run over all groups is the run over those groups, so no
      later group is cloned or installed. */
  lemma {:induction false} RunGroupsStopsAtError(h: Host, w: World, groups: seq<Group>, i: nat, force: bool)
    requires NonEmptyGroups(groups) && i <= |groups|
    requires RunGroups(h, w, groups[..i], force).1.Err?
    ensures RunGroups(h, w, groups, force) == RunGroups(h, w, groups[..i], force)
    decreases i
  {
    assert groups[..i] != [];
    assert groups[..i][0] == groups[0];
    var first := groups[0].members[0].parsed;
    var (w1, c) := CloneRepo(h, w, first.url, first.ref);
    if c.Ok? {
      var (w2, r) := RunMembers(h, w1, c.value, groups[0].members, force);
      if r.Ok? {
        NonEmptyTail(groups);
        assert groups[..i][1..] == groups[1..][..i - 1];
        RunGroupsStopsAtError(h, w2, groups[1..], i - 1, force);
      }
    }
  }

  // ---------------------------------------------------------------------------
  // install: choosing what to install

  /** How install ends: success, nothing to do, an unknown dependency name
      (logged as an error, exit status 0), or a caught error (logged as
      "Installation failed: <message>", exit status 1). */
  datatype Outcome = Completed | NothingToInstall | NotDeclared(name: string) | Failed(message: string)

  /** The dependencies install goes on to install, or the outcome it stops with. */
  datatype Selection = Selected(w: World, deps: Dict) | Stop(w: World, outcome: Outcome)

  /** The name an ad-hoc dependency is recorded under: the truthy `name` of
      the package.json under its subpath in the clone, or else the repository
      name of its url. */
  function AdHocName(fs: FileSystem, repo: Path, parsed: GitReference): (name: string)
    ensures var p := PackageJsonIn(repo, parsed.path);
      && (p in fs && fs[p].JsonFile? && Truthy(fs[p].json.name) ==> Some(name) == fs[p].json.name)
      && (!(p in fs && fs[p].JsonFile? && Truthy(fs[p].json.name)) ==> name == RepoNameFromUrl(parsed.url))
  {
    GetPackageName(fs, repo, parsed.path).GetOr(RepoNameFromUrl(parsed.url))
  }

  /** `{ [name]: gitUrl }`. */
  function Single(name: string, gitUrl: string): (d: Dict)
    ensures Keys(d) == [name] && Get(d, name) == Some(gitUrl)
  {
    [(name, gitUrl)]
  }

  /** A git URL given on the command line: it is cloned to find the package's
      name, recorded in the project's package.json, and selected alone. */
  function AdHoc(h: Host, w: World, gitUrl: string): (s: Selection)
    ensures var parsed := Parse(gitUrl);
      var (w1, c) := CloneRepo(h, w, parsed.url, parsed.ref);
      && (c.Err? ==> s == Stop(w1, Failed(c.error)))
      && (s.Selected? ==> c.Ok? && s.deps == Single(AdHocName(w1.fs, c.value, parsed), gitUrl))
  {
    var parsed := Parse(gitUrl);
    var (w1, c) := CloneRepo(h, w, parsed.url, parsed.ref);
    if c.Err? then Stop(w1, Failed(c.error))
    else
      var entry := Single(AdHocName(w1.fs, c.value, parsed), gitUrl);
      var (w2, saved) := SaveResult(h, w1, entry);
      if saved.Err? then Stop(w2, Failed(saved.error)) else Selected(w2, entry)
  }

  /** `depsToInstall`: the named dependency when it is declared with a truthy
      url, the ad-hoc URL's entry, or the whole section. */
  function SelectDependencies(h: Host, w: World, declared: Dict, depArg: Option<string>): (s: Selection)
    ensures !Truthy(depArg) ==> s == Selected(w, declared)
    ensures Truthy(depArg) && !IsGitUrl(depArg.value) && Truthy(Get(declared, depArg.value)) ==>
      s == Selected(w, [(depArg.value, Get(declared, depArg.value).value)])
    ensures Truthy(depArg) && !IsGitUrl(depArg.value) && !Truthy(Get(declared, depArg.value)) ==>
      s == Stop(w, NotDeclared(depArg.value))
  {
    if Truthy(depArg) && IsGitUrl(depArg.value) then AdHoc(h, w, depArg.value)
    else if Truthy(depArg) then
      var url := Get(declared, depArg.value);
      if Truthy(url) then Selected(w, [(depArg.value, url.value)]) else Stop(w, NotDeclared(depArg.value))
    else Selected(w, declared)
  }

  /** What install does: reads the section (saving an empty one when there is
      none), selects the dependencies, and installs them group by group. */
  function InstallSpec(h: Host, w: World, depArg: Option<string>, force: bool): (World, Outcome) {
    match GetGitDependencies(h, w.fs)
    case Err(e) => (w, Failed(e))
    case Ok(section) =>
      // Saving the empty section cannot fail: the manifest was just read.
      var w1 := if section.None? then SaveResult(h, w, []).0 else w;
      match SelectDependencies(h, w1, section.GetOr([]), depArg)
        case Stop(w2, outcome) => (w2, outcome)
        case Selected(w2, todo) =>
          if |todo| == 0 then (w2, NothingToInstall)
          else
            var (w3, r) := RunGroups(h, w2, Grouped(todo), force);
            if r.Err? then (w3, Failed(r.error)) else (w3, Completed)
  }

  /** The inner loop of install over one group's members. */
  method InstallMembers(h: Host, w: World, repoDir: Path, deps: seq<Member>, force: bool) returns (w': World, r: Result<()>)
    ensures (w', r) == RunMembers(h, w, repoDir, deps, force)
  {
    w' := w;
    for k := 0 to |deps|
      invariant RunMembers(h, w, repoDir, deps, force) == RunMembers(h, w', repoDir, deps[k..], force)
    {
      var (w1, installed) := InstallDependency(h, w', deps[k].name, deps[k].parsed.path, repoDir, force);
      if installed.Err? {
        return w1, installed;
      }
      assert deps[k..][1..] == deps[k + 1..];
      w' := w1;
    }
    r := Ok(());
  }

  /** The outer loop of install over the repository groups. */
  method InstallGroups(h: Host, w: World, groups: seq<Group>, force: bool) returns (w': World, r: Result<()>)
    requires NonEmptyGroups(groups)
    ensures (w', r) == RunGroups(h, w, groups, force)
  {
    w' := w;
    for i := 0 to |groups|
      invariant RunGroups(h, w, groups, force) == RunGroups(h, w', groups[i..], force)
    {
      assert groups[i..][1..] == groups[i + 1..];
      var parsed := groups[i].members[0].parsed;
      var (w1, repo) := CloneRepo(h, w', parsed.url, parsed.ref);
      if repo.Err? {
        return w1, Err(repo.error);
      }
      var installed;
      w', installed := InstallMembers(h, w1, repo.value, groups[i].members, force);
      if installed.Err? {
        return w', installed;
      }
    }
    r := Ok(());
  }

  /** install. */
  method Install(h: Host, w: World, depArg: Option<string>, force: bool) returns (w': World, outcome: Outcome)
    ensures (w', outcome) == InstallSpec(h, w, depArg, force)
  {
    w' := w;
    var read := GetGitDependencies(h, w.fs);
    if read.Err? {
      return w', Failed(read.error);
    }
    var gitDependencies := read.value;
    if gitDependencies.None? {
      var created;
      w', created := SaveGitDependency(h, w', []);
      gitDependencies := Some([]);
    }
    var declared := gitDependencies.value;
    var depsToInstall: Dict := [];
    if Truthy(depArg) && IsGitUrl(depArg.value) {
      var gitUrl := depArg.value;
      var parsed := ParseGitUrl(gitUrl);
      var (w1, repo) := CloneRepo(h, w', parsed.url, parsed.ref);
      w' := w1;
      if repo.Err? {
        return w', Failed(repo.error);
      }
      var packageName := AdHocName(w'.fs, repo.value, parsed);
      var saved;
      w', saved := SaveGitDependency(h, w', Single(packageName, gitUrl));
      if saved.Err? {
        return w', Failed(saved.error);
      }
      depsToInstall := Single(packageName, gitUrl);
    } else if Truthy(depArg) {
      var url := Get(declared, depArg.value);
      if Truthy(url) {
        depsToInstall := [(depArg.value, url.value)];
      } else {
        return w', NotDeclared(depArg.value);
      }
    } else {
      depsToInstall := declared;
    }
    if |depsToInstall| == 0 {
      return w', NothingToInstall;
    }
    var groups := GroupDependenciesByRepo(depsToInstall);
    var r;
    w', r := InstallGroups(h, w', groups, force);
    if r.Err? {
      return w', Failed(r.error);
    }
    outcome := Completed;
  }

  // ---------------------------------------------------------------------------
  // Properties of install

  /** Without a package.json install fails before doing anything. */
  lemma InstallWithoutManifest(h: Host, w: World, depArg: Option<string>, force: bool)
    requires ManifestPath(h) !in w.fs
    ensures InstallSpec(h, w, depArg, force) == (w, Failed(NoManifestMessage))
  {
  }

  /** A package.json without the section gets an empty one, and with no
      argument there is then nothing to install. */
  lemma InstallCreatesMissingSection(h: Host, w: World, force: bool)
    requires ManifestPath(h) in w.fs && w.fs[ManifestPath(h)].JsonFile?
    requires w.fs[ManifestPath(h)].json.gitDependencies.None?
    ensures InstallSpec(h, w, None, force).1 == NothingToInstall
    ensures GetGitDependencies(h, InstallSpec(h, w, None, force).0.fs) == Ok(Some([]))
    ensures InstallSpec(h, w, None, force).0.log == w.log + [WriteFile(ManifestPath(h))]
    ensures Clones(InstallSpec(h, w, None, force).0.log) == Clones(w.log)
  {
    SaveNothingCreatesSection(h, w);
    SaveClonesNothing(h, w, []);
  }

  /** An empty section and no argument: nothing to install, nothing done. */
  lemma InstallNothingDeclared(h: Host, w: World, force: bool)
    requires GetGitDependencies(h, w.fs) == Ok(Some([]))
    ensures InstallSpec(h, w, None, force) == (w, NothingToInstall)
  {
  }

  /** A name that is not declared with a truthy url is reported, and nothing
      is cloned, written or installed. */
  lemma InstallUnknownName(h: Host, w: World, declared: Dict, name: string, force: bool)
    requires GetGitDependencies(h, w.fs) == Ok(Some(declared))
    requires name != "" && !IsGitUrl(name) && !Truthy(Get(declared, name))
    ensures InstallSpec(h, w, Some(name), force) == (w, NotDeclared(name))
  {
  }

  /** Installing everything that is declared clones each group's repository
      once, in the order of the groups, and nothing else; there are as many
      clones as distinct (url, ref) pairs among the declared urls. */
  lemma InstallAllClonesEachRepositoryOnce(h: Host, w: World, declared: Dict, force: bool)
    requires GetGitDependencies(h, w.fs) == Ok(Some(declared)) && declared != []
    requires InstallSpec(h, w, None, force).1 == Completed
    ensures Clones(InstallSpec(h, w, None, force).0.log) == Clones(w.log) + GroupClones(Grouped(declared))
    ensures |GroupClones(Grouped(declared))| == |Dedup(KeysOf(MembersOf(declared)))|
  {
    InstallSpecOfAll(h, w, declared, force);
    RunGroupsClonesEachGroupOnce(h, w, Grouped(declared), force);
    GroupedIsReference(declared);
  }

  /** Installing everything that is declared ends with the first error of
      the run over the groups: when the groups before `i` fail, install
      stops there with `Failed` and that error, and the later groups are
      neither cloned nor installed. */
  lemma InstallAllStopsAtError(h: Host, w: World, declared: Dict, i: nat, force: bool)
    requires GetGitDependencies(h, w.fs) == Ok(Some(declared)) && declared != []
    requires i <= |Grouped(declared)|
    requires RunGroups(h, w, Grouped(declared)[..i], force).1.Err?
    ensures InstallSpec(h, w, None, force) ==
      (RunGroups(h, w, Grouped(declared)[..i], force).0, Failed(RunGroups(h, w, Grouped(declared)[..i], force).1.error))
  {
    assert SelectDependencies(h, w, declared, None) == Selected(w, declared);
    RunGroupsStopsAtError(h, w, Grouped(declared), i, force);
  }

  /** A completed install of the whole section is the run over its groups. */
  lemma InstallSpecOfAll(h: Host, w: World, declared: Dict, force: bool)
    requires GetGitDependencies(h, w.fs) == Ok(Some(declared)) && declared != []
    requires InstallSpec(h, w, None, force).1 == Completed
    ensures NonEmptyGroups(Grouped(declared))
    ensures RunGroups(h, w, Grouped(declared), force).1.Ok?
    ensures InstallSpec(h, w, None, force).0 == RunGroups(h, w, Grouped(declared), force).0
  {
    assert SelectDependencies(h, w, declared, None) == Selected(w, declared);
  }

  /** The section read back after an ad-hoc URL is selected records it under
      the name it is installed as. */
  lemma AdHocRecordsDependency(h: Host, w: World, gitUrl: string)
    requires AdHoc(h, w, gitUrl).Selected?
    ensures GetGitDependencies(h, AdHoc(h, w, gitUrl).w.fs).Ok?
    ensures GetGitDependencies(h, AdHoc(h, w, gitUrl).w.fs).value.Some?
    ensures Get(GetGitDependencies(h, AdHoc(h, w, gitUrl).w.fs).value.value, AdHoc(h, w, gitUrl).deps[0].0) == Some(gitUrl)
    ensures var parsed := Parse(gitUrl);
      var (w1, c) := CloneRepo(h, w, parsed.url, parsed.ref);
      && c.Ok?
      && AdHoc(h, w, gitUrl).deps[0].0 ==
         (if GetPackageName(w1.fs, c.value, parsed.path).Some? then GetPackageName(w1.fs, c.value, parsed.path).value
          else RepoNameFromUrl(parsed.url))
  {
    var parsed := Parse(gitUrl);
    var (w1, c) := CloneRepo(h, w, parsed.url, parsed.ref);
    var entry := Single(AdHocName(w1.fs, c.value, parsed), gitUrl);
    GetAfterSave(h, w1, entry, entry[0].0);
  }

  /** Saving the section clones nothing. */
  lemma SaveClonesNothing(h: Host, w: World, dependencies: Dict)
    ensures Clones(SaveResult(h, w, dependencies).0.log) == Clones(w.log)
  {
    if SaveResult(h, w, dependencies).0.log != w.log {
      ClonesAppend(w.log, [WriteFile(ManifestPath(h))]);
    }
  }

  /** Selecting an ad-hoc URL clones it once. */
  lemma AdHocClonesOnce(h: Host, w: World, gitUrl: string)
    requires AdHoc(h, w, gitUrl).Selected?
    ensures Clones(AdHoc(h, w, gitUrl).w.log) == Clones(w.log) + [CloneOf(Parse(gitUrl))]
  {
    var parsed := Parse(gitUrl);
    var (w1, c) := CloneRepo(h, w, parsed.url, parsed.ref);
    CloneRepoClonesOnce(h, w, parsed.url, parsed.ref);
    SaveClonesNothing(h, w1, Single(AdHocName(w1.fs, c.value, parsed), gitUrl));
  }

  /** A single dependency forms a single group. */
  lemma GroupedSingle(name: string, gitUrl: string)
    ensures Grouped(Single(name, gitUrl)) == [Group(RepoKey(Parse(gitUrl)), [Member(name, gitUrl, Parse(gitUrl))])]
  {
    assert Single(name, gitUrl)[..0] == [];
  }

  /** A completed ad-hoc install is the ad-hoc selection followed by a run over
      its single group. */
  lemma InstallSpecOfAdHoc(h: Host, w: World, declared: Dict, gitUrl: string, force: bool)
    requires GetGitDependencies(h, w.fs) == Ok(Some(declared))
    requires gitUrl != "" && IsGitUrl(gitUrl)
    requires InstallSpec(h, w, Some(gitUrl), force).1 == Completed
    ensures AdHoc(h, w, gitUrl).Selected?
    ensures RunGroups(h, AdHoc(h, w, gitUrl).w, Grouped(AdHoc(h, w, gitUrl).deps), force).1.Ok?
    ensures InstallSpec(h, w, Some(gitUrl), force).0 == RunGroups(h, AdHoc(h, w, gitUrl).w, Grouped(AdHoc(h, w, gitUrl).deps), force).0
  {
    assert SelectDependencies(h, w, declared, Some(gitUrl)) == AdHoc(h, w, gitUrl);
  }

  /** An ad-hoc URL clones its repository twice: once to find the package's
      name, and again when its group is installed. */
  lemma AdHocClonesTwice(h: Host, w: World, declared: Dict, gitUrl: string, force: bool)
    requires GetGitDependencies(h, w.fs) == Ok(Some(declared))
    requires gitUrl != "" && IsGitUrl(gitUrl)
    requires InstallSpec(h, w, Some(gitUrl), force).1 == Completed
    ensures Clones(InstallSpec(h, w, Some(gitUrl), force).0.log) == Clones(w.log) + [CloneOf(Parse(gitUrl)), CloneOf(Parse(gitUrl))]
  {
    InstallSpecOfAdHoc(h, w, declared, gitUrl, force);
    AdHocRunClonesTwice(h, w, gitUrl, force);
  }

  lemma AdHocRunClonesTwice(h: Host, w: World, gitUrl: string, force: bool)
    requires AdHoc(h, w, gitUrl).Selected?
    requires RunGroups(h, AdHoc(h, w, gitUrl).w, Grouped(AdHoc(h, w, gitUrl).deps), force).1.Ok?
    ensures var s := AdHoc(h, w, gitUrl);
      Clones(RunGroups(h, s.w, Grouped(s.deps), force).0.log) == Clones(w.log) + [CloneOf(Parse(gitUrl)), CloneOf(Parse(gitUrl))]
  {
    var s := AdHoc(h, w, gitUrl);
    AdHocClonesOnce(h, w, gitUrl);
    assert s.deps == Single(s.deps[0].0, gitUrl);
    SecondCloneOfSingle(h, w, s.w, s.deps[0].0, gitUrl, force);
  }

  lemma SecondCloneOfSingle(h: Host, w: World, w1: World, name: string, gitUrl: string, force: bool)
    requires Clones(w1.log) == Clones(w.log) + [CloneOf(Parse(gitUrl))]
    requires NonEmptyGroups(Grouped(Single(name, gitUrl)))
    requires RunGroups(h, w1, Grouped(Single(name, gitUrl)), force).1.Ok?
    ensures Clones(RunGroups(h, w1, Grouped(Single(name, gitUrl)), force).0.log) ==
      Clones(w.log) + [CloneOf(Parse(gitUrl)), CloneOf(Parse(gitUrl))]
  {
    var u := CloneOf(Parse(gitUrl));
    SingleRunClonesOnce(h, w1, name, gitUrl, force);
    ShiftFirst(Clones(w.log), Clones(w1.log), Clones(RunGroups(h, w1, Grouped(Single(name, gitUrl)), force).0.log), u, [u]);
  }

  /** Installing a single dependency clones its repository once. */
  lemma SingleRunClonesOnce(h: Host, w: World, name: string, gitUrl: string, force: bool)
    requires NonEmptyGroups(Grouped(Single(name, gitUrl)))
    requires RunGroups(h, w, Grouped(Single(name, gitUrl)), force).1.Ok?
    ensures Clones(RunGroups(h, w, Grouped(Single(name, gitUrl)), force).0.log) == Clones(w.log) + [CloneOf(Parse(gitUrl))]
  {
    var groups := Grouped(Single(name, gitUrl));
    GroupedSingle(name, gitUrl);
    assert GroupClones(groups) == [CloneOf(Parse(gitUrl))];
    RunGroupsClonesEachGroupOnce(h, w, groups, force);
  }
}
