/** `initProject` of src/init.js: copy the template into a new directory,
    leaving out installed packages and the lock file, then walk the copy and
    substitute the placeholders in every file, skipping `node_modules` and
    `.git`; if the copy or the walk throws, remove the new directory and
    throw again. */
module Init {
  import opened Text
  import opened Utils
  import opened Placeholders
  import opened FileSystem

  // ---------------------------------------------------------------------
  // processFile
  // ---------------------------------------------------------------------

  /** The error `processFile(p)` catches, if any: the read's, or else the
      write's. */
  function ProcessError(t: Tree, f: Faults, p: Path): Option<string> {
    match ReadResult(t, f, p)
    case Err(code) => Some(code)
    case Ok(_) => WriteError(t, f, p)
  }

  /** `processFile(p)` warns about the error it catches unless its code is
      `EISDIR`. */
  predicate Warns(t: Tree, f: Faults, p: Path) {
    ProcessError(t, f, p).Some? && ProcessError(t, f, p).value != "EISDIR"
  }

  /** What `processFile(p)` leaves at `p`: the substituted text when both the
      read and the write succeed, what was there otherwise. */
  function ProcessedNode(t: Tree, f: Faults, p: Path, r: Replacements): Node
    requires p in t
  {
    match ReadResult(t, f, p)
    case Err(_) => t[p]
    case Ok(content) =>
      if WriteError(t, f, p).None? then File(ApplyAll(content, r.Entries())) else t[p]
  }

  /** `processFile(filePath, replacements)`; the warning it prints becomes
      the result `warned`. */
  method ProcessFile(fs: FileSystem, p: Path, r: Replacements) returns (warned: bool)
    modifies fs
    ensures p in old(fs.tree) ==> fs.tree == old(fs.tree)[p := ProcessedNode(old(fs.tree), fs.faults, p, r)]
    ensures p !in old(fs.tree) ==> fs.tree == old(fs.tree)
    ensures warned == Warns(old(fs.tree), fs.faults, p)
  {
    var read := fs.ReadFile(p);
    match read
    case Err(code) =>
      warned := code != "EISDIR";
    case Ok(content) =>
      var newContent := ReplacePlaceholders(content, r);
      var written := fs.WriteFile(p, newContent);
      warned := written.Failure? && written.code != "EISDIR";
  }

  /** A file keeps its kind through `processFile`: nothing is created,
      deleted, or turned into a directory. */
  lemma ProcessedNodeKeepsKind(t: Tree, f: Faults, p: Path, r: Replacements)
    requires p in t
    ensures ProcessedNode(t, f, p, r).Dir? == t[p].Dir?
  {
  }

  /** A failed read or write leaves the file as it was, and only then is
      there a warning or a silent skip. */
  lemma ProcessedNodeOnError(t: Tree, f: Faults, p: Path, r: Replacements)
    requires p in t
    ensures ProcessError(t, f, p).Some? ==> ProcessedNode(t, f, p, r) == t[p]
    ensures ProcessError(t, f, p).None? ==>
              t[p].File? && ProcessedNode(t, f, p, r) == File(ApplyAll(t[p].content, r.Entries()))
  {
  }

  // ---------------------------------------------------------------------
  // processDirectory
  // ---------------------------------------------------------------------

  /** The names of the directories `processDirectory` does not enter. */
  const ExcludedDirs: seq<string> := ["node_modules", ".git"]

  /** The walk from `root` lists the directory `d`: every directory from
      `root` down to `d` is one, and none below `root` has an excluded name. */
  predicate Listed(t: Tree, root: Path, d: Path) {
    Below(d, root) && IsDir(t, d) &&
    forall k :: |root| < k <= |d| ==> IsDir(t, d[..k]) && d[k - 1] !in ExcludedDirs
  }

  /** The walk from `root` hands the file `p` to `processFile`. */
  predicate Visits(t: Tree, root: Path, p: Path) {
    IsFile(t, p) && |p| > |root| && Listed(t, root, p[..|p| - 1])
  }

  function VisitedFiles(t: Tree, root: Path): set<Path> {
    set p | p in t && Visits(t, root, p)
  }

  /** The walk throws: some directory it lists cannot be listed. */
  predicate WalkFails(t: Tree, f: Faults, root: Path) {
    ListError(t, f, root).Some? || exists d :: d in f.list && Listed(t, root, d)
  }

  /** The codes the walk may throw with; which one it meets first depends on
      the order of the listings. */
  function WalkErrors(t: Tree, f: Faults, root: Path): set<string> {
    (if ListError(t, f, root).Some? then {ListError(t, f, root).value} else {}) +
    set d | d in f.list && Listed(t, root, d) :: f.list[d]
  }

  /** The tree after a walk from `root` that does not throw: every visited
      file as `processFile` leaves it, everything else as it was. */
  function Processed(t: Tree, f: Faults, root: Path, r: Replacements): Tree {
    map p | p in t :: if Visits(t, root, p) then ProcessedNode(t, f, p, r) else t[p]
  }

  /** The files the walk from `root` warns about. */
  function Warned(t: Tree, f: Faults, root: Path): set<Path> {
    set p | p in t && Visits(t, root, p) && Warns(t, f, p)
  }

  /** The files of `s` `processFile` warns about. */
  function WarnedIn(t: Tree, f: Faults, s: set<Path>): set<Path> {
    set p | p in s && Warns(t, f, p)
  }

  /** `ws` names exactly the paths of `s`. */
  ghost predicate Lists(ws: seq<Path>, s: set<Path>) {
    forall w :: w in ws <==> w in s
  }

  /** Same paths, and each one a directory in `t` exactly when it is one in
      `t0`. */
  ghost predicate SameShape(t0: Tree, t: Tree) {
    t.Keys == t0.Keys && forall p :: p in t0 ==> t[p].Dir? == t0[p].Dir?
  }

  /** `t` is `t0` with exactly the files of `done` processed. */
  ghost predicate ProcessedOn(t0: Tree, t: Tree, f: Faults, r: Replacements, done: set<Path>) {
    t.Keys == t0.Keys &&
    forall p :: p in t0 ==> t[p] == if p in done then ProcessedNode(t0, f, p, r) else t0[p]
  }

  /** `t` is `t0` with some of the files of `s` processed. */
  ghost predicate ProcessedWithin(t0: Tree, t: Tree, f: Faults, r: Replacements, s: set<Path>) {
    t.Keys == t0.Keys &&
    forall p :: p in t0 ==> t[p] == t0[p] || (p in s && t[p] == ProcessedNode(t0, f, p, r))
  }

  /** The files of the walk from `root` whose name right below `root` is in
      `names`. */
  function DoneSet(t: Tree, root: Path, names: seq<string>): set<Path> {
    set p | p in t && Visits(t, root, p) && p[|root|] in names
  }

  /** The files of the walk from `root` that lie at or below `root + [c]`. */
  function ChildPart(t: Tree, root: Path, c: string): set<Path> {
    if IsDir(t, root + [c]) then
      (if c in ExcludedDirs then {} else VisitedFiles(t, root + [c]))
    else if IsFile(t, root + [c]) then {root + [c]}
    else {}
  }

  /** The subdirectory `root + [c]` is entered, and its walk throws. */
  predicate ChildFails(t: Tree, f: Faults, root: Path, c: string) {
    IsDir(t, root + [c]) && c !in ExcludedDirs && WalkFails(t, f, root + [c])
  }

  function DirsBelow(t: Tree, root: Path): set<Path> {
    set d | d in t && t[d].Dir? && Below(d, root)
  }

  /** `names` are the names `readdir` gives for the directory `root`: each
      child once. */
  ghost predicate ListedNames(t: Tree, root: Path, names: seq<string>) {
    IsDir(t, root) &&
    (forall c :: c in names <==> c in Children(t, root)) &&
    (forall a, b :: 0 <= a < b < |names| ==> names[a] != names[b])
  }

  /** The state of the walk of `root` after its first `i` entries: their
      files processed, their warnings given, and none of them thrown. */
  ghost predicate WalkedUpTo(t0: Tree, t: Tree, f: Faults, r: Replacements, root: Path, names: seq<string>, i: int, ws: seq<Path>) {
    0 <= i <= |names| &&
    ProcessedOn(t0, t, f, r, DoneSet(t0, root, names[..i])) &&
    Lists(ws, WarnedIn(t0, f, DoneSet(t0, root, names[..i]))) &&
    forall j :: 0 <= j < i ==> !ChildFails(t0, f, root, names[j])
  }

  /** `processDirectory(root, replacements)`: the entries come in the order
      `readdir` gives them. A listing that fails ends the walk with its
      error; a file that fails does not. */
  method ProcessDirectory(fs: FileSystem, root: Path, r: Replacements) returns (res: Outcome, warnings: seq<Path>)
    modifies fs
    decreases DirsBelow(fs.tree, root), 1
    ensures res.Success? <==> !WalkFails(old(fs.tree), fs.faults, root)
    ensures res.Success? ==> fs.tree == Processed(old(fs.tree), fs.faults, root, r)
    ensures res.Success? ==> Lists(warnings, Warned(old(fs.tree), fs.faults, root))
    ensures res.Failure? ==> res.code in WalkErrors(old(fs.tree), fs.faults, root)
    ensures res.Failure? ==> ProcessedWithin(old(fs.tree), fs.tree, fs.faults, r, VisitedFiles(old(fs.tree), root))
    ensures res.Failure? ==> forall w :: w in warnings ==> w in Warned(old(fs.tree), fs.faults, root)
  {
    var listing := fs.ReadDir(root);
    if listing.Err? {
      res, warnings := Failure(listing.code), [];
      return;
    }
    var entries := listing.value;
    ghost var t0 := fs.tree;
    ghost var f := fs.faults;
    ghost var names := Names(entries);
    assert root !in f.list;
    assert ListedNames(t0, root, names);
    warnings := [];
    var i := 0;
    while i < |entries|
      invariant i <= |entries| && WalkedUpTo(t0, fs.tree, f, r, root, names, i, warnings)
    {
      var entry := entries[i];
      ghost var before := fs.tree;
      EntryStep(t0, before, f, r, root, names, i, warnings);
      var sub, w := ProcessEntry(fs, root, entry, r);
      if sub.Failure? {
        EntryFailed(t0, before, fs.tree, f, r, root, names, i, warnings, w, sub.code);
        res, warnings := sub, warnings + w;
        return;
      }
      EntrySucceeded(t0, before, fs.tree, f, r, root, names, i, warnings, w);
      warnings := warnings + w;
      i := i + 1;
    }
    WalkComplete(t0, f, r, root, names, fs.tree, warnings);
    res := Success;
  }

  /** One turn of `processDirectory`'s loop, for the entry `entry` of `root`:
      a subdirectory not excluded is walked, an excluded one is passed over,
      and anything else goes to `processFile`. */
  method ProcessEntry(fs: FileSystem, root: Path, entry: Dirent, r: Replacements) returns (res: Outcome, warnings: seq<Path>)
    requires IsDir(fs.tree, root) && root + [entry.name] in fs.tree
    requires entry.isDirectory == IsDir(fs.tree, root + [entry.name])
    modifies fs
    decreases DirsBelow(fs.tree, root), 0
    ensures res.Success? <==> !ChildFails(old(fs.tree), fs.faults, root, entry.name)
    ensures res.Success? ==> ProcessedOn(old(fs.tree), fs.tree, fs.faults, r, ChildPart(old(fs.tree), root, entry.name))
    ensures res.Success? ==> Lists(warnings, WarnedIn(old(fs.tree), fs.faults, ChildPart(old(fs.tree), root, entry.name)))
    ensures res.Failure? ==> res.code in WalkErrors(old(fs.tree), fs.faults, root + [entry.name])
    ensures res.Failure? ==> ProcessedWithin(old(fs.tree), fs.tree, fs.faults, r, ChildPart(old(fs.tree), root, entry.name))
    ensures res.Failure? ==> forall w :: w in warnings ==> w in WarnedIn(old(fs.tree), fs.faults, ChildPart(old(fs.tree), root, entry.name))
  {
    var child := root + [entry.name];
    ghost var t := fs.tree;
    if entry.isDirectory {
      if entry.name !in ExcludedDirs {
        ShrinksBelow(t, t, root, entry.name);
        res, warnings := ProcessDirectory(fs, child, r);
        WalkIsProcessedOn(t, fs.faults, r, child);
      } else {
        res, warnings := Success, [];
      }
    } else {
      var warned := ProcessFile(fs, child, r);
      res := Success;
      warnings := if warned then [child] else [];
    }
  }

  // The steps of the walk's proof.

  /** The walk lists `d` from `root`'s entered subdirectory `root + [c]`,
      so it lists it from `root`. */
  lemma ListedFromChild(t: Tree, root: Path, c: string, d: Path)
    requires IsDir(t, root + [c]) && c !in ExcludedDirs && Listed(t, root + [c], d)
    ensures Listed(t, root, d)
  {
    var child := root + [c];
    assert d[..|child|] == child;
    assert d[..|root|] == child[..|root|] == root;
    forall k | |root| < k <= |d|
      ensures IsDir(t, d[..k]) && d[k - 1] !in ExcludedDirs
    {
      if k == |child| {
        assert d[..k] == child;
      }
    }
  }

  /** A directory the walk from `root` lists below `root` is listed from the
      subdirectory of `root` it lies in, which the walk enters. */
  lemma ListedThroughChild(t: Tree, root: Path, d: Path)
    requires Listed(t, root, d) && |d| > |root|
    ensures IsDir(t, root + [d[|root|]]) && d[|root|] !in ExcludedDirs
    ensures Listed(t, root + [d[|root|]], d)
  {
    var child := root + [d[|root|]];
    assert d[..|child|] == d[..|root|] + [d[|root|]] == child;
  }

  /** A file below `root` is visited from `root` exactly when it is a file
      right inside `root`, or lies in an entered subdirectory and is visited
      from it. */
  lemma VisitsSplit(t: Tree, root: Path, p: Path)
    requires IsDir(t, root) && |p| > |root| && p[..|root|] == root
    ensures Visits(t, root, p) <==>
              (|p| == |root| + 1 && IsFile(t, p)) ||
              (IsDir(t, root + [p[|root|]]) && p[|root|] !in ExcludedDirs && Visits(t, root + [p[|root|]], p))
  {
    var c := p[|root|];
    var child := root + [c];
    var parent := p[..|p| - 1];
    assert p[..|child|] == child;
    if |p| == |root| + 1 {
      assert parent == root;
      assert !Below(parent, child);
    } else {
      assert parent[..|root|] == root && parent[|root|] == c;
      if Listed(t, root, parent) {
        ListedThroughChild(t, root, parent);
      }
      if IsDir(t, child) && c !in ExcludedDirs && Listed(t, child, parent) {
        ListedFromChild(t, root, c, parent);
      }
    }
  }

  /** What `root + [c]` adds to the walk from `root`. */
  lemma ChildPartMembers(t: Tree, root: Path, c: string, p: Path)
    requires IsDir(t, root)
    ensures p in ChildPart(t, root, c) <==> p in t && Visits(t, root, p) && |p| > |root| && p[..|root|] == root && p[|root|] == c
  {
    var child := root + [c];
    if p in ChildPart(t, root, c) && p != child {
      assert Visits(t, child, p);
      assert p[..|child|] == child;
      VisitsSplit(t, root, p);
    } else if p in t && Visits(t, root, p) && |p| > |root| && p[..|root|] == root && p[|root|] == c {
      assert p[..|child|] == child;
      VisitsSplit(t, root, p);
      if |p| == |root| + 1 {
        assert p == child;
      }
    } else if p == child {
      assert child[..|root|] == root;
      if IsFile(t, child) {
        VisitsSplit(t, root, child);
      }
    }
  }

  lemma DoneStep(t: Tree, root: Path, names: seq<string>, c: string)
    requires IsDir(t, root)
    ensures DoneSet(t, root, names + [c]) == DoneSet(t, root, names) + ChildPart(t, root, c)
  {
    forall p
      ensures p in DoneSet(t, root, names + [c]) <==> p in DoneSet(t, root, names) + ChildPart(t, root, c)
    {
      ChildPartMembers(t, root, c, p);
      if p in t && Visits(t, root, p) {
        assert Below(p[..|p| - 1], root);
        assert p[..|root|] == p[..|p| - 1][..|root|];
      }
    }
  }

  lemma NotYetDone(t: Tree, root: Path, names: seq<string>, i: int)
    requires IsDir(t, root) && 0 <= i < |names|
    requires forall a, b :: 0 <= a < b < |names| ==> names[a] != names[b]
    ensures DoneSet(t, root, names[..i]) !! ChildPart(t, root, names[i])
  {
    forall p | p in ChildPart(t, root, names[i])
      ensures p !in DoneSet(t, root, names[..i])
    {
      ChildPartMembers(t, root, names[i], p);
    }
  }

  lemma ChildInTree(t: Tree, d: Path, c: string)
    requires c in Children(t, d)
    ensures d + [c] in t
  {
    var q :| q in t && |q| == |d| + 1 && q[..|d|] == d && q[|d|] == c;
    assert q == q[..|d|] + [q[|d|]];
  }

  lemma WarnedInUnion(t: Tree, f: Faults, a: set<Path>, b: set<Path>)
    ensures WarnedIn(t, f, a + b) == WarnedIn(t, f, a) + WarnedIn(t, f, b)
  {
  }

  lemma ProcessedOnShape(t0: Tree, t: Tree, f: Faults, r: Replacements, done: set<Path>)
    requires ProcessedOn(t0, t, f, r, done)
    ensures SameShape(t0, t)
  {
    forall p | p in t0
      ensures t[p].Dir? == t0[p].Dir?
    {
      ProcessedNodeKeepsKind(t0, f, p, r);
    }
  }

  lemma ShrinksBelow(t0: Tree, t: Tree, root: Path, c: string)
    requires SameShape(t0, t) && IsDir(t0, root) && IsDir(t0, root + [c])
    ensures DirsBelow(t, root + [c]) < DirsBelow(t0, root)
  {
    var child := root + [c];
    forall d | d in DirsBelow(t, child)
      ensures d in DirsBelow(t0, root)
    {
      assert d[..|root|] == d[..|child|][..|root|];
    }
    assert root in DirsBelow(t0, root);
    assert root !in DirsBelow(t, child);
  }

  /** Only the kinds of the paths decide where the walk goes and where it
      throws. */
  lemma ShapeKeepsWalk(t0: Tree, t: Tree, f: Faults, root: Path)
    requires SameShape(t0, t)
    ensures forall p :: Visits(t, root, p) == Visits(t0, root, p)
    ensures VisitedFiles(t, root) == VisitedFiles(t0, root)
    ensures WalkFails(t, f, root) == WalkFails(t0, f, root)
    ensures WalkErrors(t, f, root) == WalkErrors(t0, f, root)
  {
    forall x
      ensures IsDir(t, x) == IsDir(t0, x) && IsFile(t, x) == IsFile(t0, x)
    {
    }
    forall d
      ensures Listed(t, root, d) == Listed(t0, root, d)
    {
      ListedInSameShape(t0, t, root, d);
      ListedInSameShape(t, t0, root, d);
    }
  }

  lemma ListedInSameShape(t0: Tree, t: Tree, root: Path, d: Path)
    requires t.Keys == t0.Keys && forall p :: p in t0 ==> t[p].Dir? == t0[p].Dir?
    ensures Listed(t0, root, d) ==> Listed(t, root, d)
  {
    if Listed(t0, root, d) {
      forall k | |root| < k <= |d|
        ensures IsDir(t, d[..k]) && d[k - 1] !in ExcludedDirs
      {
        assert IsDir(t0, d[..k]);
      }
    }
  }

  /** A path not yet processed has the same outcome in the walk's current
      tree as in the one it started from. */
  lemma SameNodeSameOutcome(t0: Tree, t: Tree, f: Faults, p: Path, r: Replacements)
    requires SameShape(t0, t) && p in t0 && t[p] == t0[p]
    ensures ProcessedNode(t, f, p, r) == ProcessedNode(t0, f, p, r)
    ensures Warns(t, f, p) == Warns(t0, f, p)
  {
    assert forall x :: IsDir(t, x) == IsDir(t0, x);
  }

  lemma ChildFailureIsWalkFailure(t: Tree, f: Faults, root: Path, c: string, code: string)
    requires IsDir(t, root + [c]) && c !in ExcludedDirs
    requires WalkFails(t, f, root + [c]) && code in WalkErrors(t, f, root + [c])
    ensures WalkFails(t, f, root) && code in WalkErrors(t, f, root)
  {
    var child := root + [c];
    assert Listed(t, root, child) by {
      ListedFromChild(t, root, c, child);
    }
    var d :| d in f.list && Listed(t, child, d) && f.list[d] == code;
    ListedFromChild(t, root, c, d);
  }

  /** What `root + [c]` adds to the walk depends only on the kinds of the
      paths. */
  lemma ShapeKeepsEntry(t0: Tree, t: Tree, f: Faults, root: Path, c: string)
    requires SameShape(t0, t)
    ensures ChildPart(t, root, c) == ChildPart(t0, root, c)
    ensures ChildFails(t, f, root, c) == ChildFails(t0, f, root, c)
    ensures WalkErrors(t, f, root + [c]) == WalkErrors(t0, f, root + [c])
    ensures DirsBelow(t, root) == DirsBelow(t0, root)
  {
    ShapeKeepsWalk(t0, t, f, root + [c]);
  }

  /** A whole walk from `d` processes exactly its visited files. */
  lemma WalkIsProcessedOn(t: Tree, f: Faults, r: Replacements, d: Path)
    ensures ProcessedOn(t, Processed(t, f, d, r), f, r, VisitedFiles(t, d))
    ensures Warned(t, f, d) == WarnedIn(t, f, VisitedFiles(t, d))
  {
  }

  /** Before the `i`th entry of `root`: where it stands in the tree the
      walk started from, and what it adds to the files done so far. */
  lemma EntryStep(t0: Tree, before: Tree, f: Faults, r: Replacements, root: Path, names: seq<string>, i: int, ws: seq<Path>)
    requires ListedNames(t0, root, names) && i < |names| && WalkedUpTo(t0, before, f, r, root, names, i, ws)
    ensures IsDir(before, root) && root + [names[i]] in before
    ensures IsDir(before, root + [names[i]]) == IsDir(t0, root + [names[i]])
    ensures DirsBelow(before, root) == DirsBelow(t0, root)
    ensures ChildPart(before, root, names[i]) == ChildPart(t0, root, names[i])
    ensures ChildFails(before, f, root, names[i]) == ChildFails(t0, f, root, names[i])
    ensures WalkErrors(before, f, root + [names[i]]) == WalkErrors(t0, f, root + [names[i]])
  {
    ProcessedOnShape(t0, before, f, r, DoneSet(t0, root, names[..i]));
    ShapeKeepsEntry(t0, before, f, root, names[i]);
    ChildInTree(t0, root, names[i]);
  }

  /** After the `i`th entry of `root` has been walked without throwing. */
  lemma EntrySucceeded(t0: Tree, before: Tree, after: Tree, f: Faults, r: Replacements, root: Path,
                       names: seq<string>, i: int, ws: seq<Path>, w: seq<Path>)
    requires ListedNames(t0, root, names) && i < |names| && WalkedUpTo(t0, before, f, r, root, names, i, ws)
    requires ChildPart(before, root, names[i]) == ChildPart(t0, root, names[i])
    requires !ChildFails(t0, f, root, names[i])
    requires ProcessedOn(before, after, f, r, ChildPart(before, root, names[i]))
    requires Lists(w, WarnedIn(before, f, ChildPart(before, root, names[i])))
    ensures WalkedUpTo(t0, after, f, r, root, names, i + 1, ws + w)
  {
    var done := DoneSet(t0, root, names[..i]);
    var part := ChildPart(t0, root, names[i]);
    DoneStep(t0, root, names[..i], names[i]);
    assert names[..i + 1] == names[..i] + [names[i]];
    NotYetDone(t0, root, names, i);
    EntryDone(t0, before, after, f, r, done, part);
    WarnedInUnion(t0, f, done, part);
  }

  /** After the walk of the `i`th entry of `root` has thrown. */
  lemma EntryFailed(t0: Tree, before: Tree, after: Tree, f: Faults, r: Replacements, root: Path,
                    names: seq<string>, i: int, ws: seq<Path>, w: seq<Path>, code: string)
    requires ListedNames(t0, root, names) && i < |names| && WalkedUpTo(t0, before, f, r, root, names, i, ws)
    requires ChildPart(before, root, names[i]) == ChildPart(t0, root, names[i])
    requires ChildFails(t0, f, root, names[i]) && code in WalkErrors(t0, f, root + [names[i]])
    requires ProcessedWithin(before, after, f, r, ChildPart(before, root, names[i]))
    requires forall x :: x in w ==> x in WarnedIn(before, f, ChildPart(before, root, names[i]))
    ensures WalkFails(t0, f, root) && code in WalkErrors(t0, f, root)
    ensures ProcessedWithin(t0, after, f, r, VisitedFiles(t0, root))
    ensures forall x :: x in ws + w ==> x in Warned(t0, f, root)
  {
    var done := DoneSet(t0, root, names[..i]);
    var part := ChildPart(t0, root, names[i]);
    DoneStep(t0, root, names[..i], names[i]);
    NotYetDone(t0, root, names, i);
    ChildFailureIsWalkFailure(t0, f, root, names[i], code);
    assert done + part <= VisitedFiles(t0, root) by {
      assert DoneSet(t0, root, names[..i] + [names[i]]) <= VisitedFiles(t0, root);
    }
    FailedEntry(t0, before, after, f, r, done, part, VisitedFiles(t0, root));
  }

  /** The files an entry processes, after those of the entries before it. */
  lemma EntryDone(t0: Tree, before: Tree, after: Tree, f: Faults, r: Replacements, done: set<Path>, part: set<Path>)
    requires ProcessedOn(t0, before, f, r, done) && ProcessedOn(before, after, f, r, part) && done !! part
    ensures ProcessedOn(t0, after, f, r, done + part)
    ensures WarnedIn(before, f, part) == WarnedIn(t0, f, part)
  {
    ProcessedOnShape(t0, before, f, r, done);
    forall p | p in t0 && p in part
      ensures ProcessedNode(before, f, p, r) == ProcessedNode(t0, f, p, r) && Warns(before, f, p) == Warns(t0, f, p)
    {
      SameNodeSameOutcome(t0, before, f, p, r);
    }
  }

  /** An entry whose walk throws leaves some of its files processed, after
      those of the entries before it. */
  lemma FailedEntry(t0: Tree, before: Tree, after: Tree, f: Faults, r: Replacements,
                    done: set<Path>, part: set<Path>, all: set<Path>)
    requires ProcessedOn(t0, before, f, r, done) && ProcessedWithin(before, after, f, r, part)
    requires done !! part && done + part <= all
    ensures ProcessedWithin(t0, after, f, r, all)
    ensures WarnedIn(before, f, part) == WarnedIn(t0, f, part)
  {
    ProcessedOnShape(t0, before, f, r, done);
    forall p | p in t0 && p in part
      ensures ProcessedNode(before, f, p, r) == ProcessedNode(t0, f, p, r) && Warns(before, f, p) == Warns(t0, f, p)
    {
      SameNodeSameOutcome(t0, before, f, p, r);
    }
  }

  /** All entries of a listable `root` walked without throwing: the walk
      of `root` does not throw, and it has done all it does. */
  lemma WalkComplete(t0: Tree, f: Faults, r: Replacements, root: Path, names: seq<string>, t: Tree, ws: seq<Path>)
    requires ListedNames(t0, root, names) && root !in f.list
    requires WalkedUpTo(t0, t, f, r, root, names, |names|, ws)
    ensures !WalkFails(t0, f, root)
    ensures t == Processed(t0, f, root, r) && Lists(ws, Warned(t0, f, root))
  {
    assert names[..|names|] == names;
    AllChildrenDone(t0, f, r, root, names, t);
    NoChildFails(t0, f, root, names);
  }

  lemma AllChildrenDone(t0: Tree, f: Faults, r: Replacements, root: Path, names: seq<string>, t: Tree)
    requires IsDir(t0, root)
    requires forall c :: c in names <==> c in Children(t0, root)
    requires ProcessedOn(t0, t, f, r, DoneSet(t0, root, names))
    ensures DoneSet(t0, root, names) == VisitedFiles(t0, root)
    ensures t == Processed(t0, f, root, r)
    ensures WarnedIn(t0, f, VisitedFiles(t0, root)) == Warned(t0, f, root)
  {
    forall p | p in VisitedFiles(t0, root)
      ensures p[|root|] in names
    {
      var parent := p[..|p| - 1];
      var q := p[..|root| + 1];
      if |p| > |root| + 1 {
        assert IsDir(t0, parent[..|root| + 1]);
        assert parent[..|root| + 1] == q;
      } else {
        assert q == p;
      }
      assert q[..|root|] == parent[..|root|] == root;
      assert q[|root|] in Children(t0, root);
    }
  }

  /** A walk from a listable `root` throws only if the walk of one of its
      entered subdirectories does. */
  lemma NoChildFails(t: Tree, f: Faults, root: Path, names: seq<string>)
    requires IsDir(t, root) && root !in f.list
    requires forall c :: c in Children(t, root) ==> c in names
    ensures WalkFails(t, f, root) ==> exists j :: 0 <= j < |names| && ChildFails(t, f, root, names[j])
  {
    if d :| d in f.list && Listed(t, root, d) {
      assert d != root;
      assert |d| != |root| by {
        assert d[..|root|] == root;
      }
      ListedThroughChild(t, root, d);
      var c := d[|root|];
      var q := root + [c];
      assert WalkFails(t, f, q);
      assert q in t && q[..|root|] == root;
      assert c in Children(t, root);
      var j :| 0 <= j < |names| && names[j] == c;
      assert ChildFails(t, f, root, names[j]);
    }
  }

  // ---------------------------------------------------------------------
  // What the walk does to the tree
  // ---------------------------------------------------------------------

  /** A file inside a `node_modules` or `.git` directory below `root` keeps
      its content. */
  lemma {:induction false} SkippedDirsKeepContent(t: Tree, f: Faults, root: Path, r: Replacements, p: Path, k: int)
    requires p in t && |root| < k < |p| && p[..|root|] == root && p[k - 1] in ExcludedDirs
    ensures p in Processed(t, f, root, r) && Processed(t, f, root, r)[p] == t[p]
  {
    var parent := p[..|p| - 1];
    assert parent[k - 1] == p[k - 1];
    assert !(IsDir(t, parent[..k]) && parent[k - 1] !in ExcludedDirs);
    assert !Listed(t, root, parent);
  }

  /** Every other file below `root` whose read and write succeed gets the
      substituted text. */
  lemma {:induction false} WalkedFilesSubstituted(t: Tree, f: Faults, root: Path, r: Replacements, p: Path)
    requires IsDir(t, root) && IsFile(t, p) && |p| > |root| && p[..|root|] == root
    requires forall k :: |root| < k < |p| ==> IsDir(t, p[..k]) && p[k - 1] !in ExcludedDirs
    requires p !in f.read && p !in f.write
    ensures Processed(t, f, root, r)[p] == File(ApplyAll(t[p].content, r.Entries()))
  {
    var parent := p[..|p| - 1];
    assert parent[..|root|] == root;
    if |parent| == |root| {
      assert parent == root;
    } else {
      assert IsDir(t, p[..|parent|]);
    }
    forall k | |root| < k <= |parent|
      ensures IsDir(t, parent[..k]) && parent[k - 1] !in ExcludedDirs
    {
      assert parent[..k] == p[..k];
      assert parent[k - 1] == p[k - 1];
    }
    assert Below(parent, root) && IsDir(t, parent);
    assert Listed(t, root, parent);
    assert Visits(t, root, p);
  }

  /** The walk touches nothing outside `root`, and makes or removes no path. */
  lemma WalkStaysInside(t: Tree, f: Faults, root: Path, r: Replacements, p: Path)
    requires p in t && !Below(p, root)
    ensures p in Processed(t, f, root, r) && Processed(t, f, root, r)[p] == t[p]
  {
    VisitedBelow(t, root, p);
  }

  lemma VisitedBelow(t: Tree, root: Path, p: Path)
    ensures Visits(t, root, p) ==> Below(p, root)
  {
    if Visits(t, root, p) {
      assert p[..|root|] == p[..|p| - 1][..|root|];
    }
  }

  // ---------------------------------------------------------------------
  // The copy filter
  // ---------------------------------------------------------------------

  /** The number of leading components `a` and `b` share. */
  function CommonPrefix(a: Path, b: Path): (n: nat)
    ensures n <= |a| && n <= |b| && a[..n] == b[..n]
    ensures n < |a| && n < |b| ==> a[n] != b[n]
    decreases |a|
  {
    if |a| == 0 || |b| == 0 || a[0] != b[0] then 0
    else
      var m := CommonPrefix(a[1..], b[1..]);
      assert a[..m + 1] == [a[0]] + a[1..][..m];
      assert b[..m + 1] == [b[0]] + b[1..][..m];
      m + 1
  }

  /** `path.relative(from, to)` for two absolute paths: up from `from` to
      the deepest directory both lie in, then down to `to`. */
  function Relative(from: Path, to: Path): string {
    var n := CommonPrefix(from, to);
    Join(seq(|from| - n, _ => "..") + to[n..], "/")
  }

  /** Inside `from`, the relative path is the components below it. */
  lemma RelativeInside(from: Path, to: Path)
    requires Below(to, from)
    ensures Relative(from, to) == Join(to[|from|..], "/")
  {
    assert CommonPrefix(from, to) == |from|;
    assert seq(0, _ => "..") + to[|from|..] == to[|from|..];
  }

  /** The filter `initProject` gives `copy`: the path relative to the
      template may not contain `node_modules` nor end with
      `package-lock.json`. */
  predicate CopyFilter(template: Path, src: Path) {
    var rel := Relative(template, src);
    !Contains(rel, "node_modules") && !EndsWith(rel, "package-lock.json")
  }

  function TemplateFilter(template: Path): Path -> bool {
    (src: Path) => CopyFilter(template, src)
  }

  /** For an entry inside the template the filter reads its components
      below the template, joined by `/`: it refuses the entry exactly when
      they contain `node_modules` or end with `package-lock.json`. */
  lemma CopyFilterInside(template: Path, src: Path)
    requires Below(src, template)
    ensures CopyFilter(template, src) <==>
      !Contains(Join(src[|template|..], "/"), "node_modules") &&
      !EndsWith(Join(src[|template|..], "/"), "package-lock.json")
  {
    RelativeInside(template, src);
  }

  /** The template itself passes the filter. */
  lemma TemplatePasses(template: Path)
    ensures CopyFilter(template, template)
  {
    RelativeInside(template, template);
    assert template[|template|..] == [];
    assert !OccursAt("", "node_modules", 0);
  }

  /** A text that contains `u` within the joined first `j` components
      contains it within all of them joined. */
  lemma {:induction false} JoinPrefixContains(parts: seq<string>, j: int, sep: string, u: string)
    requires 0 <= j <= |parts| && Contains(Join(parts[..j], sep), u)
    ensures Contains(Join(parts, sep), u)
    decreases |parts|
  {
    if j == |parts| {
      assert parts[..j] == parts;
    } else if |parts| == 1 {
      assert Join(parts[..j], sep) == "";
      ContainsInContext("", "", Join(parts, sep), u);
      assert "" + "" + Join(parts, sep) == Join(parts, sep);
    } else {
      var init := parts[..|parts| - 1];
      assert init[..j] == parts[..j];
      JoinPrefixContains(init, j, sep, u);
      ContainsInContext("", Join(init, sep), sep + parts[|parts| - 1], u);
      assert "" + Join(init, sep) + (sep + parts[|parts| - 1]) == Join(parts, sep);
    }
  }

  /** No entry that is copied has `node_modules` in its relative path, and
      none ends with `package-lock.json`. */
  lemma KeptPathsPassFilter(t: Tree, template: Path, p: Path)
    requires p in Kept(t, template, TemplateFilter(template))
    ensures !Contains(Join(p[|template|..], "/"), "node_modules")
    ensures !EndsWith(Join(p[|template|..], "/"), "package-lock.json")
  {
    assert p[..|p|] == p;
    assert TemplateFilter(template)(p[..|p|]);
    RelativeInside(template, p);
  }

  /** An entry with `node_modules` in one of its components below the
      template is refused by the filter and is not copied. */
  lemma NodeModulesComponentDropped(t: Tree, template: Path, p: Path, i: int)
    requires Below(p, template) && |template| <= i < |p| && Contains(p[i], "node_modules")
    ensures !CopyFilter(template, p)
    ensures p !in Kept(t, template, TemplateFilter(template))
  {
    var rel := p[|template|..];
    assert rel[i - |template|] == p[i];
    JoinContainsComponent(rel, "/", i - |template|, "node_modules");
    RelativeInside(template, p);
    assert p[..|p|] == p;
  }

  /** An entry whose relative path has no `node_modules` in it is copied
      unless the relative path of the entry itself or of a directory above
      it ends with `package-lock.json`: a `node_modules` higher up would
      show in the entry's own path. */
  lemma CleanPathsAreKept(t: Tree, template: Path, p: Path)
    requires p in t && Below(p, template)
    requires !Contains(Join(p[|template|..], "/"), "node_modules")
    requires forall k :: |template| <= k <= |p| ==> !EndsWith(Join(p[|template|..k], "/"), "package-lock.json")
    ensures p in Kept(t, template, TemplateFilter(template))
  {
    forall k | |template| <= k <= |p|
      ensures CopyFilter(template, p[..k])
    {
      var rel := p[|template|..];
      assert p[..k][..|template|] == template;
      RelativeInside(template, p[..k]);
      assert p[..k][|template|..] == rel[..k - |template|] == p[|template|..k];
      if Contains(Join(rel[..k - |template|], "/"), "node_modules") {
        JoinPrefixContains(rel, k - |template|, "/", "node_modules");
      }
    }
  }

  /** Everything inside a directory whose name ends with
      `package-lock.json` is left behind with it, though its own relative
      path may end otherwise. */
  lemma LockNamedDirHidesContents(t: Tree, template: Path, p: Path, k: int)
    requires Below(p, template) && |template| < k < |p| && EndsWith(p[k - 1], "package-lock.json")
    ensures p !in Kept(t, template, TemplateFilter(template))
  {
    var d := p[..k];
    assert d[..|template|] == template;
    RelativeInside(template, d);
    var parts := d[|template|..];
    assert parts[|parts| - 1] == p[k - 1];
    JoinEndsWithLast(parts, "/", "package-lock.json");
    assert !TemplateFilter(template)(p[..k]);
  }

  // ---------------------------------------------------------------------
  // initProject
  // ---------------------------------------------------------------------

  /** What `initProject` throws. */
  datatype InitError = TemplateNotFound(template: Path) | TargetExists(target: Path) | Thrown(code: string)

  datatype InitOutcome = Created | Failed(error: InitError)

  /** How a run of `initProject` that starts from `t0` may end, with the
      tree `t` and the files it warned about. */
  ghost predicate InitEnds(t0: Tree, f: Faults, name: string, port: int, template: Path, target: Path,
                           outcome: InitOutcome, t: Tree, warnings: seq<Path>)
  {
    if template !in t0 then outcome == Failed(TemplateNotFound(template)) && t == t0
    else if target in t0 then outcome == Failed(TargetExists(target)) && t == t0
    else
      var keep := TemplateFilter(template);
      var copied := CopyTree(t0, f, template, target, keep);
      var copyOk := CopyRefusal(t0, template, target).None? && Faulted(t0, f, template, keep) == {};
      var r := ForProject(name, port);
      if copyOk && !WalkFails(copied, f, target) then
        outcome == Created && t == Processed(copied, f, target, r) && Lists(warnings, Warned(copied, f, target))
      else if target in copied && target in f.remove then
        outcome == Failed(Thrown(f.remove[target])) &&
        if copyOk then ProcessedWithin(copied, t, f, r, VisitedFiles(copied, target)) else t == copied
      else
        outcome.Failed? && outcome.error.Thrown? &&
        outcome.error.code in (if copyOk then WalkErrors(copied, f, target) else CopyErrors(t0, f, template, target, keep)) &&
        t == if target in copied then RemoveTree(copied, target) else copied
  }

  /** The `catch` block of `initProject`: remove the target if it is there
      and rethrow; a failing removal throws its own error instead. */
  method Cleanup(fs: FileSystem, target: Path, code: string) returns (outcome: InitOutcome)
    modifies fs
    ensures target in old(fs.tree) && target in fs.faults.remove ==>
      outcome == Failed(Thrown(fs.faults.remove[target])) && fs.tree == old(fs.tree)
    ensures !(target in old(fs.tree) && target in fs.faults.remove) ==>
      outcome == Failed(Thrown(code)) &&
      fs.tree == if target in old(fs.tree) then RemoveTree(old(fs.tree), target) else old(fs.tree)
  {
    var present := fs.PathExists(target);
    if present {
      var removed := fs.Remove(target);
      if removed.Failure? {
        return Failed(Thrown(removed.code));
      }
    }
    outcome := Failed(Thrown(code));
  }

  /** `initProject(projectName, port, targetDir)`, the template directory
      given as `template`. */
  method InitProject(fs: FileSystem, projectName: string, port: int, template: Path, target: Path)
    returns (outcome: InitOutcome, warnings: seq<Path>)
    modifies fs
    ensures InitEnds(old(fs.tree), fs.faults, projectName, port, template, target, outcome, fs.tree, warnings)
  {
    warnings := [];
    var templateExists := fs.PathExists(template);
    if !templateExists {
      return Failed(TemplateNotFound(template)), warnings;
    }
    var targetExists := fs.PathExists(target);
    if targetExists {
      return Failed(TargetExists(target)), warnings;
    }
    ghost var t0 := fs.tree;
    var keep := TemplateFilter(template);
    var copy := fs.Copy(template, target, keep);
    ghost var copied := fs.tree;
    if copy.Failure? {
      outcome := Cleanup(fs, target, copy.code);
      EndsInCleanup(t0, fs.faults, projectName, port, template, target, copy.code, copied, outcome, fs.tree, warnings);
      return;
    }
    TemplateCopied(t0, fs.faults, template, target);
    var replacements := ForProject(projectName, port);
    var walk;
    walk, warnings := ProcessDirectory(fs, target, replacements);
    if walk.Failure? {
      ghost var walked := fs.tree;
      outcome := Cleanup(fs, target, walk.code);
      if !(target in fs.faults.remove) {
        RemoveForgetsWalk(copied, walked, fs.faults, replacements, target);
      }
      EndsInCleanup(t0, fs.faults, projectName, port, template, target, walk.code, walked, outcome, fs.tree, warnings);
      return;
    }
    outcome := Created;
  }

  /** How the failures of `InitProject` meet the last two cases of
      `InitEnds`. */
  lemma EndsInCleanup(t0: Tree, f: Faults, name: string, port: int, template: Path, target: Path,
                      code: string, before: Tree, outcome: InitOutcome, t: Tree, warnings: seq<Path>)
    requires template in t0 && target !in t0
    requires
      var keep := TemplateFilter(template);
      var copied := CopyTree(t0, f, template, target, keep);
      var copyOk := CopyRefusal(t0, template, target).None? && Faulted(t0, f, template, keep) == {};
      var r := ForProject(name, port);
      !(copyOk && !WalkFails(copied, f, target)) &&
      code in (if copyOk then WalkErrors(copied, f, target) else CopyErrors(t0, f, template, target, keep)) &&
      (if copyOk then ProcessedWithin(copied, before, f, r, VisitedFiles(copied, target)) else before == copied) &&
      (target in before && target in f.remove ==> outcome == Failed(Thrown(f.remove[target])) && t == before) &&
      (!(target in before && target in f.remove) ==>
        outcome == Failed(Thrown(code)) &&
        t == if target in before then RemoveTree(copied, target) else copied)
    ensures InitEnds(t0, f, name, port, template, target, outcome, t, warnings)
  {
  }

  /** A copy of the template that does not fail makes the target. */
  lemma TemplateCopied(t: Tree, f: Faults, template: Path, target: Path)
    requires CopyRefusal(t, template, target).None? && Faulted(t, f, template, TemplateFilter(template)) == {}
    ensures target in CopyTree(t, f, template, target, TemplateFilter(template))
  {
    TemplatePasses(template);
    assert template[..|template|] == template;
    assert template in Copied(t, f, template, TemplateFilter(template));
    CopyPlaces(t, f, template, target, TemplateFilter(template), template);
    assert target + template[|template|..] == target;
  }

  /** Removing the target forgets what the walk did inside it. */
  lemma RemoveForgetsWalk(copied: Tree, t: Tree, f: Faults, r: Replacements, target: Path)
    requires ProcessedWithin(copied, t, f, r, VisitedFiles(copied, target))
    ensures RemoveTree(t, target) == RemoveTree(copied, target)
  {
    forall p | p in copied && !Below(p, target)
      ensures t[p] == copied[p]
    {
      VisitedBelow(copied, target, p);
    }
  }

  // ---------------------------------------------------------------------
  // What initProject leaves
  // ---------------------------------------------------------------------

  /** A run that throws after its checks leaves nothing at or inside the
      target, unless the target cannot be removed. */
  lemma FailureRemovesTarget(t0: Tree, f: Faults, name: string, port: int, template: Path, target: Path,
                             outcome: InitOutcome, t: Tree, warnings: seq<Path>)
    requires WellFormed(t0) && InitEnds(t0, f, name, port, template, target, outcome, t, warnings)
    requires outcome.Failed? && outcome.error.Thrown? && target !in f.remove
    ensures forall p :: p in t ==> !Below(p, target)
  {
    var keep := TemplateFilter(template);
    forall p | p in t
      ensures !Below(p, target)
    {
      NothingInsideAbsent(t0, target, p);
      if CopyRefusal(t0, template, target).None? {
        InsideMeansPresent(t0, f, template, target, keep, p);
      }
    }
  }

  /** When the target cannot be removed, a run that made it and then
      failed leaves it in place, and throws the removal's error in place
      of the one that started the cleanup. */
  lemma RemoveFailureKeepsTarget(t0: Tree, f: Faults, name: string, port: int, template: Path, target: Path,
                                 outcome: InitOutcome, t: Tree, warnings: seq<Path>)
    requires InitEnds(t0, f, name, port, template, target, outcome, t, warnings)
    requires outcome.Failed? && outcome.error.Thrown? && target in f.remove
    ensures target in CopyTree(t0, f, template, target, TemplateFilter(template)) ==> target in t
    ensures target in t ==> outcome.error.code == f.remove[target]
  {
  }

  /** Nothing inside the template changes, whatever the run does: its
      entries keep their content, and no entry is added inside it. */
  lemma TemplateUnchanged(t0: Tree, f: Faults, name: string, port: int, template: Path, target: Path,
                          outcome: InitOutcome, t: Tree, warnings: seq<Path>, p: Path)
    requires WellFormed(t0) && InitEnds(t0, f, name, port, template, target, outcome, t, warnings)
    requires p in t0 && Below(p, template)
    ensures p in t && t[p] == t0[p]
    ensures forall q :: q in t && Below(q, template) ==> q in t0
  {
    if template in t0 && target !in t0 && CopyRefusal(t0, template, target).None? {
      var keep := TemplateFilter(template);
      var copied := CopyTree(t0, f, template, target, keep);
      forall q | q in t && Below(q, template)
        ensures q in t0
      {
        assert q in copied;
        CopyAddsNothingInsideSource(t0, f, template, target, keep, q);
      }
      PrefixesOfOnePath(p, template, target);
      NothingInsideAbsent(t0, target, template);
      assert !Below(p, target);
      CopyKeepsExisting(t0, f, template, target, keep, p);
      WalkStaysInside(copied, f, target, ForProject(name, port), p);
      VisitedBelow(copied, target, p);
    }
  }

  /** On success the project holds exactly the template's entries that pass
      the filter, each at its relative path below the target. */
  lemma ProjectMirrorsTemplate(t0: Tree, f: Faults, name: string, port: int, template: Path, target: Path,
                               t: Tree, warnings: seq<Path>)
    requires WellFormed(t0) && InitEnds(t0, f, name, port, template, target, Created, t, warnings)
    ensures forall q :: q in t && Below(q, target) ==> template + q[|target|..] in Kept(t0, template, TemplateFilter(template))
    ensures forall p :: p in Kept(t0, template, TemplateFilter(template)) ==> target + p[|template|..] in t
  {
    var keep := TemplateFilter(template);
    forall q | q in t && Below(q, target)
      ensures template + q[|target|..] in Kept(t0, template, keep)
    {
      NothingInsideAbsent(t0, target, q);
      CopyAddsBelowDestination(t0, f, template, target, keep, q);
    }
    forall p | p in Kept(t0, template, keep)
      ensures target + p[|template|..] in t
    {
      CopyPlaces(t0, f, template, target, keep, p);
    }
  }

  /** On success no path in the project has `node_modules` in it below the
      target, and none ends with `package-lock.json`. */
  lemma ProjectSkipsFilteredNames(t0: Tree, f: Faults, name: string, port: int, template: Path, target: Path,
                                  t: Tree, warnings: seq<Path>, q: Path)
    requires WellFormed(t0) && InitEnds(t0, f, name, port, template, target, Created, t, warnings)
    requires q in t && Below(q, target)
    ensures !Contains(Join(q[|target|..], "/"), "node_modules")
    ensures !EndsWith(Join(q[|target|..], "/"), "package-lock.json")
  {
    ProjectMirrorsTemplate(t0, f, name, port, template, target, t, warnings);
    var p := template + q[|target|..];
    KeptPathsPassFilter(t0, template, p);
    assert p[|template|..] == q[|target|..];
  }

  /** On success a file below a `.git` (or `node_modules`) directory of the
      template arrives unchanged. */
  lemma VerbatimUnderSkippedDirs(t0: Tree, f: Faults, name: string, port: int, template: Path, target: Path,
                                 t: Tree, warnings: seq<Path>, p: Path, k: int)
    requires WellFormed(t0) && InitEnds(t0, f, name, port, template, target, Created, t, warnings)
    requires p in Kept(t0, template, TemplateFilter(template))
    requires |template| < k < |p| && p[k - 1] in ExcludedDirs
    ensures target + p[|template|..] in t && t[target + p[|template|..]] == t0[p]
  {
    var keep := TemplateFilter(template);
    var copied := CopyTree(t0, f, template, target, keep);
    var q := target + p[|template|..];
    CopiedPrefix(t0, f, template, target, keep, p, |p|);
    assert p[..|p|] == p;
    var k' := k - |template| + |target|;
    assert q[k' - 1] == p[k - 1];
    SkippedDirsKeepContent(copied, f, target, ForProject(name, port), q, k');
  }

  /** What a run that succeeds has done: the copy went ahead without a
      failing entry, and the walk processed the copy. */
  lemma CreatedEnds(t0: Tree, f: Faults, name: string, port: int, template: Path, target: Path,
                    t: Tree, warnings: seq<Path>)
    requires InitEnds(t0, f, name, port, template, target, Created, t, warnings)
    ensures template in t0 && target !in t0
    ensures CopyRefusal(t0, template, target).None? && Faulted(t0, f, template, TemplateFilter(template)) == {}
    ensures t == Processed(CopyTree(t0, f, template, target, TemplateFilter(template)), f, target, ForProject(name, port))
    ensures IsDir(t0, template)
  {
    CopyAddsBelowDestination(t0, f, template, target, TemplateFilter(template), target);
    assert target[|target|..] == [] && template + [] == template;
  }

  /** On success every other file of the template that passes the filter
      arrives with its placeholders replaced, unless reading or writing it
      fails. */
  lemma SubstitutedElsewhere(t0: Tree, f: Faults, name: string, port: int, template: Path, target: Path,
                             t: Tree, warnings: seq<Path>, p: Path)
    requires WellFormed(t0) && InitEnds(t0, f, name, port, template, target, Created, t, warnings)
    requires p in Kept(t0, template, TemplateFilter(template)) && IsFile(t0, p)
    requires forall i :: |template| <= i < |p| - 1 ==> p[i] !in ExcludedDirs
    requires target + p[|template|..] !in f.read && target + p[|template|..] !in f.write
    ensures target + p[|template|..] in t
    ensures t[target + p[|template|..]] == File(ApplyAll(t0[p].content, ForProject(name, port).Entries()))
  {
    CreatedEnds(t0, f, name, port, template, target, t, warnings);
    SubstitutedInCopy(t0, f, template, target, TemplateFilter(template), ForProject(name, port), p);
  }

  /** A file that a copy without failures places below `dst`, and that lies
      in no excluded directory, is substituted by the walk of `dst` when its
      read and write succeed. */
  lemma SubstitutedInCopy(t0: Tree, f: Faults, template: Path, target: Path, keep: Path -> bool, r: Replacements, p: Path)
    requires WellFormed(t0) && IsDir(t0, template) && target !in t0
    requires CopyRefusal(t0, template, target).None? && Faulted(t0, f, template, keep) == {}
    requires p in Kept(t0, template, keep) && IsFile(t0, p)
    requires forall i :: |template| <= i < |p| - 1 ==> p[i] !in ExcludedDirs
    requires target + p[|template|..] !in f.read && target + p[|template|..] !in f.write
    ensures target + p[|template|..] in Processed(CopyTree(t0, f, template, target, keep), f, target, r)
    ensures Processed(CopyTree(t0, f, template, target, keep), f, target, r)[target + p[|template|..]] ==
            File(ApplyAll(t0[p].content, r.Entries()))
  {
    var copied := CopyTree(t0, f, template, target, keep);
    var q := target + p[|template|..];
    CopiedPrefix(t0, f, template, target, keep, p, |p|);
    assert p[..|p|] == p;
    forall k | |target| < k < |q|
      ensures IsDir(copied, q[..k]) && q[k - 1] !in ExcludedDirs
    {
      CopiedDirAbove(t0, f, template, target, keep, p, k);
      assert q[k - 1] == p[k - 1 - |target| + |template|];
    }
    assert q[..|target|] == target;
    TargetGetsTemplate(t0, f, template, target, keep, p);
    WalkedFilesSubstituted(copied, f, target, r, q);
  }

  /** A copy without failures puts the template's own directory at the
      target. */
  lemma TargetGetsTemplate(t0: Tree, f: Faults, template: Path, target: Path, keep: Path -> bool, p: Path)
    requires WellFormed(t0) && IsDir(t0, template)
    requires CopyRefusal(t0, template, target).None? && Faulted(t0, f, template, keep) == {}
    requires p in Kept(t0, template, keep)
    ensures IsDir(CopyTree(t0, f, template, target, keep), target)
  {
    CopiedPrefix(t0, f, template, target, keep, p, |template|);
    assert p[..|template|] == template;
    assert target + template[|template|..] == target;
  }

  /** On success, with a name `validateProjectName` accepts that has a
      lower-case letter or a digit, no placeholder is left in a file the
      walk rewrote. */
  lemma CreatedFilesHaveNoTokens(t0: Tree, f: Faults, name: string, port: int, template: Path, target: Path,
                                 t: Tree, warnings: seq<Path>, p: Path)
    requires WellFormed(t0) && InitEnds(t0, f, name, port, template, target, Created, t, warnings)
    requires ValidateProjectName(name) == Valid && HasLowerOrDigit(name)
    requires p in Kept(t0, template, TemplateFilter(template)) && IsFile(t0, p)
    requires forall i :: |template| <= i < |p| - 1 ==> p[i] !in ExcludedDirs
    requires target + p[|template|..] !in f.read && target + p[|template|..] !in f.write
    ensures target + p[|template|..] in t && t[target + p[|template|..]].File?
    ensures forall k :: 0 <= k < |Tokens| ==> !Contains(t[target + p[|template|..]].content, Tokens[k])
  {
    SubstitutedElsewhere(t0, f, name, port, template, target, t, warnings, p);
    ValidNameLeavesNoToken(t0[p].content, name, port);
  }
}
