/** The part of `fs-extra` the scaffolder calls (`pathExists`, `readFile`,
    `writeFile`, `readdir` with file types, `copy` with a filter, `remove`),
    over an abstract tree of paths. What the disk would decide on its own (a
    file that cannot be read as text, a listing that is refused, a copy that
    is cut short, a removal that fails) is read from a table of faults fixed
    when the file system is made. */
module FileSystem {
  import opened Text

  /** An absolute path, as its components below the root. */
  type Path = seq<string>

  datatype Node = Dir | File(content: string)

  /** Every path that exists, and what is there. */
  type Tree = map<Path, Node>

  /** For each operation, the paths where it fails and the error code it
      fails with there. */
  datatype Faults = Faults(read: map<Path, string>, write: map<Path, string>,
                           list: map<Path, string>, copy: map<Path, string>,
                           remove: map<Path, string>)

  datatype Result<T> = Ok(value: T) | Err(code: string)

  /** How an operation without a value ends: normally, or by throwing an
      error with a code. */
  datatype Outcome = Success | Failure(code: string)

  /** An entry of `readdir(dir, { withFileTypes: true })`. */
  datatype Dirent = Dirent(name: string, isDirectory: bool)

  /** `p` is `root` or lies inside it. */
  predicate Below(p: Path, root: Path) {
    |root| <= |p| && p[..|root|] == root
  }

  predicate IsDir(t: Tree, p: Path) {
    p in t && t[p].Dir?
  }

  predicate IsFile(t: Tree, p: Path) {
    p in t && t[p].File?
  }

  /** The proper ancestors of `p`, from the root down to its parent. */
  function Ancestors(p: Path): set<Path> {
    set k | 0 <= k < |p| :: p[..k]
  }

  /** A tree a disk can hold: every proper ancestor of a path that exists is
      a directory that exists. */
  predicate WellFormed(t: Tree) {
    forall p, k :: p in t && 0 <= k < |p| ==> IsDir(t, p[..k])
  }

  // ---------------------------------------------------------------------
  // What each operation does to a tree
  // ---------------------------------------------------------------------

  /** `readFile(p, "utf8")`. */
  function ReadResult(t: Tree, f: Faults, p: Path): Result<string> {
    if p !in t then Err("ENOENT")
    else if t[p].Dir? then Err("EISDIR")
    else if p in f.read then Err(f.read[p])
    else Ok(t[p].content)
  }

  /** The error `writeFile(p, …)` fails with, if it fails. */
  function WriteError(t: Tree, f: Faults, p: Path): Option<string> {
    if IsDir(t, p) then Some("EISDIR")
    else if |p| == 0 || !IsDir(t, p[..|p| - 1]) then Some("ENOENT")
    else if p in f.write then Some(f.write[p])
    else None
  }

  /** The names directly inside `d`. */
  function Children(t: Tree, d: Path): set<string> {
    set p | p in t && |p| == |d| + 1 && p[..|d|] == d :: p[|d|]
  }

  /** The error `readdir(d)` fails with, if it fails. */
  function ListError(t: Tree, f: Faults, d: Path): Option<string> {
    if d !in t then Some("ENOENT")
    else if t[d].File? then Some("ENOTDIR")
    else if d in f.list then Some(f.list[d])
    else None
  }

  function Names(entries: seq<Dirent>): (names: seq<string>)
    ensures |names| == |entries|
    ensures forall i :: 0 <= i < |entries| ==> names[i] == entries[i].name
  {
    seq(|entries|, i requires 0 <= i < |entries| => entries[i].name)
  }

  /** `entries` lists the children of `d`, each once, in some order, and says
      of each whether it is a directory. */
  ghost predicate Listing(t: Tree, d: Path, entries: seq<Dirent>) {
    (forall c :: c in Names(entries) <==> c in Children(t, d)) &&
    (forall i, j :: 0 <= i < j < |entries| ==> entries[i].name != entries[j].name) &&
    (forall i :: 0 <= i < |entries| ==> entries[i].isDirectory == IsDir(t, d + [entries[i].name]))
  }

  /** The error `copy(src, dst)` refuses with before it writes anything:
      a missing source, a destination inside the source, a file where a
      directory above the destination should be, or a destination that
      exists already. */
  function CopyRefusal(t: Tree, src: Path, dst: Path): Option<string> {
    if src !in t then Some("ENOENT")
    else if Below(dst, src) then Some("EINVAL")
    else if exists k :: 0 <= k < |dst| && IsFile(t, dst[..k]) then Some("ENOTDIR")
    else if dst in t then Some("EEXIST")
    else None
  }

  /** The entries below `src` the copy visits: the filter is asked about each
      path on the way down, and an entry it refuses is skipped with all that
      lies inside it. */
  function Kept(t: Tree, src: Path, keep: Path -> bool): set<Path> {
    set p | p in t && Below(p, src) && forall k :: |src| <= k <= |p| ==> keep(p[..k])
  }

  /** The visited entries whose copy fails. */
  function Faulted(t: Tree, f: Faults, src: Path, keep: Path -> bool): set<Path> {
    set p | p in Kept(t, src, keep) && p in f.copy
  }

  /** The visited entries that arrive: those not at or inside a failing one. */
  function Copied(t: Tree, f: Faults, src: Path, keep: Path -> bool): set<Path> {
    set p | p in Kept(t, src, keep) && forall q :: q in Faulted(t, f, src, keep) ==> !Below(p, q)
  }

  /** The entries of `from`, each moved from below `src` to below `dst`. */
  function Moved(t: Tree, from: set<Path>, src: Path, dst: Path): Tree
    requires forall p :: p in from ==> p in t && Below(p, src)
  {
    MoveIsInjective(from, src, dst);
    map p | p in from :: dst + p[|src|..] := t[p]
  }

  lemma MoveIsInjective(from: set<Path>, src: Path, dst: Path)
    requires forall p :: p in from ==> Below(p, src)
    ensures forall p, q :: p in from && q in from && Below(p, src) && Below(q, src) && dst + p[|src|..] == dst + q[|src|..] ==> p == q
  {
    forall p, q | p in from && q in from && dst + p[|src|..] == dst + q[|src|..]
      ensures p == q
    {
      assert p[|src|..] == (dst + p[|src|..])[|dst|..];
      assert q[|src|..] == (dst + q[|src|..])[|dst|..];
      assert p == p[..|src|] + p[|src|..];
      assert q == q[..|src|] + q[|src|..];
    }
  }

  /** The codes `copy(src, dst)` may throw with: its refusal, or the code of
      one of the entries that fail (which one depends on the order of the
      copy). */
  function CopyErrors(t: Tree, f: Faults, src: Path, dst: Path, keep: Path -> bool): set<string> {
    if CopyRefusal(t, src, dst).Some? then {CopyRefusal(t, src, dst).value}
    else set p | p in Faulted(t, f, src, keep) :: f.copy[p]
  }

  /** `copy(src, dst, { filter: keep })`: the missing directories above `dst`
      are made, then every entry that arrives is placed at the same relative
      path below `dst`. */
  function CopyTree(t: Tree, f: Faults, src: Path, dst: Path, keep: Path -> bool): Tree {
    if CopyRefusal(t, src, dst).Some? then t
    else
      (t + map a | a in Ancestors(dst) :: Dir) + Moved(t, Copied(t, f, src, keep), src, dst)
  }

  /** `remove(p)`: `p` and all that lies inside it are gone. */
  function RemoveTree(t: Tree, p: Path): Tree {
    map q | q in t && !Below(q, p) :: t[q]
  }

  // ---------------------------------------------------------------------
  // What a copy leaves
  // ---------------------------------------------------------------------

  /** In a valid tree, whatever lies inside a path that exists has all of
      that path's ancestors, and the path itself, present. */
  lemma AncestorExists(t: Tree, p: Path, a: Path)
    requires WellFormed(t) && p in t && Below(p, a)
    ensures a in t
  {
    if |p| == |a| {
      assert p == p[..|a|];
    } else {
      assert IsDir(t, p[..|a|]);
    }
  }

  /** An entry that arrives is at its relative path below `dst`, with what
      it held. */
  lemma MovedAt(t: Tree, from: set<Path>, src: Path, dst: Path, p: Path)
    requires forall q :: q in from ==> q in t && Below(q, src)
    requires p in from && Below(p, src)
    ensures dst + p[|src|..] in Moved(t, from, src, dst)
    ensures Moved(t, from, src, dst)[dst + p[|src|..]] == t[p]
  {
    MoveIsInjective(from, src, dst);
  }

  /** Everything placed below `dst` came from the same relative path below
      `src`. */
  lemma MovedFrom(t: Tree, from: set<Path>, src: Path, dst: Path, q: Path)
    requires forall p :: p in from ==> p in t && Below(p, src)
    requires q in Moved(t, from, src, dst)
    ensures Below(q, dst) && src + q[|dst|..] in from
    ensures Moved(t, from, src, dst)[q] == t[src + q[|dst|..]]
  {
    var p :| p in from && q == dst + p[|src|..];
    assert q[..|dst|] == dst && q[|dst|..] == p[|src|..];
    assert p == p[..|src|] + p[|src|..];
    MovedAt(t, from, src, dst, p);
  }

  /** A copy that goes ahead into a valid tree changes nothing that was
      there before: it only adds the directories above `dst` that were
      missing and the entries that arrive below `dst`. */
  lemma CopyKeepsExisting(t: Tree, f: Faults, src: Path, dst: Path, keep: Path -> bool, p: Path)
    requires WellFormed(t) && CopyRefusal(t, src, dst).None? && p in t
    ensures p in CopyTree(t, f, src, dst, keep) && CopyTree(t, f, src, dst, keep)[p] == t[p]
  {
    var moved := Moved(t, Copied(t, f, src, keep), src, dst);
    if p in moved {
      MovedFrom(t, Copied(t, f, src, keep), src, dst, p);
      AncestorExists(t, p, dst);
    }
    if p in Ancestors(dst) {
      var k :| 0 <= k < |dst| && p == dst[..k];
      assert !IsFile(t, dst[..k]);
    }
  }

  /** The new paths a copy makes: directories above `dst`, and entries
      arrived below it. */
  lemma CopyAddsBelowDestination(t: Tree, f: Faults, src: Path, dst: Path, keep: Path -> bool, q: Path)
    requires CopyRefusal(t, src, dst).None? && q in CopyTree(t, f, src, dst, keep) && q !in t
    ensures q !in Ancestors(dst) ==>
              Below(q, dst) && src + q[|dst|..] in Copied(t, f, src, keep) &&
              CopyTree(t, f, src, dst, keep)[q] == t[src + q[|dst|..]]
  {
    var moved := Moved(t, Copied(t, f, src, keep), src, dst);
    if q in moved {
      MovedFrom(t, Copied(t, f, src, keep), src, dst, q);
    }
  }

  /** Each entry that arrives is at its relative path below `dst`. */
  lemma CopyPlaces(t: Tree, f: Faults, src: Path, dst: Path, keep: Path -> bool, p: Path)
    requires CopyRefusal(t, src, dst).None? && p in Copied(t, f, src, keep)
    ensures dst + p[|src|..] in CopyTree(t, f, src, dst, keep)
    ensures CopyTree(t, f, src, dst, keep)[dst + p[|src|..]] == t[p]
  {
    MovedAt(t, Copied(t, f, src, keep), src, dst, p);
  }

  /** The prefixes of an entry's new path are the new paths of its
      prefixes. */
  lemma MovedPrefix(src: Path, dst: Path, p: Path, k: int)
    requires Below(p, src) && |dst| <= k <= |dst| + |p| - |src|
    ensures (dst + p[|src|..])[..k] == dst + p[..k - |dst| + |src|][|src|..]
  {
    assert p[..k - |dst| + |src|][|src|..] == p[|src|..][..k - |dst|];
  }

  /** When nothing fails, the directories above a visited entry arrive too,
      at the prefixes of its new path, with what they held. */
  lemma CopiedPrefix(t: Tree, f: Faults, src: Path, dst: Path, keep: Path -> bool, p: Path, j: int)
    requires WellFormed(t) && CopyRefusal(t, src, dst).None? && Faulted(t, f, src, keep) == {}
    requires p in Kept(t, src, keep) && |src| <= j <= |p|
    ensures p[..j] in t && dst + p[..j][|src|..] in CopyTree(t, f, src, dst, keep)
    ensures CopyTree(t, f, src, dst, keep)[dst + p[..j][|src|..]] == t[p[..j]]
  {
    var d := p[..j];
    AncestorExists(t, p, d);
    assert d[..|src|] == src;
    forall k | |src| <= k <= |d|
      ensures keep(d[..k])
    {
      assert d[..k] == p[..k];
    }
    assert d in Kept(t, src, keep);
    CopyPlaces(t, f, src, dst, keep, d);
  }

  /** When nothing fails, every path strictly between `dst` and the new
      path of a visited entry is a directory of the copy. */
  lemma CopiedDirAbove(t: Tree, f: Faults, src: Path, dst: Path, keep: Path -> bool, p: Path, k: int)
    requires WellFormed(t) && CopyRefusal(t, src, dst).None? && Faulted(t, f, src, keep) == {}
    requires p in Kept(t, src, keep) && |dst| < k < |dst| + |p| - |src|
    ensures IsDir(CopyTree(t, f, src, dst, keep), (dst + p[|src|..])[..k])
  {
    var j := k - |dst| + |src|;
    var copied := CopyTree(t, f, src, dst, keep);
    var e := dst + p[..j][|src|..];
    MovedPrefix(src, dst, p, k);
    CopiedPrefix(t, f, src, dst, keep, p, j);
    assert IsDir(t, p[..j]);
    assert e in copied && copied[e].Dir?;
    assert (dst + p[|src|..])[..k] == e;
  }

  /** A path absent from a valid tree has nothing inside it. */
  lemma NothingInsideAbsent(t: Tree, a: Path, p: Path)
    requires WellFormed(t)
    ensures p in t && Below(p, a) ==> a in t
  {
    if p in t && Below(p, a) {
      AncestorExists(t, p, a);
    }
  }

  /** Two prefixes of one path are prefixes of each other. */
  lemma PrefixesOfOnePath(p: Path, a: Path, b: Path)
    ensures Below(p, a) && Below(p, b) ==> Below(a, b) || Below(b, a)
  {
    if Below(p, a) && Below(p, b) {
      if |a| <= |b| {
        assert b[..|a|] == p[..|a|];
      } else {
        assert a[..|b|] == p[..|b|];
      }
    }
  }

  /** A copy that goes ahead adds nothing inside its source: the target
      is neither inside the source nor above an existing source. */
  lemma CopyAddsNothingInsideSource(t: Tree, f: Faults, src: Path, dst: Path, keep: Path -> bool, q: Path)
    requires WellFormed(t) && CopyRefusal(t, src, dst).None?
    ensures q in CopyTree(t, f, src, dst, keep) && Below(q, src) ==> q in t
  {
    PrefixesOfOnePath(q, src, dst);
    NothingInsideAbsent(t, dst, src);
    if q in CopyTree(t, f, src, dst, keep) && q !in t {
      CopyAddsBelowDestination(t, f, src, dst, keep, q);
    }
    AncestorInside(q, src, dst);
  }

  /** A directory above `dst` that lies inside `src` puts `dst` inside
      `src` too. */
  lemma AncestorInside(q: Path, src: Path, dst: Path)
    ensures q in Ancestors(dst) && Below(q, src) ==> Below(dst, src)
  {
    if q in Ancestors(dst) && Below(q, src) {
      var k :| 0 <= k < |dst| && q == dst[..k];
      assert dst[..|src|] == q[..|src|];
    }
  }

  /** The source arrives whenever anything does: the filter passed it and
      no failing entry lies above it. */
  lemma CopiedFromRoot(t: Tree, f: Faults, src: Path, keep: Path -> bool, p: Path)
    requires src in t && p in Copied(t, f, src, keep)
    ensures src in Copied(t, f, src, keep)
  {
    assert p[..|src|] == src;
    assert src[..|src|] == src;
    forall q | q in Faulted(t, f, src, keep)
      ensures Below(src, q) ==> q == src
    {
      KeptAboveIsSource(t, src, keep, q);
    }
  }

  /** The only visited entry at or above the source is the source. */
  lemma KeptAboveIsSource(t: Tree, src: Path, keep: Path -> bool, q: Path)
    requires q in Kept(t, src, keep)
    ensures Below(src, q) ==> q == src
  {
    if Below(src, q) {
      assert q == q[..|src|];
    }
  }

  /** A copy into a valid tree that leaves anything below `dst` has made
      `dst` itself. */
  lemma InsideMeansPresent(t: Tree, f: Faults, src: Path, dst: Path, keep: Path -> bool, q: Path)
    requires WellFormed(t) && CopyRefusal(t, src, dst).None?
    ensures q in CopyTree(t, f, src, dst, keep) && Below(q, dst) ==> dst in CopyTree(t, f, src, dst, keep)
  {
    if q in CopyTree(t, f, src, dst, keep) && Below(q, dst) {
      NothingInsideAbsent(t, dst, q);
      CopyAddsBelowDestination(t, f, src, dst, keep, q);
      CopiedFromRoot(t, f, src, keep, src + q[|dst|..]);
      CopyPlaces(t, f, src, dst, keep, src);
      assert dst + src[|src|..] == dst;
    }
  }

  // ---------------------------------------------------------------------
  // The disk
  // ---------------------------------------------------------------------

  class FileSystem {
    var tree: Tree
    const faults: Faults

    constructor (t: Tree, f: Faults)
      ensures tree == t && faults == f
    {
      tree := t;
      faults := f;
    }

    method PathExists(p: Path) returns (b: bool)
      ensures b <==> p in tree
    {
      b := p in tree;
    }

    method ReadFile(p: Path) returns (r: Result<string>)
      ensures r == ReadResult(tree, faults, p)
    {
      r := ReadResult(tree, faults, p);
    }

    method WriteFile(p: Path, content: string) returns (r: Outcome)
      modifies this
      ensures WriteError(old(tree), faults, p).None? ==> r == Success && tree == old(tree)[p := File(content)]
      ensures WriteError(old(tree), faults, p).Some? ==>
                r == Failure(WriteError(old(tree), faults, p).value) && tree == old(tree)
    {
      var e := WriteError(tree, faults, p);
      if e.Some? {
        r := Failure(e.value);
      } else {
        tree := tree[p := File(content)];
        r := Success;
      }
    }

    /** `readdir(d, { withFileTypes: true })`; the order of the entries is
        not fixed. */
    method ReadDir(d: Path) returns (r: Result<seq<Dirent>>)
      ensures r.Err? <==> ListError(tree, faults, d).Some?
      ensures r.Err? ==> r.code == ListError(tree, faults, d).value
      ensures r.Ok? ==> Listing(tree, d, r.value)
    {
      var e := ListError(tree, faults, d);
      if e.Some? {
        return Err(e.value);
      }
      var rest := Children(tree, d);
      var entries: seq<Dirent> := [];
      while rest != {}
        invariant forall c :: c in Names(entries) || c in rest <==> c in Children(tree, d)
        invariant forall c :: c in Names(entries) ==> c !in rest
        invariant forall i, j :: 0 <= i < j < |entries| ==> entries[i].name != entries[j].name
        invariant forall i :: 0 <= i < |entries| ==> entries[i].isDirectory == IsDir(tree, d + [entries[i].name])
        decreases |rest|
      {
        var c :| c in rest;
        var entry := Dirent(c, IsDir(tree, d + [c]));
        assert Names(entries + [entry]) == Names(entries) + [c];
        entries := entries + [entry];
        rest := rest - {c};
      }
      r := Ok(entries);
    }

    method Copy(src: Path, dst: Path, keep: Path -> bool) returns (r: Outcome)
      modifies this
      ensures tree == CopyTree(old(tree), faults, src, dst, keep)
      ensures r.Success? <==> CopyRefusal(old(tree), src, dst).None? && Faulted(old(tree), faults, src, keep) == {}
      ensures r.Failure? ==> r.code in CopyErrors(old(tree), faults, src, dst, keep)
    {
      var refusal := CopyRefusal(tree, src, dst);
      if refusal.Some? {
        return Failure(refusal.value);
      }
      var faulted := Faulted(tree, faults, src, keep);
      tree := CopyTree(tree, faults, src, dst, keep);
      if faulted == {} {
        r := Success;
      } else {
        var p :| p in faulted;
        r := Failure(faults.copy[p]);
      }
    }

    method Remove(p: Path) returns (r: Outcome)
      modifies this
      ensures p in faults.remove ==> r == Failure(faults.remove[p]) && tree == old(tree)
      ensures p !in faults.remove ==> r == Success && tree == RemoveTree(old(tree), p)
    {
      if p in faults.remove {
        r := Failure(faults.remove[p]);
      } else {
        tree := RemoveTree(tree, p);
        r := Success;
      }
    }
  }
}
