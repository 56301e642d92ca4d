/**
 Sealing a finished run directory and reopening it later.

 Sealing lists every covered file with its size and SHA-256 in ARTIFACTS.sha256, and binds that
 manifest in RESULT.json.  Reopening checks the inventory against the files it finds.  JSON and
 SHA-256 are parameters; a byte string is a `string` holding one char per byte.
 */
module RunSeal {
  import opened Prelude
  import Separated

  const MANIFEST: string := "ARTIFACTS.sha256"
  const RESULT: string := "RESULT.json"
  const MAX_ENTRIES: nat := 4096
  const MAX_INPUT: nat := 2 * 1024 * 1024 * 1024

  /** A link knows the bytes of the regular file it leads to, if any. */
  datatype Node = Regular(bytes: string) | Link(target: Option<string>) | Other

  type Path = seq<string>

  type Tree = map<Path, Node>

  datatype Entry = Entry(path: string, bytes: nat, sha256: string)

  datatype Result = Result(body: string, manifest: string)

  datatype Codec = Codec(
    sha256: string -> string,
    writeManifest: seq<Entry> -> string,
    readManifest: string -> Option<seq<Entry>>,
    writeResult: Result -> string,
    readResult: string -> Option<Result>,
    admitted: string -> bool)

  ghost predicate RoundTrips(c: Codec) {
    && (forall m :: c.readManifest(c.writeManifest(m)) == Some(m))
    && (forall r :: c.readResult(c.writeResult(r)) == Some(r))
  }

  // ------------------------------------------------------------------ paths

  predicate Plain(name: string) {
    name != "" && name != "." && name != ".." && '/' !in name
  }

  /** The names a directory walk yields. */
  ghost predicate OnDisk(p: Path) {
    p != [] && forall i :: 0 <= i < |p| ==> Plain(p[i])
  }

  ghost predicate WellFormed(t: Tree) { forall p :: p in t ==> OnDisk(p) }

  /** `as_posix`. */
  function Posix(p: Path): string {
    if p == [] then "." else Separated.Join(p, '/')
  }

  function WithoutDots(names: seq<string>): Path {
    if names == [] then []
    else (if names[0] == "" || names[0] == "." then [] else [names[0]]) + WithoutDots(names[1..])
  }

  /** The parts of a relative path, as `PurePosixPath` reads it. */
  function Locate(s: string): Path { WithoutDots(Separated.Split(s, '/')) }

  predicate Safe(s: string) {
    (s != "" ==> s[0] != '/') && ".." !in Locate(s)
  }

  lemma {:induction false} PlainStays(p: Path)
    requires forall i :: 0 <= i < |p| ==> Plain(p[i])
    ensures WithoutDots(p) == p
  {
    if p != [] {
      PlainStays(p[1..]);
      assert p == [p[0]] + p[1..];
    }
  }

  /** A path that is on disk is located by its own spelling. */
  lemma PosixLocates(p: Path)
    requires OnDisk(p)
    ensures Locate(Posix(p)) == p && Safe(Posix(p))
  {
    Separated.SplitOfJoin(p, '/');
    PlainStays(p);
    assert p[0][0] != '/' by { assert p[0][0] in p[0]; }
  }

  // ------------------------------------------------------------------ coverage

  predicate Reserved(p: Path) { p != [] && p[|p| - 1] in {MANIFEST, RESULT} }

  predicate IsFile(n: Node) { n.Regular? || (n.Link? && n.target.Some?) }

  /** What the sealing and the reopening walk consider. */
  predicate Covers(t: Tree, p: Path) { p in t && IsFile(t[p]) && !Reserved(p) }

  function Covered(t: Tree): (m: Tree) { map p | p in t && Covers(t, p) :: t[p] }

  function Contents(n: Node): string
    requires IsFile(n)
  {
    if n.Regular? then n.bytes else n.target.value
  }

  function EntryOf(t: Tree, p: Path, c: Codec): Entry
    requires Covers(t, p)
  {
    var bytes := Contents(t[p]);
    Entry(Posix(p), |bytes|, c.sha256(bytes))
  }

  predicate IsPhysical(t: Tree, p: Path) {
    p in t && t[p].Regular? && |t[p].bytes| <= MAX_INPUT
  }

  /** A regular file of at most 2 GiB. */
  predicate RealFile(t: Tree, p: Path) { p in t && t[p].Regular? && |t[p].bytes| <= 2147483648 }

  lemma PhysicalIsReal(t: Tree, p: Path)
    ensures IsPhysical(t, p) <==> RealFile(t, p)
  {}

  predicate Matches(t: Tree, e: Entry, c: Codec) {
    && Safe(e.path)
    && var p := Locate(e.path);
       IsPhysical(t, p) && |t[p].bytes| == e.bytes && c.sha256(t[p].bytes) == e.sha256
  }

  ghost predicate DistinctPaths(es: seq<Entry>) {
    forall i, j :: 0 <= i < j < |es| ==> es[i].path != es[j].path
  }

  /** The inventory is exact: each entry describes its file, and each covered file has one. */
  ghost predicate Exact(t: Tree, es: seq<Entry>, c: Codec) {
    && DistinctPaths(es)
    && (forall i :: 0 <= i < |es| ==>
          && Matches(t, es[i], c)
          && Covers(t, Locate(es[i].path)) && es[i].path == Posix(Locate(es[i].path)))
    && (forall p :: Covers(t, p) ==> exists i :: 0 <= i < |es| && es[i].path == Posix(p))
  }

  /** One entry for each covered file, and no other. */
  ghost predicate Listed(t: Tree, es: seq<Entry>, c: Codec) {
    && DistinctPaths(es) && |es| == |Covered(t)|
    && (forall i :: 0 <= i < |es| ==> exists p :: Covers(t, p) && es[i] == EntryOf(t, p, c))
    && (forall p :: Covers(t, p) ==> exists i :: 0 <= i < |es| && es[i] == EntryOf(t, p, c))
  }

  function CoveredNames(t: Tree): set<string> {
    set p | p in t && Covers(t, p) :: Posix(p)
  }

  /** The loop of `check_run` over the manifest entries and the final comparison. */
  method CheckInventory(t: Tree, es: seq<Entry>, c: Codec) returns (ok: bool)
    requires WellFormed(t)
    ensures ok <==> Exact(t, es, c)
  {
    hide Matches, Covers, Posix, Locate;
    var expected: set<string> := {};
    var i := 0;
    while i < |es|
      invariant i <= |es|
      invariant forall s :: s in expected <==> exists j :: 0 <= j < i && es[j].path == s
      invariant forall j :: 0 <= j < i ==> Matches(t, es[j], c)
      invariant forall j, k :: 0 <= j < k < i ==> es[j].path != es[k].path
    {
      if !Matches(t, es[i], c) {
        return false;
      }
      if es[i].path in expected {
        return false;
      }
      expected := expected + {es[i].path};
      i := i + 1;
    }
    ExactIffSameNames(t, es, expected, c);
    return CoveredNames(t) == expected;
  }

  lemma ExactIffSameNames(t: Tree, es: seq<Entry>, expected: set<string>, c: Codec)
    requires WellFormed(t) && DistinctPaths(es)
    requires forall s :: s in expected <==> exists j :: 0 <= j < |es| && es[j].path == s
    requires forall j :: 0 <= j < |es| ==> Matches(t, es[j], c)
    ensures CoveredNames(t) == expected <==> Exact(t, es, c)
  {
    hide Matches, Covers, Posix, Locate, DistinctPaths;
    if CoveredNames(t) == expected {
      forall i | 0 <= i < |es| ensures Covers(t, Locate(es[i].path)) && es[i].path == Posix(Locate(es[i].path)) {
        assert es[i].path in CoveredNames(t);
        var p :| p in t && Covers(t, p) && Posix(p) == es[i].path;
        PosixLocates(p);
      }
      forall p | Covers(t, p) ensures exists i :: 0 <= i < |es| && es[i].path == Posix(p) {
        CoversIsIn(t, p);
        assert Posix(p) in CoveredNames(t);
      }
    }
    if Exact(t, es, c) {
      forall s ensures s in CoveredNames(t) <==> s in expected {
        if s in expected {
          var i :| 0 <= i < |es| && es[i].path == s;
          CoversIsIn(t, Locate(s));
          assert Posix(Locate(s)) in CoveredNames(t);
        }
      }
    }
  }

  lemma CoversIsIn(t: Tree, p: Path)
    ensures Covers(t, p) ==> p in t
  {}

  // ------------------------------------------------------------------ what an inventory fixes

  lemma CoveredAt(t: Tree, p: Path)
    ensures (p in Covered(t) <==> Covers(t, p)) && (Covers(t, p) ==> p in t && Covered(t)[p] == t[p])
  {}

  /** One inventory, two trees: the covered files are the same, byte for byte. */
  lemma ExactDetermines(t: Tree, u: Tree, es: seq<Entry>, c: Codec)
    requires Exact(t, es, c) && Exact(u, es, c) && Injective(c.sha256)
    requires WellFormed(t) && WellFormed(u)
    ensures Covered(t) == Covered(u)
  {
    hide Covers, Covered, Posix, Locate, Matches, Exact;
    forall p ensures p in Covered(t) <==> p in Covered(u) {
      CoveredAt(t, p);
      CoveredAt(u, p);
      if Covers(t, p) { SameFile(t, u, p, es, c); }
      if Covers(u, p) { SameFile(u, t, p, es, c); }
    }
    forall p | p in Covered(t) ensures Covered(t)[p] == Covered(u)[p] {
      CoveredAt(t, p);
      CoveredAt(u, p);
      SameFile(t, u, p, es, c);
    }
  }

  lemma SameFile(t: Tree, u: Tree, p: Path, es: seq<Entry>, c: Codec)
    requires Exact(t, es, c) && Exact(u, es, c) && Injective(c.sha256)
    requires WellFormed(t) && WellFormed(u) && Covers(t, p)
    ensures Covers(u, p) && p in t && p in u && t[p] == u[p]
  {
    hide Posix, Locate, Safe, Reserved;
    var i :| 0 <= i < |es| && es[i].path == Posix(p);
    PosixLocates(p);
    assert Matches(t, es[i], c) && Matches(u, es[i], c);
  }

  /** An inventory says nothing beyond the covered files. */
  lemma ExactDependsOnCovered(t: Tree, u: Tree, es: seq<Entry>, c: Codec)
    requires Exact(t, es, c) && Covered(t) == Covered(u)
    ensures Exact(u, es, c)
  {
    hide Covers, Covered, Posix, Locate, Matches, DistinctPaths;
    forall p ensures Covers(t, p) <==> Covers(u, p) {
      CoveredAt(t, p);
      CoveredAt(u, p);
    }
    forall i | 0 <= i < |es| ensures Matches(u, es[i], c) {
      var p := Locate(es[i].path);
      CoveredAt(t, p);
      CoveredAt(u, p);
      MatchesAt(t, u, es[i], c);
    }
  }

  lemma MatchesAt(t: Tree, u: Tree, e: Entry, c: Codec)
    requires Locate(e.path) in t && Locate(e.path) in u && t[Locate(e.path)] == u[Locate(e.path)]
    ensures Matches(t, e, c) <==> Matches(u, e, c)
  {}

  /** A file, or a link to one, under any name but those of the two documents. */
  predicate ToSeal(t: Tree, p: Path) {
    && p in t && p != [] && p[|p| - 1] != "ARTIFACTS.sha256" && p[|p| - 1] != "RESULT.json"
    && (t[p].Regular? || (t[p].Link? && t[p].target.Some?))
  }

  ghost predicate IsWarranted(t: Tree, e: Entry) { exists p :: ToSeal(t, p) && Posix(p) == e.path }

  function Describe(t: Tree, p: Path, c: Codec): Entry
    requires p in t && t[p].Regular?
  {
    Entry(Posix(p), |t[p].bytes|, c.sha256(t[p].bytes))
  }

  /** Every file to seal is a regular one of at most 2 GiB and has its entry, and there are no other entries. */
  ghost predicate Inventoried(t: Tree, es: seq<Entry>, c: Codec) {
    && DistinctPaths(es)
    && (forall p :: ToSeal(t, p) ==> RealFile(t, p) && Describe(t, p, c) in es)
    && (forall i :: 0 <= i < |es| ==> IsWarranted(t, es[i]))
  }

  lemma CoversIsToSeal(t: Tree, p: Path)
    requires WellFormed(t)
    ensures Covers(t, p) <==> ToSeal(t, p)
  {}

  /** What exactness of an inventory comes to. */
  lemma ExactIffInventoried(t: Tree, es: seq<Entry>, c: Codec)
    requires WellFormed(t)
    ensures Exact(t, es, c) <==> Inventoried(t, es, c)
  {
    hide Posix, Locate, Safe, Covers, ToSeal, DistinctPaths, Reserved;
    forall p ensures Covers(t, p) <==> ToSeal(t, p) { CoversIsToSeal(t, p); }
    forall p | Covers(t, p) ensures p in t && Locate(Posix(p)) == p && Safe(Posix(p)) {
      CoversIsIn(t, p);
      PosixLocates(p);
    }
    if Exact(t, es, c) { ExactIsInventoried(t, es, c); }
    if Inventoried(t, es, c) { InventoriedIsExact(t, es, c); }
  }

  lemma ExactIsInventoried(t: Tree, es: seq<Entry>, c: Codec)
    requires Exact(t, es, c)
    requires forall p :: Covers(t, p) <==> ToSeal(t, p)
    requires forall p :: Covers(t, p) ==> p in t && Locate(Posix(p)) == p && Safe(Posix(p))
    ensures Inventoried(t, es, c)
  {
    hide Posix, Locate, Safe, Covers, ToSeal, DistinctPaths;
    forall p | ToSeal(t, p) ensures RealFile(t, p) && Describe(t, p, c) in es {
      assert Covers(t, p);
      var i :| 0 <= i < |es| && es[i].path == Posix(p);
      assert Matches(t, es[i], c);
      assert es[i] == Describe(t, p, c);
    }
    forall i | 0 <= i < |es| ensures IsWarranted(t, es[i]) {
      assert Covers(t, Locate(es[i].path)) && Posix(Locate(es[i].path)) == es[i].path;
    }
  }

  lemma InventoriedIsExact(t: Tree, es: seq<Entry>, c: Codec)
    requires Inventoried(t, es, c)
    requires forall p :: Covers(t, p) <==> ToSeal(t, p)
    requires forall p :: Covers(t, p) ==> p in t && Locate(Posix(p)) == p && Safe(Posix(p))
    ensures Exact(t, es, c)
  {
    hide Posix, Locate, Safe, Covers, ToSeal;
    forall i | 0 <= i < |es|
      ensures Matches(t, es[i], c) && Covers(t, Locate(es[i].path)) && es[i].path == Posix(Locate(es[i].path))
    {
      assert IsWarranted(t, es[i]);
      var p :| ToSeal(t, p) && Posix(p) == es[i].path;
      assert Covers(t, p);
      var e := Describe(t, p, c);
      var j :| 0 <= j < |es| && es[j] == e;
      assert i == j;
    }
    forall p | Covers(t, p) ensures exists i :: 0 <= i < |es| && es[i].path == Posix(p) {
      assert Describe(t, p, c) in es;
    }
  }

  // ------------------------------------------------------------------ the run directory

  /** The manifest and the result are physical files at the root. */
  ghost predicate Opens(t: Tree, m: string, r: string) {
    && RealFile(t, ["ARTIFACTS.sha256"]) && t[["ARTIFACTS.sha256"]].bytes == m
    && RealFile(t, ["RESULT.json"]) && t[["RESULT.json"]].bytes == r
  }

  /** The documents are canonical, the inventory within bounds, and the result binds the manifest. */
  ghost predicate Binds(m: string, r: string, es: seq<Entry>, c: Codec) {
    && c.readManifest(m) == Some(es) && m == c.writeManifest(es)
    && 1 <= |es| <= 4096
    && c.readResult(r).Some? && r == c.writeResult(c.readResult(r).value)
    && c.admitted(c.readResult(r).value.body) && c.readResult(r).value.manifest == c.sha256(m)
  }

  ghost predicate Reopens(t: Tree, c: Codec) {
    exists m, r, es :: Opens(t, m, r) && Binds(m, r, es, c) && Exact(t, es, c)
  }

  /** What a run directory must hold for its seal to be accepted. */
  ghost predicate Sealable(t: Tree) {
    && 1 <= |Covered(t)| <= 4096
    && forall p :: Covers(t, p) ==> RealFile(t, p)
  }

  ghost predicate Lists(listing: seq<Path>, t: Tree) {
    && (forall i, j :: 0 <= i < j < |listing| ==> listing[i] != listing[j])
    && (forall p :: p in listing <==> p in t)
  }

  class Run {
    var tree: Tree

    /** `check_run`, up to the inspection of individual evidence documents. */
    method Check(c: Codec) returns (ok: bool)
      requires WellFormed(tree)
      ensures ok <==> Reopens(tree, c)
    {
      hide Exact, IsPhysical, RealFile;
      var manifest, result := [MANIFEST], [RESULT];
      PhysicalIsReal(tree, manifest);
      PhysicalIsReal(tree, result);
      PhysicalIn(tree, manifest);
      PhysicalIn(tree, result);
      if !IsPhysical(tree, manifest) || !IsPhysical(tree, result) {
        return false;
      }
      var m, r := tree[manifest].bytes, tree[result].bytes;
      assert Opens(tree, m, r);
      if c.readManifest(m).None? || c.readResult(r).None? {
        return false;
      }
      var es, read := c.readManifest(m).value, c.readResult(r).value;
      if m != c.writeManifest(es) || r != c.writeResult(read) {
        return false;
      }
      if !(1 <= |es| <= MAX_ENTRIES) {
        return false;
      }
      var exact := CheckInventory(tree, es, c);
      if !exact {
        return false;
      }
      if read.manifest != c.sha256(m) || !c.admitted(read.body) {
        return false;
      }
      assert Binds(m, r, es, c);
      return true;
    }

    /** The inventory loop of `seal`, over any order in which the walk yields the tree. */
    method Inventory(listing: seq<Path>, c: Codec) returns (es: seq<Entry>)
      requires WellFormed(tree) && Lists(listing, tree)
      ensures Listed(tree, es, c)
    {
      hide Covers, EntryOf, Listed;
      es := [];
      ghost var ps: seq<Path> := [];
      var k := 0;
      while k < |listing|
        invariant k <= |listing| && |es| == |ps|
        invariant forall i :: 0 <= i < |ps| ==> Covers(tree, ps[i]) && es[i] == EntryOf(tree, ps[i], c)
        invariant forall p :: p in ps <==> Covers(tree, p) && p in listing[..k]
        invariant forall i, j :: 0 <= i < j < |ps| ==> ps[i] != ps[j]
      {
        var p := listing[k];
        if Covers(tree, p) {
          es, ps := es + [EntryOf(tree, p, c)], ps + [p];
        }
        k := k + 1;
      }
      InventoryShape(tree, listing, ps, es, c);
    }

    /** `seal`: the inventory is written to the manifest and bound by the result. */
    method Seal(listing: seq<Path>, body: string, c: Codec)
      requires WellFormed(tree) && Lists(listing, tree)
      modifies this
      ensures WellFormed(tree) && Covered(tree) == Covered(old(tree))
      ensures forall p :: p != [MANIFEST] && p != [RESULT] ==>
                (p in tree <==> p in old(tree)) && (p in tree ==> tree[p] == old(tree)[p])
      ensures RoundTrips(c) && c.admitted(body)
              ==> (Reopens(tree, c) <==>
                    Sealable(old(tree)) && RealFile(tree, ["ARTIFACTS.sha256"]) && RealFile(tree, ["RESULT.json"]))
    {
      hide Covered, Covers, Exact, Reserved, RealFile, IsPhysical, Listed;
      var es := Inventory(listing, c);
      var m := c.writeManifest(es);
      var r := c.writeResult(Result(body, c.sha256(m)));
      tree := tree[[MANIFEST] := Regular(m)];
      tree := tree[[RESULT] := Regular(r)];
      RootIsUncovered(old(tree), m, r);
      assert tree == Sealed(old(tree), m, r);
      if RoundTrips(c) && c.admitted(body) { SealedReopens(old(tree), es, m, r, body, c); }
    }
  }

  lemma PhysicalIn(t: Tree, p: Path)
    ensures IsPhysical(t, p) ==> p in t && t[p].Regular?
  {}

  lemma InventoryShape(t: Tree, listing: seq<Path>, ps: seq<Path>, es: seq<Entry>, c: Codec)
    requires WellFormed(t) && Lists(listing, t) && |es| == |ps|
    requires forall i :: 0 <= i < |ps| ==> Covers(t, ps[i]) && es[i] == EntryOf(t, ps[i], c)
    requires forall p :: p in ps <==> Covers(t, p) && p in listing
    requires forall i, j :: 0 <= i < j < |ps| ==> ps[i] != ps[j]
    ensures Listed(t, es, c)
  {
    hide Covers, Posix, Covered;
    forall i, j | 0 <= i < j < |es| ensures es[i].path != es[j].path {
      CoversIsIn(t, ps[i]);
      CoversIsIn(t, ps[j]);
      PosixLocates(ps[i]);
      PosixLocates(ps[j]);
    }
    forall p | Covers(t, p) ensures exists i :: 0 <= i < |es| && es[i] == EntryOf(t, p, c) {
      CoversIsIn(t, p);
      assert p in ps;
      var i :| 0 <= i < |ps| && ps[i] == p;
      assert es[i] == EntryOf(t, p, c);
    }
    forall p ensures p in ps <==> p in Covered(t).Keys {
      CoveredAt(t, p);
      CoversIsIn(t, p);
    }
    DistinctCount(ps, Covered(t).Keys);
  }

  lemma {:induction false} DistinctCount(ps: seq<Path>, s: set<Path>)
    requires forall i, j :: 0 <= i < j < |ps| ==> ps[i] != ps[j]
    requires forall p :: p in ps <==> p in s
    ensures |ps| == |s|
  {
    if ps == [] {
      assert s == {};
    } else {
      var n := |ps| - 1;
      assert ps == ps[..n] + [ps[n]];
      DistinctCount(ps[..n], s - {ps[n]});
    }
  }

  /** The two root documents are outside the inventory, whatever is written to them. */
  lemma RootIsUncovered(t: Tree, m: string, r: string)
    ensures Covered(Sealed(t, m, r)) == Covered(t)
  {
    var u := Sealed(t, m, r);
    assert Reserved([MANIFEST]) && Reserved([RESULT]);
    assert forall p :: Covers(u, p) <==> Covers(t, p);
  }

  /** A listed inventory is exact when every covered file is a physical file within the bound. */
  lemma ListedIsExact(t: Tree, es: seq<Entry>, c: Codec)
    requires WellFormed(t) && Listed(t, es, c)
    ensures Exact(t, es, c) <==> forall p :: Covers(t, p) ==> IsPhysical(t, p)
  {
    hide Posix, Locate, Safe, Reserved, DistinctPaths;
    forall p | Covers(t, p) ensures Locate(Posix(p)) == p && Safe(Posix(p)) {
      PosixLocates(p);
    }
    if forall p :: Covers(t, p) ==> IsPhysical(t, p) {
      forall i | 0 <= i < |es|
        ensures Matches(t, es[i], c) && Covers(t, Locate(es[i].path)) && es[i].path == Posix(Locate(es[i].path))
      {
        var p :| Covers(t, p) && es[i] == EntryOf(t, p, c);
        assert IsPhysical(t, p);
      }
    }
    if Exact(t, es, c) {
      forall p | Covers(t, p) ensures IsPhysical(t, p) {
        var i :| 0 <= i < |es| && es[i] == EntryOf(t, p, c);
        assert Matches(t, es[i], c);
      }
    }
  }

  ghost function Sealed(t: Tree, m: string, r: string): Tree {
    t[[MANIFEST] := Regular(m)][[RESULT] := Regular(r)]
  }

  lemma SealedRoot(t: Tree, m: string, r: string)
    ensures var u := Sealed(t, m, r);
            && [MANIFEST] in u && [RESULT] in u && u[[MANIFEST]] == Regular(m) && u[[RESULT]] == Regular(r)
  {
    assert |MANIFEST| != |RESULT|;
    assert [MANIFEST][0] != [RESULT][0];
  }

  lemma ListedCount(t: Tree, es: seq<Entry>, c: Codec)
    requires Listed(t, es, c)
    ensures |es| == |Covered(t)|
  {}

  lemma SealedReopens(t: Tree, es: seq<Entry>, m: string, r: string, body: string, c: Codec)
    requires WellFormed(t) && Listed(t, es, c)
    requires m == c.writeManifest(es) && r == c.writeResult(Result(body, c.sha256(m)))
    requires RoundTrips(c) && c.admitted(body)
    ensures var u := Sealed(t, m, r);
            Reopens(u, c) <==> Sealable(t) && RealFile(u, [MANIFEST]) && RealFile(u, [RESULT])
  {
    hide Exact, Covers, IsPhysical, RealFile, Covered, Listed, Sealed;
    forall p ensures IsPhysical(t, p) <==> RealFile(t, p) { PhysicalIsReal(t, p); }
    var u := Sealed(t, m, r);
    RootIsUncovered(t, m, r);
    ListedIsExact(t, es, c);
    ListedCount(t, es, c);
    ExactTransfers(t, u, es, c);
    SealedRoot(t, m, r);
    assert c.readManifest(m) == Some(es) && c.readResult(r) == Some(Result(body, c.sha256(m)));
    assert 1 <= |es| <= MAX_ENTRIES ==> Binds(m, r, es, c);
    assert Reopens(u, c) ==> Exact(u, es, c) && 1 <= |es| <= MAX_ENTRIES;
  }

  lemma ExactTransfers(t: Tree, u: Tree, es: seq<Entry>, c: Codec)
    requires Covered(t) == Covered(u)
    ensures Exact(t, es, c) <==> Exact(u, es, c)
  {
    hide Exact, Covered;
    if Exact(t, es, c) { ExactDependsOnCovered(t, u, es, c); }
    if Exact(u, es, c) { ExactDependsOnCovered(u, t, es, c); }
  }

  // ------------------------------------------------------------------ what the seal binds

  /** Beside an unchanged manifest and result, a later tree reopens exactly when its covered files
      are the sealed ones. */
  lemma SealBindsCoveredFiles(t: Tree, u: Tree, c: Codec)
    requires WellFormed(t) && WellFormed(u) && Injective(c.sha256)
    requires Reopens(t, c)
    requires forall p :: p == [MANIFEST] || p == [RESULT] ==> p in t && p in u && t[p] == u[p]
    ensures Reopens(u, c) <==> Covered(u) == Covered(t)
  {
    hide Exact, Covered, RealFile;
    var m, r, es :| Opens(t, m, r) && Binds(m, r, es, c) && Exact(t, es, c);
    SameReal(t, u, [MANIFEST]);
    SameReal(t, u, [RESULT]);
    assert Opens(u, m, r);
    if Covered(u) == Covered(t) {
      ExactDependsOnCovered(t, u, es, c);
    }
    if Reopens(u, c) {
      var m', r', es' :| Opens(u, m', r') && Binds(m', r', es', c) && Exact(u, es', c);
      assert es' == es;
      ExactDetermines(t, u, es, c);
    }
  }

  lemma SameReal(t: Tree, u: Tree, p: Path)
    requires p in t && p in u && t[p] == u[p]
    ensures RealFile(t, p) <==> RealFile(u, p)
  {}

  /** RESULT.json alone binds the covered files: two run directories that reopen with the same
      result hold the same covered files. */
  lemma ResultBindsCoveredFiles(t: Tree, u: Tree, c: Codec)
    requires WellFormed(t) && WellFormed(u) && Injective(c.sha256)
    requires Reopens(t, c) && Reopens(u, c)
    requires [RESULT] in t && [RESULT] in u && t[[RESULT]] == u[[RESULT]]
    ensures [MANIFEST] in t && [MANIFEST] in u && t[[MANIFEST]] == u[[MANIFEST]]
    ensures Covered(t) == Covered(u)
  {
    hide Exact, Covered;
    var m, r, es :| Opens(t, m, r) && Binds(m, r, es, c) && Exact(t, es, c);
    var m', r', es' :| Opens(u, m', r') && Binds(m', r', es', c) && Exact(u, es', c);
    assert r == r' && c.sha256(m) == c.sha256(m');
    assert m == m' && es == es';
    ExactDetermines(t, u, es, c);
  }

  /** The walk skips the reserved names at every depth, so a file of that name below the root can be
      added, changed or removed without the seal noticing. */
  lemma ReservedBelowRootIsUnseen(t: Tree, p: Path, n: Node, c: Codec)
    requires WellFormed(t) && OnDisk(p) && Reserved(p) && |p| > 1
    ensures Reopens(t, c) <==> Reopens(t[p := n], c)
    ensures Reopens(t, c) <==> Reopens(t - {p}, c)
  {
    hide Reopens;
    assert Covered(t[p := n]) == Covered(t) && Covered(t - {p}) == Covered(t);
    SameRoot(t, t[p := n], c);
    SameRoot(t[p := n], t, c);
    SameRoot(t, t - {p}, c);
    SameRoot(t - {p}, t, c);
  }

  lemma SameRoot(t: Tree, u: Tree, c: Codec)
    requires Covered(t) == Covered(u)
    requires forall p :: p == [MANIFEST] || p == [RESULT] ==> (p in t <==> p in u) && (p in t ==> t[p] == u[p])
    ensures Reopens(t, c) ==> Reopens(u, c)
  {
    hide Exact, Covered;
    if Reopens(t, c) {
      var m, r, es :| Opens(t, m, r) && Binds(m, r, es, c) && Exact(t, es, c);
      assert Opens(u, m, r);
      ExactTransfers(t, u, es, c);
    }
  }

  /** `seal` follows a link that leads to a file; `check_run` refuses it. */
  lemma LinkIsNotSealable(t: Tree, p: Path)
    requires Covers(t, p) && t[p].Link?
    ensures !Sealable(t)
  {
    assert !RealFile(t, p);
  }

  /** A tree of one link: it is sealed, and the seal is refused. */
  method SealLink(body: string, c: Codec) returns (ok: bool)
    requires RoundTrips(c) && c.admitted(body)
    ensures WellFormed(map[["a"] := Link(Some("x"))]) && !Sealable(map[["a"] := Link(Some("x"))]) && !ok
  {
    hide Sealable, Reopens, RealFile;
    var run := new Run;
    var t: Tree := map[["a"] := Link(Some("x"))];
    run.tree := t;
    assert Plain("a");
    assert Covers(t, ["a"]);
    LinkIsNotSealable(t, ["a"]);
    run.Seal([["a"]], body, c);
    ok := run.Check(c);
  }
}
