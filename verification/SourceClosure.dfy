/**
 The source-closure digest of `build.rs`: collected inputs are sorted and deduplicated, and their framed bytes are
 hashed.
 */
module SourceClosure {
  import opened Prelude
  import opened DigestFraming
  import opened Paging
  import Utf8

  type Order = (ClosureFile, ClosureFile) -> bool

  /** Any two collected inputs are the same or in order: a path is read once and decides its place. */
  ghost predicate Comparable(files: seq<ClosureFile>, before: Order) {
    forall a, b :: a in files && b in files ==> a == b || before(a, b) || before(b, a)
  }

  ghost predicate Sorted(files: seq<ClosureFile>, before: Order) {
    forall i, j :: 0 <= i < j < |files| ==> before(files[i], files[j])
  }

  ghost predicate SameMembers(fs: seq<ClosureFile>, gs: seq<ClosureFile>) { forall f :: f in fs <==> f in gs }

  /** What `sort` and `dedup` leave of a collection. */
  ghost predicate Listing(files: seq<ClosureFile>, before: Order, sorted: seq<ClosureFile>) {
    Sorted(sorted, before) && SameMembers(sorted, files)
  }

  /** Putting one input into its place, unless it is there. */
  method Insert(sorted: seq<ClosureFile>, f: ClosureFile, before: Order) returns (r: seq<ClosureFile>)
    requires StrictOrder(before) && Sorted(sorted, before) && Comparable(sorted + [f], before)
    ensures Listing(sorted + [f], before, r)
  {
    var k := 0;
    while k < |sorted| && before(sorted[k], f)
      invariant k <= |sorted| && forall i :: 0 <= i < k ==> before(sorted[i], f)
    {
      k := k + 1;
    }
    if k < |sorted| && sorted[k] == f {
      return sorted;
    }
    r := sorted[..k] + [f] + sorted[k..];
    if k < |sorted| {
      assert sorted[k] in sorted + [f] && f in sorted + [f];
      assert before(f, sorted[k]);
      forall j | k <= j < |sorted| ensures before(f, sorted[j]) {
        if j > k { assert before(sorted[k], sorted[j]); }
      }
    }
  }

  method SortUnique(files: seq<ClosureFile>, before: Order) returns (sorted: seq<ClosureFile>)
    requires StrictOrder(before) && Comparable(files, before)
    ensures Listing(files, before, sorted)
  {
    sorted := [];
    for i := 0 to |files|
      invariant Listing(files[..i], before, sorted)
    {
      assert files[..i + 1] == files[..i] + [files[i]];
      assert forall f :: f in sorted + [files[i]] ==> f in files;
      sorted := Insert(sorted, files[i], before);
    }
    assert files[..|files|] == files;
  }

  /** There is one such list. */
  lemma {:induction false} OneListing(fs: seq<ClosureFile>, gs: seq<ClosureFile>, before: Order)
    requires StrictOrder(before) && Sorted(fs, before) && Sorted(gs, before) && SameMembers(fs, gs)
    ensures fs == gs
  {
    assert fs != [] ==> fs[0] in fs && fs[0] in gs;
    assert gs != [] ==> gs[0] in gs && gs[0] in fs;
    if fs != [] {
      var j :| 0 <= j < |gs| && gs[j] == fs[0];
      var i :| 0 <= i < |fs| && fs[i] == gs[0];
      assert forall k :: 0 < k < |fs| ==> before(fs[0], fs[k]);
      assert forall k :: 0 < k < |gs| ==> before(gs[0], gs[k]);
      TailMembers(fs, gs, before);
      OneListing(fs[1..], gs[1..], before);
      assert fs == [fs[0]] + fs[1..] && gs == [gs[0]] + gs[1..];
    }
  }

  lemma TailMembers(fs: seq<ClosureFile>, gs: seq<ClosureFile>, before: Order)
    requires StrictOrder(before) && Sorted(fs, before) && Sorted(gs, before) && SameMembers(fs, gs)
    requires fs != [] && gs != [] && fs[0] == gs[0]
    ensures SameMembers(fs[1..], gs[1..]) && Sorted(fs[1..], before) && Sorted(gs[1..], before)
  {
    forall f ensures f in fs[1..] <==> f in gs[1..] {
      InTail(fs, f, before);
      InTail(gs, f, before);
    }
  }

  lemma InTail(fs: seq<ClosureFile>, f: ClosureFile, before: Order)
    requires StrictOrder(before) && Sorted(fs, before) && fs != []
    ensures f in fs[1..] <==> f in fs && f != fs[0]
  {
    assert forall i :: 1 <= i < |fs| ==> fs[i] in fs[1..] && before(fs[0], fs[i]);
  }

  // ---------------------------------------------------------------- the names that are hashed

  /** `replace('\\', "/")`. */
  function Slashes(path: string): (s: string)
    ensures |s| == |path| && (NulFree(path) ==> NulFree(s))
    ensures forall i :: 0 <= i < |s| ==> s[i] == if path[i] == '\\' then '/' else path[i]
  {
    seq(|path|, i requires 0 <= i < |path| => if path[i] == '\\' then '/' else path[i])
  }

  /** What stands for an input in the digest: its name made text, with forward slashes. */
  function Hashed(f: ClosureFile): (g: ClosureFile)
    ensures g.bytes == f.bytes && g.path == Slashes(Utf8.Lossy(f.path))
  {
    assert NulFree(Utf8.Lossy(f.path)) by { Utf8.LossyAddsNone(f.path, '\0'); }
    ClosureFile(Slashes(Utf8.Lossy(f.path)), f.bytes)
  }

  function Normalized(fs: seq<ClosureFile>): (gs: seq<ClosureFile>)
    ensures |gs| == |fs| && forall i :: 0 <= i < |fs| ==> gs[i] == Hashed(fs[i])
  {
    if fs == [] then [] else [Hashed(fs[0])] + Normalized(fs[1..])
  }

  /** The digest of a listing. */
  function Digest(fs: seq<ClosureFile>, sha: string -> string): string { sha(ClosurePreimage(Normalized(fs))) }

  /** The hashing loop of `build.rs` over the sorted, deduplicated file list. */
  method ClosureDigest(files: seq<ClosureFile>, sha: string -> string) returns (digest: string)
    ensures digest == Digest(files, sha)
  {
    hide Hashed, ClosurePreimage, ClosureFrame;
    NothingHashed();
    var fed := "";
    ghost var all := Normalized(files);
    for i := 0 to |files|
      invariant fed == ClosurePreimage(all[..i])
    {
      var f := Hashed(files[i]);
      assert all[..i + 1] == all[..i] + [f];
      ClosurePreimageAppend(all[..i], f);
      var frame := FeedClosureFile(f);
      fed := fed + frame;
    }
    assert all[..|files|] == all;
    digest := sha(fed);
  }

  lemma NothingHashed()
    ensures ClosurePreimage([]) == ""
  {}

  /** `build.rs`: the digest of a collection is the digest of its listing. */
  method CollectedDigest(files: seq<ClosureFile>, before: Order, sha: string -> string) returns (digest: string)
    requires StrictOrder(before) && Comparable(files, before)
    ensures forall sorted :: Listing(files, before, sorted) ==> digest == Digest(sorted, sha)
  {
    hide Digest;
    var listed := SortUnique(files, before);
    digest := ClosureDigest(listed, sha);
    forall sorted | Listing(files, before, sorted) ensures sorted == listed {
      OneListing(sorted, listed, before);
    }
  }

  // ---------------------------------------------------------------- what the digest binds

  /** Valid UTF-8 without a backslash. */
  predicate PlainName(f: ClosureFile) { Utf8.Valid(f.path) && '\\' !in f.path }

  lemma {:induction false} SlashesKeepText(s: string)
    requires Utf8.Valid(s)
    ensures Utf8.Valid(Slashes(s))
    decreases |s|
  {
    if s != "" {
      var n := Utf8.CharLength(s);
      assert Utf8.CharLength(Slashes(s)) == n by { SlashesKeepLength(s); }
      SlashesKeepText(s[n..]);
      assert Slashes(s)[n..] == Slashes(s[n..]);
    }
  }

  lemma SlashesKeepLength(s: string)
    requires s != ""
    ensures Utf8.CharLength(Slashes(s)) == Utf8.CharLength(s)
  {
    var t := Slashes(s);
    assert forall i :: 0 <= i < |s| && !Utf8.IsAscii(s[i]) ==> t[i] == s[i];
    assert forall i :: 0 <= i < |s| ==> (Utf8.IsAscii(t[i]) <==> Utf8.IsAscii(s[i]));
    assert Utf8.Announced(t[0]) == Utf8.Announced(s[0]);
  }

  /** A name is hashed as it is exactly when it is plain; what stands for it is always plain. */
  lemma HashedAsIsIffPlain(f: ClosureFile)
    ensures Hashed(f) == f <==> PlainName(f)
    ensures PlainName(Hashed(f)) && Hashed(Hashed(f)) == Hashed(f)
  {
    hide Utf8.Valid, Utf8.Lossy;
    var text := Utf8.Lossy(f.path);
    Utf8.LossyIsValid(f.path);
    SlashesKeepText(text);
    Utf8.KeptIffValid(f.path);
    Utf8.KeptIffValid(Slashes(text));
    assert '\\' !in Slashes(text);
    assert '\\' !in f.path && text == f.path ==> Slashes(text) == text;
    assert Slashes(Slashes(text)) == Slashes(text);
  }

  /** Listings over a class of inputs. */
  ghost predicate Over(keep: ClosureFile -> bool, fs: seq<ClosureFile>) { forall i :: 0 <= i < |fs| ==> keep(fs[i]) }

  /** Equal digests mean equal listings, name for name and byte for byte. */
  ghost predicate Binds(keep: ClosureFile -> bool, sha: string -> string) {
    forall fs: seq<ClosureFile>, gs: seq<ClosureFile> ::
      Over(keep, fs) && Over(keep, gs) && Digest(fs, sha) == Digest(gs, sha) ==> fs == gs
  }

  lemma PlainIsNormalized(fs: seq<ClosureFile>)
    requires forall i :: 0 <= i < |fs| ==> PlainName(fs[i])
    ensures Normalized(fs) == fs
  {
    hide Hashed, PlainName;
    forall i | 0 <= i < |fs| ensures Normalized(fs)[i] == fs[i] { HashedAsIsIffPlain(fs[i]); }
  }

  lemma DigestsEqualIff(fs: seq<ClosureFile>, gs: seq<ClosureFile>, sha: string -> string)
    requires Injective(sha)
    ensures Digest(fs, sha) == Digest(gs, sha) <==> Normalized(fs) == Normalized(gs)
  {
    hide Hashed, ClosurePreimage;
    if Digest(fs, sha) == Digest(gs, sha) {
      ClosurePreimageInjective(Normalized(fs), Normalized(gs));
    }
  }

  /**
   Two collections have one digest exactly when their listings normalise alike; when all names are plain, exactly when
   they hold the same inputs, in whatever order and however often.
   */
  lemma ClosureDigestBinds(files: seq<ClosureFile>, other: seq<ClosureFile>, before: Order,
                           sorted: seq<ClosureFile>, sorted': seq<ClosureFile>, sha: string -> string)
    requires StrictOrder(before) && Injective(sha)
    requires Listing(files, before, sorted) && Listing(other, before, sorted')
    ensures Digest(sorted, sha) == Digest(sorted', sha) <==> Normalized(sorted) == Normalized(sorted')
    ensures (forall f :: f in files + other ==> PlainName(f)) ==>
      (Digest(sorted, sha) == Digest(sorted', sha) <==> SameMembers(files, other))
  {
    hide Hashed, PlainName, Digest;
    DigestsEqualIff(sorted, sorted', sha);
    if SameMembers(files, other) {
      OneListing(sorted, sorted', before);
    }
    if forall f :: f in files + other ==> PlainName(f) {
      assert forall i :: 0 <= i < |sorted| ==> sorted[i] in files;
      assert forall i :: 0 <= i < |sorted'| ==> sorted'[i] in other;
      PlainIsNormalized(sorted);
      PlainIsNormalized(sorted');
    }
  }

  /** Every input whose name is not plain has a different input that is hashed like it. */
  lemma NotPlainCollides(f: ClosureFile, sha: string -> string)
    requires !PlainName(f)
    ensures Hashed(f) != f && Digest([f], sha) == Digest([Hashed(f)], sha)
  {
    hide Hashed, PlainName;
    HashedAsIsIffPlain(f);
    assert Normalized([f]) == [Hashed(f)] == Normalized([Hashed(f)]);
  }

  /**
   Over a class of inputs that holds, with an input, also the one that stands for it, the digest binds every listing
   exactly when all names are valid UTF-8 without a backslash.
   */
  lemma ClosureDigestBindsIffPlain(keep: ClosureFile -> bool, sha: string -> string)
    requires Injective(sha) && forall f: ClosureFile :: keep(f) ==> keep(Hashed(f))
    ensures Binds(keep, sha) <==> forall f: ClosureFile :: keep(f) ==> PlainName(f)
  {
    hide Hashed, PlainName, ClosurePreimage;
    if forall f: ClosureFile :: keep(f) ==> PlainName(f) {
      forall fs: seq<ClosureFile>, gs: seq<ClosureFile> |
        Over(keep, fs) && Over(keep, gs) && Digest(fs, sha) == Digest(gs, sha)
        ensures fs == gs
      {
        PlainIsNormalized(fs);
        PlainIsNormalized(gs);
        DigestsEqualIff(fs, gs, sha);
      }
    } else {
      var f: ClosureFile :| keep(f) && !PlainName(f);
      NotPlainCollides(f, sha);
      assert Over(keep, [f]) && Over(keep, [Hashed(f)]);
      assert [f][0] != [Hashed(f)][0];
    }
  }

  lemma HashedAlike(f: ClosureFile, g: ClosureFile, sha: string -> string)
    requires Hashed(f) == Hashed(g)
    ensures Digest([f], sha) == Digest([g], sha)
  {
    hide Hashed;
    assert Normalized([f]) == [Hashed(f)] == Normalized([g]);
  }

  /** A backslash in a name is hashed as a separator: two listings, one digest. */
  lemma BackslashCollides(sha: string -> string)
    ensures var fs, gs := [ClosureFile("a\\b", "")], [ClosureFile("a/b", "")];
            fs != gs && Digest(fs, sha) == Digest(gs, sha)
  {
    hide Digest, Utf8.Lossy;
    var f, g := ClosureFile("a\\b", ""), ClosureFile("a/b", "");
    AsciiIsKept(f.path);
    AsciiIsKept(g.path);
    assert Slashes(f.path) == g.path == Slashes(g.path);
    HashedAlike(f, g, sha);
    assert f.path[1] != g.path[1];
  }

  lemma {:induction false} AsciiIsKept(s: string)
    requires forall i :: 0 <= i < |s| ==> Utf8.IsAscii(s[i])
    ensures Utf8.Lossy(s) == s
  {
    if s != "" { AsciiIsKept(s[1..]); }
  }

  /** Names that are not UTF-8 are hashed with a replacement character: two listings, one digest. */
  lemma InvalidNamesCollide(sha: string -> string)
    ensures var fs, gs := [ClosureFile(['\U{FF}'] + ".rs", "")], [ClosureFile(['\U{FE}'] + ".rs", "")];
            fs != gs && Digest(fs, sha) == Digest(gs, sha)
  {
    hide Digest, Utf8.Lossy;
    var f, g := ClosureFile(['\U{FF}'] + ".rs", ""), ClosureFile(['\U{FE}'] + ".rs", "");
    NeverInText('\U{FF}', ".rs");
    NeverInText('\U{FE}', ".rs");
    HashedAlike(f, g, sha);
    assert f.path[0] != g.path[0];
  }

  /** A byte that starts no character is replaced alone. */
  lemma NeverInText(c: char, s: string)
    requires c >= '\U{F5}'
    ensures Utf8.Lossy([c] + s) == Utf8.REPLACEMENT + Utf8.Lossy(s)
  {
    assert ([c] + s)[1..] == s;
  }
}
