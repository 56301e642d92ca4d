/**
 The byte strings that are fed to SHA-256, and why they are unambiguous.

 A byte string is a `string` holding one char per byte. Three framings occur: the vendor-tree digest
 (`build_bookworm_package.py`), the source-closure digest (`build.rs`) and the domain-separated digest of the
 effect owner together with the attempt and marker preimages (`run_two_vm.py`).
 */
module DigestFraming {
  import opened Prelude

  // ---------------------------------------------------------------- fixed-width integers

  function Pow256(width: nat): (p: nat)
    ensures p >= 1
  {
    if width == 0 then 1 else 256 * Pow256(width - 1)
  }

  /** `int.to_bytes(width, "big")`. */
  function BigEndian(n: nat, width: nat): (s: string)
    requires n < Pow256(width)
    ensures |s| == width
  {
    if width == 0 then "" else BigEndian(n / 256, width - 1) + [(n % 256) as char]
  }

  /** `u64::to_le_bytes`, at any width. */
  function LittleEndian(n: nat, width: nat): (s: string)
    requires n < Pow256(width)
    ensures |s| == width
  {
    if width == 0 then "" else [(n % 256) as char] + LittleEndian(n / 256, width - 1)
  }

  lemma {:induction false} BigEndianInjective(a: nat, b: nat, width: nat)
    requires a < Pow256(width) && b < Pow256(width)
    requires BigEndian(a, width) == BigEndian(b, width)
    ensures a == b
  {
    if width > 0 {
      var x, y := BigEndian(a, width), BigEndian(b, width);
      assert x[..width - 1] == BigEndian(a / 256, width - 1) && y[..width - 1] == BigEndian(b / 256, width - 1);
      BigEndianInjective(a / 256, b / 256, width - 1);
      assert x[width - 1] == (a % 256) as char && y[width - 1] == (b % 256) as char;
    }
  }

  lemma {:induction false} LittleEndianInjective(a: nat, b: nat, width: nat)
    requires a < Pow256(width) && b < Pow256(width)
    requires LittleEndian(a, width) == LittleEndian(b, width)
    ensures a == b
  {
    if width > 0 {
      var x, y := LittleEndian(a, width), LittleEndian(b, width);
      assert x[1..] == LittleEndian(a / 256, width - 1) && y[1..] == LittleEndian(b / 256, width - 1);
      LittleEndianInjective(a / 256, b / 256, width - 1);
      assert x[0] == (a % 256) as char && y[0] == (b % 256) as char;
    }
  }

  lemma QuotientOfQuotient(n: nat, d: nat)
    requires d > 0
    ensures (n / 256) / d == n / (256 * d)
  {
    var q := (n / 256) / d;
    var r := n - 256 * d * q;
    var s := n / 256 - d * q;
    assert n == 256 * (n / 256) + n % 256;
    assert 0 <= s < d;
    assert r == 256 * s + n % 256;
    assert 256 * s <= 256 * (d - 1);
    QuotientIs(n, 256 * d, q, r);
  }

  lemma QuotientIs(n: nat, d: nat, q: int, r: int)
    requires d > 0 && n == d * q + r && 0 <= r < d
    ensures n / d == q
  {
    var p := n / d;
    assert n == d * p + n % d;
    assert d * (p - q) == d * p - d * q && d * (q - p) == d * q - d * p;
    if p > q {
      AtLeast(d, p - q);
    } else if p < q {
      AtLeast(d, q - p);
    }
  }

  lemma {:induction false} AtLeast(d: nat, k: nat)
    requires k > 0
    ensures d * k >= d
    decreases k
  {
    if k > 1 {
      AtLeast(d, k - 1);
      assert d * k == d * (k - 1) + d;
    }
  }

  /** The most significant byte comes first. */
  lemma {:induction false} BigEndianAt(n: nat, width: nat, i: nat)
    requires n < Pow256(width) && i < width
    ensures BigEndian(n, width)[i] as int == (n / Pow256(width - 1 - i)) % 256
  {
    if i < width - 1 {
      BigEndianAt(n / 256, width - 1, i);
      QuotientOfQuotient(n, Pow256(width - 2 - i));
    }
  }

  /** The least significant byte comes first. */
  lemma {:induction false} LittleEndianAt(n: nat, width: nat, i: nat)
    requires n < Pow256(width) && i < width
    ensures LittleEndian(n, width)[i] as int == (n / Pow256(i)) % 256
  {
    if i > 0 {
      LittleEndianAt(n / 256, width - 1, i - 1);
      QuotientOfQuotient(n, Pow256(i - 1));
    }
  }

  // ---------------------------------------------------------------- length-prefixed fields

  function Field(s: string, width: nat): string
    requires |s| < Pow256(width)
  {
    BigEndian(|s|, width) + s
  }

  lemma SplitEqual(a: string, x: string, b: string, y: string)
    requires a + x == b + y && |a| == |b|
    ensures a == b && x == y
  {
    assert a == (a + x)[..|a|] && b == (b + y)[..|b|];
    assert x == (a + x)[|a|..] && y == (b + y)[|b|..];
  }

  lemma Associate(a: string, b: string, c: string)
    ensures (a + b) + c == a + (b + c)
  {}

  lemma Regroup(a: string, b: string, c: string, d: string)
    ensures (a + b + c) + d == a + (b + (c + d))
  {}

  /** A length prefix makes the field self-delimiting: equal streams agree on the field and on what follows. */
  lemma FieldCancels(a: string, x: string, b: string, y: string, width: nat)
    requires |a| < Pow256(width) && |b| < Pow256(width)
    requires Field(a, width) + x == Field(b, width) + y
    ensures a == b && x == y
  {
    hide BigEndian, Pow256;
    assert Field(a, width) + x == BigEndian(|a|, width) + (a + x);
    assert Field(b, width) + y == BigEndian(|b|, width) + (b + y);
    SplitEqual(BigEndian(|a|, width), a + x, BigEndian(|b|, width), b + y);
    BigEndianInjective(|a|, |b|, width);
    SplitEqual(a, x, b, y);
  }

  // ---------------------------------------------------------------- the domain-separated digest

  const DOMAIN_HEADER: string := "ag-ng\0digest\0v1\0"

  function DomainPreimage(domain: string, value: string): string
    requires |domain| < Pow256(16) && |value| < Pow256(16)
  {
    DOMAIN_HEADER + Field(domain, 16) + Field(value, 16)
  }

  /** `ag_domain_digest`. */
  method DomainDigest(domain: string, value: string, sha: string -> string) returns (digest: string)
    requires |domain| < Pow256(16) && |value| < Pow256(16)
    ensures digest == sha(DomainPreimage(domain, value))
  {
    var framed := "ag-ng\0digest\0v1\0" + BigEndian(|domain|, 16) + domain + BigEndian(|value|, 16) + value;
    assert framed == DomainPreimage(domain, value);
    digest := sha(framed);
  }

  lemma TwoFieldsInjective(header: string, d: string, v: string, d': string, v': string, width: nat)
    requires |d| < Pow256(width) && |v| < Pow256(width) && |d'| < Pow256(width) && |v'| < Pow256(width)
    requires header + Field(d, width) + Field(v, width) == header + Field(d', width) + Field(v', width)
    ensures d == d' && v == v'
  {
    var x, y := Field(v, width), Field(v', width);
    Associate(header, Field(d, width), x);
    Associate(header, Field(d', width), y);
    SplitEqual(header, Field(d, width) + x, header, Field(d', width) + y);
    FieldCancels(d, x, d', y, width);
    assert x + "" == x && y + "" == y;
    FieldCancels(v, "", v', "", width);
  }

  /** The domain-separated framing is injective in the domain and the value together. */
  lemma DomainPreimageInjective(d: string, v: string, d': string, v': string)
    requires |d| < Pow256(16) && |v| < Pow256(16) && |d'| < Pow256(16) && |v'| < Pow256(16)
    requires DomainPreimage(d, v) == DomainPreimage(d', v')
    ensures d == d' && v == v'
  {
    TwoFieldsInjective(DOMAIN_HEADER, d, v, d', v', 16);
  }

  // ---------------------------------------------------------------- attempt and marker preimages

  function AttemptPreimage(runId: string, work: string): string { runId + "\0attempt\0" + work }

  function MarkerPreimage(runId: string, work: string): string { runId + "\0marker\0" + work }

  predicate NulFree(s: string) { '\0' !in s }

  /** The text after the last NUL is determined by the whole. */
  lemma LastNulSplits(a: string, x: string, b: string, y: string)
    requires NulFree(x) && NulFree(y)
    requires a + "\0" + x == b + "\0" + y
    ensures a == b && x == y
  {
    var s, t := a + "\0" + x, b + "\0" + y;
    assert s[|a|] == '\0' && forall i :: |a| < i < |s| ==> s[i] == x[i - |a| - 1];
    assert t[|b|] == '\0' && forall i :: |b| < i < |t| ==> t[i] == y[i - |b| - 1];
    assert |a| == |b|;
    SplitEqual(a + "\0", x, b + "\0", y);
    SplitEqual(a, "\0", b, "\0");
  }

  /** Attempt identities bind both the run and the work, for every run id (NULs included). */
  lemma AttemptPreimageInjective(r: string, w: string, r': string, w': string)
    requires NulFree(w) && NulFree(w')
    requires AttemptPreimage(r, w) == AttemptPreimage(r', w')
    ensures r == r' && w == w'
  {
    assert AttemptPreimage(r, w) == (r + "\0attempt") + "\0" + w;
    assert AttemptPreimage(r', w') == (r' + "\0attempt") + "\0" + w';
    LastNulSplits(r + "\0attempt", w, r' + "\0attempt", w');
    SplitEqual(r, "\0attempt", r', "\0attempt");
  }

  /** No attempt preimage is a marker preimage, whatever the two run ids are. */
  lemma AttemptNeverMarker(r: string, w: string, r': string, w': string)
    requires NulFree(w) && NulFree(w')
    ensures AttemptPreimage(r, w) != MarkerPreimage(r', w')
  {
    var a, b := r + "\0attempt", r' + "\0marker";
    assert a[|a| - 1] == 't' && b[|b| - 1] == 'r';
    assert AttemptPreimage(r, w) == a + "\0" + w;
    assert MarkerPreimage(r', w') == b + "\0" + w';
    if AttemptPreimage(r, w) == MarkerPreimage(r', w') {
      LastNulSplits(a, w, b, w');
    }
  }

  // ---------------------------------------------------------------- the vendor-tree digest

  datatype TreeRecord_ = TreeRecord(path: string, mode: nat, data: string)

  /** Lengths fit the fixed-width fields (`to_bytes` refuses otherwise) and the mode is already masked. */
  type TreeRecord = r: TreeRecord_ | |r.path| < Pow256(8) && r.mode < 512 && |r.data| < Pow256(8)
    witness TreeRecord("", 0, "")

  lemma ModeFits(mode: nat)
    requires mode < 512
    ensures mode < Pow256(4)
  {
    assert Pow256(2) == 65536;
    assert Pow256(4) == 256 * (256 * Pow256(2));
  }

  function RecordFrame(r: TreeRecord): (s: string)
    ensures |s| > 0
  {
    ModeFits(r.mode);
    Field(r.path, 8) + BigEndian(r.mode, 4) + Field(r.data, 8)
  }

  function TreeStream(rs: seq<TreeRecord>): string {
    if rs == [] then "" else RecordFrame(rs[0]) + TreeStream(rs[1..])
  }

  const TREE_HEADER: string := "nq-bookworm-vendor-tree-v1\0"

  function TreePreimage(rs: seq<TreeRecord>): string { TREE_HEADER + TreeStream(rs) }

  lemma RecordFrameCancels(r: TreeRecord, x: string, r': TreeRecord, y: string)
    requires RecordFrame(r) + x == RecordFrame(r') + y
    ensures r == r' && x == y
  {
    ModeFits(r.mode);
    ModeFits(r'.mode);
    var m, m' := BigEndian(r.mode, 4), BigEndian(r'.mode, 4);
    var u, u' := Field(r.data, 8) + x, Field(r'.data, 8) + y;
    Regroup(Field(r.path, 8), m, Field(r.data, 8), x);
    Regroup(Field(r'.path, 8), m', Field(r'.data, 8), y);
    FieldCancels(r.path, m + u, r'.path, m' + u', 8);
    SplitEqual(m, u, m', u');
    BigEndianInjective(r.mode, r'.mode, 4);
    FieldCancels(r.data, x, r'.data, y, 8);
  }

  lemma {:induction false} TreeStreamAppend(rs: seq<TreeRecord>, r: TreeRecord)
    ensures TreeStream(rs + [r]) == TreeStream(rs) + RecordFrame(r)
  {
    if rs == [] {
      assert [r][1..] == [] && "" + RecordFrame(r) == RecordFrame(r) == RecordFrame(r) + "";
      assert rs + [r] == [r];
    } else {
      TreeStreamAppend(rs[1..], r);
      assert (rs + [r])[1..] == rs[1..] + [r] && (rs + [r])[0] == rs[0];
      Associate(RecordFrame(rs[0]), TreeStream(rs[1..]), RecordFrame(r));
    }
  }

  lemma {:induction false} TreeStreamInjective(rs: seq<TreeRecord>, rs': seq<TreeRecord>)
    requires TreeStream(rs) == TreeStream(rs')
    ensures rs == rs'
  {
    if rs != [] && rs' != [] {
      RecordFrameCancels(rs[0], TreeStream(rs[1..]), rs'[0], TreeStream(rs'[1..]));
      TreeStreamInjective(rs[1..], rs'[1..]);
      assert rs == [rs[0]] + rs[1..] && rs' == [rs'[0]] + rs'[1..];
    }
  }

  /** Equal vendor-tree preimages come from equal record lists: paths, modes, contents and order. */
  lemma TreePreimageInjective(rs: seq<TreeRecord>, rs': seq<TreeRecord>)
    requires TreePreimage(rs) == TreePreimage(rs')
    ensures rs == rs'
  {
    SplitEqual(TREE_HEADER, TreeStream(rs), TREE_HEADER, TreeStream(rs'));
    TreeStreamInjective(rs, rs');
  }

  datatype Entry = Directory | Regular(mode: nat, data: string) | Special

  datatype WalkEntry_ = WalkEntry(path: string, entry: Entry)

  type WalkEntry = e: WalkEntry_ | |e.path| < Pow256(8) && (e.entry.Regular? ==> |e.entry.data| < Pow256(8))
    witness WalkEntry("", Directory)

  function RecordOf(e: WalkEntry): TreeRecord
    requires e.entry.Regular?
  {
    TreeRecord(e.path, e.entry.mode % 512, e.entry.data)
  }

  /** What `tree_digest` hashes of a walk: the regular files with their masked modes, in walk order. */
  function RegularRecords(walk: seq<WalkEntry>): seq<TreeRecord> {
    if walk == [] then []
    else
      var e := walk[|walk| - 1];
      RegularRecords(walk[..|walk| - 1]) + if e.entry.Regular? then [RecordOf(e)] else []
  }

  ghost predicate HoldsFile(walk: seq<WalkEntry>, r: TreeRecord) {
    exists i :: 0 <= i < |walk| && walk[i].entry.Regular? && RecordOf(walk[i]) == r
  }

  lemma {:induction false} RecordsAreFiles(walk: seq<WalkEntry>, r: TreeRecord)
    ensures r in RegularRecords(walk) <==> HoldsFile(walk, r)
  {
    if walk != [] {
      var n := |walk| - 1;
      RecordsAreFiles(walk[..n], r);
      if HoldsFile(walk[..n], r) {
        var i :| 0 <= i < n && walk[..n][i].entry.Regular? && RecordOf(walk[..n][i]) == r;
        assert walk[i] == walk[..n][i];
      }
      if HoldsFile(walk, r) {
        var i :| 0 <= i < |walk| && walk[i].entry.Regular? && RecordOf(walk[i]) == r;
        if i < n { assert walk[..n][i] == walk[i]; }
      }
    }
  }

  lemma NothingFed()
    ensures TreePreimage([]) == TREE_HEADER
  {
    assert TREE_HEADER + "" == TREE_HEADER;
  }

  /** The loop of `tree_digest` over the sorted walk: the digest and the file count, or a refusal. */
  method TreeDigest(walk: seq<WalkEntry>, sha: string -> string) returns (r: Option<(string, nat)>)
    ensures r.Some? <==> (forall i :: 0 <= i < |walk| ==> !walk[i].entry.Special?) && RegularRecords(walk) != []
    ensures r.Some? ==> r.value == (sha(TreePreimage(RegularRecords(walk))), |RegularRecords(walk)|)
  {
    hide RecordFrame, RecordOf, TreeStream;
    var fed := "nq-bookworm-vendor-tree-v1\0";
    var count := 0;
    assert walk[..0] == [];
    NothingFed();
    for i := 0 to |walk|
      invariant forall j :: 0 <= j < i ==> !walk[j].entry.Special?
      invariant fed == TreePreimage(RegularRecords(walk[..i]))
      invariant count == |RegularRecords(walk[..i])|
    {
      assert walk[..i + 1][..i] == walk[..i] && walk[..i + 1][i] == walk[i];
      var e := walk[i];
      if e.entry.Special? {
        return None;
      }
      if e.entry.Regular? {
        ghost var init := RegularRecords(walk[..i]);
        TreeStreamAppend(init, RecordOf(e));
        Associate(TREE_HEADER, TreeStream(init), RecordFrame(RecordOf(e)));
        var frame := FeedRecord(e);
        fed := fed + frame;
        count := count + 1;
      } else {
        assert RegularRecords(walk[..i]) + [] == RegularRecords(walk[..i]);
      }
    }
    assert walk[..|walk|] == walk;
    if count == 0 {
      return None;
    }
    return Some((sha(fed), count));
  }

  /** The five `digest.update` calls made for one regular file. */
  method FeedRecord(e: WalkEntry) returns (fed: string)
    requires e.entry.Regular?
    ensures fed == RecordFrame(RecordOf(e))
  {
    var mode := e.entry.mode % 512;
    ModeFits(mode);
    fed := BigEndian(|e.path|, 8);
    fed := fed + e.path;
    fed := fed + BigEndian(mode, 4);
    Associate(Field(e.path, 8) + BigEndian(mode, 4), BigEndian(|e.entry.data|, 8), e.entry.data);
    fed := fed + BigEndian(|e.entry.data|, 8);
    fed := fed + e.entry.data;
  }

  /** Under an injective hash, two vendor trees with one digest hold exactly the same regular files. */
  lemma TreeDigestBinds(walk: seq<WalkEntry>, walk': seq<WalkEntry>, sha: string -> string, r: TreeRecord)
    requires Injective(sha)
    requires sha(TreePreimage(RegularRecords(walk))) == sha(TreePreimage(RegularRecords(walk')))
    ensures HoldsFile(walk, r) <==> HoldsFile(walk', r)
  {
    TreePreimageInjective(RegularRecords(walk), RegularRecords(walk'));
    RecordsAreFiles(walk, r);
    RecordsAreFiles(walk', r);
  }

  // ---------------------------------------------------------------- the source-closure digest

  datatype ClosureFile_ = ClosureFile(path: string, bytes: string)

  type ClosureFile = f: ClosureFile_ | NulFree(f.path) && |f.bytes| < Pow256(8)
    witness ClosureFile("", "")

  function ClosureFrame(f: ClosureFile): (s: string)
    ensures |s| > 0
  {
    f.path + "\0" + LittleEndian(|f.bytes|, 8) + f.bytes
  }

  function ClosurePreimage(fs: seq<ClosureFile>): string {
    if fs == [] then "" else ClosureFrame(fs[0]) + ClosurePreimage(fs[1..])
  }

  /** The text before the first NUL is determined by the whole. */
  lemma FirstNulSplits(a: string, x: string, b: string, y: string)
    requires NulFree(a) && NulFree(b)
    requires a + "\0" + x == b + "\0" + y
    ensures a == b && x == y
  {
    var s, t := a + "\0" + x, b + "\0" + y;
    assert s[|a|] == '\0' && forall i :: 0 <= i < |a| ==> s[i] == a[i];
    assert t[|b|] == '\0' && forall i :: 0 <= i < |b| ==> t[i] == b[i];
    assert |a| == |b|;
    SplitEqual(a + "\0", x, b + "\0", y);
    SplitEqual(a, "\0", b, "\0");
  }

  lemma ClosureFrameCancels(f: ClosureFile, x: string, g: ClosureFile, y: string)
    requires ClosureFrame(f) + x == ClosureFrame(g) + y
    ensures f == g && x == y
  {
    var n, m := LittleEndian(|f.bytes|, 8), LittleEndian(|g.bytes|, 8);
    var u, v := n + (f.bytes + x), m + (g.bytes + y);
    Regroup(f.path + "\0", n, f.bytes, x);
    Regroup(g.path + "\0", m, g.bytes, y);
    FirstNulSplits(f.path, u, g.path, v);
    SplitEqual(n, f.bytes + x, m, g.bytes + y);
    LittleEndianInjective(|f.bytes|, |g.bytes|, 8);
    SplitEqual(f.bytes, x, g.bytes, y);
  }

  /** Equal source-closure preimages come from equal (path, bytes) lists, for NUL-free paths. */
  lemma {:induction false} ClosurePreimageInjective(fs: seq<ClosureFile>, gs: seq<ClosureFile>)
    requires ClosurePreimage(fs) == ClosurePreimage(gs)
    ensures fs == gs
  {
    if fs != [] && gs != [] {
      ClosureFrameCancels(fs[0], ClosurePreimage(fs[1..]), gs[0], ClosurePreimage(gs[1..]));
      ClosurePreimageInjective(fs[1..], gs[1..]);
      assert fs == [fs[0]] + fs[1..] && gs == [gs[0]] + gs[1..];
    }
  }

  lemma {:induction false} ClosurePreimageAppend(fs: seq<ClosureFile>, f: ClosureFile)
    ensures ClosurePreimage(fs + [f]) == ClosurePreimage(fs) + ClosureFrame(f)
  {
    if fs == [] {
      assert [f][1..] == [] && "" + ClosureFrame(f) == ClosureFrame(f) == ClosureFrame(f) + "";
      assert fs + [f] == [f];
    } else {
      ClosurePreimageAppend(fs[1..], f);
      assert (fs + [f])[1..] == fs[1..] + [f] && (fs + [f])[0] == fs[0];
      Associate(ClosureFrame(fs[0]), ClosurePreimage(fs[1..]), ClosureFrame(f));
    }
  }

  /** The four `hasher.update` calls made for one closure input. */
  method FeedClosureFile(f: ClosureFile) returns (fed: string)
    ensures fed == ClosureFrame(f)
  {
    fed := f.path;
    fed := fed + "\0";
    fed := fed + LittleEndian(|f.bytes|, 8);
    fed := fed + f.bytes;
  }
}
