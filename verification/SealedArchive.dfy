/**
 The sealed cold archive: SEAL binds ARCHIVE.json, which binds MANIFEST.sha256, which binds every content file, and
 nothing else may be present. SHA-256 is uninterpreted; its injectivity is a hypothesis where binding is claimed.
 */
module SealedArchive {
  import opened Prelude
  import opened ManifestText
  import Framing = DigestFraming

  // ---------------------------------------------------------------- trees

  datatype Name =
    | Seal | ArchiveJson | Manifest
    | VerifyMd | Binary | Config | Database
    | DbDir | BinDir | ConfigDir
    | Unmanifested(path: string)

  datatype Entry = Directory | File(bytes: string, mode: nat) | Special

  type Tree = map<Name, Entry>

  const CONTENT: seq<Name> := [VerifyMd, Binary, Config, Database]

  const EXPECTED: set<Name> :=
    {Seal, ArchiveJson, Manifest, VerifyMd, Binary, Config, Database, DbDir, BinDir, ConfigDir}

  predicate Covered(n: Name) { n.VerifyMd? || n.Binary? || n.Config? || n.Database? }

  function PathOf(n: Name): string {
    match n
    case VerifyMd => "VERIFY.md"
    case Binary => "bin/nq"
    case Config => "config/nq.toml"
    case Database => "db/nq.db"
    case Seal => "SEAL"
    case ArchiveJson => "ARCHIVE.json"
    case Manifest => "MANIFEST.sha256"
    case DbDir => "db"
    case BinDir => "bin"
    case ConfigDir => "config"
    case Unmanifested(path) => path
  }

  predicate IsFile(t: Tree, n: Name) { n in t && t[n].File? }

  function Bytes(t: Tree, n: Name): string { if IsFile(t, n) then t[n].bytes else "" }

  // ---------------------------------------------------------------- metadata and the store behind the database file

  datatype Retention = Retention(generation: nat, boundary: string)

  datatype Metadata = Metadata(
    format: string, createdAt: string, toolVersion: string, binaryDigest: string,
    schemaVersion: int, schemaDigest: string,
    sourceOpenable: bool, completeHistory: Option<bool>, retention: Option<Retention>, manifestDigest: string)

  datatype History = History(sound: bool, retention: Retention)

  /** The verifying program: hash, JSON codec, its own identity, and how it reopens a database file. */
  datatype Verifier = Verifier(
    hex: string -> string,
    encode: Metadata -> string,
    decode: string -> Option<Metadata>,
    format: string, version: string, schemaVersion: int, schemaDigest: string,
    executable: string,
    reopen: string -> Option<History>)

  function Digest(v: Verifier, bytes: string): string { "sha256:" + v.hex(bytes) }

  lemma DigestBinds(v: Verifier, a: string, b: string)
    requires Injective(v.hex) && Digest(v, a) == Digest(v, b)
    ensures a == b
  {
    Framing.SplitEqual("sha256:", v.hex(a), "sha256:", v.hex(b));
  }

  // ---------------------------------------------------------------- the manifest

  function EntryLine(v: Verifier, n: Name, bytes: string): string { v.hex(bytes) + "  " + PathOf(n) }

  /** One manifest line names the n-th content file and carries its digest. */
  predicate LineOk(v: Verifier, t: Tree, line: string, n: Name) {
    && SplitOnce(line).Some? && SplitOnce(line).value.1 == PathOf(n)
    && IsFile(t, n) && "sha256:" + SplitOnce(line).value.0 == Digest(v, Bytes(t, n))
  }

  ghost predicate ManifestOk(v: Verifier, t: Tree) {
    && IsFile(t, Manifest)
    && |Lines(Bytes(t, Manifest))| == |CONTENT|
    && forall i :: 0 <= i < |CONTENT| ==> LineOk(v, t, Lines(Bytes(t, Manifest))[i], CONTENT[i])
  }

  predicate PlainHex(hex: string) { ' ' !in hex && '\n' !in hex }

  /** The four lines, spelled out. */
  function ExpectedLines(v: Verifier, t: Tree): seq<string> {
    [v.hex(Bytes(t, VerifyMd)) + "  " + "VERIFY.md", v.hex(Bytes(t, Binary)) + "  " + "bin/nq",
     v.hex(Bytes(t, Config)) + "  " + "config/nq.toml", v.hex(Bytes(t, Database)) + "  " + "db/nq.db"]
  }

  lemma LineOkIff(v: Verifier, t: Tree, line: string, n: Name)
    requires PlainHex(v.hex(Bytes(t, n)))
    ensures LineOk(v, t, line, n) <==> IsFile(t, n) && line == v.hex(Bytes(t, n)) + "  " + PathOf(n)
  {
    var hex := v.hex(Bytes(t, n));
    SplitOnceOfEntry(hex, PathOf(n));
    if LineOk(v, t, line, n) {
      Framing.SplitEqual("sha256:", SplitOnce(line).value.0, "sha256:", hex);
    }
  }

  lemma ExpectedAt(v: Verifier, t: Tree, i: nat)
    requires i < |CONTENT| && forall b :: PlainHex(v.hex(b))
    ensures |ExpectedLines(v, t)| == |CONTENT|
    ensures ExpectedLines(v, t)[i] == v.hex(Bytes(t, CONTENT[i])) + "  " + PathOf(CONTENT[i])
    ensures PlainLine(ExpectedLines(v, t)[i])
  {
    hide Bytes, PlainLine, PlainHex;
    var n := CONTENT[i];
    assert n in {VerifyMd, Binary, Config, Database};
    assert ExpectedLines(v, t)[i] == v.hex(Bytes(t, n)) + "  " + PathOf(n);
    PlainEntry(v.hex(Bytes(t, n)), n);
  }

  ghost predicate AllFiles(t: Tree) { forall i :: 0 <= i < |CONTENT| ==> IsFile(t, CONTENT[i]) }

  lemma FourFiles(t: Tree)
    ensures AllFiles(t) <==> IsFile(t, VerifyMd) && IsFile(t, Binary) && IsFile(t, Config) && IsFile(t, Database)
  {
    assert AllFiles(t) ==>
      IsFile(t, CONTENT[0]) && IsFile(t, CONTENT[1]) && IsFile(t, CONTENT[2]) && IsFile(t, CONTENT[3]);
  }

  /** The accepted manifests are the spellings of the four lines. */
  lemma ManifestOkIffSpelled(v: Verifier, t: Tree)
    requires forall b :: PlainHex(v.hex(b))
    ensures ManifestOk(v, t) <==>
            && IsFile(t, Manifest) && IsFile(t, VerifyMd) && IsFile(t, Binary)
            && IsFile(t, Config) && IsFile(t, Database)
            && Spells(Bytes(t, Manifest), ExpectedLines(v, t))
  {
    hide Lines, Spells, LineOk, ExpectedLines, PathOf, Bytes, PlainLine, IsFile, PlainHex;
    var lines, expected := Lines(Bytes(t, Manifest)), ExpectedLines(v, t);
    assert |expected| == |CONTENT| by { ExpectedAt(v, t, 0); }
    forall i | 0 <= i < |expected| ensures PlainLine(expected[i]) { ExpectedAt(v, t, i); }
    LinesIffSpelled(Bytes(t, Manifest), expected);
    FourFiles(t);
    if |lines| == |expected| {
      forall i | 0 <= i < |expected|
        ensures LineOk(v, t, lines[i], CONTENT[i]) <==> IsFile(t, CONTENT[i]) && lines[i] == expected[i]
      {
        ExpectedAt(v, t, i);
        LineOkIff(v, t, lines[i], CONTENT[i]);
      }
    }
  }

  lemma PlainEntry(hex: string, n: Name)
    requires Covered(n) && PlainHex(hex)
    ensures PlainLine(hex + "  " + PathOf(n))
  {
    var line := hex + "  " + PathOf(n);
    assert line[|line| - 1] == PathOf(n)[|PathOf(n)| - 1];
  }

  /** `check_manifest`: the loop over the manifest's lines. */
  method CheckManifest(v: Verifier, t: Tree) returns (ok: bool)
    ensures ok <==> ManifestOk(v, t)
  {
    if !IsFile(t, Manifest) {
      return false;
    }
    var lines := Lines(Bytes(t, Manifest));
    var covered := 0;
    for index := 0 to |lines|
      invariant covered == index <= |CONTENT|
      invariant forall i :: 0 <= i < index ==> LineOk(v, t, lines[i], CONTENT[i])
    {
      var split := SplitOnce(lines[index]);
      if split.None? || index >= |CONTENT| || split.value.1 != PathOf(CONTENT[index]) {
        return false;
      }
      if !IsFile(t, CONTENT[index]) || Digest(v, Bytes(t, CONTENT[index])) != "sha256:" + split.value.0 {
        return false;
      }
      covered := covered + 1;
    }
    ok := covered == |CONTENT|;
  }

  function ManifestLines(v: Verifier, t: Tree, n: nat): seq<string>
    requires n <= |CONTENT|
  {
    if n == 0 then [] else ManifestLines(v, t, n - 1) + [EntryLine(v, CONTENT[n - 1], Bytes(t, CONTENT[n - 1]))]
  }

  /** `write_manifest`: one line per content file. */
  method WriteManifest(v: Verifier, t: Tree) returns (text: string)
    requires forall i :: 0 <= i < |CONTENT| ==> IsFile(t, CONTENT[i])
    ensures text == Unlines(ManifestLines(v, t, |CONTENT|))
  {
    text := "";
    for i := 0 to |CONTENT|
      invariant text == Unlines(ManifestLines(v, t, i))
    {
      UnlinesAppend(ManifestLines(v, t, i), EntryLine(v, CONTENT[i], Bytes(t, CONTENT[i])));
      text := text + (EntryLine(v, CONTENT[i], Bytes(t, CONTENT[i])) + "\n");
    }
  }

  lemma EntryLineIsPlain(v: Verifier, n: Name, bytes: string)
    requires Covered(n) && PlainHex(v.hex(bytes))
    ensures PlainLine(EntryLine(v, n, bytes))
    ensures SplitOnce(EntryLine(v, n, bytes)) == Some((v.hex(bytes), PathOf(n)))
  {
    SplitOnceOfEntry(v.hex(bytes), PathOf(n));
    PlainEntry(v.hex(bytes), n);
  }

  /** What `write_manifest` writes, `check_manifest` accepts on the same files. */
  lemma WrittenManifestIsOk(v: Verifier, t: Tree)
    requires forall b :: PlainHex(v.hex(b))
    requires forall i :: 0 <= i < |CONTENT| ==> IsFile(t, CONTENT[i])
    requires IsFile(t, Manifest) && Bytes(t, Manifest) == Unlines(ManifestLines(v, t, |CONTENT|))
    ensures ManifestOk(v, t)
  {
    var lines := ManifestLines(v, t, |CONTENT|);
    ManifestLinesAt(v, t, |CONTENT|);
    forall i | 0 <= i < |CONTENT| ensures PlainLine(lines[i]) && LineOk(v, t, lines[i], CONTENT[i]) {
      EntryLineIsPlain(v, CONTENT[i], Bytes(t, CONTENT[i]));
    }
    LinesOfUnlines(lines);
  }

  lemma {:induction false} ManifestLinesAt(v: Verifier, t: Tree, n: nat)
    requires n <= |CONTENT|
    ensures |ManifestLines(v, t, n)| == n
    ensures forall i :: 0 <= i < n ==> ManifestLines(v, t, n)[i] == EntryLine(v, CONTENT[i], Bytes(t, CONTENT[i]))
  {
    if n > 0 { ManifestLinesAt(v, t, n - 1); }
  }

  // ---------------------------------------------------------------- verify_archive

  /** The owner may execute it, and neither group nor others may write it. */
  predicate SafeMode(mode: nat) { (mode / 64) % 2 == 1 && (mode / 16) % 2 == 0 && (mode / 2) % 2 == 0 }

  /** The same by permission digits. */
  predicate SafeDigits(mode: nat) {
    var owner, group, others := (mode / 64) % 8, (mode / 8) % 8, mode % 8;
    owner in {1, 3, 5, 7} && group in {0, 1, 4, 5} && others in {0, 1, 4, 5}
  }

  lemma SmallDigit(d: nat)
    requires d < 8
    ensures d in {1, 3, 5, 7} <==> d % 2 == 1
    ensures d in {0, 1, 4, 5} <==> (d / 2) % 2 == 0
  {}

  lemma Parity(m: nat, x: nat)
    ensures (2 * m + x) / 2 == m + x / 2 && (2 * m + x) % 2 == x % 2
  {
    Framing.QuotientIs(2 * m + x, 2, m + x / 2, x % 2);
  }

  lemma LowBits(k: nat, d: nat)
    requires d < 8
    ensures (8 * k + d) % 2 == d % 2 && ((8 * k + d) / 2) % 2 == (d / 2) % 2
  {
    Parity(4 * k, d);
    assert 2 * (4 * k) + d == 8 * k + d;
    Parity(2 * k, d / 2);
    assert 2 * (2 * k) + d / 2 == 4 * k + d / 2;
  }

  lemma OctalDigit(p: nat)
    ensures p % 8 in {1, 3, 5, 7} <==> p % 2 == 1
    ensures p % 8 in {0, 1, 4, 5} <==> (p / 2) % 2 == 0
  {
    assert p == 8 * (p / 8) + p % 8;
    LowBits(p / 8, p % 8);
    SmallDigit(p % 8);
  }

  lemma SafeModeByDigits(mode: nat)
    ensures SafeMode(mode) <==> SafeDigits(mode)
  {
    assert mode / 16 == (mode / 8) / 2;
    OctalDigit(mode / 64);
    OctalDigit(mode / 8);
    OctalDigit(mode);
  }

  /** The sealed claim about the database, judged by reopening the sealed bytes. */
  predicate HistoryClaimOk(m: Metadata, reopened: Option<History>) {
    if m.sourceOpenable then
      && reopened.Some? && reopened.value.sound
      && m.completeHistory.Some? && m.retention == Some(reopened.value.retention)
      && m.completeHistory.value == (reopened.value.retention.generation == 0)
    else reopened.None? && m.completeHistory.None? && m.retention.None?
  }

  predicate IdentityOk(v: Verifier, m: Metadata) {
    m.format == v.format && m.toolVersion == v.version && m.schemaVersion == v.schemaVersion
          && m.schemaDigest == v.schemaDigest
  }

  ghost predicate Verifies(v: Verifier, t: Tree) {
    && IsFile(t, ArchiveJson) && IsFile(t, Seal) && IsFile(t, Manifest)
    && t.Keys == EXPECTED
    && t[DbDir].Directory? && t[BinDir].Directory? && t[ConfigDir].Directory?
    && Bytes(t, Seal) == Digest(v, Bytes(t, ArchiveJson))
    && v.decode(Bytes(t, ArchiveJson)).Some?
    && ManifestOk(v, t)
    && var m := v.decode(Bytes(t, ArchiveJson)).value;
       && IdentityOk(v, m)
       && m.manifestDigest == Digest(v, Bytes(t, Manifest))
       && Digest(v, Bytes(t, Binary)) == m.binaryDigest == Digest(v, v.executable)
       && IsFile(t, Binary) && SafeDigits(t[Binary].mode)
       && HistoryClaimOk(m, v.reopen(Bytes(t, Database)))
  }

  /** `verify_archive`, check by check in its order; the result is the verified retention boundary, if any. */
  method VerifyArchive(v: Verifier, t: Tree) returns (r: Option<Option<Retention>>)
    ensures r.Some? <==> Verifies(v, t)
    ensures r.Some? ==> r.value == v.decode(Bytes(t, ArchiveJson)).value.retention
    ensures r.Some? && r.value.Some? ==> v.reopen(Bytes(t, Database)).Some?
                                         && r.value.value == v.reopen(Bytes(t, Database)).value.retention
  {
    if !IsFile(t, ArchiveJson) || !IsFile(t, Seal) || !IsFile(t, Manifest) {
      return None;
    }
    if !(DbDir in t && t[DbDir].Directory? && BinDir in t && t[BinDir].Directory? && ConfigDir in t
          && t[ConfigDir].Directory?) {
      return None;
    }
    var metadata := v.decode(Bytes(t, ArchiveJson));
    if metadata.None? || metadata.value.format != v.format {
      return None;
    }
    var m := metadata.value;
    if Bytes(t, Seal) != Digest(v, Bytes(t, ArchiveJson)) {
      return None;
    }
    if m.toolVersion != v.version || m.schemaVersion != v.schemaVersion || m.schemaDigest != v.schemaDigest {
      return None;
    }
    if m.manifestDigest != Digest(v, Bytes(t, Manifest)) {
      return None;
    }
    var covered := CheckManifest(v, t);
    if !covered {
      return None;
    }
    if Digest(v, Bytes(t, Binary)) != m.binaryDigest || Digest(v, Bytes(t, Binary)) != Digest(v, v.executable) {
      return None;
    }
    if IsFile(t, Binary) { SafeModeByDigits(t[Binary].mode); }
    if !IsFile(t, Binary) || !SafeMode(t[Binary].mode) {
      return None;
    }
    if !(EXPECTED <= t.Keys) || !(t.Keys <= EXPECTED) {
      return None;
    }
    var reopened := v.reopen(Bytes(t, Database));
    if m.sourceOpenable {
      if reopened.None? || !reopened.value.sound || m.completeHistory.None? || m.retention.None? {
        return None;
      }
      if reopened.value.retention != m.retention.value {
        return None;
      }
      if m.completeHistory.value != (reopened.value.retention.generation == 0) {
        return None;
      }
      return Some(m.retention);
    }
    if reopened.Some? || m.completeHistory.Some? || m.retention.Some? {
      return None;
    }
    return Some(None);
  }

  /** The permission digits of bin/nq decide, when nothing else is wrong. */
  lemma PermissionsDecide(v: Verifier, t: Tree, k: nat, owner: nat, group: nat, others: nat)
    requires IsFile(t, Binary) && owner < 8 && group < 8 && others < 8
    requires Verifies(v, t[Binary := t[Binary].(mode := 493)])
    requires t[Binary].mode == 512 * k + 64 * owner + 8 * group + others
    ensures Verifies(v, t) <==> owner % 2 == 1 && group in {0, 1, 4, 5} && others in {0, 1, 4, 5}
  {
    hide ManifestOk, HistoryClaimOk, IdentityOk, Digest;
    var u := t[Binary := t[Binary].(mode := 493)];
    assert u.Keys == t.Keys;
    SameManifest(v, t, u);
    var mode := t[Binary].mode;
    assert SafeDigits(mode) <==> owner % 2 == 1 && group in {0, 1, 4, 5} && others in {0, 1, 4, 5} by {
      DigitsOf(k, owner, group, others);
      OctalDigit(owner);
    }
    assert forall n :: n != Binary && n in t ==> u[n] == t[n];
    assert forall n :: Bytes(u, n) == Bytes(t, n) && IsFile(u, n) == IsFile(t, n);
  }

  lemma DigitsOf(k: nat, owner: nat, group: nat, others: nat)
    requires owner < 8 && group < 8 && others < 8
    ensures var mode := 512 * k + 64 * owner + 8 * group + others;
            mode % 8 == others && (mode / 8) % 8 == group && (mode / 64) % 8 == owner
  {
    var mode := 512 * k + 64 * owner + 8 * group + others;
    assert mode / 8 == 64 * k + 8 * owner + group;
    assert mode / 64 == 8 * k + owner;
  }

  lemma SameManifest(v: Verifier, t: Tree, u: Tree)
    requires forall n :: Bytes(u, n) == Bytes(t, n) && IsFile(u, n) == IsFile(t, n)
    ensures ManifestOk(v, t) <==> ManifestOk(v, u)
  {
    hide Lines, SplitOnce;
  }

  /** A verified archive holds these ten entries and no other, and its seal is the digest of ARCHIVE.json. */
  lemma VerifiedEntries(v: Verifier, t: Tree, path: string)
    requires Verifies(v, t)
    ensures (exists n :: n in t && PathOf(n) == path) <==>
            path in {"SEAL", "ARCHIVE.json", "MANIFEST.sha256", "VERIFY.md", "bin/nq", "config/nq.toml", "db/nq.db",
                     "db", "bin", "config"}
    ensures Bytes(t, Seal) == "sha256:" + v.hex(Bytes(t, ArchiveJson))
  {
    hide ManifestOk, HistoryClaimOk, IdentityOk, SafeDigits;
    assert t.Keys == EXPECTED;
    var _ := [PathOf(Seal), PathOf(ArchiveJson), PathOf(Manifest), PathOf(VerifyMd), PathOf(Binary), PathOf(Config),
              PathOf(Database), PathOf(DbDir), PathOf(BinDir), PathOf(ConfigDir)];
  }

  // ---------------------------------------------------------------- what a seal binds

  lemma SameManifestSameContent(v: Verifier, t: Tree, t': Tree, i: nat)
    requires Injective(v.hex) && ManifestOk(v, t) && ManifestOk(v, t') && Bytes(t, Manifest) == Bytes(t', Manifest)
    requires i < |CONTENT|
    ensures Bytes(t, CONTENT[i]) == Bytes(t', CONTENT[i])
  {
    var line := Lines(Bytes(t, Manifest))[i];
    assert LineOk(v, t, line, CONTENT[i]) && LineOk(v, t', line, CONTENT[i]);
    DigestBinds(v, Bytes(t, CONTENT[i]), Bytes(t', CONTENT[i]));
  }

  function IndexOf(n: Name): (i: nat)
    requires Covered(n)
    ensures i < |CONTENT| && CONTENT[i] == n
  {
    match n
    case VerifyMd => 0
    case Binary => 1
    case Config => 2
    case Database => 3
  }

  /** Same kind of entry, same bytes (permission bits are not sealed). */
  predicate SameEntry(t: Tree, t': Tree, n: Name) {
    n in t && n in t' && Bytes(t, n) == Bytes(t', n) && (t[n].File? <==> t'[n].File?)
          && (t[n].Directory? <==> t'[n].Directory?)
  }

  lemma SameManifestSameEntry(v: Verifier, t: Tree, t': Tree, n: Name)
    requires Injective(v.hex) && ManifestOk(v, t) && ManifestOk(v, t') && Bytes(t, Manifest) == Bytes(t', Manifest)
    requires Covered(n)
    ensures SameEntry(t, t', n)
  {
    var i := IndexOf(n);
    SameManifestSameContent(v, t, t', i);
    assert LineOk(v, t, Lines(Bytes(t, Manifest))[i], n) && LineOk(v, t', Lines(Bytes(t', Manifest))[i], n);
  }

  /** Two archives that verify under one SEAL have the same entries and the same bytes in every file. */
  lemma SealBindsArchive(v: Verifier, t: Tree, t': Tree)
    requires Injective(v.hex)
    requires Verifies(v, t) && Verifies(v, t') && Bytes(t, Seal) == Bytes(t', Seal)
    ensures t.Keys == t'.Keys && forall n :: n in t ==> SameEntry(t, t', n)
  {
    DigestBinds(v, Bytes(t, ArchiveJson), Bytes(t', ArchiveJson));
    DigestBinds(v, Bytes(t, Manifest), Bytes(t', Manifest));
    forall n | n in t ensures SameEntry(t, t', n) {
      if Covered(n) {
        hide Verifies, SameEntry;
        SameManifestSameEntry(v, t, t', n);
      } else {
        hide ManifestOk, Digest, Injective, HistoryClaimOk, SafeDigits, IdentityOk;
      }
    }
  }

  /** Adding, removing or changing anything but the seal of a verified archive is refused. */
  lemma ChangedArchiveIsRefused(v: Verifier, t: Tree, t': Tree, n: Name)
    requires Injective(v.hex) && Verifies(v, t) && Bytes(t, Seal) == Bytes(t', Seal)
    requires n in t.Keys + t'.Keys && !SameEntry(t, t', n)
    ensures !Verifies(v, t')
  {
    hide Verifies, SameEntry;
    if Verifies(v, t') {
      SealBindsArchive(v, t, t');
    }
  }

  // ---------------------------------------------------------------- create_archive

  /** The live store: opened and validated, busy or out of capacity, or not a current store at all. */
  datatype Live = Opened(history: History) | Refused | Incompatible

  datatype Source = Source(
    live: Live,
    backup: string,          // bytes of the verified backup of an opened store
    frozen: string,          // the same copy after its checkpoint and freeze
    raw: string,             // preserved bytes of an incompatible store
    config: string, instructions: string, now: string)

  function SealedMetadata(v: Verifier, src: Source, manifest: string): Metadata {
    var retention := if src.live.Opened? then Some(src.live.history.retention) else None;
    Metadata(v.format, src.now, v.version, Digest(v, v.executable), v.schemaVersion, v.schemaDigest,
             src.live.Opened?, if retention.Some? then Some(retention.value.generation == 0) else None,
             retention, Digest(v, manifest))
  }

  /** Content of the staging directory before the manifest. */
  function StagedContent(v: Verifier, src: Source): Tree {
    map[DbDir := Directory, BinDir := Directory, ConfigDir := Directory,
        Database := File(if src.live.Opened? then src.frozen else src.raw, 420),
        Binary := File(v.executable, 493),
        Config := File(src.config, 420),
        VerifyMd := File(src.instructions, 420)]
  }

  function Staged(v: Verifier, src: Source): Tree {
    var manifest := Unlines(ManifestLines(v, StagedContent(v, src), |CONTENT|));
    var metadata := v.encode(SealedMetadata(v, src, manifest));
    StagedContent(v, src)
      [Manifest := File(manifest, 420)][ArchiveJson := File(metadata, 420)][Seal := File(Digest(v, metadata), 420)]
  }

  lemma {:induction false} ManifestLinesAgree(v: Verifier, t: Tree, t': Tree, n: nat)
    requires n <= |CONTENT| && forall i :: 0 <= i < n ==> Bytes(t, CONTENT[i]) == Bytes(t', CONTENT[i])
    ensures ManifestLines(v, t, n) == ManifestLines(v, t', n)
  {
    if n > 0 { ManifestLinesAgree(v, t, t', n - 1); }
  }

  lemma StagedLayout(v: Verifier, src: Source)
    ensures var t := Staged(v, src);
            var manifest := Unlines(ManifestLines(v, StagedContent(v, src), |CONTENT|));
            && t.Keys == EXPECTED
            && t[DbDir].Directory? && t[BinDir].Directory? && t[ConfigDir].Directory?
            && t[Manifest] == File(manifest, 420)
            && t[ArchiveJson] == File(v.encode(SealedMetadata(v, src, manifest)), 420)
            && t[Seal] == File(Digest(v, t[ArchiveJson].bytes), 420)
            && t[Binary] == File(v.executable, 493)
            && t[Database] == File(if src.live.Opened? then src.frozen else src.raw, 420)
            && t[Config].File? && t[VerifyMd].File?
            && (forall i :: 0 <= i < |CONTENT| ==> Bytes(StagedContent(v, src), CONTENT[i]) == Bytes(t, CONTENT[i]))
  {
    hide ManifestLines, Unlines, SealedMetadata, Digest;
    var t := Staged(v, src);
    assert t.Keys == EXPECTED;
  }

  lemma StagedManifestIsOk(v: Verifier, src: Source)
    requires forall b :: PlainHex(v.hex(b))
    ensures ManifestOk(v, Staged(v, src))
  {
    hide Staged, StagedContent, ManifestOk, ManifestLines, Unlines;
    StagedLayout(v, src);
    var t := Staged(v, src);
    ManifestLinesAgree(v, StagedContent(v, src), t, |CONTENT|);
    assert forall i :: 0 <= i < |CONTENT| ==> IsFile(t, CONTENT[i]);
    WrittenManifestIsOk(v, t);
  }

  /** A freshly staged archive verifies exactly when its sealed claim about the database is true of the sealed bytes. */
  lemma StagedVerifies(v: Verifier, src: Source)
    requires forall b :: PlainHex(v.hex(b))
    requires forall m :: v.decode(v.encode(m)) == Some(m)
    requires !src.live.Refused?
    ensures Verifies(v, Staged(v, src)) <==> ClaimTrue(v, src)
  {
    hide Staged, StagedContent, ManifestOk, ManifestLines, Unlines, Digest;
    StagedLayout(v, src);
    StagedManifestIsOk(v, src);
    var t := Staged(v, src);
    var m := SealedMetadata(v, src, Bytes(t, Manifest));
    assert v.decode(Bytes(t, ArchiveJson)) == Some(m);
    assert SafeDigits(493) && IdentityOk(v, m);
  }

  /** The source can be copied at all: it did not refuse, and an opened store and its backup both hold sound history. */
  predicate CopyOk(v: Verifier, src: Source) {
    && !src.live.Refused?
    && (src.live.Opened? ==> src.live.history.sound && v.reopen(src.backup).Some? && v.reopen(src.backup).value.sound)
  }

  lemma CopyIsNotRefused(v: Verifier, src: Source)
    requires CopyOk(v, src)
    ensures !src.live.Refused?
  {}

  /** What will be sealed about the database is what the sealed bytes say when they are reopened. */
  predicate ClaimTrue(v: Verifier, src: Source) {
    if src.live.Opened?
    then v.reopen(src.frozen) == Some(History(true, src.live.history.retention))
    else v.reopen(src.raw).None?
  }

  /** The destination was observed some more times, and never existed. */
  predicate Silent(before: seq<Option<Tree>>, after: seq<Option<Tree>>) {
    |before| <= |after| && forall i :: 0 <= i < |after| ==>
          if i < |before| then after[i] == before[i] else after[i].None?
  }

  /** The directory that will hold the archive: the destination and the private staging sibling. */
  class ArchiveParent {
    var destination: Option<Tree>
    var staging: Option<Tree>
    ghost var seen: seq<Option<Tree>>          // every state of the destination so far

    constructor ()
      ensures destination.None? && staging.None? && seen == [None]
    {
      destination, staging, seen := None, None, [None];
    }

    /** One filesystem event in the staging directory; the destination is observed again, still absent. */
    method Stage(t: Option<Tree>)
      requires destination.None?
      modifies this
      ensures staging == t && destination.None? && Silent(old(seen), seen)
    {
      staging := t;
      seen := seen + [destination];
    }

    /** `build_staging`: every write goes to the staging directory, and the result has just verified. */
    method BuildStaging(v: Verifier, src: Source) returns (ok: bool)
      requires destination.None?
      modifies this
      ensures destination.None? && Silent(old(seen), seen)
      ensures ok <==> CopyOk(v, src) && Verifies(v, Staged(v, src))
      ensures ok ==> staging == Some(Staged(v, src))
    {
      hide Verifies, Staged;
      var database := StageDatabase(v, src);
      if database.None? {
        return false;
      }
      var t := database.value;
      t := t[Binary := File(v.executable, 493)];
      Stage(Some(t));
      t := t[Config := File(src.config, 420)];
      Stage(Some(t));
      t := t[VerifyMd := File(src.instructions, 420)];
      Stage(Some(t));
      assert t == StagedContent(v, src);
      ok := SealStaging(v, src, t);
    }

    /** The directories and the database copy: a refusing store ends here, an incompatible one is only preserved. */
    method StageDatabase(v: Verifier, src: Source) returns (r: Option<Tree>)
      requires destination.None?
      modifies this
      ensures destination.None? && Silent(old(seen), seen)
      ensures r.Some? <==> CopyOk(v, src)
      ensures r.Some? ==> r.value == map[DbDir := Directory, BinDir := Directory, ConfigDir := Directory,
                                         Database := File(if src.live.Opened? then src.frozen else src.raw, 420)]
    {
      var t: Tree := map[DbDir := Directory, BinDir := Directory, ConfigDir := Directory];
      Stage(Some(t));
      if src.live.Refused? {
        return None;
      }
      if src.live.Opened? {
        if !src.live.history.sound {
          return None;
        }
        Stage(Some(t[Database := File(src.backup, 420)]));
        var copy := v.reopen(src.backup);
        if copy.None? || !copy.value.sound {
          return None;
        }
      }
      t := t[Database := File(if src.live.Opened? then src.frozen else src.raw, 420)];
      Stage(Some(t));
      assert t == map[DbDir := Directory, BinDir := Directory, ConfigDir := Directory,
                      Database := File(if src.live.Opened? then src.frozen else src.raw, 420)];
      r := Some(t);
    }

    /** Manifest, metadata and seal, then the archive's own verification. */
    method SealStaging(v: Verifier, src: Source, content: Tree) returns (ok: bool)
      requires destination.None? && content == StagedContent(v, src)
      modifies this
      ensures destination.None? && Silent(old(seen), seen)
      ensures ok <==> Verifies(v, Staged(v, src))
      ensures staging == Some(Staged(v, src))
    {
      hide Verifies;
      var text := WriteManifest(v, content);
      var t := content[Manifest := File(text, 420)];
      Stage(Some(t));
      var metadata := v.encode(SealedMetadata(v, src, text));
      t := t[ArchiveJson := File(metadata, 420)];
      Stage(Some(t));
      t := t[Seal := File(Digest(v, metadata), 420)];
      Stage(Some(t));
      var verified := VerifyArchive(v, t);
      ok := verified.Some?;
    }

    /**
     `create_archive`: an existing destination is refused untouched. From an absent one, at every moment the
     destination is absent or a complete archive that has already verified, and it succeeds exactly when the sealed
     claim about the database is true. A failed build leaves nothing behind; a failed rename leaves only the staging
     directory.
     */
    method CreateArchive(v: Verifier, src: Source, renameFails: bool) returns (ok: bool)
      requires forall b :: PlainHex(v.hex(b))
      requires forall m :: v.decode(v.encode(m)) == Some(m)
      modifies this
      ensures old(destination).Some? ==>
              !ok && destination == old(destination) && staging == old(staging) && seen == old(seen)
      ensures |seen| >= |old(seen)| && forall i :: 0 <= i < |old(seen)| ==> seen[i] == old(seen)[i]
      ensures forall i :: |old(seen)| <= i < |seen| ==> seen[i].None? || Verifies(v, seen[i].value)
      ensures ok ==> destination == Some(Staged(v, src)) && Verifies(v, destination.value) && staging.None?
      ensures !ok ==> destination == old(destination)
      ensures ok <==> old(destination).None? && !renameFails && CopyOk(v, src) && ClaimTrue(v, src)
      ensures !ok && !renameFails && old(destination).None? ==> staging.None?
    {
      if destination.Some? {
        return false;
      }
      hide Verifies, Staged, CopyOk;
      var built := BuildStaging(v, src);
      if CopyOk(v, src) {
        StagedVerifies(v, src) by { assert !src.live.Refused? by { CopyIsNotRefused(v, src); } }
      }
      if !built {
        Stage(None);
        return false;
      }
      if renameFails {
        return false;
      }
      destination, staging := staging, None;
      seen := seen + [destination];
      ok := true;
    }
  }
}
