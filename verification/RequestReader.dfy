/**
 Reading one HTTP request head.  A byte string is a `string` holding one char per byte.
 The transport decides how the bytes are cut into reads; this module says what of the
 result depends on that.
 */
module RequestReader {
  import opened Prelude
  import opened Strings
  import Utf8

  const MAX_REQUEST: nat := 8192
  const READ_SIZE: nat := 1024

  /** What one successful read delivers. */
  type Chunk = c: string | 1 <= |c| <= READ_SIZE witness "x"

  function Taken(chunks: seq<Chunk>, k: nat): string
    requires k <= |chunks|
  {
    Concat(chunks[..k])
  }

  predicate MarkAt(s: string, i: nat) {
    i + 4 <= |s| && s[i] == '\r' && s[i + 1] == '\n' && s[i + 2] == '\r' && s[i + 3] == '\n'
  }

  predicate HasEnd(s: string) { exists i :: 0 <= i < |s| && MarkAt(s, i) }

  /** The head ends at `n`: the first blank line ends there. */
  ghost predicate EndsAt(s: string, n: nat) {
    4 <= n && MarkAt(s, n - 4) && forall i :: 0 <= i < n - 4 ==> !MarkAt(s, i)
  }

  /** The blank line, spelled out. */
  lemma MarkMeans(s: string, i: nat)
    ensures MarkAt(s, i) <==> i + 4 <= |s| && s[i..i + 4] == "\r\n\r\n"
  {
    if i + 4 <= |s| {
      var w := s[i..i + 4];
      assert w[0] == s[i] && w[1] == s[i + 1] && w[2] == s[i + 2] && w[3] == s[i + 3];
    }
  }

  /** The read after which the head is complete. */
  ghost predicate CompletesAt(chunks: seq<Chunk>, k: nat) {
    && k <= |chunks| && HasEnd(Taken(chunks, k))
    && forall j :: 0 <= j < k ==> !HasEnd(Taken(chunks, j))
  }

  ghost predicate Fits(chunks: seq<Chunk>) {
    exists k :: CompletesAt(chunks, k) && |Taken(chunks, k)| <= MAX_REQUEST
  }

  /** The head is complete within the limit, and everything read by then is UTF-8. */
  ghost predicate Accepted(chunks: seq<Chunk>) {
    exists k :: CompletesAt(chunks, k) && |Taken(chunks, k)| <= MAX_REQUEST && Utf8.Valid(Taken(chunks, k))
  }

  lemma TakenStep(chunks: seq<Chunk>, k: nat)
    requires k < |chunks|
    ensures Taken(chunks, k + 1) == Taken(chunks, k) + chunks[k]
  {
    assert chunks[..k + 1] == chunks[..k] + [chunks[k]];
    ConcatSnoc(chunks[..k], chunks[k]);
  }

  lemma {:induction false} TakenIsPrefix(chunks: seq<Chunk>, k: nat, m: nat)
    requires k <= m <= |chunks|
    ensures Taken(chunks, k) <= Taken(chunks, m)
    decreases m
  {
    hide Taken;
    if k < m {
      TakenIsPrefix(chunks, k, m - 1);
      TakenStep(chunks, m - 1);
    }
  }

  /** `read_request`: end of stream, size and encoding refuse; otherwise the bytes of the reads
      up to the one that completes the head. */
  method ReadRequest(chunks: seq<Chunk>) returns (r: Option<string>)
    ensures r.Some? <==> Accepted(chunks)
    ensures r.Some? ==> exists k :: CompletesAt(chunks, k) && r.value == Taken(chunks, k)
  {
    hide Taken, HasEnd, Utf8.Valid;
    var buffer := "";
    var k := 0;
    assert Taken(chunks, 0) == "" && !HasEnd("") by { NothingTaken(chunks); }
    while true
      invariant k <= |chunks| && buffer == Taken(chunks, k)
      invariant forall j :: 0 <= j <= k ==> !HasEnd(Taken(chunks, j))
      decreases |chunks| - k
    {
      if k == |chunks| {
        return None;
      }
      TakenStep(chunks, k);
      k, buffer := k + 1, buffer + chunks[k];
      if |buffer| > MAX_REQUEST {
        forall m | CompletesAt(chunks, m) ensures |Taken(chunks, m)| > MAX_REQUEST {
          TakenIsPrefix(chunks, k, m);
        }
        return None;
      }
      if HasEnd(buffer) {
        break;
      }
    }
    assert CompletesAt(chunks, k);
    return if Utf8.Valid(buffer) then Some(buffer) else None;
  }

  lemma NothingTaken(chunks: seq<Chunk>)
    ensures Taken(chunks, 0) == "" && !HasEnd("")
  {}

  // ------------------------------------------------------------------ where the reads fall

  lemma PrefixHasEnd(s: string, t: string, n: nat)
    requires EndsAt(s, n) && t <= s
    ensures HasEnd(t) <==> n <= |t|
  {
    assert forall i: nat {:trigger MarkAt(t, i)} :: i + 4 <= |t| ==> (MarkAt(t, i) <==> MarkAt(s, i));
    if n <= |t| {
      assert MarkAt(t, n - 4);
    } else {
      assert forall i: nat :: i + 4 <= |t| ==> !MarkAt(s, i);
    }
  }

  /** The completing read is the one that covers the end of the head. */
  lemma CompletesWhereCovered(chunks: seq<Chunk>, n: nat, k: nat)
    requires EndsAt(Concat(chunks), n) && k <= |chunks|
    ensures CompletesAt(chunks, k)
            <==> n <= |Taken(chunks, k)| && (k > 0 ==> |Taken(chunks, k - 1)| < n)
  {
    hide Taken, HasEnd, EndsAt;
    WholeTaken(chunks);
    forall j | 0 <= j <= |chunks| ensures HasEnd(Taken(chunks, j)) <==> n <= |Taken(chunks, j)| {
      TakenIsPrefix(chunks, j, |chunks|);
      PrefixHasEnd(Concat(chunks), Taken(chunks, j), n);
    }
    if k > 0 {
      forall j | 0 <= j < k ensures |Taken(chunks, j)| <= |Taken(chunks, k - 1)| {
        TakenIsPrefix(chunks, j, k - 1);
      }
    }
  }

  lemma WholeTaken(chunks: seq<Chunk>)
    ensures Taken(chunks, |chunks|) == Concat(chunks)
  {
    assert chunks[..|chunks|] == chunks;
  }

  /** A stream that holds a whole head completes at exactly one read. */
  lemma Completes(chunks: seq<Chunk>, n: nat) returns (k: nat)
    requires EndsAt(Concat(chunks), n)
    ensures 0 < k <= |chunks| && CompletesAt(chunks, k)
    ensures |Taken(chunks, k - 1)| < n <= |Taken(chunks, k)| <= |Taken(chunks, k - 1)| + READ_SIZE
  {
    hide Taken, HasEnd, CompletesAt;
    WholeTaken(chunks);
    NothingTaken(chunks);
    k := |chunks|;
    while |Taken(chunks, k - 1)| >= n
      invariant 0 < k <= |chunks| && n <= |Taken(chunks, k)|
      decreases k
    {
      k := k - 1;
    }
    TakenStep(chunks, k - 1);
    CompletesWhereCovered(chunks, n, k);
  }

  /** A head of at most `MAX_REQUEST - READ_SIZE + 1` bytes is never refused for its size. */
  lemma SmallHeadFits(chunks: seq<Chunk>, n: nat)
    requires EndsAt(Concat(chunks), n) && n <= MAX_REQUEST - READ_SIZE + 1
    ensures Fits(chunks)
  {
    hide Taken, CompletesAt, EndsAt;
    var k := Completes(chunks, n);
  }

  /** A head longer than the limit is always refused. */
  lemma LargeHeadNeverFits(chunks: seq<Chunk>, n: nat)
    requires EndsAt(Concat(chunks), n) && n > MAX_REQUEST
    ensures !Fits(chunks)
  {
    hide Taken, HasEnd, EndsAt;
    forall k | CompletesAt(chunks, k) ensures |Taken(chunks, k)| > MAX_REQUEST {
      CompletesWhereCovered(chunks, n, k);
    }
  }

  // ------------------------------------------------------------------ the gap in between

  /** The largest read boundary below the end when the first read delivers `first` bytes and the
      others are full. */
  function LastCut(first: nat, length: nat): (m: nat)
    requires 1 <= first <= READ_SIZE && length > first
    ensures first <= m < length <= m + READ_SIZE && m % READ_SIZE == first % READ_SIZE
  {
    length - 1 - (length - 1 - first) % READ_SIZE
  }

  function Chop(s: string, first: nat): seq<Chunk>
    requires s != "" && 1 <= first <= READ_SIZE
    decreases |s|
  {
    if |s| <= first then [s]
    else
      var m := LastCut(first, |s|);
      Chop(s[..m], first) + [s[m..]]
  }

  lemma {:induction false} ChopConcats(s: string, first: nat)
    requires s != "" && 1 <= first <= READ_SIZE
    ensures Concat(Chop(s, first)) == s
    decreases |s|
  {
    var c := Chop(s, first);
    if |s| <= first {
      ConcatOne(s);
    } else {
      var m := LastCut(first, |s|);
      ChopConcats(s[..m], first);
      ConcatSnoc(Chop(s[..m], first), s[m..]);
      assert s == s[..m] + s[m..];
    }
  }

  /** Every inner read boundary of a chopped stream lies `first` bytes past a full read. */
  lemma {:induction false} ChopCuts(s: string, first: nat, k: nat)
    requires s != "" && 1 <= first <= READ_SIZE && 0 < k < |Chop(s, first)|
    ensures |Taken(Chop(s, first), k)| % READ_SIZE == first % READ_SIZE
    decreases |s|
  {
    var c := Chop(s, first);
    if |s| > first {
      var m := LastCut(first, |s|);
      var d := Chop(s[..m], first);
      assert c[..k] == d[..k];
      if k < |d| {
        ChopCuts(s[..m], first, k);
      } else {
        assert d[..k] == d;
        ChopConcats(s[..m], first);
      }
    }
  }

  /** Between the two bounds, and with bytes behind the limit, the verdict is the transport's: the same
      bytes are accepted when the reads are full and refused when the first read delivers one byte. */
  lemma VerdictDependsOnReads(s: string, n: nat)
    requires EndsAt(s, n) && MAX_REQUEST - READ_SIZE + 1 < n <= MAX_REQUEST < |s|
    ensures Concat(Chop(s, READ_SIZE)) == s && Fits(Chop(s, READ_SIZE))
    ensures Concat(Chop(s, 1)) == s && !Fits(Chop(s, 1))
  {
    hide Chop, Taken, HasEnd, EndsAt, Concat;
    ChopConcats(s, READ_SIZE);
    ChopConcats(s, 1);
    FullReadsFit(s, n);
    forall k: nat | CompletesAt(Chop(s, 1), k) ensures |Taken(Chop(s, 1), k)| > MAX_REQUEST {
      CompletesWhereCovered(Chop(s, 1), n, k);
      WholeTaken(Chop(s, 1));
      NothingTaken(Chop(s, 1));
      if 0 < k < |Chop(s, 1)| {
        ChopCuts(s, 1, k);
      }
    }
  }

  lemma FullReadsFit(s: string, n: nat)
    requires s != "" && EndsAt(s, n) && n <= MAX_REQUEST
    ensures Fits(Chop(s, READ_SIZE))
  {
    hide Chop, Taken, CompletesAt, EndsAt;
    ChopConcats(s, READ_SIZE);
    var k := Completes(Chop(s, READ_SIZE), n);
    if k > 1 {
      ChopCuts(s, READ_SIZE, k - 1);
    }
    NothingTaken(Chop(s, READ_SIZE));
  }

  /** A stream within the limit is never refused for its size. */
  lemma SmallStreamFits(chunks: seq<Chunk>, n: nat)
    requires EndsAt(Concat(chunks), n) && |Concat(chunks)| <= MAX_REQUEST
    ensures Fits(chunks)
  {
    hide Taken, CompletesAt, EndsAt;
    var k := Completes(chunks, n);
    TakenIsPrefix(chunks, k, |chunks|);
    WholeTaken(chunks);
  }

  ghost predicate FitsHoweverCut(s: string) {
    forall c: seq<Chunk> :: Concat(c) == s ==> Fits(c)
  }

  ghost predicate FitsSomehowCut(s: string) {
    exists c: seq<Chunk> :: Concat(c) == s && Fits(c)
  }

  /** The exact size condition: how the stream is cut matters only for a head that ends in the last
      read below the limit of a stream that goes on beyond it. */
  lemma SizeVerdict(s: string, n: nat)
    requires EndsAt(s, n)
    ensures FitsSomehowCut(s) <==> n <= 8192
    ensures FitsHoweverCut(s) <==> n <= 7169 || (n <= 8192 && |s| <= 8192)
  {
    hide Chop, Concat, Fits;
    assert s != "" by { NonEmpty(s, n); }
    ChopConcats(s, READ_SIZE);
    if n <= MAX_REQUEST {
      FullReadsFit(s, n);
    }
    forall c: seq<Chunk> | Concat(c) == s && n > MAX_REQUEST ensures !Fits(c) {
      LargeHeadNeverFits(c, n);
    }
    if n <= MAX_REQUEST - READ_SIZE + 1 || (n <= MAX_REQUEST && |s| <= MAX_REQUEST) {
      forall c: seq<Chunk> | Concat(c) == s ensures Fits(c) {
        if n <= MAX_REQUEST - READ_SIZE + 1 { SmallHeadFits(c, n); } else { SmallStreamFits(c, n); }
      }
    } else if n <= MAX_REQUEST {
      VerdictDependsOnReads(s, n);
    }
  }

  lemma NonEmpty(s: string, n: nat)
    requires EndsAt(s, n)
    ensures s != ""
  {}

  // ------------------------------------------------------------------ the whole verdict

  function Pieces(s: string): seq<Chunk> { if s == "" then [] else Chop(s, READ_SIZE) }

  /** A cutting of the stream in which one read ends at `len`, and it is full if it can be. */
  function CutAt(s: string, len: nat): seq<Chunk>
    requires 0 < len <= |s|
  {
    var from := Max(0, len - READ_SIZE);
    Pieces(s[..from]) + [s[from..len]] + Pieces(s[len..])
  }

  lemma PiecesConcat(s: string)
    ensures Concat(Pieces(s)) == s
  {
    if s != "" { ChopConcats(s, READ_SIZE); }
  }

  lemma CutAtTakes(s: string, len: nat)
    requires 0 < len <= |s|
    ensures var from := Max(0, len - READ_SIZE);
            var c, k := CutAt(s, len), |Pieces(s[..from])|;
            Concat(c) == s && k < |c| && Taken(c, k) == s[..from] && Taken(c, k + 1) == s[..len]
  {
    hide Pieces, Concat;
    var from := Max(0, len - READ_SIZE);
    var a, b := Pieces(s[..from]), Pieces(s[len..]);
    var c := CutAt(s, len);
    PiecesConcat(s[..from]);
    PiecesConcat(s[len..]);
    ConcatSnoc(a, s[from..len]);
    ConcatAppend(a + [s[from..len]], b);
    assert s[..from] + s[from..len] == s[..len] && s[..len] + s[len..] == s;
    assert c[..|a|] == a && c[..|a| + 1] == a + [s[from..len]];
  }

  /** The read that completes a head may end at any byte up to a full read behind the head's last byte. */
  lemma CutAtVerdict(s: string, n: nat, len: nat)
    requires EndsAt(s, n) && n <= len <= |s| && len < n + READ_SIZE
    ensures Concat(CutAt(s, len)) == s
    ensures Accepted(CutAt(s, len)) <==> len <= MAX_REQUEST && Utf8.Valid(s[..len])
  {
    hide CutAt, Taken, HasEnd, Utf8.Valid, Pieces;
    CutAtTakes(s, len);
    var c, k := CutAt(s, len), |Pieces(s[..Max(0, len - READ_SIZE)])|;
    CompletesWhereCovered(c, n, k + 1);
    assert CompletesAt(c, k + 1);
    assert forall m :: CompletesAt(c, m) ==> m == k + 1;
  }

  /** And nowhere else. */
  lemma CompletingRead(c: seq<Chunk>, n: nat) returns (len: nat)
    requires EndsAt(Concat(c), n)
    ensures n <= len <= |Concat(c)| && len < n + READ_SIZE
    ensures Accepted(c) <==> len <= MAX_REQUEST && Utf8.Valid(Concat(c)[..len])
  {
    hide Taken, HasEnd, EndsAt, Utf8.Valid, Concat;
    var k := Completes(c, n);
    len := |Taken(c, k)|;
    TakenIsPrefix(c, k, |c|);
    WholeTaken(c);
    assert Concat(c)[..len] == Taken(c, k);
    assert forall m :: CompletesAt(c, m) ==> m == k;
  }

  ghost predicate AcceptedSomehowCut(s: string) { exists c: seq<Chunk> :: Concat(c) == s && Accepted(c) }

  ghost predicate AcceptedHoweverCut(s: string) { forall c: seq<Chunk> :: Concat(c) == s ==> Accepted(c) }

  /** The head and every ASCII stretch behind it is text. */
  lemma {:induction false} AsciiBehind(s: string, n: nat, len: nat)
    requires n <= len <= |s| && Utf8.Valid(s[..n]) && forall i :: n <= i < len ==> Utf8.IsAscii(s[i])
    ensures Utf8.Valid(s[..len])
    decreases len
  {
    hide Utf8.Valid;
    if n < len {
      AsciiBehind(s, n, len - 1);
      Utf8.OneByte(s[len - 1]);
      Utf8.ValidAppend(s[..len - 1], [s[len - 1]]);
      assert s[..len] == s[..len - 1] + [s[len - 1]];
    }
  }

  /** The bytes that the completing read may deliver behind the head. */
  function Behind(s: string, n: nat): nat { Min(n + 1023, |s|) }

  /**
   The exact condition for a request to be readable: some way of cutting the stream into reads is accepted exactly
   when the head is text within the limit, and every way is exactly when, in addition, what a full read may deliver
   behind the head stays within the limit and is ASCII.
   */
  lemma RequestVerdict(s: string, n: nat)
    requires EndsAt(s, n)
    ensures AcceptedSomehowCut(s) <==> n <= 8192 && Utf8.Valid(s[..n])
    ensures AcceptedHoweverCut(s) <==>
            && Behind(s, n) <= 8192 && Utf8.Valid(s[..n])
            && forall i :: n <= i < Behind(s, n) ==> Utf8.IsAscii(s[i])
  {
    hide Utf8.Valid, Accepted, Concat, EndsAt, CutAt;
    assert n <= |s| && s[n - 1] == '\n' by { LastByte(s, n); }
    CutAtVerdict(s, n, n);
    forall c: seq<Chunk> | Concat(c) == s && Accepted(c) ensures n <= MAX_REQUEST && Utf8.Valid(s[..n]) {
      var len := CompletingRead(c, n);
      Utf8.ValidUpToAscii(s[..len], n);
      assert s[..len][..n] == s[..n];
    }
    if AcceptedHoweverCut(s) {
      AsciiIfHowever(s, n);
    } else if Behind(s, n) <= MAX_REQUEST && Utf8.Valid(s[..n])
        && forall i :: n <= i < Behind(s, n) ==> Utf8.IsAscii(s[i]) {
      forall c: seq<Chunk> | Concat(c) == s ensures Accepted(c) {
        var len := CompletingRead(c, n);
        AsciiBehind(s, n, len);
      }
    }
  }

  lemma LastByte(s: string, n: nat)
    requires EndsAt(s, n)
    ensures 0 < n <= |s| && s[n - 1] == '\n'
  {}

  lemma AsciiIfHowever(s: string, n: nat)
    requires EndsAt(s, n) && AcceptedHoweverCut(s)
    ensures Behind(s, n) <= MAX_REQUEST && Utf8.Valid(s[..n])
    ensures forall i :: n <= i < Behind(s, n) ==> Utf8.IsAscii(s[i])
  {
    hide Utf8.Valid, Accepted, Concat, EndsAt, CutAt;
    LastByte(s, n);
    forall len | n <= len <= Behind(s, n) ensures len <= MAX_REQUEST && Utf8.Valid(s[..len]) {
      CutAtVerdict(s, n, len);
    }
    assert Utf8.Valid(s[..Behind(s, n)]);
    forall i | n <= i < Behind(s, n) ensures Utf8.IsAscii(s[i]) {
      assert s[..i + 1] == s[..i] + [s[i]];
      Utf8.ValidAppend(s[..i], [s[i]]);
      Utf8.OneByte(s[i]);
    }
  }

  // ------------------------------------------------------------------ what the handler sees

  /** The first piece of `split("\r\n")`. */
  function FirstLine(s: string): string {
    if |s| < 2 then s else if s[0] == '\r' && s[1] == '\n' then "" else [s[0]] + FirstLine(s[1..])
  }

  /** Everything before the first line end, or all of it. */
  lemma {:induction false} FirstLineMeans(s: string)
    ensures var line := FirstLine(s);
            && line <= s && (line == s || line + "\r\n" <= s)
            && forall i :: 0 <= i < |line| - 1 ==> !(line[i] == '\r' && line[i + 1] == '\n')
  {
    if |s| >= 2 && !(s[0] == '\r' && s[1] == '\n') {
      FirstLineMeans(s[1..]);
      var line, rest := FirstLine(s), FirstLine(s[1..]);
      assert line == [s[0]] + rest && s == [s[0]] + s[1..];
      assert rest + "\r\n" <= s[1..] ==> [s[0]] + (rest + "\r\n") <= s && [s[0]] + (rest + "\r\n") == line + "\r\n";
      assert |rest| > 0 ==> rest[0] == s[1];
    }
  }

  lemma {:induction false} FirstLineOfPrefix(s: string, t: string, i: nat)
    requires t <= s && i + 2 <= |t| && t[i] == '\r' && t[i + 1] == '\n'
    ensures FirstLine(t) == FirstLine(s)
  {
    if i > 0 {
      FirstLineOfPrefix(s[1..], t[1..], i - 1);
    }
  }

  /** However the same stream is cut into reads, the handler sees the same head and the same
      request line. */
  lemma ChunkingsAgree(a: seq<Chunk>, k: nat, b: seq<Chunk>, m: nat, n: nat)
    requires Concat(a) == Concat(b) && EndsAt(Concat(a), n)
    requires CompletesAt(a, k) && CompletesAt(b, m)
    ensures n <= |Taken(a, k)| && n <= |Taken(b, m)| && Taken(a, k)[..n] == Taken(b, m)[..n]
    ensures FirstLine(Taken(a, k)) == FirstLine(Taken(b, m)) == FirstLine(Concat(a))
  {
    hide Taken, HasEnd, FirstLine;
    CompletesWhereCovered(a, n, k);
    CompletesWhereCovered(b, n, m);
    WholeTaken(a);
    WholeTaken(b);
    TakenIsPrefix(a, k, |a|);
    TakenIsPrefix(b, m, |b|);
    FirstLineOfPrefix(Concat(a), Taken(a, k), n - 4);
    FirstLineOfPrefix(Concat(a), Taken(b, m), n - 4);
  }

  /** A character cut by the completing read: one body byte behind the head decides. */
  lemma BodyDecides()
    ensures var s := "\r\n\r\n" + ['\U{C3}', '\U{A9}'];
            EndsAt(s, 4) && Utf8.Valid(s) && AcceptedSomehowCut(s) && !AcceptedHoweverCut(s)
  {
    hide AcceptedSomehowCut, AcceptedHoweverCut;
    var s := "\r\n\r\n" + ['\U{C3}', '\U{A9}'];
    assert MarkAt(s, 0);
    assert s[..4] == "\r\n\r\n" && s[4..] == ['\U{C3}', '\U{A9}'];
    AsciiBehind(s, 0, 4);
    Utf8.ValidAppend(s[..4], s[4..]);
    assert s == s[..4] + s[4..];
    assert s[4..][2..] == "";
    RequestVerdict(s, 4);
    assert !Utf8.IsAscii(s[4]);
  }
}
