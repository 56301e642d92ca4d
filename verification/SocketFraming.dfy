/**
 Newline-delimited request frames over one supervised socket connection, as the reference
 helper serves them.  A byte string is a `string` holding one char per byte.

 The peer's bytes arrive in bursts.  One `recv` never reads across the end of a burst, so a
 list of bursts covers every way the transport can cut the stream.
 */
module SocketFraming {
  import opened Prelude
  import opened Strings

  const MAX_REQUEST: nat := 1_048_576
  const RECV_SIZE: nat := 65_536

  type Burst = b: string | b != "" witness "x"

  /** What one `recv` of at most `n` bytes returns, and what it leaves. */
  function Chunk(bs: seq<Burst>, n: nat): string {
    if bs == [] then "" else bs[0][..Min(n, |bs[0]|)]
  }

  function Rest(bs: seq<Burst>, n: nat): seq<Burst> {
    if bs == [] then []
    else if n < |bs[0]| then [bs[0][n..]] + bs[1..]
    else bs[1..]
  }

  lemma ReceiveKeepsStream(bs: seq<Burst>, n: nat)
    ensures Concat(bs) == Chunk(bs, n) + Concat(Rest(bs, n))
  {
    if bs != [] && n < |bs[0]| {
      assert ([bs[0][n..]] + bs[1..])[1..] == bs[1..];
      assert bs[0] == bs[0][..n] + bs[0][n..];
    }
  }

  lemma ChunkShape(bs: seq<Burst>, n: nat)
    requires n > 0
    ensures |Chunk(bs, n)| <= n && (Chunk(bs, n) == "" <==> bs == []) && (bs == [] ==> Concat(bs) == "")
  {}

  /** The bursts after the first `m` bytes. */
  function After(bs: seq<Burst>, m: nat): seq<Burst> {
    if m == 0 || bs == [] then bs
    else if m < |bs[0]| then [bs[0][m..]] + bs[1..]
    else After(bs[1..], m - |bs[0]|)
  }

  lemma RestIsAfter(bs: seq<Burst>, n: nat)
    ensures Rest(bs, n) == After(bs, |Chunk(bs, n)|)
  {
    if bs != [] && n == 0 {
      assert [bs[0][0..]] + bs[1..] == bs;
    }
  }

  lemma {:induction false} AfterAfter(bs: seq<Burst>, m: nat, k: nat)
    ensures After(After(bs, m), k) == After(bs, m + k)
  {
    if m > 0 && bs != [] {
      if m < |bs[0]| {
        var cut := [bs[0][m..]] + bs[1..];
        assert cut[1..] == bs[1..] && bs[0][m..][Min(k, |bs[0]| - m)..] == bs[0][Min(m + k, |bs[0]|)..];
      } else {
        AfterAfter(bs[1..], m - |bs[0]|, k);
      }
    }
  }

  // ------------------------------------------------------------------ lines

  /** A line: one newline, at its end. */
  ghost predicate IsLine(s: string) {
    s != "" && s[|s| - 1] == '\n' && '\n' !in s[..|s| - 1]
  }

  function FindNewline(s: string): (p: nat)
    ensures p <= |s| && (p < |s| ==> s[p] == '\n') && '\n' !in s[..p]
  {
    IndexOf(s, '\n')
  }

  /** The first newline is where everything before it is free of newlines. */
  lemma FoundAt(s: string, p: nat)
    requires p < |s| && s[p] == '\n' && '\n' !in s[..p]
    ensures FindNewline(s) == p
  {
    var q := FindNewline(s);
    assert forall k :: 0 <= k < p ==> s[k] in s[..p];
    assert forall k :: 0 <= k < q ==> s[k] in s[..q];
    assert forall k :: 0 <= k < |s| ==> s[k] == s[..|s|][k];
    assert q < |s| by { assert s[..|s|] == s && s[p] in s; }
  }

  lemma LineIsFound(s: string, f: string)
    requires IsLine(f) && f <= s
    ensures FindNewline(s) == |f| - 1 && s[..|f|] == f
  {
    assert s[|f| - 1] == f[|f| - 1] && s[..|f| - 1] == f[..|f| - 1];
    FoundAt(s, |f| - 1);
  }

  /** Lines put together come apart in one way only. */
  lemma {:induction false} OneFraming(fs: seq<string>, gs: seq<string>)
    requires forall i :: 0 <= i < |fs| ==> IsLine(fs[i])
    requires forall i :: 0 <= i < |gs| ==> IsLine(gs[i])
    requires Concat(fs) == Concat(gs)
    ensures fs == gs
  {
    hide IsLine;
    if fs == [] || gs == [] {
      if fs != [] { LineNotEmpty(fs[0]); }
      if gs != [] { LineNotEmpty(gs[0]); }
    } else {
      var s := Concat(fs);
      LineIsFound(s, fs[0]);
      LineIsFound(s, gs[0]);
      assert Concat(fs[1..]) == s[|fs[0]|..] == Concat(gs[1..]);
      OneFraming(fs[1..], gs[1..]);
      assert fs == [fs[0]] + fs[1..] && gs == [gs[0]] + gs[1..];
    }
  }

  lemma LineNotEmpty(f: string)
    ensures IsLine(f) ==> f != ""
  {}

  // ------------------------------------------------------------------ one frame

  datatype Outcome = Eof | Frame(data: string) | ClosedInside | TrailingBytes | TooLong

  /** A `recv` ends right behind byte `p`, when `room` bytes may still be read: the burst ends there,
      whole receives fill the burst up to there, or the bound is reached there. */
  predicate EndsReceive(bs: seq<Burst>, p: nat, room: nat)
    requires p < |Concat(bs)|
  {
    if p < |bs[0]| then p + 1 == |bs[0]| || (p + 1) % 65536 == 0 || p + 1 == room
    else room >= |bs[0]| && EndsReceive(bs[1..], p - |bs[0]|, room - |bs[0]|)
  }

  /** What becomes of the first frame, as a property of the bursts alone. */
  function Verdict(bs: seq<Burst>): Outcome {
    var stream := Concat(bs);
    var p := FindNewline(stream);
    if stream == "" then Eof
    else if p < |stream| && p <= 1048576 then
      if EndsReceive(bs, p, 1048577) then Frame(stream[..p + 1]) else TrailingBytes
    else if |stream| <= 1048576 then ClosedInside
    else TooLong
  }

  /** One receive, full or cut short by the bound: the end of the line is in it, or as far from the
      end of a receive as before. */
  lemma ReceiveStep(bs: seq<Burst>, p: nat, room: nat, n: nat)
    requires p < |Concat(bs)| && p + 1 <= room && n == Min(RECV_SIZE, room)
    ensures p < |Chunk(bs, n)| ==> (EndsReceive(bs, p, room) <==> p + 1 == |Chunk(bs, n)|)
    ensures p >= |Chunk(bs, n)| ==>
              && p - |Chunk(bs, n)| < |Concat(Rest(bs, n))|
              && (EndsReceive(bs, p, room) <==>
                    EndsReceive(Rest(bs, n), p - |Chunk(bs, n)|, room - |Chunk(bs, n)|))
  {
    ReceiveKeepsStream(bs, n);
    if n < |bs[0]| && p >= n {
      var cut := [bs[0][n..]] + bs[1..];
      assert Rest(bs, n) == cut && cut[1..] == bs[1..];
      assert n == RECV_SIZE;
      SameRemainder(p + 1);
    }
  }

  lemma SameRemainder(x: nat)
    requires x >= RECV_SIZE
    ensures (x - RECV_SIZE) % RECV_SIZE == x % RECV_SIZE
  {}

  // ------------------------------------------------------------------ the connection

  class Connection {
    var bursts: seq<Burst>
    var sent: seq<string>

    ghost function Stream(): string
      reads this
    {
      Concat(bursts)
    }

    method Recv(n: nat) returns (chunk: string)
      requires n > 0
      modifies this`bursts
      ensures chunk == Chunk(old(bursts), n) && bursts == Rest(old(bursts), n)
    {
      chunk, bursts := Chunk(bursts, n), Rest(bursts, n);
    }

    /** `read_socket_frame`: the verdict is the one the bursts decide, every byte received is
        accounted for, and no more than one frame bound is buffered. */
    method ReadFrame() returns (r: Outcome, ghost taken: string)
      modifies this`bursts
      ensures r == Verdict(old(bursts))
      ensures old(Stream()) == taken + Stream() && bursts == After(old(bursts), |taken|)
      ensures |taken| <= MAX_REQUEST + 1 && (r.Eof? <==> taken == "")
      ensures (r.Frame? <==> IsLine(taken)) && (r.Frame? ==> r.data == taken)
    {
      hide Chunk, Rest, Concat, IsLine, Verdict, After, EndsReceive;
      ghost var before := bursts;
      var data := "";
      taken := "";
      NothingReceived(before);
      while |data| <= MAX_REQUEST
        invariant data == taken && |data| <= MAX_REQUEST + 1 && '\n' !in data
        invariant Progress(before, bursts, data)
        decreases MAX_REQUEST + 1 - |data|
      {
        var n := Min(RECV_SIZE, MAX_REQUEST + 1 - |data|);
        assert n > 0;
        ChunkShape(bursts, n);
        ghost var was := bursts;
        var chunk := Recv(n);
        if chunk == "" {
          Exhausted(before, was, data);
          RestIsAfter(was, n);
          NoneLeft(was, n);
          return if data == "" then Eof else ClosedInside, taken;
        }
        taken := taken + chunk;
        ProgressStep(before, was, data, n);
        var newline := FindNewline(chunk);
        if newline < |chunk| {
          LineReceived(before, was, data, n);
          data := data + chunk[..newline + 1];
          return if newline + 1 != |chunk| then TrailingBytes else Frame(data), taken;
        }
        assert chunk[..newline] == chunk;
        NotYetReceived(was, data, n);
        data := data + chunk;
      }
      Overlong(before, bursts, data);
      return TooLong, taken;
    }
  }

  // ------------------------------------------------------------------ the receive loop

  /** `data` has been received of the stream; where the first newline stands to the receives is unchanged. */
  ghost predicate Progress(before: seq<Burst>, bs: seq<Burst>, data: string) {
    var stream := Concat(before);
    var p := FindNewline(stream);
    && stream == data + Concat(bs) && bs == After(before, |data|)
    && (p < |stream| && p <= MAX_REQUEST && |data| <= p ==>
          && p - |data| < |Concat(bs)|
          && (EndsReceive(before, p, MAX_REQUEST + 1) <==> EndsReceive(bs, p - |data|, MAX_REQUEST + 1 - |data|)))
  }

  lemma NothingReceived(bs: seq<Burst>)
    ensures Progress(bs, bs, "")
  {
    hide EndsReceive;
    assert "" + Concat(bs) == Concat(bs);
  }

  lemma Regroup(a: string, b: string, c: string)
    ensures a + (b + c) == (a + b) + c
  {}

  /** A receive that does not reach the end of the line keeps the invariant. */
  lemma ProgressStep(before: seq<Burst>, bs: seq<Burst>, data: string, n: nat)
    requires Progress(before, bs, data) && |data| <= MAX_REQUEST && n == Min(RECV_SIZE, MAX_REQUEST + 1 - |data|)
    ensures Progress(before, Rest(bs, n), data + Chunk(bs, n))
  {
    hide EndsReceive, After, Chunk, Rest, Concat, FindNewline;
    ReceiveKeepsStream(bs, n);
    Regroup(data, Chunk(bs, n), Concat(Rest(bs, n)));
    RestIsAfter(bs, n);
    AfterAfter(before, |data|, |Chunk(bs, n)|);
    var p := FindNewline(Concat(before));
    if p < |Concat(before)| && p <= MAX_REQUEST && |data| + |Chunk(bs, n)| <= p {
      ReceiveStep(bs, p - |data|, MAX_REQUEST + 1 - |data|, n);
    }
  }

  /** The newline found in a chunk is the first of the stream, and the verdict is decided. */
  lemma LineReceived(before: seq<Burst>, bs: seq<Burst>, data: string, n: nat)
    requires Progress(before, bs, data) && '\n' !in data
    requires |data| <= MAX_REQUEST && n == Min(RECV_SIZE, MAX_REQUEST + 1 - |data|)
    requires FindNewline(Chunk(bs, n)) < |Chunk(bs, n)| <= n
    ensures var chunk := Chunk(bs, n);
            var line := data + chunk[..FindNewline(chunk) + 1];
            && IsLine(line) && (IsLine(data + chunk) <==> FindNewline(chunk) + 1 == |chunk|)
            && (FindNewline(chunk) + 1 == |chunk| ==> line == data + chunk)
            && Verdict(before) == if FindNewline(chunk) + 1 != |chunk| then TrailingBytes else Frame(line)
  {
    hide EndsReceive, After, Chunk, Rest, Concat, FindNewline, IndexOf;
    var chunk := Chunk(bs, n);
    var q := FindNewline(chunk);
    var line := data + chunk[..q + 1];
    var stream := Concat(before);
    ReceiveKeepsStream(bs, n);
    Regroup(data, chunk, Concat(Rest(bs, n)));
    assert line[..|line| - 1] == data + chunk[..q] && line[|line| - 1] == chunk[q];
    assert line <= data + chunk <= stream;
    LineIsFound(stream, line);
    LineIsFound(data + chunk, line);
    if IsLine(data + chunk) { LineIsFound(stream, data + chunk); }
    ReceiveStep(bs, q, MAX_REQUEST + 1 - |data|, n);
  }

  lemma NotYetReceived(bs: seq<Burst>, data: string, n: nat)
    requires '\n' !in data && FindNewline(Chunk(bs, n)) == |Chunk(bs, n)|
    ensures '\n' !in data + Chunk(bs, n)
  {
    assert Chunk(bs, n)[..|Chunk(bs, n)|] == Chunk(bs, n);
  }

  lemma NoneLeft(bs: seq<Burst>, n: nat)
    ensures bs == [] ==> Rest(bs, n) == [] && Chunk(bs, n) == ""
  {}

  lemma NoLine(s: string)
    requires '\n' !in s
    ensures FindNewline(s) == |s| && !IsLine(s)
  {}

  lemma Exhausted(before: seq<Burst>, bs: seq<Burst>, data: string)
    requires Progress(before, bs, data) && '\n' !in data && |data| <= MAX_REQUEST && bs == []
    ensures Concat(before) == data && !IsLine(data) && Concat(bs) == ""
    ensures Verdict(before) == if data == "" then Eof else ClosedInside
  {
    hide EndsReceive, After, IsLine;
    assert data + "" == data;
    NoLine(data);
  }

  lemma Overlong(before: seq<Burst>, bs: seq<Burst>, data: string)
    requires Progress(before, bs, data) && '\n' !in data && |data| == MAX_REQUEST + 1
    ensures Verdict(before) == TooLong && !IsLine(data)
  {
    hide EndsReceive, After, IsLine;
    NoLine(data);
    var stream := Concat(before);
    var p := FindNewline(stream);
    assert forall k :: 0 <= k < |data| ==> stream[k] == data[k] && data[k] in data;
  }

  // ------------------------------------------------------------------ serving

  /** Decoding, validating and answering one request body. */
  datatype Answer = Malformed | CannotFit | Reply(bytes: string)

  datatype Exit = Done | BoundTooSmall | Refused

  type Service = string -> Answer

  /** The framing checks of `parse_request_frame`. */
  predicate Accepted(data: string) {
    && |data| <= MAX_REQUEST && data != "" && data[|data| - 1] == '\n'
    && var body := data[..|data| - 1];
       body != "" && '\n' !in body && '\r' !in body
  }

  function Body(f: string): string
    requires f != ""
  {
    f[..|f| - 1]
  }

  predicate Answered(f: string, answer: Service) {
    Accepted(f) && answer(Body(f)).Reply?
  }

  /** The frames that are answered, spelled out. */
  lemma AnsweredMeans(f: string, answer: Service)
    ensures Answered(f, answer) <==>
            exists body :: && f == body + "\n" && 1 <= |body| <= 1048575 && '\n' !in body && '\r' !in body
                           && answer(body).Reply?
  {
    if f != "" && f[|f| - 1] == '\n' { assert f == f[..|f| - 1] + "\n"; }
    forall body | f == body + "\n" ensures f != "" && f[|f| - 1] == '\n' && Body(f) == body {}
  }

  ghost predicate AllAnswered(frames: seq<string>, answer: Service) {
    forall i :: 0 <= i < |frames| ==> Answered(frames[i], answer)
  }

  ghost function Replies(frames: seq<string>, answer: Service): (r: seq<string>)
    requires AllAnswered(frames, answer)
    ensures |r| == |frames| && forall i :: 0 <= i < |r| ==> r[i] == answer(Body(frames[i])).bytes
  {
    seq(|frames|, i requires 0 <= i < |frames| => answer(Body(frames[i])).bytes)
  }

  lemma AfterShrinks(bs: seq<Burst>, f: string)
    requires Verdict(bs) == Frame(f)
    ensures f <= Concat(bs) && f != "" && Concat(bs) == f + Concat(After(bs, |f|))
    ensures |Concat(After(bs, |f|))| < |Concat(bs)|
  {
    hide EndsReceive;
    AfterDrops(bs, |f|);
    assert Concat(bs) == Concat(bs)[..|f|] + Concat(bs)[|f|..];
  }

  lemma {:induction false} AfterDrops(bs: seq<Burst>, m: nat)
    requires m <= |Concat(bs)|
    ensures Concat(After(bs, m)) == Concat(bs)[m..]
  {
    if m > 0 && bs != [] {
      if m < |bs[0]| {
        assert ([bs[0][m..]] + bs[1..])[1..] == bs[1..];
      } else {
        AfterDrops(bs[1..], m - |bs[0]|);
      }
    }
  }

  /** Every request is answerable and arrives so that its line ends a receive. */
  ghost predicate Orderly(bs: seq<Burst>, answer: Service)
    decreases |Concat(bs)|
  {
    match Verdict(bs)
    case Eof => true
    case Frame(f) =>
      assert |Concat(After(bs, |f|))| < |Concat(bs)| by { AfterShrinks(bs, f); }
      Answered(f, answer) && Orderly(After(bs, |f|), answer)
    case _ => false
  }

  lemma RepliesSnoc(frames: seq<string>, f: string, answer: Service)
    requires AllAnswered(frames, answer) && Answered(f, answer)
    ensures AllAnswered(frames + [f], answer)
    ensures Replies(frames + [f], answer) == Replies(frames, answer) + [answer(Body(f)).bytes]
  {
    hide Answered;
  }

  /** Every request that was answered, then what was read of the request the service stopped at. */
  ghost predicate Accounts(stream: string, frames: seq<string>, taken: string, rest: string) {
    stream == Concat(frames) + taken + rest
  }

  lemma AccountsStart(stream: string)
    ensures Accounts(stream, [], "", stream)
  {
    assert "" + "" + stream == stream;
  }

  lemma AccountsNext(stream: string, frames: seq<string>, f: string, rest: string)
    requires Accounts(stream, frames, f, rest)
    ensures Accounts(stream, frames + [f], "", rest)
  {
    ConcatSnoc(frames, f);
    assert Concat(frames) + f + "" == Concat(frames) + f;
  }

  lemma AccountsRead(stream: string, frames: seq<string>, taken: string, before: string, after: string)
    requires Accounts(stream, frames, "", before) && before == taken + after
    ensures Accounts(stream, frames, taken, after)
  {
    assert Concat(frames) + "" + (taken + after) == Concat(frames) + taken + after;
  }

  lemma EofIsEmpty(bs: seq<Burst>)
    ensures Verdict(bs).Eof? <==> Concat(bs) == ""
  {}

  lemma OrderlyFrame(bs: seq<Burst>, answer: Service)
    ensures Verdict(bs).Eof? ==> Orderly(bs, answer)
    ensures !Verdict(bs).Eof? && !Verdict(bs).Frame? ==> !Orderly(bs, answer)
    ensures Verdict(bs).Frame? ==>
              (Orderly(bs, answer) <==>
                 Answered(Verdict(bs).data, answer) && Orderly(After(bs, |Verdict(bs).data|), answer))
  {
    hide Verdict, After, Answered, Concat;
  }

  lemma UnansweredFrame(f: string, answer: Service)
    ensures Answered(f, answer) ==> Accepted(f) && IsLine(f) && f != "" && answer(Body(f)).Reply?
    ensures f != "" && Accepted(f) && answer(Body(f)).Reply? ==> Answered(f, answer)
  {}

  /** The serving loop of `run_unix`; `stop` says before which round a shutdown request is seen. */
  method Serve(c: Connection, answer: Service, stop: Option<nat>)
    returns (exit: Exit, ghost frames: seq<string>, ghost taken: string)
    modifies c
    ensures AllAnswered(frames, answer) && c.sent == old(c.sent) + Replies(frames, answer)
    ensures Accounts(old(c.Stream()), frames, taken, c.Stream())
    ensures exit.Done? ==> taken == "" && (c.Stream() == "" || stop == Some(|frames|))
    ensures exit.BoundTooSmall? ==> Accepted(taken) && answer(Body(taken)).CannotFit?
    ensures exit.Refused? ==> taken != "" && !Answered(taken, answer)
    ensures stop.None? ==> (exit.Done? <==> Orderly(old(c.bursts), answer))
  {
    hide Concat, IsLine, Verdict, After, Accepted, Answered, Accounts, Orderly;
    frames, taken := [], "";
    AccountsStart(c.Stream());
    var round := 0;
    while stop != Some(round)
      invariant round == |frames| && taken == ""
      invariant AllAnswered(frames, answer) && c.sent == old(c.sent) + Replies(frames, answer)
      invariant Accounts(old(c.Stream()), frames, "", c.Stream())
      invariant Orderly(old(c.bursts), answer) <==> Orderly(c.bursts, answer)
      decreases |c.Stream()|
    {
      ghost var before, bursts := c.Stream(), c.bursts;
      OrderlyFrame(bursts, answer);
      EofIsEmpty(bursts);
      var r;
      r, taken := c.ReadFrame();
      AccountsRead(old(c.Stream()), frames, taken, before, c.Stream());
      UnansweredFrame(taken, answer);
      if r.Eof? {
        return Done, frames, taken;
      }
      if !r.Frame? {
        return Refused, frames, taken;
      }
      if !Accepted(r.data) {
        return Refused, frames, taken;
      }
      var a := answer(Body(r.data));
      if a.Malformed? {
        return Refused, frames, taken;
      }
      if a.CannotFit? {
        return BoundTooSmall, frames, taken;
      }
      c.sent := c.sent + [a.bytes];
      RepliesSnoc(frames, taken, answer);
      AccountsNext(old(c.Stream()), frames, taken, c.Stream());
      frames, round, taken := frames + [taken], round + 1, "";
    }
    return Done, frames, taken;
  }

  // ------------------------------------------------------------------ peers that wait, and peers that do not

  /** A peer that sends one request, pauses, and waits for its answer: `turns` says how many bursts
      each request took. */
  ghost predicate Lockstep(bs: seq<Burst>, turns: seq<nat>, answer: Service)
    decreases |turns|
  {
    if turns == [] then bs == []
    else
      && turns[0] <= |bs| && Answered(Concat(bs[..turns[0]]), answer)
      && Lockstep(bs[turns[0]..], turns[1..], answer)
  }

  lemma {:induction false} ConcatPrefix(bs: seq<Burst>, k: nat)
    requires k <= |bs|
    ensures Concat(bs) == Concat(bs[..k]) + Concat(bs[k..])
  {
    if k == 0 {
      assert bs[k..] == bs;
    } else {
      ConcatPrefix(bs[1..], k - 1);
      assert bs[..k][1..] == bs[1..][..k - 1] && bs[k..] == bs[1..][k - 1..];
    }
  }

  /** The end of a burst is the end of a receive. */
  lemma {:induction false} PauseEndsReceive(bs: seq<Burst>, k: nat, room: nat)
    requires 0 < k <= |bs| && |Concat(bs[..k])| <= room
    ensures 0 < |Concat(bs[..k])| <= |Concat(bs)|
    ensures EndsReceive(bs, |Concat(bs[..k])| - 1, room) && After(bs, |Concat(bs[..k])|) == bs[k..]
  {
    ConcatPrefix(bs, k);
    assert bs[..k][1..] == bs[1..][..k - 1] && bs[..k][0] == bs[0];
    if k > 1 {
      PauseEndsReceive(bs[1..], k - 1, room - |bs[0]|);
      assert bs[1..][k - 1..] == bs[k..];
    }
  }

  lemma LineAtPause(bs: seq<Burst>, k: nat)
    requires k <= |bs| && IsLine(Concat(bs[..k])) && |Concat(bs[..k])| <= MAX_REQUEST + 1
    ensures Verdict(bs) == Frame(Concat(bs[..k])) && After(bs, |Concat(bs[..k])|) == bs[k..]
  {
    hide EndsReceive, After, IsLine;
    var f := Concat(bs[..k]);
    LineNotEmpty(f);
    assert k > 0;
    ConcatPrefix(bs, k);
    PauseEndsReceive(bs, k, MAX_REQUEST + 1);
    LineIsFound(Concat(bs), f);
  }

  /** A peer that waits for each answer is answered to the end, however each request is cut. */
  lemma {:induction false} LockstepIsOrderly(bs: seq<Burst>, turns: seq<nat>, answer: Service)
    requires Lockstep(bs, turns, answer)
    ensures Orderly(bs, answer)
    decreases |turns|
  {
    hide Verdict, After, Answered, Orderly, Concat;
    OrderlyFrame(bs, answer);
    if turns == [] {
      NothingToRead();
    } else {
      var f := Concat(bs[..turns[0]]);
      AnsweredIsBounded(f, answer);
      LineAtPause(bs, turns[0]);
      LockstepIsOrderly(bs[turns[0]..], turns[1..], answer);
    }
  }

  lemma NothingToRead()
    ensures Verdict([]).Eof?
  {}

  lemma AnsweredIsBounded(f: string, answer: Service)
    requires Answered(f, answer)
    ensures IsLine(f) && |f| <= MAX_REQUEST
  {}

  lemma OneMoreTurn(f: Burst, bs: seq<Burst>, turns: seq<nat>, answer: Service)
    requires Answered(f, answer) && Lockstep(bs, turns, answer)
    ensures Lockstep([f] + bs, [1] + turns, answer)
  {
    var cs, ts := [f] + bs, [1] + turns;
    assert cs[..1] == [f] && cs[1..] == bs && ts[1..] == turns && ts[0] == 1;
    ConcatOne(f);
  }

  lemma ApartIsOrderly(f: string, g: string, answer: Service)
    requires Answered(f, answer) && Answered(g, answer)
    ensures Orderly([f, g], answer)
  {
    hide Orderly, Answered, Lockstep;
    UnansweredFrame(f, answer);
    UnansweredFrame(g, answer);
    NoTurns(answer);
    OneMoreTurn(g, [], [], answer);
    OneMoreTurn(f, [g] + [], [1] + [], answer);
    assert [f] + ([g] + []) == [f, g];
    LockstepIsOrderly([f] + ([g] + []), [1] + ([1] + []), answer);
  }

  lemma NoTurns(answer: Service)
    ensures Lockstep([], [], answer)
  {}

  lemma TogetherTrails(f: string, g: string)
    requires IsLine(f) && |f| <= MAX_REQUEST && g != "" && |f| % RECV_SIZE != 0
    ensures Verdict([f + g]) == TrailingBytes
  {
    hide IsLine, Concat;
    ConcatOne(f + g);
    LineNotEmpty(f);
    LineIsFound(f + g, f);
  }

  /** Two requests that arrive together are refused, although apart both would be answered. */
  lemma TogetherIsRefused(f: string, g: string, answer: Service)
    requires Answered(f, answer) && Answered(g, answer) && |f| % RECV_SIZE != 0
    ensures Orderly([f, g], answer) && f + g != "" && !Orderly([f + g], answer)
  {
    hide Orderly, Answered, Verdict, IsLine;
    ApartIsOrderly(f, g, answer);
    AnsweredIsBounded(f, answer);
    UnansweredFrame(f, answer);
    UnansweredFrame(g, answer);
    TogetherTrails(f, g);
    OrderlyFrame([f + g], answer);
  }
}
