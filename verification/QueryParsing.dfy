/**
 The query strings of the read-only endpoints.  The evaluation-history endpoint takes
 numeric bounds; the findings and the rejected-custody endpoints share a grammar with a
 token cursor.
 */
module QueryParsing {
  import opened Prelude
  import Decimal
  import Separated
  import Strings

  const MAX_PER_RESPONSE: nat := 1000
  const MAX_TOKEN: nat := 255

  datatype Endpoint = Evaluations | Tokens

  datatype Cursor = Sequence(n: nat) | Token(text: string)

  datatype Parameter = Limit(n: nat) | After(cursor: Cursor) | Through(bound: nat)

  datatype Fields = Fields(limit: Option<nat>, after: Option<Cursor>, through: Option<nat>)

  datatype Query = Query(limit: nat, after: Option<Cursor>, through: Option<nat>)

  predicate IsTokenChar(c: char) {
    || 'a' <= c <= 'z' || 'A' <= c <= 'Z' || '0' <= c <= '9'
    || c == '.' || c == '_' || c == '-' || c == ':' || c == '/' || c == '@'
  }

  /** `is_stable_cursor_token`. */
  predicate IsToken(s: string) {
    1 <= |s| <= MAX_TOKEN && forall i :: 0 <= i < |s| ==> IsTokenChar(s[i])
  }

  // ------------------------------------------------------------------ one parameter

  const LOWER: string := "abcdefghijklmnopqrstuvwxyz"
  const UPPER: string := "ABCDEFGHIJKLMNOPQRSTUVWXYZ"
  const DIGITS: string := "0123456789"
  const MARKS: string := "._-:/@"

  predicate IsListed(c: char) { c in LOWER || c in UPPER || c in DIGITS || c in MARKS }

  /** 1 to 255 letters, digits and six marks. */
  predicate TokenText(s: string) { 1 <= |s| <= 255 && forall c :: c in s ==> IsListed(c) }

  lemma LowerCase(c: char)
    ensures 'a' <= c <= 'z' <==> c in LOWER
  {
    if 'a' <= c <= 'z' { assert LOWER[c as int - 97] == c; }
  }

  lemma UpperCase(c: char)
    ensures 'A' <= c <= 'Z' <==> c in UPPER
  {
    if 'A' <= c <= 'Z' { assert UPPER[c as int - 65] == c; }
  }

  lemma DigitOrMark(c: char)
    ensures '0' <= c <= '9' <==> c in DIGITS
    ensures c == '.' || c == '_' || c == '-' || c == ':' || c == '/' || c == '@' <==> c in MARKS
  {
    if '0' <= c <= '9' { assert DIGITS[c as int - 48] == c; }
    assert MARKS[0] == '.' && MARKS[1] == '_' && MARKS[2] == '-';
    assert MARKS[3] == ':' && MARKS[4] == '/' && MARKS[5] == '@';
  }

  lemma TokenCharacter(c: char)
    ensures IsTokenChar(c) <==> IsListed(c)
  {
    LowerCase(c);
    UpperCase(c);
    DigitOrMark(c);
  }

  lemma TokenIsText(s: string)
    ensures IsToken(s) <==> TokenText(s)
  {
    hide IsTokenChar, IsListed;
    forall i | 0 <= i < |s| ensures IsTokenChar(s[i]) <==> IsListed(s[i]) { TokenCharacter(s[i]); }
    assert forall i :: 0 <= i < |s| ==> s[i] in s;
  }

  predicate LegalCursor(e: Endpoint, c: Cursor) {
    match c
    case Sequence(n) => e.Evaluations? && n <= 18446744073709551615
    case Token(text) => e.Tokens? && TokenText(text)
  }

  predicate Legal(e: Endpoint, p: Parameter) {
    match p
    case Limit(n) => 1 <= n <= 1000
    case After(c) => LegalCursor(e, c)
    case Through(n) => e.Evaluations? && n <= 18446744073709551615
  }

  function Name(p: Parameter): string {
    match p
    case Limit(_) => "limit"
    case After(_) => "after"
    case Through(_) => "through"
  }

  function Written(p: Parameter): string {
    match p
    case Limit(n) => Decimal.Digits(n)
    case After(Sequence(n)) => Decimal.Digits(n)
    case After(Token(text)) => text
    case Through(n) => Decimal.Digits(n)
  }

  function Render(p: Parameter): string { Name(p) + "=" + Written(p) }

  /** A value read as `u64` after the canonical-decimal test. */
  function ParseNumber(value: string): Option<nat> {
    if !Decimal.IsCanonicalNonNegative(value) then None
    else
      var n := Decimal.Value(value);
      if n <= U64_MAX then Some(n) else None
  }

  function ParseLimit(value: string): Option<nat> {
    if !Decimal.IsCanonical(value) then None
    else
      var n := Decimal.Value(value);
      if n <= U32_MAX && 1 <= n <= MAX_PER_RESPONSE then Some(n) else None
  }

  function ParseNamed(e: Endpoint, name: string, value: string): Option<Parameter> {
    if name == "limit" then
      var n := ParseLimit(value);
      if n.Some? then Some(Limit(n.value)) else None
    else if name == "after" then
      if e.Tokens? then if IsToken(value) then Some(After(Token(value))) else None
      else
        var n := ParseNumber(value);
        if n.Some? then Some(After(Sequence(n.value))) else None
    else if name == "through" && e.Evaluations? then
      var n := ParseNumber(value);
      if n.Some? then Some(Through(n.value)) else None
    else None
  }

  function ParseParameter(e: Endpoint, s: string): Option<Parameter> {
    var n := Strings.IndexOf(s, '=');
    if n == |s| then None
    else
      var name, value := s[..n], s[n + 1..];
      if name == "" || value == "" || '=' in value then None
      else ParseNamed(e, name, value)
  }

  lemma NumberSpelling(s: string, n: nat)
    ensures ParseNumber(s) == Some(n) <==> s == Decimal.Digits(n) && n <= U64_MAX
  {
    hide Decimal.Digits, Decimal.Value;
    Decimal.DigitsAreCanonical(n);
    if Decimal.IsCanonicalNonNegative(s) {
      Decimal.OneSpelling(s);
    }
  }

  lemma LimitSpelling(s: string, n: nat)
    ensures ParseLimit(s) == Some(n) <==> s == Decimal.Digits(n) && 1 <= n <= MAX_PER_RESPONSE
  {
    hide Decimal.Digits, Decimal.Value;
    Decimal.DigitsAreCanonical(n);
    if Decimal.IsCanonical(s) {
      Decimal.OneSpelling(s);
    }
  }

  lemma NamedSpelling(e: Endpoint, name: string, value: string, p: Parameter)
    ensures ParseNamed(e, name, value) == Some(p)
            <==> Legal(e, p) && name == Name(p) && value == Written(p)
  {
    hide ParseNumber, ParseLimit, Decimal.Digits, IsToken, TokenText;
    TokenIsText(value);
    match p
    case Limit(n) => LimitSpelling(value, n);
    case After(Sequence(n)) => NumberSpelling(value, n);
    case After(Token(_)) =>
    case Through(n) => NumberSpelling(value, n);
  }

  /** What is written for a legal parameter is non-empty and free of separators. */
  lemma WrittenIsPlain(e: Endpoint, p: Parameter)
    requires Legal(e, p)
    ensures Written(p) != "" && '=' !in Written(p) && '&' !in Written(p)
  {
    match p
    case Limit(n) => Decimal.DigitsAreCanonical(n);
    case After(Sequence(n)) => Decimal.DigitsAreCanonical(n);
    case After(Token(text)) =>
      TokenCharacter('=');
      TokenCharacter('&');
    case Through(n) => Decimal.DigitsAreCanonical(n);
  }

  lemma NameIsPlain(p: Parameter)
    ensures Name(p) != "" && '=' !in Name(p) && '&' !in Name(p)
  {}

  lemma RenderSplits(p: Parameter)
    ensures var s, n := Render(p), |Name(p)|;
            Strings.IndexOf(s, '=') == n && n < |s| && s[..n] == Name(p) && s[n + 1..] == Written(p)
  {
    hide Name, Written;
    NameIsPlain(p);
    var s, n := Render(p), |Name(p)|;
    assert s[n] == '=' && forall i :: 0 <= i < n ==> s[i] == Name(p)[i];
    assert s[..n] == Name(p) && s[n + 1..] == Written(p);
  }

  /** A piece of the query string is accepted exactly when it is the rendering of a legal
      parameter: every accepted number has one spelling. */
  lemma ParameterSpelling(e: Endpoint, s: string, p: Parameter)
    ensures ParseParameter(e, s) == Some(p) <==> Legal(e, p) && s == Render(p)
  {
    hide Name, Written, ParseNamed, Legal;
    var n := Strings.IndexOf(s, '=');
    if n < |s| {
      NamedSpelling(e, s[..n], s[n + 1..], p);
      assert s == s[..n] + "=" + s[n + 1..];
    }
    RenderSplits(p);
    NameIsPlain(p);
    if Legal(e, p) {
      WrittenIsPlain(e, p);
      NamedSpelling(e, Name(p), Written(p), p);
    }
  }

  // ------------------------------------------------------------------ a whole query

  function Kind(p: Parameter): nat {
    match p case Limit(_) => 0 case After(_) => 1 case Through(_) => 2
  }

  ghost predicate Distinct(ps: seq<Parameter>) {
    forall i, j :: 0 <= i < j < |ps| ==> Kind(ps[i]) != Kind(ps[j])
  }

  function Renders(ps: seq<Parameter>): (r: seq<string>)
    ensures |r| == |ps| && forall i :: 0 <= i < |r| ==> r[i] == Render(ps[i])
  {
    seq(|ps|, i requires 0 <= i < |ps| => Render(ps[i]))
  }

  /** `text` is the rendering of these parameters, in this order. */
  ghost predicate Spells(e: Endpoint, text: string, ps: seq<Parameter>) {
    && ps != [] && Distinct(ps) && (forall i :: 0 <= i < |ps| ==> Legal(e, ps[i]))
    && text == Separated.Join(Renders(ps), '&')
  }

  /** The fields hold the parameters, whatever their order. */
  ghost predicate Holds(ps: seq<Parameter>, f: Fields) {
    && (forall n: nat :: Limit(n) in ps <==> f.limit == Some(n))
    && (forall c: Cursor :: After(c) in ps <==> f.after == Some(c))
    && (forall n: nat :: Through(n) in ps <==> f.through == Some(n))
  }

  /** A sequence cursor needs a frozen bound it does not pass. */
  predicate Coherent(f: Fields) {
    f.after.Some? && f.after.value.Sequence? ==> f.through.Some? && f.after.value.n <= f.through.value
  }

  function Finish(f: Fields): Query {
    Query(if f.limit.Some? then f.limit.value else 1000, f.after, f.through)
  }

  /** The language: a text and the query it denotes. */
  ghost predicate Denotes(e: Endpoint, text: string, q: Query) {
    exists ps, f :: Spells(e, text, ps) && Holds(ps, f) && Coherent(f) && q == Finish(f)
  }

  ghost predicate PiecesParse(e: Endpoint, pieces: seq<string>, ps: seq<Parameter>) {
    |pieces| == |ps| && forall i :: 0 <= i < |ps| ==> ParseParameter(e, pieces[i]) == Some(ps[i])
  }

  lemma PieceIsPlain(e: Endpoint, p: Parameter)
    requires Legal(e, p)
    ensures '&' !in Render(p)
  {
    hide Name, Written, Legal;
    WrittenIsPlain(e, p);
    NameIsPlain(p);
  }

  /** Spelling is what splitting and parsing each piece decides. */
  lemma SpellsIffPiecesParse(e: Endpoint, text: string, ps: seq<Parameter>)
    ensures Spells(e, text, ps) <==> Distinct(ps) && PiecesParse(e, Separated.Split(text, '&'), ps)
  {
    hide ParseParameter, Legal, Render, Separated.Split, Separated.Join, Distinct;
    var pieces := Separated.Split(text, '&');
    if Spells(e, text, ps) {
      forall i | 0 <= i < |ps| ensures '&' !in Renders(ps)[i] {
        PieceIsPlain(e, ps[i]);
      }
      Separated.SplitOfJoin(Renders(ps), '&');
      forall i | 0 <= i < |ps| ensures ParseParameter(e, pieces[i]) == Some(ps[i]) {
        ParameterSpelling(e, pieces[i], ps[i]);
      }
    }
    if PiecesParse(e, pieces, ps) {
      forall i | 0 <= i < |ps| ensures Legal(e, ps[i]) && pieces[i] == Render(ps[i]) {
        ParameterSpelling(e, pieces[i], ps[i]);
      }
      assert pieces == Renders(ps);
      Separated.JoinOfSplit(text, '&');
    }
  }

  /** A text spells one list of parameters at most. */
  lemma OneReading(e: Endpoint, text: string, ps: seq<Parameter>, qs: seq<Parameter>)
    requires Spells(e, text, ps) && Spells(e, text, qs)
    ensures ps == qs
  {
    hide ParseParameter, Distinct, Spells;
    SpellsIffPiecesParse(e, text, ps);
    SpellsIffPiecesParse(e, text, qs);
    assert |ps| == |qs| && forall i :: 0 <= i < |ps| ==> Some(ps[i]) == Some(qs[i]);
  }

  lemma OneHolding(ps: seq<Parameter>, f: Fields, g: Fields)
    requires Holds(ps, f) && Holds(ps, g)
    ensures f == g
  {
    assert f.limit == g.limit by {
      if f.limit.Some? { assert Limit(f.limit.value) in ps; }
      if g.limit.Some? { assert Limit(g.limit.value) in ps; }
    }
    assert f.after == g.after by {
      if f.after.Some? { assert After(f.after.value) in ps; }
      if g.after.Some? { assert After(g.after.value) in ps; }
    }
    assert f.through == g.through by {
      if f.through.Some? { assert Through(f.through.value) in ps; }
      if g.through.Some? { assert Through(g.through.value) in ps; }
    }
  }

  /** A query string means one thing at most. */
  lemma OneMeaning(e: Endpoint, text: string, q: Query, r: Query)
    requires Denotes(e, text, q) && Denotes(e, text, r)
    ensures q == r
  {
    hide Spells, Holds, Coherent;
    var ps, f :| Spells(e, text, ps) && Holds(ps, f) && Coherent(f) && q == Finish(f);
    var qs, g :| Spells(e, text, qs) && Holds(qs, g) && Coherent(g) && r == Finish(g);
    OneReading(e, text, ps, qs);
    OneHolding(ps, f, g);
  }

  predicate Filled(f: Fields, p: Parameter) {
    match p
    case Limit(_) => f.limit.Some?
    case After(_) => f.after.Some?
    case Through(_) => f.through.Some?
  }

  function Fill(f: Fields, p: Parameter): Fields {
    match p
    case Limit(n) => f.(limit := Some(n))
    case After(c) => f.(after := Some(c))
    case Through(n) => f.(through := Some(n))
  }

  lemma FillHolds(ps: seq<Parameter>, f: Fields, p: Parameter)
    requires Holds(ps, f)
    ensures Filled(f, p) <==> exists j :: 0 <= j < |ps| && Kind(ps[j]) == Kind(p)
    ensures !Filled(f, p) ==> Holds(ps + [p], Fill(f, p))
  {
    if Filled(f, p) {
      var q := match p
        case Limit(_) => Limit(f.limit.value)
        case After(_) => After(f.after.value)
        case Through(_) => Through(f.through.value);
      assert q in ps && Kind(q) == Kind(p);
    } else {
      assert forall q :: q in ps + [p] <==> q in ps || q == p;
      assert forall j :: 0 <= j < |ps| ==> ps[j] in ps;
    }
  }

  /** A piece that does not parse, or a second one of the same kind. */
  predicate BadPiece(e: Endpoint, pieces: seq<string>, i: nat, j: nat)
    requires i <= j < |pieces|
  {
    var p, q := ParseParameter(e, pieces[i]), ParseParameter(e, pieces[j]);
    q.None? || (i < j && p.Some? && Kind(p.value) == Kind(q.value))
  }

  lemma NeverSpelled(e: Endpoint, text: string, i: nat, j: nat, ps: seq<Parameter>)
    requires i <= j < |Separated.Split(text, '&')| && BadPiece(e, Separated.Split(text, '&'), i, j)
    ensures !Spells(e, text, ps)
  {
    hide ParseParameter, Spells, Separated.Split;
    var pieces := Separated.Split(text, '&');
    SpellsIffPiecesParse(e, text, ps);
    assert PiecesParse(e, pieces, ps) ==>
        ParseParameter(e, pieces[i]) == Some(ps[i]) && ParseParameter(e, pieces[j]) == Some(ps[j]);
  }

  lemma Refused(e: Endpoint, text: string, i: nat, j: nat)
    requires i <= j < |Separated.Split(text, '&')| && BadPiece(e, Separated.Split(text, '&'), i, j)
    ensures forall q :: !Denotes(e, text, q)
  {
    hide BadPiece, Spells, Holds, Coherent, Separated.Split;
    forall ps ensures !Spells(e, text, ps) {
      NeverSpelled(e, text, i, j, ps);
    }
  }

  lemma Incoherent(e: Endpoint, text: string, ps: seq<Parameter>, f: Fields)
    requires Spells(e, text, ps) && Holds(ps, f) && !Coherent(f)
    ensures forall q :: !Denotes(e, text, q)
  {
    hide Spells, Holds, Coherent;
    forall q ensures !Denotes(e, text, q) {
      if Denotes(e, text, q) {
        var qs, g :| Spells(e, text, qs) && Holds(qs, g) && Coherent(g) && q == Finish(g);
        OneReading(e, text, ps, qs);
        OneHolding(ps, f, g);
        assert false;
      }
    }
  }

  /** The three query parsers: accepted texts are exactly the renderings of distinct legal
      parameters in any order, and each means what its parameters say. */
  method Parse(e: Endpoint, query: Option<string>) returns (r: Option<Query>)
    ensures query.None? ==> r == Some(Query(1000, None, None))
    ensures query.Some? && r.Some? ==> Denotes(e, query.value, r.value)
    ensures query.Some? && r.None? ==> forall q :: !Denotes(e, query.value, q)
  {
    hide ParseParameter, Spells, Holds, Separated.Split, Kind, Filled, Fill;
    if query.None? {
      return Some(Query(MAX_PER_RESPONSE, None, None));
    }
    var text := query.value;
    var pieces := Separated.Split(text, '&');
    if text == "" {
      EmptyText(e);
      Refused(e, text, 0, 0);
      return None;
    }
    var f := Fields(None, None, None);
    ghost var ps: seq<Parameter> := [];
    EmptyHolds();
    var i := 0;
    while i < |pieces|
      invariant i <= |pieces| && |ps| == i
      invariant forall j :: 0 <= j < i ==> ParseParameter(e, pieces[j]) == Some(ps[j])
      invariant Distinct(ps) && Holds(ps, f)
    {
      var p := ParseParameter(e, pieces[i]);
      if p.None? {
        Refused(e, text, i, i);
        return None;
      }
      FillHolds(ps, f, p.value);
      if Filled(f, p.value) {
        ghost var j :| 0 <= j < |ps| && Kind(ps[j]) == Kind(p.value);
        Refused(e, text, j, i);
        return None;
      }
      f, ps, i := Fill(f, p.value), ps + [p.value], i + 1;
    }
    SpellsIffPiecesParse(e, text, ps);
    if e.Evaluations? {
      SequenceCursor(e, text, ps, f);
      if f.after.Some? && f.through.None? {
        Incoherent(e, text, ps, f);
        return None;
      }
      if f.after.Some? && f.through.Some? && f.after.value.n > f.through.value {
        Incoherent(e, text, ps, f);
        return None;
      }
    } else {
      TokenCursor(e, text, ps, f);
    }
    return Some(Query(if f.limit.Some? then f.limit.value else MAX_PER_RESPONSE, f.after, f.through));
  }

  lemma SequenceCursor(e: Endpoint, text: string, ps: seq<Parameter>, f: Fields)
    requires e.Evaluations? && Spells(e, text, ps) && Holds(ps, f)
    ensures f.after.Some? ==> f.after.value.Sequence?
  {
    hide Distinct, Renders;
    if f.after.Some? { assert After(f.after.value) in ps; }
  }

  lemma TokenCursor(e: Endpoint, text: string, ps: seq<Parameter>, f: Fields)
    requires e.Tokens? && Spells(e, text, ps) && Holds(ps, f)
    ensures Coherent(f)
  {
    hide Distinct, Renders;
    if f.after.Some? { assert After(f.after.value) in ps; }
  }

  lemma EmptyText(e: Endpoint)
    ensures Separated.Split("", '&') == [""] && ParseParameter(e, "").None?
  {}

  lemma EmptyHolds()
    ensures Holds([], Fields(None, None, None)) && Distinct([])
  {}

  lemma SameMembers(ps: seq<Parameter>, qs: seq<Parameter>)
    requires multiset(ps) == multiset(qs)
    ensures |ps| == |qs| && forall p :: p in ps <==> p in qs
  {
    assert |ps| == |multiset(ps)| && |qs| == |multiset(qs)|;
    assert forall p :: p in ps <==> p in multiset(ps);
    assert forall p :: p in qs <==> p in multiset(qs);
  }

  /** Printing parameters in any order and parsing them again gives the same query. */
  lemma AnyOrderRoundTrips(e: Endpoint, ps: seq<Parameter>, qs: seq<Parameter>, f: Fields)
    requires ps != [] && Distinct(ps) && Distinct(qs) && multiset(ps) == multiset(qs)
    requires forall i :: 0 <= i < |ps| ==> Legal(e, ps[i])
    requires Holds(ps, f) && Coherent(f)
    ensures qs != []
    ensures Denotes(e, Separated.Join(Renders(ps), '&'), Finish(f))
    ensures Denotes(e, Separated.Join(Renders(qs), '&'), Finish(f))
  {
    hide Legal, Separated.Join, Coherent, Distinct, Renders;
    SameMembers(ps, qs);
    assert Holds(qs, f);
    forall i | 0 <= i < |qs| ensures Legal(e, qs[i]) {
      assert qs[i] in ps;
    }
    assert Spells(e, Separated.Join(Renders(ps), '&'), ps);
    assert Spells(e, Separated.Join(Renders(qs), '&'), qs);
  }

  // ------------------------------------------------------------------ resuming after expiry

  /** The bound a refused reader is told to resume with. */
  function ResumeThrough(requested: Option<nat>, floor: nat, latest: nat): nat {
    if requested.Some? && requested.value <= I64_MAX && requested.value > floor then requested.value else latest
  }

  function ResumeText(floor: nat, through: nat): string {
    Separated.Join(Renders([After(Sequence(floor)), Through(through)]), '&')
  }

  /** The resume interval is in the language of the query parser, with the meaning intended, exactly
      when the latest sequence or the reader's own usable bound reaches the floor. */
  lemma ResumeIsAccepted(requested: Option<nat>, floor: nat, latest: nat)
    requires floor <= I64_MAX && latest <= I64_MAX
    ensures var through := ResumeThrough(requested, floor, latest);
            && (Denotes(Evaluations, ResumeText(floor, through),
                        Query(MAX_PER_RESPONSE, Some(Sequence(floor)), Some(through)))
                <==> floor <= latest || (requested.Some? && floor < requested.value <= I64_MAX))
            && (through < floor ==> forall q :: !Denotes(Evaluations, ResumeText(floor, through), q))
  {
    hide Separated.Join, Renders;
    var through := ResumeThrough(requested, floor, latest);
    var ps := [After(Sequence(floor)), Through(through)];
    var f := Fields(None, Some(Sequence(floor)), Some(through));
    assert Holds(ps, f);
    assert Spells(Evaluations, ResumeText(floor, through), ps);
    if through < floor {
      Incoherent(Evaluations, ResumeText(floor, through), ps, f);
    } else {
      assert Coherent(f) && Finish(f) == Query(MAX_PER_RESPONSE, Some(Sequence(floor)), Some(through));
    }
  }
}
