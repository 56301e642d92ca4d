/**
 Escaping text for the console page: five replacements in a row.
 */
module HtmlEscape {

  const AMP: string := "&amp;"
  const LT: string := "&lt;"
  const GT: string := "&gt;"
  const QUOT: string := "&quot;"
  const APOS: string := "&#39;"

  /** `str::replace` of one character. */
  function Replace(s: string, c: char, w: string): string {
    if s == "" then "" else (if s[0] == c then w else [s[0]]) + Replace(s[1..], c, w)
  }

  function Escape(s: string): string {
    Replace(Replace(Replace(Replace(Replace(s, '&', AMP), '<', LT), '>', GT), '"', QUOT), '\'', APOS)
  }

  /** What each character should become. */
  function Entity(c: char): string {
    match c
    case '&' => "&amp;"
    case '<' => "&lt;"
    case '>' => "&gt;"
    case '"' => "&quot;"
    case '\'' => "&#39;"
    case _ => [c]
  }

  function Substitute(s: string): string {
    if s == "" then "" else Entity(s[0]) + Substitute(s[1..])
  }

  /** Reading the entities back. */
  function Unescape(s: string): string {
    if s == "" then ""
    else if AMP <= s then "&" + Unescape(s[|AMP|..])
    else if LT <= s then "<" + Unescape(s[|LT|..])
    else if GT <= s then ">" + Unescape(s[|GT|..])
    else if QUOT <= s then "\"" + Unescape(s[|QUOT|..])
    else if APOS <= s then "'" + Unescape(s[|APOS|..])
    else [s[0]] + Unescape(s[1..])
  }

  lemma {:induction false} ReplaceAppend(a: string, b: string, c: char, w: string)
    ensures Replace(a + b, c, w) == Replace(a, c, w) + Replace(b, c, w)
  {
    if a == "" {
      assert a + b == b;
    } else {
      assert (a + b)[0] == a[0] && (a + b)[1..] == a[1..] + b;
      ReplaceAppend(a[1..], b, c, w);
    }
  }

  lemma {:induction false} ReplaceAbsent(s: string, c: char, w: string)
    requires c !in s
    ensures Replace(s, c, w) == s
  {
    if s != "" {
      ReplaceAbsent(s[1..], c, w);
    }
  }

  lemma EscapeAppend(a: string, b: string)
    ensures Escape(a + b) == Escape(a) + Escape(b)
  {
    hide Replace;
    ReplaceAppend(a, b, '&', AMP);
    var a1, b1 := Replace(a, '&', AMP), Replace(b, '&', AMP);
    ReplaceAppend(a1, b1, '<', LT);
    var a2, b2 := Replace(a1, '<', LT), Replace(b1, '<', LT);
    ReplaceAppend(a2, b2, '>', GT);
    var a3, b3 := Replace(a2, '>', GT), Replace(b2, '>', GT);
    ReplaceAppend(a3, b3, '"', QUOT);
    ReplaceAppend(Replace(a3, '"', QUOT), Replace(b3, '"', QUOT), '\'', APOS);
  }

  lemma ReplaceOne(c: char, d: char, w: string)
    ensures Replace([c], d, w) == if c == d then w else [c]
  {
    assert [c][1..] == "";
  }

  /** Later replacements leave what earlier ones wrote alone. */
  lemma EscapeOne(c: char)
    ensures Escape([c]) == Entity(c)
  {
    hide Replace;
    ReplaceOne(c, '&', AMP);
    var s1 := Replace([c], '&', AMP);
    if c == '&' { ReplaceAbsent(s1, '<', LT); } else { ReplaceOne(c, '<', LT); }
    var s2 := Replace(s1, '<', LT);
    if |s2| > 1 { ReplaceAbsent(s2, '>', GT); } else { ReplaceOne(c, '>', GT); }
    var s3 := Replace(s2, '>', GT);
    if |s3| > 1 { ReplaceAbsent(s3, '"', QUOT); } else { ReplaceOne(c, '"', QUOT); }
    var s4 := Replace(s3, '"', QUOT);
    if |s4| > 1 { ReplaceAbsent(s4, '\'', APOS); } else { ReplaceOne(c, '\'', APOS); }
  }

  lemma EscapeNothing()
    ensures Escape("") == ""
  {}

  /** Five passes do what one pass over the characters would. */
  lemma {:induction false} EscapeIsSubstitution(s: string)
    ensures Escape(s) == Substitute(s)
  {
    hide Escape, Entity;
    if s == "" {
      EscapeNothing();
    } else {
      assert s == [s[0]] + s[1..];
      EscapeAppend([s[0]], s[1..]);
      EscapeOne(s[0]);
      EscapeIsSubstitution(s[1..]);
    }
  }

  /** Nothing that opens markup or ends an attribute survives. */
  lemma {:induction false} NoMarkupSurvives(s: string, c: char)
    requires c in "<>\"'"
    ensures c !in Escape(s)
    decreases |s|
  {
    hide Escape;
    EscapeIsSubstitution(s);
    if s != "" {
      NoMarkupSurvives(s[1..], c);
      EscapeIsSubstitution(s[1..]);
      assert c !in Entity(s[0]);
    }
  }

  lemma EntityLeads(c: char, t: string)
    ensures var s := Entity(c) + t;
            && (AMP <= s <==> c == '&') && (LT <= s <==> c == '<') && (GT <= s <==> c == '>')
            && (QUOT <= s <==> c == '"') && (APOS <= s <==> c == '\'')
  {
    var e := Entity(c);
    var s := e + t;
    assert e <= s && s[0] == e[0];
    LeadsDiffer(AMP, s);
    LeadsDiffer(LT, s);
    LeadsDiffer(GT, s);
    LeadsDiffer(QUOT, s);
    LeadsDiffer(APOS, s);
    assert |e| > 1 ==> e in {AMP, LT, GT, QUOT, APOS} && s[1] == e[1];
    assert |e| == 1 ==> e == [c] && c != '&';
    assert AMP[1] == 'a' && LT[1] == 'l' && GT[1] == 'g' && QUOT[1] == 'q' && APOS[1] == '#';
  }

  /** The first two characters tell entities apart. */
  lemma LeadsDiffer(w: string, s: string)
    requires w in {AMP, LT, GT, QUOT, APOS}
    ensures w <= s ==> s[0] == '&' && s[1] == w[1]
  {}

  lemma UnescapeEntity(c: char, t: string)
    ensures Unescape(Entity(c) + t) == [c] + Unescape(t)
  {
    var s := Entity(c) + t;
    EntityLeads(c, t);
    assert s[|Entity(c)|..] == t && s != "";
    assert s[0] == Entity(c)[0];
  }

  lemma {:induction false} UnescapeSubstitute(s: string)
    ensures Unescape(Substitute(s)) == s
  {
    hide Unescape, Entity;
    if s == "" {
      UnescapeNothing();
    } else {
      UnescapeEntity(s[0], Substitute(s[1..]));
      UnescapeSubstitute(s[1..]);
    }
  }

  lemma UnescapeNothing()
    ensures Unescape("") == ""
  {}

  /** The shown text determines the input. */
  lemma EscapeRoundTrips(s: string)
    ensures Unescape(Escape(s)) == s
  {
    hide Escape, Unescape, Substitute;
    EscapeIsSubstitution(s);
    UnescapeSubstitute(s);
  }
}
