/**
 Well-formed UTF-8, and the lossy conversion that replaces everything else (`String::from_utf8`, `to_string_lossy`).
 A byte string is a `string` holding one char per byte.  The tables follow Table 3-7 of the Unicode Standard.
 */
module Utf8 {

  predicate IsAscii(c: char) { c as int < 0x80 }

  predicate IsContinuation(c: char) { 0x80 <= c as int <= 0xBF }

  /** The second byte of a sequence of three or four: no overlong forms, surrogates or values past the end. */
  predicate IsSecond(lead: char, c: char) {
    match lead as int
    case 0xE0 => 0xA0 <= c as int <= 0xBF
    case 0xED => 0x80 <= c as int <= 0x9F
    case 0xF0 => 0x90 <= c as int <= 0xBF
    case 0xF4 => 0x80 <= c as int <= 0x8F
    case _ => IsContinuation(c)
  }

  /** How many bytes a lead byte announces; 0 for a byte that leads nothing. */
  function Announced(lead: char): (n: nat)
    ensures n <= 4 && (n == 1 <==> IsAscii(lead))
  {
    var b := lead as int;
    if b < 0x80 then 1
    else if 0xC2 <= b <= 0xDF then 2
    else if 0xE0 <= b <= 0xEF then 3
    else if 0xF0 <= b <= 0xF4 then 4
    else 0
  }

  /** The length of the character at the head of the bytes; 0 when there is none. */
  function CharLength(s: string): (n: nat)
    ensures n <= |s| && (s != "" && IsAscii(s[0]) ==> n == 1)
    ensures n > 1 ==> forall i :: 0 <= i < n ==> !IsAscii(s[i])
  {
    if s == "" then 0
    else
      var n := Announced(s[0]);
      if n > |s| then 0
      else if n == 2 && !IsContinuation(s[1]) then 0
      else if n >= 3 && !(IsSecond(s[0], s[1]) && IsContinuation(s[2])) then 0
      else if n == 4 && !IsContinuation(s[3]) then 0
      else n
  }

  predicate Valid(s: string) {
    s == "" || (CharLength(s) > 0 && Valid(s[CharLength(s)..]))
  }

  /** Only the bytes of a character decide that it is one. */
  lemma CharLengthOfPrefix(s: string, t: string)
    requires CharLength(s) > 0 && s[..CharLength(s)] <= t
    ensures CharLength(t) == CharLength(s)
  {
    var n := CharLength(s);
    assert forall i :: 0 <= i < n ==> t[i] == s[..n][i] == s[i];
  }

  lemma {:induction false} ValidAppend(s: string, t: string)
    requires Valid(s)
    ensures Valid(s + t) <==> Valid(t)
    decreases |s|
  {
    if s == "" {
      assert s + t == t;
    } else {
      var n := CharLength(s);
      assert s[..n] <= s + t;
      CharLengthOfPrefix(s, s + t);
      assert (s + t)[n..] == s[n..] + t;
      ValidAppend(s[n..], t);
    }
  }

  /** Behind an ASCII byte a character ends. */
  lemma {:induction false} ValidUpToAscii(s: string, n: nat)
    requires Valid(s) && 0 < n <= |s| && IsAscii(s[n - 1])
    ensures Valid(s[..n])
    decreases |s|
  {
    var k := CharLength(s);
    if n <= k {
      assert k == 1;
      assert s[..1] == [s[0]] && [s[0]][1..] == "";
    } else {
      ValidUpToAscii(s[k..], n - k);
      CharLengthOfPrefix(s, s[..n]);
      assert s[..n][k..] == s[k..][..n - k];
    }
  }

  /** A single byte is text exactly when it is ASCII. */
  lemma OneByte(c: char)
    ensures Valid([c]) <==> IsAscii(c)
  {
    assert [c][1..] == "";
  }

  // ---------------------------------------------------------------- characters and their encodings

  /** The encoding of a Unicode scalar value. */
  function Encode(c: char): (s: string)
    ensures 1 <= |s| <= 4
  {
    var n := c as int;
    if n < 0x80 then [c]
    else if n < 0x800 then [(0xC0 + n / 64) as char, (0x80 + n % 64) as char]
    else if n < 0x10000 then
      [(0xE0 + n / 4096) as char, (0x80 + (n / 64) % 64) as char, (0x80 + n % 64) as char]
    else
      [(0xF0 + n / 262144) as char, (0x80 + (n / 4096) % 64) as char, (0x80 + (n / 64) % 64) as char,
       (0x80 + n % 64) as char]
  }

  function EncodeAll(text: string): string { if text == "" then "" else Encode(text[0]) + EncodeAll(text[1..]) }

  lemma LeadOfThree(n: int)
    requires 0x800 <= n < 0x10000 && !(0xD800 <= n < 0xE000)
    ensures 0 <= n / 4096 < 16
    ensures n / 4096 == 0 ==> (n / 64) % 64 >= 0x20
    ensures n / 4096 == 13 ==> (n / 64) % 64 < 0x20
  {
    var m := n / 64;
    assert n / 4096 == m / 64;
    assert m == 64 * (m / 64) + m % 64;
  }

  lemma LeadOfFour(n: int)
    requires 0x10000 <= n < 0x110000
    ensures 0 <= n / 262144 <= 4
    ensures n / 262144 == 0 ==> (n / 4096) % 64 >= 0x10
    ensures n / 262144 == 4 ==> (n / 4096) % 64 < 0x10
  {
    var m := n / 4096;
    assert n / 262144 == m / 64;
    assert m == 64 * (m / 64) + m % 64;
  }

  lemma EncodedIsChar(c: char, rest: string)
    ensures CharLength(Encode(c) + rest) == |Encode(c)|
  {
    var n := c as int;
    if 0x800 <= n < 0x10000 {
      LeadOfThree(n);
    } else if 0x10000 <= n {
      LeadOfFour(n);
    }
  }

  /** The scalar value whose encoding stands at the head. */
  lemma CharIsEncoded(s: string) returns (c: char)
    requires CharLength(s) > 0
    ensures Encode(c) == s[..CharLength(s)]
  {
    var n := CharLength(s);
    if n == 1 {
      c := s[0];
      assert Encode(c) == s[..1];
    } else if n == 2 {
      c := EncodedTwo(s[0] as int - 0xC0, s[1] as int - 0x80);
      assert Encode(c) == s[..2];
    } else if n == 3 {
      c := EncodedThree(s[0] as int - 0xE0, s[1] as int - 0x80, s[2] as int - 0x80);
      assert Encode(c) == s[..3];
    } else {
      c := EncodedFour(s[0] as int - 0xF0, s[1] as int - 0x80, s[2] as int - 0x80, s[3] as int - 0x80);
      assert Encode(c) == s[..4];
    }
  }

  lemma EncodedTwo(a: int, b: int) returns (c: char)
    requires 2 <= a < 32 && 0 <= b < 64
    ensures Encode(c) == [(0xC0 + a) as char, (0x80 + b) as char]
  {
    var n := 64 * a + b;
    c := n as char;
    assert n / 64 == a && n % 64 == b;
  }

  lemma EncodedThree(a: int, b: int, d: int) returns (c: char)
    requires 0 <= a < 16 && 0 <= b < 64 && 0 <= d < 64 && (a == 0 ==> b >= 0x20) && (a == 13 ==> b < 0x20)
    ensures Encode(c) == [(0xE0 + a) as char, (0x80 + b) as char, (0x80 + d) as char]
  {
    var n := 4096 * a + 64 * b + d;
    c := n as char;
    assert n / 64 == 64 * a + b && n % 64 == d;
    assert n / 4096 == a && (64 * a + b) % 64 == b;
  }

  lemma EncodedFour(a: int, b: int, d: int, e: int) returns (c: char)
    requires 0 <= a <= 4 && 0 <= b < 64 && 0 <= d < 64 && 0 <= e < 64 && (a == 0 ==> b >= 0x10) && (a == 4 ==> b < 0x10)
    ensures Encode(c) == [(0xF0 + a) as char, (0x80 + b) as char, (0x80 + d) as char, (0x80 + e) as char]
  {
    var n := 262144 * a + 4096 * b + 64 * d + e;
    c := n as char;
    assert n / 64 == 4096 * a + 64 * b + d && n % 64 == e;
    assert n / 4096 == 64 * a + b && (4096 * a + 64 * b + d) % 64 == d;
    assert n / 262144 == a && (64 * a + b) % 64 == b;
  }

  lemma {:induction false} EncodedIsValid(text: string)
    ensures Valid(EncodeAll(text))
  {
    if text != "" {
      EncodedIsChar(text[0], EncodeAll(text[1..]));
      EncodedIsValid(text[1..]);
      assert EncodeAll(text)[|Encode(text[0])|..] == EncodeAll(text[1..]);
    }
  }

  lemma {:induction false} ValidIsEncoded(s: string) returns (text: string)
    requires Valid(s)
    ensures EncodeAll(text) == s
    decreases |s|
  {
    text := "";
    if s != "" {
      var n := CharLength(s);
      var c := CharIsEncoded(s);
      var rest := ValidIsEncoded(s[n..]);
      text := [c] + rest;
      assert text[1..] == rest && s == s[..n] + s[n..];
    }
  }

  /** The valid byte strings are the encodings of texts. */
  lemma ValidIffEncoded(s: string)
    ensures Valid(s) <==> exists text :: EncodeAll(text) == s
  {
    if Valid(s) { var text := ValidIsEncoded(s); }
    forall text | EncodeAll(text) == s ensures Valid(s) { EncodedIsValid(text); }
  }

  // ---------------------------------------------------------------- the lossy conversion

  const REPLACEMENT: string := ['\U{EF}', '\U{BF}', '\U{BD}']

  /** How many bytes that begin no character one replacement stands for. */
  function BadLength(s: string): (n: nat)
    requires s != "" && CharLength(s) == 0
    ensures 1 <= n <= |s|
  {
    var n := Announced(s[0]);
    if n < 3 || |s| < 2 || !IsSecond(s[0], s[1]) then 1
    else if n == 3 || |s| < 3 || !IsContinuation(s[2]) then 2
    else 3
  }

  ghost predicate Begins(p: string) { exists c :: p <= Encode(c) }

  /** One replacement stands for the longest run of bytes that begins a character, or for one byte. */
  lemma ReplacedRun(s: string)
    requires s != "" && CharLength(s) == 0
    ensures BadLength(s) > 1 ==> Begins(s[..BadLength(s)])
    ensures forall k :: BadLength(s) < k <= |s| ==> !Begins(s[..k])
  {
    var n := BadLength(s);
    if n > 1 {
      var t := if Announced(s[0]) == 3 then s[..2] + ['\U{80}']
               else if n == 2 then s[..2] + ['\U{80}', '\U{80}'] else s[..3] + ['\U{80}'];
      var c := CharIsEncoded(t);
      assert s[..n] <= t[..|t|] == Encode(c);
    }
    forall k, c | n < k <= |s| ensures !(s[..k] <= Encode(c)) {
      if s[..k] <= Encode(c) { RunIsWithin(s, k, c); }
    }
  }

  lemma RunIsWithin(s: string, k: nat, c: char)
    requires 0 < k <= |s| && s[..k] <= Encode(c)
    ensures CharLength(s) == 0 ==> BadLength(s) >= k
  {
    var e := Encode(c);
    EncodedIsChar(c, "");
    assert e + "" == e;
    assert forall i :: 0 <= i < k ==> s[i] == s[..k][i] == e[i];
    if k == |e| { CharLengthOfPrefix(e, s); }
  }

  function Lossy(s: string): string
    decreases |s|
  {
    if s == "" then ""
    else
      var n := CharLength(s);
      if n > 0 then s[..n] + Lossy(s[n..]) else REPLACEMENT + Lossy(s[BadLength(s)..])
  }

  lemma ReplacementIsValid()
    ensures Valid(REPLACEMENT) && REPLACEMENT == Encode('\U{FFFD}')
  {
    assert REPLACEMENT[3..] == "";
  }

  lemma OneChar(s: string)
    requires CharLength(s) > 0
    ensures Valid(s[..CharLength(s)])
  {
    var n := CharLength(s);
    CharLengthOfPrefix(s, s[..n]);
    assert s[..n][n..] == "";
  }

  lemma {:induction false} LossyIsValid(s: string)
    ensures Valid(Lossy(s))
    decreases |s|
  {
    if s != "" {
      var n := CharLength(s);
      if n > 0 {
        LossyIsValid(s[n..]);
        OneChar(s);
        ValidAppend(s[..n], Lossy(s[n..]));
      } else {
        LossyIsValid(s[BadLength(s)..]);
        ReplacementIsValid();
        ValidAppend(REPLACEMENT, Lossy(s[BadLength(s)..]));
      }
    }
  }

  lemma {:induction false} ValidIsKept(s: string)
    requires Valid(s)
    ensures Lossy(s) == s
    decreases |s|
  {
    if s != "" {
      ValidIsKept(s[CharLength(s)..]);
    }
  }

  /** The conversion loses something exactly when the bytes are not UTF-8. */
  lemma KeptIffValid(s: string)
    ensures Lossy(s) == s <==> Valid(s)
  {
    hide Valid, Lossy;
    LossyIsValid(s);
    if Valid(s) { ValidIsKept(s); }
  }

  lemma {:induction false} LossyAddsNone(s: string, c: char)
    requires c !in s && IsAscii(c)
    ensures c !in Lossy(s)
    decreases |s|
  {
    if s != "" {
      var n := CharLength(s);
      if n > 0 { LossyAddsNone(s[n..], c); } else { LossyAddsNone(s[BadLength(s)..], c); }
    }
  }
}
