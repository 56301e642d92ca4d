/**
 The `sha256sum`-style manifest as text: how it is written, and how `lines()` and `split_once("  ")` take it apart.
 */
module ManifestText {
  import opened Prelude
  import opened Strings

  // ---------------------------------------------------------------- str::lines

  function StripReturn(line: string): string {
    if line != "" && line[|line| - 1] == '\r' then line[..|line| - 1] else line
  }

  /** A carriage return is dropped before a newline only. */
  function Lines(t: string): seq<string>
    decreases |t|
  {
    if t == "" then []
    else
      var n := IndexOf(t, '\n');
      if n == |t| then [t] else [StripReturn(t[..n])] + Lines(t[n + 1..])
  }

  predicate PlainLine(line: string) { '\n' !in line && line != "" && line[|line| - 1] != '\r' }

  function Unlines(lines: seq<string>): string {
    if lines == [] then "" else lines[0] + "\n" + Unlines(lines[1..])
  }

  lemma LineEndOf(line: string, rest: string)
    requires '\n' !in line
    ensures IndexOf(line + "\n" + rest, '\n') == |line|
  {
    var t := line + "\n" + rest;
    assert t[|line|] == '\n' && forall i :: 0 <= i < |line| ==> t[i] == line[i];
  }

  /** The lines with a newline behind each, or a carriage return and a newline; the last may have none. */
  ghost predicate Spells(t: string, lines: seq<string>)
    decreases |lines|
  {
    if lines == [] then t == ""
    else
      || (|lines| == 1 && t == lines[0])
      || (lines[0] + "\n" <= t && Spells(t[|lines[0]| + 1..], lines[1..]))
      || (lines[0] + "\r\n" <= t && Spells(t[|lines[0]| + 2..], lines[1..]))
  }

  lemma {:induction false} LinesAreSpelled(t: string)
    ensures Spells(t, Lines(t))
    decreases |t|
  {
    var n := IndexOf(t, '\n');
    if n < |t| {
      LinesAreSpelled(t[n + 1..]);
      var line := StripReturn(t[..n]);
      assert t[..n + 1] == t[..n] + "\n" && t[..n + 1] <= t;
      assert t[..n] == line || t[..n] == line + "\r";
      assert line + "\r" + "\n" == line + "\r\n";
      assert Lines(t) == [line] + Lines(t[n + 1..]);
    }
  }

  lemma LineThenRest(line: string, end: string, t: string)
    requires PlainLine(line) && (end == "\n" || end == "\r\n") && line + end <= t
    ensures Lines(t) == [line] + Lines(t[|line + end|..])
  {
    var body := if end == "\n" then line else line + "\r";
    assert body + "\n" == line + end;
    assert t == body + "\n" + t[|line + end|..];
    LineEndOf(body, t[|line + end|..]);
    assert t[..|body|] == body;
  }

  /** Written line by line, the text is read back line by line. */
  lemma {:induction false} LinesOfUnlines(lines: seq<string>)
    requires forall i :: 0 <= i < |lines| ==> PlainLine(lines[i])
    ensures Lines(Unlines(lines)) == lines
  {
    if lines != [] {
      var t := Unlines(lines);
      LineThenRest(lines[0], "\n", t);
      assert t[|lines[0] + "\n"|..] == Unlines(lines[1..]);
      LinesOfUnlines(lines[1..]);
      assert lines == [lines[0]] + lines[1..];
    }
  }

  lemma {:induction false} SpelledAreLines(t: string, lines: seq<string>)
    requires Spells(t, lines) && forall i :: 0 <= i < |lines| ==> PlainLine(lines[i])
    ensures Lines(t) == lines
    decreases |lines|
  {
    hide PlainLine, Lines;
    if lines == [] {
      assert Lines("") == [] by { OneLine(""); }
    } else if lines[0] + "\n" <= t && Spells(t[|lines[0]| + 1..], lines[1..]) {
      LineThenRest(lines[0], "\n", t);
      SpelledAreLines(t[|lines[0]| + 1..], lines[1..]);
    } else if lines[0] + "\r\n" <= t && Spells(t[|lines[0]| + 2..], lines[1..]) {
      LineThenRest(lines[0], "\r\n", t);
      SpelledAreLines(t[|lines[0]| + 2..], lines[1..]);
    } else {
      assert PlainLine(lines[0]);
      OneLine(t);
    }
  }

  lemma OneLine(t: string)
    ensures t == "" ==> Lines(t) == []
    ensures PlainLine(t) ==> Lines(t) == [t]
  {
    assert IndexOf(t, '\n') < |t| ==> t[IndexOf(t, '\n')] in t;
  }

  /** A text has these lines exactly when it spells them. */
  lemma LinesIffSpelled(t: string, lines: seq<string>)
    requires forall i :: 0 <= i < |lines| ==> PlainLine(lines[i])
    ensures Lines(t) == lines <==> Spells(t, lines)
  {
    hide Lines, Spells;
    LinesAreSpelled(t);
    if Spells(t, lines) { SpelledAreLines(t, lines); }
  }

  lemma {:induction false} UnlinesAppend(lines: seq<string>, line: string)
    ensures Unlines(lines + [line]) == Unlines(lines) + (line + "\n")
  {
    if lines == [] {
      assert [line][1..] == [] && lines + [line] == [line];
      assert line + "\n" + "" == "" + (line + "\n");
    } else {
      UnlinesAppend(lines[1..], line);
      assert (lines + [line])[1..] == lines[1..] + [line] && (lines + [line])[0] == lines[0];
      var a, b, c := lines[0] + "\n", Unlines(lines[1..]), line + "\n";
      assert (a + b) + c == a + (b + c);
    }
  }

  // ---------------------------------------------------------------- str::split_once("  ")

  predicate DoubleSpaceAt(line: string, i: nat) { i + 1 < |line| && line[i] == ' ' && line[i + 1] == ' ' }

  function SplitOnce(line: string): (r: Option<(string, string)>)
    ensures r.Some? ==> line == r.value.0 + "  " + r.value.1
    ensures r.Some? ==> forall i :: 0 <= i < |r.value.0| ==> !DoubleSpaceAt(line, i)
    ensures r.None? ==> forall i :: 0 <= i < |line| ==> !DoubleSpaceAt(line, i)
  {
    if |line| < 2 then None
    else if line[0] == ' ' && line[1] == ' ' then
      assert line == "" + "  " + line[2..];
      Some(("", line[2..]))
    else
      var r := SplitOnce(line[1..]);
      assert forall i :: 1 <= i < |line| ==> (DoubleSpaceAt(line, i) <==> DoubleSpaceAt(line[1..], i - 1));
      if r.None? then None
      else
        assert line == ([line[0]] + r.value.0) + "  " + r.value.1;
        Some(([line[0]] + r.value.0, r.value.1))
  }

  /** A digest has no space, so the first double space is the separator. */
  lemma SplitOnceOfEntry(hex: string, name: string)
    requires ' ' !in hex
    ensures SplitOnce(hex + "  " + name) == Some((hex, name))
  {
    var line := hex + "  " + name;
    assert DoubleSpaceAt(line, |hex|);
    assert forall i :: 0 <= i < |hex| ==> line[i] == hex[i] && !DoubleSpaceAt(line, i);
    var (a, b) := SplitOnce(line).value;
    assert line[|a|] == ' ' && line[|a| + 1] == ' ' by { assert line == a + "  " + b; }
    assert |a| == |hex|;
    assert a == line[..|hex|] == hex;
    assert b == line[|hex| + 2..] == name;
  }
}
