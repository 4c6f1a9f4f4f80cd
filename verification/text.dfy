/**
 * The text helpers of lib/text.js: splitting text into lines, measuring and
 * removing common indentation, trimming surrounding blank lines, decoding
 * the three HTML entities the code recognises, cutting text at line
 * numbers, and dropping lines that match a pattern.
 */
module TextLib {
  import opened Base

  /** The characters JavaScript's `trim`, `trimLeft` and `trimRight` remove. */
  predicate IsSpace(c: char)
  {
    c == ' ' || c == '\t' || c == '\n' || c == '\r' || c == '\U{000B}' || c == '\U{000C}' ||
    c == '\U{00A0}' || c == '\U{FEFF}' || c == '\U{1680}' || ('\U{2000}' <= c <= '\U{200A}') ||
    c == '\U{2028}' || c == '\U{2029}' || c == '\U{202F}' || c == '\U{205F}' || c == '\U{3000}'
  }

  // ---------------------------------------------------------------------
  // Lines: `text.split("\n")` and `lines.join("\n")`

  /** `s.split("\n")`: the pieces of `s` between newline characters. */
  function Split(s: string): (lines: seq<string>)
    ensures |lines| >= 1
    ensures forall i :: 0 <= i < |lines| ==> '\n' !in lines[i]
  {
    if s == [] then [""]
    else
      var rest := Split(s[1..]);
      if s[0] == '\n' then [""] + rest
      else [[s[0]] + rest[0]] + rest[1..]
  }

  /** `lines.join("\n")`. */
  function Join(lines: seq<string>): string
  {
    if lines == [] then ""
    else if |lines| == 1 then lines[0]
    else lines[0] + "\n" + Join(lines[1..])
  }

  /** Splitting and joining again gives the original text back. */
  lemma {:induction false} JoinSplit(s: string)
    ensures Join(Split(s)) == s
  {
    if s != [] {
      JoinSplit(s[1..]);
      var rest := Split(s[1..]);
      if s[0] != '\n' {
        if |rest| > 1 {
          assert Join(rest) == rest[0] + "\n" + Join(rest[1..]);
        }
      }
    }
  }

  /** A newline-free prefix becomes part of the first line. */
  lemma {:induction false} SplitPrefix(a: string, b: string)
    requires '\n' !in a
    ensures Split(a + b) == [a + Split(b)[0]] + Split(b)[1..]
  {
    if a != [] {
      assert (a + b)[0] == a[0];
      assert (a + b)[1..] == a[1..] + b;
      SplitPrefix(a[1..], b);
      assert [a[0]] + (a[1..] + Split(b)[0]) == a + Split(b)[0];
    } else {
      assert a + b == b;
      assert a + Split(b)[0] == Split(b)[0];
      assert Split(b) == [Split(b)[0]] + Split(b)[1..];
    }
  }

  /** Joining newline-free lines and splitting again gives the lines back. */
  lemma {:induction false} SplitJoin(lines: seq<string>)
    requires |lines| >= 1
    requires forall i :: 0 <= i < |lines| ==> '\n' !in lines[i]
    ensures Split(Join(lines)) == lines
  {
    if |lines| == 1 {
      SplitPrefix(lines[0], "");
      assert lines[0] + "" == lines[0];
    } else {
      var a, b := lines[0], Join(lines[1..]);
      SplitJoin(lines[1..]);
      assert a + "\n" + b == a + ("\n" + b);
      SplitPrefix(a, "\n" + b);
      assert ("\n" + b)[1..] == b;
      assert a + "" == a;
    }
  }

  /** Joining two non-empty runs of lines puts one newline between them. */
  lemma {:induction false} JoinAppend(a: seq<string>, b: seq<string>)
    requires a != [] && b != []
    ensures Join(a + b) == Join(a) + "\n" + Join(b)
  {
    if |a| > 1 {
      assert (a + b)[1..] == a[1..] + b;
      JoinAppend(a[1..], b);
    } else {
      assert (a + b)[1..] == b;
    }
  }

  // ---------------------------------------------------------------------
  // Trimming and indentation

  /** `s.trimLeft()`. */
  function TrimLeft(s: string): string
  {
    if s != [] && IsSpace(s[0]) then TrimLeft(s[1..]) else s
  }

  /** `s.trimRight()`. */
  function TrimRight(s: string): string
  {
    if s != [] && IsSpace(s[|s| - 1]) then TrimRight(s[..|s| - 1]) else s
  }

  /** trimLeft removes exactly the leading white space. */
  lemma {:induction false} TrimLeftSpec(s: string)
    ensures var r := TrimLeft(s);
            |r| <= |s| && r == s[|s| - |r|..] &&
            (forall i :: 0 <= i < |s| - |r| ==> IsSpace(s[i])) &&
            (r != [] ==> !IsSpace(r[0]))
  {
    if s != [] && IsSpace(s[0]) {
      var t := s[1..];
      TrimLeftSpec(t);
      var r := TrimLeft(t);
      assert TrimLeft(s) == r;
      assert t[|t| - |r|..] == s[|s| - |r|..];
      forall i | 0 <= i < |s| - |r|
        ensures IsSpace(s[i])
      {
        if i > 0 {
          assert s[i] == t[i - 1];
        }
      }
    }
  }

  /** trimRight removes exactly the trailing white space. */
  lemma {:induction false} TrimRightSpec(s: string)
    ensures var r := TrimRight(s);
            |r| <= |s| && r == s[..|r|] &&
            (forall i :: |r| <= i < |s| ==> IsSpace(s[i])) &&
            (r != [] ==> !IsSpace(r[|r| - 1]))
  {
    if s != [] && IsSpace(s[|s| - 1]) {
      var t := s[..|s| - 1];
      TrimRightSpec(t);
      var r := TrimRight(t);
      assert TrimRight(s) == r;
      assert t[..|r|] == s[..|r|];
      forall i | |r| <= i < |s|
        ensures IsSpace(s[i])
      {
        if i < |s| - 1 {
          assert s[i] == t[i];
        }
      }
    }
  }

  /** `line.trim().length === 0`. */
  predicate Blank(line: string)
  {
    |TrimRight(TrimLeft(line))| == 0
  }

  /** The count of leading white space of a line. */
  function Indent(line: string): nat
  {
    if line != [] && IsSpace(line[0]) then 1 + Indent(line[1..]) else 0
  }

  /** minIndent measures a line as `line.length - line.trimLeft().length`. */
  lemma {:induction false} IndentIsTrimmedLength(line: string)
    ensures Indent(line) == |line| - |TrimLeft(line)|
  {
    if line != [] && IsSpace(line[0]) {
      IndentIsTrimmedLength(line[1..]);
    }
  }

  /** A line is blank exactly when it holds nothing but white space. */
  lemma BlankIff(line: string)
    ensures Blank(line) <==> forall i :: 0 <= i < |line| ==> IsSpace(line[i])
  {
    var l := TrimLeft(line);
    TrimLeftSpec(line);
    TrimRightSpec(l);
    if l != [] {
      assert line[|line| - |l|] == l[0];
    }
  }

  /** The indentation is the position of the first non-space character. */
  lemma IndentAt(line: string, d: nat)
    requires d < |line| && !IsSpace(line[d])
    requires forall j :: 0 <= j < d ==> IsSpace(line[j])
    ensures Indent(line) == d && !Blank(line)
  {
    TrimLeftSpec(line);
    IndentIsTrimmedLength(line);
    BlankIff(line);
  }

  /** `reduce` step of minIndent: blank lines leave the minimum unchanged. */
  function MinStep(min: Option<nat>, line: string): Option<nat>
  {
    if Blank(line) then min
    else if min.None? then Some(Indent(line))
    else if Indent(line) < min.value then Some(Indent(line))
    else min
  }

  /** The `reduce` of minIndent over a list of lines, starting from `null`. */
  function MinIndentOf(lines: seq<string>): Option<nat>
  {
    if lines == [] then None
    else MinStep(MinIndentOf(lines[..|lines| - 1]), lines[|lines| - 1])
  }

  /** `m` is the least indentation over the non-blank lines. */
  ghost predicate IsMinIndent(lines: seq<string>, m: nat)
  {
    (exists i :: 0 <= i < |lines| && !Blank(lines[i]) && Indent(lines[i]) == m) &&
    (forall i :: 0 <= i < |lines| && !Blank(lines[i]) ==> m <= Indent(lines[i]))
  }

  /**
   * The reduce of minIndent is `null` exactly when every line is blank, and
   * otherwise the least indentation of a non-blank line.
   */
  lemma {:induction false} MinIndentOfSpec(lines: seq<string>)
    ensures MinIndentOf(lines).None? <==> forall i :: 0 <= i < |lines| ==> Blank(lines[i])
    ensures MinIndentOf(lines).Some? ==> IsMinIndent(lines, MinIndentOf(lines).value)
  {
    if lines != [] {
      var n := |lines| - 1;
      var init, last := lines[..n], lines[n];
      MinIndentOfSpec(init);
      var prev := MinIndentOf(init);
      assert MinIndentOf(lines) == MinStep(prev, last);
      forall i | 0 <= i < n
        ensures init[i] == lines[i]
      {
      }
      if Blank(last) {
        if prev.Some? {
          MinIndentExtends(lines, prev.value);
        }
      } else if prev.None? || Indent(last) < prev.value {
        MinIndentAtLast(lines);
      } else {
        MinIndentExtends(lines, prev.value);
      }
    }
  }

  /** A minimum over all but the last line stays one when the last line does not undercut it. */
  lemma MinIndentExtends(lines: seq<string>, m: nat)
    requires lines != [] && IsMinIndent(lines[..|lines| - 1], m)
    requires Blank(lines[|lines| - 1]) || m <= Indent(lines[|lines| - 1])
    ensures IsMinIndent(lines, m)
  {
    var init := lines[..|lines| - 1];
    var w :| 0 <= w < |init| && !Blank(init[w]) && Indent(init[w]) == m;
    assert lines[w] == init[w];
    forall i | 0 <= i < |lines| && !Blank(lines[i])
      ensures m <= Indent(lines[i])
    {
      if i < |init| {
        assert lines[i] == init[i];
      }
    }
  }

  /** A non-blank last line indented no more than any other non-blank line sets the minimum. */
  lemma MinIndentAtLast(lines: seq<string>)
    requires lines != [] && !Blank(lines[|lines| - 1])
    requires var init := lines[..|lines| - 1];
             (forall i :: 0 <= i < |init| ==> Blank(init[i])) ||
             (MinIndentOf(init).Some? && IsMinIndent(init, MinIndentOf(init).value) &&
              Indent(lines[|lines| - 1]) < MinIndentOf(init).value)
    ensures IsMinIndent(lines, Indent(lines[|lines| - 1]))
  {
    var n := |lines| - 1;
    var init := lines[..n];
    forall i | 0 <= i < |lines| && !Blank(lines[i])
      ensures Indent(lines[n]) <= Indent(lines[i])
    {
      if i < n {
        assert lines[i] == init[i];
      }
    }
  }

  /**
   * `minIndent(text)`: `null` when every line is blank, otherwise the least
   * indentation of a non-blank line.
   */
  function MinIndent(text: string): (r: Option<nat>)
    ensures r.None? <==> forall i :: 0 <= i < |Split(text)| ==> Blank(Split(text)[i])
    ensures r.Some? ==> IsMinIndent(Split(text), r.value)
  {
    MinIndentOfSpec(Split(text));
    MinIndentOf(Split(text))
  }

  /** `s.slice(n)` for a non-negative `n`. */
  function SliceFrom(s: string, n: nat): string
  {
    if n >= |s| then "" else s[n..]
  }

  /** One line of alignIndents: drop `indent` characters, then trim the right. */
  function AlignedLine(line: string, indent: nat): string
  {
    TrimRight(SliceFrom(line, indent))
  }

  /** The indentation alignIndents removes; `slice(null)` slices from 0. */
  function IndentOrZero(text: string): nat
  {
    match MinIndent(text)
    case None => 0
    case Some(m) => m
  }

  /** An aligned line is a piece of the input line, so it holds no newline. */
  lemma AlignedLineNoNewline(line: string, indent: nat)
    requires '\n' !in line
    ensures '\n' !in AlignedLine(line, indent)
  {
    var x := SliceFrom(line, indent);
    var r := TrimRight(x);
    TrimRightSpec(x);
  }

  /**
   * `alignIndents(text)`: every line loses the common indentation and its
   * trailing white space; the number of lines is unchanged.
   */
  function AlignedLines(lines: seq<string>, k: nat): seq<string>
  {
    seq(|lines|, i requires 0 <= i < |lines| => AlignedLine(lines[i], k))
  }

  function AlignIndents(text: string): (r: string)
    ensures Split(r) == AlignedLines(Split(text), IndentOrZero(text))
  {
    var out := AlignedLines(Split(text), IndentOrZero(text));
    AlignIndentsLines(text);
    Join(out)
  }

  lemma AlignIndentsLines(text: string)
    ensures var out := AlignedLines(Split(text), IndentOrZero(text));
            Split(Join(out)) == out
  {
    var lines := Split(text);
    var out := AlignedLines(lines, IndentOrZero(text));
    forall i | 0 <= i < |out| ensures '\n' !in out[i] {
      AlignedLineNoNewline(lines[i], IndentOrZero(text));
    }
    SplitJoin(out);
  }

  /** A non-blank line indented by `d >= k` keeps `d - k` of its indentation. */
  lemma AlignedLineIndent(line: string, k: nat)
    requires !Blank(line) && k <= Indent(line)
    ensures !Blank(AlignedLine(line, k)) && Indent(AlignedLine(line, k)) == Indent(line) - k
  {
    var d := Indent(line);
    TrimLeftSpec(line);
    IndentIsTrimmedLength(line);
    assert d < |line| && !IsSpace(line[d]) by {
      BlankIff(line);
      var l := TrimLeft(line);
      assert line[|line| - |l|] == l[0];
    }
    var x := line[k..];
    assert SliceFrom(line, k) == x;
    var r := TrimRight(x);
    TrimRightSpec(x);
    assert x[d - k] == line[d];
    assert |r| > d - k;
    assert r[d - k] == x[d - k];
    forall j | 0 <= j < d - k ensures IsSpace(r[j]) {
      assert r[j] == x[j] == line[k + j];
    }
    IndentAt(r, d - k);
  }

  /** A blank line stays blank once aligned. */
  lemma AlignedLineBlank(line: string, k: nat)
    requires Blank(line)
    ensures Blank(AlignedLine(line, k))
  {
    BlankIff(line);
    var x := SliceFrom(line, k);
    TrimRightSpec(x);
    assert Blank([]);
  }

  /**
   * After alignIndents the text has no common indentation left: its least
   * indentation is 0, or it is still all blank.
   */
  lemma {:induction false} AlignIndentsRemovesCommonIndent(text: string)
    ensures MinIndent(AlignIndents(text)) == if MinIndent(text).None? then None else Some(0)
  {
    var lines := Split(text);
    var k := IndentOrZero(text);
    assert Split(AlignIndents(text)) == AlignedLines(lines, k);
    if MinIndentOf(lines).None? {
      AlignedAllBlank(lines, k);
    } else {
      assert k == MinIndentOf(lines).value;
      AlignedMinZero(lines);
    }
  }

  /** Lines that are all blank stay all blank once aligned. */
  lemma AlignedAllBlank(lines: seq<string>, k: nat)
    requires MinIndentOf(lines).None?
    ensures MinIndentOf(AlignedLines(lines, k)).None?
  {
    var out := AlignedLines(lines, k);
    MinIndentOfSpec(lines);
    forall i | 0 <= i < |out|
      ensures Blank(out[i])
    {
      AlignedLineBlank(lines[i], k);
    }
    MinIndentOfSpec(out);
  }

  /** Removing the least indentation leaves a non-blank line at indentation 0. */
  lemma AlignedMinZero(lines: seq<string>)
    requires MinIndentOf(lines).Some?
    ensures MinIndentOf(AlignedLines(lines, MinIndentOf(lines).value)) == Some(0)
  {
    var k := MinIndentOf(lines).value;
    var out := AlignedLines(lines, k);
    MinIndentOfSpec(lines);
    var w :| 0 <= w < |lines| && !Blank(lines[w]) && Indent(lines[w]) == k;
    AlignedLineIndent(lines[w], k);
    assert !Blank(out[w]) && Indent(out[w]) == 0;
    MinIndentOfSpec(out);
    var mo := MinIndentOf(out);
    assert mo.Some?;
    assert mo.value <= Indent(out[w]);
  }

  // ---------------------------------------------------------------------
  // cleanText

  /** `text` after `while (text[0] === "\n") text = text.slice(1)`. */
  function DropLeadingNewlines(s: string): string
  {
    if s != [] && s[0] == '\n' then DropLeadingNewlines(s[1..]) else s
  }

  /** Only newlines are dropped at the front, and the rest does not start with one. */
  lemma {:induction false} DropLeadingNewlinesSpec(s: string)
    ensures var r := DropLeadingNewlines(s);
            |r| <= |s| && r == s[|s| - |r|..] &&
            (forall i :: 0 <= i < |s| - |r| ==> s[i] == '\n') &&
            (r != [] ==> r[0] != '\n')
  {
    if s != [] && s[0] == '\n' {
      var t := s[1..];
      DropLeadingNewlinesSpec(t);
      var r := DropLeadingNewlines(t);
      assert DropLeadingNewlines(s) == r;
      assert t[|t| - |r|..] == s[|s| - |r|..];
      forall i | 0 <= i < |s| - |r|
        ensures s[i] == '\n'
      {
        if i > 0 {
          assert s[i] == t[i - 1];
        }
      }
    }
  }

  /** `text` after `while (text[text.length-1] === "\n") text = text.slice(0, -1)`. */
  function DropTrailingNewlines(s: string): string
  {
    if s != [] && s[|s| - 1] == '\n' then DropTrailingNewlines(s[..|s| - 1]) else s
  }

  /** Only newlines are dropped at the back, and the rest does not end with one. */
  lemma {:induction false} DropTrailingNewlinesSpec(s: string)
    ensures var r := DropTrailingNewlines(s);
            |r| <= |s| && r == s[..|r|] &&
            (forall i :: |r| <= i < |s| ==> s[i] == '\n') &&
            (r != [] ==> r[|r| - 1] != '\n')
  {
    if s != [] && s[|s| - 1] == '\n' {
      var t := s[..|s| - 1];
      DropTrailingNewlinesSpec(t);
      var r := DropTrailingNewlines(t);
      assert DropTrailingNewlines(s) == r;
      assert t[..|r|] == s[..|r|];
      forall i | |r| <= i < |s|
        ensures s[i] == '\n'
      {
        if i < |s| - 1 {
          assert s[i] == t[i];
        }
      }
    }
  }

  /** `s.replace(/pat/g, rep)`: every match, scanned left to right without overlap. */
  function ReplaceAll(s: string, pat: string, rep: string): (r: string)
    requires pat != []
    ensures |rep| <= |pat| ==> |r| <= |s|
    decreases |s|
  {
    if |s| < |pat| then s
    else if s[..|pat|] == pat then rep + ReplaceAll(s[|pat|..], pat, rep)
    else [s[0]] + ReplaceAll(s[1..], pat, rep)
  }

  /**
   * The entity decoding of cleanText: `&gt;`, then `&lt;`, then `&amp;`.
   * Each entity shrinks to one character, so the text never grows.
   */
  function DecodeEntities(s: string): (r: string)
    ensures |r| <= |s|
  {
    ReplaceAll(ReplaceAll(ReplaceAll(s, "&gt;", ">"), "&lt;", "<"), "&amp;", "&")
  }

  /** The last character survives replacement, as long as it is not a newline. */
  lemma {:induction false} ReplaceAllKeepsLast(s: string, pat: string, rep: string)
    requires pat != [] && rep != [] && '\n' !in rep
    requires s != [] && s[|s| - 1] != '\n'
    ensures var r := ReplaceAll(s, pat, rep); r != [] && r[|r| - 1] != '\n'
    decreases |s|
  {
    if |s| < |pat| {
    } else if s[..|pat|] == pat {
      var rest := s[|pat|..];
      if rest != [] {
        assert rest[|rest| - 1] == s[|s| - 1];
        ReplaceAllKeepsLast(rest, pat, rep);
      } else {
        assert rep[|rep| - 1] in rep;
      }
    } else {
      var rest := s[1..];
      if rest != [] {
        ReplaceAllKeepsLast(rest, pat, rep);
      }
    }
  }

  /**
   * Replacing with a newline-free replacement neither empties a string nor
   * puts a newline at either end of it.
   */
  lemma ReplaceAllKeepsEnds(s: string, pat: string, rep: string)
    requires pat != [] && rep != [] && '\n' !in rep
    requires s != [] && s[0] != '\n' && s[|s| - 1] != '\n'
    ensures var r := ReplaceAll(s, pat, rep); r != [] && r[0] != '\n' && r[|r| - 1] != '\n'
  {
    ReplaceAllKeepsLast(s, pat, rep);
    if |s| >= |pat| && s[..|pat|] == pat {
      assert rep[0] in rep;
    }
  }

  /** The pattern occurs in `s` at position `i`. */
  predicate MatchAt(s: string, pat: string, i: nat)
  {
    i + |pat| <= |s| && s[i..i + |pat|] == pat
  }

  /** Text holding no match of the pattern is left as it is. */
  lemma {:induction false} ReplaceAllNoMatch(s: string, pat: string, rep: string)
    requires pat != []
    requires forall i: nat :: !MatchAt(s, pat, i)
    ensures ReplaceAll(s, pat, rep) == s
    decreases |s|
  {
    if |s| >= |pat| {
      assert !MatchAt(s, pat, 0);
      assert s[0..|pat|] == s[..|pat|];
      forall i: nat ensures !MatchAt(s[1..], pat, i) {
        if i + |pat| <= |s[1..]| {
          assert s[1..][i..i + |pat|] == s[i + 1..i + 1 + |pat|];
          assert !MatchAt(s, pat, i + 1);
        }
      }
      ReplaceAllNoMatch(s[1..], pat, rep);
    }
  }

  /** Entity decoding never creates a newline at either end, nor empties the text. */
  lemma DecodeEntitiesKeepsEnds(s: string)
    requires s != [] && s[0] != '\n' && s[|s| - 1] != '\n'
    ensures var r := DecodeEntities(s); r != [] && r[0] != '\n' && r[|r| - 1] != '\n'
  {
    ReplaceAllKeepsEnds(s, "&gt;", ">");
    var a := ReplaceAll(s, "&gt;", ">");
    ReplaceAllKeepsEnds(a, "&lt;", "<");
    var b := ReplaceAll(a, "&lt;", "<");
    ReplaceAllKeepsEnds(b, "&amp;", "&");
  }

  /** Because `&amp;` is decoded last, `&amp;lt;` decodes to `&lt;`, not to `<`. */
  lemma AmpersandDecodedLast()
    ensures DecodeEntities("&amp;lt;") == "&lt;"
  {
    var s := "&amp;lt;";
    forall i: nat ensures !MatchAt(s, "&gt;", i) && !MatchAt(s, "&lt;", i) {
      if i + 4 <= |s| {
        assert s[i..i + 4][0] == s[i] && s[i..i + 4][1] == s[i + 1];
      }
    }
    ReplaceAllNoMatch(s, "&gt;", ">");
    ReplaceAllNoMatch(s, "&lt;", "<");
    assert s[..5] == "&amp;";
    assert s[5..] == "lt;";
    assert ReplaceAll("lt;", "&amp;", "&") == "lt;";
  }

  /**
   * `cleanText(text, type)`: aligns the indentation, strips newlines from
   * both ends, decodes entities when `type` is "html", and ends the result
   * with exactly one newline.
   */
  method CleanText(text: string, kind: string) returns (r: string)
    ensures var body := DropTrailingNewlines(DropLeadingNewlines(AlignIndents(text)));
            r == (if kind == "html" then DecodeEntities(body) else body) + "\n"
    ensures |r| >= 1 && r[|r| - 1] == '\n'
    ensures |r| > 1 ==> r[0] != '\n' && r[|r| - 2] != '\n'
  {
    var t := AlignIndents(text);
    ghost var aligned := t;
    while |t| > 0 && t[0] == '\n'
      invariant DropLeadingNewlines(t) == DropLeadingNewlines(aligned)
    {
      t := t[1..];
    }
    ghost var lead := t;
    while |t| > 0 && t[|t| - 1] == '\n'
      invariant DropTrailingNewlines(t) == DropTrailingNewlines(lead)
    {
      t := t[..|t| - 1];
    }
    assert t == DropTrailingNewlines(DropLeadingNewlines(aligned));
    StrippedEnds(aligned);
    CleanedEnds(t, kind);
    if kind == "html" {
      t := DecodeEntities(t);
    }
    r := t + "\n";
  }

  /** Stripping newlines from both ends leaves none at either end. */
  lemma StrippedEnds(s: string)
    ensures var body := DropTrailingNewlines(DropLeadingNewlines(s));
            body != [] ==> body[0] != '\n' && body[|body| - 1] != '\n'
  {
    var lead := DropLeadingNewlines(s);
    DropLeadingNewlinesSpec(s);
    DropTrailingNewlinesSpec(lead);
    var body := DropTrailingNewlines(lead);
    if body != [] {
      assert body[0] == lead[0];
    }
  }

  /** The ends of the cleaned text: one final newline, and none around the body. */
  lemma CleanedEnds(body: string, kind: string)
    requires body != [] ==> body[0] != '\n' && body[|body| - 1] != '\n'
    ensures var r := (if kind == "html" then DecodeEntities(body) else body) + "\n";
            |r| >= 1 && r[|r| - 1] == '\n' &&
            (|r| > 1 ==> r[0] != '\n' && r[|r| - 2] != '\n')
  {
    var t := if kind == "html" then DecodeEntities(body) else body;
    if body != [] {
      DecodeEntitiesKeepsEnds(body);
    } else {
      assert DecodeEntities(body) == [];
    }
    var r := t + "\n";
    assert r[..|t|] == t;
  }

  // ---------------------------------------------------------------------
  // splitLines

  /** JavaScript's normalisation of a `slice` index against a length. */
  function ClampIndex(n: int, len: nat): (k: nat)
    ensures k <= len
    ensures 0 <= n <= len ==> k == n
  {
    if n < 0 then (if len + n < 0 then 0 else len + n)
    else if n > len then len
    else n
  }

  /**
   * `splitLines(text, lines)`: cuts `text` before each line number, the last
   * number first; the text before a cut gets a newline back.
   */
  function SplitLines(text: string, points: seq<int>): (pieces: seq<string>)
    ensures |pieces| == |points| + 1
    ensures points == [] ==> pieces == [text]
    decreases |points|
  {
    if points == [] then [text]
    else
      var t := Split(text);
      var k := ClampIndex(points[|points| - 1], |t|);
      SplitLines(Join(t[..k]) + "\n", points[..|points| - 1]) + [Join(t[k..])]
  }

  /** The in-order concatenation of pieces. */
  function Concat(pieces: seq<string>): string
  {
    if pieces == [] then "" else Concat(pieces[..|pieces| - 1]) + pieces[|pieces| - 1]
  }

  /** Strictly ascending line numbers strictly between 0 and `n`. */
  predicate ValidCuts(points: seq<int>, n: nat)
  {
    (forall i :: 0 <= i < |points| ==> 0 < points[i] < n) &&
    (forall i, j :: 0 <= i < j < |points| ==> points[i] < points[j])
  }

  predicate EndsInNewline(s: string)
  {
    |s| > 0 && s[|s| - 1] == '\n'
  }

  /** Text ending in a newline splits into its lines and a final empty line. */
  lemma SplitWithNewline(before: seq<string>)
    requires before != []
    requires forall i :: 0 <= i < |before| ==> '\n' !in before[i]
    ensures Split(Join(before) + "\n") == before + [""]
  {
    JoinAppend(before, [""]);
    assert Join([""]) == "";
    assert Join(before) + "\n" + "" == Join(before) + "\n";
    SplitJoin(before + [""]);
  }

  /**
   * For valid cut points, the pieces of splitLines concatenate back to the
   * text, and every piece but the last ends in a newline.
   */
  lemma {:induction false} SplitLinesRoundTrip(text: string, points: seq<int>)
    requires ValidCuts(points, |Split(text)|)
    ensures Concat(SplitLines(text, points)) == text
    ensures forall i :: 0 <= i < |points| ==> EndsInNewline(SplitLines(text, points)[i])
    decreases |points|
  {
    if points != [] {
      var t := Split(text);
      var p := points[|points| - 1];
      var init := points[..|points| - 1];
      assert ClampIndex(p, |t|) == p;
      var before, after := t[..p], t[p..];
      var text' := Join(before) + "\n";
      SplitWithNewline(before);
      assert ValidCuts(init, |Split(text')|);
      SplitLinesRoundTrip(text', init);
      var pieces := SplitLines(text, points);
      var rec := SplitLines(text', init);
      assert pieces == rec + [Join(after)];
      assert pieces[..|pieces| - 1] == rec;
      // the text is restored
      JoinAppend(before, after);
      assert before + after == t;
      JoinSplit(text);
      LastCutEndsInNewline(before, init);
    }
  }

  /** Dropping a prefix of `a` commutes with appending `b`. */
  lemma DropThenAppend<T>(a: seq<T>, b: seq<T>, q: nat)
    requires q <= |a|
    ensures (a + b)[q..] == a[q..] + b
  {
  }

  /** The last piece of splitLines is the text from the last cut on. */
  lemma SplitLinesLast(text: string, points: seq<int>)
    requires points != []
    ensures var t := Split(text);
            SplitLines(text, points)[|points|] == Join(t[ClampIndex(points[|points| - 1], |t|)..])
  {
  }

  /**
   * When the text before the last cut is split again at smaller line
   * numbers, its own last piece still ends in the newline given back.
   */
  lemma LastCutEndsInNewline(before: seq<string>, init: seq<int>)
    requires before != []
    requires forall i :: 0 <= i < |before| ==> '\n' !in before[i]
    requires forall i :: 0 <= i < |init| ==> 0 < init[i] < |before|
    ensures EndsInNewline(SplitLines(Join(before) + "\n", init)[|init|])
  {
    var text' := Join(before) + "\n";
    if init != [] {
      var t' := Split(text');
      SplitWithNewline(before);
      var q := init[|init| - 1];
      assert 0 < q < |before|;
      assert ClampIndex(q, |t'|) == q;
      var tail := before[q..];
      DropThenAppend(before, [""], q);
      JoinAppend(tail, [""]);
      assert Join([""]) == "";
      assert EndsInNewline(Join(t'[q..]));
      SplitLinesLast(text', init);
    }
  }

  // ---------------------------------------------------------------------
  // filterLines

  /** The lines the pattern does not match, in their original order. */
  function Unmatched(lines: seq<string>, matches: string -> bool): seq<string>
  {
    if lines == [] then []
    else
      var last := lines[|lines| - 1];
      Unmatched(lines[..|lines| - 1], matches) + (if matches(last) then [] else [last])
  }

  /** A line is kept exactly when it is one of the input lines and does not match. */
  lemma {:induction false} UnmatchedMembers(lines: seq<string>, matches: string -> bool, l: string)
    ensures l in Unmatched(lines, matches) <==> l in lines && !matches(l)
  {
    if lines != [] {
      var init, last := lines[..|lines| - 1], lines[|lines| - 1];
      UnmatchedMembers(init, matches, l);
      assert lines == init + [last];
    }
  }

  /** Filtering lines without newlines keeps lines without newlines. */
  lemma UnmatchedHasNoNewline(lines: seq<string>, matches: string -> bool)
    requires forall i :: 0 <= i < |lines| ==> '\n' !in lines[i]
    ensures forall l :: l in Unmatched(lines, matches) ==> '\n' !in l
  {
    forall l | l in Unmatched(lines, matches) ensures '\n' !in l {
      UnmatchedMembers(lines, matches, l);
    }
  }

  /**
   * `filterLines(text, re)`: the text without the lines that match `re`.
   * The lines of the result are exactly the unmatched lines, in order, or
   * the result is empty when every line matches.
   */
  function FilterLines(text: string, matches: string -> bool): (r: string)
    ensures var kept := Unmatched(Split(text), matches);
            if kept == [] then r == "" else Split(r) == kept
  {
    var kept := Unmatched(Split(text), matches);
    UnmatchedHasNoNewline(Split(text), matches);
    if kept == [] then Join(kept) else SplitJoin(kept); Join(kept)
  }

  /** Lines no pattern matches are all kept. */
  lemma {:induction false} UnmatchedKeepsAll(lines: seq<string>, matches: string -> bool)
    requires forall i :: 0 <= i < |lines| ==> !matches(lines[i])
    ensures Unmatched(lines, matches) == lines
  {
    if lines != [] {
      var n := |lines| - 1;
      assert forall i :: 0 <= i < n ==> lines[..n][i] == lines[i];
      UnmatchedKeepsAll(lines[..n], matches);
      assert lines == lines[..n] + [lines[n]];
    }
  }

  /** Filtering twice with the same pattern is the same as filtering once. */
  lemma FilterLinesIdempotent(text: string, matches: string -> bool)
    ensures FilterLines(FilterLines(text, matches), matches) == FilterLines(text, matches)
  {
    var once := FilterLines(text, matches);
    var kept := Unmatched(Split(text), matches);
    if kept == [] {
      assert Split("") == [""];
      assert Unmatched([""], matches) == if matches("") then [] else [""] by {
        assert [""][..0] == [];
      }
    } else {
      forall i | 0 <= i < |kept| ensures !matches(kept[i]) {
        UnmatchedMembers(Split(text), matches, kept[i]);
      }
      UnmatchedKeepsAll(kept, matches);
    }
  }
}
