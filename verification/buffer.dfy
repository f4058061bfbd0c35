/** The host editor's document as the plugin sees it: an array of lines
    (none of them holding a line break) addressed by `{line, ch}` positions,
    together with the flat text those lines spell out when joined by "\n".
    Every edit the plugin makes is a range replacement, specified here once
    and related to the flat text. */
module Buffer {

  /** An editor position: a line index and a column (`EditorPosition`). */
  datatype Pos = Pos(line: nat, ch: nat)

  /** No element holds a line break. */
  predicate NoBreaks(ls: seq<string>)
  {
    forall i :: 0 <= i < |ls| ==> '\n' !in ls[i]
  }

  /** A document always has at least one (possibly empty) line. */
  predicate WellFormed(lines: seq<string>)
  {
    |lines| > 0 && NoBreaks(lines)
  }

  predicate ValidPos(lines: seq<string>, p: Pos)
  {
    p.line < |lines| && p.ch <= |lines[p.line]|
  }

  /** Document order on positions. */
  predicate Le(p: Pos, q: Pos)
  {
    p.line < q.line || (p.line == q.line && p.ch <= q.ch)
  }

  function Min(p: Pos, q: Pos): (r: Pos)
    ensures Le(r, p) && Le(r, q) && (r == p || r == q)
  {
    if Le(p, q) then p else q
  }

  function Max(p: Pos, q: Pos): (r: Pos)
    ensures Le(p, r) && Le(q, r) && (r == p || r == q)
  {
    if Le(p, q) then q else p
  }

  /** The host's clipping of a position into the document: a line past the
      end goes to the end of the last line, a column past the end of its
      line goes to the end of that line. */
  function Clip(lines: seq<string>, p: Pos): (r: Pos)
    requires |lines| > 0
    ensures ValidPos(lines, r)
    ensures ValidPos(lines, p) ==> r == p
    ensures p.line < |lines| ==> r.line == p.line && r.ch == (if p.ch <= |lines[p.line]| then p.ch else |lines[p.line]|)
  {
    if p.line >= |lines| then Pos(|lines| - 1, |lines[|lines| - 1]|)
    else if p.ch <= |lines[p.line]| then p
    else Pos(p.line, |lines[p.line]|)
  }

  /** The flat text: the lines joined by "\n". */
  function Text(lines: seq<string>): string
  {
    if |lines| == 0 then ""
    else if |lines| == 1 then lines[0]
    else lines[0] + "\n" + Text(lines[1..])
  }

  /** The text begins with the first line. */
  lemma TextFirstLine(ls: seq<string>)
    requires |ls| > 0
    ensures |ls[0]| <= |Text(ls)| && Text(ls)[..|ls[0]|] == ls[0]
  {
  }

  /** Two runs of lines laid end to end in one text: the last line of `a`
      and the first line of `b` become one line. */
  function Glue(a: seq<string>, b: seq<string>): (r: seq<string>)
    requires |a| > 0 && |b| > 0
    ensures |r| == |a| + |b| - 1
    ensures NoBreaks(a) && NoBreaks(b) ==> NoBreaks(r)
  {
    var r := a[..|a| - 1] + [a[|a| - 1] + b[0]] + b[1..];
    assert forall i :: 0 <= i < |r| ==> r[i] == (if i < |a| - 1 then a[i] else if i == |a| - 1 then a[|a| - 1] + b[0] else b[i - |a| + 1]);
    r
  }

  lemma {:induction false} TextGlue(a: seq<string>, b: seq<string>)
    requires |a| > 0 && |b| > 0
    ensures Text(Glue(a, b)) == Text(a) + Text(b)
  {
    if |a| == 1 {
      var x := a[0] + b[0];
      assert Glue(a, b) == [x] + b[1..];
      if |b| > 1 {
        assert ([x] + b[1..])[1..] == b[1..];
      }
    } else {
      assert Glue(a, b) == [a[0]] + Glue(a[1..], b);
      assert Glue(a, b)[1..] == Glue(a[1..], b);
      TextGlue(a[1..], b);
    }
  }

  /** The host's splitting of inserted text into lines at each "\n". */
  function Split(s: string): (r: seq<string>)
    ensures |r| > 0 && NoBreaks(r)
    ensures '\n' !in s ==> r == [s]
  {
    if |s| == 0 then [""]
    else if s[0] == '\n' then
      var rest := Split(s[1..]);
      assert NoBreaks([""] + rest) by {
        assert forall i :: 0 < i < |rest| + 1 ==> ([""] + rest)[i] == rest[i - 1];
      }
      [""] + rest
    else
      var rest := Split(s[1..]);
      assert '\n' !in [s[0]];
      assert '\n' !in s ==> '\n' !in s[1..] && [s[0]] + s[1..] == s;
      Glue([[s[0]]], rest)
  }

  lemma {:induction false} TextSplit(s: string)
    ensures Text(Split(s)) == s
  {
    if |s| == 0 {
    } else if s[0] == '\n' {
      TextSplit(s[1..]);
      var rest := Split(s[1..]);
      assert ([""] + rest)[1..] == rest;
    } else {
      TextSplit(s[1..]);
      TextGlue([[s[0]]], Split(s[1..]));
      assert [s[0]] + s[1..] == s;
    }
  }

  /** Splitting a line-free prefix off the front of a text. */
  lemma {:induction false} SplitPrefix(a: string, t: string)
    requires '\n' !in a
    ensures Split(a + t) == Glue([a], Split(t))
  {
    if |a| == 0 {
      var st := Split(t);
      assert a + t == t;
      assert a + st[0] == st[0];
      assert [st[0]] + st[1..] == st;
    } else {
      assert (a + t)[0] == a[0];
      assert (a + t)[1..] == a[1..] + t;
      SplitPrefix(a[1..], t);
      var st := Split(t);
      assert [a[0]] + (a[1..] + st[0]) == a + st[0];
    }
  }

  /** Joining and splitting are inverse on line-free lines, so the flat
      text determines the lines of a well-formed document. */
  lemma {:induction false} SplitText(lines: seq<string>)
    requires WellFormed(lines)
    ensures Split(Text(lines)) == lines
  {
    if |lines| > 1 {
      var rest := lines[1..];
      assert WellFormed(rest) by {
        assert forall i :: 0 <= i < |rest| ==> rest[i] == lines[i + 1];
      }
      SplitText(rest);
      var t := "\n" + Text(rest);
      assert Text(lines) == lines[0] + t;
      SplitPrefix(lines[0], t);
      assert t[0] == '\n' && t[1..] == Text(rest);
      assert Split(t) == [""] + rest;
      assert lines[0] + "" == lines[0];
      assert Glue([lines[0]], [""] + rest) == [lines[0]] + rest;
      assert [lines[0]] + rest == lines;
    }
  }

  lemma TextInjective(a: seq<string>, b: seq<string>)
    requires WellFormed(a) && WellFormed(b) && Text(a) == Text(b)
    ensures a == b
  {
    SplitText(a);
    SplitText(b);
  }

  /** The lines up to `p`, ending with the part of line `p.line` before `p.ch`. */
  function LinesBefore(lines: seq<string>, p: Pos): (r: seq<string>)
    requires ValidPos(lines, p)
    ensures |r| == p.line + 1
  {
    lines[..p.line] + [lines[p.line][..p.ch]]
  }

  /** The lines from `p` on, starting with the part of line `p.line` from `p.ch`. */
  function LinesAfter(lines: seq<string>, p: Pos): (r: seq<string>)
    requires ValidPos(lines, p)
    ensures |r| == |lines| - p.line
  {
    [lines[p.line][p.ch..]] + lines[p.line + 1..]
  }

  lemma GlueAt(lines: seq<string>, p: Pos)
    requires ValidPos(lines, p)
    ensures Glue(LinesBefore(lines, p), LinesAfter(lines, p)) == lines
  {
    assert lines[p.line][..p.ch] + lines[p.line][p.ch..] == lines[p.line];
    assert lines[..p.line] + [lines[p.line]] + lines[p.line + 1..] == lines;
  }

  /** The linear offset of a position (`posToOffset`): the text before it
      is exactly the first `r` characters, the text from it the rest. */
  function Offset(lines: seq<string>, p: Pos): (r: nat)
    requires ValidPos(lines, p)
    ensures r <= |Text(lines)|
    ensures Text(lines)[..r] == Text(LinesBefore(lines, p))
    ensures Text(lines)[r..] == Text(LinesAfter(lines, p))
  {
    GlueAt(lines, p);
    TextGlue(LinesBefore(lines, p), LinesAfter(lines, p));
    |Text(LinesBefore(lines, p))|
  }

  /** Offsets follow document order; on one line they differ by the
      distance in columns. */
  lemma {:induction false} OffsetMonotone(lines: seq<string>, p: Pos, q: Pos)
    requires ValidPos(lines, p) && ValidPos(lines, q) && Le(p, q)
    ensures Offset(lines, p) <= Offset(lines, q)
    ensures p.line == q.line ==> Offset(lines, q) == Offset(lines, p) + (q.ch - p.ch)
  {
    var bp := LinesBefore(lines, p);
    var bq := LinesBefore(lines, q);
    var mid: seq<string>;
    if p.line == q.line {
      var a := lines[p.line];
      mid := [a[p.ch..q.ch]];
      assert a[..p.ch] + a[p.ch..q.ch] == a[..q.ch];
    } else {
      mid := [lines[p.line][p.ch..]] + lines[p.line + 1..q.line] + [lines[q.line][..q.ch]];
      assert lines[p.line][..p.ch] + lines[p.line][p.ch..] == lines[p.line];
      assert lines[..p.line] + [lines[p.line]] + lines[p.line + 1..q.line] == lines[..q.line];
    }
    assert Glue(bp, mid) == bq;
    TextGlue(bp, mid);
  }

  /** The text between two ordered positions (`getRange`). */
  function Range(lines: seq<string>, p: Pos, q: Pos): (r: string)
    requires ValidPos(lines, p) && ValidPos(lines, q) && Le(p, q)
    ensures Text(lines) == Text(lines)[..Offset(lines, p)] + r + Text(lines)[Offset(lines, q)..]
    ensures |r| == Offset(lines, q) - Offset(lines, p)
  {
    OffsetMonotone(lines, p, q);
    var t := Text(lines);
    var a, b := Offset(lines, p), Offset(lines, q);
    assert t == t[..a] + t[a..b] + t[b..];
    t[a..b]
  }

  /** The host's range replacement (`replaceRange(s, from, to)`): the text
      between `from` and `to` gives way to `s`, split into lines. */
  function Replace(lines: seq<string>, from: Pos, to: Pos, s: string): (r: seq<string>)
    requires ValidPos(lines, from) && ValidPos(lines, to) && Le(from, to)
    ensures WellFormed(lines) ==> WellFormed(r)
  {
    var head := Glue(LinesBefore(lines, from), Split(s));
    assert NoBreaks(lines) ==> NoBreaks(LinesBefore(lines, from)) && NoBreaks(LinesAfter(lines, to)) by {
      if NoBreaks(lines) {
        assert '\n' !in lines[from.line][..from.ch] by {
          assert forall c :: c in lines[from.line][..from.ch] ==> c in lines[from.line];
        }
        assert '\n' !in lines[to.line][to.ch..] by {
          assert forall c :: c in lines[to.line][to.ch..] ==> c in lines[to.line];
        }
      }
    }
    Glue(head, LinesAfter(lines, to))
  }

  /** A replacement leaves the text before `from`, then `s`, then the text
      after `to`. */
  lemma ReplaceText(lines: seq<string>, from: Pos, to: Pos, s: string)
    requires ValidPos(lines, from) && ValidPos(lines, to) && Le(from, to)
    ensures Text(Replace(lines, from, to, s))
         == Text(lines)[..Offset(lines, from)] + s + Text(lines)[Offset(lines, to)..]
  {
    var head := Glue(LinesBefore(lines, from), Split(s));
    TextGlue(LinesBefore(lines, from), Split(s));
    TextSplit(s);
    TextGlue(head, LinesAfter(lines, to));
  }

  /** Where the inserted text ends once `s` is put at `from`: the host
      leaves the cursor here after `replaceSelection`. */
  function InsertEnd(lines: seq<string>, from: Pos, s: string): (r: Pos)
    requires ValidPos(lines, from)
    ensures '\n' !in s ==> r == Pos(from.line, from.ch + |s|)
    ensures r.line >= from.line
  {
    var head := Glue(LinesBefore(lines, from), Split(s));
    Pos(|head| - 1, |head[|head| - 1]|)
  }

  /** The end of an insertion lies in the new document, exactly `|s|`
      characters after its start. */
  lemma InsertEndOffset(lines: seq<string>, from: Pos, to: Pos, s: string)
    requires ValidPos(lines, from) && ValidPos(lines, to) && Le(from, to)
    ensures ValidPos(Replace(lines, from, to, s), InsertEnd(lines, from, s))
    ensures Offset(Replace(lines, from, to, s), InsertEnd(lines, from, s)) == Offset(lines, from) + |s|
  {
    var head := Glue(LinesBefore(lines, from), Split(s));
    var r := Replace(lines, from, to, s);
    var e := InsertEnd(lines, from, s);
    var n := |head|;
    assert r[n - 1] == head[n - 1] + lines[to.line][to.ch..];
    assert LinesBefore(r, e) == head by {
      assert r[..n - 1] == head[..n - 1];
      assert r[n - 1][..e.ch] == head[n - 1];
    }
    TextGlue(LinesBefore(lines, from), Split(s));
    TextSplit(s);
    assert Offset(lines, from) == |Text(LinesBefore(lines, from))|;
  }

  /** After deleting the range from `from` to `to`, `from` is still a
      position of the document, and the text around it is the text that
      lay before `from` and after `to`. */
  lemma DeleteAround(lines: seq<string>, from: Pos, to: Pos)
    requires ValidPos(lines, from) && ValidPos(lines, to) && Le(from, to)
    ensures InsertEnd(lines, from, "") == from
    ensures ValidPos(Replace(lines, from, to, ""), from)
    ensures Offset(Replace(lines, from, to, ""), from) == Offset(lines, from)
    ensures Text(Replace(lines, from, to, ""))[..Offset(lines, from)] == Text(lines)[..Offset(lines, from)]
    ensures Text(Replace(lines, from, to, ""))[Offset(lines, from)..] == Text(lines)[Offset(lines, to)..]
  {
    InsertEndOffset(lines, from, to, "");
    ReplaceText(lines, from, to, "");
    var t := Text(lines);
    var a, b := Offset(lines, from), Offset(lines, to);
    var td := Text(Replace(lines, from, to, ""));
    assert td == t[..a] + "" + t[b..];
    assert |t[..a]| == a;
    assert td[..a] == t[..a];
    assert td[a..] == t[b..];
  }

  /** Deleting a range and putting its text back restores the document. */
  lemma DeleteThenInsert(lines: seq<string>, from: Pos, to: Pos)
    requires WellFormed(lines) && ValidPos(lines, from) && ValidPos(lines, to) && Le(from, to)
    ensures ValidPos(Replace(lines, from, to, ""), from)
    ensures Replace(Replace(lines, from, to, ""), from, from, Range(lines, from, to)) == lines
  {
    var d := Replace(lines, from, to, "");
    DeleteAround(lines, from, to);
    var m := Range(lines, from, to);
    var r := Replace(d, from, from, m);
    ReplaceText(d, from, from, m);
    var t := Text(lines);
    var a, b := Offset(lines, from), Offset(lines, to);
    assert Text(r) == t[..a] + m + t[b..];
    TextInjective(r, lines);
  }

  /** `setLine(n, s)` with a line-free `s` changes line `n` and no other. */
  lemma SetLineIsUpdate(lines: seq<string>, n: nat, s: string)
    requires n < |lines| && '\n' !in s
    ensures Replace(lines, Pos(n, 0), Pos(n, |lines[n]|), s) == lines[n := s]
  {
    var before := LinesBefore(lines, Pos(n, 0));
    var after := LinesAfter(lines, Pos(n, |lines[n]|));
    assert before == lines[..n] + [""];
    assert lines[n][|lines[n]|..] == "";
    assert after == [""] + lines[n + 1..];
    assert "" + s == s && s + "" == s;
    assert Glue(before, Split(s)) == lines[..n] + [s];
    assert Glue(lines[..n] + [s], after) == lines[..n] + [s] + lines[n + 1..];
    assert lines[..n] + [s] + lines[n + 1..] == lines[n := s];
  }

  /** Deleting from a position to the end of its line keeps the part of the
      line before it and every other line. */
  lemma DeleteToLineEnd(lines: seq<string>, p: Pos)
    requires ValidPos(lines, p)
    ensures Replace(lines, p, Pos(p.line, |lines[p.line]|), "") == lines[p.line := lines[p.line][..p.ch]]
  {
    var n := p.line;
    var kept := lines[n][..p.ch];
    var before := LinesBefore(lines, p);
    var after := LinesAfter(lines, Pos(n, |lines[n]|));
    assert lines[n][|lines[n]|..] == "";
    assert after == [""] + lines[n + 1..];
    assert kept + "" == kept;
    assert Glue(before, Split("")) == before;
    assert Glue(before, after) == lines[..n] + [kept] + lines[n + 1..];
    assert lines[..n] + [kept] + lines[n + 1..] == lines[n := kept];
  }

  /** Line `l` lies in the flat text from the offset of its first column
      on. */
  lemma {:induction false} LineInText(lines: seq<string>, l: nat)
    requires l < |lines|
    ensures var a := Offset(lines, Pos(l, 0));
            a + |lines[l]| <= |Text(lines)| && Text(lines)[a..a + |lines[l]|] == lines[l]
  {
    var a := Offset(lines, Pos(l, 0));
    var after := LinesAfter(lines, Pos(l, 0));
    assert after == [lines[l]] + lines[l + 1..];
    TextFirstLine(after);
    assert Text(lines)[a..] == Text(after);
    assert Text(lines)[a..a + |lines[l]|] == Text(after)[..|lines[l]|];
  }

  /** A piece of a line-free stretch of a text is line-free. */
  lemma {:induction false} NoBreakSlice(t: string, a: nat, line: string, i: nat, j: nat)
    requires a + |line| <= |t| && t[a..a + |line|] == line && '\n' !in line && i <= j <= |line|
    ensures '\n' !in t[a + i..a + j]
  {
    forall k | 0 <= k < j - i
      ensures t[a + i..a + j][k] == line[i..j][k]
    {
      assert t[a + i + k] == t[a..a + |line|][i + k];
    }
    assert t[a + i..a + j] == line[i..j];
    assert forall c :: c in line[i..j] ==> c in line;
  }

  /** A position's offset is its line's first offset plus its column. */
  lemma {:induction false} ColumnOffset(lines: seq<string>, p: Pos)
    requires ValidPos(lines, p)
    ensures Offset(lines, p) == Offset(lines, Pos(p.line, 0)) + p.ch
  {
    OffsetMonotone(lines, Pos(p.line, 0), p);
  }

  /** Between two positions on one line of a well-formed document the
      flat text holds no line break. */
  lemma {:induction false} LineFragment(lines: seq<string>, p: Pos, q: Pos)
    requires WellFormed(lines) && ValidPos(lines, p) && ValidPos(lines, q)
    requires p.line == q.line && p.ch <= q.ch
    ensures Offset(lines, p) <= Offset(lines, q)
    ensures '\n' !in Text(lines)[Offset(lines, p)..Offset(lines, q)]
  {
    var l := p.line;
    var a := Offset(lines, Pos(l, 0));
    ColumnOffset(lines, p);
    ColumnOffset(lines, q);
    LineInText(lines, l);
    assert '\n' !in lines[l];
    NoBreakSlice(Text(lines), a, lines[l], p.ch, q.ch);
  }

  /** Ending a text with an empty line appends a line break. */
  lemma {:induction false} TextEmptyLast(b: seq<string>)
    requires |b| > 0
    ensures Text(b + [""]) == Text(b) + "\n"
  {
    assert Glue(b, ["", ""]) == b + [""] by {
      assert b[|b| - 1] + "" == b[|b| - 1];
      assert b[..|b| - 1] + [b[|b| - 1]] == b;
      assert ["", ""][1..] == [""];
    }
    TextGlue(b, ["", ""]);
    assert ["", ""][1..] == [""];
    assert Text(["", ""]) == "" + "\n" + "";
  }

  /** The first column of a line is the start of the text or just after a
      line break. */
  lemma {:induction false} LineStartOffset(lines: seq<string>, l: nat)
    requires l < |lines|
    ensures var a := Offset(lines, Pos(l, 0));
            (l == 0 ==> a == 0) && (l > 0 ==> a > 0 && Text(lines)[a - 1] == '\n')
  {
    var a := Offset(lines, Pos(l, 0));
    var t := Text(lines);
    assert lines[l][..0] == "";
    assert LinesBefore(lines, Pos(l, 0)) == lines[..l] + [""];
    if l > 0 {
      TextEmptyLast(lines[..l]);
      assert t[..a] == Text(lines[..l]) + "\n";
      assert t[a - 1] == t[..a][a - 1];
    } else {
      assert lines[..0] + [""] == [""];
    }
  }

  /** The last column of a line is the end of the text or just before a
      line break. */
  lemma {:induction false} LineEndOffset(lines: seq<string>, l: nat)
    requires l < |lines|
    ensures var b := Offset(lines, Pos(l, |lines[l]|));
            (l + 1 == |lines| ==> b == |Text(lines)|)
            && (l + 1 < |lines| ==> b < |Text(lines)| && Text(lines)[b] == '\n')
  {
    var b := Offset(lines, Pos(l, |lines[l]|));
    var after := LinesAfter(lines, Pos(l, |lines[l]|));
    assert lines[l][|lines[l]|..] == "";
    assert after == [""] + lines[l + 1..];
    if l + 1 < |lines| {
      assert after[1..] == lines[l + 1..];
      assert Text(after) == "" + "\n" + Text(lines[l + 1..]);
      assert Text(lines)[b] == Text(lines)[b..][0];
    }
  }

  /** The range CodeMirror 6's `deleteLine` removes for line `l`: the line
      with the line break before it, or, on the first line, with the one
      after it; a lone line is only emptied. */
  function DeleteLineRange(lines: seq<string>, l: nat): (r: (Pos, Pos))
    requires l < |lines|
    ensures ValidPos(lines, r.0) && ValidPos(lines, r.1) && Le(r.0, r.1)
    ensures l > 0 ==> Le(r.0, Pos(l, 0)) && r.1 == Pos(l, |lines[l]|)
    ensures l == 0 ==> r.0 == Pos(0, 0) && Le(Pos(0, |lines[0]|), r.1)
  {
    if l > 0 then (Pos(l - 1, |lines[l - 1]|), Pos(l, |lines[l]|))
    else if l + 1 < |lines| then (Pos(0, 0), Pos(1, 0))
    else (Pos(0, 0), Pos(0, |lines[0]|))
  }

  /** Deleting the range `DeleteLineRange` gives: the line is gone and
      every other line is kept; a document of one line becomes one empty
      line. */
  lemma {:induction false} DeleteLineLines(lines: seq<string>, l: nat)
    requires l < |lines|
    ensures var range := DeleteLineRange(lines, l);
            Replace(lines, range.0, range.1, "") == if |lines| > 1 then lines[..l] + lines[l + 1..] else [""]
  {
    var range := DeleteLineRange(lines, l);
    var before := LinesBefore(lines, range.0);
    var after := LinesAfter(lines, range.1);
    assert Glue(before, Split("")) == before by {
      assert before[|before| - 1] + "" == before[|before| - 1];
      assert before[..|before| - 1] + [before[|before| - 1]] == before;
    }
    if l > 0 {
      assert lines[l - 1][..|lines[l - 1]|] == lines[l - 1];
      assert lines[..l - 1] + [lines[l - 1]] == lines[..l];
      assert before == lines[..l];
      assert lines[l][|lines[l]|..] == "";
      assert after == [""] + lines[l + 1..];
      assert lines[l - 1] + "" == lines[l - 1];
      assert lines[..l - 1] + [lines[l - 1]] + lines[l + 1..] == lines[..l] + lines[l + 1..];
    } else if l + 1 < |lines| {
      assert before == [""];
      assert after == [lines[1]] + lines[2..];
      assert "" + lines[1] == lines[1];
      assert [lines[1]] + lines[2..] == lines[1..];
    } else {
      assert before == [""];
      assert lines[0][|lines[0]|..] == "";
      assert after == [""];
    }
  }

  /** The document after `deleteLine` on line `l`. */
  function DeleteLine(lines: seq<string>, l: nat): (r: seq<string>)
    requires l < |lines|
    ensures WellFormed(lines) ==> WellFormed(r)
    ensures |lines| > 1 ==> r == lines[..l] + lines[l + 1..]
    ensures |lines| == 1 ==> r == [""]
  {
    var range := DeleteLineRange(lines, l);
    DeleteLineLines(lines, l);
    Replace(lines, range.0, range.1, "")
  }

  /** Where `deleteLine` leaves a cursor that was at column `ch` of line
      `l`: one line down, mapped through the deletion. Below it that is the
      same column of the line that moves up; on the last line it is the
      end of the text, which the deletion maps to the end of the line
      above. */
  function DeleteLineCursor(lines: seq<string>, l: nat, ch: nat): (p: Pos)
    requires l < |lines|
    ensures ValidPos(DeleteLine(lines, l), p)
    ensures l + 1 < |lines| ==> p.line == l && p.ch <= ch
    ensures l + 1 == |lines| && l > 0 ==> p == Pos(l - 1, |lines[l - 1]|)
    ensures |lines| == 1 ==> p == Pos(0, 0)
  {
    if l + 1 < |lines| then Pos(l, if ch <= |lines[l + 1]| then ch else |lines[l + 1]|)
    else if l > 0 then Pos(l - 1, |lines[l - 1]|)
    else Pos(0, 0)
  }
}
