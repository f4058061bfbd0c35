/** The host editor the plugin drives, reduced to the calls the plugin
    makes. The cursor is the head of the selection; positions handed to the
    host are clipped into the document, as the host does. */
module Host {
  import opened Buffer

  class Editor {
    var lines: seq<string>
    var anchor: Pos
    var head: Pos

    ghost predicate Valid()
      reads this
    {
      WellFormed(lines) && ValidPos(lines, anchor) && ValidPos(lines, head)
    }

    /** `getCursor()`. */
    function GetCursor(): Pos
      reads this
    {
      head
    }

    /** `getLine(n)`. */
    function GetLine(n: nat): string
      reads this
      requires n < |lines|
    {
      lines[n]
    }

    /** `getSelection()`: the text between anchor and head, in document order. */
    function GetSelection(): string
      reads this
      requires Valid()
    {
      Range(lines, Min(anchor, head), Max(anchor, head))
    }

    /** `setSelection(anchor, head)`. */
    method SetSelection(a: Pos, h: Pos)
      requires Valid()
      modifies this
      ensures Valid() && lines == old(lines)
      ensures anchor == Clip(lines, a) && head == Clip(lines, h)
    {
      anchor, head := Clip(lines, a), Clip(lines, h);
    }

    /** `setCursor(pos)`: the selection collapses onto the clipped position. */
    method SetCursor(p: Pos)
      requires Valid()
      modifies this
      ensures Valid() && lines == old(lines)
      ensures anchor == Clip(lines, p) && head == Clip(lines, p)
    {
      anchor, head := Clip(lines, p), Clip(lines, p);
    }

    /** `setLine(n, s)`: line `n` is replaced by `s`. */
    method SetLine(n: nat, s: string)
      requires Valid() && n < |lines|
      modifies this
      ensures Valid()
      ensures lines == Replace(old(lines), Pos(n, 0), Pos(n, |old(lines)[n]|), s)
      ensures anchor == Clip(lines, old(anchor)) && head == Clip(lines, old(head))
    {
      lines := Replace(lines, Pos(n, 0), Pos(n, |lines[n]|), s);
      anchor, head := Clip(lines, anchor), Clip(lines, head);
    }

    /** `replaceRange(s, p)`: `s` is inserted at `p`. */
    method ReplaceRange(s: string, p: Pos)
      requires Valid()
      modifies this
      ensures Valid()
      ensures lines == Replace(old(lines), Clip(old(lines), p), Clip(old(lines), p), s)
      ensures anchor == Clip(lines, old(anchor)) && head == Clip(lines, old(head))
    {
      var q := Clip(lines, p);
      lines := Replace(lines, q, q, s);
      anchor, head := Clip(lines, anchor), Clip(lines, head);
    }

    /** `replaceSelection(s)`: the selected text gives way to `s` and the
        cursor lands at the end of the inserted text. */
    method ReplaceSelection(s: string)
      requires Valid()
      modifies this
      ensures Valid()
      ensures var lo, hi := Min(old(anchor), old(head)), Max(old(anchor), old(head));
              lines == Replace(old(lines), lo, hi, s)
              && anchor == InsertEnd(old(lines), lo, s) && head == anchor
    {
      var lo, hi := Min(anchor, head), Max(anchor, head);
      InsertEndOffset(lines, lo, hi, s);
      var e := InsertEnd(lines, lo, s);
      lines := Replace(lines, lo, hi, s);
      anchor, head := e, e;
    }

    /** `exec("goRight")`, `exec("goWordLeft")` and the other host motions:
        the cursor goes where the host decides, given here as `dest`. */
    method ExecMotion(dest: Pos)
      requires Valid()
      modifies this
      ensures Valid() && lines == old(lines)
      ensures anchor == Clip(lines, dest) && head == Clip(lines, dest)
    {
      anchor, head := Clip(lines, dest), Clip(lines, dest);
    }

    /** `exec("deleteLine")`, as CodeMirror 6 performs it: the cursor's line
        is removed together with an adjacent line break, and the cursor
        moves one line down and then through the deletion. */
    method ExecDeleteLine()
      requires Valid()
      modifies this
      ensures Valid()
      ensures var l := old(head).line;
              lines == DeleteLine(old(lines), l)
              && head == DeleteLineCursor(old(lines), l, old(head).ch) && anchor == head
    {
      var l := head.line;
      var p := DeleteLineCursor(lines, l, head.ch);
      lines := DeleteLine(lines, l);
      anchor, head := p, p;
    }
  }
}
