/** The plugin's commands as functions on one snapshot of everything they
    read and write: the host document, the host selection (whose head is the
    cursor), the plugin's mark `selectFrom`, and the system clipboard. The
    methods of `Emacs.EmacsPlugin` are proved to produce exactly these
    results. */
module Session {
  import opened Buffer

  datatype Option<T> = None | Some(value: T)

  /** What the callback handed to `withSelectionUpdate` does. */
  datatype Motion =
    | HostMotion(dest: Pos)  // editor.exec("goRight"), "goWordLeft", "goDown", "goStart", ...: the host picks `dest`
    | EndOfLine              // move-end-of-line's callback
    | BeginningOfLine        // move-beginning-of-line's callback

  datatype View = View(lines: seq<string>, anchor: Pos, head: Pos, mark: Option<Pos>, clipboard: string)

  /** Every position of the snapshot lies in its document. */
  predicate Consistent(v: View)
  {
    WellFormed(v.lines) && ValidPos(v.lines, v.anchor) && ValidPos(v.lines, v.head)
    && (v.mark.Some? ==> ValidPos(v.lines, v.mark.value))
  }

  /** The host selection is in step with the mark: with a mark it runs from
      the mark to the cursor, without one it is the cursor alone. */
  predicate InStep(v: View)
  {
    if v.mark.Some? then v.anchor == v.mark.value else v.anchor == v.head
  }

  /** The selected text (`getSelection`). */
  function Selected(v: View): string
    requires Consistent(v)
  {
    Range(v.lines, Min(v.anchor, v.head), Max(v.anchor, v.head))
  }

  /** `disableSelection`: drop the mark and collapse the selection onto the
      cursor. Only the document and the cursor need be sound: the source
      also calls it right after an edit, when the mark may be stale. */
  function DisableSelection(v: View): (r: View)
    requires WellFormed(v.lines) && ValidPos(v.lines, v.head)
    ensures Consistent(r) && InStep(r) && r.mark.None?
    ensures r.anchor == v.head && r.head == v.head
    ensures r.lines == v.lines && r.clipboard == v.clipboard
  {
    v.(anchor := v.head, mark := None)
  }

  /** `updateSelectionIsNeed`: with a mark, stretch the selection from the
      mark to the cursor; without one, leave everything alone. */
  function UpdateSelectionIfNeeded(v: View): (r: View)
    requires Consistent(v)
    ensures Consistent(r) && r.head == v.head && r.lines == v.lines && r.mark == v.mark
    ensures r.clipboard == v.clipboard
    ensures v.mark.Some? ==> InStep(r)
    ensures v.mark.None? ==> r == v
  {
    if v.mark.Some? then v.(anchor := v.mark.value) else v
  }

  /** Where a motion puts the cursor. move-beginning-of-line goes back to
      the start of the text or the nearest line break, move-end-of-line
      forward to the end of the text or the nearest line break, neither
      crossing one. */
  function Target(v: View, m: Motion): (p: Pos)
    requires Consistent(v)
    ensures ValidPos(v.lines, p)
    ensures m.BeginningOfLine? ==>
              p.line == v.head.line && p.ch == 0
              && (Offset(v.lines, p) == 0 || Text(v.lines)[Offset(v.lines, p) - 1] == '\n')
              && Offset(v.lines, p) <= Offset(v.lines, v.head)
              && '\n' !in Text(v.lines)[Offset(v.lines, p)..Offset(v.lines, v.head)]
    ensures m.EndOfLine? ==>
              p.line == v.head.line && p.ch == |v.lines[p.line]|
              && (Offset(v.lines, p) == |Text(v.lines)| || Text(v.lines)[Offset(v.lines, p)] == '\n')
              && Offset(v.lines, v.head) <= Offset(v.lines, p)
              && '\n' !in Text(v.lines)[Offset(v.lines, v.head)..Offset(v.lines, p)]
  {
    match m
    case HostMotion(dest) => Clip(v.lines, dest)
    case EndOfLine =>
      var l := v.head.line;
      LineEndOffset(v.lines, l);
      LineFragment(v.lines, v.head, Pos(l, |v.lines[l]|));
      Pos(l, |v.lines[l]|)
    case BeginningOfLine =>
      var l := v.head.line;
      LineStartOffset(v.lines, l);
      LineFragment(v.lines, Pos(l, 0), v.head);
      Pos(l, 0)
  }

  /** The callback alone: the cursor moves and the selection collapses on it. */
  function Move(v: View, m: Motion): (r: View)
    requires Consistent(v)
  {
    var t := Target(v, m);
    v.(anchor := t, head := t)
  }

  /** `withSelectionUpdate`: run a motion and, when a mark is set, select
      from the mark to the new cursor. The collapse the source performs
      before the callback does not change where the callback goes, since
      every motion starts from the cursor. */
  function WithSelectionUpdate(v: View, m: Motion): (r: View)
    requires Consistent(v)
    ensures Consistent(r) && r.lines == v.lines && r.mark == v.mark && r.clipboard == v.clipboard
    ensures r.head == Target(v, m)
    ensures v.mark.Some? ==> r.anchor == v.mark.value
    ensures v.mark.None? ==> r == Move(v, m) && r.anchor == r.head
  {
    UpdateSelectionIfNeeded(Move(v, m))
  }

  /** `withDeleteInText`: run a host motion, then delete the text between
      the cursor before and the cursor after it, in whichever order they
      come; the cursor ends at the earlier of the two. */
  function WithDeleteInText(v: View, dest: Pos): (r: View)
    requires Consistent(v)
    ensures WellFormed(r.lines) && ValidPos(r.lines, r.head) && r.anchor == r.head
    ensures r.mark == v.mark && r.clipboard == v.clipboard
    ensures var after := Clip(v.lines, dest);
            var lo, hi := Min(v.head, after), Max(v.head, after);
            r.head == lo
            && Text(r.lines) == Text(v.lines)[..Offset(v.lines, lo)] + Text(v.lines)[Offset(v.lines, hi)..]
    ensures v.mark.None? ==> Consistent(r)
  {
    var before := v.head;
    var after := Clip(v.lines, dest);
    var lo, hi := Min(before, after), Max(before, after);
    DeleteAround(v.lines, lo, hi);
    ReplaceText(v.lines, lo, hi, "");
    v.(lines := Replace(v.lines, lo, hi, ""), anchor := lo, head := lo)
  }

  /** kill-line: with the cursor on a non-empty line, keep only the part of
      the line before the cursor and put the cursor back; on an empty line,
      let the host's `deleteLine` remove the line. The mark is dropped. The
      clipboard is not touched. */
  function KillLine(v: View): (r: View)
    requires Consistent(v)
    ensures Consistent(r) && InStep(r) && r.mark.None? && r.clipboard == v.clipboard
    ensures var l := v.head.line; var line := v.lines[l];
            (line != "" ==> r.lines == v.lines[l := line[..v.head.ch]] && r.head == v.head)
            && (line == "" && |v.lines| > 1 ==> r.lines == v.lines[..l] + v.lines[l + 1..])
            && (line == "" && |v.lines| == 1 ==> r.lines == v.lines && r.head == v.head)
            && (line == "" && l + 1 < |v.lines| ==> r.head == v.head)
            && (line == "" && l + 1 == |v.lines| && l > 0 ==> r.head == Pos(l - 1, |v.lines[l - 1]|))
  {
    var u := DisableSelection(v);
    var c := u.head;
    var line := u.lines[c.line];
    if line == "" then
      var p := DeleteLineCursor(u.lines, c.line, c.ch);
      u.(lines := DeleteLine(u.lines, c.line), anchor := p, head := p)
    else
      var kept := line[..c.ch];
      assert '\n' !in kept by {
        assert forall x :: x in kept ==> x in line;
      }
      SetLineIsUpdate(u.lines, c.line, kept);
      u.(lines := Replace(u.lines, Pos(c.line, 0), Pos(c.line, |line|), kept), anchor := c, head := c)
  }

  /** kill-line on a non-empty line removes exactly the text from the cursor
      to the end of the line. */
  lemma KillLineText(v: View)
    requires Consistent(v) && v.lines[v.head.line] != ""
    ensures var end := Pos(v.head.line, |v.lines[v.head.line]|);
            Text(KillLine(v).lines)
            == Text(v.lines)[..Offset(v.lines, v.head)] + Text(v.lines)[Offset(v.lines, end)..]
  {
    var end := Pos(v.head.line, |v.lines[v.head.line]|);
    DeleteToLineEnd(v.lines, v.head);
    ReplaceText(v.lines, v.head, end, "");
  }

  /** kill-ring-save: with a mark, copy the selection to the clipboard and
      drop the mark; without one, do nothing. */
  function KillRingSave(v: View): (r: View)
    requires Consistent(v)
    ensures Consistent(r)
    ensures v.mark.None? ==> r == v
    ensures v.mark.Some? ==>
              r.clipboard == Range(v.lines, Min(v.anchor, v.head), Max(v.anchor, v.head))
              && r.lines == v.lines && r.mark.None? && r.anchor == v.head && r.head == v.head
  {
    if v.mark.None? then v
    else DisableSelection(v.(clipboard := Selected(v)))
  }

  /** kill-region: with a mark, move the selected text to the clipboard,
      cut it out of the document and drop the mark; without one, do
      nothing. */
  function KillRegion(v: View): (r: View)
    requires Consistent(v)
    ensures Consistent(r)
    ensures v.mark.None? ==> r == v
    ensures v.mark.Some? ==>
              var lo, hi := Min(v.anchor, v.head), Max(v.anchor, v.head);
              r.clipboard == Range(v.lines, lo, hi)
              && Text(r.lines) == Text(v.lines)[..Offset(v.lines, lo)] + Text(v.lines)[Offset(v.lines, hi)..]
              && r.mark.None? && r.anchor == lo && r.head == lo
  {
    if v.mark.None? then v
    else
      var lo, hi := Min(v.anchor, v.head), Max(v.anchor, v.head);
      DeleteAround(v.lines, lo, hi);
      ReplaceText(v.lines, lo, hi, "");
      var cut := v.(clipboard := Selected(v), lines := Replace(v.lines, lo, hi, ""), anchor := lo, head := lo);
      DisableSelection(cut)
  }

  /** yank: insert the clipboard at the cursor, or over the selection when a
      mark is set (dropping the mark), then put the cursor on the line it was
      on, `|clipboard|` columns further right, as far as that line allows. */
  function Yank(v: View): (r: View)
    requires Consistent(v)
    ensures Consistent(r) && InStep(r) && r.mark.None? && r.clipboard == v.clipboard
    ensures v.mark.None? ==>
              Text(r.lines) == Text(v.lines)[..Offset(v.lines, v.head)] + v.clipboard + Text(v.lines)[Offset(v.lines, v.head)..]
    ensures v.mark.Some? ==>
              var lo, hi := Min(v.anchor, v.head), Max(v.anchor, v.head);
              Text(r.lines) == Text(v.lines)[..Offset(v.lines, lo)] + v.clipboard + Text(v.lines)[Offset(v.lines, hi)..]
    ensures r.head == Clip(r.lines, Pos(v.head.line, v.head.ch + |v.clipboard|))
  {
    var range := YankRange(v);
    var from, to := range.0, range.1;
    ReplaceText(v.lines, from, to, v.clipboard);
    var lines' := Replace(v.lines, from, to, v.clipboard);
    var p := Clip(lines', Pos(v.head.line, v.head.ch + |v.clipboard|));
    View(lines', p, p, None, v.clipboard)
  }

  /** The range yank replaces: the cursor alone, or the selection when a
      mark is set. */
  function YankRange(v: View): (r: (Pos, Pos))
    requires Consistent(v)
    ensures ValidPos(v.lines, r.0) && ValidPos(v.lines, r.1) && Le(r.0, r.1)
  {
    if v.mark.None? then (v.head, v.head) else (Min(v.anchor, v.head), Max(v.anchor, v.head))
  }

  /** set-mark-command: without a mark, set it at the cursor and leave the
      selection alone; with one, drop it and collapse the selection. */
  function SetMarkCommand(v: View): (r: View)
    requires Consistent(v)
    ensures Consistent(r) && r.lines == v.lines && r.head == v.head && r.clipboard == v.clipboard
    ensures v.mark.None? ==> r.mark == Some(v.head) && r.anchor == v.anchor
    ensures v.mark.Some? ==> r.mark.None? && r.anchor == v.head
  {
    if v.mark.None? then v.(mark := Some(v.head)) else DisableSelection(v)
  }

  /** Pressing set-mark-command twice from the no-mark state drops the mark
      again and leaves the selection collapsed on the cursor; when the
      selection already was, the state is exactly as before. */
  lemma SetMarkTwice(v: View)
    requires Consistent(v) && v.mark.None?
    ensures SetMarkCommand(SetMarkCommand(v)) == DisableSelection(v)
    ensures InStep(v) ==> SetMarkCommand(SetMarkCommand(v)) == v
  {
    var once := SetMarkCommand(v);
    assert once.mark == Some(v.head) && once.head == v.head;
  }

  /** kill-region with a mark leaves the document with the region deleted,
      the cursor at its start and the region's text on the clipboard. */
  lemma KillRegionCuts(v: View)
    requires Consistent(v) && v.mark.Some?
    ensures var lo, hi := Min(v.anchor, v.head), Max(v.anchor, v.head);
            var k := KillRegion(v);
            k == View(Replace(v.lines, lo, hi, ""), lo, lo, None, Range(v.lines, lo, hi))
  {
  }

  /** yank without a mark inserts the clipboard at the cursor. */
  lemma YankInserts(v: View)
    requires Consistent(v) && v.mark.None?
    ensures var lines' := Replace(v.lines, v.head, v.head, v.clipboard);
            var p := Clip(lines', Pos(v.head.line, v.head.ch + |v.clipboard|));
            Yank(v) == View(lines', p, p, None, v.clipboard)
  {
  }

  /** A killed region yanked back at once restores the document, and when
      the region lay within one line the cursor ends where the region did. */
  lemma KillRegionThenYank(v: View)
    requires Consistent(v) && v.mark.Some?
    ensures Yank(KillRegion(v)).lines == v.lines
    ensures var lo, hi := Min(v.anchor, v.head), Max(v.anchor, v.head);
            lo.line == hi.line ==> Yank(KillRegion(v)).head == hi
  {
    var lo, hi := Min(v.anchor, v.head), Max(v.anchor, v.head);
    KillRegionCuts(v);
    var k := KillRegion(v);
    DeleteThenInsert(v.lines, lo, hi);
    YankInserts(k);
    if lo.line == hi.line {
      OffsetMonotone(v.lines, lo, hi);
      assert |k.clipboard| == hi.ch - lo.ch;
    }
  }

  /** With no mark and a clipboard holding no line break, yank leaves the
      cursor right after the inserted text. */
  lemma YankCursorAfterText(v: View)
    requires Consistent(v) && v.mark.None? && '\n' !in v.clipboard
    ensures Offset(Yank(v).lines, Yank(v).head) == Offset(v.lines, v.head) + |v.clipboard|
  {
    var c := v.head;
    InsertEndOffset(v.lines, c, c, v.clipboard);
    assert InsertEnd(v.lines, c, v.clipboard) == Pos(c.line, c.ch + |v.clipboard|);
  }
}
