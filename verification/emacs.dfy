/** The plugin object: the mark `selectFrom`, the selection helpers and the
    editing commands, driving a host editor. Each method is proved to
    leave the editor, the mark and the clipboard exactly as the matching
    function of `Session` says. */
module Emacs {
  import opened Buffer
  import opened Host
  import S = Session
  import C = Commands

  class EmacsPlugin {
    /** The mark: where the selection started, when one is being made. */
    var selectFrom: S.Option<Pos>
    /** The system clipboard's text. */
    var clipboard: string

    /** A freshly loaded plugin has no mark; the clipboard holds whatever
        the system clipboard held at that moment. */
    constructor (systemClipboard: string)
      ensures selectFrom == S.None && clipboard == systemClipboard
    {
      selectFrom := S.None;
      clipboard := systemClipboard;
    }

    /** Everything the commands read and write, as one value. */
    ghost function Snapshot(ed: Editor): S.View
      reads this, ed
    {
      S.View(ed.lines, ed.anchor, ed.head, selectFrom, clipboard)
    }

    ghost predicate Valid(ed: Editor)
      reads this, ed
    {
      ed.Valid() && S.Consistent(Snapshot(ed))
    }

    method DisableSelection(ed: Editor)
      requires ed.Valid()
      modifies this, ed
      ensures Valid(ed) && Snapshot(ed) == S.DisableSelection(old(Snapshot(ed)))
    {
      ed.SetSelection(ed.GetCursor(), ed.GetCursor());
      selectFrom := S.None;
    }

    /** `updateSelectionIsNeed`. */
    method UpdateSelectionIfNeeded(ed: Editor)
      requires Valid(ed)
      modifies ed
      ensures Valid(ed) && Snapshot(ed) == S.UpdateSelectionIfNeeded(old(Snapshot(ed)))
    {
      if selectFrom == S.None {
        return;
      }
      ed.SetSelection(selectFrom.value, ed.GetCursor());
    }

    /** The callback a motion command hands to `withSelectionUpdate`. */
    method RunMotion(ed: Editor, m: S.Motion)
      requires Valid(ed)
      modifies ed
      ensures Valid(ed) && Snapshot(ed) == S.Move(old(Snapshot(ed)), m)
    {
      match m
      case HostMotion(dest) =>
        ed.ExecMotion(dest);
      case EndOfLine =>
        var cursor := ed.GetCursor();
        var lineContent := ed.GetLine(cursor.line);
        ed.SetCursor(Pos(cursor.line, |lineContent|));
      case BeginningOfLine =>
        var cursor := ed.GetCursor();
        ed.SetCursor(Pos(cursor.line, 0));
    }

    method WithSelectionUpdate(ed: Editor, m: S.Motion)
      requires Valid(ed)
      modifies ed
      ensures Valid(ed) && Snapshot(ed) == S.WithSelectionUpdate(old(Snapshot(ed)), m)
    {
      if selectFrom != S.None {
        ed.SetSelection(ed.GetCursor(), ed.GetCursor());
      }
      RunMotion(ed, m);
      UpdateSelectionIfNeeded(ed);
    }

    method WithDeleteInText(ed: Editor, dest: Pos)
      requires Valid(ed)
      modifies ed
      ensures ed.Valid() && Snapshot(ed) == S.WithDeleteInText(old(Snapshot(ed)), dest)
    {
      var cursorBefore := ed.GetCursor();
      ed.ExecMotion(dest);
      var cursorAfter := ed.GetCursor();
      ed.SetSelection(cursorBefore, cursorAfter);
      ed.ReplaceSelection("");
    }

    method KillLine(ed: Editor)
      requires Valid(ed)
      modifies this, ed
      ensures Valid(ed) && Snapshot(ed) == S.KillLine(old(Snapshot(ed)))
    {
      DisableSelection(ed);
      var cursor := ed.GetCursor();
      var lineContent := ed.GetLine(cursor.line);
      if lineContent == "" {
        ed.ExecDeleteLine();
      } else {
        var kept := lineContent[..cursor.ch];
        assert '\n' !in kept by {
          assert forall x :: x in kept ==> x in lineContent;
        }
        SetLineIsUpdate(ed.lines, cursor.line, kept);
        ed.SetLine(cursor.line, kept);
        ed.SetCursor(cursor);
      }
    }

    /** delete-char, kill-word and backward-kill-word: each drops the mark and
        deletes across one host motion (`goRight`, `goWordRight`,
        `goWordLeft`), whose destination is `dest`. */
    method DeleteByMotion(ed: Editor, dest: Pos)
      requires Valid(ed)
      modifies this, ed
      ensures Valid(ed)
      ensures Snapshot(ed) == S.WithDeleteInText(S.DisableSelection(old(Snapshot(ed))), dest)
    {
      DisableSelection(ed);
      WithDeleteInText(ed, dest);
    }

    method KillRingSave(ed: Editor)
      requires Valid(ed)
      modifies this, ed
      ensures Valid(ed) && Snapshot(ed) == S.KillRingSave(old(Snapshot(ed)))
    {
      if selectFrom == S.None {
        return;
      }
      clipboard := ed.GetSelection();
      DisableSelection(ed);
    }

    method KillRegion(ed: Editor)
      requires Valid(ed)
      modifies this, ed
      ensures Valid(ed) && Snapshot(ed) == S.KillRegion(old(Snapshot(ed)))
    {
      if selectFrom == S.None {
        return;
      }
      clipboard := ed.GetSelection();
      ed.ReplaceSelection("");
      DisableSelection(ed);
    }

    method Yank(ed: Editor)
      requires Valid(ed)
      modifies this, ed
      ensures Valid(ed) && Snapshot(ed) == S.Yank(old(Snapshot(ed)))
    {
      ghost var v := Snapshot(ed);
      ghost var range := S.YankRange(v);
      var clipboardContent := clipboard;
      var cursor := ed.GetCursor();
      if selectFrom == S.None {
        ed.ReplaceRange(clipboardContent, cursor);
      } else {
        ed.ReplaceSelection(clipboardContent);
        DisableSelection(ed);
      }
      assert ed.lines == Replace(v.lines, range.0, range.1, v.clipboard);
      ed.SetCursor(Pos(cursor.line, cursor.ch + |clipboardContent|));
    }

    method SetMarkCommand(ed: Editor)
      requires Valid(ed)
      modifies this, ed
      ensures Valid(ed) && Snapshot(ed) == S.SetMarkCommand(old(Snapshot(ed)))
    {
      if selectFrom == S.None {
        selectFrom := S.Some(ed.GetCursor());
      } else {
        DisableSelection(ed);
      }
    }

    /** The editor callbacks registered for the plugin's commands. */
    method Execute(ed: Editor, a: C.Action)
      requires Valid(ed)
      modifies this, ed
      ensures Valid(ed) && Snapshot(ed) == C.Step(old(Snapshot(ed)), a)
    {
      if C.IsMotion(a) {
        WithSelectionUpdate(ed, C.MotionOf(a));
        return;
      }
      match a
      case KillLine => KillLine(ed);
      case DeleteChar(dest) => DeleteByMotion(ed, dest);
      case KillWord(dest) => DeleteByMotion(ed, dest);
      case BackwardKillWord(dest) => DeleteByMotion(ed, dest);
      case KillRingSave => KillRingSave(ed);
      case KillRegion => KillRegion(ed);
      case Yank => Yank(ed);
      case SetMarkCommand => SetMarkCommand(ed);
      case KeyboardQuit => DisableSelection(ed);
      case Recenter =>
    }
  }
}
