/** The plugin's editing commands by name, each mapped to its effect on a
    snapshot, and the invariants that hold over any sequence of them. */
module Commands {
  import opened Buffer
  import S = Session

  /** The commands registered by the plugin that act on editor state. A
      host motion's destination is chosen by the host and carried here. */
  datatype Action =
    | ForwardChar(dest: Pos) | BackwardChar(dest: Pos)
    | NextLine(dest: Pos) | PreviousLine(dest: Pos)
    | ForwardWord(dest: Pos) | BackwardWord(dest: Pos)
    | BeginningOfBuffer(dest: Pos) | EndOfBuffer(dest: Pos)
    | MoveEndOfLine | MoveBeginningOfLine
    | KillLine
    | DeleteChar(dest: Pos) | KillWord(dest: Pos) | BackwardKillWord(dest: Pos)
    | KillRingSave | KillRegion | Yank
    | SetMarkCommand | KeyboardQuit
    | Recenter

  /** Commands that only move the cursor through `withSelectionUpdate`. */
  predicate IsMotion(a: Action)
  {
    !(a.KillLine? || a.DeleteChar? || a.KillWord? || a.BackwardKillWord? || a.KillRingSave?
      || a.KillRegion? || a.Yank? || a.SetMarkCommand? || a.KeyboardQuit? || a.Recenter?)
  }

  /** The motion a motion command hands to `withSelectionUpdate`. */
  function MotionOf(a: Action): S.Motion
    requires IsMotion(a)
  {
    match a
    case MoveEndOfLine => S.EndOfLine
    case MoveBeginningOfLine => S.BeginningOfLine
    case ForwardChar(d) => S.HostMotion(d)
    case BackwardChar(d) => S.HostMotion(d)
    case NextLine(d) => S.HostMotion(d)
    case PreviousLine(d) => S.HostMotion(d)
    case ForwardWord(d) => S.HostMotion(d)
    case BackwardWord(d) => S.HostMotion(d)
    case BeginningOfBuffer(d) => S.HostMotion(d)
    case EndOfBuffer(d) => S.HostMotion(d)
  }

  /** One command. */
  function Step(v: S.View, a: Action): (r: S.View)
    requires S.Consistent(v)
    ensures S.Consistent(r)
    ensures IsMotion(a) ==> r.lines == v.lines && r.mark == v.mark
  {
    if IsMotion(a) then S.WithSelectionUpdate(v, MotionOf(a))
    else match a
      case KillLine => S.KillLine(v)
      case DeleteChar(d) => S.WithDeleteInText(S.DisableSelection(v), d)
      case KillWord(d) => S.WithDeleteInText(S.DisableSelection(v), d)
      case BackwardKillWord(d) => S.WithDeleteInText(S.DisableSelection(v), d)
      case KillRingSave => S.KillRingSave(v)
      case KillRegion => S.KillRegion(v)
      case Yank => S.Yank(v)
      case SetMarkCommand => S.SetMarkCommand(v)
      case KeyboardQuit => S.DisableSelection(v)
      case Recenter => v
  }

  /** A sequence of commands, one after the other. */
  function Run(v: S.View, cmds: seq<Action>): (r: S.View)
    requires S.Consistent(v)
    ensures S.Consistent(r)
    decreases |cmds|
  {
    if cmds == [] then v else Run(Step(v, cmds[0]), cmds[1..])
  }

  /** Every command keeps the selection in step with the mark: from the mark
      to the cursor while a mark is set, collapsed on the cursor otherwise. */
  lemma StepKeepsInStep(v: S.View, a: Action)
    requires S.Consistent(v) && S.InStep(v)
    ensures S.InStep(Step(v, a))
  {
    if !IsMotion(a) && (a.KillRingSave? || a.KillRegion?) && v.mark.None? {
      assert Step(v, a) == v;
    }
  }

  lemma {:induction false} RunKeepsInStep(v: S.View, cmds: seq<Action>)
    requires S.Consistent(v) && S.InStep(v)
    ensures S.InStep(Run(v, cmds))
    decreases |cmds|
  {
    if cmds != [] {
      StepKeepsInStep(v, cmds[0]);
      RunKeepsInStep(Step(v, cmds[0]), cmds[1..]);
    }
  }

  /** While only motions run, the mark and the text stay put and after each
      one the selection runs from the mark to wherever the cursor now is. */
  lemma {:induction false} MotionsFollowMark(v: S.View, cmds: seq<Action>)
    requires S.Consistent(v) && v.mark.Some?
    requires forall i :: 0 <= i < |cmds| ==> IsMotion(cmds[i])
    ensures Run(v, cmds).mark == v.mark && Run(v, cmds).lines == v.lines
    ensures cmds != [] ==> Run(v, cmds).anchor == v.mark.value
    decreases |cmds|
  {
    if cmds != [] {
      var w := Step(v, cmds[0]);
      assert w.anchor == v.mark.value;
      MotionsFollowMark(w, cmds[1..]);
    }
  }
}
