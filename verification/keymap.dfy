/** The plugin's settings: a map from chord text to command name, and the
    rebinding the settings tab performs when a key is edited. */
module Keymap {

  /** `EmacsCommandName`. */
  datatype CommandName =
    | BackwardChar | BackwardKillWord | BackwardWord | BeginningOfBuffer | DeleteChar
    | EndOfBuffer | ForwardChar | ForwardWord | KeyboardQuit | KillLine | KillRegion
    | KillRingSave | KillWord | MoveBeginningOfLine | MoveEndOfLine | NextLine
    | PreviousLine | Recenter | Redo | SetMarkCommand | Undo | Yank

  type KeyMap = map<string, CommandName>

  /** `DEFAULT_SETTINGS.keyEmacsCmdMap`. */
  const DefaultKeyMap: KeyMap :=
    map["Ctrl + f" := ForwardChar, "Ctrl + b" := BackwardChar,
        "Ctrl + n" := NextLine, "Ctrl + p" := PreviousLine]

  /** No command is bound to two keys. */
  predicate OneKeyPerCommand(m: KeyMap)
  {
    forall k1, k2 :: k1 in m && k2 in m && k1 != k2 ==> m[k1] != m[k2]
  }

  /** The key map after `cmd` is rebound to `newKey`: every key bound to
      `cmd` is unbound, then `newKey` is bound to `cmd`, overwriting whatever
      it was bound to. */
  function Rebound(m: KeyMap, cmd: CommandName, newKey: string): (r: KeyMap)
    ensures newKey in r && r[newKey] == cmd
    ensures forall k :: k in r && k != newKey ==> r[k] != cmd
    ensures forall k :: k in r && k != newKey ==> k in m && r[k] == m[k]
    ensures forall k :: k in m && m[k] != cmd && k != newKey ==> k in r
    ensures r.Keys == (set k | k in m && m[k] != cmd) + {newKey}
  {
    (map k | k in m && m[k] != cmd :: m[k])[newKey := cmd]
  }

  /** Rebinding keeps every command on at most one key. */
  lemma RebindKeepsOneKeyPerCommand(m: KeyMap, cmd: CommandName, newKey: string)
    requires OneKeyPerCommand(m)
    ensures OneKeyPerCommand(Rebound(m, cmd, newKey))
  {
    var r := Rebound(m, cmd, newKey);
    forall k1, k2 | k1 in r && k2 in r && k1 != k2
      ensures r[k1] != r[k2]
    {
      if k1 != newKey && k2 != newKey {
        assert r[k1] == m[k1] && r[k2] == m[k2];
      }
    }
  }

  /** The entries still present while the rebinding loop runs: those bound
      to another command, and those not yet visited. */
  function Remaining(entries: KeyMap, cmd: CommandName, pending: set<string>): KeyMap
  {
    map k | k in entries && (k in pending || entries[k] != cmd) :: entries[k]
  }

  lemma RemainingStep(entries: KeyMap, cmd: CommandName, pending: set<string>, key: string)
    requires key in pending && key in entries
    ensures entries[key] == cmd ==>
              Remaining(entries, cmd, pending) - {key} == Remaining(entries, cmd, pending - {key})
    ensures entries[key] != cmd ==>
              Remaining(entries, cmd, pending) == Remaining(entries, cmd, pending - {key})
  {
  }

  class Settings {
    var keyEmacsCmdMap: KeyMap

    /** The settings a fresh installation loads. */
    constructor ()
      ensures keyEmacsCmdMap == DefaultKeyMap
    {
      keyEmacsCmdMap := DefaultKeyMap;
    }

    /** The settings tab's change handler: delete every entry bound to `cmd`,
        visiting a snapshot of the entries, then bind `newKey` to `cmd`. */
    method Rebind(cmd: CommandName, newKey: string)
      modifies this
      ensures keyEmacsCmdMap == Rebound(old(keyEmacsCmdMap), cmd, newKey)
    {
      var entries := keyEmacsCmdMap;
      var pending := entries.Keys;
      while pending != {}
        invariant pending <= entries.Keys
        invariant keyEmacsCmdMap == Remaining(entries, cmd, pending)
        decreases pending
      {
        var key :| key in pending;
        RemainingStep(entries, cmd, pending, key);
        if entries[key] == cmd {
          keyEmacsCmdMap := keyEmacsCmdMap - {key};
        }
        pending := pending - {key};
      }
      assert Remaining(entries, cmd, {}) == map k | k in entries && entries[k] != cmd :: entries[k];
      keyEmacsCmdMap := keyEmacsCmdMap[newKey := cmd];
    }
  }
}
