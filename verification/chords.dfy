/** Key chords and their text form, the string the key map is indexed by. */
module Chords {

  /** A key chord (`KeyPress`); the fields follow the constructor's
      parameter order. */
  datatype KeyPress = KeyPress(key: string, shift: bool, alt: bool, ctrl: bool, meta: bool)

  const MetaLabel: string := "Meta + "
  const CtrlLabel: string := "Ctrl + "
  const AltLabel: string := "Alt + "
  const ShiftLabel: string := "Shift + "

  /** The label a modifier contributes: its tag when held, nothing otherwise. */
  function Label(on: bool, tag: string): (r: string)
  {
    if on then tag else ""
  }

  /** `KeyPress.text`: the labels of the modifiers held, always in the order
      Meta, Ctrl, Alt, Shift, then the key itself. */
  function Text(k: KeyPress): (r: string)
    ensures !k.meta && !k.ctrl && !k.alt && !k.shift ==> r == k.key
    ensures |r| == |k.key| + (if k.meta then 7 else 0) + (if k.ctrl then 7 else 0)
                           + (if k.alt then 6 else 0) + (if k.shift then 8 else 0)
  {
    Label(k.meta, MetaLabel) + (Label(k.ctrl, CtrlLabel) + (Label(k.alt, AltLabel)
    + (Label(k.shift, ShiftLabel) + k.key)))
  }

  /** A key that does not itself begin like a modifier label; every key
      name the browser reports ("f", "Enter", "Shift", ...) is one. */
  predicate PlainKey(key: string)
  {
    !(MetaLabel <= key) && !(CtrlLabel <= key) && !(AltLabel <= key) && !(ShiftLabel <= key)
  }

  /** Takes `tag` off the front of `s` when it is there. */
  function Strip(s: string, tag: string): (r: (bool, string))
    ensures r.0 ==> s == tag + r.1
    ensures !r.0 ==> r.1 == s && !(tag <= s)
  {
    if tag <= s then (true, s[|tag|..]) else (false, s)
  }

  /** Reads a chord back from its text, taking the labels off in the order
      `Text` writes them. */
  function Parse(s: string): KeyPress
  {
    var meta := Strip(s, MetaLabel);
    var ctrl := Strip(meta.1, CtrlLabel);
    var alt := Strip(ctrl.1, AltLabel);
    var shift := Strip(alt.1, ShiftLabel);
    KeyPress(shift.1, shift.0, alt.0, ctrl.0, meta.0)
  }

  lemma StripLabel(on: bool, tag: string, rest: string)
    requires |tag| > 0 && !(tag <= rest)
    ensures Strip(Label(on, tag) + rest, tag) == (on, rest)
  {
    if on {
      assert (tag + rest)[..|tag|] == tag;
      assert (tag + rest)[|tag|..] == rest;
    } else {
      assert "" + rest == rest;
    }
  }

  /** A string starting with `c` does not start with a label whose first
      character differs. */
  lemma NotLabelled(tag: string, s: string)
    requires |tag| > 0 && |s| > 0 && tag[0] != s[0]
    ensures !(tag <= s)
  {
  }

  /** The text of a chord determines the chord: reading it back gives the
      modifiers and the key that were written. */
  lemma ParseText(k: KeyPress)
    requires PlainKey(k.key)
    ensures Parse(Text(k)) == k
  {
    var s3 := Label(k.shift, ShiftLabel) + k.key;
    var s2 := Label(k.alt, AltLabel) + s3;
    var s1 := Label(k.ctrl, CtrlLabel) + s2;
    assert Text(k) == Label(k.meta, MetaLabel) + s1;
    assert MetaLabel[0] == 'M' && CtrlLabel[0] == 'C' && AltLabel[0] == 'A' && ShiftLabel[0] == 'S';
    StripLabel(k.shift, ShiftLabel, k.key);
    assert Strip(s3, ShiftLabel) == (k.shift, k.key);
    if k.shift {
      assert s3[0] == 'S';
      NotLabelled(AltLabel, s3);
    }
    StripLabel(k.alt, AltLabel, s3);
    assert Strip(s2, AltLabel) == (k.alt, s3);
    if k.alt || k.shift {
      assert s2[0] == (if k.alt then 'A' else 'S');
      NotLabelled(CtrlLabel, s2);
    }
    StripLabel(k.ctrl, CtrlLabel, s2);
    assert Strip(s1, CtrlLabel) == (k.ctrl, s2);
    if k.ctrl || k.alt || k.shift {
      assert s1[0] == (if k.ctrl then 'C' else if k.alt then 'A' else 'S');
      NotLabelled(MetaLabel, s1);
    }
    StripLabel(k.meta, MetaLabel, s1);
    assert Strip(Text(k), MetaLabel) == (k.meta, s1);
  }

  /** Distinct chords have distinct texts, so each chord has its own entry
      in the key map. */
  lemma TextInjective(a: KeyPress, b: KeyPress)
    requires PlainKey(a.key) && PlainKey(b.key) && Text(a) == Text(b)
    ensures a == b
  {
    ParseText(a);
    ParseText(b);
  }
}
