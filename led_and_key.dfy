/** The TM1638_MB front end of the LED&Key panel: a text buffer, a dot mask
    and an LED cache that are written to the panel only when needed, and the
    button decoder's three persisted values.

    The panel itself is outside the model: a display refresh and an LED write
    are recorded as entries of the ghost log `writes`, and the raw button
    sample is a parameter of GetButton. */
module LedAndKeyPanel {
  import opened Options
  import opened KeyDecoder
  import opened PanelText

  datatype LedColor = Red | NoColor

  /** One call into the panel driver. */
  datatype HardwareWrite =
    | DisplayWrite(text: seq<char>, dots: bv8)   // setDisplayToString(text, dots)
    | LedWrite(color: LedColor, index: int)      // setLED(color, index)

  class LedAndKey {
    var dotsBits: bv8
    const moduleText: array<char>
    const ledActive: array<bool>
    // the persisted values of get_button
    var lastButton: Sample
    var lastKey: nat
    var rememberShift: bool
    /** Every call into the panel driver, oldest first. */
    ghost var writes: seq<HardwareWrite>

    ghost predicate Valid()
      reads this
    {
      moduleText.Length == BufferSize && ledActive.Length == BufferSize && ValidKey(lastKey)
    }

    /** The decoder state as the pure model sees it. */
    function Decoder(): State
      reads this
    {
      State(lastButton, lastKey, rememberShift)
    }

    /** The first constructor: default text, no dots, no refresh.  The LED
        cache is left uninitialised, so nothing is promised about it. */
    constructor Default()
      ensures Valid() && fresh(moduleText) && fresh(ledActive)
      ensures moduleText[..] == "12345678\0" && dotsBits == 0
      ensures Decoder() == Initial
      ensures writes == []
    {
      var initial := "12345678\0";
      moduleText := new char[BufferSize](i requires 0 <= i < BufferSize => initial[i]);
      ledActive := new bool[BufferSize];
      dotsBits := 0;
      lastButton, lastKey, rememberShift := Initial.lastButton, Initial.lastKey, Initial.shiftHappened;
      new;
      writes := [];
      assert moduleText[..] == initial;
    }

    /** The second constructor: the caller's text (at most 8 characters before
        its terminator), no dots, every LED off in the cache, one refresh. */
    constructor WithText(displayText: seq<char>)
      requires StrLen(displayText) < BufferSize
      ensures Valid() && fresh(moduleText) && fresh(ledActive)
      ensures moduleText[..StrLen(displayText)] == displayText[..StrLen(displayText)]
      ensures moduleText[StrLen(displayText)] == '\0'
      ensures dotsBits == 0
      ensures forall i :: 0 <= i < BufferSize ==> !ledActive[i]
      ensures Decoder() == Initial
      ensures writes == [DisplayWrite(moduleText[..], 0)]
    {
      var n := StrLen(displayText);
      moduleText := new char[BufferSize](i requires 0 <= i < BufferSize =>
        if i < n && i < |displayText| then displayText[i] else '\0');
      ledActive := new bool[BufferSize](_ => false);
      dotsBits := 0;
      lastButton, lastKey, rememberShift := Initial.lastButton, Initial.lastKey, Initial.shiftHappened;
      new;
      writes := [DisplayWrite(moduleText[..], dotsBits)];
    }

    /** get_button: one poll of the decoder with the raw sample `buttons`. */
    method GetButton(buttons: Sample) returns (key: nat)
      requires Valid()
      modifies this`lastButton, this`lastKey, this`rememberShift
      ensures Valid()
      ensures (Decoder(), key) == Step(old(Decoder()), buttons)
      ensures ValidKey(key)
    {
      StepKeepsKeyRange(Decoder(), buttons);
      var shiftHappened := false;
      var keyFound := NoKey;
      if lastButton != buttons {
        if buttons == 0 {
          if lastKey == ShiftKey && !rememberShift {
            keyFound := SevenReleased;
          } else {
            keyFound := NoKey;
          }
          rememberShift := false;
        } else {
          match Decode(buttons)
          case Some(m) =>
            keyFound := m.key;
            shiftHappened := m.shift;
          case None =>
            keyFound := lastKey;
        }
        lastKey := keyFound;
        if shiftHappened {
          rememberShift := true;
        }
      }
      lastButton := buttons;
      key := lastKey;
    }

    /** display(letter, pos): a position past 7 is ignored; otherwise the
        character is stored and the panel refreshed once.  A negative
        position is outside the source's contract. */
    method DisplayChar(letter: char, pos: int)
      requires Valid() && 0 <= pos
      modifies moduleText, this`writes
      ensures Valid()
      ensures pos >= Positions ==> moduleText[..] == old(moduleText[..]) && writes == old(writes)
      ensures pos < Positions ==>
        moduleText[..] == old(moduleText[..])[pos := letter]
        && writes == old(writes) + [DisplayWrite(moduleText[..], dotsBits)]
    {
      if pos > 7 {
        return;
      }
      moduleText[pos] := letter;
      writes := writes + [DisplayWrite(moduleText[..], dotsBits)];
    }

    /** display(letters, pos, count): a start outside 0..7 is ignored;
        otherwise letters[i] goes to pos+i, one after the other, until count
        characters are stored or position 7 has been passed.  An overrun
        keeps the characters already stored and does not refresh. */
    method DisplayText(letters: seq<char>, pos: int, count: int := 1)
      requires Valid()
      requires 0 <= pos < Positions ==> CharsStored(pos, count) <= |letters|
      modifies moduleText, this`writes
      ensures Valid()
      ensures !(0 <= pos < Positions) ==> moduleText[..] == old(moduleText[..]) && writes == old(writes)
      ensures 0 <= pos < Positions ==>
        moduleText[..] == Overlay(old(moduleText[..]), letters, pos, CharsStored(pos, count))
        && writes == old(writes) + (if pos + count <= Positions then [DisplayWrite(moduleText[..], dotsBits)] else [])
    {
      if 0 <= pos && pos <= 7 {
        var p := pos;
        var i := 0;
        while i < count
          invariant 0 <= i <= Positions - pos
          invariant p == pos + i
          invariant i <= CharsStored(pos, count)
          invariant moduleText[..] == Overlay(old(moduleText[..]), letters, pos, i)
          invariant writes == old(writes)
        {
          if p > 7 {
            return;
          }
          moduleText[p] := letters[i];
          p := p + 1;
          i := i + 1;
        }
      } else {
        return;
      }
      writes := writes + [DisplayWrite(moduleText[..], dotsBits)];
    }

    /** display_dots(dots): each of the first (at most 8) pattern characters
        edits the dot of its position; NULL stands for "--------".  The panel
        is refreshed once. */
    method DisplayDots(dots: Option<seq<char>> := None)
      requires Valid()
      modifies this`dotsBits, this`writes
      ensures Valid()
      ensures dotsBits == ApplyDots(old(dotsBits), ConsultedDots(dots))
      ensures writes == old(writes) + [DisplayWrite(moduleText[..], dotsBits)]
    {
      var pattern := if dots.None? then NoDots else dots.value;
      var n := Min(Positions, StrLen(pattern));
      var i := 0;
      while i < n
        invariant 0 <= i <= n
        invariant dotsBits == ApplyDots(old(dotsBits), pattern[..i])
        invariant writes == old(writes)
      {
        ApplyDotsSnoc(old(dotsBits), pattern, i);
        dotsBits := EditDot(dotsBits, i, pattern[i]);
        i := i + 1;
      }
      writes := writes + [DisplayWrite(moduleText[..], dotsBits)];
    }

    /** led_on(idx): the LED is written only when the cache says it is off. */
    method LedOn(idx: int)
      requires Valid() && 0 <= idx < BufferSize
      modifies ledActive, this`writes
      ensures Valid()
      ensures ledActive[..] == old(ledActive[..])[idx := true]
      ensures writes == old(writes) + (if old(ledActive[idx]) then [] else [LedWrite(Red, idx)])
    {
      if !ledActive[idx] {
        writes := writes + [LedWrite(Red, idx)];
        ledActive[idx] := true;
      }
    }

    /** led_off(idx): the LED is always written, and the cache says off. */
    method LedOff(idx: int)
      requires Valid() && 0 <= idx < BufferSize
      modifies ledActive, this`writes
      ensures Valid()
      ensures ledActive[..] == old(ledActive[..])[idx := false]
      ensures writes == old(writes) + [LedWrite(NoColor, idx)]
    {
      writes := writes + [LedWrite(NoColor, idx)];
      ledActive[idx] := false;
    }
  }

  /** Applying one more pattern character is one more DotStep. */
  lemma ApplyDotsSnoc(bits: bv8, pattern: seq<char>, i: nat)
    requires i < Positions && i < |pattern|
    ensures ApplyDots(bits, pattern[..i + 1]) == DotStep(ApplyDots(bits, pattern[..i]), i, pattern[i])
  {
    assert pattern[..i + 1][..i] == pattern[..i];
  }

  /** Two led_on(idx) in a row reach the panel at most once. */
  method LedOnTwice(panel: LedAndKey, idx: int)
    requires panel.Valid() && 0 <= idx < BufferSize
    modifies panel.ledActive, panel`writes
    ensures panel.Valid() && panel.ledActive[idx]
    ensures panel.writes == old(panel.writes) + (if old(panel.ledActive[idx]) then [] else [LedWrite(Red, idx)])
  {
    panel.LedOn(idx);
    panel.LedOn(idx);
  }

  /** led_off(idx) then led_on(idx) always reach the panel twice. */
  method LedOffThenOn(panel: LedAndKey, idx: int)
    requires panel.Valid() && 0 <= idx < BufferSize
    modifies panel.ledActive, panel`writes
    ensures panel.Valid() && panel.ledActive[idx]
    ensures panel.writes == old(panel.writes) + [LedWrite(NoColor, idx), LedWrite(Red, idx)]
  {
    panel.LedOff(idx);
    panel.LedOn(idx);
  }

  /** display_dots() without an argument clears every dot and refreshes. */
  method ClearDots(panel: LedAndKey)
    requires panel.Valid()
    modifies panel`dotsBits, panel`writes
    ensures panel.Valid()
    ensures panel.dotsBits == 0
    ensures panel.writes == old(panel.writes) + [DisplayWrite(panel.moduleText[..], 0)]
  {
    NullPatternClearsDots(panel.dotsBits);
    panel.DisplayDots();
  }

  /** display(letters, pos) without a count stores letters[0] alone and
      refreshes. */
  method DisplayFirstLetter(panel: LedAndKey, letters: seq<char>, pos: int)
    requires panel.Valid() && 0 <= pos < Positions && 1 <= |letters|
    modifies panel.moduleText, panel`writes
    ensures panel.Valid()
    ensures panel.moduleText[..] == old(panel.moduleText[..])[pos := letters[0]]
    ensures panel.writes == old(panel.writes) + [DisplayWrite(panel.moduleText[..], panel.dotsBits)]
  {
    OverlayOne(panel.moduleText[..], letters, pos);
    panel.DisplayText(letters, pos);
  }

  /** A new panel sees button 7 tapped alone: keys 6, then 17. */
  method TapButtonSeven() returns (keys: seq<nat>)
    ensures keys == [6, 17]
  {
    var panel := new LedAndKey.Default();
    var down := panel.GetButton(0x40);
    var up := panel.GetButton(0);
    keys := [down, up];
  }

  /** A new panel sees button 7 held, button 1 added, everything released:
      keys 6, 8, 16, and a repeated sample repeats the key. */
  method ShiftWithButtonOne() returns (keys: seq<nat>)
    ensures keys == [6, 8, 8, 16]
  {
    var panel := new LedAndKey.Default();
    var shift := panel.GetButton(0x40);
    var chord := panel.GetButton(0x41);
    var held := panel.GetButton(0x41);
    var up := panel.GetButton(0);
    keys := [shift, chord, held, up];
  }

  /** The body of display_dots' loop: pattern character c edits the dot of
      position k (whitespace keeps it, '-' clears it if set, anything else
      sets it). */
  method EditDot(bits: bv8, k: nat, c: char) returns (r: bv8)
    requires k < Positions
    ensures r == DotStep(bits, k, c)
  {
    var bit: bv8 := 1 << (7 - k);
    DotMaskIsShift(k);
    ClearIfSet(bits, k);
    r := bits;
    if !IsSpace(c) {
      if c == '-' {
        if r & bit != 0 {
          r := r ^ bit;
        }
      } else {
        r := r | bit;
      }
    }
  }

  /** Exclusive or with a bit known to be set clears it. */
  lemma ClearIfSet(bits: bv8, k: nat)
    requires k < Positions
    ensures (if bits & DotMask(k) != 0 then bits ^ DotMask(k) else bits) == bits & !DotMask(k)
  {
  }
}
