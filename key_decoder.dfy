/** The button decoder of the LED&Key panel, as pure functions.

    A raw sample holds one bit per button of the 8-button panel (the hardware
    read returns a 16-bit word).  The decoder keeps the last raw sample, the
    last emitted key and a "shift chord was used" flag between polls, and maps
    each poll to a logical key:
      0..7   a single button (bit i -> key i)
      8..14  a chord of button 7 (bit 6) with one other button ("shift")
      15     the two outermost buttons together (bits 0 and 7)
      16     no key
      17     button 7 released without having been used as shift  */
module KeyDecoder {
  import opened Options

  type Sample = bv16

  const NoKey := 16
  const SevenReleased := 17
  const CornerToggle := 15
  /** The key of button 7 alone (bit 6), which doubles as the shift button. */
  const ShiftKey := 6
  /** Bit 6: button 7, the shift button. */
  const ShiftBit: bv16 := 0x40

  /** The mask of the single button at bit i (i in 0..7). */
  function ButtonBit(i: nat): bv16
    requires i < 8
  {
    match i
    case 0 => 0x01 case 1 => 0x02 case 2 => 0x04 case 3 => 0x08
    case 4 => 0x10 case 5 => 0x20 case 6 => 0x40 case 7 => 0x80
  }

  /** ButtonBit is the shifted bit 1 << i. */
  lemma ButtonBitIsShift(i: nat)
    requires i < 8
    ensures ButtonBit(i) == 1 << i
  {
  }

  /** What the chord table yields for a sample: a key and whether the sample
      counts as a shift chord. */
  datatype KeyMatch = KeyMatch(key: nat, shift: bool)

  /** The relation between a sample and a table entry, stated bit-wise:
      single buttons, button 7 combined with one other button, and the two
      outermost buttons. */
  ghost predicate Describes(buttons: Sample, m: KeyMatch)
  {
    (m.key < 8 && !m.shift && buttons == ButtonBit(m.key))
    || (8 <= m.key <= 13 && m.shift && buttons == ShiftBit | ButtonBit(m.key - 8))
    || (m.key == 14 && m.shift && buttons == ShiftBit | ButtonBit(7))
    || (m.key == CornerToggle && !m.shift && buttons == ButtonBit(0) | ButtonBit(7))
  }

  /** The fixed chord table of get_button's switch; None for every sample the
      switch sends to its default branch. */
  function Decode(buttons: Sample): (r: Option<KeyMatch>)
    ensures r.Some? ==> buttons != 0 && r.value.key <= CornerToggle
    ensures r.Some? ==> Describes(buttons, r.value)
  {
    if buttons == 0x01 then Some(KeyMatch(0, false))
    else if buttons == 0x02 then Some(KeyMatch(1, false))
    else if buttons == 0x04 then Some(KeyMatch(2, false))
    else if buttons == 0x08 then Some(KeyMatch(3, false))
    else if buttons == 0x10 then Some(KeyMatch(4, false))
    else if buttons == 0x20 then Some(KeyMatch(5, false))
    else if buttons == 0x40 then Some(KeyMatch(6, false))
    else if buttons == 0x80 then Some(KeyMatch(7, false))
    else if buttons == 0x41 then Some(KeyMatch(8, true))
    else if buttons == 0x42 then Some(KeyMatch(9, true))
    else if buttons == 0x44 then Some(KeyMatch(10, true))
    else if buttons == 0x48 then Some(KeyMatch(11, true))
    else if buttons == 0x50 then Some(KeyMatch(12, true))
    else if buttons == 0x60 then Some(KeyMatch(13, true))
    else if buttons == 0xc0 then Some(KeyMatch(14, true))
    else if buttons == 0x81 then Some(KeyMatch(15, false))
    else None
  }

  /** The converse of Decode's contract: every sample that Describes an entry
      is found in the table with exactly that entry. */
  lemma DecodeComplete(buttons: Sample, m: KeyMatch)
    requires Describes(buttons, m)
    ensures Decode(buttons) == Some(m)
  {
  }

  /** The three values get_button keeps between polls. */
  datatype State = State(lastButton: Sample, lastKey: nat, shiftHappened: bool)

  /** Their initial values: the raw sample (word)-1, the key "no key", no shift. */
  const Initial := State(0xFFFF, NoKey, false)

  /** The emitted key lies in the decoder's output range 0..17. */
  predicate ValidKey(k: int)
  {
    0 <= k <= SevenReleased
  }

  /** One poll: the new state and the key returned for the raw sample. */
  function Step(s: State, buttons: Sample): (r: (State, nat))
    ensures r.0.lastButton == buttons
    ensures r.1 == r.0.lastKey
  {
    if buttons == s.lastButton then
      (s, s.lastKey)
    else if buttons == 0 then
      var k := if s.lastKey == ShiftKey && !s.shiftHappened then SevenReleased else NoKey;
      (State(buttons, k, false), k)
    else
      match Decode(buttons)
      case None => (s.(lastButton := buttons), s.lastKey)
      case Some(m) => (State(buttons, m.key, s.shiftHappened || m.shift), m.key)
  }

  /** A sequence of polls: the final state and the keys returned, in order. */
  function Run(s: State, samples: seq<Sample>): (r: (State, seq<nat>))
    ensures |r.1| == |samples|
    ensures samples != [] ==> r.0.lastButton == samples[|samples| - 1]
  {
    if samples == [] then (s, [])
    else
      var before := Run(s, samples[..|samples| - 1]);
      var after := Step(before.0, samples[|samples| - 1]);
      (after.0, before.1 + [after.1])
  }

  /** Debounce: a sample equal to the previous one returns the previous key
      and changes nothing. */
  lemma StepUnchangedSample(s: State, buttons: Sample)
    requires buttons == s.lastButton
    ensures Step(s, buttons) == (s, s.lastKey)
  {
  }

  /** Polling the same sample twice returns the same key twice. */
  lemma StepRepeated(s: State, buttons: Sample)
    ensures Step(Step(s, buttons).0, buttons) == Step(s, buttons)
  {
  }

  /** A changed sample with exactly bit i set yields key i; the shift flag is
      kept. */
  lemma StepSingleButton(s: State, i: nat)
    requires i < 8 && s.lastButton != ButtonBit(i)
    ensures Step(s, ButtonBit(i)).1 == i
    ensures Step(s, ButtonBit(i)).0.shiftHappened == s.shiftHappened
  {
  }

  /** A changed sample of button 7 with button j+1 (j in 0..5) yields key 8+j
      and sets the shift flag. */
  lemma StepShiftChord(s: State, j: nat)
    requires j < 6 && s.lastButton != ShiftBit | ButtonBit(j)
    ensures Step(s, ShiftBit | ButtonBit(j)) == (State(ShiftBit | ButtonBit(j), 8 + j, true), 8 + j)
  {
  }

  /** Buttons 7 and 8 together (0xc0) yield key 14 and set the shift flag. */
  lemma StepOctaveChord(s: State)
    requires s.lastButton != 0xc0
    ensures Step(s, 0xc0) == (State(0xc0, 14, true), 14)
  {
  }

  /** The two outermost buttons (0x81) yield key 15 and leave the shift flag. */
  lemma StepCornerToggle(s: State)
    requires s.lastButton != 0x81
    ensures Step(s, 0x81).1 == CornerToggle
    ensures Step(s, 0x81).0.shiftHappened == s.shiftHappened
  {
  }

  /** Release: a change to sample 0 yields 17 exactly when the previous key was
      button 7 alone and no shift chord was used, otherwise 16; either way the
      shift flag is cleared. */
  lemma StepRelease(s: State)
    requires s.lastButton != 0
    ensures Step(s, 0).1 == SevenReleased <==> s.lastKey == ShiftKey && !s.shiftHappened
    ensures Step(s, 0).1 != SevenReleased ==> Step(s, 0).1 == NoKey
    ensures !Step(s, 0).0.shiftHappened
  {
  }

  /** A changed, nonzero sample outside the table keeps the previous key and
      the shift flag. */
  lemma StepUnknownCombination(s: State, buttons: Sample)
    requires buttons != s.lastButton && buttons != 0
    requires forall m: KeyMatch :: !Describes(buttons, m)
    ensures Step(s, buttons) == (s.(lastButton := buttons), s.lastKey)
  {
  }

  /** One poll keeps the emitted key in 0..17. */
  lemma StepKeepsKeyRange(s: State, buttons: Sample)
    requires ValidKey(s.lastKey)
    ensures ValidKey(Step(s, buttons).1)
  {
  }

  /** Every key of every run from a state with a key in 0..17 lies in 0..17;
      in particular every run from the initial state. */
  lemma {:induction false} RunKeepsKeyRange(s: State, samples: seq<Sample>)
    requires ValidKey(s.lastKey)
    ensures ValidKey(Run(s, samples).0.lastKey)
    ensures forall i :: 0 <= i < |samples| ==> ValidKey(Run(s, samples).1[i])
  {
    if samples != [] {
      var prefix := samples[..|samples| - 1];
      RunKeepsKeyRange(s, prefix);
      StepKeepsKeyRange(Run(s, prefix).0, samples[|samples| - 1]);
    }
  }

  /** A run extended by one more poll is that poll stepped after the run. */
  lemma RunSnoc(s: State, samples: seq<Sample>, buttons: Sample)
    ensures Run(s, samples + [buttons])
         == (Step(Run(s, samples).0, buttons).0, Run(s, samples).1 + [Step(Run(s, samples).0, buttons).1])
  {
  }

  /** Button 7 pressed, button 1 added, all released: keys 6, 8, 16 (the
      shift chord consumed the release of button 7). */
  lemma ShiftChordThenRelease(s: State)
    requires s.lastButton != 0x40
    ensures Run(s, [0x40, 0x41, 0]).1 == [6, 8, 16]
    ensures !Run(s, [0x40, 0x41, 0]).0.shiftHappened
  {
    RunSnoc(s, [], 0x40);
    assert [] + [0x40 as Sample] == [0x40];
    RunSnoc(s, [0x40], 0x41);
    assert [0x40 as Sample] + [0x41] == [0x40, 0x41];
    RunSnoc(s, [0x40, 0x41], 0);
    assert [0x40 as Sample, 0x41] + [0] == [0x40, 0x41, 0];
  }

  /** Button 7 tapped alone with no shift pending: keys 6, 17. */
  lemma TapShiftThenRelease(s: State)
    requires s.lastButton != 0x40 && !s.shiftHappened
    ensures Run(s, [0x40, 0]).1 == [6, 17]
  {
    RunSnoc(s, [], 0x40);
    assert [] + [0x40 as Sample] == [0x40];
    RunSnoc(s, [0x40], 0);
    assert [0x40 as Sample] + [0] == [0x40, 0];
  }

  /** A shift chord used earlier still suppresses the 17 when button 7 is
      pressed alone afterwards without a full release in between. */
  lemma ShiftPendingSuppressesRelease(s: State)
    requires s.lastButton != 0x41
    ensures Run(s, [0x41, 0x40, 0]).1 == [8, 6, 16]
  {
    RunSnoc(s, [], 0x41);
    assert [] + [0x41 as Sample] == [0x41];
    RunSnoc(s, [0x41], 0x40);
    assert [0x41 as Sample] + [0x40] == [0x41, 0x40];
    RunSnoc(s, [0x41, 0x40], 0);
    assert [0x41 as Sample, 0x40] + [0] == [0x41, 0x40, 0];
  }
}
