# LED&Key panel front end (TM1638_MB), modelled in Dafny

This project models `TM1638_MB`, the front end of an 8-character, 8-LED,
8-button TM1638 "LED&Key" panel in an MPE controller. It has two independent
parts:

- **Button decoder** (`get_button`). Each poll reads a raw 16-bit button sample.
  - A sample equal to the previous one repeats the previous key (debounce).
  - A change to 0 is a release. It yields 17 when the last key was button 7
    (key 6) and no shift chord has been used since the last release; otherwise
    it yields 16. Either way the shift flag is cleared.
  - Single buttons yield keys 0..7.
  - Button 7 held with another button yields keys 8..14 and sets the shift flag.
  - The two outermost buttons together (0x81) yield key 15.
  - Any other combination keeps the previous key.
- **Display/LED cache.** A 9-character text buffer (8 visible positions and a
  terminator), an 8-bit dot mask (position k on bit 7-k) and a 9-slot LED
  cache.
  - `display` and `display_dots` edit the buffer or the mask and refresh the
    panel.
  - `led_on` writes to the panel only when the cache says the LED is off.
  - `led_off` always writes.

Files:
- `options.dfy`: `Option`. It stands for a NULL pointer and for a lookup that
  finds nothing.
- `key_decoder.dfy`: module `KeyDecoder`, the decoder as pure functions.
  - `Decode` is the chord table.
  - `Step` is one poll on the state (last sample, last key, shift flag).
  - `Run` is a sequence of polls.
  - The lemmas state debounce, the table, release, unknown combinations, the
    key range and the example sequences.
- `panel_text.dfy`: module `PanelText`, the text and dot state as pure
  functions.
  - `Overlay` stores a run of characters.
  - `ApplyDots` applies a dot pattern.
  - `StrLen` is C's `strlen`.
  - The lemmas state what each of these does, position by position.
- `led_and_key.dfy`: module `LedAndKeyPanel`, class `LedAndKey`.
  - The fields of `TM1638_MB` and the three statics of `get_button` are class
    fields. The text buffer and the LED cache are arrays.
  - Each method states its new state and the panel writes it issues, in terms
    of the functions above.
  - Calls into the panel driver (`setDisplayToString`, `setLED`) are entries
    appended to the ghost log `writes`.
  - The raw button read (`getButtons`) is the parameter of `GetButton`.
  - A few client methods state example call sequences.

Notes on the source's own behaviour:
- `display(char, pos)` checks only `pos > 7` (led-and-key.cpp:46). A negative
  position is a precondition here.
- `display_dots` with an empty string changes no dot, whereas NULL (the
  default argument) clears them all (led-and-key.cpp:83-86).
- The LED cache has 9 slots (tm1638_mb.h:41), so valid LED indices are 0..8.
- Sample 0xc0 is buttons 7 and 8 together (bits 6 and 7).

## Model

| member | source | states |
|---|---|---|
| `KeyDecoder.Decode` | led-and-key.cpp:143-210 | A table hit is a nonzero sample with a key of at most 15. The hit matches the sample bit for bit: bit i alone gives key i; bit 6 with bit j (j in 0..5) gives shift key 8+j; bits 6 and 7 give shift key 14; bits 0 and 7 give key 15 without shift. |
| `KeyDecoder.DecodeComplete` | led-and-key.cpp:145-204 | The converse: every sample that matches an entry in that way is found in the table with exactly that entry. |
| `KeyDecoder.ButtonBitIsShift` | led-and-key.cpp:145-167 | The mask of single button i (i in 0..7) is `1 << i`, the value its switch case tests. |
| `KeyDecoder.Step` | led-and-key.cpp:127-219 | A poll always stores the new sample and returns the key it stores as the last key. |
| `KeyDecoder.Run` | led-and-key.cpp:122-125 | A run of polls, threading the persisted values, returns one key per sample and ends holding the last sample. |
| `KeyDecoder.StepUnchangedSample` | led-and-key.cpp:131-219 | A sample equal to the previous one returns the previous key and leaves the state unchanged. |
| `KeyDecoder.StepRepeated` | led-and-key.cpp:218-219 | Polling the same sample twice gives the same state and key as polling it once. |
| `KeyDecoder.StepSingleButton` | led-and-key.cpp:145-167 | A changed sample `1 << i` (i in 0..7) yields key i and keeps the shift flag. |
| `KeyDecoder.StepShiftChord` | led-and-key.cpp:170-195 | A changed sample 0x40 plus bit j (j in 0..5) yields key 8+j, stores it and sets the shift flag. |
| `KeyDecoder.StepOctaveChord` | led-and-key.cpp:197-200 | A changed sample 0xc0 yields key 14 and sets the shift flag. |
| `KeyDecoder.StepCornerToggle` | led-and-key.cpp:202-204 | A changed sample 0x81 yields key 15 and leaves the shift flag as it was. |
| `KeyDecoder.StepRelease` | led-and-key.cpp:133-140 | A change to 0 yields 17 if and only if the last key was 6 and the flag was clear. Otherwise it yields 16. The flag is clear afterwards. |
| `KeyDecoder.StepUnknownCombination` | led-and-key.cpp:206-209 | A changed, nonzero sample that matches no table entry keeps the last key and the flag and only stores the sample. |
| `KeyDecoder.StepKeepsKeyRange` | led-and-key.cpp:206-212 | If the last key is in 0..17, the key after one poll is in 0..17. |
| `KeyDecoder.RunKeepsKeyRange` | led-and-key.cpp:124-212 | From a state whose key is in 0..17 (the initial 16 included), every key a run returns and its final key are in 0..17. |
| `KeyDecoder.ShiftChordThenRelease` | led-and-key.cpp:133-140 | Samples 0x40, 0x41, 0 yield keys 6, 8, 16 and end with the flag clear. |
| `KeyDecoder.TapShiftThenRelease` | led-and-key.cpp:135-139 | Samples 0x40, 0 yield keys 6, 17 when no shift chord is pending. |
| `KeyDecoder.ShiftPendingSuppressesRelease` | led-and-key.cpp:213-214 | Samples 0x41, 0x40, 0 yield 8, 6, 16: the flag set by a chord survives until the next release. |
| `PanelText.StrLen` | led-and-key.cpp:86 | The result is the index of the first NUL, or the length when there is none. |
| `PanelText.CharsStored` | led-and-key.cpp:57-63 | For a valid start, a positive count stores min(count, 8 - pos) characters and a non-positive count stores none. The result never passes position 7. |
| `PanelText.Overlay` | led-and-key.cpp:57-66 | Storing characters one after the other keeps the buffer length. |
| `PanelText.OverlayAt` | led-and-key.cpp:57-66 | After storing n characters at pos, position j holds `letters[j - pos]` inside the window and its old character outside it. |
| `PanelText.OverlayKeepsTerminator` | tm1638_mb.h:40 | A write within positions 0..7 keeps slot 8 of the 9-character buffer. |
| `PanelText.OverlayOne` | tm1638_mb.h:30 | Storing one character (the default count of `display`) is a single position update. |
| `PanelText.DotMaskIsShift` | led-and-key.cpp:93-97 | The dot bit of position k is `1 << (7 - k)`. |
| `PanelText.DotsEqual` | tm1638_mb.h:39 | The 8-bit dot mask is determined by its 8 per-position dots. |
| `PanelText.DotStepAt` | led-and-key.cpp:89-98 | One pattern character affects only the dot at its own position. Whitespace keeps that dot, `-` clears it and any other character lights it. |
| `PanelText.ApplyDotsAt` | led-and-key.cpp:86-99 | After a pattern, each position inside the pattern is decided by its own character (as in `DotStepAt`). Each position past the pattern keeps its dot. |
| `PanelText.ConsultedDots` | led-and-key.cpp:80-86 | The consulted characters are the first min(8, strlen) characters of the pattern, with NULL replaced by `--------`. They are at most 8 and contain no NUL. |
| `PanelText.NullPatternClearsDots` | led-and-key.cpp:80-84 | A NULL pattern clears every dot, whatever the mask was. |
| `PanelText.EmptyPatternKeepsDots` | led-and-key.cpp:86 | A pattern with nothing before its terminator changes no dot. |
| `PanelText.ConsultedDotsAt` | led-and-key.cpp:78-102 | The mask after `display_dots(dots)`, stated per position for any argument including NULL. |
| `LedAndKeyPanel.LedAndKey.Default` | led-and-key.cpp:26-33 | The first constructor: text `12345678`, no dots, the initial decoder state and no panel write. The LED cache is unspecified. |
| `LedAndKeyPanel.LedAndKey.WithText` | led-and-key.cpp:35-42 | The second constructor: the caller's text (at most 8 characters) followed by a terminator, no dots, every LED off in the cache, the initial decoder state and exactly one refresh. |
| `LedAndKeyPanel.LedAndKey.GetButton` | led-and-key.cpp:120-220 | The new decoder state and the returned key are `Step` of the old state and the sample. The key is in 0..17, and the key range stays an invariant of the object. |
| `LedAndKeyPanel.LedAndKey.DisplayChar` | led-and-key.cpp:44-51 | A position above 7 changes nothing and writes nothing. Otherwise only that position changes, followed by exactly one refresh carrying the new text and the dots. |
| `LedAndKeyPanel.LedAndKey.DisplayText` | led-and-key.cpp:53-75 | A start outside 0..7 changes nothing and writes nothing. Otherwise the buffer is the `Overlay` of the first `CharsStored` letters. One refresh happens exactly when pos + count <= 8; an overrun refreshes nothing. |
| `LedAndKeyPanel.LedAndKey.DisplayDots` | led-and-key.cpp:78-102 | The mask becomes `ApplyDots` of the consulted pattern (NULL by default), followed by exactly one refresh. |
| `LedAndKeyPanel.LedAndKey.LedOn` | led-and-key.cpp:104-111 | The cache slot becomes on. The panel is written once if the slot was off and not at all if it was on. |
| `LedAndKeyPanel.LedAndKey.LedOff` | led-and-key.cpp:113-117 | The cache slot becomes off and the panel is always written once. |
| `LedAndKeyPanel.LedOnTwice` | led-and-key.cpp:104-111 | Two `led_on(idx)` in a row produce at most one LED write. |
| `LedAndKeyPanel.LedOffThenOn` | led-and-key.cpp:104-117 | `led_off(idx)` then `led_on(idx)` produce exactly two LED writes, off then red. |
| `LedAndKeyPanel.ClearDots` | tm1638_mb.h:33 | `display_dots()` with its default argument clears the whole mask and refreshes once. |
| `LedAndKeyPanel.DisplayFirstLetter` | tm1638_mb.h:30 | `display(letters, pos)` with its default count stores only `letters[0]` at pos and refreshes once. |
| `LedAndKeyPanel.TapButtonSeven` | led-and-key.cpp:133-139 | On a new panel, samples 0x40 then 0 return 6 then 17. |
| `LedAndKeyPanel.ShiftWithButtonOne` | led-and-key.cpp:131-214 | On a new panel, samples 0x40, 0x41, 0x41, 0 return 6, 8, 8, 16. |
| `LedAndKeyPanel.EditDot` | led-and-key.cpp:89-98 | The body of the `display_dots` loop computes `DotStep`. |
| `LedAndKeyPanel.ClearIfSet` | led-and-key.cpp:93-94 | Test-then-exclusive-or on a single dot bit clears that bit. |

## Left out

- The `TM1638` base class is not part of this model: the bus protocol, the
  segment encoding, the pins, the intensity and the activate flag.
- `setDisplayToString` and `setLED` are recorded as entries of the ghost log
  `writes`.
  - A display entry records the whole 9-character buffer and the dot mask.
    How the library renders it (for example stopping at a NUL) is not modelled.
  - `TM1638_COLOR_RED` and the literal 0 of `led_off` become `LedColor.Red` and
    `LedColor.NoColor`. Their numeric values belong to the library.
- `getButtons` is the parameter of `GetButton`.
- The `trace(Serial.printf(...))` debug output is left out. It is I/O that
  does not affect state.
- The three statics of `get_button` exist once per program in the source. Here
  they are fields of each object, initialised by the constructors.
- Inputs with undefined behaviour in the source are preconditions:
  - a negative position in `display(char, pos)`;
  - a constructor text with more than 8 characters before its terminator
    (`strcpy` into a 9-character buffer);
  - an LED index outside 0..8;
  - `display(letters, pos, count)` reading past the end of `letters`.
- `LedAndKeyPanel.LedAndKey.Default`: says nothing about the LED cache. The
  first constructor never initialises it.
- `LedAndKeyPanel.LedAndKey.WithText`: says nothing about the buffer slots
  after the terminator. `strcpy` does not write them.
- `last_key` is a 16-bit `word` in the source and a `nat` here. Its values stay
  in 0..17, so no wrap-around can occur.
- `display_dots` evaluates `min(8, strlen(dots))` on every iteration. The model
  evaluates it once. The pattern does not change inside the loop, so the bound
  is the same.
