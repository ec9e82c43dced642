/** The display state of the LED&Key panel as pure functions: the text
    buffer (8 visible characters plus a terminator) and the dot mask (one bit
    per position, position k on bit 7-k). */
module PanelText {
  import opened Options

  /** Visible character positions 0..7. */
  const Positions := 8
  /** The text buffer holds the visible characters and a terminator. */
  const BufferSize := 9

  function Min(a: int, b: int): int
  {
    if a <= b then a else b
  }

  /** The length of a C string: the characters before the first NUL (a
      sequence without NUL ends at its end). */
  function StrLen(s: seq<char>): (n: nat)
    ensures n <= |s|
    ensures forall i :: 0 <= i < n ==> s[i] != '\0'
    ensures n < |s| ==> s[n] == '\0'
  {
    if s == [] || s[0] == '\0' then 0 else 1 + StrLen(s[1..])
  }

  /** How many characters display(letters, pos, count) stores for a valid pos:
      none for a non-positive count, otherwise up to the last position. */
  function CharsStored(pos: int, count: int): (n: nat)
    requires 0 <= pos < Positions
    ensures n <= Positions - pos
    ensures count > 0 ==> n == Min(count, Positions - pos)
    ensures count <= 0 ==> n == 0
  {
    if count <= 0 then 0 else Min(count, Positions - pos)
  }

  /** The text after storing letters[0..n) at pos, pos+1, ..., written one
      character after the other. */
  function Overlay(text: seq<char>, letters: seq<char>, pos: nat, n: nat): (r: seq<char>)
    requires pos + n <= |text| && n <= |letters|
    ensures |r| == |text|
  {
    if n == 0 then text
    else Overlay(text, letters, pos, n - 1)[pos + n - 1 := letters[n - 1]]
  }

  /** Overlay stores letters[j - pos] in each position j of the window and
      leaves every other position as it was. */
  lemma {:induction false} OverlayAt(text: seq<char>, letters: seq<char>, pos: nat, n: nat, j: nat)
    requires pos + n <= |text| && n <= |letters| && j < |text|
    ensures Overlay(text, letters, pos, n)[j] == if pos <= j < pos + n then letters[j - pos] else text[j]
  {
    if n > 0 {
      OverlayAt(text, letters, pos, n - 1, j);
    }
  }

  /** A write within the visible positions keeps the terminator slot. */
  lemma OverlayKeepsTerminator(text: seq<char>, letters: seq<char>, pos: nat, n: nat)
    requires |text| == BufferSize && pos + n <= Positions && n <= |letters|
    ensures Overlay(text, letters, pos, n)[Positions] == text[Positions]
  {
  }

  /** Storing one character is a single position update. */
  lemma OverlayOne(text: seq<char>, letters: seq<char>, pos: nat)
    requires pos < |text| && 1 <= |letters|
    ensures Overlay(text, letters, pos, 1) == text[pos := letters[0]]
  {
  }

  /** isspace in the C locale: space, tab, newline, vertical tab, form feed,
      carriage return. */
  predicate IsSpace(c: char)
  {
    c == ' ' || 9 <= c as int <= 13
  }

  /** The bit of the dot mask that belongs to position k: bit 7-k. */
  function DotMask(k: nat): bv8
    requires k < Positions
  {
    [0x80, 0x40, 0x20, 0x10, 0x08, 0x04, 0x02, 0x01][k]
  }

  /** DotMask is the shifted bit 1 << (7-k) that display_dots computes. */
  lemma DotMaskIsShift(k: nat)
    requires k < Positions
    ensures DotMask(k) == 1 << (7 - k)
  {
  }

  /** Whether the dot at position k is lit. */
  predicate DotOn(bits: bv8, k: nat)
    requires k < Positions
  {
    bits & DotMask(k) != 0
  }

  /** Two masks with the same dot at every position are equal. */
  lemma DotsEqual(a: bv8, b: bv8)
    requires forall k :: 0 <= k < Positions ==> DotOn(a, k) == DotOn(b, k)
    ensures a == b
  {
    assert DotOn(a, 0) == DotOn(b, 0) && DotOn(a, 1) == DotOn(b, 1);
    assert DotOn(a, 2) == DotOn(b, 2) && DotOn(a, 3) == DotOn(b, 3);
    assert DotOn(a, 4) == DotOn(b, 4) && DotOn(a, 5) == DotOn(b, 5);
    assert DotOn(a, 6) == DotOn(b, 6) && DotOn(a, 7) == DotOn(b, 7);
  }

  /** The dot at position k after one pattern character c: whitespace keeps
      it, '-' clears it, anything else lights it. */
  function DotAfter(bits: bv8, k: nat, c: char): bool
    requires k < Positions
  {
    if IsSpace(c) then DotOn(bits, k) else c != '-'
  }

  /** The effect of pattern character c at position k on the mask. */
  function DotStep(bits: bv8, k: nat, c: char): bv8
    requires k < Positions
  {
    if IsSpace(c) then bits
    else if c == '-' then bits & !DotMask(k)
    else bits | DotMask(k)
  }

  /** One pattern character decides the dot at its own position as DotAfter
      says and leaves every other dot alone. */
  lemma DotStepAt(bits: bv8, k: nat, c: char, j: nat)
    requires k < Positions && j < Positions
    ensures DotOn(DotStep(bits, k, c), j) == if j == k then DotAfter(bits, k, c) else DotOn(bits, j)
  {
    var m := [0x80, 0x40, 0x20, 0x10, 0x08, 0x04, 0x02, 0x01];
    assert DotMask(k) == m[k] && DotMask(j) == m[j];
    assert forall a, b :: 0 <= a < b < Positions ==> m[a] & m[b] == 0;
  }

  /** The mask after applying the pattern characters p[0], p[1], ... to
      positions 0, 1, ... in order. */
  function ApplyDots(bits: bv8, p: seq<char>): bv8
    requires |p| <= Positions
  {
    if p == [] then bits
    else DotStep(ApplyDots(bits, p[..|p| - 1]), |p| - 1, p[|p| - 1])
  }

  /** Position by position: a consulted pattern character decides the dot as
      DotAfter says, and positions past the pattern keep their dot. */
  lemma {:induction false} ApplyDotsAt(bits: bv8, p: seq<char>, k: nat)
    requires |p| <= Positions && k < Positions
    ensures DotOn(ApplyDots(bits, p), k) == if k < |p| then DotAfter(bits, k, p[k]) else DotOn(bits, k)
  {
    if p != [] {
      var q := p[..|p| - 1];
      ApplyDotsAt(bits, q, k);
      DotStepAt(ApplyDots(bits, q), |p| - 1, p[|p| - 1], k);
      if k < |q| {
        assert q[k] == p[k];
      }
    }
  }

  /** The pattern display_dots uses in place of a NULL argument. */
  const NoDots := "--------"

  /** The characters display_dots consults: those of the pattern (or of
      NoDots for NULL) before its terminator, at most eight. */
  function ConsultedDots(dots: Option<seq<char>>): (p: seq<char>)
    ensures dots.None? ==> p == NoDots
    ensures var pattern := if dots.None? then NoDots else dots.value;
      |p| == Min(Positions, StrLen(pattern)) && forall i :: 0 <= i < |p| ==> p[i] == pattern[i]
    ensures |p| <= Positions
    ensures '\0' !in p
  {
    var pattern := if dots.None? then NoDots else dots.value;
    pattern[..Min(Positions, StrLen(pattern))]
  }

  /** A NULL pattern clears every dot, whatever the mask was. */
  lemma NullPatternClearsDots(bits: bv8)
    ensures ApplyDots(bits, ConsultedDots(None)) == 0
  {
    var p := ConsultedDots(None);
    assert StrLen(NoDots) == 8;
    assert p == NoDots;
    forall k | 0 <= k < Positions
      ensures DotOn(ApplyDots(bits, p), k) == DotOn(0, k)
    {
      ApplyDotsAt(bits, p, k);
    }
    DotsEqual(ApplyDots(bits, p), 0);
  }

  /** A pattern with no characters before its terminator changes nothing. */
  lemma EmptyPatternKeepsDots(bits: bv8, pattern: seq<char>)
    requires StrLen(pattern) == 0
    ensures ApplyDots(bits, ConsultedDots(Some(pattern))) == bits
  {
  }

  /** The dot mask after display_dots(dots), stated position by position. */
  lemma ConsultedDotsAt(bits: bv8, dots: Option<seq<char>>, k: nat)
    requires k < Positions
    ensures var p := ConsultedDots(dots);
      DotOn(ApplyDots(bits, p), k) == if k < |p| then DotAfter(bits, k, p[k]) else DotOn(bits, k)
  {
    ApplyDotsAt(bits, ConsultedDots(dots), k);
  }
}
