/**
 The glyph encoder: the two index-aligned tables of seven_segment.h and the
 table walk that the refresh handler performs for the character it is about
 to show.
 */
module Glyphs {

  import opened Wrappers

  /** The renderable characters (inputCharacterOptions). */
  const Keys: seq<char> := [
    '0', '1', '2', '3', '4', '5', '6', '7', '8', '9',
    'A', 'B', 'C', 'D', 'E', 'F', 'G', 'H', 'I', 'J',
    'K', 'L', 'M', 'N', 'O', 'P', 'Q', 'R', 'S', 'T',
    'U', 'V', 'W', 'X', 'Y', 'Z', '-', '=', '_', ' ']

  /** Segment masks (displayOptions); bit k drives segment k, so 0x7F lights all seven. */
  const Masks: seq<int> := [
    0x3F, 0x06, 0x5B, 0x4F, 0x66, 0x6D, 0x7D, 0x07, 0x7F, 0x6F,
    0x77, 0x7C, 0x39, 0x5E, 0x79, 0x71, 0x3D, 0x74, 0x30, 0x1E,
    0x75, 0x38, 0x55, 0x54, 0x5C, 0x73, 0x67, 0x50, 0x2D, 0x78,
    0x3E, 0x1C, 0x6A, 0x76, 0x6E, 0x1B, 0x40, 0x48, 0x08, 0x00]

  /** C `toupper` in the "C" locale: only 'a'..'z' change. */
  function ToUpper(c: char): char {
    if 'a' <= c <= 'z' then (c as int - 32) as char else c
  }

  /** Where a renderable character sits in the tables, or -1: an inverse of Keys. */
  function Position(c: char): int {
    if '0' <= c <= '9' then c as int - '0' as int
    else if 'A' <= c <= 'Z' then c as int - 'A' as int + 10
    else if c == '-' then 36
    else if c == '=' then 37
    else if c == '_' then 38
    else if c == ' ' then 39
    else -1
  }

  /** The tables are index-aligned, 40 entries each, and Position undoes Keys. */
  lemma TablesAligned()
    ensures |Keys| == |Masks| == 40
    ensures forall i :: 0 <= i < |Keys| ==> Position(Keys[i]) == i
  {
  }

  /** No key occurs twice, so at most one entry of the table walk ever matches. */
  lemma KeysDistinct()
    ensures forall i, j :: 0 <= i < j < |Keys| ==> Keys[i] != Keys[j]
  {
    TablesAligned();
  }

  /** Every mask fits the seven segment pins. */
  lemma MasksFitSevenBits()
    ensures forall i :: 0 <= i < |Masks| ==> 0 <= Masks[i] < 128
  {
  }

  /** The keys are upper case, so `toupper` never has to be undone. */
  lemma KeysAreUpperCase()
    ensures forall i :: 0 <= i < |Keys| ==> ToUpper(Keys[i]) == Keys[i]
  {
  }

  /**
   The mask the refresh handler drives for `c`, or None when no entry matches
   (the handler then leaves the segment pins as they were).
   */
  function Lookup(c: char): Option<int> {
    var p := Position(ToUpper(c));
    if 0 <= p < |Masks| then Some(Masks[p]) else None
  }

  /**
   Lookup agrees with the tables: no mask for a character whose upper case is
   not a key, and for one that is, the mask at the key's index.
   */
  lemma LookupMatchesTables(c: char)
    ensures (forall j :: 0 <= j < |Keys| ==> Keys[j] != ToUpper(c)) <==> Lookup(c) == None
    ensures forall i :: 0 <= i < |Keys| && Keys[i] == ToUpper(c) ==> Lookup(c) == Some(Masks[i])
  {
    TablesAligned();
    KeysDistinct();
    if 0 <= Position(ToUpper(c)) {
      KeysAt(ToUpper(c));
    }
  }

  /**
   The table walk of the refresh handler: every entry whose key matches the
   upper-cased character overwrites the chosen mask, with no early exit.
   Because the keys are distinct it picks the same mask as Lookup.
   */
  method ScanTable(c: char) returns (r: Option<int>)
    ensures r == Lookup(c)
  {
    var u := ToUpper(c);
    r := None;
    var i := 0;
    while i < |Keys|
      invariant 0 <= i <= |Keys|
      invariant r == None <==> forall j :: 0 <= j < i ==> Keys[j] != u
      invariant r != None ==> r == Lookup(c)
    {
      if Keys[i] == u {
        LookupAt(c, i);
        r := Some(Masks[i]);
      }
      i := i + 1;
    }
    ScanFinds(c, r);
  }

  /** A matching key selects Lookup's mask. */
  lemma LookupAt(c: char, i: int)
    requires 0 <= i < |Keys| && Keys[i] == ToUpper(c)
    ensures Lookup(c) == Some(Masks[i])
  {
    LookupMatchesTables(c);
  }

  /** When the walk has seen every key, its choice is Lookup's. */
  lemma ScanFinds(c: char, r: Option<int>)
    requires r == None <==> forall j :: 0 <= j < |Keys| ==> Keys[j] != ToUpper(c)
    requires r != None ==> r == Lookup(c)
    ensures r == Lookup(c)
  {
    LookupMatchesTables(c);
  }

  /** Lookup ignores case: 'a' and 'A' select the same mask. */
  lemma LookupIgnoresCase(c: char)
    ensures Lookup(c) == Lookup(ToUpper(c))
    ensures 'a' <= c <= 'z' ==> Lookup(c) == Lookup((c as int - 32) as char)
  {
    assert ToUpper(ToUpper(c)) == ToUpper(c);
  }

  /** The two fixed points of the table: blank is all off, '8' is all on. */
  lemma BlankAndEight()
    ensures Lookup(' ') == Some(0)
    ensures Lookup('8') == Some(0x7F)
  {
    assert Keys[39] == ' ';
    assert Keys[8] == '8';
  }

  /** Every renderable character, in either case, gets a mask that fits seven bits. */
  lemma LookupFits(c: char)
    ensures Lookup(c).Some? ==> 0 <= Lookup(c).value < 128
    ensures Lookup(c).Some? <==> 0 <= Position(ToUpper(c))
  {
    TablesAligned();
    MasksFitSevenBits();
    var u := ToUpper(c);
    if 0 <= Position(u) {
      var p := Position(u);
      assert Keys[p] == u by { KeysAt(u); }
    }
  }

  /** Position finds a renderable character where the table holds it. */
  lemma KeysAt(u: char)
    requires 0 <= Position(u)
    ensures Position(u) < |Keys| && Keys[Position(u)] == u
  {
  }
}
