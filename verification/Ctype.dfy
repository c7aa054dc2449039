/** Character classes of the 8-bit characters: lib/ctype.c, lines 9-33. */
module Ctype {

  const NUL: char := 0 as char

  predicate IsDigit(c: char) {
    '0' <= c <= '9'
  }

  predicate IsXdigit(c: char) {
    IsDigit(c) || 'A' <= c <= 'F' || 'a' <= c <= 'f'
  }

  // Tab to carriage return, space, and the non-breaking space of Latin-1.
  predicate IsSpace(c: char) {
    9 <= c as int <= 13 || c == ' ' || c as int == 160
  }

  predicate IsLower(c: char) {
    'a' <= c <= 'z' || (223 <= c as int <= 255 && c as int != 247)
  }

  function ToUpper(c: char): char {
    if IsLower(c) then (c as int - 32) as char else c
  }

  /** The table of lib/ctype.c, in runs of equal entries: the codes first to last, and the
      letters of the masks in an entry, with B for the hard space. */
  datatype Run = Run(first: int, last: int, mask: string)

  const TABLE: seq<Run> := [
    Run(0, 8, "C"), Run(9, 13, "CS"), Run(14, 31, "C"), Run(32, 32, "SB"), Run(33, 47, "P"),
    Run(48, 57, "D"), Run(58, 64, "P"), Run(65, 70, "UX"), Run(71, 90, "U"), Run(91, 96, "P"),
    Run(97, 102, "LX"), Run(103, 122, "L"), Run(123, 126, "P"), Run(127, 127, "C"), Run(128, 159, ""),
    Run(160, 160, "SB"), Run(161, 191, "P"), Run(192, 214, "U"), Run(215, 215, "P"), Run(216, 222, "U"),
    Run(223, 246, "L"), Run(247, 247, "P"), Run(248, 255, "L")]

  /** The predicates are the tests of the masks of the table, whose runs cover all 8-bit codes. */
  lemma TableClasses(i: nat, c: char)
    requires i < |TABLE| && TABLE[i].first <= c as int <= TABLE[i].last
    ensures IsDigit(c) <==> 'D' in TABLE[i].mask
    ensures IsXdigit(c) <==> 'D' in TABLE[i].mask || 'X' in TABLE[i].mask
    ensures IsSpace(c) <==> 'S' in TABLE[i].mask
    ensures IsLower(c) <==> 'L' in TABLE[i].mask
    ensures TABLE[i].first == if i == 0 then 0 else TABLE[i - 1].last + 1
    ensures i == |TABLE| - 1 ==> TABLE[i].last == 255
  {
  }
}
