/**
 * Java's `char`: a UTF-16 code unit, ordered by its numeric value.
 * Command strings are sequences of code units, as Java strings are.
 */
module CodeUnits {

  newtype CodeUnit = u: int | 0 <= u < 0x1_0000

  /** The code unit of a character of a Dafny string literal (all used literals are ASCII). */
  function Unit(c: char): CodeUnit
  {
    if c as int < 0x1_0000 then c as int as CodeUnit else 0xFFFD
  }

  /** The Java string with the same characters as an ASCII literal. */
  function Units(s: string): (r: seq<CodeUnit>)
    ensures |r| == |s|
    ensures forall i :: 0 <= i < |s| ==> r[i] == Unit(s[i])
  {
    seq(|s|, i requires 0 <= i < |s| => Unit(s[i]))
  }
}
