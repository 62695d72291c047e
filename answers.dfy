/**
 * The yes/no answer helpers used by the "play again" and "save score"
 * prompts. Both look only at the first character of the answer after
 * lower-casing it.
 */
module Answers {

  /** Lower-cases an ASCII capital letter and leaves every other character alone. */
  function LowerChar(c: char): (r: char)
    ensures 'A' <= c <= 'Z' ==> 'a' <= r <= 'z' && r as int - c as int == 32
    ensures !('A' <= c <= 'Z') ==> r == c
  {
    if 'A' <= c <= 'Z' then (c as int + 32) as char else c
  }

  /** The answer with every character passed through LowerChar. */
  function Lower(s: string): (r: string)
    ensures |r| == |s|
    ensures forall i :: 0 <= i < |s| ==> r[i] == LowerChar(s[i])
  {
    if s == [] then [] else [LowerChar(s[0])] + Lower(s[1..])
  }

  /** An answer is valid when it is non-empty and starts with y or n, in either case. */
  function ValidateYesNo(val: string): (r: bool)
    ensures r <==> |val| > 0 && (val[0] == 'y' || val[0] == 'Y' || val[0] == 'n' || val[0] == 'N')
  {
    var normalized := Lower(val);
    |normalized| > 0 && (normalized[0] == 'y' || normalized[0] == 'n')
  }

  /** An answer means yes when it starts with y or Y; anything else, the empty answer included, means no. */
  function ConvertYNtoTrueFalse(val: string): (r: bool)
    ensures r <==> |val| > 0 && (val[0] == 'y' || val[0] == 'Y')
    ensures r ==> ValidateYesNo(val)
  {
    var normalized := Lower(val);
    |normalized| > 0 && normalized[0] == 'y'
  }

  /** A valid answer that does not mean yes starts with n or N. */
  lemma ValidNoStartsWithN(val: string)
    requires ValidateYesNo(val) && !ConvertYNtoTrueFalse(val)
    ensures val[0] == 'n' || val[0] == 'N'
  {
  }

  /** The answers ValidateYesNo is exercised with in the repository's tests. */
  lemma ValidateExamples()
    ensures ValidateYesNo("Y") && ValidateYesNo("y") && ValidateYesNo("N") && ValidateYesNo("n")
    ensures !ValidateYesNo("something else")
  {
    var other := "something else";
    assert other[0] == 's';
  }

  /** The answers ConvertYNtoTrueFalse is exercised with in the repository's tests. */
  lemma ConvertExamples()
    ensures ConvertYNtoTrueFalse("Y") && ConvertYNtoTrueFalse("y")
    ensures !ConvertYNtoTrueFalse("N") && !ConvertYNtoTrueFalse("n")
  {
  }
}
