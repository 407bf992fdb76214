/** Matriculation numbers: the cohort number left-padded with '0' to two
    characters followed by the participant's index left-padded to three
    (server/src/utils/matricNumber.ts). */
module MatricNumber {
  import opened Decimal

  function Repeat(c: char, k: nat): (r: string)
    ensures |r| == k
    ensures forall i :: 0 <= i < k ==> r[i] == c
  {
    if k == 0 then [] else [c] + Repeat(c, k - 1)
  }

  /** JavaScript's `s.padStart(width, fill)` for a one-character fill. */
  function PadStart(s: string, width: nat, fill: char): string {
    if |s| < width then Repeat(fill, width - |s|) + s else s
  }

  /** padStart never truncates, only prepends: the result is at least
      `width` long, ends with `s` and is `fill` before it. */
  lemma PadStartShape(s: string, width: nat, fill: char)
    ensures var r := PadStart(s, width, fill);
      && |r| == (if |s| < width then width else |s|)
      && r[|r| - |s|..] == s
      && forall i :: 0 <= i < |r| - |s| ==> r[i] == fill
  {
  }

  function CohortPart(cohortNumber: int): string {
    PadStart(IntToDecimal(cohortNumber), 2, '0')
  }

  function IndexPart(userIndex: int): string {
    PadStart(IntToDecimal(userIndex), 3, '0')
  }

  /** generateMatricNumber(cohortNumber, userIndex). */
  function GenerateMatricNumber(cohortNumber: int, userIndex: int): string {
    CohortPart(cohortNumber) + IndexPart(userIndex)
  }

  /** The two parts are the decimal texts of the inputs padded to at least 2
      and 3 characters; nothing is ever cut off (cohort 100 gives "100"). */
  lemma PartsPadWithoutTruncation(cohortNumber: int, userIndex: int)
    ensures var c, d := CohortPart(cohortNumber), IntToDecimal(cohortNumber);
      |c| == (if |d| < 2 then 2 else |d|) && c[|c| - |d|..] == d
    ensures var x, d := IndexPart(userIndex), IntToDecimal(userIndex);
      |x| == (if |d| < 3 then 3 else |d|) && x[|x| - |d|..] == d
    ensures GenerateMatricNumber(cohortNumber, userIndex)
         == CohortPart(cohortNumber) + IndexPart(userIndex)
  {
  }

  /** For an in-range number the padded part is exactly `width` digits and
      reads back as the number. */
  lemma {:induction false} PaddedRoundTrip(n: int, width: nat)
    requires 1 <= width && 0 <= n < Pow10(width)
    ensures var p := PadStart(IntToDecimal(n), width, '0');
      |p| == width && AllDigits(p) && ParseDigits(p) == n
  {
    var d := NatToDecimal(n);
    NatToDecimalLength(n, width);
    ParseNatToDecimal(n);
    var z := Repeat('0', width - |d|);
    ParseLeadingZeros(z, d);
  }

  /** For cohort < 100 and index < 1000 the number is five digits; the first
      two read back as the cohort number and the last three as the index. */
  lemma {:induction false} MatricNumberRoundTrip(cohortNumber: int, userIndex: int)
    requires 0 <= cohortNumber < 100 && 0 <= userIndex < 1000
    ensures var m := GenerateMatricNumber(cohortNumber, userIndex);
      && |m| == 5 && AllDigits(m)
      && ParseDigits(m[..2]) == cohortNumber
      && ParseDigits(m[2..]) == userIndex
  {
    assert Pow10(2) == 100 && Pow10(3) == 1000;
    PaddedRoundTrip(cohortNumber, 2);
    PaddedRoundTrip(userIndex, 3);
    var m := GenerateMatricNumber(cohortNumber, userIndex);
    assert m[..2] == CohortPart(cohortNumber);
    assert m[2..] == IndexPart(userIndex);
  }

  /** In range, two matriculation numbers are equal exactly when both the
      cohort numbers and the indices are; in particular the indices 1..999 of
      one cohort get pairwise distinct numbers. */
  lemma {:induction false} MatricNumberInjective(c1: int, i1: int, c2: int, i2: int)
    requires 0 <= c1 < 100 && 0 <= i1 < 1000
    requires 0 <= c2 < 100 && 0 <= i2 < 1000
    ensures GenerateMatricNumber(c1, i1) == GenerateMatricNumber(c2, i2)
        <==> c1 == c2 && i1 == i2
  {
    MatricNumberRoundTrip(c1, i1);
    MatricNumberRoundTrip(c2, i2);
  }

  /** Example from the enrollment flow: cohort 3, first participant. */
  lemma FirstOfCohortThree()
    ensures GenerateMatricNumber(3, 1) == "03001"
  {
    assert IntToDecimal(3) == "3";
    assert IntToDecimal(1) == "1";
  }

  /** Out of range the fixed-width reading breaks: the 1001st participant of
      cohort 10 and the first of cohort 101 get the same number. */
  lemma OutOfRangeCollision()
    ensures GenerateMatricNumber(10, 1001) == GenerateMatricNumber(101, 1) == "101001"
  {
    assert NatToDecimal(10) == "10" by { assert NatToDecimal(1) == "1"; }
    assert NatToDecimal(100) == NatToDecimal(10) + "0";
    assert NatToDecimal(1001) == NatToDecimal(100) + "1";
    assert NatToDecimal(101) == NatToDecimal(10) + "1";
  }
}
