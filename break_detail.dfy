/** The break record of a comparison: one difference between the reference
    and the candidate file, with its description text and ToString. */
module Breaks {
  import opened CsvTypes

  /** A BreakDetail. A field the source leaves null is the empty string here,
      an int field it leaves unset is 0. */
  datatype BreakDetail = BreakDetail(
    breakType: BreakType,
    breakDescription: string,
    breakKey: string,
    referenceRow: int,
    candidateRow: int,
    column: string,
    referenceValue: string,
    candidateValue: string)

  /** `new BreakDetail()`: every field at its default. */
  function Blank(): (b: BreakDetail)
    ensures b.breakType == Match && b.referenceRow == 0 && b.candidateRow == 0
    ensures b.breakDescription == b.breakKey == b.column == b.referenceValue == b.candidateValue == ""
  {
    BreakDetail(Match, "", "", 0, 0, "", "", "")
  }

  // ---------------------------------------------------------------------
  // Decimal text of an int, as string interpolation writes it
  // ---------------------------------------------------------------------

  function DigitChar(d: nat): (c: char)
    requires d < 10
    ensures '0' <= c <= '9' && c as int - '0' as int == d
  {
    ['0', '1', '2', '3', '4', '5', '6', '7', '8', '9'][d]
  }

  /** The decimal digits of `n`, most significant first, without leading zeros. */
  function NatToString(n: nat): (s: string)
    decreases n
  {
    if n < 10 then [DigitChar(n)] else NatToString(n / 10) + [DigitChar(n % 10)]
  }

  predicate IsDigits(s: string) {
    forall k :: 0 <= k < |s| ==> '0' <= s[k] <= '9'
  }

  /** The value of a string of decimal digits. */
  function DigitsValue(s: string): nat
    requires IsDigits(s)
    decreases |s|
  {
    if s == [] then 0
    else DigitsValue(s[..|s| - 1]) * 10 + (s[|s| - 1] as int - '0' as int)
  }

  /** `{n}` for an int: a minus sign before the digits of a negative value. */
  function IntToString(n: int): string {
    if n < 0 then "-" + NatToString(-n) else NatToString(n)
  }

  /** Reading the digits back gives the number; there is at least one digit
      and no leading zero. */
  lemma {:induction false} NatToStringValue(n: nat)
    ensures var s := NatToString(n);
      && s != [] && IsDigits(s) && DigitsValue(s) == n
      && (s[0] == '0' ==> n == 0)
    decreases n
  {
    var s := NatToString(n);
    if n >= 10 {
      NatToStringValue(n / 10);
      var p := NatToString(n / 10);
      assert s[..|s| - 1] == p;
    }
  }

  /** The text of an int: either "-" and digits or just digits, and the
      number can be read back from it. */
  lemma IntToStringValue(n: int)
    ensures var s := IntToString(n);
      if n < 0 then s[0] == '-' && IsDigits(s[1..]) && -(DigitsValue(s[1..]) as int) == n
      else IsDigits(s) && DigitsValue(s) == n
  {
    if n < 0 {
      NatToStringValue(-n);
      assert IntToString(n)[1..] == NatToString(-n);
    } else {
      NatToStringValue(n);
    }
  }

  /** IntToString is one-to-one: different row indices print differently. */
  lemma IntToStringInjective(m: int, n: int)
    requires IntToString(m) == IntToString(n)
    ensures m == n
  {
    IntToStringValue(m);
    IntToStringValue(n);
    NatToStringValue(if m < 0 then -m else m);
  }

  // ---------------------------------------------------------------------
  // The 7-argument constructor and ToString
  // ---------------------------------------------------------------------

  /** The description the 7-argument constructor builds. */
  function MismatchDescription(breakKey: string, referenceRow: int, referenceValue: string,
                               candidateRow: int, candidateValue: string): string
  {
    "Key:" + breakKey + ", Reference Row:" + IntToString(referenceRow) + ", Value:" + referenceValue
    + " != Candidate Row:" + IntToString(candidateRow) + ", Value:" + candidateValue
  }

  /** `new BreakDetail(breakType, breakKey, referenceRow, candidateRow, column,
      referenceValue, candidateValue)`. */
  function NewBreak(breakType: BreakType, breakKey: string, referenceRow: int, candidateRow: int,
                    column: string, referenceValue: string, candidateValue: string): (b: BreakDetail)
    ensures b.breakType == breakType && b.breakKey == breakKey
    ensures b.referenceRow == referenceRow && b.candidateRow == candidateRow
    ensures b.column == column && b.referenceValue == referenceValue && b.candidateValue == candidateValue
    ensures b.breakDescription == MismatchDescription(breakKey, referenceRow, referenceValue, candidateRow, candidateValue)
  {
    BreakDetail(breakType, MismatchDescription(breakKey, referenceRow, referenceValue, candidateRow, candidateValue),
                breakKey, referenceRow, candidateRow, column, referenceValue, candidateValue)
  }

  /** The description does not depend on the break type or the column name. */
  lemma DescriptionIgnoresTypeAndColumn(t1: BreakType, t2: BreakType, k: string, r: int, c: int,
                                        col1: string, col2: string, rv: string, cv: string)
    ensures NewBreak(t1, k, r, c, col1, rv, cv).breakDescription == NewBreak(t2, k, r, c, col2, rv, cv).breakDescription
  {
  }

  /** The description opens with "Key:" and the key. */
  lemma DescriptionKeyPrefix(k: string, r: int, rv: string, c: int, cv: string)
    ensures var d := MismatchDescription(k, r, rv, c, cv);
      |d| >= 4 + |k| && d[..4] == "Key:" && d[4..4 + |k|] == k
  {
    var rest := ", Reference Row:" + IntToString(r) + ", Value:" + rv
                + " != Candidate Row:" + IntToString(c) + ", Value:" + cv;
    assert MismatchDescription(k, r, rv, c, cv) == "Key:" + k + rest;
    ConcatParts("Key:", k, rest);
  }

  /** The three parts of a concatenation can be read back by position. */
  lemma ConcatParts(x: string, y: string, z: string)
    ensures var s := x + y + z;
      && |s| == |x| + |y| + |z| && s[..|x|] == x && s[|x|..|x| + |y|] == y && s[|x| + |y|..] == z
  {
    var s := x + y + z;
    assert s[..|x|] == x;
    assert s[|x|..|x| + |y|] == y;
    assert s[|x| + |y|..] == z;
  }

  /** The name the runtime prints for a BreakType value. */
  function BreakTypeName(t: BreakType): string {
    match t
    case Match => "Match"
    case ColumnsDifferent => "ColumnsDifferent"
    case RowInReferenceNotInCandidate => "RowInReferenceNotInCandidate"
    case RowInCandidateNotInReference => "RowInCandidateNotInReference"
    case ValueMismatch => "ValueMismatch"
    case ProcessFailure => "ProcessFailure"
  }

  /** Distinct break types print distinctly. */
  lemma BreakTypeNameInjective(s: BreakType, t: BreakType)
    requires BreakTypeName(s) == BreakTypeName(t)
    ensures s == t
  {
  }

  /** `BreakDetail.ToString()`. */
  function ToString(b: BreakDetail): string {
    "Break Type: " + BreakTypeName(b.breakType) + ". Description " + b.breakDescription
  }

  /** ToString opens with "Break Type: " and ends with the description. */
  lemma ToStringParts(b: BreakDetail)
    ensures var s := ToString(b); var n := 12 + |BreakTypeName(b.breakType)| + 14;
      && |s| == n + |b.breakDescription| && s[..12] == "Break Type: "
      && s[12..12 + |BreakTypeName(b.breakType)|] == BreakTypeName(b.breakType)
      && s[n..] == b.breakDescription
  {
    var name := BreakTypeName(b.breakType);
    ConcatParts("Break Type: ", name, ". Description " + b.breakDescription);
    assert ToString(b) == "Break Type: " + name + (". Description " + b.breakDescription);
    assert (". Description " + b.breakDescription)[14..] == b.breakDescription;
  }

  /** Two breaks print the same text only when they have the same type and
      the same description. */
  lemma ToStringDetermines(a: BreakDetail, b: BreakDetail)
    requires ToString(a) == ToString(b)
    ensures a.breakType == b.breakType && a.breakDescription == b.breakDescription
  {
    var s := ToString(a);
    ToStringParts(a);
    ToStringParts(b);
    var na, nb := BreakTypeName(a.breakType), BreakTypeName(b.breakType);
    assert s[12] == na[0] == nb[0] by {
      assert s[12..12 + |na|][0] == na[0];
      assert s[12..12 + |nb|][0] == nb[0];
    }
    if na[0] == 'R' {
      assert s[17] == na[5] == nb[5] by {
        assert s[12..12 + |na|][5] == na[5];
        assert s[12..12 + |nb|][5] == nb[5];
      }
    }
    NameFromLetters(a.breakType, b.breakType);
  }

  /** Break type names differ in their first letter, or in their sixth when
      both start with 'R'. */
  lemma NameFromLetters(s: BreakType, t: BreakType)
    requires var ns, nt := BreakTypeName(s), BreakTypeName(t);
      ns[0] == nt[0] && (ns[0] == 'R' ==> ns[5] == nt[5])
    ensures s == t
  {
  }

  // ---------------------------------------------------------------------
  // The breaks the comparer builds with the parameterless constructor
  // ---------------------------------------------------------------------

  /** An orphan break (CSVComparer.AddOrphan): the row index on its own side
      and -1 on the other. */
  function OrphanBreak(breakType: BreakType, key: string, rowIndex: int): (b: BreakDetail)
    ensures b.breakType == breakType && b.breakKey == key
    ensures b.referenceRow == (if breakType == RowInReferenceNotInCandidate then rowIndex else -1)
    ensures b.candidateRow == (if breakType == RowInCandidateNotInReference then rowIndex else -1)
    ensures b.breakDescription == "Key missing: " + key
    ensures b.column == b.referenceValue == b.candidateValue == ""
  {
    Blank().(breakType := breakType, breakKey := key,
             referenceRow := if breakType == RowInReferenceNotInCandidate then rowIndex else -1,
             candidateRow := if breakType == RowInCandidateNotInReference then rowIndex else -1,
             breakDescription := "Key missing: " + key)
  }

  /** The break for rows of different widths (CSVComparer.CompareValues). */
  function ColumnsBreak(referenceCount: nat, candidateCount: nat): (b: BreakDetail)
    ensures b.breakType == ColumnsDifferent
    ensures b.breakDescription == "Reference has " + NatToString(referenceCount)
                                  + " columns, Candidate has " + NatToString(candidateCount) + " columns"
    ensures b.breakKey == "" && b.referenceRow == 0 && b.candidateRow == 0
  {
    Blank().(breakType := ColumnsDifferent,
             breakDescription := "Reference has " + NatToString(referenceCount)
                                 + " columns, Candidate has " + NatToString(candidateCount) + " columns")
  }

  /** The break a loader adds when reading its file throws. */
  function ProcessFailureBreak(file: string, message: string): (b: BreakDetail)
    ensures b.breakType == ProcessFailure
    ensures b.breakDescription == "Problem loading " + file + " : " + message
    ensures b.breakKey == "" && b.referenceRow == 0 && b.candidateRow == 0
  {
    Blank().(breakType := ProcessFailure, breakDescription := "Problem loading " + file + " : " + message)
  }
}
