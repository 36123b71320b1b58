/** The quote-aware line tokenizer of the comparer (`SplitStringWithQuotes`
    in CSVComparer.cs and its multi-character-delimiter twin
    `RowHelper.SplitRowWithQuotes`). Both scan the line with the same index
    arithmetic; they differ only in how far they step past a delimiter (one
    character, or the delimiter's length), so one loop serves both. The
    tokenizer keeps quote characters verbatim inside the fields. */
module Tokenizer {
  import opened Wrappers

  const Quote: char := '"'

  // ---------------------------------------------------------------------
  // String primitives, compared character by character (ordinal)
  // ---------------------------------------------------------------------

  /** `s[k + t..k + |v|]` equals `v[t..]`, compared character by character. */
  predicate MatchFrom(s: string, v: string, k: nat, t: nat)
    requires t <= |v| && k + |v| <= |s|
    decreases |v| - t
  {
    t == |v| || (s[k + t] == v[t] && MatchFrom(s, v, k, t + 1))
  }

  /** `v` occurs in `s` at position `k` (ordinal comparison). */
  predicate OccursAt(s: string, v: string, k: nat) {
    k + |v| <= |s| && MatchFrom(s, v, k, 0)
  }

  /** The character-by-character comparison is slice equality. */
  lemma {:induction false} MatchFromSlice(s: string, v: string, k: nat, t: nat)
    requires t <= |v| && k + |v| <= |s|
    ensures MatchFrom(s, v, k, t) <==> s[k + t..k + |v|] == v[t..]
    decreases |v| - t
  {
    if t < |v| {
      MatchFromSlice(s, v, k, t + 1);
      assert s[k + t..k + |v|] == [s[k + t]] + s[k + t + 1..k + |v|];
      assert v[t..] == [v[t]] + v[t + 1..];
    }
  }

  /** OccursAt as a slice equation. */
  lemma OccursAtSlice(s: string, v: string, k: nat)
    requires k + |v| <= |s|
    ensures OccursAt(s, v, k) <==> s[k..k + |v|] == v
  {
    MatchFromSlice(s, v, k, 0);
  }

  /** `s.IndexOf(v, from)`: the first occurrence of `v` at or after `from`,
      or -1. (.NET throws when `from > |s|`; callers check that first.) */
  function IndexOf(s: string, v: string, from: nat): (r: int)
    requires from <= |s|
    ensures r == -1 || from <= r <= |s| - |v|
    ensures |v| == 0 ==> r == from
    decreases |s| - from
  {
    if from + |v| > |s| then -1
    else if MatchFrom(s, v, from, 0) then from
    else IndexOf(s, v, from + 1)
  }

  /** IndexOf finds the first occurrence, and -1 means there is none. */
  lemma {:induction false} IndexOfFirst(s: string, v: string, from: nat)
    requires from <= |s|
    ensures IndexOf(s, v, from) != -1 ==> OccursAt(s, v, IndexOf(s, v, from))
    ensures IndexOf(s, v, from) != -1 ==> forall k :: from <= k < IndexOf(s, v, from) ==> !OccursAt(s, v, k)
    ensures IndexOf(s, v, from) == -1 ==> forall k :: from <= k ==> !OccursAt(s, v, k)
    decreases |s| - from
  {
    if from + |v| <= |s| && !MatchFrom(s, v, from, 0) {
      IndexOfFirst(s, v, from + 1);
    }
  }

  /** `s.IndexOf("\"", from)`: the first quote at or after `from`, or -1. */
  function IndexOfQuote(s: string, from: nat): (r: int)
    requires from <= |s|
    ensures r == -1 || (from <= r < |s| && s[r] == Quote)
    decreases |s| - from
  {
    if from == |s| then -1
    else if s[from] == Quote then from
    else IndexOfQuote(s, from + 1)
  }

  /** IndexOfQuote finds the first quote, and -1 means there is none. */
  lemma {:induction false} IndexOfQuoteFirst(s: string, from: nat)
    requires from <= |s|
    ensures IndexOfQuote(s, from) != -1 ==> forall k :: from <= k < IndexOfQuote(s, from) ==> s[k] != Quote
    ensures IndexOfQuote(s, from) == -1 ==> forall k :: from <= k < |s| ==> s[k] != Quote
    decreases |s| - from
  {
    if from < |s| && s[from] != Quote {
      IndexOfQuoteFirst(s, from + 1);
    }
  }

  /** `s.EndsWith(v)`. */
  predicate EndsWith(s: string, v: string) {
    |v| <= |s| && OccursAt(s, v, |s| - |v|)
  }

  // ---------------------------------------------------------------------
  // Closing-quote search (GetEndQuoteIndex)
  // ---------------------------------------------------------------------

  /** Quotes in `line[i..j]` occur only as escaped pairs `""`, read left to
      right. */
  predicate Paired(line: string, i: nat, j: nat)
    requires i <= j <= |line|
    decreases j - i
  {
    if i == j then true
    else if line[i] != Quote then Paired(line, i + 1, j)
    else i + 1 < j && line[i + 1] == Quote && Paired(line, i + 2, j)
  }

  /** The search loop of GetEndQuoteIndex from query index `q`, up to the
      point where no further quote exists: the first quote after `q` that is
      the last character or not followed by another quote, skipping `""`
      pairs; -1 when no such quote remains. */
  function ScanQuote(line: string, q: int): (r: int)
    requires -1 <= q < |line|
    ensures r == -1 || (q < r < |line| && line[r] == Quote && (r + 1 == |line| || line[r + 1] != Quote))
    decreases |line| - q
  {
    var next := IndexOfQuote(line, q + 1);
    if next == -1 then -1
    else if next + 1 == |line| || line[next + 1] != Quote then next
    else ScanQuote(line, next + 1)
  }

  /** The text the closing-quote search passes over holds only escaped
      `""` pairs: up to the closing quote when there is one, and to the end of
      the line when there is none. */
  lemma {:induction false} ScanQuotePaired(line: string, q: int)
    requires -1 <= q < |line|
    ensures ScanQuote(line, q) == -1 ==> Paired(line, q + 1, |line|)
    ensures ScanQuote(line, q) != -1 ==> Paired(line, q + 1, ScanQuote(line, q))
    decreases |line| - q
  {
    var next := IndexOfQuote(line, q + 1);
    IndexOfQuoteFirst(line, q + 1);
    if next == -1 {
      NoQuotePaired(line, q + 1, |line|);
    } else if next + 1 == |line| || line[next + 1] != Quote {
      NoQuotePaired(line, q + 1, next);
    } else {
      ScanQuotePaired(line, next + 1);
      var r := ScanQuote(line, next + 1);
      PairedAfterQuotePair(line, q + 1, next, if r == -1 then |line| else r);
    }
  }

  /** Quote-free text is paired. */
  lemma {:induction false} NoQuotePaired(line: string, i: nat, j: nat)
    requires i <= j <= |line|
    requires forall k :: i <= k < j ==> line[k] != Quote
    ensures Paired(line, i, j)
    decreases j - i
  {
    if i < j {
      NoQuotePaired(line, i + 1, j);
    }
  }

  /** Quote-free text, a `""` pair at `n`, then paired text, is paired. */
  lemma {:induction false} PairedAfterQuotePair(line: string, i: nat, n: nat, r: nat)
    requires i <= n && n + 2 <= r <= |line|
    requires forall k :: i <= k < n ==> line[k] != Quote
    requires line[n] == Quote && line[n + 1] == Quote
    requires Paired(line, n + 2, r)
    ensures Paired(line, i, r)
    decreases n - i
  {
    if i < n {
      PairedAfterQuotePair(line, i + 1, n, r);
    }
  }

  /** What GetEndQuoteIndex returns for the opening quote at `start`, or None
      when it never returns. When the search runs out of quotes, the loop sets
      its query index to `-1 + 1 == 0`: if the line starts with a quote it then
      searches again from position 1 (and loops forever if that search runs
      out too); otherwise it returns -1. */
  function EndQuote(line: string, start: nat): Option<int>
    requires start < |line|
  {
    var r := ScanQuote(line, start);
    if r != -1 || line[0] != Quote then Some(r)
    else
      var r0 := ScanQuote(line, 0);
      if r0 != -1 then Some(r0) else None
  }

  /** The meaning of EndQuote: a returned index is a closing quote whose
      enclosed text (from the opening quote at `start`, or from position 0
      after the restart) holds only escaped pairs; -1 means no closing quote
      exists after `start`; the search diverges exactly when the line opens
      with a quote that is never closed. */
  lemma EndQuoteMeaning(line: string, start: nat)
    requires start < |line|
    ensures EndQuote(line, start).None? <==>
      line[0] == Quote && ScanQuote(line, start) == -1 && ScanQuote(line, 0) == -1
    ensures EndQuote(line, start) == Some(-1) ==> Paired(line, start + 1, |line|)
    ensures EndQuote(line, start).Some? && EndQuote(line, start).value != -1 ==>
      var e := EndQuote(line, start).value;
      && e < |line| && line[e] == Quote && (e + 1 == |line| || line[e + 1] != Quote)
      && ((start < e && Paired(line, start + 1, e)) || (line[0] == Quote && 0 < e && Paired(line, 1, e)))
  {
    ScanQuotePaired(line, start);
    ScanQuotePaired(line, 0);
  }

  /** GetEndQuoteIndex (CSVComparer.cs and RowHelper.cs share this code). */
  method GetEndQuoteIndex(line: string, startingQuoteIndex: nat) returns (r: int)
    requires startingQuoteIndex < |line|
    requires EndQuote(line, startingQuoteIndex).Some?
    ensures Some(r) == EndQuote(line, startingQuoteIndex)
  {
    var queryIndex: int := startingQuoteIndex;
    ghost var restarted := false;
    while true
      invariant -1 <= queryIndex < |line|
      invariant !restarted ==> ScanQuote(line, queryIndex) == ScanQuote(line, startingQuoteIndex)
      invariant restarted ==>
        && line[0] == Quote && ScanQuote(line, startingQuoteIndex) == -1
        && ScanQuote(line, queryIndex) == ScanQuote(line, 0) != -1
      decreases if restarted then 0 else 1, |line| - queryIndex
    {
      var nextQuoteIndex := IndexOfQuote(line, queryIndex + 1);
      if nextQuoteIndex + 1 == |line| || (nextQuoteIndex + 1 < |line| && line[nextQuoteIndex + 1] != Quote) {
        return nextQuoteIndex;
      }
      // Here line[nextQuoteIndex + 1] is a quote: a doubled quote, or (when
      // no quote was found) the quote at position 0. The source's two further
      // branches (terminate, or throw) cannot be reached.
      if nextQuoteIndex == -1 {
        restarted := true;
      }
      queryIndex := nextQuoteIndex + 1;
    }
  }

  // ---------------------------------------------------------------------
  // Splitting a line
  // ---------------------------------------------------------------------

  /** The outcome of splitting: the fields, a .NET ArgumentOutOfRangeException
      (from `IndexOf` past the end or `Substring` with a negative length), or
      a closing-quote search that never returns. */
  datatype SplitOutcome = Columns(fields: seq<string>) | ArgumentOutOfRange | NoTermination

  /** The fields the source appends after its loop: the rest of the line, if
      any, and one more empty field when the line ends with the delimiter. */
  function TailFields(line: string, delimiter: string, quoteSearchIndex: nat): seq<string>
    requires quoteSearchIndex <= |line|
  {
    (if quoteSearchIndex < |line| then [line[quoteSearchIndex..]] else [])
    + (if EndsWith(line, delimiter) then [""] else [])
  }

  /** One field of the splitter's loop: given the start of the field, the
      next delimiter and the next opening quote, the end of the field and the
      next opening quote after it; None when the closing-quote search never
      returns. A quote before the delimiter makes the field run to its
      closing quote, or to the end of the line when that quote is missing or
      is the last character. */
  function FieldEnd(line: string, quoteSearchIndex: nat, startingQuoteIndex: int, delimiterIndex: nat)
    : Option<(int, int)>
    requires delimiterIndex <= |line|
  {
    if startingQuoteIndex > -1 && startingQuoteIndex >= quoteSearchIndex && startingQuoteIndex < delimiterIndex then
      match EndQuote(line, startingQuoteIndex)
      case None => None
      case Some(endQuoteIndex) =>
        if endQuoteIndex == -1 || endQuoteIndex == |line| - 1 then Some((|line|, startingQuoteIndex))
        else Some((endQuoteIndex + 1, IndexOfQuote(line, endQuoteIndex + 2)))
    else Some((delimiterIndex, startingQuoteIndex))
  }

  /** The loop of the splitter from loop state (`quoteSearchIndex`,
      `startingQuoteIndex`) with the fields `acc` already emitted; `advance`
      is the step past a delimiter. */
  function ScanFrom(line: string, delimiter: string, advance: nat,
                    quoteSearchIndex: nat, startingQuoteIndex: int, acc: seq<string>): SplitOutcome
    requires |delimiter| == 0 ==> quoteSearchIndex == 0
    requires |delimiter| > 0 ==> advance >= 1
    decreases |line| - quoteSearchIndex
  {
    if quoteSearchIndex > |line| then ArgumentOutOfRange
    else
      var delimiterIndex := IndexOf(line, delimiter, quoteSearchIndex);
      if delimiterIndex <= 0 then Columns(acc + TailFields(line, delimiter, quoteSearchIndex))
      else
        match FieldEnd(line, quoteSearchIndex, startingQuoteIndex, delimiterIndex)
        case None => NoTermination
        case Some((currentIndex, nextQuote)) =>
          if currentIndex < quoteSearchIndex then ArgumentOutOfRange
          else
            ScanFrom(line, delimiter, advance,
                     if currentIndex < |line| then currentIndex + advance else currentIndex,
                     nextQuote, acc + [line[quoteSearchIndex..currentIndex]])
  }

  /** One iteration of the splitter's loop, unfolded. */
  lemma ScanFromStep(line: string, delimiter: string, advance: nat, quoteSearchIndex: nat,
                     startingQuoteIndex: int, acc: seq<string>, currentIndex: int, nextQuote: int)
    requires |delimiter| > 0 && advance >= 1
    requires quoteSearchIndex <= |line| && currentIndex <= |line|
    requires IndexOf(line, delimiter, quoteSearchIndex) > 0
    requires FieldEnd(line, quoteSearchIndex, startingQuoteIndex, IndexOf(line, delimiter, quoteSearchIndex))
             == Some((currentIndex, nextQuote))
    ensures currentIndex < quoteSearchIndex ==>
      ScanFrom(line, delimiter, advance, quoteSearchIndex, startingQuoteIndex, acc) == ArgumentOutOfRange
    ensures currentIndex >= quoteSearchIndex ==>
      ScanFrom(line, delimiter, advance, quoteSearchIndex, startingQuoteIndex, acc)
      == ScanFrom(line, delimiter, advance,
                  if currentIndex < |line| then currentIndex + advance else currentIndex,
                  nextQuote, acc + [line[quoteSearchIndex..currentIndex]])
  {
  }

  /** One iteration of the splitter's loop outside quotes: the field ends at
      the delimiter. */
  lemma ScanFromPlainStep(line: string, delimiter: string, advance: nat, quoteSearchIndex: nat,
                          startingQuoteIndex: int, acc: seq<string>)
    requires |delimiter| > 0 && advance >= 1 && quoteSearchIndex <= |line|
    requires IndexOf(line, delimiter, quoteSearchIndex) > 0
    requires var delimiterIndex := IndexOf(line, delimiter, quoteSearchIndex);
      !(startingQuoteIndex > -1 && startingQuoteIndex >= quoteSearchIndex && startingQuoteIndex < delimiterIndex)
    ensures var delimiterIndex := IndexOf(line, delimiter, quoteSearchIndex);
      ScanFrom(line, delimiter, advance, quoteSearchIndex, startingQuoteIndex, acc)
      == ScanFrom(line, delimiter, advance, delimiterIndex + advance, startingQuoteIndex,
                  acc + [line[quoteSearchIndex..delimiterIndex]])
  {
  }

  /** One iteration of the splitter's loop at an opening quote before the
      delimiter whose closing quote is not the last character: the field ends
      just after the closing quote. */
  lemma ScanFromQuotedStep(line: string, delimiter: string, advance: nat, quoteSearchIndex: nat,
                           startingQuoteIndex: int, acc: seq<string>, endQuoteIndex: int)
    requires |delimiter| > 0 && advance >= 1 && quoteSearchIndex <= |line|
    requires IndexOf(line, delimiter, quoteSearchIndex) > 0
    requires quoteSearchIndex <= startingQuoteIndex < IndexOf(line, delimiter, quoteSearchIndex)
    requires EndQuote(line, startingQuoteIndex) == Some(endQuoteIndex)
    requires -1 < endQuoteIndex < |line| - 1
    ensures endQuoteIndex + 1 < quoteSearchIndex ==>
      ScanFrom(line, delimiter, advance, quoteSearchIndex, startingQuoteIndex, acc) == ArgumentOutOfRange
    ensures endQuoteIndex + 1 >= quoteSearchIndex ==>
      ScanFrom(line, delimiter, advance, quoteSearchIndex, startingQuoteIndex, acc)
      == ScanFrom(line, delimiter, advance, endQuoteIndex + 1 + advance, IndexOfQuote(line, endQuoteIndex + 2),
                  acc + [line[quoteSearchIndex..endQuoteIndex + 1]])
  {
  }

  /** A loop state whose outcome is not divergence has a field end. */
  lemma ScanFromLive(line: string, delimiter: string, advance: nat, quoteSearchIndex: nat,
                     startingQuoteIndex: int, acc: seq<string>)
    requires |delimiter| > 0 && advance >= 1
    requires quoteSearchIndex <= |line| && IndexOf(line, delimiter, quoteSearchIndex) > 0
    requires ScanFrom(line, delimiter, advance, quoteSearchIndex, startingQuoteIndex, acc) != NoTermination
    ensures FieldEnd(line, quoteSearchIndex, startingQuoteIndex, IndexOf(line, delimiter, quoteSearchIndex)).Some?
  {
  }

  /** The splitter's loop ends when no delimiter is found past position 0. */
  lemma ScanFromExit(line: string, delimiter: string, advance: nat, quoteSearchIndex: nat,
                     startingQuoteIndex: int, acc: seq<string>)
    requires |delimiter| == 0 ==> quoteSearchIndex == 0
    requires |delimiter| > 0 ==> advance >= 1
    requires quoteSearchIndex <= |line| && IndexOf(line, delimiter, quoteSearchIndex) <= 0
    ensures ScanFrom(line, delimiter, advance, quoteSearchIndex, startingQuoteIndex, acc)
         == Columns(acc + TailFields(line, delimiter, quoteSearchIndex))
  {
  }

  /** The outcome of splitting `line`, stepping `advance` past each delimiter. */
  function SplitSpec(line: string, delimiter: string, advance: nat): SplitOutcome
    requires advance == 1 || advance == |delimiter|
  {
    ScanFrom(line, delimiter, advance, 0, IndexOfQuote(line, 0), [])
  }

  /** The body of the splitter's loop that finds where the field starting at
      `quoteSearchIndex` ends, given the next delimiter and the next opening
      quote: a quote before the delimiter is resolved with GetEndQuoteIndex. */
  method FieldEndIndex(line: string, quoteSearchIndex: nat, startingQuoteIndex: int, delimiterIndex: nat)
    returns (currentIndex: int, nextQuote: int)
    requires delimiterIndex <= |line|
    requires FieldEnd(line, quoteSearchIndex, startingQuoteIndex, delimiterIndex).Some?
    ensures FieldEnd(line, quoteSearchIndex, startingQuoteIndex, delimiterIndex) == Some((currentIndex, nextQuote))
  {
    currentIndex, nextQuote := delimiterIndex, startingQuoteIndex;
    if startingQuoteIndex > -1 && startingQuoteIndex >= quoteSearchIndex && startingQuoteIndex < delimiterIndex {
      var endQuoteIndex := GetEndQuoteIndex(line, startingQuoteIndex);
      if endQuoteIndex == -1 || endQuoteIndex == |line| - 1 {
        currentIndex := |line|;
      } else {
        currentIndex := endQuoteIndex + 1;
        nextQuote := IndexOfQuote(line, currentIndex + 1);
      }
    }
  }

  /** The shared loop of SplitStringWithQuotes and SplitRowWithQuotes; None
      when the source throws ArgumentOutOfRangeException. */
  method SplitWithQuotes(line: string, delimiter: string, advance: nat) returns (r: Option<seq<string>>)
    requires advance == 1 || advance == |delimiter|
    requires SplitSpec(line, delimiter, advance) != NoTermination
    ensures r.None? <==> SplitSpec(line, delimiter, advance) == ArgumentOutOfRange
    ensures r.Some? ==> SplitSpec(line, delimiter, advance) == Columns(r.value)
  {
    var startingQuoteIndex := IndexOfQuote(line, 0);
    var columnValues: seq<string> := [];
    var quoteSearchIndex: nat := 0;
    ghost var goal := SplitSpec(line, delimiter, advance);
    while true
      invariant |delimiter| == 0 ==> quoteSearchIndex == 0
      invariant ScanFrom(line, delimiter, advance, quoteSearchIndex, startingQuoteIndex, columnValues) == goal
      decreases |line| - quoteSearchIndex
    {
      if quoteSearchIndex > |line| {
        return None;
      }
      var currentIndex := IndexOf(line, delimiter, quoteSearchIndex);
      if currentIndex <= 0 {
        ScanFromExit(line, delimiter, advance, quoteSearchIndex, startingQuoteIndex, columnValues);
        break;
      }
      var startIndex := quoteSearchIndex;
      ghost var quoteBefore := startingQuoteIndex;
      ScanFromLive(line, delimiter, advance, quoteSearchIndex, startingQuoteIndex, columnValues);
      currentIndex, startingQuoteIndex := FieldEndIndex(line, quoteSearchIndex, startingQuoteIndex, currentIndex);
      ScanFromStep(line, delimiter, advance, startIndex, quoteBefore, columnValues, currentIndex, startingQuoteIndex);
      if currentIndex < startIndex {
        // Substring with a negative length
        return None;
      }
      columnValues := columnValues + [line[startIndex..currentIndex]];
      ghost var nextSearch: nat := if currentIndex < |line| then currentIndex + advance else currentIndex;
      assert ScanFrom(line, delimiter, advance, nextSearch, startingQuoteIndex, columnValues) == goal;
      if currentIndex < |line| {
        quoteSearchIndex := currentIndex + advance;
      } else {
        quoteSearchIndex := currentIndex;
      }
      assert quoteSearchIndex == nextSearch;
    }
    if quoteSearchIndex < |line| {
      columnValues := columnValues + [line[quoteSearchIndex..]];
    }
    if EndsWith(line, delimiter) {
      columnValues := columnValues + [""];
    }
    r := Some(columnValues);
  }

  /** CSVComparer.SplitStringWithQuotes: the loop steps one character past
      each delimiter. */
  method SplitStringWithQuotes(line: string, delimiter: string) returns (r: Option<seq<string>>)
    requires SplitSpec(line, delimiter, 1) != NoTermination
    ensures r.None? <==> SplitSpec(line, delimiter, 1) == ArgumentOutOfRange
    ensures r.Some? ==> SplitSpec(line, delimiter, 1) == Columns(r.value)
  {
    r := SplitWithQuotes(line, delimiter, 1);
  }

  /** RowHelper.SplitRowWithQuotes: the loop steps the delimiter's length past
      each delimiter. */
  method SplitRowWithQuotes(line: string, delimiter: string) returns (r: Option<seq<string>>)
    requires SplitSpec(line, delimiter, |delimiter|) != NoTermination
    ensures r.None? <==> SplitSpec(line, delimiter, |delimiter|) == ArgumentOutOfRange
    ensures r.Some? ==> SplitSpec(line, delimiter, |delimiter|) == Columns(r.value)
  {
    r := SplitWithQuotes(line, delimiter, |delimiter|);
  }

  // ---------------------------------------------------------------------
  // String.Split(string)
  // ---------------------------------------------------------------------

  /** The pieces of `s[i..]` between the occurrences of `d`, found left to
      right without overlap. */
  function SplitFrom(s: string, d: string, i: nat): (r: seq<string>)
    requires |d| > 0 && i <= |s|
    ensures |r| >= 1
    decreases |s| - i
  {
    var j := IndexOf(s, d, i);
    if j == -1 then [s[i..]] else [s[i..j]] + SplitFrom(s, d, j + |d|)
  }

  /** `s.Split(d)` in .NET: an empty separator leaves the string whole. */
  function SplitOn(s: string, d: string): (r: seq<string>)
    ensures |r| >= 1
  {
    if |d| == 0 then [s] else SplitFrom(s, d, 0)
  }

  /** The fields joined back with the separator between them. */
  function Join(fields: seq<string>, d: string): string
  {
    if |fields| == 0 then ""
    else if |fields| == 1 then fields[0]
    else fields[0] + d + Join(fields[1..], d)
  }
}
