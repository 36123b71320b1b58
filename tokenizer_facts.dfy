/** Properties of the tokenizer: what String.Split produces, when the
    quote-aware splitter agrees with it, and how quoted fields are cut. */
module TokenizerFacts {
  import opened Wrappers
  import opened Tokenizer

  // ---------------------------------------------------------------------
  // String.Split
  // ---------------------------------------------------------------------

  /** Joining the pieces with the separator gives the text back. */
  lemma {:induction false} SplitFromJoin(s: string, d: string, i: nat)
    requires |d| > 0 && i <= |s|
    ensures Join(SplitFrom(s, d, i), d) == s[i..]
    decreases |s| - i
  {
    var j := IndexOf(s, d, i);
    if j != -1 {
      SplitFromJoin(s, d, j + |d|);
      var rest := SplitFrom(s, d, j + |d|);
      assert SplitFrom(s, d, i) == [s[i..j]] + rest;
      IndexOfFirst(s, d, i);
      OccursAtSlice(s, d, j);
      assert s[i..] == s[i..j] + s[j..j + |d|] + s[j + |d|..];
    }
  }

  /** Split and Join are inverse: `Join(Split(s, d), d) == s`. */
  lemma SplitOnJoin(s: string, d: string)
    ensures Join(SplitOn(s, d), d) == s
  {
    if |d| > 0 {
      SplitFromJoin(s, d, 0);
    }
  }

  /** IndexOf returns a position exactly when the separator occurs there
      and nowhere earlier. */
  lemma {:induction false} IndexOfIs(s: string, d: string, i: nat, j: nat)
    requires i <= j <= |s| && OccursAt(s, d, j)
    requires forall k :: i <= k < j ==> !OccursAt(s, d, k)
    ensures IndexOf(s, d, i) == j
    decreases j - i
  {
    if i < j {
      assert !OccursAt(s, d, i);
      IndexOfIs(s, d, i + 1, j);
    }
  }

  /** IndexOf returns -1 when the separator occurs nowhere from `i` on. */
  lemma {:induction false} IndexOfNone(s: string, d: string, i: nat)
    requires i <= |s|
    requires forall k :: i <= k ==> !OccursAt(s, d, k)
    ensures IndexOf(s, d, i) == -1
    decreases |s| - i
  {
    if i + |d| <= |s| {
      assert !OccursAt(s, d, i);
      IndexOfNone(s, d, i + 1);
    }
  }

  /** A one-character separator occurs exactly where that character is. */
  lemma OccursAtChar(s: string, c: char, k: nat)
    ensures OccursAt(s, [c], k) <==> k < |s| && s[k] == c
  {
    if k < |s| {
      assert MatchFrom(s, [c], k, 1);
    }
  }

  predicate CharFree(s: string, c: char) {
    forall k :: 0 <= k < |s| ==> s[k] != c
  }

  /** Splitting, from position `i`, text that is the join of `c`-free pieces
      gives the pieces back. */
  lemma {:induction false} JoinSplitAt(s: string, vs: seq<string>, c: char, i: nat)
    requires |vs| >= 1 && i <= |s| && s[i..] == Join(vs, [c])
    requires forall m :: 0 <= m < |vs| ==> CharFree(vs[m], c)
    ensures SplitFrom(s, [c], i) == vs
    decreases |vs|
  {
    var v := vs[0];
    if |vs| == 1 {
      LastPiece(s, v, c, i);
    } else {
      var rest := vs[1..];
      assert s[i..] == v + [c] + Join(rest, [c]);
      var j := i + |v|;
      assert s[i..][..|v|] == v;
      assert s[i..][|v|] == c;
      assert s[i..][|v| + 1..] == Join(rest, [c]);
      FirstPiece(s, v, c, i);
      JoinSplitAt(s, rest, c, j + 1);
      assert SplitFrom(s, [c], i) == [s[i..j]] + SplitFrom(s, [c], j + 1);
      assert vs == [v] + rest;
    }
  }

  /** A `c`-free tail has no separator: IndexOf gives -1. */
  lemma LastPiece(s: string, v: string, c: char, i: nat)
    requires i <= |s| && s[i..] == v && CharFree(v, c)
    ensures IndexOf(s, [c], i) == -1
  {
    forall k | i <= k ensures !OccursAt(s, [c], k) {
      OccursAtChar(s, c, k);
      if k < |s| {
        assert s[k] == s[i..][k - i];
      }
    }
    IndexOfNone(s, [c], i);
  }

  /** A `c`-free piece followed by `c`: IndexOf finds that `c`, and the piece
      is the slice before it. */
  lemma FirstPiece(s: string, v: string, c: char, i: nat)
    requires i + |v| < |s| && s[i..][..|v|] == v && s[i..][|v|] == c && CharFree(v, c)
    ensures IndexOf(s, [c], i) == i + |v| && s[i..i + |v|] == v
    ensures s[i + |v| + 1..] == s[i..][|v| + 1..]
  {
    var j := i + |v|;
    OccursAtChar(s, c, j);
    forall k | i <= k < j ensures !OccursAt(s, [c], k) {
      OccursAtChar(s, c, k);
      assert s[k] == s[i..][..|v|][k - i];
    }
    IndexOfIs(s, [c], i, j);
    assert s[i..j] == s[i..][..|v|];
  }

  /** Split is the inverse of Join for pieces free of the separator
      character: `Split(Join(vs, c), c) == vs`. */
  lemma JoinSplit(vs: seq<string>, c: char)
    requires |vs| >= 1 && forall m :: 0 <= m < |vs| ==> CharFree(vs[m], c)
    ensures SplitOn(Join(vs, [c]), [c]) == vs
  {
    var s := Join(vs, [c]);
    assert s[0..] == s;
    JoinSplitAt(s, vs, c, 0);
  }

  /** No piece contains the separator. */
  lemma {:induction false} SplitFromNoSeparator(s: string, d: string, i: nat)
    requires |d| > 0 && i <= |s|
    ensures forall m, k :: 0 <= m < |SplitFrom(s, d, i)| && 0 <= k ==> !OccursAt(SplitFrom(s, d, i)[m], d, k)
    decreases |s| - i
  {
    var j := IndexOf(s, d, i);
    IndexOfFirst(s, d, i);
    if j == -1 {
      SliceNoOccurrence(s, d, i, |s|);
      assert s[i..] == s[i..|s|];
    } else {
      SplitFromNoSeparator(s, d, j + |d|);
      SliceNoOccurrence(s, d, i, j);
      var r := SplitFrom(s, d, i);
      assert forall m :: 0 < m < |r| ==> r[m] == SplitFrom(s, d, j + |d|)[m - 1];
    }
  }

  lemma SliceNoOccurrence(s: string, d: string, a: nat, b: nat)
    requires |d| > 0 && a <= b <= |s|
    requires forall k :: a <= k < b ==> !OccursAt(s, d, k)
    ensures forall k :: 0 <= k ==> !OccursAt(s[a..b], d, k)
  {
    forall k | 0 <= k ensures !OccursAt(s[a..b], d, k) {
      if OccursAt(s[a..b], d, k) {
        SliceOfSlice(s, a, b, k, k + |d|);
        OccursAtSlice(s[a..b], d, k);
        OccursAtSlice(s, d, a + k);
      }
    }
  }

  lemma SliceOfSlice(s: string, a: nat, b: nat, i: nat, j: nat)
    requires a <= b <= |s| && i <= j <= b - a
    ensures s[a..b][i..j] == s[a + i..a + j]
  {
    assert |s[a..b][i..j]| == j - i;
    assert forall t :: 0 <= t < j - i ==> s[a..b][i..j][t] == s[a + i + t];
  }

  /** The number of characters `c` in `s[i..]`. */
  function CountFrom(s: string, c: char, i: nat): nat
    requires i <= |s|
    decreases |s| - i
  {
    if i == |s| then 0 else (if s[i] == c then 1 else 0) + CountFrom(s, c, i + 1)
  }

  /** With a one-character separator, the number of pieces is one more than
      the number of separator characters. */
  lemma {:induction false} SplitFromCount(s: string, c: char, i: nat)
    requires i <= |s|
    ensures |SplitFrom(s, [c], i)| == CountFrom(s, c, i) + 1
    decreases |s| - i
  {
    var j := IndexOf(s, [c], i);
    IndexOfFirst(s, [c], i);
    if j == -1 {
      NoCharCount(s, c, i, |s|);
    } else {
      SplitFromCount(s, c, j + 1);
      NoCharCount(s, c, i, j);
      OccursAtSlice(s, [c], j);
      assert s[j..j + 1] == [s[j]];
    }
  }

  /** Skipping text without a `c` leaves the count unchanged. */
  lemma {:induction false} NoCharCount(s: string, c: char, i: nat, j: nat)
    requires i <= j <= |s|
    requires forall k :: i <= k < j ==> !OccursAt(s, [c], k)
    ensures CountFrom(s, c, i) == CountFrom(s, c, j)
    decreases j - i
  {
    if i < j {
      OccursAtSlice(s, [c], i);
      assert s[i..i + 1] == [s[i]];
      NoCharCount(s, c, i + 1, j);
    }
  }

  /** `s.Split(c)` has one more piece than `s` has `c` characters. */
  lemma SplitOnCount(s: string, c: char)
    ensures |SplitOn(s, [c])| == CountFrom(s, c, 0) + 1
  {
    SplitFromCount(s, c, 0);
  }

  // ---------------------------------------------------------------------
  // The quote-aware splitter on quote-free lines
  // ---------------------------------------------------------------------

  predicate QuoteFree(line: string) {
    forall k :: 0 <= k < |line| ==> line[k] != Quote
  }

  /** No proper suffix of `d` is also a prefix of it, so two occurrences of
      `d` never overlap. Every one-character delimiter has this property. */
  predicate SelfOverlapFree(d: string) {
    forall p :: 0 < p < |d| ==> d[p..] != d[..|d| - p]
  }

  /** Two occurrences of `d` that overlap make a suffix of `d` equal to its
      prefix of the same length. */
  lemma OverlapShift(s: string, d: string, x: nat, y: nat)
    requires x < y < x + |d| && OccursAt(s, d, x) && OccursAt(s, d, y)
    ensures d[y - x..] == d[..|d| - (y - x)]
  {
    var p := y - x;
    OccursAtSlice(s, d, x);
    OccursAtSlice(s, d, y);
    assert d[p..] == s[y..x + |d|];
    assert d[..|d| - p] == s[y..x + |d|];
  }

  lemma SplitFromUnfold(s: string, d: string, i: nat)
    requires |d| > 0 && i <= |s| && IndexOf(s, d, i) != -1
    ensures SplitFrom(s, d, i) == [s[i..IndexOf(s, d, i)]] + SplitFrom(s, d, IndexOf(s, d, i) + |d|)
  {
  }

  /** Where the splitter's loop stops after a delimiter ending at `i`, the line
      ends with the delimiter exactly when nothing is left after it. */
  lemma TailEndsWith(s: string, d: string, i: nat)
    requires |d| > 0 && SelfOverlapFree(d)
    requires |d| <= i <= |s| && OccursAt(s, d, i - |d|)
    requires forall k :: i <= k ==> !OccursAt(s, d, k)
    ensures EndsWith(s, d) <==> i == |s|
  {
    if i < |s| && EndsWith(s, d) {
      assert OccursAt(s, d, |s| - |d|);
      OverlapShift(s, d, i - |d|, |s| - |d|);
    }
  }

  /** From a position just past a delimiter, the splitter over a quote-free
      line emits exactly the pieces String.Split emits. */
  lemma {:induction false} ScanQuoteFree(line: string, d: string, qsi: nat, acc: seq<string>)
    requires |d| > 0 && QuoteFree(line) && SelfOverlapFree(d)
    requires |d| <= qsi <= |line| && OccursAt(line, d, qsi - |d|)
    ensures ScanFrom(line, d, |d|, qsi, -1, acc) == Columns(acc + SplitFrom(line, d, qsi))
    decreases |line| - qsi
  {
    var j := IndexOf(line, d, qsi);
    IndexOfFirst(line, d, qsi);
    if j == -1 {
      QuoteFreeExit(line, d, qsi, acc);
    } else {
      var next := j + |d|;
      assert OccursAt(line, d, next - |d|);
      ScanFromPlainStep(line, d, |d|, qsi, -1, acc);
      ScanQuoteFree(line, d, next, acc + [line[qsi..j]]);
      var rest := SplitFrom(line, d, next);
      SplitFromUnfold(line, d, qsi);
      AppendAssociative(acc, [line[qsi..j]], rest);
    }
  }

  /** The last step of ScanQuoteFree: no delimiter is left. */
  lemma QuoteFreeExit(line: string, d: string, qsi: nat, acc: seq<string>)
    requires |d| > 0 && SelfOverlapFree(d)
    requires |d| <= qsi <= |line| && OccursAt(line, d, qsi - |d|)
    requires IndexOf(line, d, qsi) == -1
    ensures ScanFrom(line, d, |d|, qsi, -1, acc) == Columns(acc + SplitFrom(line, d, qsi))
  {
    IndexOfFirst(line, d, qsi);
    TailEndsWith(line, d, qsi);
    ScanFromExit(line, d, |d|, qsi, -1, acc);
    assert SplitFrom(line, d, qsi) == [line[qsi..]];
    if qsi == |line| {
      assert line[qsi..] == [];
      assert TailFields(line, d, qsi) == [""];
    } else {
      assert TailFields(line, d, qsi) == [line[qsi..]];
    }
  }

  /** A quote-free line that does not open with the delimiter is split
      exactly as String.Split splits it (RowHelper.SplitRowWithQuotes). */
  lemma SplitQuoteFree(line: string, d: string)
    requires |d| > 0 && QuoteFree(line) && SelfOverlapFree(d)
    requires line != [] && !OccursAt(line, d, 0)
    ensures SplitSpec(line, d, |d|) == Columns(SplitOn(line, d))
  {
    assert IndexOfQuote(line, 0) == -1;
    var j := IndexOf(line, d, 0);
    IndexOfFirst(line, d, 0);
    if j == -1 {
      ScanFromExit(line, d, |d|, 0, -1, []);
      assert !EndsWith(line, d);
      assert TailFields(line, d, 0) == [line[0..]];
      assert SplitFrom(line, d, 0) == [line[0..]];
    } else {
      var next := j + |d|;
      assert OccursAt(line, d, next - |d|);
      ScanFromPlainStep(line, d, |d|, 0, -1, []);
      ScanQuoteFree(line, d, next, [line[0..j]]);
      var rest := SplitFrom(line, d, next);
      SplitFromUnfold(line, d, 0);
      assert [] + [line[0..j]] == [line[0..j]];
    }
  }

  /** With a one-character delimiter both copies of the splitter agree with
      String.Split on a quote-free line that does not open with the
      delimiter, giving one more field than there are delimiters. */
  lemma SplitQuoteFreeChar(line: string, c: char)
    requires QuoteFree(line) && line != [] && line[0] != c
    ensures SplitSpec(line, [c], 1) == Columns(SplitOn(line, [c]))
    ensures |SplitOn(line, [c])| == CountFrom(line, c, 0) + 1
  {
    assert line[0..1] == [line[0]];
    SplitQuoteFree(line, [c]);
    SplitOnCount(line, c);
  }

  // ---------------------------------------------------------------------
  // Edge cases of the splitter's loop guard
  // ---------------------------------------------------------------------

  /** A delimiter at position 0 is never a split point: the whole line is the
      first field, followed by one empty field if it also ends with the
      delimiter. Quotes make no difference. */
  lemma LeadingDelimiter(line: string, d: string, advance: nat)
    requires advance == 1 || advance == |d|
    requires OccursAt(line, d, 0) && line != []
    ensures SplitSpec(line, d, advance)
         == Columns([line] + (if EndsWith(line, d) then [""] else []))
  {
    assert IndexOf(line, d, 0) == 0;
    assert line[0..] == line;
  }

  /** The empty line yields no field at all. */
  lemma EmptyLine(d: string, advance: nat)
    requires |d| > 0 && (advance == 1 || advance == |d|)
    ensures SplitSpec("", d, advance) == Columns([])
  {
  }

  // ---------------------------------------------------------------------
  // Quoted fields
  // ---------------------------------------------------------------------

  /** A field that opens with a quote before the next delimiter runs, quotes
      included, to its closing quote: the next field starts `advance` past the
      character after the closing quote, whatever that character is, so
      delimiters inside the quotes do not split. */
  lemma QuotedField(line: string, d: string, advance: nat, qsi: nat, acc: seq<string>)
    requires |d| > 0 && advance >= 1
    requires qsi < |line| && line[qsi] == Quote
    requires IndexOf(line, d, qsi) > qsi
    requires ScanQuote(line, qsi) != -1 && ScanQuote(line, qsi) != |line| - 1
    ensures var e := ScanQuote(line, qsi);
      ScanFrom(line, d, advance, qsi, qsi, acc)
      == ScanFrom(line, d, advance, e + 1 + advance, IndexOfQuote(line, e + 2), acc + [line[qsi..e + 1]])
  {
    var e := ScanQuote(line, qsi);
    QuotedFieldText(line, qsi);
    assert EndQuote(line, qsi) == Some(e);
    var next := IndexOfQuote(line, e + 2);
    assert FieldEnd(line, qsi, qsi, IndexOf(line, d, qsi)) == Some((e + 1, next));
    ScanFromStep(line, d, advance, qsi, qsi, acc, e + 1, next);
  }

  /** The field QuotedField cuts is the opening quote, text holding only
      escaped `""` pairs, and the closing quote. */
  lemma QuotedFieldText(line: string, qsi: nat)
    requires qsi < |line| && line[qsi] == Quote
    requires ScanQuote(line, qsi) != -1 && ScanQuote(line, qsi) != |line| - 1
    ensures var e := ScanQuote(line, qsi);
      && qsi < e < |line| - 1 && line[e] == Quote && line[e + 1] != Quote && Paired(line, qsi + 1, e)
  {
    ScanQuotePaired(line, qsi);
  }

  /** A quote before the next delimiter that is never closed, or whose closing
      quote is the last character, makes the field run to the end of the line;
      the only field that can follow is "" when the line ends with the
      delimiter. (An unclosed quote at position 0 makes the source loop
      forever instead, and is excluded.) */
  lemma QuoteToEndOfLine(line: string, d: string, advance: nat, qsi: nat, acc: seq<string>)
    requires |d| > 0 && advance >= 1
    requires qsi < |line| && line[qsi] == Quote
    requires IndexOf(line, d, qsi) > qsi
    requires ScanQuote(line, qsi) == |line| - 1 || (ScanQuote(line, qsi) == -1 && line[0] != Quote)
    ensures ScanFrom(line, d, advance, qsi, qsi, acc)
         == Columns(acc + [line[qsi..]] + (if EndsWith(line, d) then [""] else []))
  {
    var di := IndexOf(line, d, qsi);
    assert FieldEnd(line, qsi, qsi, di) == Some((|line|, qsi));
    ScanFromStep(line, d, advance, qsi, qsi, acc, |line|, qsi);
    assert line[qsi..|line|] == line[qsi..];
    ScanFromExit(line, d, advance, |line|, qsi, acc + [line[qsi..]]);
  }

  // ---------------------------------------------------------------------
  // Well-formed fields are read back
  // ---------------------------------------------------------------------

  /** A field with neither the delimiter character nor a quote. */
  predicate PlainField(f: string, c: char) {
    CharFree(f, c) && QuoteFree(f)
  }

  /** A quoted field: an opening quote, text whose quotes are all doubled
      (delimiters allowed), and a closing quote. */
  predicate QuotedText(f: string) {
    2 <= |f| && f[0] == Quote && f[|f| - 1] == Quote && Paired(f, 1, |f| - 1)
  }

  /** Every field is plain or quoted. */
  predicate ReadableFields(fs: seq<string>, c: char) {
    forall m :: 0 <= m < |fs| ==> PlainField(fs[m], c) || QuotedText(fs[m])
  }

  /** Fields that the splitter reads back from their join: each plain or
      quoted, and the first one not empty (a line opening with the delimiter
      is a single field). */
  predicate WellFormed(fs: seq<string>, c: char) {
    |fs| >= 1 && fs[0] != "" && ReadableFields(fs, c)
  }

  /** Paired text keeps that property wherever it is copied. */
  lemma {:induction false} PairedShift(f: string, line: string, a: nat, i: nat, j: nat)
    requires a + |f| <= |line| && line[a..a + |f|] == f && i <= j <= |f|
    ensures Paired(f, i, j) <==> Paired(line, a + i, a + j)
    decreases j - i
  {
    if i < j {
      assert line[a + i] == f[i];
      if i + 1 < j {
        assert line[a + i + 1] == f[i + 1];
      }
      PairedShift(f, line, a, i + 1, j);
      if i + 2 <= j {
        PairedShift(f, line, a, i + 2, j);
      }
    }
  }

  /** Quote-free text in front of paired text leaves it paired. */
  lemma {:induction false} PairedSkip(s: string, i: nat, k: nat, j: nat)
    requires i <= k <= j <= |s| && Paired(s, k, j)
    requires forall m :: i <= m < k ==> s[m] != Quote
    ensures Paired(s, i, j)
    decreases k - i
  {
    if i < k {
      PairedSkip(s, i + 1, k, j);
    }
  }

  /** Over paired text up to a quote that no quote follows, the
      closing-quote search stops at that quote. */
  lemma {:induction false} ScanQuoteTo(line: string, q: int, e: nat)
    requires -1 <= q < e < |line|
    requires Paired(line, q + 1, e) && line[e] == Quote && (e + 1 == |line| || line[e + 1] != Quote)
    ensures ScanQuote(line, q) == e
    decreases e - q
  {
    if q + 1 < e {
      if line[q + 1] != Quote {
        ScanQuoteTo(line, q + 1, e);
      } else {
        ScanQuoteTo(line, q + 2, e);
      }
    }
  }

  /** Quote-free text leaves the quote search where it was. */
  lemma {:induction false} IndexOfQuoteSkip(s: string, i: nat, j: nat)
    requires i <= j <= |s|
    requires forall k :: i <= k < j ==> s[k] != Quote
    ensures IndexOfQuote(s, i) == IndexOfQuote(s, j)
    decreases j - i
  {
    if i < j {
      IndexOfQuoteSkip(s, i + 1, j);
    }
  }

  /** A one-character delimiter is found at the first position holding its
      character. */
  lemma IndexOfCharIs(s: string, c: char, i: nat, j: nat)
    requires i <= j < |s| && s[j] == c
    requires forall k :: i <= k < j ==> s[k] != c
    ensures IndexOf(s, [c], i) == j
  {
    forall k | i <= k < j ensures !OccursAt(s, [c], k) {
      OccursAtChar(s, c, k);
    }
    OccursAtChar(s, c, j);
    IndexOfIs(s, [c], i, j);
  }

  /** A one-character delimiter whose character is absent is not found. */
  lemma IndexOfCharNone(s: string, c: char, i: nat)
    requires i <= |s|
    requires forall k :: i <= k < |s| ==> s[k] != c
    ensures IndexOf(s, [c], i) == -1
  {
    forall k | i <= k ensures !OccursAt(s, [c], k) {
      OccursAtChar(s, c, k);
    }
    IndexOfNone(s, [c], i);
  }

  /** Where the quoted field `f` starts at `|pre|`, its closing quote is
      the first quote not followed by another. */
  lemma QuotedEnd(line: string, q: nat, f: string)
    requires QuotedText(f) && q + |f| <= |line| && line[q..q + |f|] == f
    requires q + |f| == |line| || line[q + |f|] != Quote
    ensures EndQuote(line, q) == Some(q + |f| - 1)
  {
    var e := q + |f| - 1;
    PairedShift(f, line, q, 1, |f| - 1);
    assert line[e] == f[|f| - 1];
    ScanQuoteTo(line, q, e);
  }

  /** The last field, from `q` to the end of the line. */
  lemma ScanJoinedLast(line: string, c: char, q: nat, f: string, acc: seq<string>)
    requires c != Quote && q <= |line| && line[q..] == f
    requires q == 0 || line[q - 1] == c
    requires q == 0 ==> f != ""
    requires PlainField(f, c) || QuotedText(f)
    ensures ScanFrom(line, [c], 1, q, IndexOfQuote(line, q), acc) == Columns(acc + [f])
  {
    var sq := IndexOfQuote(line, q);
    assert |line| == q + |f|;
    assert EndsWith(line, [c]) <==> |line| > 0 && line[|line| - 1] == c by {
      if |line| > 0 {
        OccursAtChar(line, c, |line| - 1);
      }
    }
    if PlainField(f, c) {
      assert IndexOf(line, [c], q) == -1 by {
        forall k | q <= k < |line| ensures line[k] != c {
          assert line[k] == f[k - q];
        }
        IndexOfCharNone(line, c, q);
      }
      ScanFromExit(line, [c], 1, q, sq, acc);
      assert TailFields(line, [c], q) == [f] by {
        if f != "" {
          assert line[|line| - 1] == f[|f| - 1];
        }
      }
    } else {
      assert sq == q by {
        assert line[q] == f[0];
      }
      assert !EndsWith(line, [c]) by {
        assert line[|line| - 1] == f[|f| - 1];
      }
      var di := IndexOf(line, [c], q);
      if di == -1 {
        ScanFromExit(line, [c], 1, q, sq, acc);
      } else {
        assert q < di by {
          IndexOfFirst(line, [c], q);
          OccursAtChar(line, c, di);
          assert line[q] == f[0];
        }
        assert FieldEnd(line, q, sq, di) == Some((|line|, q)) by {
          assert line[q..q + |f|] == f;
          QuotedEnd(line, q, f);
        }
        ScanFromStep(line, [c], 1, q, sq, acc, |line|, q);
        assert IndexOf(line, [c], |line|) == -1 by {
          IndexOfCharNone(line, c, |line|);
        }
        ScanFromExit(line, [c], 1, |line|, q, acc + [line[q..|line|]]);
        assert line[q..|line|] == f;
      }
    }
  }

  /** Over a plain field followed by the delimiter, the delimiter search
      stops at that delimiter and the quote search passes it. */
  lemma PlainFieldSearches(line: string, c: char, qsi: nat, f: string, next: nat)
    requires c != Quote && next == qsi + |f| + 1 && next <= |line| && line[qsi..qsi + |f|] == f && line[qsi + |f|] == c
    requires PlainField(f, c)
    ensures IndexOf(line, [c], qsi) == qsi + |f|
    ensures IndexOfQuote(line, qsi) == IndexOfQuote(line, next)
  {
    var di := qsi + |f|;
    forall k | qsi <= k < di ensures line[k] != c && line[k] != Quote {
      assert line[k] == f[k - qsi];
    }
    IndexOfCharIs(line, c, qsi, di);
    IndexOfQuoteSkip(line, qsi, next);
  }

  /** A plain field followed by the delimiter and more fields: the
      splitter cuts it at the delimiter, and the quote search result still
      holds after the delimiter. */
  lemma ScanJoinedPlain(line: string, c: char, qsi: nat, f: string, next: nat, acc: seq<string>, out: seq<string>)
    requires next == qsi + |f| + 1 && next <= |line| && line[qsi..qsi + |f|] == f
    requires qsi + |f| > 0
    requires IndexOf(line, [c], qsi) == qsi + |f| && IndexOfQuote(line, qsi) == IndexOfQuote(line, next)
    requires ScanFrom(line, [c], 1, next, IndexOfQuote(line, next), acc + [f]) == Columns(out)
    ensures ScanFrom(line, [c], 1, qsi, IndexOfQuote(line, qsi), acc) == Columns(out)
  {
    ScanFromPlainStep(line, [c], 1, qsi, IndexOfQuote(line, qsi), acc);
  }

  /** Over a quoted field followed by the delimiter, the quote search stops
      at the opening quote, the delimiter search stops inside the field or at
      the delimiter after it, and the closing-quote search ends at the
      field's last character. */
  lemma QuotedFieldSearches(line: string, c: char, q: nat, f: string)
    requires c != Quote && q + |f| < |line| && line[q..q + |f|] == f && line[q + |f|] == c
    requires QuotedText(f)
    ensures IndexOfQuote(line, q) == q
    ensures q < IndexOf(line, [c], q) <= q + |f|
    ensures EndQuote(line, q) == Some(q + |f| - 1)
  {
    assert line[q] == f[0];
    var di := IndexOf(line, [c], q);
    IndexOfFirst(line, [c], q);
    OccursAtChar(line, c, q + |f|);
    OccursAtChar(line, c, q);
    if di != -1 {
      OccursAtChar(line, c, di);
    }
    QuotedEnd(line, q, f);
  }

  /** A quoted field followed by the delimiter and more fields: the
      splitter cuts it after its closing quote, delimiters inside included,
      and searches the next quote from after the delimiter. */
  lemma ScanJoinedQuoted(line: string, c: char, q: nat, f: string, next: nat, acc: seq<string>, out: seq<string>)
    requires next == q + |f| + 1 && next <= |line| && line[q..q + |f|] == f && |f| >= 2
    requires IndexOfQuote(line, q) == q && q < IndexOf(line, [c], q) <= q + |f|
    requires EndQuote(line, q) == Some(q + |f| - 1)
    requires ScanFrom(line, [c], 1, next, IndexOfQuote(line, next), acc + [f]) == Columns(out)
    ensures ScanFrom(line, [c], 1, q, IndexOfQuote(line, q), acc) == Columns(out)
  {
    var e := q + |f| - 1;
    assert ScanFrom(line, [c], 1, q, q, acc)
        == ScanFrom(line, [c], 1, next, IndexOfQuote(line, next), acc + [f]) by {
      assert e + 1 + 1 == next && e + 2 == next;
      assert acc + [line[q..e + 1]] == acc + [f] by {
        assert line[q..e + 1] == f;
      }
      ScanFromQuotedStep(line, [c], 1, q, q, acc, e);
    }
  }

  /** From position `q`, where field `i` starts, the splitter reads the
      remaining fields back. */
  lemma {:induction false} ScanJoined(line: string, c: char, fs: seq<string>, i: nat, q: nat, acc: seq<string>)
    requires c != Quote && i < |fs| && ReadableFields(fs, c)
    requires q <= |line| && line[q..] == Join(fs[i..], [c])
    requires q == 0 || line[q - 1] == c
    requires q == 0 ==> fs[i] != ""
    ensures ScanFrom(line, [c], 1, q, IndexOfQuote(line, q), acc) == Columns(acc + fs[i..])
    decreases |fs| - i
  {
    var f := fs[i];
    assert PlainField(f, c) || QuotedText(f);
    if i + 1 == |fs| {
      assert line[q..] == f by {
        assert fs[i..] == [f];
      }
      ScanJoinedLast(line, c, q, f, acc);
      assert acc + [f] == acc + fs[i..];
    } else {
      var next := q + |f| + 1;
      assert next <= |line| && line[next..] == Join(fs[i + 1..], [c])
          && line[q..q + |f|] == f && line[q + |f|] == c by {
        assert fs[i..][0] == f;
        assert fs[i..][1..] == fs[i + 1..];
        JoinFront(line, c, q, fs[i..]);
      }
      ScanJoined(line, c, fs, i + 1, next, acc + [f]);
      var out := acc + [f] + fs[i + 1..];
      if PlainField(f, c) {
        PlainFieldSearches(line, c, q, f, next);
        ScanJoinedPlain(line, c, q, f, next, acc, out);
      } else {
        QuotedFieldSearches(line, c, q, f);
        ScanJoinedQuoted(line, c, q, f, next, acc, out);
      }
      assert out == acc + fs[i..];
    }
  }

  /** The first of several joined fields, and the delimiter after it. */
  lemma JoinFront(line: string, c: char, q: nat, rest: seq<string>)
    requires |rest| >= 2 && q <= |line| && line[q..] == Join(rest, [c])
    ensures q + |rest[0]| < |line| && line[q..q + |rest[0]|] == rest[0] && line[q + |rest[0]|] == c
    ensures line[q + |rest[0]| + 1..] == Join(rest[1..], [c])
  {
    var f, post := rest[0], Join(rest[1..], [c]);
    assert line[q..] == f + [c] + post;
    assert line[q..][..|f|] == f;
    assert line[q..][|f|] == c;
    assert line[q..][|f| + 1..] == post;
  }

  /** Splitting well-formed fields joined with a one-character delimiter
      gives the fields back, in both copies of the splitter: delimiters
      inside quotes do not split, and quotes stay in their fields. */
  lemma SplitJoin(fs: seq<string>, c: char)
    requires c != Quote && WellFormed(fs, c)
    ensures SplitSpec(Join(fs, [c]), [c], 1) == Columns(fs)
  {
    assert fs[0..] == fs;
    ScanJoined(Join(fs, [c]), c, fs, 0, 0, []);
    assert [] + fs == fs;
  }

  /** A plain first field and then a quote that is never closed: the
      second field runs from the quote to the end of the line, delimiters
      and all, when the line does not end with the delimiter. */
  lemma UnclosedAfterPlain(a: string, c: char, f: string, k: nat)
    requires c != Quote && a != "" && PlainField(a, c)
    requires 0 < k < |f| && f[0] == Quote && f[k] == c && f[|f| - 1] != c
    requires forall m :: 1 <= m < |f| ==> f[m] != Quote
    requires forall m :: 0 <= m < k ==> f[m] != c
    ensures SplitSpec(a + [c] + f, [c], 1) == Columns([a, f])
  {
    var l := a + [c] + f;
    var q := |a| + 1;
    PlainBeforeQuote(a, c, f);
    assert l[q] == f[0] && l[q + k] == f[k] && l[0] == a[0] && l[|l| - 1] == f[|f| - 1];
    forall m | q <= m < |l| ensures (m > q ==> l[m] != Quote) && (m < q + k ==> l[m] != c) {
      assert l[m] == f[m - q];
    }
    UnclosedToEnd(l, c, q, q + k, [a]);
    assert l[q..] == f;
    assert [a] + [f] == [a, f];
  }

  /** The first step of UnclosedAfterPlain: the plain field is cut at the
      delimiter, and the quote search has found the quote after it. */
  lemma PlainBeforeQuote(a: string, c: char, f: string)
    requires c != Quote && a != "" && PlainField(a, c)
    requires f != [] && f[0] == Quote
    ensures var l := a + [c] + f;
      && IndexOfQuote(l, 0) == |a| + 1
      && ScanFrom(l, [c], 1, 0, |a| + 1, []) == ScanFrom(l, [c], 1, |a| + 1, |a| + 1, [a])
  {
    var l := a + [c] + f;
    var q := |a| + 1;
    forall m | 0 <= m < q ensures l[m] != Quote && (m < |a| ==> l[m] != c) {
      if m < |a| { assert l[m] == a[m]; }
    }
    IndexOfQuoteSkip(l, 0, q);
    assert l[q] == f[0];
    IndexOfCharIs(l, c, 0, |a|);
    ScanFromPlainStep(l, [c], 1, 0, q, []);
    assert l[0..|a|] == a;
    assert [] + [l[0..|a|]] == [a];
  }

  /** A quote at `q` that is never closed, with a delimiter after it at `di`
      and none at the end of the line: the field starting at `q` runs to the
      end of the line. (At position 0 the source loops instead.) */
  lemma UnclosedToEnd(line: string, c: char, q: nat, di: nat, acc: seq<string>)
    requires c != Quote && q < di < |line| && line[q] == Quote && line[0] != Quote
    requires line[di] == c && line[|line| - 1] != c
    requires forall m :: q < m < |line| ==> line[m] != Quote
    requires forall m :: q <= m < di ==> line[m] != c
    ensures ScanFrom(line, [c], 1, q, q, acc) == Columns(acc + [line[q..]])
  {
    IndexOfCharIs(line, c, q, di);
    IndexOfQuoteSkip(line, q + 1, |line|);
    OccursAtChar(line, c, |line| - 1);
    QuoteToEndOfLine(line, [c], 1, q, acc);
    assert acc + [line[q..]] + [] == acc + [line[q..]];
  }

  // ---------------------------------------------------------------------
  // The fields lie in the line in order, without overlap
  // ---------------------------------------------------------------------

  /** `f` is the substring of `line` that starts at position `a`. */
  predicate SliceAt(line: string, f: string, a: nat) {
    a + |f| <= |line| && f == line[a..a + |f|]
  }

  /** The fields `fs` lie in `line` at the positions `starts`, all at or
      after `lo`: each field is the substring at its position, the positions
      strictly increase, and each field ends at or before the next one
      starts. */
  predicate Placed(line: string, fs: seq<string>, starts: seq<nat>, lo: nat) {
    && |starts| == |fs|
    && (forall m :: 0 <= m < |fs| ==> lo <= starts[m] && SliceAt(line, fs[m], starts[m]))
    && (forall m, n :: 0 <= m < n < |fs| ==> starts[m] < starts[n] && starts[m] + |fs[m]| <= starts[n])
  }

  /** The fields after the loop: the rest of the line at `qsi`, then the
      trailing "" at the end of the line. */
  lemma TailPlaced(line: string, d: string, qsi: nat)
    requires qsi <= |line|
    ensures Placed(line, TailFields(line, d, qsi),
                   (if qsi < |line| then [qsi] else []) + (if EndsWith(line, d) then [|line|] else []), qsi)
  {
    var tail := TailFields(line, d, qsi);
    var starts: seq<nat> := (if qsi < |line| then [qsi] else []) + (if EndsWith(line, d) then [|line|] else []);
    forall m | 0 <= m < |tail| ensures qsi <= starts[m] && SliceAt(line, tail[m], starts[m]) {
      if qsi < |line| && m == 0 {
        assert tail[m] == line[qsi..];
      } else {
        assert tail[m] == "" && starts[m] == |line|;
      }
    }
  }

  /** Placing the field `line[qsi..ci]` at `qsi` in front of fields placed
      from `next` on, with `ci <= next` and `qsi < next`, places them all
      from `qsi` on. */
  lemma ConsPlaced(line: string, rest: seq<string>, starts: seq<nat>, qsi: nat, ci: nat, next: nat)
    requires qsi <= ci <= |line| && ci <= next && qsi < next
    requires Placed(line, rest, starts, next)
    ensures Placed(line, [line[qsi..ci]] + rest, [qsi] + starts, qsi)
  {
    var fs := [line[qsi..ci]] + rest;
    var ss := [qsi] + starts;
    forall m | 0 <= m < |fs| ensures qsi <= ss[m] && SliceAt(line, fs[m], ss[m]) {
      if m > 0 {
        assert fs[m] == rest[m - 1] && ss[m] == starts[m - 1];
      }
    }
    forall m, n | 0 <= m < n < |fs| ensures ss[m] < ss[n] && ss[m] + |fs[m]| <= ss[n] {
      assert ss[n] == starts[n - 1] && next <= starts[n - 1];
      if m > 0 {
        assert fs[m] == rest[m - 1] && ss[m] == starts[m - 1];
      }
    }
  }

  /** From any loop state the splitter keeps the fields already emitted and
      appends fields that lie in the line from the current search position
      on, in order and without overlap. */
  lemma {:induction false} ScanFromSlices(line: string, d: string, advance: nat, qsi: nat, sq: int, acc: seq<string>)
    requires |d| > 0 && advance >= 1
    ensures var o := ScanFrom(line, d, advance, qsi, sq, acc);
      o.Columns? ==>
        && |acc| <= |o.fields| && o.fields[..|acc|] == acc
        && exists starts :: Placed(line, o.fields[|acc|..], starts, qsi)
    decreases |line| - qsi
  {
    var o := ScanFrom(line, d, advance, qsi, sq, acc);
    if qsi <= |line| && o.Columns? {
      var di := IndexOf(line, d, qsi);
      if di <= 0 {
        ScanFromExit(line, d, advance, qsi, sq, acc);
        TailPlaced(line, d, qsi);
        assert o.fields[..|acc|] == acc;
        assert o.fields[|acc|..] == TailFields(line, d, qsi);
      } else {
        ScanFromLive(line, d, advance, qsi, sq, acc);
        var (ci, nq) := FieldEnd(line, qsi, sq, di).value;
        ScanFromStep(line, d, advance, qsi, sq, acc, ci, nq);
        var next := if ci < |line| then ci + advance else ci;
        var acc' := acc + [line[qsi..ci]];
        ScanFromSlices(line, d, advance, next, nq, acc');
        var starts :| Placed(line, o.fields[|acc'|..], starts, next);
        ConsPlaced(line, o.fields[|acc'|..], starts, qsi, ci, next);
        assert o.fields[..|acc|] == o.fields[..|acc'|][..|acc|] == acc;
        assert o.fields[|acc|..] == [line[qsi..ci]] + o.fields[|acc'|..];
      }
    }
  }

  /** The fields of a split line lie in it in order and without overlap:
      each is the substring at its start position, and the start positions
      strictly increase. */
  lemma SplitSlices(line: string, d: string, advance: nat)
    requires |d| > 0 && (advance == 1 || advance == |d|)
    ensures var o := SplitSpec(line, d, advance);
      o.Columns? ==> exists starts :: Placed(line, o.fields, starts, 0)
  {
    ScanFromSlices(line, d, advance, 0, IndexOfQuote(line, 0), []);
    var o := SplitSpec(line, d, advance);
    if o.Columns? {
      assert o.fields[0..] == o.fields;
    }
  }
}
