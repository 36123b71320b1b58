/** Worked examples of the splitter on concrete lines: the lines of the
    repository's splitter tests, and the behaviours of the source's index
    arithmetic that an RFC 4180 reader would not show. Long lines are
    written as concatenations of short pieces; the pieces spell out the
    test's line exactly. */
module TokenizerExamples {
  import opened Wrappers
  import opened Tokenizer
  import opened TokenizerFacts

  /** Three fields joined with commas. */
  lemma Join3(a: string, b: string, c: string)
    ensures Join([a, b, c], ",") == a + "," + b + "," + c
  {
    assert [a, b, c][1..] == [b, c];
    assert [b, c][1..] == [c];
    assert Join([c], ",") == c;
    assert Join([b, c], ",") == b + "," + c;
    assert Join([a, b, c], ",") == a + "," + (b + "," + c);
    assert a + "," + (b + "," + c) == a + "," + b + "," + c;
  }

  /** Four fields joined with commas. */
  lemma Join4(a: string, b: string, c: string, d: string)
    ensures Join([a, b, c, d], ",") == a + "," + b + "," + c + "," + d
  {
    assert [a, b, c, d][1..] == [b, c, d];
    Join3(b, c, d);
  }

  /** A line that is the comma join of three readable fields splits back
      into them. */
  lemma SplitJoined3(line: string, a: string, b: string, c: string)
    requires WellFormed([a, b, c], ',') && line == a + "," + b + "," + c
    ensures SplitSpec(line, ",", 1) == Columns([a, b, c])
  {
    Join3(a, b, c);
    assert [','] == ",";
    SplitJoin([a, b, c], ',');
  }

  /** The same for four fields. */
  lemma SplitJoined4(line: string, a: string, b: string, c: string, d: string)
    requires WellFormed([a, b, c, d], ',') && line == a + "," + b + "," + c + "," + d
    ensures SplitSpec(line, ",", 1) == Columns([a, b, c, d])
  {
    Join4(a, b, c, d);
    assert [','] == ",";
    SplitJoin([a, b, c, d], ',');
  }

  /** "A,B,C" has three fields, the last being "C". */
  lemma StringSplit()
    ensures SplitSpec("A,B,C", ",", 1) == Columns(["A", "B", "C"])
  {
    assert "A" + "," + "B" + "," + "C" == "A,B,C";
    assert WellFormed(["A", "B", "C"], ',');
    SplitJoined3("A,B,C", "A", "B", "C");
  }

  /** Two delimiters in a row give an empty field, and a trailing delimiter
      one more: "A,," has three fields. */
  lemma StringSplitEmptyColumns()
    ensures SplitSpec("A,,", ",", 1) == Columns(["A", "", ""])
  {
    var l := "A,,";
    assert [','] == ",";
    IndexOfQuoteSkip(l, 0, 3);
    IndexOfCharIs(l, ',', 0, 1);
    ScanFromPlainStep(l, ",", 1, 0, -1, []);
    IndexOfCharIs(l, ',', 2, 2);
    ScanFromPlainStep(l, ",", 1, 2, -1, [l[0..1]]);
    IndexOfCharNone(l, ',', 3);
    ScanFromExit(l, ",", 1, 3, -1, [l[0..1], l[2..2]]);
    OccursAtChar(l, ',', 2);
    assert l[0..1] == "A" && l[2..2] == "";
  }

  /** A comma inside quotes does not split, and the quotes stay in the
      field. */
  lemma ComplexStringSplit()
    ensures SplitSpec("A," + "\"B contains a quote" + ", comma\"" + ",C", ",", 1)
         == Columns(["A", "\"B contains a quote" + ", comma\"", "C"])
  {
    var f := "\"B contains a quote" + ", comma\"";
    assert "A" + "," + f + "," + "C" == "A," + "\"B contains a quote" + ", comma\"" + ",C";
    assert WellFormed(["A", f, "C"], ',') by {
      PairedSkip(f, 1, |f| - 1, |f| - 1);
    }
    SplitJoined3("A," + "\"B contains a quote" + ", comma\"" + ",C", "A", f, "C");
  }

  /** Several commas inside one quoted field. */
  lemma ComplexStringSplitMultipleCommasInQuotes()
    ensures SplitSpec("A," + "\"B contains a quote" + ", comma, and another" + ", and another\"" + ",C", ",", 1)
         == Columns(["A", "\"B contains a quote" + ", comma, and another" + ", and another\"", "C"])
  {
    var f := "\"B contains a quote" + ", comma, and another" + ", and another\"";
    assert "A" + "," + f + "," + "C"
        == "A," + "\"B contains a quote" + ", comma, and another" + ", and another\"" + ",C";
    assert WellFormed(["A", f, "C"], ',') by {
      PairedSkip(f, 1, |f| - 1, |f| - 1);
    }
    SplitJoined3("A," + "\"B contains a quote" + ", comma, and another" + ", and another\"" + ",C", "A", f, "C");
  }

  /** Two quoted fields side by side, each holding a comma. */
  lemma ComplexStringSplitMultipleQuotes()
    ensures SplitSpec("A," + "\"B contains a quote" + ", comma\"," + "\"Also contains " + "a,comma\"" + ",D", ",", 1)
         == Columns(["A", "\"B contains a quote" + ", comma\"", "\"Also contains " + "a,comma\"", "D"])
  {
    var f1 := "\"B contains a quote" + ", comma\"";
    var f2 := "\"Also contains " + "a,comma\"";
    assert "A" + "," + f1 + "," + f2 + "," + "D"
        == "A," + "\"B contains a quote" + ", comma\"," + "\"Also contains " + "a,comma\"" + ",D";
    assert WellFormed(["A", f1, f2, "D"], ',') by {
      assert QuotedText(f1) by {
        PairedSkip(f1, 1, |f1| - 1, |f1| - 1);
      }
      assert QuotedText(f2) by {
        PairedSkip(f2, 1, |f2| - 1, |f2| - 1);
      }
    }
    SplitJoined4("A," + "\"B contains a quote" + ", comma\"," + "\"Also contains " + "a,comma\"" + ",D",
                 "A", f1, f2, "D");
  }

  /** A quote that is never closed makes its field run to the end of the
      line. */
  lemma ComplexStringSplitQuoteNotClosed()
    ensures SplitSpec("A," + "\"B contains a quote" + ", comma,C,D", ",", 1)
         == Columns(["A", "\"B contains a quote" + ", comma,C,D"])
  {
    var f := "\"B contains a quote" + ", comma,C,D";
    AppendAssociative("A,", "\"B contains a quote", ", comma,C,D");
    assert "A," == "A" + [','] && [','] == ",";
    assert |f| == 30 && f[0] == Quote && f[19] == ',' && f[29] == 'D';
    UnclosedAfterPlain("A", ',', f, 19);
  }

  /** A closing quote as the last character ends the line's last field. */
  lemma QuoteAsLastCharacter()
    ensures SplitSpec("A,B,\"C,D\"", ",", 1) == Columns(["A", "B", "\"C,D\""])
  {
    var f := "\"C,D\"";
    assert "A" + "," + "B" + "," + f == "A,B,\"C,D\"";
    assert WellFormed(["A", "B", f], ',') by {
      PairedSkip(f, 1, |f| - 1, |f| - 1);
    }
    SplitJoined3("A,B,\"C,D\"", "A", "B", f);
  }

  /** A doubled quote inside a quoted field does not close it. */
  lemma QuoteInsideAField()
    ensures SplitSpec("A,B," + "\"C A Field with " + "\"\" quotes\"" + ",D", ",", 1)
         == Columns(["A", "B", "\"C A Field with " + "\"\" quotes\"", "D"])
  {
    var f := "\"C A Field with " + "\"\" quotes\"";
    assert "A" + "," + "B" + "," + f + "," + "D" == "A,B," + "\"C A Field with " + "\"\" quotes\"" + ",D";
    assert WellFormed(["A", "B", f, "D"], ',') by {
      PairedSkip(f, 18, |f| - 1, |f| - 1);
      PairedSkip(f, 1, 16, |f| - 1);
    }
    SplitJoined4("A,B," + "\"C A Field with " + "\"\" quotes\"" + ",D", "A", "B", f, "D");
  }

  /** A doubled quote and a comma inside one quoted field. */
  lemma QuoteInsideAFieldWithComma()
    ensures SplitSpec("A,B," + "\"C A Field with " + "\"\" quotes, " + "and comma\"" + ",D", ",", 1)
         == Columns(["A", "B", "\"C A Field with " + "\"\" quotes, " + "and comma\"", "D"])
  {
    var f := "\"C A Field with " + "\"\" quotes, " + "and comma\"";
    assert "A" + "," + "B" + "," + f + "," + "D"
        == "A,B," + "\"C A Field with " + "\"\" quotes, " + "and comma\"" + ",D";
    assert WellFormed(["A", "B", f, "D"], ',') by {
      PairedSkip(f, 18, |f| - 1, |f| - 1);
      PairedSkip(f, 1, 16, |f| - 1);
    }
    SplitJoined4("A,B," + "\"C A Field with " + "\"\" quotes, " + "and comma\"" + ",D", "A", "B", f, "D");
  }

  /** Two doubled quotes in a row inside a quoted field. */
  lemma MultipleQuotesInsideAField()
    ensures SplitSpec("A,B," + "\"C A Field with " + "\"\"\"\" quotes\"" + ",D", ",", 1)
         == Columns(["A", "B", "\"C A Field with " + "\"\"\"\" quotes\"", "D"])
  {
    var f := "\"C A Field with " + "\"\"\"\" quotes\"";
    assert "A" + "," + "B" + "," + f + "," + "D" == "A,B," + "\"C A Field with " + "\"\"\"\" quotes\"" + ",D";
    assert WellFormed(["A", "B", f, "D"], ',') by {
      PairedSkip(f, 20, |f| - 1, |f| - 1);
      assert Paired(f, 18, |f| - 1);
      PairedSkip(f, 1, 16, |f| - 1);
    }
    SplitJoined4("A,B," + "\"C A Field with " + "\"\"\"\" quotes\"" + ",D", "A", "B", f, "D");
  }

  /** A doubled quote right after the opening quote. */
  lemma MultipleQuotesAtStartOfField()
    ensures SplitSpec("A,B," + "\"\"\"C A Field with " + "starting quotes\"" + ",D", ",", 1)
         == Columns(["A", "B", "\"\"\"C A Field with " + "starting quotes\"", "D"])
  {
    var f := "\"\"\"C A Field with " + "starting quotes\"";
    assert "A" + "," + "B" + "," + f + "," + "D" == "A,B," + "\"\"\"C A Field with " + "starting quotes\"" + ",D";
    assert WellFormed(["A", "B", f, "D"], ',') by {
      PairedSkip(f, 3, |f| - 1, |f| - 1);
    }
    SplitJoined4("A,B," + "\"\"\"C A Field with " + "starting quotes\"" + ",D", "A", "B", f, "D");
  }

  /** RowHelper's copy with a two-character delimiter: after the split at 1
      the search resumes at 3, so the overlapping "==" at 2 is not seen, the
      last "=" becomes a field, and the line still ends with the delimiter,
      which adds an empty field. */
  lemma OverlappingDelimiter()
    ensures SplitSpec("a===", "==", 2) == Columns(["a", "=", ""])
  {
    var l := "a===";
    assert IndexOfQuote(l, 0) == -1;
    assert !MatchFrom(l, "==", 0, 0);
    assert MatchFrom(l, "==", 1, 0);
    assert IndexOf(l, "==", 0) == 1;
    ScanFromPlainStep(l, "==", 2, 0, -1, []);
    assert IndexOf(l, "==", 3) == -1;
    ScanFromExit(l, "==", 2, 3, -1, [l[0..1]]);
    assert EndsWith(l, "==") by { assert MatchFrom(l, "==", 2, 0); }
    assert l[0..1] == "a" && l[3..] == "=";
  }

  /** An unclosed quote after a closed quoted field at position 0: the
      closing-quote search restarts from 0 and returns the first field's
      closing quote, which lies before the current field, so Substring gets a
      negative length and throws. */
  lemma RestartedSearchThrows()
    ensures SplitSpec("\"a\",b,\"c,d", ",", 1) == ArgumentOutOfRange
  {
    var l := "\"a\",b,\"c,d";
    assert IndexOfQuote(l, 0) == 0;
    assert IndexOf(l, ",", 0) == 3;
    assert ScanQuote(l, 0) == 2;
    assert EndQuote(l, 0) == Some(2);
    ScanFromQuotedStep(l, ",", 1, 0, 0, [], 2);
    assert IndexOfQuote(l, 4) == 6;
    assert IndexOf(l, ",", 4) == 5;
    ScanFromPlainStep(l, ",", 1, 4, 6, [l[0..3]]);
    assert IndexOf(l, ",", 6) == 8;
    assert IndexOfQuote(l, 7) == -1;
    assert ScanQuote(l, 6) == -1;
    assert EndQuote(l, 6) == Some(2);
    ScanFromQuotedStep(l, ",", 1, 6, 6, [l[0..3], l[4..5]], 2);
  }
}
