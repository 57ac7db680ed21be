/** The extractor on particular texts: what `\b` and the fixed group count let
    through and what they stop. */
module ExtractorExamples {
  import opened Extractor

  /** Octet values are not range-checked: 999 is as good a group as 9. */
  lemma OctetsNotRangeChecked()
    ensures Extract("999.999.999.999") == ["999.999.999.999"]
  {
    var s := "999.999.999.999";
    DigitRunEndUnique(s, 0, 3);
    DigitRunEndUnique(s, 4, 7);
    DigitRunEndUnique(s, 8, 11);
    DigitRunEndUnique(s, 12, 15);
    assert GroupsEnd(s, 12, 1) == Some(15);
    assert GroupsEnd(s, 8, 2) == Some(15);
    assert GroupsEnd(s, 4, 3) == Some(15);
    assert MatchEnd(s, 0) == Some(15);
    assert Spans(s, 0) == [(0, 15)];
    assert Texts(s, [(0, 15)]) == [s[0..15]];
    assert s[0..15] == s;
  }

  /** A fifth group is not part of the match: the first four groups end at a
      dot, which is a boundary, and the lone "5" left over cannot match. */
  lemma FifthGroupLeftOut(s: string)
    requires s == "1.2.3.4.5"
    ensures Extract(s) == ["1.2.3.4"]
  {
    SingleDigitQuad(s, 0);
    SpansAtMatch(s, 0, 7);
    DigitRunEndUnique(s, 8, 9);
    assert MatchEnd(s, 8) == None;
    assert Spans(s, 8) == [];
    SpansSkipNoDigits(s, 7, 8);
    TextsCons(s, 0, 7, []);
    assert s[0..7] == "1.2.3.4";
  }

  /** A last group of four digits stops the match: a group is the whole run
      of digits, and no later start is at a boundary followed by four groups. */
  lemma LongLastGroupNoMatch()
    ensures Extract("1.2.3.4567") == []
  {
    var s := "1.2.3.4567";
    DigitRunEndUnique(s, 0, 1);
    DigitRunEndUnique(s, 2, 3);
    DigitRunEndUnique(s, 4, 5);
    DigitRunEndUnique(s, 6, 10);
    assert MatchEnd(s, 0) == None;
    assert MatchEnd(s, 2) == None;
    assert MatchEnd(s, 4) == None;
    assert MatchEnd(s, 6) == None;
    assert Spans(s, 6) == [];
    assert Spans(s, 4) == [];
    assert Spans(s, 2) == [];
    assert Spans(s, 0) == [];
  }

  /** A letter directly before the first group leaves no `\b` there. */
  lemma LetterBeforeNoMatch(s: string)
    requires s == "a1.2.3.4"
    ensures Extract(s) == []
  {
    DigitRunEndUnique(s, 1, 2);
    DigitRunEndUnique(s, 3, 4);
    DigitRunEndUnique(s, 5, 6);
    DigitRunEndUnique(s, 7, 8);
    assert MatchEnd(s, 7) == None;
    assert MatchEnd(s, 5) == None;
    assert MatchEnd(s, 3) == None;
    assert !BoundaryAt(s, 1);
    assert Spans(s, 7) == [];
    assert Spans(s, 5) == [];
    assert Spans(s, 3) == [];
    assert Spans(s, 1) == [];
  }

  /** The scan of the second copy in "1.2.3.4 1.2.3.4". */
  lemma RepeatsSecondSpan(s: string)
    requires s == "1.2.3.4 1.2.3.4"
    ensures Spans(s, 7) == [(8, 15)]
  {
    SingleDigitQuad(s, 8);
    SpansSkipNoDigits(s, 7, 8);
    SpansAtMatch(s, 8, 15);
    assert Spans(s, 15) == [];
  }

  /** Where the scan finds the two copies in "1.2.3.4 1.2.3.4". */
  lemma RepeatsSpans(s: string)
    requires s == "1.2.3.4 1.2.3.4"
    ensures Spans(s, 0) == [(0, 7), (8, 15)]
  {
    SingleDigitQuad(s, 0);
    SpansAtMatch(s, 0, 7);
    RepeatsSecondSpan(s);
  }

  /** The list keeps repeats; only the set built from it collapses them. */
  lemma RepeatsKept(s: string)
    requires s == "1.2.3.4 1.2.3.4"
    ensures Extract(s) == ["1.2.3.4", "1.2.3.4"]
  {
    RepeatsSpans(s);
    TextsCons(s, 8, 15, []);
    TextsCons(s, 0, 7, [(8, 15)]);
    assert s[0..7] == "1.2.3.4" && s[8..15] == "1.2.3.4";
  }
}
