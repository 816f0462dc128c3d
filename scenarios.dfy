/**
 * Worked rows: what the extractor and the gate do with a row that shows a
 * 5 roll, one whose fives are all inside longer numbers, and a page where
 * the first row with a 5 lacks a time line.
 */
module Scenarios {
  import opened Wrappers
  import opened PyStr
  import opened Rows
  import opened Gate

  /** A string in which the needle's first character never occurs cannot contain the needle. */
  lemma AbsentHeadNotContained(s: string, sub: string)
    requires |sub| > 0 && sub[0] !in s
    ensures !Contains(s, sub)
  {
    forall i | 0 <= i <= |s| - |sub| ensures !OccursAt(s, sub, i) {
      assert s[i..i + |sub|][0] == s[i];
    }
  }

  const SampleRow: string := "14 Aug 2025\n15:28\n3 7 12 5 9"
  const SampleLines: seq<string> := ["14 Aug 2025", "15:28", "3 7 12 5 9"]

  /** The sample row splits into its date, time and outcome lines. */
  lemma SampleRowLines()
    ensures Split(SampleRow, '\n') == SampleLines
  {
    assert Join(SampleLines, '\n') == SampleRow;
    SplitJoin(SampleLines, '\n');
  }

  /** Only the first sample line mentions a month. */
  lemma SampleDateLines()
    ensures Selects(Date, SampleLines[0])
    ensures !Selects(Date, SampleLines[1]) && !Selects(Date, SampleLines[2])
  {
    assert OccursAt(SampleLines[0], "Aug", 3);
    AbsentHeadNotContained(SampleLines[1], "Aug");
    AbsentHeadNotContained(SampleLines[1], "Sep");
    AbsentHeadNotContained(SampleLines[1], "Oct");
    AbsentHeadNotContained(SampleLines[2], "Aug");
    AbsentHeadNotContained(SampleLines[2], "Sep");
    AbsentHeadNotContained(SampleLines[2], "Oct");
  }

  /** The second sample line is a time line and the last one is not. */
  lemma SampleTimeLines()
    ensures Selects(Time, SampleLines[1]) && !Selects(Time, SampleLines[2])
  {
    assert OccursAt(SampleLines[1], ":", 2);
    assert Count(SampleLines[1], ':') == 1;
    AbsentHeadNotContained(SampleLines[2], ":");
  }

  /** A line that neither starts nor ends with whitespace is its own stripped form. */
  lemma StripUnpadded(s: string)
    requires s != [] && !IsSpace(s[0]) && !IsSpace(s[|s| - 1])
    ensures Strip(s) == s
  {
    assert StripStart(s) == s;
  }

  /** Of three lines, when only the first is selected, it is the pick. */
  lemma PickFirstOfThree(lines: seq<string>, f: Field)
    requires |lines| == 3 && Selects(f, lines[0])
    requires !Selects(f, lines[1]) && !Selects(f, lines[2])
    ensures LastSelected(lines, f) == Some(Strip(lines[0]))
  {
    assert lines[..2][..1] == [lines[0]];
    assert LastSelected(lines[..2], f) == LastSelected([lines[0]], f);
  }

  /** Of three lines, when the second is selected and the third is not, the second is the pick. */
  lemma PickSecondOfThree(lines: seq<string>, f: Field)
    requires |lines| == 3 && Selects(f, lines[1]) && !Selects(f, lines[2])
    ensures LastSelected(lines, f) == Some(Strip(lines[1]))
  {
    assert lines[..2][1] == lines[1];
  }

  /** The date picked from the sample row is its first line, stripped. */
  lemma SampleDatePicked()
    ensures LastSelected(SampleLines, Date) == Some("14 Aug 2025")
  {
    SampleDateLines();
    PickFirstOfThree(SampleLines, Date);
    SampleDateStripped();
  }

  /** The sample date line has no surrounding whitespace. */
  lemma SampleDateStripped()
    ensures Strip(SampleLines[0]) == SampleLines[0]
  {
    StripUnpadded(SampleLines[0]);
  }

  /** The time picked from the sample row is its second line, stripped. */
  lemma SampleTimePicked()
    ensures LastSelected(SampleLines, Time) == Some("15:28")
  {
    SampleTimeLines();
    PickSecondOfThree(SampleLines, Time);
    SampleTimeStripped();
  }

  /** The sample time line has no surrounding whitespace. */
  lemma SampleTimeStripped()
    ensures Strip(SampleLines[1]) == SampleLines[1]
  {
    StripUnpadded(SampleLines[1]);
  }

  /** A row whose second line has the time and whose last line has a spaced 5. */
  lemma RowWithFive()
    ensures RowStamp(SampleRow) == Some(Stamp("14 Aug 2025", "15:28"))
  {
    assert OccursAt(SampleRow, " 5 ", 24);
    SampleRowLines();
    SampleDatePicked();
    SampleTimePicked();
  }

  /** The same row with outcome digits "13 27 42": its fives are all inside numbers. */
  lemma RowWithoutFive()
    ensures RowStamp("14 Aug 2025\n15:28\n13 27 42") == None
  {
    var text := "14 Aug 2025\n15:28\n13 27 42";
    forall i | 0 <= i < |text| && text[i] == '5' ensures TouchesNonSpace(text, i) {
      assert i == 10 || i == 13;
    }
    EmbeddedFiveRejected(text);
  }

  const NoTimeRow: string := "14 Aug 2025 5 9"

  /** The row has a spaced 5 in its middle. */
  lemma NoTimeRowHasFive()
    ensures HasFiveRoll(NoTimeRow)
  {
    assert OccursAt(NoTimeRow, " 5 ", 11);
  }

  /** The row is a single line. */
  lemma NoTimeRowLines()
    ensures Split(NoTimeRow, '\n') == [NoTimeRow]
  {
    SplitJoin([NoTimeRow], '\n');
  }

  /** Its only line has no ':', so no time is picked. */
  lemma NoTimeRowNoTime()
    ensures LastSelected([NoTimeRow], Time) == None
  {
    AbsentHeadNotContained(NoTimeRow, ":");
    assert !Selects(Time, NoTimeRow);
    assert [NoTimeRow][..0] == [];
  }

  /** The row shows a 5 roll but has no line with a ':', so it yields no stamp. */
  lemma RowWithoutTime()
    ensures RowStamp(NoTimeRow) == None
  {
    NoTimeRowHasFive();
    NoTimeRowLines();
    NoTimeRowNoTime();
  }

  /**
   * A qualifying row without a time line is passed over and the next
   * qualifying row is the first one with a stamp.
   */
  lemma SkipsRowWithoutTime()
    ensures FirstStamped([NoTimeRow, SampleRow], 1)
  {
    RowWithoutTime();
    RowWithFive();
  }

  /** A run at 21:00 for the roll at 15:28 (about 5.53 hours) alerts and stores id 5. */
  lemma FirstAlertOfDrought(last: Option<int>)
    requires last != Some(5)
    ensures Step(last, Some(5.53)) == Outcome(Some(5), true)
  {
    assert Trunc(5.53) == 5;
  }
}
