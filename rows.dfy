/**
 * The row scan inside `get_hours_since_last_5roll`: which rendered result
 * rows show a roll of 5, which of their lines give the date and the time,
 * and which row is taken. The browser that produces the row texts is not
 * modelled; the rows arrive as a sequence of strings, in page order.
 */
module Rows {
  import opened Wrappers
  import opened PyStr

  // ---------------------------------------------------------------------
  // Row classifier
  // ---------------------------------------------------------------------

  /** A row shows a 5 roll: it contains " 5 ", starts with "5 " or ends with " 5". */
  predicate HasFiveRoll(text: string) {
    Contains(text, " 5 ") || StartsWith(text, "5 ") || EndsWith(text, " 5")
  }

  /**
   * A '5' at index `i` standing on its own: each neighbour is a space or the
   * edge of the text, and at least one neighbour exists.
   */
  predicate SpacedFiveAt(text: string, i: int) {
    0 <= i < |text| && text[i] == '5' && |text| >= 2
    && (i == 0 || text[i - 1] == ' ')
    && (i == |text| - 1 || text[i + 1] == ' ')
  }

  /** The classifier accepts a row exactly when it holds a space-delimited 5. */
  lemma HasFiveRollIff(text: string)
    ensures HasFiveRoll(text) <==> exists i :: SpacedFiveAt(text, i)
  {
    if Contains(text, " 5 ") {
      var j :| 0 <= j <= |text| - 3 && OccursAt(text, " 5 ", j);
      assert text[j] == text[j..j + 3][0];
      assert text[j + 1] == text[j..j + 3][1];
      assert text[j + 2] == text[j..j + 3][2];
      assert SpacedFiveAt(text, j + 1);
    } else if StartsWith(text, "5 ") {
      assert text[0] == text[..2][0] && text[1] == text[..2][1];
      assert SpacedFiveAt(text, 0);
    } else if EndsWith(text, " 5") {
      var n := |text|;
      assert text[n - 2] == text[n - 2..][0] && text[n - 1] == text[n - 2..][1];
      assert SpacedFiveAt(text, n - 1);
    }
    if i :| SpacedFiveAt(text, i) {
      var n := |text|;
      if i == 0 {
        assert text[..2] == "5 ";
      } else if i == n - 1 {
        assert text[n - 2..] == " 5";
      } else {
        assert text[i - 1..i + 2] == " 5 ";
        assert OccursAt(text, " 5 ", i - 1);
      }
    }
  }

  /**
   * A 5 that touches a non-space character on one side (a digit of "15" or
   * "50", a newline) never qualifies a row on its own: when every 5 in the
   * text is like that, the row is rejected.
   */
  lemma EmbeddedFiveRejected(text: string)
    requires forall i :: 0 <= i < |text| && text[i] == '5' ==> TouchesNonSpace(text, i)
    ensures !HasFiveRoll(text)
  {
    HasFiveRollIff(text);
    forall i | 0 <= i < |text| && text[i] == '5' ensures !SpacedFiveAt(text, i) {
      assert TouchesNonSpace(text, i);
    }
  }

  /** The character at `i` has a neighbour that is not a space. */
  predicate TouchesNonSpace(text: string, i: int)
    requires 0 <= i < |text|
  {
    (0 < i && text[i - 1] != ' ') || (i < |text| - 1 && text[i + 1] != ' ')
  }

  // ---------------------------------------------------------------------
  // Date/time line picker
  // ---------------------------------------------------------------------

  /** A line taken as the date: it mentions one of the months the page shows. */
  predicate MentionsMonth(line: string) {
    Contains(line, "Aug") || Contains(line, "Sep") || Contains(line, "Oct")
  }

  /** A line taken as the time: it holds a ':' and exactly one. */
  predicate IsTimeLine(line: string) {
    Contains(line, ":") && Count(line, ':') == 1
  }

  /** The membership test before `count` adds nothing: one ':' is the whole condition. */
  lemma IsTimeLineIff(line: string)
    ensures IsTimeLine(line) <==> Count(line, ':') == 1
  {
    ContainsChar(line, ':');
  }

  datatype Field = Date | Time

  predicate Selects(f: Field, line: string) {
    match f
    case Date => MentionsMonth(line)
    case Time => IsTimeLine(line)
  }

  /** The stripped form of the last line selected for field `f`, if any line is. */
  function LastSelected(lines: seq<string>, f: Field): Option<string> {
    if lines == [] then None
    else if Selects(f, lines[|lines| - 1]) then Some(Strip(lines[|lines| - 1]))
    else LastSelected(lines[..|lines| - 1], f)
  }

  /** The index of the last line selected for field `f`, or -1 when none is. */
  function LastIndex(lines: seq<string>, f: Field): (k: int)
    ensures -1 <= k < |lines|
    ensures k >= 0 ==> Selects(f, lines[k])
    ensures forall j :: k < j < |lines| ==> !Selects(f, lines[j])
  {
    if lines == [] then -1
    else if Selects(f, lines[|lines| - 1]) then |lines| - 1
    else LastIndex(lines[..|lines| - 1], f)
  }

  /**
   * The picked value is absent exactly when no line is selected, and
   * otherwise it is the stripped form of the last selected line: a later
   * match overwrites an earlier one.
   */
  lemma {:induction false} LastSelectedIsLast(lines: seq<string>, f: Field)
    ensures LastSelected(lines, f).None? <==> forall k :: 0 <= k < |lines| ==> !Selects(f, lines[k])
    ensures LastSelected(lines, f).Some? ==>
              LastIndex(lines, f) >= 0 && LastSelected(lines, f).value == Strip(lines[LastIndex(lines, f)])
  {
    if lines != [] {
      var n := |lines|;
      var init := lines[..n - 1];
      if !Selects(f, lines[n - 1]) {
        LastSelectedIsLast(init, f);
        assert LastSelected(lines, f) == LastSelected(init, f);
        assert LastIndex(lines, f) == LastIndex(init, f);
        forall k | 0 <= k < n - 1 ensures init[k] == lines[k] {
        }
      }
    }
  }

  /** A line selected for a field is never blank, so its stripped form is never empty. */
  lemma {:induction false} LastSelectedNonEmpty(lines: seq<string>, f: Field)
    ensures LastSelected(lines, f).Some? ==> LastSelected(lines, f).value != []
  {
    if LastSelected(lines, f).Some? {
      LastSelectedIsLast(lines, f);
      var k := LastIndex(lines, f);
      SelectedNotBlank(f, lines[k]);
      StripEmptyIffBlank(lines[k]);
    }
  }

  lemma SelectedNotBlank(f: Field, line: string)
    requires Selects(f, line)
    ensures !AllSpace(line)
  {
    if f == Date {
      if Contains(line, "Aug") {
        var i :| 0 <= i <= |line| - 3 && OccursAt(line, "Aug", i);
        assert line[i] == line[i..i + 3][0] == 'A';
      } else if Contains(line, "Sep") {
        var i :| 0 <= i <= |line| - 3 && OccursAt(line, "Sep", i);
        assert line[i] == line[i..i + 3][0] == 'S';
      } else {
        var i :| 0 <= i <= |line| - 3 && OccursAt(line, "Oct", i);
        assert line[i] == line[i..i + 3][0] == 'O';
      }
    } else {
      var i :| 0 <= i <= |line| - 1 && OccursAt(line, ":", i);
      assert line[i] == line[i..i + 1][0] == ':';
    }
  }

  /**
   * The loop over a row's lines: each line that mentions a month replaces
   * the date, and, independently, each line with exactly one ':' replaces
   * the time.
   */
  method PickDateTime(parts: seq<string>) returns (dateStr: Option<string>, timeStr: Option<string>)
    ensures dateStr == LastSelected(parts, Date)
    ensures timeStr == LastSelected(parts, Time)
  {
    dateStr, timeStr := None, None;
    for i := 0 to |parts|
      invariant dateStr == LastSelected(parts[..i], Date)
      invariant timeStr == LastSelected(parts[..i], Time)
    {
      var part := parts[i];
      assert parts[..i + 1][..i] == parts[..i];
      if MentionsMonth(part) {
        dateStr := Some(Strip(part));
      }
      if IsTimeLine(part) {
        timeStr := Some(Strip(part));
      }
    }
    assert parts[..|parts|] == parts;
  }

  /** One line can give both the date and the time. */
  lemma OneLineGivesBoth(line: string)
    requires MentionsMonth(line) && IsTimeLine(line)
    ensures LastSelected([line], Date) == Some(Strip(line))
    ensures LastSelected([line], Time) == Some(Strip(line))
  {
  }

  // ---------------------------------------------------------------------
  // First-match row search
  // ---------------------------------------------------------------------

  /** The date and time strings picked from a qualifying row. */
  datatype Stamp = Stamp(date: string, time: string)

  /** Python truthiness of an optional string: present and not empty. */
  predicate Truthy(s: Option<string>) {
    s.Some? && s.value != []
  }

  /** What one row contributes to the search: its stamp, when it has one. */
  function RowStamp(text: string): Option<Stamp> {
    if !HasFiveRoll(text) then None
    else
      var lines := Split(text, '\n');
      var d := LastSelected(lines, Date);
      var t := LastSelected(lines, Time);
      if Truthy(d) && Truthy(t) then Some(Stamp(d.value, t.value)) else None
  }

  /**
   * A row yields a stamp exactly when it shows a 5 roll, one of its lines
   * mentions a month and one of its lines has exactly one ':'; the stamp is
   * the pair of last such lines, stripped.
   */
  lemma RowStampIff(text: string)
    ensures var lines := Split(text, '\n');
            RowStamp(text).Some? <==>
              HasFiveRoll(text)
              && (exists k :: 0 <= k < |lines| && MentionsMonth(lines[k]))
              && (exists k :: 0 <= k < |lines| && IsTimeLine(lines[k]))
    ensures RowStamp(text).Some? ==>
              var lines := Split(text, '\n');
              RowStamp(text).value == Stamp(LastSelected(lines, Date).value, LastSelected(lines, Time).value)
  {
    assert forall l :: Selects(Date, l) == MentionsMonth(l) && Selects(Time, l) == IsTimeLine(l);
    var lines := Split(text, '\n');
    var d := LastSelected(lines, Date);
    var t := LastSelected(lines, Time);
    assert d.Some? <==> exists k :: 0 <= k < |lines| && MentionsMonth(lines[k]) by {
      LastSelectedIsLast(lines, Date);
    }
    assert t.Some? <==> exists k :: 0 <= k < |lines| && IsTimeLine(lines[k]) by {
      LastSelectedIsLast(lines, Time);
    }
    assert Truthy(d) == d.Some? && Truthy(t) == t.Some? by {
      LastSelectedNonEmpty(lines, Date);
      LastSelectedNonEmpty(lines, Time);
    }
  }

  /** Row `i` is the first row that yields a stamp. */
  predicate FirstStamped(rows: seq<string>, i: int) {
    0 <= i < |rows| && RowStamp(rows[i]).Some?
    && forall j :: 0 <= j < i ==> RowStamp(rows[j]).None?
  }

  /** At most one row is the first stamped one. */
  lemma FirstStampedUnique(rows: seq<string>, i: int, j: int)
    requires FirstStamped(rows, i) && FirstStamped(rows, j)
    ensures i == j
  {
  }

  /** A search hit: the index of the row taken and the stamp read from it. */
  datatype Hit = Hit(row: nat, stamp: Stamp)

  /**
   * Walks the rows in page order and stops at the first one that shows a
   * 5 roll and has both a date and a time line; a row that shows a 5 roll
   * but lacks either is passed over.
   */
  method FindFirstFiveRoll(rows: seq<string>) returns (hit: Option<Hit>)
    ensures hit.None? <==> forall i :: 0 <= i < |rows| ==> RowStamp(rows[i]).None?
    ensures hit.Some? ==>
              && hit.value.row < |rows|
              && RowStamp(rows[hit.value.row]) == Some(hit.value.stamp)
              && forall j :: 0 <= j < hit.value.row ==> RowStamp(rows[j]).None?
  {
    for i := 0 to |rows|
      invariant forall j :: 0 <= j < i ==> RowStamp(rows[j]).None?
    {
      var textBlock := rows[i];
      if HasFiveRoll(textBlock) {
        var parts := Split(textBlock, '\n');
        var dateStr, timeStr := PickDateTime(parts);
        if Truthy(dateStr) && Truthy(timeStr) {
          return Some(Hit(i, Stamp(dateStr.value, timeStr.value)));
        }
      }
    }
    return None;
  }

  /**
   * `get_hours_since_last_5roll` without the browser: the hours since the
   * stamp of the first qualifying row, or nothing when no row qualifies.
   * `hoursSince` stands for parsing the stamp and subtracting it from now.
   */
  method HoursSinceLastFiveRoll(rows: seq<string>, hoursSince: (string, string) -> real)
    returns (age: Option<real>)
    ensures age.None? <==> forall i :: 0 <= i < |rows| ==> RowStamp(rows[i]).None?
    ensures age.Some? ==>
              exists i :: FirstStamped(rows, i)
                          && age.value == hoursSince(RowStamp(rows[i]).value.date, RowStamp(rows[i]).value.time)
    ensures forall i :: FirstStamped(rows, i) ==>
              age == Some(hoursSince(RowStamp(rows[i]).value.date, RowStamp(rows[i]).value.time))
  {
    var hit := FindFirstFiveRoll(rows);
    match hit {
      case None =>
        age := None;
      case Some(h) =>
        age := Some(hoursSince(h.stamp.date, h.stamp.time));
        assert FirstStamped(rows, h.row);
        forall i | FirstStamped(rows, i)
          ensures age == Some(hoursSince(RowStamp(rows[i]).value.date, RowStamp(rows[i]).value.time))
        {
          FirstStampedUnique(rows, i, h.row);
        }
    }
  }
}
