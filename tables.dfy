/** The fixed lookup tables of the scraper: the period scale and the weekday glyphs. */
module Tables {
  import opened Wrappers

  /** The period codes in teaching-day order; a code's index on this scale is its period index. */
  const Periods: seq<char> := ['1', '2', '3', '4', 'Z', '5', '6', '7', '8', '9', 'A', 'B', 'C', 'D']

  /** Number of periods on the scale. */
  const NumPeriods: nat := 14

  /** The weekday glyphs in display order, Sunday first. */
  const DaysList: seq<char> := ['日', '一', '二', '三', '四', '五', '六']

  /** The period-code dictionary: the index on the scale of a one-character period code. */
  function PeriodIndex(c: char): Option<nat> {
    match c
    case '1' => Some(0)
    case '2' => Some(1)
    case '3' => Some(2)
    case '4' => Some(3)
    case 'Z' => Some(4)
    case '5' => Some(5)
    case '6' => Some(6)
    case '7' => Some(7)
    case '8' => Some(8)
    case '9' => Some(9)
    case 'A' => Some(10)
    case 'B' => Some(11)
    case 'C' => Some(12)
    case 'D' => Some(13)
    case _ => None
  }

  /**
    The dictionary is the scale enumerated: a code's index is its position on the scale, and
    only the fourteen codes of the scale have an index.
   */
  lemma PeriodIndexInverse(c: char, i: nat)
    ensures PeriodIndex(c) == Some(i) <==> i < NumPeriods && Periods[i] == c
  {
    if i < NumPeriods {
      assert i == 0 || i == 1 || i == 2 || i == 3 || i == 4 || i == 5 || i == 6
        || i == 7 || i == 8 || i == 9 || i == 10 || i == 11 || i == 12 || i == 13;
    }
  }

  /** A character has an index exactly when it is on the scale. */
  lemma PeriodIndexDefined(c: char)
    ensures PeriodIndex(c).Some? <==> c in Periods
  {
    if c in Periods {
      var i :| 0 <= i < |Periods| && Periods[i] == c;
      PeriodIndexInverse(c, i);
    }
    if PeriodIndex(c).Some? {
      PeriodIndexInverse(c, PeriodIndex(c).value);
    }
  }

  /** The weekday dictionary for parsing: Monday is 0 and Sunday is 6. */
  function DayIndex(c: char): Option<nat> {
    match c
    case '一' => Some(0)
    case '二' => Some(1)
    case '三' => Some(2)
    case '四' => Some(3)
    case '五' => Some(4)
    case '六' => Some(5)
    case '日' => Some(6)
    case _ => None
  }

  /**
    The weekday dictionary knows exactly the glyphs of the display list, and shifts the
    display order (Sunday first) to the parsing order (Monday first).
   */
  lemma {:induction false} DayIndexShiftsDisplayOrder(c: char)
    ensures DayIndex(c).Some? <==> c in DaysList
    ensures forall i :: 0 <= i < |DaysList| && DaysList[i] == c ==> DayIndex(c) == Some((i + 6) % 7)
  {
    if c in DaysList {
      var i :| 0 <= i < |DaysList| && DaysList[i] == c;
      assert i == 0 || i == 1 || i == 2 || i == 3 || i == 4 || i == 5 || i == 6;
    }
  }

  /** Seven glyphs, seven distinct day numbers 0..6. */
  lemma DayIndexRange(c: char, d: char)
    ensures DayIndex(c).Some? ==> DayIndex(c).value <= 6
    ensures DayIndex(c).Some? && DayIndex(c) == DayIndex(d) ==> c == d
  {
  }
}
