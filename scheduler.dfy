/** The review schedule of `src/lib/scheduler.ts`: a stage picks a waiting time from a
    fixed table of expanding intervals, and each stage has a description naming it.
    Calendar dates are day numbers. */
module Scheduler {
  import opened Strings

  /** The intervals in days: 1, 2, 4, 7, 15 and 30. */
  const ReviewIntervals: seq<nat> := [1, 2, 4, 7, 15, 30]

  /** The table entry for the stage, or 30 when the lookup finds nothing (a stage
      outside the table) or a falsy entry. */
  function ReviewInterval(stage: int): (days: nat)
    ensures days in ReviewIntervals
    ensures 1 <= days <= 30
    ensures 0 <= stage < |ReviewIntervals| ==> days == ReviewIntervals[stage]
    ensures !(0 <= stage < |ReviewIntervals|) ==> days == 30
  {
    if 0 <= stage < |ReviewIntervals| && ReviewIntervals[stage] != 0 then ReviewIntervals[stage] else 30
  }

  /** The day of the next review: strictly later than today, at most thirty days on. */
  function NextReviewDay(today: int, stage: int): (day: int)
    ensures today < day <= today + 30
    ensures day - today == ReviewInterval(stage)
  {
    today + ReviewInterval(stage)
  }

  /** Stage by stage, the table values in order. */
  lemma IntervalTable()
    ensures ReviewInterval(0) == 1 && ReviewInterval(1) == 2 && ReviewInterval(2) == 4
    ensures ReviewInterval(3) == 7 && ReviewInterval(4) == 15 && ReviewInterval(5) == 30
  {
  }

  /** Waiting times never shrink as the stage grows. */
  lemma IntervalMonotone(a: int, b: int)
    requires 0 <= a <= b
    ensures ReviewInterval(a) <= ReviewInterval(b)
  {
    if b < |ReviewIntervals| {
      assert ReviewIntervals[a] <= ReviewIntervals[b];
    }
  }

  function Description(stage: int): string {
    match stage
    case 0 => "First Review (1 day)"
    case 1 => "Second Review (2 days)"
    case 2 => "Third Review (4 days)"
    case 3 => "Fourth Review (7 days)"
    case 4 => "Fifth Review (15 days)"
    case _ => "Maintenance Review (30 days)"
  }

  /** The ordinal word of a description. */
  function StageName(stage: int): string {
    match stage
    case 0 => "First"
    case 1 => "Second"
    case 2 => "Third"
    case 3 => "Fourth"
    case 4 => "Fifth"
    case _ => "Maintenance"
  }

  /** The unit after the count: singular for one day. */
  function DayWord(n: nat): string {
    if n == 1 then "day" else "days"
  }

  /** Every description names, in parentheses, the number of days the schedule waits
      at that stage. */
  lemma DescriptionNamesInterval(stage: int)
    ensures Description(stage) ==
      StageName(stage) + " Review (" + Decimal(ReviewInterval(stage)) + " " + DayWord(ReviewInterval(stage)) + ")"
  {
    match stage {
      case 0 => DescribeFirst();
      case 1 => DescribeSecond();
      case 2 => DescribeThird();
      case 3 => DescribeFourth();
      case 4 => DescribeFifth();
      case _ => DescribeMaintenance(stage);
    }
  }

  lemma DescribeFirst()
    ensures Description(0) == "First" + " Review (" + Decimal(1) + " " + DayWord(1) + ")"
  {
    assert Decimal(1) == "1";
    assert "First Review (" == "First" + " Review (";
    assert "1 day)" == "1" + " " + "day" + ")";
  }

  lemma DescribeSecond()
    ensures Description(1) == "Second" + " Review (" + Decimal(2) + " " + DayWord(2) + ")"
  {
    assert Decimal(2) == "2";
    assert "Second Review (" == "Second" + " Review (";
    assert "2 days)" == "2" + " " + "days" + ")";
  }

  lemma DescribeThird()
    ensures Description(2) == "Third" + " Review (" + Decimal(4) + " " + DayWord(4) + ")"
  {
    assert Decimal(4) == "4";
    assert "Third Review (" == "Third" + " Review (";
    assert "4 days)" == "4" + " " + "days" + ")";
  }

  lemma DescribeFourth()
    ensures Description(3) == "Fourth" + " Review (" + Decimal(7) + " " + DayWord(7) + ")"
  {
    assert Decimal(7) == "7";
    assert "Fourth Review (" == "Fourth" + " Review (";
    assert "7 days)" == "7" + " " + "days" + ")";
  }

  lemma DescribeFifth()
    ensures Description(4) == "Fifth" + " Review (" + Decimal(15) + " " + DayWord(15) + ")"
  {
    assert Decimal(1) == "1";
    assert Decimal(15) == "15";
    assert "Fifth Review (" == "Fifth" + " Review (";
    assert "15 days)" == "15" + " " + "days" + ")";
  }

  lemma DescribeMaintenance(stage: int)
    requires !(0 <= stage <= 4)
    ensures Description(stage) == "Maintenance" + " Review (" + Decimal(30) + " " + DayWord(30) + ")"
  {
    assert Decimal(3) == "3";
    assert Decimal(30) == "30";
    assert "Maintenance Review (" == "Maintenance" + " Review (";
    assert "30 days)" == "30" + " " + "days" + ")";
  }
}
