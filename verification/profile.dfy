/**
 * Membership seniority (`transform_profile`): the integer `became_member_on`
 * value YYYYMMDD is cut into year, month and day text, read as a date, and each
 * row's seniority is the number of days from its date to the latest date of
 * the table.
 */
module Profile {
  import opened Decimal
  import opened Calendar

  /** An eight-digit integer, the only shape whose text cuts into YYYY, MM and DD. */
  predicate IsEightDigit(x: int) {
    10000000 <= x <= 99999999
  }

  /** The text `str(x)[:4] + '/' + str(x)[4:6] + '/' + str(x)[6:]`. */
  function MemberOnText(x: int): (t: string)
    requires IsEightDigit(x)
  {
    var s := Show(x);
    EightDigitText(x);
    s[..4] + "/" + s[4..6] + "/" + s[6..]
  }

  /** The text has the shape YYYY/MM/DD. */
  predicate IsSlashDate(t: string) {
    && |t| == 10 && t[4] == '/' && t[7] == '/'
    && AllDigits(t[..4]) && AllDigits(t[5..7]) && AllDigits(t[8..])
  }

  /** Reads the fields of a YYYY/MM/DD text. */
  function ReadSlashDate(t: string): Date
    requires IsSlashDate(t)
  {
    Date(Parse(t[..4]), Parse(t[5..7]), Parse(t[8..]))
  }

  /** The date an eight-digit `became_member_on` value stands for, by division and remainder. */
  function MemberOnDate(x: int): Date
    requires IsEightDigit(x)
  {
    Date(x / 10000, x / 100 % 100, x % 100)
  }

  /**
   * Cutting the decimal text at fixed places and reading the pieces gives the
   * same date as taking the value apart with division and remainder.
   */
  lemma SlicingMatchesDivision(x: int)
    requires IsEightDigit(x)
    ensures IsSlashDate(MemberOnText(x))
    ensures ReadSlashDate(MemberOnText(x)) == MemberOnDate(x)
  {
    SlashTextFields(x);
  }

  /** The value 20170812 becomes the text 2017/08/12. */
  lemma MemberOnExample()
    ensures MemberOnText(20170812) == "2017/08/12"
  {
    // The digits are built one step at a time so that the solver does not search for them.
    ExampleDigits();
    var s := Show(20170812);
    assert s[..4] == "2017";
    assert s[4..6] == "08";
    assert s[6..] == "12";
  }

  lemma ExampleDigits()
    ensures Show(20170812) == "20170812"
  {
    assert Show(2017) == "2017";
    assert Show(20170) == "20170";
    assert Show(201708) == "201708";
    assert Show(2017081) == "2017081";
  }

  lemma SlashTextFields(x: int)
    requires IsEightDigit(x)
    ensures IsSlashDate(MemberOnText(x))
    ensures Parse(MemberOnText(x)[..4]) == x / 10000
    ensures Parse(MemberOnText(x)[5..7]) == x / 100 % 100
    ensures Parse(MemberOnText(x)[8..]) == x % 100
  {
    var s := Show(x);
    EightDigitText(x);
    var t := MemberOnText(x);
    assert t[..4] == s[..4];
    assert t[5..7] == s[4..6];
    assert t[8..] == s[6..];
    DigitFields(x);
  }

  /** The digit groups of an eight-digit text denote x / 10000, x / 100 % 100 and x % 100. */
  lemma DigitFields(x: int)
    requires IsEightDigit(x)
    ensures |Show(x)| == 8
    ensures Parse(Show(x)[..4]) == x / 10000
    ensures Parse(Show(x)[4..6]) == x / 100 % 100
    ensures Parse(Show(x)[6..]) == x % 100
  {
    var s := Show(x);
    LeadingDigits(x);
    ParseShow(x / 10000);
    MonthDigits(x, s);
    DayDigits(x, s);
  }

  lemma MonthDigits(x: int, s: string)
    requires IsEightDigit(x) && s == Show(x) && |s| == 8
    requires s[..6] == Show(x / 100) && s[..4] == Show(x / 10000)
    ensures Parse(s[4..6]) == x / 100 % 100
  {
    var a, b := x / 100, x / 10000;
    assert b == a / 100;
    ParseShow(a);
    ParseShow(b);
    assert s[..6] == s[..4] + s[4..6];
    ParseAppendTwo(s[..4], s[4..6]);
    var m := Parse(s[4..6]);
    assert a == b * 100 + m;
    assert m < 100 by {
      assert s[4..6] == Show(x)[4..6];
      TwoDigitsBelowHundred(s[4..6]);
    }
  }

  lemma DayDigits(x: int, s: string)
    requires IsEightDigit(x) && s == Show(x) && |s| == 8
    requires s[..6] == Show(x / 100)
    ensures Parse(s[6..]) == x % 100
  {
    ParseShow(x);
    ParseShow(x / 100);
    assert s == s[..6] + s[6..];
    ParseAppendTwo(s[..6], s[6..]);
    var d := Parse(s[6..]);
    assert x == x / 100 * 100 + d;
    TwoDigitsBelowHundred(s[6..]);
  }

  /** The first six and first four digits are the texts of x / 100 and x / 10000. */
  lemma LeadingDigits(x: int)
    requires IsEightDigit(x)
    ensures |Show(x)| == 8
    ensures Show(x)[..6] == Show(x / 100)
    ensures Show(x)[..4] == Show(x / 10000)
  {
    var s := Show(x);
    EightDigitText(x);
    ShowDropLast(x);
    ShowDropLast(x / 10);
    ShowDropLast(x / 100);
    ShowDropLast(x / 1000);
    assert s[..7] == Show(x / 10);
    assert s[..6] == Show(x / 10)[..6];
    assert x / 10 / 10 == x / 100;
    assert s[..5] == Show(x / 100)[..5];
    assert x / 100 / 10 == x / 1000;
    assert s[..4] == Show(x / 1000)[..4];
    assert x / 1000 / 10 == x / 10000;
  }

  /** The timestamps `pd.to_datetime` can hold: 1677-09-22 through 2262-04-11. */
  predicate InTimestampRange(d: Date) {
    DateLe(Date(1677, 9, 22), d) && DateLe(d, Date(2262, 4, 11))
  }

  /** The largest whole-day span a `Timedelta` can hold. */
  const MaxTimedeltaDays: int := 106751

  /** A `became_member_on` value that `pd.to_datetime` accepts. */
  predicate Accepted(x: int) {
    IsEightDigit(x) && ValidDate(MemberOnDate(x)) && InTimestampRange(MemberOnDate(x))
  }

  /** The datetime of a value, as its day number. */
  function ToDatetime(x: int): int
    requires Accepted(x)
  {
    DayNumber(MemberOnDate(x))
  }

  /** `max()` of a non-empty column. */
  function MaxOf(ts: seq<int>): (m: int)
    requires |ts| > 0
    ensures m in ts
    ensures forall i :: 0 <= i < |ts| ==> ts[i] <= m
  {
    if |ts| == 1 then ts[0]
    else
      var rest := MaxOf(ts[1..]);
      assert forall i :: 1 <= i < |ts| ==> ts[i] == ts[1..][i - 1];
      if ts[0] >= rest then ts[0] else rest
  }

  /** The `became_member_on` column as datetimes. */
  function Datetimes(memberOn: seq<int>): seq<int>
    requires forall i :: 0 <= i < |memberOn| ==> Accepted(memberOn[i])
  {
    seq(|memberOn|, i requires 0 <= i < |memberOn| => ToDatetime(memberOn[i]))
  }

  /** No two datetimes are further apart than a `Timedelta` can hold. */
  predicate WithinSpan(ts: seq<int>) {
    forall i, j :: 0 <= i < |ts| && 0 <= j < |ts| ==> ts[i] - ts[j] <= MaxTimedeltaDays
  }

  /** Every value is accepted, and the resulting datetimes fit one `Timedelta` span. */
  predicate ProfileInput(memberOn: seq<int>) {
    && (forall i :: 0 <= i < |memberOn| ==> Accepted(memberOn[i]))
    && WithinSpan(Datetimes(memberOn))
  }

  /** Days from each datetime to the latest one, as `.dt.days` of the difference. */
  function DaysToLatest(ts: seq<int>): (seniority: seq<int>)
    requires WithinSpan(ts)
    ensures |seniority| == |ts|
    ensures forall i :: 0 <= i < |seniority| ==> 0 <= seniority[i] <= MaxTimedeltaDays
    ensures forall i, j :: 0 <= i < |seniority| && 0 <= j < |seniority| ==>
              seniority[i] - seniority[j] == ts[j] - ts[i]
    ensures forall i :: 0 <= i < |seniority| ==>
              (seniority[i] == 0 <==> forall j :: 0 <= j < |ts| ==> ts[j] <= ts[i])
  {
    if |ts| == 0 then []
    else
      var refDate := MaxOf(ts);
      seq(|ts|, i requires 0 <= i < |ts| => refDate - ts[i])
  }

  /** The `seniority` column computed from the `became_member_on` column. */
  function TransformProfile(memberOn: seq<int>): (seniority: seq<int>)
    requires ProfileInput(memberOn)
    ensures |seniority| == |memberOn|
    ensures forall i :: 0 <= i < |seniority| ==> 0 <= seniority[i] <= MaxTimedeltaDays
    ensures forall i, j :: 0 <= i < |seniority| && 0 <= j < |seniority| ==>
              seniority[i] - seniority[j] == ToDatetime(memberOn[j]) - ToDatetime(memberOn[i])
    ensures forall i :: 0 <= i < |seniority| ==>
              (seniority[i] == 0 <==>
               forall j :: 0 <= j < |memberOn| ==> DateLe(MemberOnDate(memberOn[j]), MemberOnDate(memberOn[i])))
  {
    var ts := Datetimes(memberOn);
    var seniority := DaysToLatest(ts);
    SeniorityOfDates(memberOn, ts, seniority);
    seniority
  }

  lemma SeniorityOfDates(memberOn: seq<int>, ts: seq<int>, seniority: seq<int>)
    requires forall j :: 0 <= j < |memberOn| ==> Accepted(memberOn[j])
    requires ts == Datetimes(memberOn)
    requires |seniority| == |ts|
    requires forall i :: 0 <= i < |seniority| ==>
               (seniority[i] == 0 <==> forall j :: 0 <= j < |ts| ==> ts[j] <= ts[i])
    ensures forall i :: 0 <= i < |seniority| ==>
              (seniority[i] == 0 <==>
               forall j :: 0 <= j < |memberOn| ==> DateLe(MemberOnDate(memberOn[j]), MemberOnDate(memberOn[i])))
  {
    LatestDates(memberOn, ts);
  }

  /** A row has the latest datetime exactly when no row has a later date. */
  lemma LatestDates(memberOn: seq<int>, ts: seq<int>)
    requires forall j :: 0 <= j < |memberOn| ==> Accepted(memberOn[j])
    requires ts == Datetimes(memberOn)
    ensures forall i :: 0 <= i < |ts| ==>
              ((forall j :: 0 <= j < |ts| ==> ts[j] <= ts[i]) <==>
               forall j :: 0 <= j < |memberOn| ==> DateLe(MemberOnDate(memberOn[j]), MemberOnDate(memberOn[i])))
  {
    forall i, j | 0 <= i < |ts| && 0 <= j < |ts|
      ensures ts[j] <= ts[i] <==> DateLe(MemberOnDate(memberOn[j]), MemberOnDate(memberOn[i]))
    {
      DayNumberOrder(MemberOnDate(memberOn[j]), MemberOnDate(memberOn[i]));
    }
  }
}
