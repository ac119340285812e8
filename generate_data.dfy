/**
 * The deterministic date schedules of the sample-data generator: the bi-weekly
 * pay dates and the two Fidelity account files. A date is a day ordinal: day 0
 * is 2025-01-01 and day d is d days later; `timedelta` arithmetic is addition.
 */
module GenerateData {

  // ---------------------------------------------------------------------------
  // The calendar of 2025, enough for `date.day`

  const YearLength := 365

  /** The ordinal of the first day of each month of 2025, a common year. */
  const MonthStarts: seq<int> := [0, 31, 59, 90, 120, 151, 181, 212, 243, 273, 304, 334]

  predicate InYear(d: int) {
    0 <= d < YearLength
  }

  /** The first ordinal after month `m`. */
  function MonthEnd(m: nat): int
    requires m < 12
  {
    if m == 11 then YearLength else MonthStarts[m + 1]
  }

  /** The day of the month of `d`, searching the months from `m` on. */
  function DayFrom(d: int, m: nat): (r: int)
    requires InYear(d) && m < 12 && MonthStarts[m] <= d
    ensures 1 <= r
    decreases 12 - m
  {
    if d < MonthEnd(m) then d - MonthStarts[m] + 1 else DayFrom(d, m + 1)
  }

  /** `date.day`: the day of the month, counted from 1. */
  function DayOfMonth(d: int): (r: int)
    requires InYear(d)
    ensures 1 <= r
  {
    DayFrom(d, 0)
  }

  /** The search from month `m` answers the offset of `d` in the month that
      holds it, counted from 1. */
  lemma {:induction false} DayFromIsOffset(d: int, m: nat)
    requires InYear(d) && m < 12 && MonthStarts[m] <= d
    ensures DayFrom(d, m) <= 31
    ensures exists m' ::
      m <= m' < 12 && MonthStarts[m'] <= d < MonthEnd(m') && DayFrom(d, m) == d - MonthStarts[m'] + 1
    decreases 12 - m
  {
    if d < MonthEnd(m) {
      assert MonthStarts[m] <= d < MonthEnd(m);
    } else {
      DayFromIsOffset(d, m + 1);
    }
  }

  /** `DayOfMonth` is the offset of `d` in its month, counted from 1. */
  lemma DayOfMonthIsOffset(d: int)
    requires InYear(d)
    ensures 1 <= DayOfMonth(d) <= 31
    ensures exists m ::
      0 <= m < 12 && MonthStarts[m] <= d < MonthEnd(m) && DayOfMonth(d) == d - MonthStarts[m] + 1
  {
    DayFromIsOffset(d, 0);
  }

  /** Day `n` of month `m` is found by the search from any earlier month. */
  lemma {:induction false} DayFromOf(k: nat, m: nat, n: int)
    requires k <= m < 12 && 1 <= n && MonthStarts[m] + n - 1 < MonthEnd(m)
    ensures InYear(MonthStarts[m] + n - 1) && MonthStarts[k] <= MonthStarts[m]
    ensures DayFrom(MonthStarts[m] + n - 1, k) == n
    decreases m - k
  {
    if k < m {
      DayFromOf(k + 1, m, n);
    }
  }

  /** Day `n` of month `m` is found again by `DayOfMonth`, for every day that
      month has. */
  lemma DayOfMonthOf(m: nat, n: int)
    requires m < 12 && 1 <= n && MonthStarts[m] + n - 1 < MonthEnd(m)
    ensures InYear(MonthStarts[m] + n - 1) && DayOfMonth(MonthStarts[m] + n - 1) == n
  {
    DayFromOf(0, m, n);
  }

  // ---------------------------------------------------------------------------
  // Constants of the generator

  /** START_DATE, 2025-01-01. */
  const StartDate := 0
  /** END_DATE, 2025-11-30. */
  const EndDate := 333
  /** The first pay day, Friday 2025-01-03. */
  const FirstPayDate := 2
  /** Two weeks, in days. */
  const PayPeriod := 14

  lemma EndDateIsNovember30()
    ensures InYear(EndDate) && EndDate == MonthStarts[10] + 30 - 1 && DayOfMonth(EndDate) == 30
  {
    DayOfMonthOf(10, 30);
  }

  // ---------------------------------------------------------------------------
  // get_biweekly_pay_dates

  /** `d` is 2025-01-03 plus a whole number of fortnights. */
  predicate IsPayDay(d: int) {
    d >= FirstPayDate && (d - FirstPayDate) % PayPeriod == 0
  }

  /** The pay dates from 2025-01-03 on, every 14 days, kept when they fall in
      `[startDate, endDate]`. */
  method BiweeklyPayDates(startDate: int, endDate: int) returns (payDates: seq<int>)
    ensures forall d :: d in payDates <==> startDate <= d <= endDate && IsPayDay(d)
    ensures forall i :: 0 <= i < |payDates| - 1 ==> payDates[i + 1] == payDates[i] + PayPeriod
    ensures endDate < FirstPayDate ==> payDates == []
  {
    payDates := [];
    var current := FirstPayDate;
    while current <= endDate
      invariant IsPayDay(current)
      invariant forall d :: d in payDates <==> startDate <= d < current && d <= endDate && IsPayDay(d)
      invariant forall i :: 0 <= i < |payDates| - 1 ==> payDates[i + 1] == payDates[i] + PayPeriod
      invariant payDates != [] ==> payDates[|payDates| - 1] == current - PayPeriod >= startDate
      invariant endDate < FirstPayDate ==> payDates == []
      decreases endDate - current
    {
      if current >= startDate {
        payDates := payDates + [current];
      }
      NoPayDayWithinPeriod(current);
      current := current + PayPeriod;
    }
  }

  /** Consecutive pay days are a full period apart. */
  lemma NoPayDayWithinPeriod(d: int)
    requires IsPayDay(d)
    ensures forall e :: d < e < d + PayPeriod ==> !IsPayDay(e)
  {
    forall e | d < e < d + PayPeriod ensures !IsPayDay(e) {
      var q := (d - FirstPayDate) / PayPeriod;
      assert d - FirstPayDate == PayPeriod * q;
      assert (e - FirstPayDate) == PayPeriod * q + (e - d);
    }
  }

  /** The last pay day up to END_DATE is 2025-11-21, the 24th of the year. */
  lemma LastPayDay()
    ensures IsPayDay(FirstPayDate + 23 * PayPeriod) && FirstPayDate + 23 * PayPeriod <= EndDate
    ensures forall d :: FirstPayDate + 23 * PayPeriod < d <= EndDate ==> !IsPayDay(d)
    ensures DayOfMonth(FirstPayDate + 23 * PayPeriod) == 21
    ensures MonthStarts[10] <= FirstPayDate + 23 * PayPeriod < MonthEnd(10)
  {
    var last := FirstPayDate + 23 * PayPeriod;
    NoPayDayWithinPeriod(last);
    DayOfMonthOf(10, 21);
  }

  // ---------------------------------------------------------------------------
  // Fidelity individual account

  /** A row of the individual account file: the transfer received from BoA
      (+500.00) or the FXAIX purchase made with it (-490.00). */
  datatype InvestmentRow = EftReceived(date: int) | BuyFxaix(date: int)

  /** The rows the loop appends while visiting day `d`. */
  function InvestmentRowsOn(d: int, endDate: int): seq<InvestmentRow>
    requires InYear(d)
  {
    if DayOfMonth(d) == 16 then
      [EftReceived(d)] + (if d + 2 <= endDate then [BuyFxaix(d + 2)] else [])
    else
      []
  }

  /** The rows appended while visiting the days from `startDate` up to `n`, excluded. */
  function InvestmentRowsBefore(startDate: int, n: int, endDate: int): seq<InvestmentRow>
    requires 0 <= startDate && n <= YearLength
    decreases n
  {
    if n <= startDate then []
    else InvestmentRowsBefore(startDate, n - 1, endDate) + InvestmentRowsOn(n - 1, endDate)
  }

  /** The loop that builds `fid_inv_data`, run from START_DATE to END_DATE. */
  method FidelityIndividualRows(startDate: int, endDate: int) returns (rows: seq<InvestmentRow>)
    requires 0 <= startDate <= YearLength && endDate < YearLength
    ensures rows == InvestmentRowsBefore(startDate, endDate + 1, endDate)
  {
    rows := [];
    var current := startDate;
    while current <= endDate
      invariant startDate <= current && (current <= endDate + 1 || current == startDate)
      invariant rows == InvestmentRowsBefore(startDate, current, endDate)
    {
      ghost var before := rows;
      if DayOfMonth(current) == 16 {
        rows := rows + [EftReceived(current)];
        var buyDate := current + 2;
        if buyDate <= endDate {
          rows := rows + [BuyFxaix(buyDate)];
        }
      }
      InvestmentBlock(current, endDate);
      assert rows == before + InvestmentRowsOn(current, endDate);
      current := current + 1;
    }
  }

  /** The block of rows appended on day `d`: nothing unless `d` is a 16th;
      on a 16th the transfer, then its purchase when that falls by `endDate`. */
  ghost predicate InvestmentBlockAt(day: seq<InvestmentRow>, d: int, endDate: int)
    requires InYear(d)
  {
    if DayOfMonth(d) != 16 then day == []
    else if d + 2 <= endDate then day == [EftReceived(d), BuyFxaix(d + 2)]
    else day == [EftReceived(d)]
  }

  lemma InvestmentBlock(d: int, endDate: int)
    requires InYear(d)
    ensures InvestmentBlockAt(InvestmentRowsOn(d, endDate), d, endDate)
  {
  }

  /** Every transfer lies in `[lo, hi)` and on a 16th. */
  ghost predicate TransfersOnThe16th(rows: seq<InvestmentRow>, lo: int, hi: int)
    requires 0 <= lo <= hi <= YearLength
  {
    forall i :: 0 <= i < |rows| && rows[i].EftReceived? ==>
      lo <= rows[i].date < hi && DayOfMonth(rows[i].date) == 16
  }

  /** Every purchase directly follows its transfer, two days later, and is not
      after `endDate`. */
  ghost predicate PurchasesFollowTransfers(rows: seq<InvestmentRow>, endDate: int) {
    forall i :: 0 <= i < |rows| && rows[i].BuyFxaix? ==>
      0 < i && rows[i - 1] == EftReceived(rows[i].date - 2) && rows[i].date <= endDate
  }

  /** No 16th in `[lo, hi)` is missed, nor the purchase two days after it. */
  ghost predicate No16thMissed(rows: seq<InvestmentRow>, lo: int, hi: int, endDate: int)
    requires 0 <= lo <= hi <= YearLength
  {
    forall d :: lo <= d < hi && DayOfMonth(d) == 16 ==>
      EftReceived(d) in rows && (d + 2 <= endDate ==> BuyFxaix(d + 2) in rows)
  }

  /** What the individual schedule promises for the days `[lo, hi)`. */
  ghost predicate InvestmentScheduleHolds(rows: seq<InvestmentRow>, lo: int, hi: int, endDate: int)
    requires 0 <= lo <= hi <= YearLength
  {
    TransfersOnThe16th(rows, lo, hi) && PurchasesFollowTransfers(rows, endDate)
    && No16thMissed(rows, lo, hi, endDate)
  }

  lemma TransfersStep(prev: seq<InvestmentRow>, day: seq<InvestmentRow>, lo: int, d: int, endDate: int)
    requires 0 <= lo <= d < YearLength && TransfersOnThe16th(prev, lo, d)
    requires InvestmentBlockAt(day, d, endDate)
    ensures TransfersOnThe16th(prev + day, lo, d + 1)
  {
    var rows := prev + day;
    forall i | 0 <= i < |rows| && rows[i].EftReceived?
      ensures lo <= rows[i].date < d + 1 && DayOfMonth(rows[i].date) == 16
    {
      if i < |prev| {
        assert rows[i] == prev[i];
      }
    }
  }

  lemma PurchasesStep(prev: seq<InvestmentRow>, day: seq<InvestmentRow>, d: int, endDate: int)
    requires InYear(d) && PurchasesFollowTransfers(prev, endDate)
    requires InvestmentBlockAt(day, d, endDate)
    ensures PurchasesFollowTransfers(prev + day, endDate)
  {
    var rows := prev + day;
    forall i | 0 <= i < |rows| && rows[i].BuyFxaix?
      ensures 0 < i && rows[i - 1] == EftReceived(rows[i].date - 2) && rows[i].date <= endDate
    {
      if i < |prev| {
        assert rows[i] == prev[i];
        assert rows[i - 1] == prev[i - 1];
      } else {
        assert i == |prev| + 1;
      }
    }
  }

  lemma No16thMissedStep(prev: seq<InvestmentRow>, day: seq<InvestmentRow>, lo: int, d: int, endDate: int)
    requires 0 <= lo <= d < YearLength && No16thMissed(prev, lo, d, endDate)
    requires InvestmentBlockAt(day, d, endDate)
    ensures No16thMissed(prev + day, lo, d + 1, endDate)
  {
    var rows := prev + day;
    forall e | lo <= e < d + 1 && DayOfMonth(e) == 16
      ensures EftReceived(e) in rows && (e + 2 <= endDate ==> BuyFxaix(e + 2) in rows)
    {
      if e == d {
        assert rows[|prev|] == EftReceived(e);
        if e + 2 <= endDate {
          assert rows[|prev| + 1] == BuyFxaix(e + 2);
        }
      }
    }
  }

  lemma {:induction false} TransfersInRange(lo: int, n: int, endDate: int)
    requires 0 <= lo <= n <= YearLength
    ensures TransfersOnThe16th(InvestmentRowsBefore(lo, n, endDate), lo, n)
  {
    if n > lo {
      TransfersInRange(lo, n - 1, endDate);
      InvestmentBlock(n - 1, endDate);
      TransfersStep(InvestmentRowsBefore(lo, n - 1, endDate), InvestmentRowsOn(n - 1, endDate), lo, n - 1, endDate);
    }
  }

  lemma {:induction false} PurchasesPaired(lo: int, n: int, endDate: int)
    requires 0 <= lo <= n <= YearLength
    ensures PurchasesFollowTransfers(InvestmentRowsBefore(lo, n, endDate), endDate)
  {
    if n > lo {
      PurchasesPaired(lo, n - 1, endDate);
      InvestmentBlock(n - 1, endDate);
      PurchasesStep(InvestmentRowsBefore(lo, n - 1, endDate), InvestmentRowsOn(n - 1, endDate), n - 1, endDate);
    }
  }

  lemma {:induction false} Every16thTransferred(lo: int, n: int, endDate: int)
    requires 0 <= lo <= n <= YearLength
    ensures No16thMissed(InvestmentRowsBefore(lo, n, endDate), lo, n, endDate)
  {
    if n > lo {
      Every16thTransferred(lo, n - 1, endDate);
      InvestmentBlock(n - 1, endDate);
      No16thMissedStep(InvestmentRowsBefore(lo, n - 1, endDate), InvestmentRowsOn(n - 1, endDate), lo, n - 1, endDate);
    }
  }

  /** The rows of the days `[lo, n)` keep the individual schedule. */
  lemma InvestmentSchedule(lo: int, n: int, endDate: int)
    requires 0 <= lo <= n <= YearLength
    ensures InvestmentScheduleHolds(InvestmentRowsBefore(lo, n, endDate), lo, n, endDate)
  {
    TransfersInRange(lo, n, endDate);
    PurchasesPaired(lo, n, endDate);
    Every16thTransferred(lo, n, endDate);
  }

  // ---------------------------------------------------------------------------
  // Fidelity Roth IRA

  /** A row of the Roth IRA file: the contribution received from Baxter
      (+600.00) or a purchase (quantity, price and amount in cents). */
  datatype RothRow =
    | Contribution(date: int)
    | Purchase(date: int, symbol: Stock, quantity: nat, priceCents: nat, amountCents: int)

  /** The two stocks the Roth account buys. */
  datatype Stock = Nvda | Tsla

  /** Two NVDA shares at 140.00. */
  function NvdaBuy(d: int): RothRow {
    Purchase(d, Nvda, 2, 14000, -28000)
  }

  /** One TSLA share at 250.00. */
  function TslaBuy(d: int): RothRow {
    Purchase(d, Tsla, 1, 25000, -25000)
  }

  /** The rows the loop appends while visiting day `d`. */
  function RothRowsOn(d: int, endDate: int): seq<RothRow>
    requires InYear(d)
  {
    if DayOfMonth(d) == 6 then
      [Contribution(d)] + (if d + 1 <= endDate then [NvdaBuy(d + 1), TslaBuy(d + 1)] else [])
    else
      []
  }

  /** The rows appended while visiting the days from `startDate` up to `n`, excluded. */
  function RothRowsBefore(startDate: int, n: int, endDate: int): seq<RothRow>
    requires 0 <= startDate && n <= YearLength
    decreases n
  {
    if n <= startDate then []
    else RothRowsBefore(startDate, n - 1, endDate) + RothRowsOn(n - 1, endDate)
  }

  /** The loop that builds `fid_roth_data`, run from START_DATE to END_DATE. */
  method FidelityRothRows(startDate: int, endDate: int) returns (rows: seq<RothRow>)
    requires 0 <= startDate <= YearLength && endDate < YearLength
    ensures rows == RothRowsBefore(startDate, endDate + 1, endDate)
  {
    rows := [];
    var current := startDate;
    while current <= endDate
      invariant startDate <= current && (current <= endDate + 1 || current == startDate)
      invariant rows == RothRowsBefore(startDate, current, endDate)
    {
      ghost var before := rows;
      if DayOfMonth(current) == 6 {
        rows := rows + [Contribution(current)];
        var buyDate := current + 1;
        if buyDate <= endDate {
          rows := rows + [NvdaBuy(buyDate)];
          rows := rows + [TslaBuy(buyDate)];
        }
      }
      RothBlock(current, endDate);
      assert rows == before + RothRowsOn(current, endDate);
      current := current + 1;
    }
  }

  /** After contribution `i` come exactly the two purchases of the next day when
      that day is not after `endDate`, and no purchase otherwise. */
  ghost predicate FollowedByPurchases(rows: seq<RothRow>, i: int, endDate: int)
    requires 0 <= i < |rows| && rows[i].Contribution?
  {
    var next := rows[i].date + 1;
    if next <= endDate then
      && i + 2 < |rows|
      && rows[i + 1] == NvdaBuy(next) && rows[i + 2] == TslaBuy(next)
      && (i + 3 == |rows| || rows[i + 3].Contribution?)
    else
      i + 1 == |rows| || rows[i + 1].Contribution?
  }

  /** The block of rows appended on day `d`: nothing unless `d` is a 6th; on a
      6th the contribution, then the two purchases of the next day when that day
      is not after `endDate`. */
  ghost predicate RothBlockAt(day: seq<RothRow>, d: int, endDate: int)
    requires InYear(d)
  {
    if DayOfMonth(d) != 6 then day == []
    else if d + 1 <= endDate then day == [Contribution(d), NvdaBuy(d + 1), TslaBuy(d + 1)]
    else day == [Contribution(d)]
  }

  lemma RothBlock(d: int, endDate: int)
    requires InYear(d)
    ensures RothBlockAt(RothRowsOn(d, endDate), d, endDate)
  {
  }

  /** Every contribution lies in `[lo, hi)` and on a 6th. */
  ghost predicate ContributionsOnThe6th(rows: seq<RothRow>, lo: int, hi: int)
    requires 0 <= lo <= hi <= YearLength
  {
    forall i :: 0 <= i < |rows| && rows[i].Contribution? ==>
      lo <= rows[i].date < hi && DayOfMonth(rows[i].date) == 6
  }

  /** Every contribution is followed as `FollowedByPurchases` says. */
  ghost predicate PurchasesFollowContributions(rows: seq<RothRow>, endDate: int) {
    forall i :: 0 <= i < |rows| && rows[i].Contribution? ==> FollowedByPurchases(rows, i, endDate)
  }

  /** No 6th in `[lo, hi)` is missed. */
  ghost predicate No6thMissed(rows: seq<RothRow>, lo: int, hi: int)
    requires 0 <= lo <= hi <= YearLength
  {
    forall d :: lo <= d < hi && DayOfMonth(d) == 6 ==> Contribution(d) in rows
  }

  /** What the Roth schedule promises for the days `[lo, hi)`: the first row,
      if any, is a contribution, and the three predicates above hold, so every
      purchase belongs to the contribution before it. */
  ghost predicate RothScheduleHolds(rows: seq<RothRow>, lo: int, hi: int, endDate: int)
    requires 0 <= lo <= hi <= YearLength
  {
    && (rows != [] ==> rows[0].Contribution?)
    && ContributionsOnThe6th(rows, lo, hi)
    && PurchasesFollowContributions(rows, endDate)
    && No6thMissed(rows, lo, hi)
  }

  lemma FirstRowStep(prev: seq<RothRow>, day: seq<RothRow>, d: int, endDate: int)
    requires InYear(d) && (prev != [] ==> prev[0].Contribution?)
    requires RothBlockAt(day, d, endDate)
    ensures prev + day != [] ==> (prev + day)[0].Contribution?
  {
    if prev != [] {
      assert (prev + day)[0] == prev[0];
    }
  }

  lemma ContributionsStep(prev: seq<RothRow>, day: seq<RothRow>, lo: int, d: int, endDate: int)
    requires 0 <= lo <= d < YearLength && ContributionsOnThe6th(prev, lo, d)
    requires RothBlockAt(day, d, endDate)
    ensures ContributionsOnThe6th(prev + day, lo, d + 1)
  {
    var rows := prev + day;
    forall i | 0 <= i < |rows| && rows[i].Contribution?
      ensures lo <= rows[i].date < d + 1 && DayOfMonth(rows[i].date) == 6
    {
      if i < |prev| {
        assert rows[i] == prev[i];
      }
    }
  }

  lemma FollowStep(prev: seq<RothRow>, day: seq<RothRow>, d: int, endDate: int)
    requires InYear(d) && PurchasesFollowContributions(prev, endDate)
    requires RothBlockAt(day, d, endDate)
    ensures PurchasesFollowContributions(prev + day, endDate)
  {
    var rows := prev + day;
    forall i | 0 <= i < |rows| && rows[i].Contribution?
      ensures FollowedByPurchases(rows, i, endDate)
    {
      if i < |prev| {
        assert rows[i] == prev[i];
        FollowedAfterAppend(prev, day, i, endDate);
      } else {
        assert i == |prev|;
      }
    }
  }

  /** Appending a block that starts with a contribution keeps what held of an
      earlier contribution. */
  lemma FollowedAfterAppend(prev: seq<RothRow>, day: seq<RothRow>, i: int, endDate: int)
    requires 0 <= i < |prev| && prev[i].Contribution? && FollowedByPurchases(prev, i, endDate)
    requires day != [] ==> day[0].Contribution?
    ensures FollowedByPurchases(prev + day, i, endDate)
  {
    var rows := prev + day;
    var next := rows[i].date + 1;
    assert rows[i] == prev[i];
    if next <= endDate {
      assert rows[i + 1] == prev[i + 1] && rows[i + 2] == prev[i + 2];
      if i + 3 < |prev| {
        assert rows[i + 3] == prev[i + 3];
      }
    } else if i + 1 < |prev| {
      assert rows[i + 1] == prev[i + 1];
    }
  }

  lemma No6thMissedStep(prev: seq<RothRow>, day: seq<RothRow>, lo: int, d: int, endDate: int)
    requires 0 <= lo <= d < YearLength && No6thMissed(prev, lo, d)
    requires RothBlockAt(day, d, endDate)
    ensures No6thMissed(prev + day, lo, d + 1)
  {
    var rows := prev + day;
    forall e | lo <= e < d + 1 && DayOfMonth(e) == 6 ensures Contribution(e) in rows {
      if e == d {
        assert rows[|prev|] == Contribution(e);
      }
    }
  }

  lemma {:induction false} FirstRowIsContribution(lo: int, n: int, endDate: int)
    requires 0 <= lo <= n <= YearLength
    ensures var rows := RothRowsBefore(lo, n, endDate); rows != [] ==> rows[0].Contribution?
  {
    if n > lo {
      FirstRowIsContribution(lo, n - 1, endDate);
      RothBlock(n - 1, endDate);
      FirstRowStep(RothRowsBefore(lo, n - 1, endDate), RothRowsOn(n - 1, endDate), n - 1, endDate);
    }
  }

  lemma {:induction false} ContributionsInRange(lo: int, n: int, endDate: int)
    requires 0 <= lo <= n <= YearLength
    ensures ContributionsOnThe6th(RothRowsBefore(lo, n, endDate), lo, n)
  {
    if n > lo {
      ContributionsInRange(lo, n - 1, endDate);
      RothBlock(n - 1, endDate);
      ContributionsStep(RothRowsBefore(lo, n - 1, endDate), RothRowsOn(n - 1, endDate), lo, n - 1, endDate);
    }
  }

  lemma {:induction false} ContributionsFollowed(lo: int, n: int, endDate: int)
    requires 0 <= lo <= n <= YearLength
    ensures PurchasesFollowContributions(RothRowsBefore(lo, n, endDate), endDate)
  {
    if n > lo {
      ContributionsFollowed(lo, n - 1, endDate);
      RothBlock(n - 1, endDate);
      FollowStep(RothRowsBefore(lo, n - 1, endDate), RothRowsOn(n - 1, endDate), n - 1, endDate);
    }
  }

  lemma {:induction false} Every6thContributed(lo: int, n: int, endDate: int)
    requires 0 <= lo <= n <= YearLength
    ensures No6thMissed(RothRowsBefore(lo, n, endDate), lo, n)
  {
    if n > lo {
      Every6thContributed(lo, n - 1, endDate);
      RothBlock(n - 1, endDate);
      No6thMissedStep(RothRowsBefore(lo, n - 1, endDate), RothRowsOn(n - 1, endDate), lo, n - 1, endDate);
    }
  }

  /** The rows of the days `[lo, n)` keep the Roth schedule. */
  lemma RothSchedule(lo: int, n: int, endDate: int)
    requires 0 <= lo <= n <= YearLength
    ensures RothScheduleHolds(RothRowsBefore(lo, n, endDate), lo, n, endDate)
  {
    FirstRowIsContribution(lo, n, endDate);
    ContributionsInRange(lo, n, endDate);
    ContributionsFollowed(lo, n, endDate);
    Every6thContributed(lo, n, endDate);
  }
}
