/**
 * The balance shown by the two frontend pages. Both fetch the active transactions,
 * sort a copy by creation time and fold over it: an "income" row adds its amount to
 * the income total, every other row adds its amount to the expense total, and the
 * balance is the difference. The dashboard also keeps the running balance after each
 * row for its chart (the last 20 points) and lists the last 5 rows fetched, newest
 * first; the landing page lists the last 10.
 */
module Balance {
  import opened Wrappers
  import opened Domain
  import Sawit
  import Handlers

  const Income: string := "income"

  /** A row's part of the income total. */
  function IncomePart(tx: Transaction): int {
    if tx.txType == Income then tx.amount else 0
  }

  /** A row's part of the expense total: any type other than "income" is an expense. */
  function ExpensePart(tx: Transaction): int {
    if tx.txType == Income then 0 else tx.amount
  }

  /** The change a row makes to the running balance. */
  function Signed(tx: Transaction): int {
    if tx.txType == Income then tx.amount else -tx.amount
  }

  /** The sum of `part` over the rows, added up from the first to the last. */
  function Sum(txs: seq<Transaction>, part: Transaction -> int): int {
    if txs == [] then 0 else Sum(txs[..|txs| - 1], part) + part(txs[|txs| - 1])
  }

  lemma {:induction false} SumZero(txs: seq<Transaction>, part: Transaction -> int)
    requires forall t :: t in txs ==> part(t) == 0
    ensures Sum(txs, part) == 0
  {
    if txs != [] {
      assert forall t :: t in txs[..|txs| - 1] ==> t in txs;
      SumZero(txs[..|txs| - 1], part);
    }
  }

  /** Sums add up piece by piece. */
  lemma {:induction false} SumConcat(a: seq<Transaction>, b: seq<Transaction>, part: Transaction -> int)
    ensures Sum(a + b, part) == Sum(a, part) + Sum(b, part)
  {
    if b != [] {
      assert (a + b)[..|a + b| - 1] == a + b[..|b| - 1];
      SumConcat(a, b[..|b| - 1], part);
    } else {
      assert a + b == a;
    }
  }

  /** A sum does not depend on the order of the rows. */
  lemma {:induction false} SumPermutation(a: seq<Transaction>, b: seq<Transaction>, part: Transaction -> int)
    requires multiset(a) == multiset(b)
    ensures Sum(a, part) == Sum(b, part)
    decreases |a|
  {
    if a != [] {
      var x := a[|a| - 1];
      assert a == a[..|a| - 1] + [x];
      assert x in multiset(b);
      var k :| 0 <= k < |b| && b[k] == x;
      assert b == b[..k] + [x] + b[k + 1..];
      var rest := b[..k] + b[k + 1..];
      assert multiset(b) == multiset(b[..k]) + multiset{x} + multiset(b[k + 1..]);
      assert multiset(a) == multiset(a[..|a| - 1]) + multiset{x};
      assert multiset(rest) == multiset(b[..k]) + multiset(b[k + 1..]);
      assert multiset(a[..|a| - 1]) == multiset(a) - multiset{x};
      assert multiset(rest) == multiset(b) - multiset{x};
      SumPermutation(a[..|a| - 1], rest, part);
      SumConcat(b[..k] + [x], b[k + 1..], part);
      SumConcat(b[..k], [x], part);
      SumConcat(b[..k], b[k + 1..], part);
      assert Sum([x], part) == part(x) by {
        assert [x][..0] == [];
      }
    }
  }

  /** `income`: the amounts of the "income" rows. */
  function IncomeTotal(txs: seq<Transaction>): int {
    Sum(txs, IncomePart)
  }

  /** `expense`: the amounts of all other rows. */
  function ExpenseTotal(txs: seq<Transaction>): int {
    Sum(txs, ExpensePart)
  }

  /** A ledger with no "income" row has no income; one with only "income" rows has no expense. */
  lemma OneSidedTotals(txs: seq<Transaction>)
    ensures (forall t :: t in txs ==> t.txType != Income) ==> IncomeTotal(txs) == 0
    ensures (forall t :: t in txs ==> t.txType == Income) ==> ExpenseTotal(txs) == 0
  {
    if forall t :: t in txs ==> t.txType != Income {
      SumZero(txs, IncomePart);
    }
    if forall t :: t in txs ==> t.txType == Income {
      SumZero(txs, ExpensePart);
    }
  }

  /** `totalBalance`. */
  function Balance(txs: seq<Transaction>): (b: int)
    ensures b == Sum(txs, Signed)
  {
    SignedSum(txs);
    IncomeTotal(txs) - ExpenseTotal(txs)
  }

  /** Adding up the signed amounts gives the income total less the expense total. */
  lemma {:induction false} SignedSum(txs: seq<Transaction>)
    ensures Sum(txs, Signed) == Sum(txs, IncomePart) - Sum(txs, ExpensePart)
  {
    if txs != [] {
      SignedSum(txs[..|txs| - 1]);
    }
  }

  /** The three cards both pages show. */
  datatype Stats = Stats(totalBalance: int, income: int, expense: int)

  function Totals(txs: seq<Transaction>): (r: Stats)
    ensures r.totalBalance == r.income - r.expense
    ensures r.totalBalance == Sum(txs, Signed)
  {
    Stats(Balance(txs), IncomeTotal(txs), ExpenseTotal(txs))
  }

  /** Adding one row moves the balance by that row's signed amount. */
  lemma BalanceStep(txs: seq<Transaction>, tx: Transaction)
    ensures Balance(txs + [tx]) == Balance(txs) + Signed(tx)
    ensures IncomeTotal(txs + [tx]) == IncomeTotal(txs) + IncomePart(tx)
    ensures ExpenseTotal(txs + [tx]) == ExpenseTotal(txs) + ExpensePart(tx)
  {
    assert (txs + [tx])[..|txs|] == txs;
  }

  /** The totals, and so the balance, do not depend on the order of the rows. */
  lemma TotalsOrderFree(a: seq<Transaction>, b: seq<Transaction>)
    requires multiset(a) == multiset(b)
    ensures Totals(a) == Totals(b)
  {
    SumPermutation(a, b, IncomePart);
    SumPermutation(a, b, ExpensePart);
  }

  // ---------------------------------------------------------------------------
  // Sorting by creation time

  /** Every row is no older than the one before it. */
  predicate SortedByTime(txs: seq<Transaction>) {
    forall i :: 0 < i < |txs| ==> txs[i - 1].createdAt <= txs[i].createdAt
  }

  lemma SortedTail(txs: seq<Transaction>)
    requires txs != [] && SortedByTime(txs)
    ensures SortedByTime(txs[1..])
  {
    var rest := txs[1..];
    forall i | 0 < i < |rest| ensures rest[i - 1].createdAt <= rest[i].createdAt {
      assert rest[i - 1] == txs[i] && rest[i] == txs[i + 1];
    }
  }

  lemma SortedCons(tx: Transaction, txs: seq<Transaction>)
    requires SortedByTime(txs) && (txs == [] || tx.createdAt <= txs[0].createdAt)
    ensures SortedByTime([tx] + txs)
  {
    var r := [tx] + txs;
    forall i | 0 < i < |r| ensures r[i - 1].createdAt <= r[i].createdAt {
      assert r[i] == txs[i - 1];
      if i > 1 {
        assert r[i - 1] == txs[i - 2];
      }
    }
  }

  /** Puts `tx` in front of the first row that is not older than it. */
  function InsertByTime(tx: Transaction, sorted: seq<Transaction>): (r: seq<Transaction>)
    requires SortedByTime(sorted)
    ensures SortedByTime(r)
    ensures multiset(r) == multiset(sorted) + multiset{tx}
    ensures |r| == |sorted| + 1
    ensures r[0] == tx || (sorted != [] && r[0] == sorted[0])
  {
    if sorted == [] || tx.createdAt <= sorted[0].createdAt then
      SortedCons(tx, sorted);
      [tx] + sorted
    else
      SortedTail(sorted);
      var rest := InsertByTime(tx, sorted[1..]);
      assert SortedByTime([sorted[0]] + rest) by {
        SortedCons(sorted[0], rest);
      }
      assert multiset([sorted[0]] + rest) == multiset(sorted) + multiset{tx} by {
        assert sorted == [sorted[0]] + sorted[1..];
      }
      [sorted[0]] + rest
  }

  /**
   * `[...txs].sort((a, b) => time(a) - time(b))`: a copy of the rows in order of
   * creation time, rows created at the same instant keeping their fetched order.
   */
  function SortByTime(txs: seq<Transaction>): (r: seq<Transaction>)
    ensures SortedByTime(r)
    ensures multiset(r) == multiset(txs)
    ensures |r| == |txs|
  {
    if txs == [] then []
    else
      assert txs == [txs[0]] + txs[1..];
      InsertByTime(txs[0], SortByTime(txs[1..]))
  }

  // ---------------------------------------------------------------------------
  // The running balance and the list slices

  /** One point of `runningBalance`: the row's date, the balance after it and its amount. */
  datatype Point = Point(date: Time, balance: int, amount: int)

  /** Point k holds the balance of the first k + 1 rows. */
  function Series(txs: seq<Transaction>): (points: seq<Point>)
    ensures |points| == |txs|
  {
    seq(|txs|, k requires 0 <= k < |txs| => Point(txs[k].createdAt, Balance(txs[..k + 1]), txs[k].amount))
  }

  /** `slice(-n)`: the last n elements, or all of them when there are fewer. */
  function LastN<T>(xs: seq<T>, n: nat): (r: seq<T>)
    ensures |r| == if |xs| < n then |xs| else n
    ensures xs == xs[..|xs| - |r|] + r
  {
    if |xs| <= n then xs else xs[|xs| - n..]
  }

  function Reverse<T>(xs: seq<T>): (r: seq<T>)
    ensures |r| == |xs|
    ensures forall k :: 0 <= k < |xs| ==> r[k] == xs[|xs| - 1 - k]
  {
    if xs == [] then [] else [xs[|xs| - 1]] + Reverse(xs[..|xs| - 1])
  }

  /** `slice(-n).reverse()`: the last n rows, the last one first. */
  function Recent<T>(xs: seq<T>, n: nat): (r: seq<T>)
    ensures |r| == if |xs| < n then |xs| else n
    ensures forall k :: 0 <= k < |r| ==> r[k] == xs[|xs| - 1 - k]
  {
    Reverse(LastN(xs, n))
  }

  /** Pushing a row pushes the point that carries the new balance. */
  lemma SeriesStep(txs: seq<Transaction>, tx: Transaction)
    ensures Series(txs + [tx]) == Series(txs) + [Point(tx.createdAt, Balance(txs + [tx]), tx.amount)]
  {
    var a, b := Series(txs + [tx]), Series(txs) + [Point(tx.createdAt, Balance(txs + [tx]), tx.amount)];
    forall k | 0 <= k < |txs|
      ensures a[k] == b[k]
    {
      assert (txs + [tx])[..k + 1] == txs[..k + 1];
    }
    assert (txs + [tx])[..|txs| + 1] == txs + [tx];
  }

  /** The chart's last point is the balance on the card, whatever order the rows came in. */
  lemma ChartEndsAtBalance(txs: seq<Transaction>)
    requires txs != []
    ensures var chart := LastN(Series(SortByTime(txs)), 20);
      chart != [] && chart[|chart| - 1].balance == Totals(txs).totalBalance
  {
    var sorted := SortByTime(txs);
    assert sorted[..|sorted|] == sorted;
    TotalsOrderFree(sorted, txs);
  }

  // ---------------------------------------------------------------------------
  // The pages

  /** A JSON array stays a list; anything else (null) becomes the empty list: `Array.isArray`. */
  function AsArray<T>(resp: JsonList<T>): (txs: seq<T>)
    ensures resp.NotArray? ==> txs == []
    ensures resp.Array? ==> txs == resp.items
  {
    match resp
    case NotArray => []
    case Array(items) => items
  }

  /** What the dashboard holds once its data is in. */
  datatype Dashboard = Dashboard(
    transactions: seq<Transaction>,
    stats: Stats,
    chart: seq<Point>,
    recent: seq<Transaction>)

  function DashboardOf(txs: seq<Transaction>): Dashboard {
    Dashboard(txs, Totals(txs), LastN(Series(SortByTime(txs)), 20), Recent(txs, 5))
  }

  /**
   * The dashboard as written: the response is stored as the transaction list and
   * goes straight into the spread `[...txs]`, which throws on anything that is not an
   * array; the render's `slice(-5)` of the stored value throws too, so nothing is shown.
   */
  function DashboardAsWritten(resp: JsonList<Transaction>): (d: Option<Dashboard>)
    ensures d.None? <==> resp.NotArray?
    ensures d.Some? ==> d.value.stats == Totals(resp.items) && d.value.transactions == resp.items
  {
    match resp
    case NotArray => None
    case Array(items) => Some(DashboardOf(items))
  }

  /** The dashboard with the landing page's guard: a non-array response is an empty ledger. */
  function DashboardFixed(resp: JsonList<Transaction>): (d: Dashboard)
    ensures resp.NotArray? ==> d.stats == Stats(0, 0, 0) && d.chart == [] && d.recent == []
    ensures resp.Array? ==> d.stats == Totals(resp.items) && d.transactions == resp.items
  {
    DashboardOf(AsArray(resp))
  }

  /** What the landing page holds once its data is in. */
  datatype Landing = Landing(transactions: seq<Transaction>, stats: Stats, recent: seq<Transaction>)

  function LandingOf(resp: JsonList<Transaction>): (l: Landing)
    ensures resp.NotArray? ==> l.stats == Stats(0, 0, 0) && l.transactions == [] && l.recent == []
    ensures resp.Array? ==> l.stats == Totals(resp.items) && l.transactions == resp.items
  {
    var txs := AsArray(resp);
    Landing(txs, Totals(txs), Recent(txs, 10))
  }

  /**
   * On a ledger with no active row the server answers null (a nil slice), and the
   * dashboard as written shows nothing; on a fresh database that is the first page
   * an administrator sees.
   */
  lemma EmptyLedgerBreaksDashboard(s: Sawit.State)
    requires forall t :: t in s.transactions ==> t.deletedAt.Some?
    ensures DashboardAsWritten(Handlers.GetTransactions(s)) == None
    ensures DashboardAsWritten(Handlers.GetTransactions(Sawit.Empty)) == None
  {
  }

  /** With the guard, the dashboard shows the active ledger on every state, empty or not. */
  lemma DashboardShowsLedger(s: Sawit.State)
    ensures var d := DashboardFixed(Handlers.GetTransactions(s));
      && d.transactions == Handlers.Active(s.transactions)
      && d.stats == Totals(Handlers.Active(s.transactions))
      && d.stats == LandingOf(Handlers.GetTransactions(s)).stats
  {
    var r := Handlers.GetTransactions(s);
    if r.NotArray? {
      assert forall t :: t in Handlers.Active(s.transactions) ==> false;
      assert Handlers.Active(s.transactions) == [];
    }
  }

  // ---------------------------------------------------------------------------
  // The folds as the pages run them

  /**
   * Dashboard's forEach over the sorted copy: income, expense and currentBalance
   * are updated row by row, and each row pushes a point; the chart keeps the last 20.
   */
  method FoldDashboard(txs: seq<Transaction>) returns (stats: Stats, chart: seq<Point>)
    ensures stats == Totals(txs)
    ensures chart == LastN(Series(SortByTime(txs)), 20)
  {
    var income, expense := 0, 0;
    var sorted := SortByTime(txs);
    var runningBalance: seq<Point> := [];
    var currentBalance := 0;
    for i := 0 to |sorted|
      invariant income == IncomeTotal(sorted[..i])
      invariant expense == ExpenseTotal(sorted[..i])
      invariant currentBalance == Balance(sorted[..i])
      invariant runningBalance == Series(sorted[..i])
    {
      var tx := sorted[i];
      BalanceStep(sorted[..i], tx);
      SeriesStep(sorted[..i], tx);
      assert sorted[..i + 1] == sorted[..i] + [tx];
      if tx.txType == Income {
        income := income + tx.amount;
        currentBalance := currentBalance + tx.amount;
      } else {
        expense := expense + tx.amount;
        currentBalance := currentBalance - tx.amount;
      }
      runningBalance := runningBalance + [Point(tx.createdAt, currentBalance, tx.amount)];
    }
    assert sorted[..|sorted|] == sorted;
    TotalsOrderFree(sorted, txs);
    stats := Stats(income - expense, income, expense);
    chart := LastN(runningBalance, 20);
  }

  /** Landing's forEach over the sorted copy: income and expense only. */
  method FoldLanding(txs: seq<Transaction>) returns (stats: Stats)
    ensures stats == Totals(txs)
  {
    var income, expense := 0, 0;
    var sorted := SortByTime(txs);
    for i := 0 to |sorted|
      invariant income == IncomeTotal(sorted[..i])
      invariant expense == ExpenseTotal(sorted[..i])
    {
      var tx := sorted[i];
      BalanceStep(sorted[..i], tx);
      assert sorted[..i + 1] == sorted[..i] + [tx];
      if tx.txType == Income {
        income := income + tx.amount;
      } else {
        expense := expense + tx.amount;
      }
    }
    assert sorted[..|sorted|] == sorted;
    TotalsOrderFree(sorted, txs);
    stats := Stats(income - expense, income, expense);
  }

  /** The dashboard's data handler as written: nothing is shown when the spread throws. */
  method LoadDashboardAsWritten(resp: JsonList<Transaction>) returns (d: Option<Dashboard>)
    ensures d == DashboardAsWritten(resp)
  {
    if resp.NotArray? {
      return None;
    }
    var txs := resp.items;
    var stats, chart := FoldDashboard(txs);
    d := Some(Dashboard(txs, stats, chart, Recent(txs, 5)));
  }

  /** The dashboard's data handler with the `Array.isArray` guard. */
  method LoadDashboard(resp: JsonList<Transaction>) returns (d: Dashboard)
    ensures d == DashboardFixed(resp)
  {
    var txs := AsArray(resp);
    var stats, chart := FoldDashboard(txs);
    d := Dashboard(txs, stats, chart, Recent(txs, 5));
  }

  /** The landing page's data handler. */
  method LoadLanding(resp: JsonList<Transaction>) returns (l: Landing)
    ensures l == LandingOf(resp)
  {
    var txs := AsArray(resp);
    var stats := FoldLanding(txs);
    l := Landing(txs, stats, Recent(txs, 10));
  }
}
