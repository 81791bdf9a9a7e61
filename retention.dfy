/**
 * The retention computation of `command_ccr`: cohort frames over half-open
 * instant windows and the customer retention rate, kept as a fraction.
 *
 * The cohort at period start (CS) is the set of clients ACTIVATED during the
 * lookback window, the window of the same length that ends where the period
 * starts; it is not the set of all clients known before the period.
 */
module Retention {
  import opened Outcomes
  import opened Calendar
  import opened Frames
  import opened Api

  /** A fraction `num / den`. */
  datatype Ratio = Ratio(num: nat, den: nat)

  /** What `command_ccr` reports for one period. */
  datatype Stats = Stats(
    atStart: nat,        // |CS|
    left: nat,           // |cl_left|
    newClients: nat,     // |CN|
    transactions: nat,   // transactions closed in the period
    crr: Option<Ratio>)  // None: no client at period start, the period is skipped

  /** `start - (end - start)`: the lookback window is as long as the period and ends at its start. */
  function LookbackStart(start: int, end: int): (r: int)
    requires start < end
    ensures r < start && start - r == end - start
  {
    start - (end - start)
  }

  /** The period passes `command_ccr`'s check and its lookback start is a representable date. */
  predicate ValidPeriod(start: int, end: int) {
    start < end && 1 <= LookbackStart(start, end)
  }

  /** Clients activated in `[lo, hi)`. */
  function ActivatedIn(lo: int, hi: int): Row<ClientInfo> -> bool {
    (r: Row<ClientInfo>) => lo <= r.values.activatedAt < hi
  }

  /** Transactions closed in `[lo, hi)`. */
  function ClosedIn(lo: int, hi: int): Row<Transaction> -> bool {
    (r: Row<Transaction>) => lo <= r.values.closedAt < hi
  }

  /** Rows whose index is not among `ids` (`~index.isin(ids)`). */
  function NotIn(ids: set<int>): Row<ClientInfo> -> bool {
    (r: Row<ClientInfo>) => r.index !in ids
  }

  /** Rows whose index is among `ids` (`index.isin(ids)`). */
  function IsIn(ids: set<int>): Row<ClientInfo> -> bool {
    (r: Row<ClientInfo>) => r.index in ids
  }

  /** `tx["client_id"].unique()`, as a set. */
  function Buyers(txs: Frame<Transaction>): (b: set<int>)
    ensures forall i :: 0 <= i < |txs| ==> txs[i].values.clientId in b
    ensures forall c :: c in b ==> exists i :: 0 <= i < |txs| && txs[i].values.clientId == c
  {
    set i | 0 <= i < |txs| :: txs[i].values.clientId
  }

  /** The frames `command_ccr` builds for one period. */
  datatype Cohorts = Cohorts(
    cs: Frame<ClientInfo>,            // activated in the lookback window
    inPeriod: Frame<Transaction>,     // closed in the period
    buyers: set<int>,                 // clients with a transaction in the period
    left: Frame<ClientInfo>,          // CS members without a transaction in the period
    cn: Frame<ClientInfo>)            // activated in the period

  function CohortsOf(clients: Frame<ClientInfo>, txs: Frame<Transaction>, start: Day, end: Day): Cohorts
    requires ValidPeriod(start, end)
  {
    var prev := ToDtime(OnDate(LookbackStart(start, end)));
    var s := ToDtime(OnDate(start));
    var e := ToDtime(OnDate(end));
    var cs := Select(clients, ActivatedIn(prev, s));
    var inPeriod := Select(txs, ClosedIn(s, e));
    var buyers := Buyers(inPeriod);
    Cohorts(cs, inPeriod, buyers, Select(cs, NotIn(buyers)), Select(clients, ActivatedIn(s, e)))
  }

  /** `(|CS| - |cl_left|) / |CS|`, or nothing when the cohort is empty. */
  function CrrOf(c: Cohorts): (r: Option<Ratio>)
    requires |c.left| <= |c.cs|
    ensures r.None? <==> |c.cs| == 0
    ensures r.Some? ==> r.value.den == |c.cs| && r.value.num + |c.left| == |c.cs|
  {
    if |c.cs| == 0 then None else Some(Ratio(|c.cs| - |c.left|, |c.cs|))
  }

  /** The counts `command_ccr` prints and the rate it derives. */
  function StatsOf(clients: Frame<ClientInfo>, txs: Frame<Transaction>, start: Day, end: Day): (st: Stats)
    requires ValidPeriod(start, end)
    ensures st.left <= st.atStart
    ensures st.crr.None? <==> st.atStart == 0
    ensures st.crr.Some? ==> 0 <= st.crr.value.num <= st.crr.value.den == st.atStart
    ensures st.crr.Some? ==> st.crr.value.num == st.atStart - st.left
  {
    var c := CohortsOf(clients, txs, start, end);
    Stats(|c.cs|, |c.left|, |c.cn|, |c.inPeriod|, CrrOf(c))
  }

  // ---------------------------------------------------------------------------
  // Properties of the cohorts

  /**
   * The churned clients are cohort members without a purchase in the period;
   * the cohort and the new clients have no row in common, and when clients are
   * keyed uniquely, no client in common.
   */
  lemma CohortRelations(clients: Frame<ClientInfo>, txs: Frame<Transaction>, start: Day, end: Day)
    requires ValidPeriod(start, end)
    ensures var c := CohortsOf(clients, txs, start, end);
      (forall i :: 0 <= i < |c.left| ==> c.left[i] in c.cs && c.left[i].index !in c.buyers)
      && (forall i :: 0 <= i < |c.cs| && c.cs[i].index !in c.buyers ==> c.cs[i] in c.left)
      && (forall i, j :: 0 <= i < |c.cs| && 0 <= j < |c.cn| ==> c.cs[i] != c.cn[j])
      && (UniqueIndex(clients) ==> Indexes(c.cs) !! Indexes(c.cn))
  {
  }

  /** When the client file holds no id twice, `len(CS)`, `len(cl_left)` and `len(CN)` count distinct clients. */
  lemma CohortsCountClients(clients: Frame<ClientInfo>, txs: Frame<Transaction>, start: Day, end: Day)
    requires ValidPeriod(start, end)
    requires UniqueIndex(clients)
    ensures var c := CohortsOf(clients, txs, start, end);
      |c.cs| == |Indexes(c.cs)| && |c.cn| == |Indexes(c.cn)| && |c.left| == |Indexes(c.left)|
  {
    var c := CohortsOf(clients, txs, start, end);
    SelectUnique(clients, ActivatedIn(ToDtime(OnDate(LookbackStart(start, end))), ToDtime(OnDate(start))));
    SelectUnique(clients, ActivatedIn(ToDtime(OnDate(start)), ToDtime(OnDate(end))));
    SelectUnique(c.cs, NotIn(c.buyers));
    UniqueCount(c.cs);
    UniqueCount(c.cn);
    UniqueCount(c.left);
  }

  /** The numerator of the rate counts the cohort members who bought something in the period. */
  lemma RetainedCount(clients: Frame<ClientInfo>, txs: Frame<Transaction>, start: Day, end: Day)
    requires ValidPeriod(start, end)
    ensures var c := CohortsOf(clients, txs, start, end);
      |c.cs| - |c.left| == |Select(c.cs, IsIn(c.buyers))|
  {
    var c := CohortsOf(clients, txs, start, end);
    SelectPartition(c.cs, IsIn(c.buyers), NotIn(c.buyers));
  }

  /** A buyer is the client of some transaction closed inside the period. */
  lemma BuyersInPeriod(clients: Frame<ClientInfo>, txs: Frame<Transaction>, start: Day, end: Day, k: int)
    requires ValidPeriod(start, end)
    ensures k in CohortsOf(clients, txs, start, end).buyers <==>
      exists i :: 0 <= i < |txs| && txs[i].values.clientId == k
        && start * MicrosPerDay <= txs[i].values.closedAt < end * MicrosPerDay
  {
    var c := CohortsOf(clients, txs, start, end);
    var s := ToDtime(OnDate(start));
    var e := ToDtime(OnDate(end));
    if k in c.buyers {
      var i :| 0 <= i < |c.inPeriod| && c.inPeriod[i].values.clientId == k;
      var j :| 0 <= j < |txs| && txs[j] == c.inPeriod[i];
      assert txs[j].values.clientId == k;
    } else {
      forall i | 0 <= i < |txs| && txs[i].values.clientId == k
        ensures !(s <= txs[i].values.closedAt < e)
      {
      }
    }
  }

  /**
   * Three clients activated in the lookback window and one transaction of the
   * first of them in the period: two clients left and the rate is 1/3.
   */
  lemma OneOfThreeRetained(a: int, b: int, d: int)
    requires a != b && b != d && a != d
    ensures var clients := ThreeClients(a, b, d);
      var txs := [Row(1, Transaction(a, 1, 10 * MicrosPerDay + 1))];
      StatsOf(clients, txs, 10, 12) == Stats(3, 2, 0, 1, Some(Ratio(1, 3)))
  {
    var clients := ThreeClients(a, b, d);
    var txs := [Row(1, Transaction(a, 1, 10 * MicrosPerDay + 1))];
    var prev, st, en := 8 * MicrosPerDay, 10 * MicrosPerDay, 12 * MicrosPerDay;
    assert Select(clients, ActivatedIn(prev, st)) == clients by { SelectAll(clients, ActivatedIn(prev, st)); }
    assert Select(clients, ActivatedIn(st, en)) == [] by { SelectNone(clients, ActivatedIn(st, en)); }
    assert Select(txs, ClosedIn(st, en)) == txs by { SelectAll(txs, ClosedIn(st, en)); }
    assert Buyers(txs) == {a};
    assert Select(clients, NotIn({a})) == clients[1..] by { ChurnOfThree(a, b, d); }
  }

  /** Three clients activated at noon two days before day 10. */
  function ThreeClients(a: int, b: int, d: int): Frame<ClientInfo> {
    var noon := 8 * MicrosPerDay + MicrosPerDay / 2;
    [Row(a, ClientInfo(a, noon)), Row(b, ClientInfo(b, noon)), Row(d, ClientInfo(d, noon))]
  }

  lemma ChurnOfThree(a: int, b: int, d: int)
    requires a != b && b != d && a != d
    ensures Select(ThreeClients(a, b, d), NotIn({a})) == ThreeClients(a, b, d)[1..]
  {
    var clients := ThreeClients(a, b, d);
    var rest := clients[1..];
    assert Select(clients, NotIn({a})) == Select(rest, NotIn({a}));
    assert NotIn({a})(rest[0]) && NotIn({a})(rest[1]);
    SelectAll(rest, NotIn({a}));
  }
}
