/**
 * The report commands: `command_ccr` for one period (refresh the two feather
 * files or reload them, then compute the statistics) and the two loops that
 * cut a date range into consecutive periods, monthly or every `step` days.
 */
module Commands {
  import opened Outcomes
  import opened Calendar
  import opened Frames
  import opened Api
  import opened FrameStore
  import opened Retention

  /** The page size `command_ccr` asks for when it downloads transactions. */
  const TransactionsPerPage := 500

  /** The key column of both stores, `"id"`. */
  function TransactionKey(t: Transaction): int { t.id }

  function ClientKey(c: ClientInfo): int { c.id }

  /**
   * `command_ccr`. `remoteTxs` answers the transaction page requests in turn
   * and `remoteClients` is the answer of `get_clients`; both are consulted only
   * when `unloadData` is set. `requests` are the page requests made.
   */
  method CommandCcr(apiKey: Option<string>, unloadData: bool,
                    remoteTxs: seq<Response>, remoteClients: Result<seq<ClientInfo>>,
                    txFile: FeatherFile<Transaction>, clFile: FeatherFile<ClientInfo>,
                    start: Day, end: Day)
    returns (r: Result<Stats>, requests: seq<Request>)
    requires txFile as object != clFile as object
    requires txFile.Valid() && clFile.Valid()
    requires unloadData ==> Terminates(remoteTxs)
    modifies txFile, clFile
    ensures txFile.Valid() && clFile.Valid()
    // the period is checked before anything is fetched or stored
    ensures !(start < end) ==> r == Err(InvalidPeriod)
    ensures start < end && !ValidPeriod(start, end) ==> r == Err(DateOverflow)
    ensures ValidPeriod(start, end) && unloadData && apiKey.None? ==> r == Err(MissingApiKey)
    ensures !ValidPeriod(start, end) || (unloadData && apiKey.None?) ==>
      requests == [] && txFile.contents == old(txFile.contents) && clFile.contents == old(clFile.contents)
    // without downloading, both files are reloaded and written back as they were
    ensures !unloadData ==> requests == [] && txFile.contents == old(txFile.contents) && clFile.contents == old(clFile.contents)
    ensures !unloadData && ValidPeriod(start, end) ==>
      (r.Ok? <==> old(txFile.contents).Some? && old(clFile.contents).Some?)
    ensures !unloadData && ValidPeriod(start, end) && r.Err? ==>
      r.error == EmptyFrame && (old(txFile.contents).None? || old(clFile.contents).None?)
    // downloading asks for the lookback window and the period, 500 transactions a page from page 1
    ensures ValidPeriod(start, end) && unloadData && apiKey.Some? ==>
      |requests| == FirstStop(remoteTxs) + 1
      && forall i :: 0 <= i < |requests| ==>
        requests[i] == RequestAt(At(ToDtime(OnDate(LookbackStart(start, end)))), OnDate(end),
                                 1, TransactionsPerPage, remoteTxs, i)
    // a failing page request is returned before anything is stored
    ensures ValidPeriod(start, end) && unloadData && apiKey.Some? && FetchAll(remoteTxs).Err? ==>
      r == Err(FetchAll(remoteTxs).error)
      && txFile.contents == old(txFile.contents) && clFile.contents == old(clFile.contents)
    // otherwise the transactions are merged into their file first
    ensures ValidPeriod(start, end) && unloadData && apiKey.Some? && FetchAll(remoteTxs).Ok? ==>
      var mt := Merged(FromRecords(FetchAll(remoteTxs).value, TransactionKey), old(txFile.contents));
      (mt.Err? ==> r == Err(mt.error) && txFile.contents == old(txFile.contents) && clFile.contents == old(clFile.contents))
      && (mt.Ok? ==> txFile.contents == Some(mt.value))
    // then the clients: their failure is returned with the transaction file already written
    ensures (ValidPeriod(start, end) && unloadData && apiKey.Some? && FetchAll(remoteTxs).Ok?
             && Merged(FromRecords(FetchAll(remoteTxs).value, TransactionKey), old(txFile.contents)).Ok?) ==>
      (remoteClients.Err? ==> r == Err(remoteClients.error) && clFile.contents == old(clFile.contents))
      && (remoteClients.Ok? ==>
        var mc := Merged(FromRecords(remoteClients.value, ClientKey), old(clFile.contents));
        (mc.Err? ==> r == Err(mc.error) && clFile.contents == old(clFile.contents))
        && (mc.Ok? ==> clFile.contents == Some(mc.value)))
    // so a download succeeds exactly when every fetch and both merges do
    ensures ValidPeriod(start, end) && unloadData && apiKey.Some? ==>
      (r.Ok? <==>
        (FetchAll(remoteTxs).Ok? && remoteClients.Ok?
         && Merged(FromRecords(FetchAll(remoteTxs).value, TransactionKey), old(txFile.contents)).Ok?
         && Merged(FromRecords(remoteClients.value, ClientKey), old(clFile.contents)).Ok?))
    ensures unloadData && r.Ok? ==>
      FetchAll(remoteTxs).Ok? && remoteClients.Ok? && txFile.contents.Some? && clFile.contents.Some?
      && Merged(FromRecords(FetchAll(remoteTxs).value, TransactionKey), old(txFile.contents)) == Ok(txFile.contents.value)
      && Merged(FromRecords(remoteClients.value, ClientKey), old(clFile.contents)) == Ok(clFile.contents.value)
    // a success reports the statistics of the frames now stored
    ensures r.Ok? ==>
      ValidPeriod(start, end) && txFile.contents.Some? && clFile.contents.Some?
      && r.value == StatsOf(clFile.contents.value, txFile.contents.value, start, end)
  {
    requests := [];
    if !(start < end) {
      return Err(InvalidPeriod), requests;
    }
    var lookback := LookbackStart(start, end);
    if lookback < 1 {
      return Err(DateOverflow), requests;
    }
    var previousStart := ToDtime(OnDate(lookback));

    var txFrame: Frame<Transaction>;
    var clFrame: Frame<ClientInfo>;
    if unloadData {
      if apiKey.None? {
        return Err(MissingApiKey), requests;
      }
      var items, reqs, failure := IterTransactions(At(previousStart), OnDate(end), 1, TransactionsPerPage, remoteTxs);
      requests := reqs;
      if failure.Some? {
        return Err(failure.value), requests;
      }
      var storedTx := txFile.Store(items, TransactionKey);
      if storedTx.Err? {
        return Err(storedTx.error), requests;
      }
      if remoteClients.Err? {
        return Err(remoteClients.error), requests;
      }
      var storedCl := clFile.Store(remoteClients.value, ClientKey);
      if storedCl.Err? {
        return Err(storedCl.error), requests;
      }
      txFrame, clFrame := storedTx.value, storedCl.value;
    } else {
      EmptyBatch(txFile.contents);
      EmptyBatch(clFile.contents);
      var storedTx := txFile.Store([], TransactionKey);
      if storedTx.Err? {
        return Err(storedTx.error), requests;
      }
      var storedCl := clFile.Store([], ClientKey);
      if storedCl.Err? {
        return Err(storedCl.error), requests;
      }
      txFrame, clFrame := storedTx.value, storedCl.value;
    }
    r := Ok(StatsOf(clFrame, txFrame, start, end));
  }

  // ---------------------------------------------------------------------------
  // Period planning

  /** A half-open period of days `[start, end)`. */
  datatype Period = Period(start: Day, end: Day)

  /** Where the next period begins: the end of the last one, or `first` when there is none. */
  function Cursor(periods: seq<Period>, first: Day): Day {
    if periods == [] then first else periods[|periods| - 1].end
  }

  /** Each period begins where the previous one ends. */
  predicate Contiguous(periods: seq<Period>) {
    forall i :: 0 <= i < |periods| - 1 ==> periods[i].end == periods[i + 1].start
  }

  /** `p` is the month `m`: from its first day to the first day of the next month. */
  predicate IsMonthOf(p: Period, m: Civil) {
    ValidCivil(m) && m.day == 1
    && p.start == ToOrdinal(m) && p.end == ToOrdinal(NextMonth(m))
  }

  /** Read back as dates, a month period runs from the first of its month to the first of the next. */
  lemma MonthPeriod(p: Period, m: Civil)
    requires IsMonthOf(p, m)
    ensures FromOrdinal(p.start) == m && FromOrdinal(p.end) == NextMonth(m)
    ensures p.end - p.start == DaysInMonth(m.year, m.month)
  {
    MonthAfter(m);
    ToOrdinalFromOrdinal(m);
    ToOrdinalFromOrdinal(NextMonth(m));
  }

  /**
   * `command_ccr_step_monthly`'s loop: the months from the one holding `start`
   * while they begin before `end`; the last may reach past `end`. `months` are
   * the months it announces, one per period. It fails when the month after
   * December 9999 would be needed.
   */
  method StepMonthly(start: Day, end: Day) returns (periods: seq<Period>, months: seq<Civil>, failure: Option<Error>)
    ensures |months| == |periods|
    ensures periods != [] ==> months[0] == MonthOf(start) && periods[0].start <= start < periods[0].end
    ensures Contiguous(periods)
    ensures forall i :: 0 <= i < |periods| ==> IsMonthOf(periods[i], months[i]) && periods[i].start < end
    ensures forall i :: 0 <= i < |months| - 1 ==> 1 <= months[i].month <= 12 && months[i + 1] == NextMonth(months[i])
    ensures failure.None? ==> end <= Cursor(periods, ToOrdinal(MonthOf(start)))
    ensures failure.Some? ==>
      failure.value == DateOverflow && Cursor(periods, ToOrdinal(MonthOf(start))) < end
      && Cursor(periods, ToOrdinal(MonthOf(start))) == ToOrdinal(Civil(MaxYear, 12, 1))
  {
    var cur := MonthOf(start);
    MonthAfter(cur);
    ghost var first: Day := ToOrdinal(cur);
    ghost var m0 := cur;
    periods, months, failure := [], [], None;
    while ToOrdinal(cur) < end
      invariant ValidCivil(cur) && cur.day == 1
      invariant 1 <= ToOrdinal(cur) <= MaxOrdinal
      invariant ToOrdinal(cur) == Cursor(periods, first)
      invariant |months| == |periods|
      invariant months == [] ==> cur == m0
      invariant months != [] ==> months[0] == m0
      invariant months != [] ==> 1 <= months[|months| - 1].month <= 12 && cur == NextMonth(months[|months| - 1])
      invariant Contiguous(periods)
      invariant forall i :: 0 <= i < |periods| ==> IsMonthOf(periods[i], months[i])
      invariant forall i :: 0 <= i < |periods| ==> periods[i].start < end
      decreases end - ToOrdinal(cur)
    {
      MonthAfter(cur);
      var next := ToOrdinal(cur) + DaysInMonth(cur.year, cur.month);
      if next > MaxOrdinal {
        failure := Some(DateOverflow);
        MonthsChain(periods, months);
        return;
      }
      var p := Period(ToOrdinal(cur), next);
      assert IsMonthOf(p, cur);
      periods := periods + [p];
      months := months + [cur];
      cur := NextMonth(cur);
    }
    MonthsChain(periods, months);
  }

  /** Months of contiguous periods follow one another. */
  lemma MonthsChain(periods: seq<Period>, months: seq<Civil>)
    requires |months| == |periods| && Contiguous(periods)
    requires forall i :: 0 <= i < |periods| ==> IsMonthOf(periods[i], months[i])
    ensures forall i :: 0 <= i < |months| - 1 ==> 1 <= months[i].month <= 12 && months[i + 1] == NextMonth(months[i])
  {
    forall i | 0 <= i < |months| - 1
      ensures 1 <= months[i].month <= 12 && months[i + 1] == NextMonth(months[i])
    {
      var m := months[i];
      MonthAfter(m);
      ToOrdinalFromOrdinal(NextMonth(m));
      ToOrdinalFromOrdinal(months[i + 1]);
    }
  }

  /** The number of `step`-day periods needed to cover `span` days: the ceiling of `span / step`. */
  function Periods(span: int, step: int): int
    requires step > 0
  {
    (span + step - 1) / step
  }

  /** `k` periods of `step` days cover `span` days with the last one needed exactly when `k == Periods(span, step)`. */
  lemma PeriodsCount(span: int, step: int, k: int)
    requires step > 0 && 0 < span
    ensures (k - 1) * step < span <= k * step <==> k == Periods(span, step)
  {
    var q := Periods(span, step);
    var m := (span + step - 1) % step;
    assert span + step - 1 == q * step + m && 0 <= m < step;
    assert (q - 1) * step < span <= q * step;
    if k < q {
      MulMonotone(k, q - 1, step);
    } else if k > q {
      MulMonotone(q, k - 1, step);
    }
  }

  lemma MulMonotone(a: int, b: int, step: int)
    requires a <= b && step > 0
    ensures a * step <= b * step
  {
  }

  /**
   * `command_ccr_step_daily`'s loop: periods of `step` days from `start` while
   * they begin before `end`; the last may reach past `end`. A period whose end
   * is not a representable date fails with DateOverflow; a step that is not
   * positive makes the first period empty or reversed, which `command_ccr`
   * rejects, and that ends the loop.
   */
  method StepDaily(start: Day, end: Day, step: int) returns (periods: seq<Period>, failure: Option<Error>)
    ensures periods != [] ==> periods[0].start == start && step > 0
    ensures Contiguous(periods)
    ensures forall i :: 0 <= i < |periods| ==>
      periods[i].start == start + i * step && periods[i].end == start + (i + 1) * step && periods[i].start < end
    ensures failure.None? ==> end <= Cursor(periods, start)
    ensures failure.None? && start < end ==> |periods| == Periods(end - start, step)
    ensures failure.Some? ==> Cursor(periods, start) < end
    ensures failure.Some? ==> failure.value == DateOverflow || failure.value == InvalidPeriod
    ensures failure == Some(DateOverflow) <==>
      Cursor(periods, start) < end && !(1 <= Cursor(periods, start) + step <= MaxOrdinal)
    ensures failure == Some(InvalidPeriod) <==>
      start < end && step <= 0 && 1 <= start + step
  {
    var cur := start;
    periods, failure := [], None;
    while cur < end
      invariant cur == Cursor(periods, start)
      invariant periods != [] ==> periods[0].start == start && step > 0
      invariant Contiguous(periods)
      invariant cur == start + |periods| * step
      invariant forall i :: 0 <= i < |periods| ==>
        periods[i].start == start + i * step && periods[i].end == start + (i + 1) * step && periods[i].start < end
      decreases end - cur
    {
      var next := cur + step;
      if !(1 <= next <= MaxOrdinal) {
        failure := Some(DateOverflow);
        return;
      }
      if !(cur < next) {
        failure := Some(InvalidPeriod);
        return;
      }
      assert next == start + (|periods| + 1) * step;
      periods := periods + [Period(cur, next)];
      cur := next;
    }
    if start < end {
      PeriodsCount(end - start, step, |periods|);
    }
  }
}
