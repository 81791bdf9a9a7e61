# poster_robber in Dafny

poster_robber is a command-line tool that downloads transactions and clients
from a point-of-sale HTTP service and keeps each kind in a local feather file.
It then reports the customer retention rate (CRR) of one period, of every month
of a range, or of consecutive periods of a fixed number of days.

This project models its core and proves properties of the model:

- `outcomes.dfy` (`Outcomes`): `Option`, `Result` and the errors the program
  raises. These are the service's `ApiError`, an unexpected or malformed
  response, a transport failure, an empty frame, a rejected period, a date out
  of range and a missing API key.
- `calendar.dfy` (`Calendar`): Python's proleptic Gregorian calendar.
  - Dates are ordinals (0001-01-01 is 1, 9999-12-31 is 3652059).
  - `ToOrdinal` follows CPython's formula and `FromOrdinal` walks forward from
    year 1. The two are proved to be inverses, and ordinal order is proved to
    be date order.
  - It has the month arithmetic of the monthly report and `to_dtime`.
    Instants are microsecond counts, and a date's midnight is
    `ordinal * 86_400_000_000`.
- `frames.dfy` (`Frames`): the part of a pandas DataFrame the program uses.
  - A frame is a sequence of rows, each an index value and its record.
    Duplicate index values are possible.
  - It models `from_records`, mask selection and
    `~index.duplicated(keep="last")`, with their map and key-set views.
- `frame_store.dfy` (`FrameStore`): `df_store`, the merge of a fetched batch
  into the stored frame.
  - The function `Merged` is the merge as specification.
  - The class `FeatherFile` holds the file's frame as a field; its `Store`
    method updates the file in place.
- `api.dfy` (`Api`): the HTTP client.
  - The records, the classification of the response envelope
    (`json_response`), `url_for`, `params`, `API(token)` and `get_client`'s
    one-result check.
  - `iter_transactions` is a loop method. A sequence of answers stands for
    the remote service. The method returns the items it yields and the
    requests it makes.
- `retention.dfy` (`Retention`): the statistics `command_ccr` computes for a
  period.
  - The cohort at period start, the transactions in the period, the buyers,
    the churned clients and the new clients.
  - The CRR is kept as an exact fraction.
- `commands.dfy` (`Commands`):
  - `command_ccr` is a method over the two feather files, with the remote
    answers as parameters.
  - `command_ccr_step_monthly` and `command_ccr_step_daily` are loop methods
    that return the periods the report runs over.

Two behaviours of the program are worth stating outright:

- **Merge collisions.** On a key present in both the batch and the file,
  `df_store` keeps the stored row. The batch comes first in `pd.concat` and
  `keep="last"` keeps the file's row (poster_robber/__main__.py:23-24), so a
  refreshed record never replaces a stored one (`FrameStore.StoredWins`).
- **Pagination stop.** `per_page == count` (poster_robber/api.py:107) ends the
  loop on any page whose count differs from its echoed size, a longer one
  included (`Api.FirstStop`, `Api.ShortPageStops`).

## Model

| member | source | states |
|---|---|---|
| Calendar.DaysInMonth | poster_robber/__main__.py:146 | `monthrange(y, m)[1]` is between 28 and 31; February has 29 days exactly in leap years |
| Calendar.ToOrdinal | poster_robber/__main__.py:142-147 | `date.toordinal()` by CPython's formula: days before the year, plus days before the month, plus the day; its properties are carried by `Calendar.FromOrdinal`, `Calendar.ToOrdinalFromOrdinal` and `Calendar.OrdinalOrder` |
| Calendar.FromOrdinal | poster_robber/__main__.py:142 | every representable ordinal names a valid date whose ordinal is that number |
| Calendar.ToOrdinalFromOrdinal | poster_robber/__main__.py:142-147 | every valid date 0001-01-01..9999-12-31 has an ordinal in 1..3652059, and converting it back gives the same date |
| Calendar.OrdinalOrder | poster_robber/__main__.py:144 | the field-by-field date comparison the loops use holds exactly when the ordinals are in order (both directions) |
| Calendar.MonthOf | poster_robber/__main__.py:142 | `replace(day=1)` gives a valid first of month, and the date lies within that month |
| Calendar.NextMonth | poster_robber/__main__.py:153 | the first day of the following month, where the loop's next start lands; `Calendar.MonthAfter` and `Calendar.AddMonthLength` prove it is a month's length later and valid unless past December 9999 |
| Calendar.AddMonthLength | poster_robber/__main__.py:145-147 | adding the month's length to a first of month gives the first of the next month; the result is representable exactly when the month is not December 9999 |
| Calendar.MonthAfter | poster_robber/__main__.py:145-147 | the first of the next month is a month's length later and is a valid date exactly when it is not past 9999-12-31 |
| Calendar.ToDtime | poster_robber/__main__.py:56-60 | a datetime is returned unchanged; a date becomes an instant on that day and at midnight |
| Calendar.MidnightIsEarliest | poster_robber/__main__.py:60 | an instant falls on day d exactly when it lies in [midnight of d, midnight of d + one day) |
| Calendar.MidnightOrder | poster_robber/__main__.py:99-100 | midnights compare as their dates do, so date windows turn into instant windows |
| Frames.FromRecords | poster_robber/__main__.py:13-17 | one row per record, in order, indexed by the key field |
| Frames.Select | poster_robber/__main__.py:98-101 | mask selection keeps exactly the rows that satisfy the mask, and nothing else |
| Frames.SelectAppend | poster_robber/__main__.py:98-125 | selecting from a concatenation selects from each part and keeps the parts in order, so a selection keeps the rows in their order |
| Frames.SelectCounts | poster_robber/__main__.py:119-128 | a selection holds each row that satisfies the mask as many times as the frame does, and no other row, so the reported lengths count rows with their repetitions |
| Frames.KeepLast | poster_robber/__main__.py:24 | `~index.duplicated(keep="last")`: a row is dropped when its index occurs again later; the result is no longer than the frame and holds only its rows, and `Frames.KeepLastSpec` states the rest |
| Frames.KeepLastSpec | poster_robber/__main__.py:24 | after `~duplicated(keep="last")` no index repeats, the key set is unchanged, and the map view (later row overriding earlier) is unchanged |
| Frames.KeepLastOfUnique | poster_robber/__main__.py:24 | dropping duplicates from a frame without duplicates changes nothing |
| Frames.KeepLastAbsorbs | poster_robber/__main__.py:23-24 | rows prepended whose keys all occur later are all dropped |
| Frames.IndexesAppend | poster_robber/__main__.py:23 | the keys of a concatenation are the keys of both parts |
| Frames.AsMapAppend | poster_robber/__main__.py:23 | the map view of a concatenation is the first part's overridden by the second's |
| Frames.SelectPartition | poster_robber/__main__.py:115 | a mask and its negation split a frame: their sizes add up to its size |
| Frames.SelectAll | poster_robber/__main__.py:98-101 | a selection returns the whole frame exactly when every row satisfies the mask |
| Frames.SelectNone | poster_robber/__main__.py:122-125 | a selection is empty exactly when no row satisfies the mask |
| Frames.SelectUnique | poster_robber/__main__.py:98-101 | a selection from a frame without duplicate keys has none |
| FrameStore.Merged | poster_robber/__main__.py:15-29 | the merge fails, with the empty-frame error, exactly when there is no batch and no file |
| FrameStore.MergedFrame | poster_robber/__main__.py:19-26 | a successful merge is keep-last of the batch followed by the stored rows (none when there is no file) |
| FrameStore.MergedContents | poster_robber/__main__.py:22-26 | the merge holds no key twice, its keys are the union of the batch's and the file's, and its map view is the batch's overridden by the file's |
| FrameStore.StoredWins | poster_robber/__main__.py:23-24 | on a key both fetched and stored, the stored record is kept |
| FrameStore.EmptyBatch | poster_robber/__main__.py:25-29 | an empty batch returns the stored frame unchanged, or the empty-frame error when there is no file |
| FrameStore.MergeIdempotent | poster_robber/__main__.py:19-26 | storing the same batch twice gives the same frame as storing it once |
| FrameStore.AsWrittenAgreesOnceStored | poster_robber/__main__.py:19-26 | once a file exists, the merge as written and the corrected merge agree |
| FrameStore.DfStoreAsWritten | poster_robber/__main__.py:12-33 | `df_store` as written: it fails with the empty-frame error exactly when there is no batch and no file, and drops duplicates only when a file exists; `FrameStore.AsWrittenStoresDuplicates` and `FrameStore.AsWrittenAgreesOnceStored` relate it to the corrected merge |
| FrameStore.AsWrittenStoresDuplicates | poster_robber/__main__.py:15-17 | as written, a first write of a batch with a repeated id stores both rows |
| FrameStore.FeatherFile.Store | poster_robber/__main__.py:12-33 | the frame returned is the corrected merge of the records with the old file, and it is now the file's content; on the empty-frame error the file is untouched; the file never holds a key twice |
| Api.ParseApiError | poster_robber/api.py:35-38 | an error envelope becomes `ApiError(message, code)` exactly when it has a string `message` and an integer `error` |
| Api.JsonResponse | poster_robber/api.py:44-50 | a `response` field is returned; otherwise an `error` field raises the service's error; otherwise the response is unexpected |
| Api.ErrorEnvelopeRoundTrip | poster_robber/api.py:44-50 | classifying the error envelope built from a message and a code gives back that message and code |
| Api.PayloadWins | poster_robber/api.py:45-46 | a `response` field wins even when an `error` field is present |
| Api.Api.UrlFor | poster_robber/api.py:58-59 | the URL is the base URL followed by the method name, exactly |
| Api.Api.Params | poster_robber/api.py:79-81 | the parameters are the caller's plus `token` set to the handle's token; every other parameter is kept |
| Api.NewApi | poster_robber/api.py:54-56 | a new handle holds the token and the default base URL |
| Api.GetClient | poster_robber/api.py:124-126 | a client lookup succeeds exactly when the answer holds one client, and returns that client |
| Api.FirstStop | poster_robber/api.py:107 | the first answer that ends the loop: every earlier answer continues it |
| Api.IterTransactions | poster_robber/api.py:103-116 | one request per answer up to the first one that ends the loop. Request i asks for the page after the one echoed by answer i - 1, with its echoed size. The items are every page's data in order. A failing answer stops the loop with that error |
| Api.ShortPageStops | poster_robber/api.py:107-115 | when n - 1 full pages are followed by a page whose count differs from its size, the loop asks exactly n times |
| Api.ConsecutivePages | poster_robber/api.py:114-116 | when the server echoes the requested page number, the requests go through consecutive pages from the first one |
| Api.YieldedPages | poster_robber/api.py:112 | item j of page i is yielded at the position after all items of the earlier pages |
| Retention.LookbackStart | poster_robber/__main__.py:69 | the lookback window ends at the period start and is as long as the period |
| Retention.Buyers | poster_robber/__main__.py:111 | the buyers are exactly the clients of the given transactions |
| Retention.CohortsOf | poster_robber/__main__.py:98-125 | builds CS (activated in the lookback window), the transactions closed in the period, their buyers, cl_left (CS members who are not buyers) and CN (activated in the period); `Retention.CohortRelations`, `Retention.BuyersInPeriod` and `Retention.CohortsCountClients` carry its properties |
| Retention.CrrOf | poster_robber/__main__.py:130-134 | no rate when the cohort is empty; otherwise the rate is (cohort - churned) / cohort |
| Retention.StatsOf | poster_robber/__main__.py:98-134 | the churned count never exceeds the cohort; the CRR is a fraction between 0 and 1 with the cohort size as denominator and the retained count (cohort minus churned) as numerator, and it is absent exactly when the cohort is empty |
| Retention.CohortRelations | poster_robber/__main__.py:98-125 | churned clients are exactly those cohort members without a purchase in the period; the cohort and the new clients share no row, nor a client id when ids are unique |
| Retention.CohortsCountClients | poster_robber/__main__.py:119-127 | when the client file holds no id twice, `len(CS)`, `len(cl_left)` and `len(CN)` count distinct clients |
| Retention.RetainedCount | poster_robber/__main__.py:115-134 | the rate's numerator counts the cohort members who bought in the period |
| Retention.BuyersInPeriod | poster_robber/__main__.py:105-111 | a client is a buyer exactly when a transaction of theirs closed between the period's first and last midnight |
| Retention.OneOfThreeRetained | poster_robber/__main__.py:98-134 | three clients activated in the lookback window, one of whom buys in the period: 3 at start, 2 left, 0 new, 1 transaction, CRR 1/3 |
| Commands.CommandCcr | poster_robber/__main__.py:65-134 | the period is checked first (invalid period, date overflow, missing key, each with nothing fetched or stored). Without download both files are written back unchanged, and a missing file gives the empty-frame error. With download, transactions from the lookback start to the period end are requested 500 per page from page 1. A failing page is returned with nothing stored. Otherwise the transaction file receives the corrected merge (or the empty-frame error, nothing stored), then a failing client answer is returned with the transaction file already written, and otherwise the client file receives the corrected merge. The run succeeds exactly when every fetch and both merges do, and a success reports the statistics of the frames now stored |
| Commands.MonthPeriod | poster_robber/__main__.py:145-147 | read back as dates, a month period runs from the first of its month to the first of the next and lasts the month's length |
| Commands.MonthsChain | poster_robber/__main__.py:149-153 | the months of contiguous month periods follow one another |
| Commands.StepMonthly | poster_robber/__main__.py:139-153 | the periods start at the month holding the start date, are whole months, contiguous and each begins before the end. The months announced chain one after the other. Without failure the last period reaches the end. The loop fails with DateOverflow only at December 9999 |
| Commands.PeriodsCount | poster_robber/__main__.py:163-170 | k periods of `step` days cover a span with the last one needed exactly when k is the ceiling of span / step |
| Commands.StepDaily | poster_robber/__main__.py:156-170 | period i is [start + i·step, start + (i+1)·step); without failure there are ceil((end - start) / step) of them. It fails only with DateOverflow, exactly when the next end is out of range, or InvalidPeriod. A non-positive step fails on the first period: with InvalidPeriod (`command_ccr`'s assertion), or with DateOverflow when start + step falls before 0001-01-01 (line 164) |

## Left out

- HTTP transport (`requests`, `raise_for_status`, JSON decoding; poster_robber/api.py:61-77): network I/O. Page answers and the client list are parameters of the methods, and `TransportError` stands for a failed request.
- Reading and writing feather files: file I/O. A `FeatherFile` object holds the stored frame, or none when no file exists; the two store names are the two `FeatherFile` arguments of `CommandCcr`.
- pandas beyond rows, index values, mask selection, concatenation and keep-last de-duplication: foreign library.
- pydantic parsing and alias renaming (`parse_obj_as`, `Field(alias=...)`): foreign library. Records are plain datatypes. A malformed error envelope becomes `InvalidResponse`. pydantic's lax coercion is not modelled: an `error` code given as a numeric string or a boolean, which pydantic turns into an integer, is treated as malformed. Floats are not modelled: the decoded JSON values have no float case.
- `get_transactions_page`, `get_clients` and `application_get_info` beyond their answers: they only call the transport and parse its result.
- `print` output, the CRR as a float and its percent formatting: I/O and floating point. The rate is an exact fraction in `Stats`. The month name the monthly loop prints is modelled as its `months` output.
- The argument parser, `command_db_info`, `command_calendar` and the entry point: CLI glue outside the core.
- `to_dtime`'s "unsupported type" error: the `When` type allows only a date or a datetime.
- Calendar.ToDtime: only naive datetimes are modelled, with microsecond resolution. Time zones are not modelled.
- Api.IterTransactions: requires that some answer ends the loop. `iter_transactions` requests pages forever from a service that always answers full pages.
- Commands.CommandCcr: requires the two files to be distinct objects, as the two store file names are distinct. The `assert`s on the period and the API key, and Python's date range errors, are modelled as `InvalidPeriod`, `MissingApiKey` and `DateOverflow` results.
- Commands.StepMonthly: plans the months without calling `CommandCcr` for each one. An error raised by `command_ccr` for any period, the first included (say a lookback start before 0001-01-01), ends the program's loop there; the model still lists the later periods.
- Commands.StepDaily: plans the periods without calling `CommandCcr` for each one. An error raised by `command_ccr` for any period, the first included (say a lookback start before 0001-01-01), ends the program's loop there; the model still lists the later periods. With a step that is not positive, the program leaves the loop through `command_ccr`'s assertion on the first period (`InvalidPeriod`), or, when start + step falls before 0001-01-01, through the date overflow at poster_robber/__main__.py:164 (`DateOverflow`); the model reports these without computing anything.
- The generator's laziness in `iter_transactions`: the items are returned as one sequence with the requests. The consumer, `df_store`, reads all of them anyway.

## Findings

| source | as written | input that shows it | evidently intended | confidence | as-written member | corrected member |
|---|---|---|---|---|---|---|
| poster_robber/__main__.py:16-31 | duplicate index values are dropped only when a feather file already exists, so the first write stores a batch with a repeated id as it is | no file yet and a batch of two records with id 7 (`[Row(7, 1), Row(7, 2)]`) | every write, the first included, keeps one row per id, as later writes do | not executed | FrameStore.DfStoreAsWritten, FrameStore.AsWrittenStoresDuplicates | FrameStore.Merged, FrameStore.MergedContents |
