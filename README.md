# numalize page-access histogram, modelled in Dafny

numalize is a Pin tool that profiles memory accesses. In page-histogram mode
it keeps one global ordered map, `pagemap`. The map goes from a 4 KiB page
key (`addr >> 12`) to a record of `MAXTHREADS` = 128 per-thread access
counters. Three callbacks act on this state:

- `memaccess` runs on every load and store. It increments the accessing
  thread's counter on the address's page. On a page's first touch,
  `map::operator[]` creates the record zero-filled.
- `ThreadStart` counts the started threads in `num_threads`.
- `Fini` walks the map in ascending key order. For each page it writes a
  header line, then one line per started thread whose count is positive. It
  ends with a summary line: the number of pages and `num_pages * 4` KB.

Files:

- `pages.dfy` (module `Pages`) covers the page key and the update of one
  access (`Touch`). `Replay` gives the histogram a sequence of accesses
  produces. Lemmas prove its key set, its counters and its total.
- `report.dfy` (module `Report`) covers Fini's output as a sequence of
  `Line` records. `FullReport` is the specification of the report. Lemmas
  prove its ordering, its filtering and its summary line.
- `format.dfy` (module `Format`) covers the text of each line as `cout`
  writes it, and a parser that reads a rendered line back.
- `numalize.dfy` (module `Numalize`) has class `Profiler`, which holds the
  globals `pagemap` and `num_threads`. Its methods `MemAccess`, `ThreadStart`
  and `Fini` update that state in place or walk it with loops. It also holds
  two worked scenarios.

The map is a `map<nat, seq<nat>>`. Each record's counter array is a
sequence of exactly 128 counters, which `WellFormed` states. `ADDRINT` is
modelled as an unsigned 64-bit address (`Addr`). The class carries a ghost
history of the `memaccess` calls made so far, and `Valid()` ties `pagemap`
to `Replay(history)`.

The record type `pageinfo` also declares a field `firstacc`
(numalize.cpp:13), but no code reads or writes it, so the model has no
first-accessor behaviour. Page keys follow the code's `addr >> 12`: since
`0x1040 >> 12 == 1`, the accesses 0x1000 (thread 0), 0x1040 (thread 1) and
0x2000 (thread 0) leave page 1 with one access from each thread and page 2
with one access from thread 0 (`Numalize.ThreeAccessHistogram`).

## Model

| member | source | states |
|---|---|---|
| `Pages.PageOf` | numalize.cpp:22 | The page key k of an address is the unique k with k*4096 <= addr < (k+1)*4096. For a 64-bit address it is below 2^52. |
| `Pages.ShiftIsDivision` | numalize.cpp:22 | On a 64-bit machine word (bv64), `addr >> 12` equals unsigned `addr / 4096`. This is a fact about bv64 only; the step to `PageOf` on the address's integer value is not proved. |
| `Pages.SameFrameSamePage` | numalize.cpp:22 | Every address inside the 4 KiB frame [k*4096, (k+1)*4096) maps to record k. |
| `Pages.SamePageIff` | numalize.cpp:22 | Two addresses update the same record exactly when they round down to the same 4 KiB boundary. |
| `Pages.Lookup` | numalize.cpp:16-23 | `pagemap[page]` gives the stored record if the key is present, otherwise a record of 128 zero counters. |
| `Pages.Touch` | numalize.cpp:23 | The key set gains `page`. The thread's counter on that page rises by exactly one. All other counters on the page and all other pages' records are unchanged. |
| `Pages.IndexThenIncrement` | numalize.cpp:23 | Inserting a zero-filled record when the key is missing, then incrementing the counter, is exactly `Touch`. |
| `Pages.FirstTouch` | numalize.cpp:16-23 | A page's first access leaves that thread's count at 1 and every other count at 0. |
| `Pages.TouchGrowsByAtMostOne` | numalize.cpp:23 | One access adds one map entry when its page is new and none otherwise. |
| `Pages.Replay` | numalize.cpp:20-30 | The histogram produced by any sequence of accesses with thread ids below 128 has 128 counters in every record. |
| `Pages.ReplayStep` | numalize.cpp:20-30 | One more call applies one more `Touch`. The map grows by at most one entry and the total of all counters rises by one. |
| `Pages.ReplayKeys` | numalize.cpp:20-30 | The map's key set is exactly the set of page keys of the addresses passed to memaccess. |
| `Pages.ReplayCounts` | numalize.cpp:20-30 | Every counter equals the number of calls that touched its page from its thread. |
| `Pages.ReplaySize` | numalize.cpp:16-22 | The map never holds more than 2^52 pages. |
| `Pages.TouchTotal` | numalize.cpp:23 | One access raises the sum of all counters over all pages by exactly one. |
| `Pages.ReplayTotal` | numalize.cpp:20-30 | The sum of all counters over all pages equals the number of memaccess calls. |
| `Report.SortedKeysSpec` | numalize.cpp:57 | The ascending walk lists every map key exactly once, in strictly increasing order, and nothing else. |
| `Report.ThreadLinesSound` | numalize.cpp:59-62 | Every counter line of a page names a thread below `num_threads` with that thread's count, which is positive. The thread indices ascend. |
| `Report.ThreadLinesComplete` | numalize.cpp:59-62 | Every thread below `num_threads` with a positive count on the page gets its line. |
| `Report.BlocksHeaders` | numalize.cpp:57-64 | The header lines of the page blocks name exactly the walked pages, in walk order. |
| `Report.ReportHeaders` | numalize.cpp:57-64 | The report has one header per map entry, in strictly ascending key order, and names every page of the map. |
| `Report.ReportSummary` | numalize.cpp:56-65 | The last line gives the number of map entries and 4 KB per page, which is the page count times 4096 bytes in KiB. |
| `Report.ReportSummaryFits` | numalize.cpp:56-65 | For any histogram built by memaccess calls, `num_pages*4` fits in a UINT64. |
| `Format.Decimal` | numalize.cpp:58-65 | Integers are written as a non-empty run of decimal digits with no leading zero. |
| `Format.DecimalRoundTrip` | numalize.cpp:58-65 | Reading back the decimal text of n gives n. |
| `Format.Render` | numalize.cpp:58-65 | A header line begins with `Page: `, a counter line with a tab and `T`, and the summary line begins with `total pages: ` and ends with ` KB`. So the three kinds of line start differently. |
| `Format.RenderAll` | numalize.cpp:57-65 | The output has one text line per report line, in the same order. |
| `Format.RenderRoundTrip` | numalize.cpp:58-65 | Every rendered header, counter and summary line parses back to the line it came from. |
| `Numalize.Profiler.constructor` | numalize.cpp:9-16 | The program starts with an empty `pagemap` and `num_threads` = 0. |
| `Numalize.Profiler.MemAccess` | numalize.cpp:20-30 | The new `pagemap` is `Touch` of the old one at page `addr >> 12` for `threadid`, and `num_threads` is unchanged. The map grows by at most one entry, and the total of all counters rises by one. |
| `Numalize.Profiler.ThreadStart` | numalize.cpp:47-51 | `num_threads` rises by exactly one, and the map is unchanged. |
| `Numalize.Profiler.Fini` | numalize.cpp:54-66 | The loop over the map and the nested loop over threads produce exactly `FullReport`: blocks in ascending key order, the filtered counter lines, then the page count and KB. |
| `Numalize.ThreadRows` | numalize.cpp:59-62 | The inner loop over threads 0 .. `num_threads`-1 keeps exactly the positive counts, in ascending order. |
| `Numalize.ThreeAccessHistogram` | numalize.cpp:20-30 | The accesses 0x1000 (thread 0), 0x1040 (thread 1) and 0x2000 (thread 0) create pages 1 and 2. Page 1 has one access from each thread; page 2 has one from thread 0. |
| `Numalize.TwoPageReport` | numalize.cpp:54-66 | The exact report lines for such a two-page histogram when two threads have started. |
| `Numalize.ThreeAccessReport` | numalize.cpp:54-66 | The exact report lines that the three-access run produces after two ThreadStart calls. |

## Left out

- Pin instrumentation and registration are not modelled: `trace_memory`, the `INS_InsertCall` wiring, `main`, `PIN_Init`, `PIN_StartProgram` and the callback registrations (numalize.cpp:33-44, 77-89). They are calls into the Pin library, which is not part of this model.
- `ThreadFini` is not modelled. It calls `Fini` and then `exit(0)` (numalize.cpp:69-74), which is process control. Its report is the one `Profiler.Fini` produces.
- Concurrency is not modelled. The unsynchronised increment in memaccess and the atomic increment in ThreadStart are plain sequential updates, so lost updates under races are not captured.
- `cout` is not modelled as a stream. Fini returns its lines as `Line` records, and `Format` gives the text of each line without the trailing newline.
- The unused parameters `is_Read`, `pc` and `size` of memaccess are left out, and so is the unused `threadid` parameter of ThreadStart.
- The `firstacc` field is left out. The code never reads or writes it, so the model has no first-accessor behaviour. The commented-out code at numalize.cpp:24-29 is left out for the same reason.
- `Pages.ShiftIsDivision`: the lemma is stated on bv64 only. That `(a >> 12)` as an integer equals `PageOf` of the address's integer value is not proved, because the solver's bit-vector-to-integer reasoning does not close it. `PageOf` is defined as division by 4096 on the integer value.
- `Pages.Touch`: counters are unbounded naturals, so the UINT64 wrap-around of `accesses[threadid]++` after 2^64 accesses from one thread to one page is not modelled.
- `Numalize.Profiler.MemAccess`: `threadid < 128` is a precondition. A larger thread id indexes past the end of `accesses` and is undefined behaviour.
- `Numalize.Profiler.ThreadStart`: `num_threads` is modelled as a non-negative counter. The `int` wrap-around of the increment at numalize.cpp:50 is not modelled.
- `Numalize.Profiler.Fini`: `num_threads <= 128` is a precondition. With more started threads, the inner loop reads past the end of `accesses`, which is undefined behaviour.
