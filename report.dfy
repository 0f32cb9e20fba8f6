/**
 The report that Fini writes at the end of the run, as a sequence of line
 records: one block per page in ascending key order (a header followed by the
 non-zero counters of the started threads), then a summary line.
 */
module Report {
  import opened Pages

  /** One output line of Fini. */
  datatype Line =
    | PageHeader(page: nat)                   // "Page: <page>"
    | ThreadCount(thread: nat, count: nat)    // "\tT<thread>: <count>"
    | Summary(pages: nat, kilobytes: nat)     // "total pages: <pages> memory usage: <kilobytes> KB"

  /** k is the smallest element of s. */
  predicate IsLeast(k: nat, s: set<nat>)
  {
    k in s && forall x :: x in s ==> k <= x
  }

  /** Every non-empty set of naturals has a least element. */
  lemma {:induction false} LeastExists(s: set<nat>)
    requires s != {}
    ensures exists k :: IsLeast(k, s)
    decreases s
  {
    var x :| x in s;
    if s == {x} {
      assert IsLeast(x, s);
    } else {
      var rest := s - {x};
      assert s == rest + {x};
      LeastExists(rest);
      var k :| IsLeast(k, rest);
      if x < k {
        assert IsLeast(x, s);
      } else {
        assert IsLeast(k, s);
      }
    }
  }

  predicate StrictlyIncreasing(ks: seq<nat>)
  {
    forall i, j :: 0 <= i < j < |ks| ==> ks[i] < ks[j]
  }

  /**
   The keys of s in ascending order: the order in which an iterator walks a
   std::map (see SortedKeysSpec).
   */
  ghost function SortedKeys(s: set<nat>): seq<nat>
    decreases s
  {
    if s == {} then []
    else
      LeastExists(s);
      var k :| IsLeast(k, s);
      [k] + SortedKeys(s - {k})
  }

  /** The ascending walk lists every key once, in strictly increasing order, and nothing else. */
  lemma {:induction false} SortedKeysSpec(s: set<nat>)
    ensures |SortedKeys(s)| == |s|
    ensures forall k :: k in SortedKeys(s) <==> k in s
    ensures StrictlyIncreasing(SortedKeys(s))
    decreases s
  {
    if s != {} {
      LeastExists(s);
      var k :| IsLeast(k, s);
      SortedKeysFirst(s, k);
      SortedKeysSpec(s - {k});
      LeastThenRest(s, k, SortedKeys(s - {k}));
    }
  }

  /** Putting the least key in front of an ascending listing of the other keys lists them all in ascending order. */
  lemma LeastThenRest(s: set<nat>, k: nat, rest: seq<nat>)
    requires IsLeast(k, s)
    requires |rest| == |s - {k}|
    requires forall x :: x in rest <==> x in s - {k}
    requires StrictlyIncreasing(rest)
    ensures |[k] + rest| == |s|
    ensures forall x :: x in [k] + rest <==> x in s
    ensures StrictlyIncreasing([k] + rest)
  {
    var all := [k] + rest;
    assert s == (s - {k}) + {k};
    forall x | x in all ensures x in s {
      assert x == k || x in rest;
    }
    forall i, j | 0 <= i < j < |all| ensures all[i] < all[j] {
      assert all[j] == rest[j - 1];
      if i > 0 {
        assert all[i] == rest[i - 1];
      } else {
        assert rest[j - 1] in s - {k};
      }
    }
  }

  /** The ascending walk starts at the least key and goes on with the rest. */
  lemma SortedKeysFirst(s: set<nat>, k: nat)
    requires IsLeast(k, s)
    ensures SortedKeys(s) == [k] + SortedKeys(s - {k})
  {
  }

  /**
   The counter lines of one page for threads 0 .. n-1: each thread whose count
   is positive, in ascending thread order.
   */
  function ThreadLines(counts: seq<nat>, n: nat): seq<Line>
    requires n <= |counts|
  {
    if n == 0 then []
    else
      ThreadLines(counts, n - 1) + (if counts[n - 1] > 0 then [ThreadCount(n - 1, counts[n - 1])] else [])
  }

  /**
   Every counter line names a started thread (index below n) together with
   that thread's count, which is positive, and the threads ascend.
   */
  lemma {:induction false} ThreadLinesSound(counts: seq<nat>, n: nat)
    requires n <= |counts|
    ensures forall j :: 0 <= j < |ThreadLines(counts, n)| ==>
      var line := ThreadLines(counts, n)[j];
      line.ThreadCount? && line.thread < n && line.count == counts[line.thread] > 0
    ensures forall j, k :: 0 <= j < k < |ThreadLines(counts, n)| ==>
      ThreadLines(counts, n)[j].thread < ThreadLines(counts, n)[k].thread
  {
    if n > 0 {
      ThreadLinesSound(counts, n - 1);
    }
  }

  /** Conversely, every started thread with a positive count has its line. */
  lemma {:induction false} ThreadLinesComplete(counts: seq<nat>, n: nat, i: nat)
    requires i < n <= |counts| && counts[i] > 0
    ensures ThreadCount(i, counts[i]) in ThreadLines(counts, n)
  {
    if i < n - 1 {
      ThreadLinesComplete(counts, n - 1, i);
    } else {
      assert ThreadLines(counts, n)[|ThreadLines(counts, n)| - 1] == ThreadCount(i, counts[i]);
    }
  }

  /** The block of one page: its header, then its counter lines. */
  function Block(m: PageMap, page: nat, n: nat): seq<Line>
    requires WellFormed(m) && page in m && n <= MaxThreads
  {
    [PageHeader(page)] + ThreadLines(m[page], n)
  }

  /** The blocks of the given pages, one after the other. */
  function Blocks(m: PageMap, pages: seq<nat>, n: nat): seq<Line>
    requires WellFormed(m) && n <= MaxThreads
    requires forall i :: 0 <= i < |pages| ==> pages[i] in m
  {
    if pages == [] then []
    else Blocks(m, pages[..|pages| - 1], n) + Block(m, pages[|pages| - 1], n)
  }

  /** Appending one page to the walk appends that page's block. */
  lemma BlocksSnoc(m: PageMap, pages: seq<nat>, page: nat, n: nat)
    requires WellFormed(m) && n <= MaxThreads && page in m
    requires forall i :: 0 <= i < |pages| ==> pages[i] in m
    ensures Blocks(m, pages + [page], n) == Blocks(m, pages, n) + [PageHeader(page)] + ThreadLines(m[page], n)
  {
    assert (pages + [page])[..|pages|] == pages;
  }

  /**
   One step of the ascending walk over m: the least unvisited key moves from
   the unvisited set to the end of the visited keys.
   */
  lemma WalkStep(m: PageMap, visited: seq<nat>, remaining: set<nat>, page: nat)
    requires remaining <= m.Keys && forall k :: k in visited ==> k in m
    requires SortedKeys(m.Keys) == visited + SortedKeys(remaining)
    requires IsLeast(page, remaining)
    ensures page in m && remaining - {page} <= m.Keys
    ensures forall k :: k in visited + [page] ==> k in m
    ensures SortedKeys(m.Keys) == visited + [page] + SortedKeys(remaining - {page})
  {
    SortedKeysFirst(remaining, page);
  }

  /**
   The whole report for histogram m after n ThreadStart calls: every page's
   block in ascending key order, then the page count and 4 KB per page.
   */
  ghost function FullReport(m: PageMap, n: nat): seq<Line>
    requires WellFormed(m) && n <= MaxThreads
  {
    SortedKeysSpec(m.Keys);
    Blocks(m, SortedKeys(m.Keys), n) + [Summary(|m|, |m| * 4)]
  }

  /** The page keys named by the header lines of a report, in order. */
  function Headers(lines: seq<Line>): seq<nat>
  {
    if lines == [] then []
    else
      var last := lines[|lines| - 1];
      Headers(lines[..|lines| - 1]) + (if last.PageHeader? then [last.page] else [])
  }

  lemma {:induction false} HeadersAppend(a: seq<Line>, b: seq<Line>)
    ensures Headers(a + b) == Headers(a) + Headers(b)
    decreases |b|
  {
    if b != [] {
      assert (a + b)[..|a + b| - 1] == a + b[..|b| - 1];
      var last := b[|b| - 1];
      var tail := if last.PageHeader? then [last.page] else [];
      assert (a + b)[|a + b| - 1] == last;
      HeadersAppend(a, b[..|b| - 1]);
      assert Headers(b) == Headers(b[..|b| - 1]) + tail;
      assert Headers(a + b) == Headers(a + b[..|b| - 1]) + tail;
    } else {
      assert a + b == a;
    }
  }

  lemma {:induction false} ThreadLinesNoHeaders(counts: seq<nat>, n: nat)
    requires n <= |counts|
    ensures Headers(ThreadLines(counts, n)) == []
  {
    if n > 0 {
      var init := ThreadLines(counts, n - 1);
      var tail := if counts[n - 1] > 0 then [ThreadCount(n - 1, counts[n - 1])] else [];
      ThreadLinesNoHeaders(counts, n - 1);
      HeadersAppend(init, tail);
      assert Headers(tail) == [] by {
        if tail != [] {
          assert tail[..0] == [];
        }
      }
    }
  }

  /** A page's block has exactly one header, naming that page. */
  lemma BlockHeaders(m: PageMap, page: nat, n: nat)
    requires WellFormed(m) && page in m && n <= MaxThreads
    ensures Headers(Block(m, page, n)) == [page]
  {
    HeadersAppend([PageHeader(page)], ThreadLines(m[page], n));
    ThreadLinesNoHeaders(m[page], n);
    assert [PageHeader(page)][..0] == [];
  }

  /** The headers of a run of blocks are exactly the pages of those blocks. */
  lemma {:induction false} BlocksHeaders(m: PageMap, pages: seq<nat>, n: nat)
    requires WellFormed(m) && n <= MaxThreads
    requires forall i :: 0 <= i < |pages| ==> pages[i] in m
    ensures Headers(Blocks(m, pages, n)) == pages
  {
    if pages != [] {
      var init := pages[..|pages| - 1];
      var page := pages[|pages| - 1];
      assert pages == init + [page];
      var front := Blocks(m, init, n);
      var back := Block(m, page, n);
      assert Blocks(m, pages, n) == front + back;
      BlocksHeaders(m, init, n);
      HeadersAppend(front, back);
      BlockHeaders(m, page, n);
    }
  }

  /**
   The report has one header per map entry, in strictly ascending key order,
   and names every page of the map.
   */
  lemma ReportHeaders(m: PageMap, n: nat)
    requires WellFormed(m) && n <= MaxThreads
    ensures Headers(FullReport(m, n)) == SortedKeys(m.Keys)
    ensures StrictlyIncreasing(Headers(FullReport(m, n)))
    ensures |Headers(FullReport(m, n))| == |m|
    ensures forall p :: p in m <==> p in Headers(FullReport(m, n))
  {
    var ks := SortedKeys(m.Keys);
    SortedKeysSpec(m.Keys);
    BlocksHeaders(m, ks, n);
    HeadersAppend(Blocks(m, ks, n), [Summary(|m|, |m| * 4)]);
    assert [Summary(|m|, |m| * 4)][..0] == [];
  }

  /** The report ends with the page count and the memory footprint at 4 KB per page. */
  lemma ReportSummary(m: PageMap, n: nat)
    requires WellFormed(m) && n <= MaxThreads
    ensures var r := FullReport(m, n);
      |r| >= 1 && r[|r| - 1] == Summary(|m|, 4 * |m|) && r[|r| - 1].kilobytes == r[|r| - 1].pages * PageSize / 1024
  {
  }

  /** For a histogram built by memaccess calls the KB figure fits in the UINT64 num_pages*4. */
  lemma {:induction false} ReportSummaryFits(h: seq<Access>, n: nat)
    requires ValidTrace(h) && n <= MaxThreads
    ensures var r := FullReport(Replay(h), n); r[|r| - 1].kilobytes < AddrSpace
  {
    ReplaySize(h);
  }
}
