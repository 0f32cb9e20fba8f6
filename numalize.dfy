/**
 The state of the numalize Pin tool in page-histogram mode and the three
 callbacks that act on it: memaccess (every load and store), ThreadStart and
 Fini (the end-of-run report).
 */
module Numalize {
  import opened Pages
  import opened Report

  /** The tool's globals: `pagemap` and `num_threads`. */
  class Profiler {
    var pagemap: PageMap
    var numThreads: nat

    /** Every memaccess call so far, in order. */
    ghost var history: seq<Access>

    /** The histogram is exactly what the recorded calls produce. */
    ghost predicate Valid()
      reads this
    {
      ValidTrace(history) && pagemap == Replay(history)
    }

    /** Program start: an empty map and no threads. */
    constructor ()
      ensures Valid()
      ensures pagemap == map[] && numThreads == 0 && history == []
    {
      pagemap := map[];
      numThreads := 0;
      history := [];
    }

    /**
     `pagemap[addr >> 12].accesses[threadid]++`: the page's record is created
     zero-filled on first touch, then the caller's counter rises by one.
     */
    method MemAccess(addr: Addr, threadid: nat)
      requires Valid() && threadid < MaxThreads
      modifies this
      ensures Valid()
      ensures history == old(history) + [Access(addr, threadid)]
      ensures pagemap == Touch(old(pagemap), PageOf(addr), threadid)
      ensures numThreads == old(numThreads)
      ensures |pagemap| <= |old(pagemap)| + 1
      ensures Total(pagemap) == Total(old(pagemap)) + 1
    {
      var page := PageOf(addr);
      var m := pagemap;
      if page !in m {
        m := m[page := Zeros(MaxThreads)];
      }
      m := m[page := m[page][threadid := m[page][threadid] + 1]];
      assert m == Touch(pagemap, page, threadid) by {
        IndexThenIncrement(pagemap, page, threadid);
      }
      ReplayStep(history, Access(addr, threadid));
      pagemap := m;
      history := history + [Access(addr, threadid)];
    }

    /** A thread has started: `num_threads` rises by one. */
    method ThreadStart()
      requires Valid()
      modifies this
      ensures Valid()
      ensures numThreads == old(numThreads) + 1
      ensures pagemap == old(pagemap) && history == old(history)
    {
      numThreads := numThreads + 1;
    }

    /**
     The report: the map is walked in ascending key order; each page gets a
     header and one line per started thread with a positive count; a summary
     line with the page count and 4 KB per page closes it.
     */
    method Fini() returns (lines: seq<Line>)
      requires WellFormed(pagemap) && numThreads <= MaxThreads
      ensures lines == FullReport(pagemap, numThreads)
    {
      var m, n := pagemap, numThreads;
      var numPages: nat := 0;
      var remaining := m.Keys;
      ghost var visited: seq<nat> := [];
      lines := [];
      while remaining != {}
        invariant remaining <= m.Keys
        invariant forall k :: k in visited ==> k in m
        invariant SortedKeys(m.Keys) == visited + SortedKeys(remaining)
        invariant lines == Blocks(m, visited, n)
        invariant numPages == |visited|
        decreases remaining
      {
        LeastExists(remaining);
        var page :| IsLeast(page, remaining);
        WalkStep(m, visited, remaining, page);
        BlocksSnoc(m, visited, page, n);
        var rows := ThreadRows(m[page], n);
        lines := lines + [PageHeader(page)] + rows;
        visited := visited + [page];
        remaining := remaining - {page};
        numPages := numPages + 1;
      }
      assert visited == SortedKeys(m.Keys);
      SortedKeysSpec(m.Keys);
      lines := lines + [Summary(numPages, numPages * 4)];
    }
  }

  /**
   The inner loop of Fini over one page's counters: threads 0 .. n-1 in
   ascending order, keeping those whose count is positive.
   */
  method ThreadRows(counts: seq<nat>, n: nat) returns (rows: seq<Line>)
    requires n <= |counts|
    ensures rows == ThreadLines(counts, n)
  {
    rows := [];
    var i := 0;
    while i < n
      invariant i <= n
      invariant rows == ThreadLines(counts, i)
    {
      if counts[i] > 0 {
        rows := rows + [ThreadCount(i, counts[i])];
      }
      i := i + 1;
    }
  }

  /**
   Three accesses: 0x1000 by thread 0, 0x1040 by thread 1, 0x2000 by thread 0.
   Pages 1 and 2 get records; page 1 has one access from each thread.
   */
  lemma ThreeAccessHistogram()
    ensures Replay([Access(0x1000, 0), Access(0x1040, 1), Access(0x2000, 0)])
      == map[1 := Zeros(MaxThreads)[0 := 1][1 := 1], 2 := Zeros(MaxThreads)[0 := 1]]
  {
    var h1 := [Access(0x1000, 0)];
    var h2 := h1 + [Access(0x1040, 1)];
    var h := h2 + [Access(0x2000, 0)];
    assert h == [Access(0x1000, 0), Access(0x1040, 1), Access(0x2000, 0)];
    assert h[..2] == h2 && h2[..1] == h1 && h1[..0] == [];
    assert Replay(h1) == map[1 := Zeros(MaxThreads)[0 := 1]];
    assert Replay(h2) == map[1 := Zeros(MaxThreads)[0 := 1][1 := 1]];
  }

  /** The ascending walk over pages 1 and 2. */
  lemma SortedOneTwo()
    ensures SortedKeys({1, 2}) == [1, 2]
  {
    SortedKeysFirst({1, 2}, 1);
    assert {1, 2} - {1} == {2};
    SortedKeysFirst({2}, 2);
    assert {2} - {2} == {};
  }

  /**
   The report for a histogram of pages 1 and 2 after two ThreadStart calls,
   page 1 counted by threads 0 and 1, page 2 by thread 0 only.
   */
  lemma TwoPageReport(p1: seq<nat>, p2: seq<nat>)
    requires |p1| == MaxThreads && p1[0] == 1 && p1[1] == 1
    requires |p2| == MaxThreads && p2[0] == 1 && p2[1] == 0
    ensures FullReport(map[1 := p1, 2 := p2], 2) == [PageHeader(1), ThreadCount(0, 1), ThreadCount(1, 1),
                                                     PageHeader(2), ThreadCount(0, 1), Summary(2, 8)]
  {
    var m := map[1 := p1, 2 := p2];
    assert m.Keys == {1, 2};
    assert |m| == 2 by {
      assert |m.Keys| == |{1, 2}| == 2;
    }
    SortedOneTwo();
    assert ThreadLines(p1, 2) == [ThreadCount(0, 1), ThreadCount(1, 1)] by {
      assert ThreadLines(p1, 1) == [ThreadCount(0, 1)];
    }
    assert ThreadLines(p2, 2) == [ThreadCount(0, 1)] by {
      assert ThreadLines(p2, 1) == [ThreadCount(0, 1)];
    }
    var b1 := Blocks(m, [1], 2);
    assert b1 == [PageHeader(1), ThreadCount(0, 1), ThreadCount(1, 1)] by {
      BlocksSnoc(m, [], 1, 2);
      assert [] + [1] == [1];
    }
    assert Blocks(m, [1, 2], 2) == b1 + [PageHeader(2), ThreadCount(0, 1)] by {
      BlocksSnoc(m, [1], 2, 2);
      assert [1] + [2] == [1, 2];
    }
  }

  /** The report for that histogram after two ThreadStart calls. */
  lemma ThreeAccessReport()
    ensures var m := Replay([Access(0x1000, 0), Access(0x1040, 1), Access(0x2000, 0)]);
      FullReport(m, 2) == [PageHeader(1), ThreadCount(0, 1), ThreadCount(1, 1),
                           PageHeader(2), ThreadCount(0, 1), Summary(2, 8)]
  {
    ThreeAccessHistogram();
    TwoPageReport(Zeros(MaxThreads)[0 := 1][1 := 1], Zeros(MaxThreads)[0 := 1]);
  }
}
