/**
 The page-access histogram of numalize: a map from 4 KiB page keys to a
 fixed-size array of per-thread access counters, and the pure update that a
 single memory access performs on it.
 */
module Pages {

  /** Capacity of every page's counter array (MAXTHREADS). */
  const MaxThreads: nat := 128

  /** A page is PageSize bytes: the page key drops the low 12 address bits. */
  const PageSize: nat := 4096

  /** Number of distinct 64-bit addresses, and of distinct page keys. */
  const AddrSpace: nat := 0x1_0000_0000_0000_0000
  const PageCount: nat := 0x10_0000_0000_0000

  /** An ADDRINT on a 64-bit host: an unsigned 64-bit address. */
  type Addr = a: nat | a < 0x1_0000_0000_0000_0000

  /** The histogram: page key to that page's per-thread counters. */
  type PageMap = map<nat, seq<nat>>

  /** One call of memaccess: the address and the accessing thread. */
  datatype Access = Access(addr: Addr, tid: nat)

  /**
   The page key `addr >> 12`. On an unsigned address the shift is floor
   division by 4096, so the key is the unique k with k * 4096 <= addr < (k + 1) * 4096.
   */
  function PageOf(addr: Addr): (page: nat)
    ensures page * PageSize <= addr < page * PageSize + PageSize
    ensures page < PageCount
  {
    addr / PageSize
  }

  /**
   On the machine word itself, shifting by 12 is unsigned division by 4096,
   the operation PageOf performs on the address's value.
   */
  lemma ShiftIsDivision(a: bv64)
    ensures a >> 12 == a / 4096
  {
  }

  /** Every address of the frame [k * 4096, (k + 1) * 4096) has page key k. */
  lemma {:induction false} SameFrameSamePage(a: Addr, k: nat)
    requires k * PageSize <= a < k * PageSize + PageSize
    ensures PageOf(a) == k
  {
  }

  /** Two addresses share a record exactly when they lie in the same 4 KiB frame. */
  lemma {:induction false} SamePageIff(a: Addr, b: Addr)
    ensures PageOf(a) == PageOf(b) <==> a - a % PageSize == b - b % PageSize
  {
    assert a - a % PageSize == PageOf(a) * PageSize;
    assert b - b % PageSize == PageOf(b) * PageSize;
    if PageOf(a) != PageOf(b) {
      assert PageOf(a) * PageSize != PageOf(b) * PageSize;
    }
  }

  /** The zero-filled counter array that a value-initialised pageinfo holds. */
  function Zeros(n: nat): (z: seq<nat>)
    ensures |z| == n
    ensures forall i :: 0 <= i < n ==> z[i] == 0
  {
    seq(n, _ => 0)
  }

  /** Every record holds exactly MaxThreads counters. */
  predicate WellFormed(m: PageMap)
  {
    forall p :: p in m ==> |m[p]| == MaxThreads
  }

  /** What `pagemap[page]` yields: the stored record, or a fresh zero-filled one. */
  function Lookup(m: PageMap, page: nat): (c: seq<nat>)
    requires WellFormed(m)
    ensures |c| == MaxThreads
    ensures page !in m ==> forall i :: 0 <= i < MaxThreads ==> c[i] == 0
    ensures page in m ==> c == m[page]
  {
    if page in m then m[page] else Zeros(MaxThreads)
  }

  /**
   The effect of `pagemap[page].accesses[tid]++`: the record of `page` is
   created zero-filled if absent, its `tid` counter rises by one, and nothing
   else changes.
   */
  function Touch(m: PageMap, page: nat, tid: nat): (r: PageMap)
    requires WellFormed(m) && tid < MaxThreads
    ensures WellFormed(r)
    ensures r.Keys == m.Keys + {page}
    ensures r[page][tid] == Lookup(m, page)[tid] + 1
    ensures forall i :: 0 <= i < MaxThreads && i != tid ==> r[page][i] == Lookup(m, page)[i]
    ensures forall p :: p in m && p != page ==> r[p] == m[p]
  {
    var counts := Lookup(m, page);
    m[page := counts[tid := counts[tid] + 1]]
  }

  /**
   `pagemap[page]` inserts a zero-filled record when the key is missing;
   incrementing a counter through the reference it returns is Touch.
   */
  lemma IndexThenIncrement(m: PageMap, page: nat, tid: nat)
    requires WellFormed(m) && tid < MaxThreads
    ensures var m1 := if page in m then m else m[page := Zeros(MaxThreads)];
      m1[page := m1[page][tid := m1[page][tid] + 1]] == Touch(m, page, tid)
  {
  }

  /** A page's first access leaves that thread's count at 1 and every other count at 0. */
  lemma FirstTouch(m: PageMap, page: nat, tid: nat)
    requires WellFormed(m) && tid < MaxThreads && page !in m
    ensures Touch(m, page, tid)[page] == Zeros(MaxThreads)[tid := 1]
  {
  }

  /** Each access adds at most one record: exactly one when the page is new. */
  lemma TouchGrowsByAtMostOne(m: PageMap, page: nat, tid: nat)
    requires WellFormed(m) && tid < MaxThreads
    ensures |Touch(m, page, tid)| == if page in m then |m| else |m| + 1
  {
    var r: PageMap := Touch(m, page, tid);
    if page in m {
      assert r.Keys == m.Keys;
    } else {
      assert r.Keys == m.Keys + {page};
      assert |r.Keys| == |m.Keys| + 1;
    }
  }

  /** Every access names a thread slot inside the counter array. */
  predicate ValidTrace(h: seq<Access>)
  {
    forall i :: 0 <= i < |h| ==> h[i].tid < MaxThreads
  }

  /** The histogram after the calls `h`, in order, starting from the empty map. */
  function Replay(h: seq<Access>): (m: PageMap)
    requires ValidTrace(h)
    ensures WellFormed(m)
  {
    if h == [] then map[]
    else
      var last := h[|h| - 1];
      Touch(Replay(h[..|h| - 1]), PageOf(last.addr), last.tid)
  }

  /**
   One more call applies one more Touch: the map gains at most one record and
   the counters' total rises by one.
   */
  lemma ReplayStep(h: seq<Access>, a: Access)
    requires ValidTrace(h) && a.tid < MaxThreads
    ensures ValidTrace(h + [a])
    ensures Replay(h + [a]) == Touch(Replay(h), PageOf(a.addr), a.tid)
    ensures |Replay(h + [a])| <= |Replay(h)| + 1
    ensures Total(Replay(h + [a])) == Total(Replay(h)) + 1
  {
    assert (h + [a])[..|h|] == h;
    TouchGrowsByAtMostOne(Replay(h), PageOf(a.addr), a.tid);
    TouchTotal(Replay(h), PageOf(a.addr), a.tid);
  }

  /** The page keys of the addresses in `h`. */
  ghost function TouchedPages(h: seq<Access>): set<nat>
  {
    set i | 0 <= i < |h| :: PageOf(h[i].addr)
  }

  /** The map's key set is exactly the set of pages whose addresses were accessed. */
  lemma {:induction false} ReplayKeys(h: seq<Access>)
    requires ValidTrace(h)
    ensures Replay(h).Keys == TouchedPages(h)
  {
    if h != [] {
      var init := h[..|h| - 1];
      ReplayKeys(init);
      var last := PageOf(h[|h| - 1].addr);
      forall p | p in TouchedPages(h) ensures p in TouchedPages(init) + {last} {
        var i :| 0 <= i < |h| && PageOf(h[i].addr) == p;
        if i < |h| - 1 {
          assert init[i] == h[i];
        }
      }
      forall p | p in TouchedPages(init) ensures p in TouchedPages(h) {
        var i :| 0 <= i < |init| && PageOf(init[i].addr) == p;
        assert h[i] == init[i];
      }
      assert TouchedPages(h) == TouchedPages(init) + {last};
    }
  }

  /** How many calls in `h` touched page `page` from thread `tid`. */
  function Occurrences(h: seq<Access>, page: nat, tid: nat): (n: nat)
    ensures n <= |h|
  {
    if h == [] then 0
    else
      var last := h[|h| - 1];
      Occurrences(h[..|h| - 1], page, tid) + (if PageOf(last.addr) == page && last.tid == tid then 1 else 0)
  }

  /** Every counter holds exactly the number of accesses to its page from its thread. */
  lemma {:induction false} ReplayCounts(h: seq<Access>, page: nat, tid: nat)
    requires ValidTrace(h) && tid < MaxThreads
    ensures Lookup(Replay(h), page)[tid] == Occurrences(h, page, tid)
  {
    if h != [] {
      ReplayCounts(h[..|h| - 1], page, tid);
    }
  }

  /** The pages of 64-bit addresses are fewer than 2^52, so the map is bounded. */
  lemma {:induction false} ReplaySize(h: seq<Access>)
    requires ValidTrace(h)
    ensures |Replay(h)| <= PageCount
  {
    ReplayKeys(h);
    CardinalityBound(Replay(h).Keys, PageCount);
  }

  /** A set of naturals below n has at most n elements. */
  lemma {:induction false} CardinalityBound(s: set<nat>, n: nat)
    requires forall x :: x in s ==> x < n
    ensures |s| <= n
  {
    if n > 0 {
      var rest := s - {n - 1};
      CardinalityBound(rest, n - 1);
      assert s <= rest + {n - 1};
      assert |s| <= |rest + {n - 1}| <= |rest| + 1;
    }
  }

  /** The sum of one record's counters. */
  function Sum(c: seq<nat>): nat
  {
    if c == [] then 0 else Sum(c[..|c| - 1]) + c[|c| - 1]
  }

  /** Raising one counter by one raises the record's sum by one. */
  lemma {:induction false} SumIncrement(c: seq<nat>, i: nat)
    requires i < |c|
    ensures Sum(c[i := c[i] + 1]) == Sum(c) + 1
  {
    var d := c[i := c[i] + 1];
    assert d[..|d| - 1] == if i == |c| - 1 then c[..|c| - 1] else c[..|c| - 1][i := c[i] + 1];
    if i < |c| - 1 {
      SumIncrement(c[..|c| - 1], i);
    }
  }

  /** A zero-filled record sums to zero. */
  lemma {:induction false} SumZeros(n: nat)
    ensures Sum(Zeros(n)) == 0
  {
    if n > 0 {
      assert Zeros(n)[..n - 1] == Zeros(n - 1);
      SumZeros(n - 1);
    }
  }

  /** Some key of a non-empty map. */
  ghost function AnyKey(m: PageMap): (k: nat)
    requires m != map[]
    ensures k in m
  {
    var k :| k in m; k
  }

  /** The sum of all counters over all pages. */
  ghost function Total(m: PageMap): nat
    decreases m.Keys
  {
    if m == map[] then 0
    else
      var k := AnyKey(m);
      Sum(m[k]) + Total(m - {k})
  }

  /** The total can be split at any key, whichever key Total happens to pick. */
  lemma {:induction false} TotalSplit(m: PageMap, p: nat)
    requires p in m
    ensures Total(m) == Sum(m[p]) + Total(m - {p})
    decreases m.Keys
  {
    var k := AnyKey(m);
    if k != p {
      TotalSplit(m - {k}, p);
      TotalSplit(m - {p}, k);
      assert m - {k} - {p} == m - {p} - {k};
    }
  }

  /** One access raises the total by exactly one. */
  lemma {:induction false} TouchTotal(m: PageMap, page: nat, tid: nat)
    requires WellFormed(m) && tid < MaxThreads
    ensures Total(Touch(m, page, tid)) == Total(m) + 1
  {
    var r: PageMap := Touch(m, page, tid);
    var counts := Lookup(m, page);
    TotalSplit(r, page);
    var dropped: set<nat> := {page};
    assert r - dropped == m - dropped;
    SumIncrement(counts, tid);
    assert r[page] == counts[tid := counts[tid] + 1];
    if page in m {
      TotalSplit(m, page);
    } else {
      assert m - {page} == m;
      SumZeros(MaxThreads);
    }
  }

  /** The counters over all pages add up to the number of memaccess calls. */
  lemma {:induction false} ReplayTotal(h: seq<Access>)
    requires ValidTrace(h)
    ensures Total(Replay(h)) == |h|
  {
    if h != [] {
      var init := h[..|h| - 1];
      ReplayTotal(init);
      TouchTotal(Replay(init), PageOf(h[|h| - 1].addr), h[|h| - 1].tid);
    }
  }
}
