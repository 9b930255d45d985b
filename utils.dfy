/** Model of utils.py: the page splitter `paginate` and the counter update
    at the heart of `science`. Reading and writing the JSON files around
    them is not part of this module. */
module Utils {

  // ---------------------------------------------------------------------
  // Pages
  // ---------------------------------------------------------------------

  /** The pages laid end to end, in order. */
  function Flatten<T>(pages: seq<seq<T>>): seq<T>
  {
    if pages == [] then [] else pages[0] + Flatten(pages[1..])
  }

  /** `pages` is a split with page size `count`: no page is empty, no page
      holds more than `count` items, and every page but the last holds
      exactly `count`. */
  predicate IsPaging<T>(pages: seq<seq<T>>, count: int)
  {
    forall k :: 0 <= k < |pages| ==>
      0 < |pages[k]| <= count && (k < |pages| - 1 ==> |pages[k]| == count)
  }

  /** The ceiling of n / count, for a positive page size. */
  function CeilDiv(n: nat, count: int): nat
    requires count >= 1
  {
    (n + count - 1) / count
  }

  /** Reference definition of the split: take `count` items at a time from
      the front; a short tail becomes the last page; nothing left means no
      page at all. */
  function Chunks<T>(s: seq<T>, count: int): (pages: seq<seq<T>>)
    requires count >= 1
    ensures Flatten(pages) == s
    ensures IsPaging(pages, count)
    decreases |s|
  {
    if s == [] then []
    else if |s| <= count then [s]
    else
      var rest := Chunks(s[count..], count);
      assert Flatten([s[..count]] + rest) == s[..count] + Flatten(rest);
      assert s[..count] + s[count..] == s;
      [s[..count]] + rest
  }

  // Flattening distributes over concatenation of page lists.
  lemma {:induction false} FlattenAppend<T>(a: seq<seq<T>>, b: seq<seq<T>>)
    ensures Flatten(a + b) == Flatten(a) + Flatten(b)
    decreases |a|
  {
    if a != [] {
      assert (a + b)[1..] == a[1..] + b;
      FlattenAppend(a[1..], b);
    } else {
      assert a + b == b;
    }
  }

  // Pushing one more page onto the list appends its items.
  lemma FlattenSnoc<T>(pages: seq<seq<T>>, page: seq<T>)
    ensures Flatten(pages + [page]) == Flatten(pages) + page
  {
    FlattenAppend(pages, [page]);
    assert Flatten([page]) == page + Flatten([]);
  }

  /** A split with page size `count` is determined by what it flattens to:
      any sequence of pages that lays out `s` and obeys the page-size rules
      is exactly `Chunks(s, count)`. */
  lemma {:induction false} PagingUnique<T>(pages: seq<seq<T>>, s: seq<T>, count: int)
    requires count >= 1
    requires IsPaging(pages, count) && Flatten(pages) == s
    ensures pages == Chunks(s, count)
    decreases |pages|
  {
    if pages == [] {
    } else if |pages| == 1 {
      assert Flatten(pages[1..]) == [];
      assert s == pages[0];
    } else {
      var rest := pages[1..];
      assert |pages[0]| == count;
      assert forall k :: 0 <= k < |rest| ==> rest[k] == pages[k + 1];
      assert IsPaging(rest, count);
      assert Flatten(rest) == rest[0] + Flatten(rest[1..]);
      assert s == pages[0] + Flatten(rest);
      assert s[..count] == pages[0];
      assert s[count..] == Flatten(rest);
      PagingUnique(rest, s[count..], count);
    }
  }

  // Arithmetic helpers for the page count.
  lemma MulAtLeast(c: nat, d: nat)
    requires d >= 1
    ensures c * d >= c
    decreases d
  {
    if d > 1 {
      MulAtLeast(c, d - 1);
      assert c * d == c * (d - 1) + c;
    }
  }

  /** Euclidean division has one quotient: q is m / c whenever m == c * q + r
      with 0 <= r < c. */
  lemma DivUnique(m: int, c: int, q: int, r: int)
    requires c >= 1 && 0 <= r < c && m == c * q + r
    ensures m / c == q
  {
    var q', r' := m / c, m % c;
    assert m == c * q' + r' && 0 <= r' < c;
    if q' < q {
      assert c * (q - q') == c * q - c * q';
      MulAtLeast(c, q - q');
    } else if q' > q {
      assert c * (q' - q) == c * q' - c * q;
      MulAtLeast(c, q' - q);
    }
  }

  // A non-empty input of at most `count` items fills one page.
  lemma CeilDivOne(n: nat, count: int)
    requires 1 <= n <= count
    ensures CeilDiv(n, count) == 1
  {
    DivUnique(n + count - 1, count, 1, n - 1);
  }

  // Taking one full page off the front removes one from the count.
  lemma CeilDivStep(n: nat, count: int)
    requires 1 <= count < n
    ensures CeilDiv(n, count) == CeilDiv(n - count, count) + 1
  {
    var m := n - count + count - 1;
    DivUnique(m, count, m / count, m % count);
    DivUnique(m + count, count, m / count + 1, m % count);
  }

  /** The number of pages is the ceiling of the input length divided by
      the page size. */
  lemma {:induction false} ChunksCount<T>(s: seq<T>, count: int)
    requires count >= 1
    ensures |Chunks(s, count)| == CeilDiv(|s|, count)
    decreases |s|
  {
    if s == [] {
    } else if |s| <= count {
      CeilDivOne(|s|, count);
    } else {
      ChunksCount(s[count..], count);
      assert |Chunks(s, count)| == 1 + |Chunks(s[count..], count)|;
      CeilDivStep(|s|, count);
    }
  }

  /** Where page k (counted from 0) starts: after k full pages of
      `count` items. */
  function PageStart(count: int, k: nat): nat
    requires count >= 1
  {
    if k == 0 then 0 else PageStart(count, k - 1) + count
  }

  lemma {:induction false} PageStartIsProduct(count: int, k: nat)
    requires count >= 1
    ensures PageStart(count, k) == k * count
  {
    if k > 0 {
      PageStartIsProduct(count, k - 1);
      assert k * count == (k - 1) * count + count;
    }
  }

  /** Where page k ends: at the start of page k + 1, cut short at the end
      of the input. */
  function PageEnd(n: nat, count: int, k: nat): nat
    requires count >= 1
  {
    if PageStart(count, k + 1) <= n then PageStart(count, k + 1) else n
  }

  // Helpers for ChunksAt: page k of s is page k - 1 of s[count..],
  // shifted by `count`.
  lemma PageEndShift(n: nat, count: int, k: nat)
    requires 1 <= count < n && k >= 1
    ensures PageStart(count, k) == PageStart(count, k - 1) + count
    ensures PageEnd(n, count, k) == PageEnd(n - count, count, k - 1) + count
  {
    assert PageStart(count, k + 1) == PageStart(count, k) + count;
  }

  lemma FirstChunk<T>(s: seq<T>, count: int)
    requires count >= 1 && s != []
    ensures Chunks(s, count)[0] == s[..PageEnd(|s|, count, 0)]
  {
    assert PageStart(count, 1) == count;
  }

  lemma LaterChunk<T>(s: seq<T>, count: int, k: nat)
    requires count >= 1 && 1 <= k < |Chunks(s, count)|
    ensures |s| > count && |Chunks(s, count)| == |Chunks(s[count..], count)| + 1
    ensures Chunks(s, count)[k] == Chunks(s[count..], count)[k - 1]
  {
  }

  // The page and its bounds are passed in as the exact terms ChunksAt uses,
  // so that the solver need not match s[c + lo ..] against them itself.
  lemma DropSlice<T>(s: seq<T>, c: nat, lo: nat, hi: nat, page: seq<T>, b: nat, e: nat)
    requires c <= |s| && lo <= hi <= |s| - c
    requires page == s[c..][lo..hi] && b == c + lo && e == c + hi
    ensures page == s[b..e]
  {
  }

  /** Page k of the split (counted from 0) is the run of `count` items
      starting at PageStart(count, k), cut short at the end of the input. */
  lemma {:induction false} ChunksAt<T>(s: seq<T>, count: int, k: nat)
    requires count >= 1 && k < |Chunks(s, count)|
    ensures PageStart(count, k) < PageEnd(|s|, count, k) <= |s|
    ensures Chunks(s, count)[k] == s[PageStart(count, k) .. PageEnd(|s|, count, k)]
    decreases k
  {
    if k == 0 {
      FirstChunk(s, count);
    } else {
      LaterChunk(s, count, k);
      var tail := s[count..];
      assert |tail| == |s| - count;
      ChunksAt(tail, count, k - 1);
      PageEndShift(|s|, count, k);
      var lo, hi := PageStart(count, k - 1), PageEnd(|tail|, count, k - 1);
      DropSlice(s, count, lo, hi, Chunks(s, count)[k], PageStart(count, k), PageEnd(|s|, count, k));
    }
  }

  /** The example in the doc comment of `paginate`. */
  lemma PaginateDocExample()
    ensures Chunks([1, 2, 3, 4, 5], 2) == [[1, 2], [3, 4], [5]]
  {
    assert Chunks([5], 2) == [[5]];
    assert [3, 4, 5][..2] == [3, 4] && [3, 4, 5][2..] == [5];
    assert Chunks([3, 4, 5], 2) == [[3, 4], [5]];
    assert [1, 2, 3, 4, 5][..2] == [1, 2] && [1, 2, 3, 4, 5][2..] == [3, 4, 5];
  }

  /** `paginate(array, count, debug, logger)`: walk the items once, fill a
      buffer, push the buffer out when it is full and push out a non-empty
      remainder at the end. The `debug` flag only switches on calls of the
      logger callback, which is not part of this model; the result does
      not depend on it. As in the source, `count` defaults to 100 and
      `debug` to false. */
  method Paginate<T>(items: seq<T>, count: int := 100, debug: bool := false) returns (paginated: seq<seq<T>>)
    requires count >= 1
    ensures paginated == Chunks(items, count)
    ensures Flatten(paginated) == items && IsPaging(paginated, count)
    ensures |paginated| == CeilDiv(|items|, count)
  {
    paginated := [];
    var temp: seq<T> := [];
    for i := 0 to |items|
      invariant |temp| <= count && |temp| <= i
      invariant Flatten(paginated) == items[..i - |temp|]
      invariant temp == items[i - |temp| .. i]
      invariant forall k :: 0 <= k < |paginated| ==> |paginated[k]| == count
      invariant i > 0 ==> temp != []
    {
      if |temp| == count {
        FlattenSnoc(paginated, temp);
        assert items[..i - count] + items[i - count .. i] == items[..i];
        paginated := paginated + [temp];
        temp := [];
      }
      temp := temp + [items[i]];
    }
    assert Flatten(paginated) + temp == items;
    FinalFlush(paginated, temp, items, count);
    if |temp| > 0 {
      paginated := paginated + [temp];
    }
  }

  /** The state after the loop of `paginate`: full pages followed by a
      buffer that is non-empty unless there were no items. Pushing out a
      non-empty buffer completes the split. */
  lemma FinalFlush<T>(full: seq<seq<T>>, temp: seq<T>, items: seq<T>, count: int)
    requires count >= 1
    requires Flatten(full) + temp == items
    requires forall k :: 0 <= k < |full| ==> |full[k]| == count
    requires |temp| <= count
    requires items != [] ==> temp != []
    ensures var pages := if |temp| > 0 then full + [temp] else full;
      Flatten(pages) == items && IsPaging(pages, count) &&
      |pages| == CeilDiv(|items|, count) && pages == Chunks(items, count)
  {
    var pages := if |temp| > 0 then full + [temp] else full;
    if |temp| > 0 {
      FlattenSnoc(full, temp);
    }
    assert IsPaging(pages, count);
    PagingUnique(pages, items, count);
    ChunksCount(items, count);
  }

  // ---------------------------------------------------------------------
  // Usage counters
  // ---------------------------------------------------------------------

  /** `science.get(metric, 0)`: the stored count, or 0 for a metric that
      was never recorded. */
  function CountOf(counts: map<string, int>, metric: string): int
  {
    if metric in counts then counts[metric] else 0
  }

  /** The counters after one event of `metric`: its count goes up by one
      (a new metric starts at 1) and every other metric keeps its key and
      its count. */
  function Incremented(counts: map<string, int>, metric: string): (r: map<string, int>)
    ensures r.Keys == counts.Keys + {metric}
    ensures r[metric] == CountOf(counts, metric) + 1
    ensures metric !in counts ==> r[metric] == 1
    ensures forall k :: k in counts && k != metric ==> r[k] == counts[k]
  {
    counts[metric := CountOf(counts, metric) + 1]
  }

  /** The contents of temp/science.json, as `science` holds them between
      loading and saving. */
  class ScienceCounters {
    var counts: map<string, int>

    constructor (stored: map<string, int>)
      ensures counts == stored
    {
      counts := stored;
    }

    /** The `update` step of `science(metric)`, done in place. */
    method Science(metric: string)
      modifies this
      ensures counts == Incremented(old(counts), metric)
      ensures CountOf(counts, metric) == CountOf(old(counts), metric) + 1
    {
      counts := counts[metric := CountOf(counts, metric) + 1];
    }
  }
}
