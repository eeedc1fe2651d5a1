/** Ordering records fastest first, as `to_markdown` does with
    `std::sort(..., std::greater<performance_metrics>{})`. That sort is not
    stable, so only the outcome's ordering and its being a permutation are
    promised; the insertion sort here is one admissible outcome. */
module Ranking {
  import opened Metrics

  /** Throughput never increases along the sequence. */
  predicate NonIncreasing(ms: seq<Metric>) {
    forall i, j :: 0 <= i < j < |ms| ==> ms[i].throughput >= ms[j].throughput
  }

  /** `order` is a fastest-first rearrangement of `ms`. */
  predicate FastestFirst(order: seq<Metric>, ms: seq<Metric>) {
    multiset(order) == multiset(ms) && NonIncreasing(order)
  }

  /** Place `m` into a fastest-first sequence, ahead of every record it is not slower than. */
  function Insert(m: Metric, sorted: seq<Metric>): (r: seq<Metric>)
    ensures multiset(r) == multiset(sorted) + multiset{m}
  {
    if |sorted| == 0 || m.throughput >= sorted[0].throughput then [m] + sorted
    else
      assert sorted == [sorted[0]] + sorted[1..];
      [sorted[0]] + Insert(m, sorted[1..])
  }

  /** Inserting keeps a fastest-first sequence fastest first. */
  lemma {:induction false} InsertKeepsOrder(m: Metric, sorted: seq<Metric>)
    requires NonIncreasing(sorted)
    ensures NonIncreasing(Insert(m, sorted))
  {
    var r := Insert(m, sorted);
    if |sorted| == 0 || m.throughput >= sorted[0].throughput {
      assert r == [m] + sorted;
      forall i, j | 0 <= i < j < |r| ensures r[i].throughput >= r[j].throughput {
        assert r[j] == sorted[j - 1];
        if i > 0 {
          assert r[i] == sorted[i - 1];
        }
      }
    } else {
      var tail := sorted[1..];
      var rest := Insert(m, tail);
      assert r == [sorted[0]] + rest;
      assert NonIncreasing(tail);
      InsertKeepsOrder(m, tail);
      forall j | 0 <= j < |rest| ensures sorted[0].throughput >= rest[j].throughput {
        var x := rest[j];
        assert x in multiset(rest);
        if x != m {
          assert x in multiset(tail);
          var k :| 0 <= k < |tail| && tail[k] == x;
          assert sorted[k + 1] == x;
        }
      }
      forall i, j | 0 <= i < j < |r| ensures r[i].throughput >= r[j].throughput {
        assert r[j] == rest[j - 1];
        if i > 0 {
          assert r[i] == rest[i - 1];
        }
      }
    }
  }

  /** Records ordered fastest first. */
  function SortFastestFirst(ms: seq<Metric>): (r: seq<Metric>)
    ensures FastestFirst(r, ms)
  {
    if |ms| == 0 then []
    else
      var rest := SortFastestFirst(ms[1..]);
      InsertKeepsOrder(ms[0], rest);
      assert ms == [ms[0]] + ms[1..];
      Insert(ms[0], rest)
  }

  /** A permutation keeps the length. */
  lemma FastestFirstLength(order: seq<Metric>, ms: seq<Metric>)
    requires FastestFirst(order, ms)
    ensures |order| == |ms|
  {
    assert |multiset(order)| == |multiset(ms)|;
  }

  /** The first record of a fastest-first order is at least as fast as every record. */
  lemma {:induction false} FirstIsFastest(order: seq<Metric>, ms: seq<Metric>, m: Metric)
    requires FastestFirst(order, ms) && m in ms
    ensures |order| > 0 && order[0].throughput >= m.throughput
  {
    assert m in multiset(ms);
    assert m in multiset(order);
    var k :| 0 <= k < |order| && order[k] == m;
    if k > 0 {
      assert order[0].throughput >= order[k].throughput;
    }
  }
}
