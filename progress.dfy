/** The integer part of `progress_reporter`: it sums the increments taken off
    the progress queue while the running total is below the batch size, and
    stops early at the sentinel. Elapsed time, throughput and ETA are floating
    point display values and are not modelled. */
module Progress {
  import opened Fifo

  /** The value of `processed` when the reporter's loop ends, having started
      at `processed` with the increments `counts` still to come. */
  function Consume(counts: seq<int>, processed: int, total: int): int
    decreases |counts|
  {
    if processed >= total || counts == [] then processed
    else Consume(counts[1..], processed + counts[0], total)
  }

  /** `n` increments of one, as every script puts them. */
  function Ticks(n: nat): (s: seq<int>)
    ensures |s| == n
    ensures forall k :: 0 <= k < n ==> s[k] == 1
  {
    seq(n, _ => 1)
  }

  /** The reporter loop over the progress queue for a batch of `total` users. */
  method ProgressReporter(queue: seq<Item<int>>, total: int) returns (processed: int)
    ensures processed == Consume(Pending(queue), 0, total)
  {
    processed := 0;
    var i := 0;
    while processed < total && i < |queue| && queue[i].Job?
      invariant 0 <= i <= |queue|
      invariant Consume(Pending(queue), 0, total) == Consume(Pending(queue[i..]), processed, total)
      decreases |queue| - i
    {
      assert queue[i..][1..] == queue[i + 1..];
      processed := processed + queue[i].job;
      i := i + 1;
    }
  }

  /** Counting unit increments: the reporter ends at the batch size or at the
      number of increments, whichever is smaller. */
  lemma {:induction false} CountTicks(n: nat, processed: int, total: int)
    ensures Consume(Ticks(n), processed, total)
         == if processed >= total then processed
            else if processed + n <= total then processed + n
            else total
  {
    if processed < total && n > 0 {
      assert Ticks(n)[1..] == Ticks(n - 1);
      CountTicks(n - 1, processed + 1, total);
    }
  }

  /** The reporter never counts past the batch size nor past the increments it received. */
  lemma TicksBounded(n: nat, total: nat)
    ensures 0 <= Consume(Ticks(n), 0, total) <= n
    ensures Consume(Ticks(n), 0, total) <= total
    ensures n <= total ==> Consume(Ticks(n), 0, total) == n
  {
    CountTicks(n, 0, total);
  }

  function Min(a: int, b: int): int {
    if a < b then a else b
  }

  /** The progress queue of a single-category run. There the writer thread
      itself puts one increment per row it writes, while the main thread puts
      the sentinel as soon as every fetch task is done, without waiting for
      the writer: the sentinel lands after the first `early` increments, and
      the increments behind it are never read. */
  function RacedQueue(updated: nat, early: nat): seq<Item<int>> {
    var k := Min(early, updated);
    Wrap(Ticks(k)) + [Stop] + Wrap(Ticks(updated - k))
  }

  /** The reporter of a single-category run counts the increments that beat
      the sentinel, capped at the batch size. */
  lemma RacedCount(updated: nat, early: nat, total: nat)
    ensures Consume(Pending(RacedQueue(updated, early)), 0, total) == Min(Min(early, updated), total)
  {
    var k := Min(early, updated);
    WrappedPending(Ticks(k), Wrap(Ticks(updated - k)));
    CountTicks(k, 0, total);
  }
}
