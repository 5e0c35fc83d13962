/** The single-consumer queues of the refresh scripts. Each queue has exactly
    one consumer thread, which takes items in arrival order and stops at the
    `None` sentinel, so what it sees is a sequence drained from the front. */
module Fifo {

  /** A queue slot: a job, or the `None` sentinel that tells the consumer to stop. */
  datatype Item<J> = Job(job: J) | Stop

  /** The jobs a consumer takes off `q` before it meets the first sentinel
      (all of them when the queue holds none). */
  function Pending<J>(q: seq<Item<J>>): (r: seq<J>)
    ensures |r| <= |q|
    ensures forall k :: 0 <= k < |r| ==> q[k] == Job(r[k])
    ensures |r| < |q| ==> q[|r|] == Stop
  {
    if q == [] || q[0].Stop? then [] else [q[0].job] + Pending(q[1..])
  }

  /** The queue items `put` for the jobs `js`, in order. */
  function Wrap<J>(js: seq<J>): (q: seq<Item<J>>)
    ensures |q| == |js|
    ensures forall k :: 0 <= k < |js| ==> q[k] == Job(js[k])
  {
    seq(|js|, k requires 0 <= k < |js| => Job(js[k]))
  }

  /** A consumer that has taken `i` jobs and finds a job in slot `i` takes
      it as its next pending job... */
  lemma PendingAt<J>(q: seq<Item<J>>, i: nat)
    requires i <= |Pending(q)|
    requires i < |q| && q[i].Job?
    ensures i < |Pending(q)| && Pending(q)[i] == q[i].job
  {
  }

  /** ... and one that finds the sentinel or the end there has taken them all. */
  lemma PendingDone<J>(q: seq<Item<J>>, i: nat)
    requires i <= |Pending(q)|
    requires !(i < |q| && q[i].Job?)
    ensures i == |Pending(q)|
  {
  }

  /** Once a sentinel is in the queue, nothing enqueued after it is ever consumed. */
  lemma {:induction false} NothingAfterStop<J>(q: seq<Item<J>>, later: seq<Item<J>>)
    requires Stop in q
    ensures Pending(q + later) == Pending(q)
  {
    if q[0].Job? {
      assert (q + later)[1..] == q[1..] + later;
      NothingAfterStop(q[1..], later);
    }
  }

  /** A producer side that enqueues `js` and then the sentinel hands the
      consumer exactly `js`, in order, whatever follows the sentinel. */
  lemma {:induction false} WrappedPending<J>(js: seq<J>, later: seq<Item<J>>)
    ensures Pending(Wrap(js) + [Stop] + later) == js
  {
    var q := Wrap(js) + [Stop] + later;
    if js != [] {
      assert q[1..] == Wrap(js[1..]) + [Stop] + later;
      WrappedPending(js[1..], later);
      assert js == [js[0]] + js[1..];
    }
  }

  /** A prefix one longer is the shorter prefix and the next element. */
  lemma PrefixSnoc<T>(s: seq<T>, i: nat)
    requires i < |s|
    ensures s[..i + 1] == s[..i] + [s[i]]
  {
  }

  /** The queue a producer leaves after putting every job of `js`, in order,
      and then the sentinel: its consumer takes exactly `js`. */
  function Submitted<J>(js: seq<J>): (q: seq<Item<J>>)
    ensures Pending(q) == js
  {
    WrappedPending(js, []);
    assert Wrap(js) + [Stop] + [] == Wrap(js) + [Stop];
    Wrap(js) + [Stop]
  }

  lemma WrapAppend<J>(a: seq<J>, b: seq<J>)
    ensures Wrap(a + b) == Wrap(a) + Wrap(b)
  {
  }
}
