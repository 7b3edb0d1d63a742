/** When the transaction signer asks for the next transaction: every `interval` blocks (src/tx_signer.rs). */
module BlockScheduler {
  import opened Base

  predicate IsMultiple(m: int, n: nat) {
    n > 0 && m % n == 0
  }

  /** `m` is the smallest multiple of `n` strictly above `h`. */
  ghost predicate LeastMultipleAbove(m: int, n: nat, h: int) {
    IsMultiple(m, n) && h < m && forall x :: IsMultiple(x, n) && h < x ==> m <= x
  }

  lemma {:induction false} MulMono(a: int, b: int, n: nat)
    requires a <= b
    ensures a * n <= b * n
  {
    if n > 0 {
      MulMono(a, b, n - 1);
      assert a * n == a * (n - 1) + a && b * n == b * (n - 1) + b;
    }
  }

  lemma Multiple(k: int, n: nat)
    requires n > 0
    ensures IsMultiple(k * n, n)
  {
    var x := k * n;
    var q, r := x / n, x % n;
    assert x == q * n + r;
    assert (q + 1) * n == q * n + n;
    if q < k {
      MulMono(q + 1, k, n);
    } else {
      MulMono(k, q, n);
    }
  }

  lemma RoundedUp(h: nat, n: nat)
    requires n > 0
    ensures LeastMultipleAbove(h - h % n + n, n, h)
  {
    var q := h / n;
    assert h == q * n + h % n;
    assert (q + 1) * n == q * n + n;
    Multiple(q + 1, n);
    forall x | IsMultiple(x, n) && h < x ensures (q + 1) * n <= x {
      var k := x / n;
      assert x == k * n + x % n;
      if k <= q {
        MulMono(k, q, n);
      } else {
        MulMono(q + 1, k, n);
      }
    }
  }

  /** `next_block_after`; `None` stands for the panics on a zero interval and on overflow. */
  function NextBlockAfter(height: u64, interval: u64): (r: Option<u64>)
    ensures r.Some? ==> LeastMultipleAbove(r.value, interval, height) && r.value <= height + interval
    ensures r.None? <==> interval == 0 || height - height % interval + interval >= TWO_64
  {
    if interval == 0 then None
    else
      RoundedUp(height, interval);
      var next := height - height % interval + interval;
      if next < TWO_64 then Some(next) else None
  }

  /** Heights on both sides of a multiple lie in different windows. */
  lemma DifferentWindows(a: nat, target: nat, b: nat, n: nat)
    requires IsMultiple(target, n) && a < target <= b
    ensures a / n < b / n
  {
    var q := target / n;
    assert target == q * n + target % n;
    assert a == (a / n) * n + a % n;
    assert b == (b / n) * n + b % n;
    assert (b / n + 1) * n == (b / n) * n + n;
    if q <= a / n {
      MulMono(q, a / n, n);
    }
    if b / n < q {
      MulMono(b / n + 1, q, n);
    }
  }

  /** Up to the next multiple one stays in the same window. */
  lemma SameWindow(a: nat, b: nat, next: nat, n: nat)
    requires LeastMultipleAbove(next, n, a) && a <= b < next
    ensures a / n == b / n
  {
    var q := a / n;
    assert a == q * n + a % n;
    assert (q + 1) * n == q * n + n;
    Multiple(q + 1, n);
    assert next <= (q + 1) * n;
    assert b == (b / n) * n + b % n;
    assert (b / n + 1) * n == (b / n) * n + n;
    if b / n > q {
      MulMono(q + 1, b / n, n);
    } else if b / n < q {
      MulMono(b / n + 1, q, n);
    }
  }

  // ---------------------------------------------------------------- the polling loops

  /** What the node answers to successive status requests. */
  datatype Status = Height(height: u64) | RpcError

  /** The node never reports a lower height than before. */
  ghost predicate NonDecreasing(feed: seq<Status>) {
    forall i, j :: 0 <= i < j < |feed| && feed[i].Height? && feed[j].Height? ==> feed[i].height <= feed[j].height
  }

  datatype Wait = Reached(height: u64) | OutOfSync(height: u64) | Failed | StillWaiting

  /** A height that is not there yet, but not more than an interval away either. */
  predicate Waits(status: Status, target: u64, interval: u64) {
    status.Height? && status.height < target && target - status.height <= interval
  }

  /** `wait_until_block_height`, reading the feed from `start`; `next` is where it stopped. */
  method WaitUntilBlockHeight(target: u64, interval: u64, feed: seq<Status>, start: nat) returns (w: Wait, next: nat)
    requires start <= |feed|
    ensures start <= next <= |feed|
    ensures w.StillWaiting? <==> next == |feed| && forall i :: start <= i < |feed| ==> Waits(feed[i], target, interval)
    ensures !w.StillWaiting? ==> start < next
    ensures w.Failed? ==> feed[next - 1] == RpcError
    ensures w.Reached? ==> feed[next - 1] == Height(w.height) && target <= w.height
    ensures w.OutOfSync? ==> feed[next - 1] == Height(w.height) && w.height + interval < target
    ensures forall i :: start <= i < next - 1 ==> Waits(feed[i], target, interval)
  {
    next := start;
    while next < |feed|
      invariant start <= next <= |feed|
      invariant forall i :: start <= i < next ==> Waits(feed[i], target, interval)
    {
      var status := feed[next];
      next := next + 1;
      if status.RpcError? {
        return Failed, next;
      }
      if status.height >= target {
        return Reached(status.height), next;
      } else if target - status.height > interval {
        return OutOfSync(status.height), next;
      }
    }
    w := StillWaiting;
  }

  /** A transaction request that was made: the height waited for and the height it was made at. */
  datatype Request = Request(target: u64, height: u64)

  /** Requests are due, each target is past the previous request, and no window is served twice. */
  ghost predicate Schedule(requests: seq<Request>, interval: u64) {
    && (forall i :: 0 <= i < |requests| ==>
          IsMultiple(requests[i].target, interval) && requests[i].target <= requests[i].height)
    && (forall i, j :: 0 <= i < j < |requests| ==> requests[i].height < requests[j].target)
  }

  /** The window of this height is the one the signer started in, or had a request. */
  ghost predicate Served(requests: seq<Request>, interval: u64, first: u64, height: u64) {
    interval > 0 &&
    (first / interval == height / interval ||
     exists j :: 0 <= j < |requests| && requests[j].height / interval == height / interval)
  }

  lemma ServedStays(requests: seq<Request>, r: Request, interval: u64, first: u64, height: u64)
    requires Served(requests, interval, first, height)
    ensures Served(requests + [r], interval, first, height)
  {
    if first / interval != height / interval {
      var j :| 0 <= j < |requests| && requests[j].height / interval == height / interval;
      assert (requests + [r])[j] == requests[j];
    }
  }

  /** The status answers from `start` up to `pos` have had their windows served. */
  ghost predicate AllServed(requests: seq<Request>, interval: u64, first: u64, feed: seq<Status>, start: nat, pos: nat)
    requires pos <= |feed|
  {
    forall i :: start <= i < pos && feed[i].Height? ==> Served(requests, interval, first, feed[i].height)
  }

  /** Where `run` stands: what it has asked for so far and what it has seen up to `pos`. */
  ghost predicate OnTrack(requests: seq<Request>, interval: u64, first: u64, seen: u64,
                          feed: seq<Status>, start: nat, pos: nat)
    requires pos <= |feed|
  {
    && Schedule(requests, interval)
    && (forall i :: 0 <= i < |requests| ==> requests[i].height <= seen)
    && Served(requests, interval, first, seen)
    && AllServed(requests, interval, first, feed, start, pos)
  }

  /** Heights that do not reach the target stay in the window last served. */
  lemma WaitingStaysOnTrack(requests: seq<Request>, interval: u64, first: u64, seen: u64, target: u64,
                            feed: seq<Status>, start: nat, pos: nat, stop: nat)
    requires start <= pos <= stop <= |feed| && OnTrack(requests, interval, first, seen, feed, start, pos)
    requires LeastMultipleAbove(target, interval, seen)
    requires forall i :: pos <= i < stop && feed[i].Height? ==> seen <= feed[i].height < target
    ensures OnTrack(requests, interval, first, seen, feed, start, stop)
  {
    forall i | start <= i < stop && feed[i].Height? ensures Served(requests, interval, first, feed[i].height) {
      if pos <= i {
        SameWindow(seen, feed[i].height, target, interval);
      }
    }
  }

  /** A request at the height that reached the target serves the window of that height. */
  lemma RequestStaysOnTrack(requests: seq<Request>, interval: u64, first: u64, seen: u64, target: u64, height: u64,
                            feed: seq<Status>, start: nat, pos: nat)
    requires start <= pos < |feed| && OnTrack(requests, interval, first, seen, feed, start, pos)
    requires LeastMultipleAbove(target, interval, seen) && target <= height && feed[pos] == Height(height)
    ensures OnTrack(requests + [Request(target, height)], interval, first, height, feed, start, pos + 1)
  {
    var r := Request(target, height);
    var requests' := requests + [r];
    assert requests'[|requests|] == r;
    assert Served(requests', interval, first, height);
    forall i | start <= i < pos + 1 && feed[i].Height? ensures Served(requests', interval, first, feed[i].height) {
      if i < pos {
        ServedStays(requests, r, interval, first, feed[i].height);
      }
    }
  }

  /** What the end of a wait means when heights never go back. */
  lemma WaitStaysOnTrack(requests: seq<Request>, interval: u64, first: u64, seen: u64, target: u64,
                         feed: seq<Status>, start: nat, at: nat, pos: nat, wait: Wait, stop: nat)
    requires NonDecreasing(feed) && start <= at < pos < stop <= |feed| && feed[at] == Height(seen)
    requires OnTrack(requests, interval, first, seen, feed, start, pos) && LeastMultipleAbove(target, interval, seen)
    requires target <= seen + interval && forall i :: pos <= i < stop - 1 ==> Waits(feed[i], target, interval)
    requires match wait {
               case Reached(height) => feed[stop - 1] == Height(height) && target <= height
               case OutOfSync(height) => feed[stop - 1] == Height(height) && height + interval < target
               case Failed => feed[stop - 1] == RpcError
               case StillWaiting => Waits(feed[stop - 1], target, interval)
             }
    ensures !wait.OutOfSync?
    ensures if wait.Reached? then
              OnTrack(requests + [Request(target, wait.height)], interval, first, wait.height, feed, start, stop)
            else
              OnTrack(requests, interval, first, seen, feed, start, stop)
  {
    if wait.Reached? {
      WaitingStaysOnTrack(requests, interval, first, seen, target, feed, start, pos, stop - 1);
      RequestStaysOnTrack(requests, interval, first, seen, target, wait.height, feed, start, stop - 1);
    } else {
      WaitingStaysOnTrack(requests, interval, first, seen, target, feed, start, pos, stop);
    }
  }

  /** The first status answer, if there is one. */
  method FirstHeight(feed: seq<Status>) returns (pos: nat)
    ensures pos <= |feed|
    ensures forall i :: 0 <= i < pos ==> feed[i].RpcError?
    ensures pos < |feed| ==> feed[pos].Height?
  {
    pos := 0;
    while pos < |feed| && feed[pos].RpcError?
      invariant pos <= |feed|
      invariant forall i :: 0 <= i < pos ==> feed[i].RpcError?
    {
      pos := pos + 1;
    }
  }

  /**
   * `run`, over any finite stretch of what the node answers. If the reported heights never go back,
   * the out-of-sync branch is not taken, the requests form a schedule, and no observed window after
   * the first is missed, unless computing the next target panics, which it does before the request
   * is made.
   */
  method Run(interval: u64, feed: seq<Status>) returns (requests: seq<Request>, outOfSync: bool, panicked: bool)
    ensures NonDecreasing(feed) ==> !outOfSync && Schedule(requests, interval)
    ensures forall i :: 0 <= i < |requests| ==> Height(requests[i].height) in feed
    ensures NonDecreasing(feed) && !panicked ==>
              exists start :: 0 <= start <= |feed| && (forall i :: 0 <= i < start ==> feed[i].RpcError?) &&
                (start < |feed| ==>
                   feed[start].Height? && AllServed(requests, interval, feed[start].height, feed, start, |feed|))
    ensures panicked ==> interval == 0 || exists h: u64 :: Height(h) in feed && NextBlockAfter(h, interval).None?
    ensures forall i :: 0 <= i < |requests| ==> NextBlockAfter(requests[i].height, interval).Some?
  {
    requests := [];
    outOfSync := false;
    var pos := FirstHeight(feed);
    ghost var start := pos;
    if pos == |feed| {
      panicked := false;
      return;
    }
    ghost var first: u64 := feed[pos].height;
    ghost var at := pos;
    var seen: u64 := feed[pos].height;
    var next: Option<u64> := NextBlockAfter(seen, interval);
    pos := pos + 1;
    while pos < |feed| && next.Some?
      invariant 0 <= start <= at < pos <= |feed| && feed[at] == Height(seen)
      invariant next == NextBlockAfter(seen, interval)
      invariant interval == 0 ==> requests == [] && !outOfSync
      invariant NonDecreasing(feed) && interval > 0 ==>
                  !outOfSync && OnTrack(requests, interval, first, seen, feed, start, pos)
      invariant forall i :: 0 <= i < |requests| ==> Height(requests[i].height) in feed
      invariant forall i :: 0 <= i < |requests| ==> NextBlockAfter(requests[i].height, interval).Some?
      decreases |feed| - pos
    {
      var wait, stop := WaitUntilBlockHeight(next.value, interval, feed, pos);
      var due := wait.Reached? || wait.OutOfSync?;
      if NonDecreasing(feed) {
        WaitStaysOnTrack(requests, interval, first, seen, next.value, feed, start, at, pos, wait, stop);
      }
      pos := stop;
      if due {
        outOfSync := outOfSync || wait.OutOfSync?;
        var following := NextBlockAfter(wait.height, interval);
        if following.None? {
          assert Height(wait.height) in feed;
          panicked := true;
          return;
        }
        requests := requests + [Request(next.value, wait.height)];
        seen := wait.height;
        at := stop - 1;
        next := following;
      }
    }
    panicked := next.None?;
    assert Height(seen) in feed;
  }

  /** In a schedule the targets strictly increase and every interval window holds at most one request. */
  lemma OneRequestPerWindow(requests: seq<Request>, interval: u64, i: nat, j: nat)
    requires Schedule(requests, interval) && i < j < |requests|
    ensures requests[i].target < requests[j].target
    ensures requests[i].height / interval < requests[j].height / interval
  {
    DifferentWindows(requests[i].height, requests[j].target, requests[j].height, interval);
  }
}
