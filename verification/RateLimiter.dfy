/** The sliding-window rate limiter of the attestation server, against one that forgets nothing. */
module RateLimiter {

  /** The grants in `g` less than `window` before `now`. */
  function Recent(g: seq<nat>, window: nat, now: nat): (r: seq<nat>)
    ensures |r| <= |g|
  {
    if g == [] then []
    else
      var front, last := Recent(g[..|g| - 1], window, now), g[|g| - 1];
      if now - last < window then front + [last] else front
  }

  /** The grants of a limiter that remembers every past grant, for calls at the given times. */
  function Grants(max: nat, window: nat, calls: seq<nat>): seq<nat> {
    if calls == [] then []
    else
      var past, now := Grants(max, window, calls[..|calls| - 1]), calls[|calls| - 1];
      if |Recent(past, window, now)| < max then past + [now] else past
  }

  /** How many of `g` fall in the interval from `start`, `length` long. */
  function CountIn(g: seq<nat>, start: int, length: nat): nat {
    if g == [] then 0
    else
      var last := g[|g| - 1];
      CountIn(g[..|g| - 1], start, length) + if start <= last < start + length then 1 else 0
  }

  ghost predicate NonDecreasing(s: seq<nat>) {
    forall i, j :: 0 <= i <= j < |s| ==> s[i] <= s[j]
  }

  lemma {:induction false} RecentTwice(g: seq<nat>, window: nat, before: nat, now: nat)
    requires before <= now
    ensures Recent(Recent(g, window, before), window, now) == Recent(g, window, now)
  {
    if g != [] {
      var front, last := g[..|g| - 1], g[|g| - 1];
      RecentTwice(front, window, before, now);
      if before - last < window {
        assert (Recent(front, window, before) + [last])[..|Recent(front, window, before)|] ==
               Recent(front, window, before);
      }
    }
  }

  /** Two lists of grants that no call at or after `from` can tell apart. */
  ghost predicate Interchangeable(a: seq<nat>, b: seq<nat>, window: nat, from: nat) {
    forall now :: from <= now ==> Recent(a, window, now) == Recent(b, window, now)
  }

  function Latest(calls: seq<nat>): nat {
    if calls == [] then 0 else calls[|calls| - 1]
  }

  lemma PrunedInterchangeable(g: seq<nat>, window: nat, from: nat)
    ensures Interchangeable(Recent(g, window, from), g, window, from)
  {
    hide Recent;
    forall now | from <= now ensures Recent(Recent(g, window, from), window, now) == Recent(g, window, now) {
      RecentTwice(g, window, from, now);
    }
  }

  lemma BothExtended(a: seq<nat>, b: seq<nat>, window: nat, from: nat, x: nat)
    requires Interchangeable(a, b, window, from)
    ensures Interchangeable(a + [x], b + [x], window, from)
  {
    assert (a + [x])[..|a|] == a && (b + [x])[..|b|] == b;
  }

  lemma {:induction false} GrantsBounded(max: nat, window: nat, calls: seq<nat>, bound: nat)
    requires forall i :: 0 <= i < |calls| ==> calls[i] <= bound
    ensures forall i :: 0 <= i < |Grants(max, window, calls)| ==> Grants(max, window, calls)[i] <= bound
  {
    if calls != [] {
      GrantsBounded(max, window, calls[..|calls| - 1], bound);
    }
  }

  /** Every grant of an interval no longer than the window that reaches past `now` is recent at `now`. */
  lemma {:induction false} CountRecent(g: seq<nat>, window: nat, start: int, now: nat)
    requires start <= now < start + window
    ensures CountIn(g, start, window) <= |Recent(g, window, now)|
  {
    if g != [] {
      CountRecent(g[..|g| - 1], window, start, now);
    }
  }

  /** The recent grants are those of the window that ends with `now`. */
  lemma {:induction false} RecentCounts(g: seq<nat>, window: nat, now: nat)
    requires forall i :: 0 <= i < |g| ==> g[i] <= now
    ensures |Recent(g, window, now)| == CountIn(g, now - window + 1, window)
  {
    if g != [] {
      RecentCounts(g[..|g| - 1], window, now);
    }
  }

  /** No interval of the configured length, wherever it starts, holds more than `max` grants. */
  lemma {:induction false} NoWindowExceeds(max: nat, window: nat, calls: seq<nat>, start: int)
    ensures CountIn(Grants(max, window, calls), start, window) <= max
  {
    if calls != [] {
      var past, now := Grants(max, window, calls[..|calls| - 1]), calls[|calls| - 1];
      NoWindowExceeds(max, window, calls[..|calls| - 1], start);
      if |Recent(past, window, now)| < max {
        assert (past + [now])[..|past|] == past;
        if start <= now < start + window {
          CountRecent(past, window, start, now);
        }
      }
    }
  }

  /** A call is refused exactly when the window that ends with it already holds `max` grants. */
  lemma RefusedWhenFull(max: nat, window: nat, calls: seq<nat>, now: nat)
    requires NonDecreasing(calls + [now])
    ensures Grants(max, window, calls + [now]) == Grants(max, window, calls) <==>
            CountIn(Grants(max, window, calls), now - window + 1, window) == max
  {
    hide CountIn, Recent;
    var all := calls + [now];
    forall i | 0 <= i < |calls| ensures calls[i] <= now {
      assert all[i] <= all[|calls|];
    }
    GrantsBounded(max, window, calls, now);
    RecentCounts(Grants(max, window, calls), window, now);
    NoWindowExceeds(max, window, calls, now - window + 1);
    assert all[..|calls|] == calls;
  }

  class Limiter {
    const maxRequests: nat
    const window: nat
    var timestamps: seq<nat>
    ghost var calls: seq<nat>

    /** From the latest call on, the kept list counts like the full history. */
    ghost predicate Valid()
      reads this
    {
      && NonDecreasing(calls)
      && Interchangeable(timestamps, Grants(maxRequests, window, calls), window, Latest(calls))
    }

    constructor (maxRequests: nat, window: nat)
      ensures Valid() && calls == []
      ensures this.maxRequests == maxRequests && this.window == window
    {
      this.maxRequests, this.window := maxRequests, window;
      timestamps, calls := [], [];
    }

    /** Drops, in order, the timestamps that have left the window. */
    method Prune(now: nat)
      modifies this`timestamps
      ensures timestamps == Recent(old(timestamps), window, now)
    {
      ghost var all := timestamps;
      var kept: seq<nat> := [];
      for i := 0 to |timestamps|
        invariant timestamps == all && kept == Recent(all[..i], window, now)
      {
        assert all[..i + 1][..i] == all[..i];
        if now - timestamps[i] < window {
          kept := kept + [timestamps[i]];
        }
      }
      assert all[..|all|] == all;
      timestamps := kept;
    }

    /** Answers as the limiter with the full history would, at every point of every run. */
    method Allow(now: nat) returns (granted: bool)
      requires Valid() && Latest(calls) <= now
      modifies this
      ensures Valid() && calls == old(calls) + [now]
      ensures granted <==> Grants(maxRequests, window, calls) == Grants(maxRequests, window, old(calls)) + [now]
      ensures !granted <==> CountIn(Grants(maxRequests, window, old(calls)), now - window + 1, window) == maxRequests
    {
      ghost var grants, before := Grants(maxRequests, window, calls), calls;
      Prune(now);
      PrunedInterchangeable(grants, window, now);
      calls := calls + [now];
      assert calls[..|before|] == before;
      RefusedWhenFull(maxRequests, window, before, now);
      granted := |timestamps| < maxRequests;
      if granted {
        BothExtended(timestamps, grants, window, now, now);
        timestamps := timestamps + [now];
      }
    }
  }
}
