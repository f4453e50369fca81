/**
 * The timestamp ledger of the rate limiter, as values: the deque of admission
 * instants, what trimming leaves of it, and the history of all admissions from
 * which the "at most `limit` admissions in any window" guarantee is stated.
 */
module Ledger {

  /** The entries of `s` never decrease from head to tail. */
  predicate Sorted(s: seq<int>) {
    forall i, j :: 0 <= i < j < |s| ==> s[i] <= s[j]
  }

  /** An admission taken at `ts` has left the window at `now`; an age of exactly one window counts as expired. */
  predicate Expired(ts: int, now: int, window: int) {
    now - ts >= window
  }

  /** What `trim(now)` leaves of the ledger `s`: the head is dropped for as long as it has expired. */
  function Trimmed(s: seq<int>, now: int, window: int): (r: seq<int>)
    ensures |r| <= |s|
    ensures r != [] ==> !Expired(r[0], now, window)
    decreases |s|
  {
    if s != [] && Expired(s[0], now, window) then Trimmed(s[1..], now, window) else s
  }

  /** Trimming removes entries from the head only: what is left is a tail of the ledger, in the same order. */
  lemma {:induction false} TrimmedIsTail(s: seq<int>, now: int, window: int)
    ensures IsTail(Trimmed(s, now, window), s)
    decreases |s|
  {
    if s != [] && Expired(s[0], now, window) {
      TrimmedIsTail(s[1..], now, window);
      TailOfTail(s, s[1..], Trimmed(s, now, window));
    }
  }

  /** Every entry that trimming removes had expired. */
  lemma {:induction false} TrimmedDropsOnlyExpired(s: seq<int>, now: int, window: int)
    ensures forall i :: 0 <= i < |s| - |Trimmed(s, now, window)| ==> Expired(s[i], now, window)
    decreases |s|
  {
    if s != [] && Expired(s[0], now, window) {
      TrimmedDropsOnlyExpired(s[1..], now, window);
      forall i | 0 <= i < |s| - |Trimmed(s, now, window)|
        ensures Expired(s[i], now, window)
      {
        if i > 0 {
          assert s[i] == s[1..][i - 1];
        }
      }
    }
  }

  /**
   * Trimming is removal of the longest expired prefix: whenever the first `k`
   * entries have expired and entry `k` (if any) has not, trimming leaves `s[k..]`.
   */
  lemma {:induction false} TrimmedIsLongestExpiredPrefix(s: seq<int>, now: int, window: int, k: nat)
    requires k <= |s|
    requires forall i :: 0 <= i < k ==> Expired(s[i], now, window)
    requires k < |s| ==> !Expired(s[k], now, window)
    ensures Trimmed(s, now, window) == s[k..]
    decreases k
  {
    if k > 0 {
      assert Expired(s[0], now, window);
      forall i | 0 <= i < k - 1
        ensures Expired(s[1..][i], now, window)
      {
        assert s[1..][i] == s[i + 1];
      }
      TrimmedIsLongestExpiredPrefix(s[1..], now, window, k - 1);
      assert s[1..][k - 1..] == s[k..];
    }
  }

  /** On a sorted ledger every entry that survives trimming is younger than the window. */
  lemma TrimmedLeavesOnlyLive(s: seq<int>, now: int, window: int)
    requires Sorted(s)
    ensures Sorted(Trimmed(s, now, window))
    ensures forall i :: 0 <= i < |Trimmed(s, now, window)| ==> !Expired(Trimmed(s, now, window)[i], now, window)
  {
    var r := Trimmed(s, now, window);
    var d := |s| - |r|;
    TrimmedIsTail(s, now, window);
    forall i | 0 <= i < |r|
      ensures !Expired(r[i], now, window)
    {
      assert r[0] == s[d] && r[i] == s[d + i];
    }
  }

  /** Trimming twice at the same instant removes nothing more. */
  lemma TrimmedIdempotent(s: seq<int>, now: int, window: int)
    ensures Trimmed(Trimmed(s, now, window), now, window) == Trimmed(s, now, window)
  {
  }

  /** When every entry has expired, trimming empties the ledger. */
  lemma {:induction false} TrimmedAllExpired(s: seq<int>, now: int, window: int)
    requires forall i :: 0 <= i < |s| ==> Expired(s[i], now, window)
    ensures Trimmed(s, now, window) == []
    decreases |s|
  {
    if s != [] {
      forall i | 0 <= i < |s| - 1
        ensures Expired(s[1..][i], now, window)
      {
        assert s[1..][i] == s[i + 1];
      }
      TrimmedAllExpired(s[1..], now, window);
    }
  }

  /** No entry of `s` is later than `t`. */
  predicate NotAfter(s: seq<int>, t: int) {
    forall i :: 0 <= i < |s| ==> s[i] <= t
  }

  lemma NotAfterTail(r: seq<int>, s: seq<int>, t: int)
    requires IsTail(r, s) && NotAfter(s, t)
    ensures NotAfter(r, t)
  {
    forall i | 0 <= i < |r|
      ensures r[i] <= t
    {
      assert r[i] == s[|s| - |r| + i];
    }
  }

  /** Once a full window has passed since the newest entry, trimming empties the ledger. */
  lemma TrimmedAfterFullWindow(s: seq<int>, t: int, now: int, window: int)
    requires NotAfter(s, t) && now - t >= window
    ensures Trimmed(s, now, window) == []
  {
    TrimmedAllExpired(s, now, window);
  }

  /**
   * Trimming at `t1` and then at a later `t2` is the same as trimming at `t2`
   * alone: the passes of `acquire()` compose.
   */
  lemma {:induction false} TrimmedTwice(s: seq<int>, t1: int, t2: int, window: int)
    requires t1 <= t2
    ensures Trimmed(Trimmed(s, t1, window), t2, window) == Trimmed(s, t2, window)
    decreases |s|
  {
    if s != [] && Expired(s[0], t1, window) {
      TrimmedTwice(s[1..], t1, t2, window);
    }
  }

  /**
   * The first of the readings `rs[i..]` at which the ledger `s`, trimmed at
   * that reading, holds fewer than `limit` entries; `|rs|` when there is none.
   */
  function FirstRoom(s: seq<int>, rs: seq<int>, i: nat, limit: int, window: int): (k: nat)
    requires i <= |rs|
    ensures i <= k <= |rs|
    ensures k < |rs| ==> |Trimmed(s, rs[k], window)| < limit
    decreases |rs| - i
  {
    if i == |rs| then |rs|
    else if |Trimmed(s, rs[i], window)| < limit then i
    else FirstRoom(s, rs, i + 1, limit, window)
  }

  /** Every reading before the first one with room found the trimmed ledger full. */
  lemma {:induction false} FirstRoomFullBefore(s: seq<int>, rs: seq<int>, i: nat, limit: int, window: int)
    requires i <= |rs|
    ensures forall j :: i <= j < FirstRoom(s, rs, i, limit, window) ==> |Trimmed(s, rs[j], window)| >= limit
    decreases |rs| - i
  {
    if i < |rs| && |Trimmed(s, rs[i], window)| >= limit {
      FirstRoomFullBefore(s, rs, i + 1, limit, window);
    }
  }

  /** An instant no later than `t` at which trimming leaves `s` as it is. */
  function Untouched(s: seq<int>, t: int, window: int): (r: int)
    requires window > 0
    ensures r <= t && Trimmed(s, r, window) == s
  {
    if s == [] || t <= s[0] then t else s[0]
  }

  /**
   * A pass that does not admit leaves a ledger still without entries after
   * `t`, and can only happen less than one window after `t`: a full window
   * later the ledger would be empty.
   */
  lemma RefusedPass(before: seq<int>, t: int, now: int, limit: int, window: int)
    requires NotAfter(before, t)
    requires limit > 0 && |Trimmed(before, now, window)| >= limit
    ensures NotAfter(Trimmed(before, now, window), t)
    ensures now - t < window
  {
    var kept := Trimmed(before, now, window);
    TrimmedIsTail(before, now, window);
    NotAfterTail(kept, before, t);
    if now - t >= window {
      TrimmedAfterFullWindow(before, t, now, window);
    }
  }

  /**
   * When no reading found room, the readings all lie within one window of the
   * first: a full window after the first reading the ledger would be empty.
   */
  lemma NoRoomWithinWindow(s: seq<int>, rs: seq<int>, limit: int, window: int)
    requires limit > 0 && rs != [] && NotAfter(s, rs[0])
    requires FirstRoom(s, rs, 0, limit, window) == |rs|
    ensures forall k :: 0 <= k < |rs| ==> rs[k] - rs[0] < window
  {
    FirstRoomFullBefore(s, rs, 0, limit, window);
    forall k | 0 <= k < |rs|
      ensures rs[k] - rs[0] < window
    {
      RefusedPass(s, rs[0], rs[k], limit, window);
    }
  }

  /**
   * The wait a full ledger computes, `window - (now - oldest)`, is positive and
   * at most one window when no entry lies in the future of `now`.
   */
  lemma WaitWithinWindow(s: seq<int>, now: int, window: int)
    requires forall i :: 0 <= i < |s| ==> s[i] <= now
    requires Trimmed(s, now, window) != []
    ensures 0 < window - (now - Trimmed(s, now, window)[0]) <= window
  {
    var r := Trimmed(s, now, window);
    TrimmedIsTail(s, now, window);
    assert r[0] == s[|s| - |r|];
  }

  /** `ts` is what is left of `h` after some entries were removed from its head. */
  predicate IsTail(ts: seq<int>, h: seq<int>) {
    |ts| <= |h| && forall k :: 0 <= k < |ts| ==> ts[k] == h[|h| - |ts| + k]
  }

  /** Any two admissions of the history `h` that are `limit` or more places apart are at least one window apart. */
  predicate Spaced(h: seq<int>, limit: int, window: int) {
    forall i, j :: 0 <= i < j < |h| && j - i >= limit ==> h[j] - h[i] >= window
  }

  /**
   * The ledger `ts` is consistent with the admission history `h` at instant `now`:
   * it is the tail of the history, the history is chronological and not in the
   * future, the newest admission that has left the ledger had expired, and the
   * history is spaced.
   */
  predicate Sound(h: seq<int>, ts: seq<int>, limit: int, window: int, now: int) {
    && IsTail(ts, h)
    && Sorted(h)
    && (forall k :: 0 <= k < |h| ==> h[k] <= now)
    && (|ts| < |h| ==> Expired(h[|h| - |ts| - 1], now, window))
    && Spaced(h, limit, window)
  }

  /** A ledger consistent with its history is itself non-decreasing. */
  lemma SoundLedgerSorted(h: seq<int>, ts: seq<int>, limit: int, window: int, now: int)
    requires Sound(h, ts, limit, window, now)
    ensures Sorted(ts)
  {
    forall i, j | 0 <= i < j < |ts|
      ensures ts[i] <= ts[j]
    {
      assert ts[i] == h[|h| - |ts| + i] && ts[j] == h[|h| - |ts| + j];
    }
  }

  /** Soundness is kept as the clock moves forward. */
  lemma SoundLater(h: seq<int>, ts: seq<int>, limit: int, window: int, before: int, now: int)
    requires Sound(h, ts, limit, window, before) && before <= now
    ensures Sound(h, ts, limit, window, now)
  {
  }

  /** `ts` is the tail of `h`, and the newest entry of `h` before that tail had expired at `now`. */
  predicate TailAfterExpired(h: seq<int>, ts: seq<int>, window: int, now: int) {
    && IsTail(ts, h)
    && (|ts| < |h| ==> Expired(h[|h| - |ts| - 1], now, window))
  }

  /** A tail of a tail of `h` is a tail of `h`. */
  lemma TailOfTail(h: seq<int>, ts: seq<int>, r: seq<int>)
    requires IsTail(ts, h) && IsTail(r, ts)
    ensures IsTail(r, h)
  {
    var d, e := |ts| - |r|, |h| - |ts|;
    forall k | 0 <= k < |r|
      ensures r[k] == h[|h| - |r|..][k]
    {
      assert r[k] == ts[d + k] == h[e + d + k];
    }
  }

  lemma TailAfterExpiredTrim(h: seq<int>, ts: seq<int>, window: int, now: int)
    requires TailAfterExpired(h, ts, window, now)
    ensures TailAfterExpired(h, Trimmed(ts, now, window), window, now)
  {
    var r := Trimmed(ts, now, window);
    TrimmedIsTail(ts, now, window);
    TailOfTail(h, ts, r);
    var d := |ts| - |r|;
    if d > 0 {
      TrimmedDropsOnlyExpired(ts, now, window);
      assert Expired(ts[d - 1], now, window);
      assert ts[d - 1] == h[|h| - |ts| + d - 1];
    }
  }

  /** Trimming at `now` keeps the ledger sound at `now`. */
  lemma SoundAfterTrim(h: seq<int>, ts: seq<int>, limit: int, window: int, now: int)
    requires Sound(h, ts, limit, window, now)
    ensures Sound(h, Trimmed(ts, now, window), limit, window, now)
  {
    TailAfterExpiredTrim(h, ts, window, now);
  }

  lemma SpacedAppend(h: seq<int>, limit: int, window: int, now: int, e: int)
    requires Spaced(h, limit, window)
    requires 0 <= e < |h| && Expired(h[e], now, window)
    requires forall i :: 0 <= i <= e ==> h[i] <= h[e]
    requires |h| - e - 1 < limit
    ensures Spaced(h + [now], limit, window)
  {
    var h' := h + [now];
    forall i, j | 0 <= i < j < |h'| && j - i >= limit
      ensures h'[j] - h'[i] >= window
    {
      if j == |h| {
        assert h'[i] == h[i] <= h[e];
      } else {
        assert h'[i] == h[i] && h'[j] == h[j];
      }
    }
  }

  /** Admitting at `now` while the ledger holds fewer than `limit` entries keeps it sound at `now`. */
  lemma SoundAfterAdmit(h: seq<int>, ts: seq<int>, limit: int, window: int, now: int)
    requires Sound(h, ts, limit, window, now) && |ts| < limit
    ensures Sound(h + [now], ts + [now], limit, window, now)
  {
    var h', ts' := h + [now], ts + [now];
    forall k | 0 <= k < |ts'|
      ensures ts'[k] == h'[|h'| - |ts'| + k]
    {
      if k < |ts| {
        assert ts'[k] == ts[k] == h[|h| - |ts| + k];
      }
    }
    assert Sorted(h') by {
      forall i, j | 0 <= i < j < |h'|
        ensures h'[i] <= h'[j]
      {
        assert h'[i] == h[i];
        if j < |h| {
          assert h'[j] == h[j];
        }
      }
    }
    if |ts| < |h| {
      SpacedAppend(h, limit, window, now, |h| - |ts| - 1);
    } else {
      assert |h'| <= limit;
    }
  }

  /**
   * Trimming the ledger at a later reading `last` leaves it consistent with
   * the history at `last`.
   */
  lemma SoundAfterLaterTrim(h: seq<int>, ts: seq<int>, limit: int, window: int, first: int, last: int)
    requires Sound(h, ts, limit, window, first) && first <= last
    ensures Sound(h, Trimmed(ts, last, window), limit, window, last)
  {
    SoundLater(h, ts, limit, window, first, last);
    SoundAfterTrim(h, ts, limit, window, last);
  }

  /**
   * A caller granted at `now` records `now` in the ledger trimmed at `now`,
   * and the result stays consistent with the history at any later `last`.
   */
  lemma SoundAfterGrant(h: seq<int>, ts: seq<int>, limit: int, window: int, first: int, now: int, last: int)
    requires Sound(h, ts, limit, window, first) && first <= now <= last
    requires |Trimmed(ts, now, window)| < limit
    ensures Sound(h + [now], Trimmed(ts, now, window) + [now], limit, window, last)
  {
    SoundLater(h, ts, limit, window, first, now);
    SoundAfterTrim(h, ts, limit, window, now);
    SoundAfterAdmit(h, Trimmed(ts, now, window), limit, window, now);
    SoundLater(h + [now], Trimmed(ts, now, window) + [now], limit, window, now, last);
  }

  /** The number of admissions of `h` that fall in the half-open window `[start, start + window)`. */
  function CountWithin(h: seq<int>, start: int, window: int): (n: nat)
    ensures n <= |h|
  {
    if h == [] then 0
    else (if start <= h[0] < start + window then 1 else 0) + CountWithin(h[1..], start, window)
  }

  lemma {:induction false} CountWithinAppend(a: seq<int>, b: seq<int>, start: int, window: int)
    ensures CountWithin(a + b, start, window) == CountWithin(a, start, window) + CountWithin(b, start, window)
    decreases |a|
  {
    if a == [] {
      assert a + b == b;
    } else {
      assert (a + b)[1..] == a[1..] + b;
      CountWithinAppend(a[1..], b, start, window);
    }
  }

  lemma {:induction false} CountWithinNoneReached(h: seq<int>, start: int, window: int)
    requires forall k :: 0 <= k < |h| ==> h[k] >= start + window
    ensures CountWithin(h, start, window) == 0
    decreases |h|
  {
    if h != [] {
      assert forall k :: 0 <= k < |h| - 1 ==> h[1..][k] == h[k + 1];
      CountWithinNoneReached(h[1..], start, window);
    }
  }

  /**
   * The sliding-window guarantee: a chronological, spaced history has at most
   * `limit` admissions in any window of length `window`, wherever it starts.
   */
  lemma {:induction false} AtMostLimitPerWindow(h: seq<int>, limit: int, window: int, start: int)
    requires limit > 0 && Sorted(h) && Spaced(h, limit, window)
    ensures CountWithin(h, start, window) <= limit
    decreases |h|
  {
    if h == [] {
    } else if h[0] < start {
      var t := h[1..];
      assert forall i, j :: 0 <= i < j < |t| ==> t[i] == h[i + 1] && t[j] == h[j + 1];
      AtMostLimitPerWindow(t, limit, window, start);
    } else if h[0] >= start + window {
      CountWithinNoneReached(h, start, window);
    } else if |h| > limit {
      var near, far := h[1..limit], h[limit..];
      assert h[1..] == near + far;
      CountWithinAppend(near, far, start, window);
      forall k | 0 <= k < |far|
        ensures far[k] >= start + window
      {
        assert far[k] == h[limit + k];
        assert h[limit + k] - h[0] >= window;
      }
      CountWithinNoneReached(far, start, window);
    }
  }

  /** A ledger consistent with its history bounds every window of that history. */
  lemma SoundBoundsWindows(h: seq<int>, ts: seq<int>, limit: int, window: int, now: int)
    requires Sound(h, ts, limit, window, now) && limit > 0
    ensures forall start :: CountWithin(h, start, window) <= limit
  {
    forall start | true
      ensures CountWithin(h, start, window) <= limit
    {
      AtMostLimitPerWindow(h, limit, window, start);
    }
  }
}
