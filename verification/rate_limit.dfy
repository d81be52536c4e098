/** The token bucket (apps/api/src/ratelimit.ts), counted in exact units: WINDOW_MS of them make one token. */
module TokenBucket {
  import opened Common

  const WINDOW_MS := 60_000

  /** Calls per minute, a positive setting. */
  type Rate = n: int | n >= 1 witness 1

  datatype Bucket = Bucket(units: int, updatedAt: int)

  datatype Verdict = Verdict(allowed: bool, retryAfterMs: int, bucket: Bucket)

  function Capacity(rate: Rate): int { rate * WINDOW_MS }

  /** What a bucket holds at a time; a caller never seen has a full one. */
  function Level(bucket: Option<Bucket>, rate: Rate, now: int): int {
    match bucket
    case None => Capacity(rate)
    case Some(b) => Min(Capacity(rate), b.units + Max(0, now - b.updatedAt) * rate)
  }

  function CeilDiv(a: int, b: int): int
    requires b > 0
  {
    (a + b - 1) / b
  }

  function Take(bucket: Option<Bucket>, rate: Rate, now: int): Verdict {
    var units := Level(bucket, rate, now);
    if units >= WINDOW_MS then Verdict(true, 0, Bucket(units - WINDOW_MS, now))
    else Verdict(false, CeilDiv(WINDOW_MS - units, rate), Bucket(units, now))
  }

  predicate Holds(bucket: Option<Bucket>, rate: Rate) {
    bucket.Some? ==> 0 <= bucket.value.units <= Capacity(rate)
  }

  lemma ProductNonNegative(a: int, b: int)
    requires a >= 0 && b >= 0
    ensures a * b >= 0
  {
  }

  lemma LevelInRange(bucket: Option<Bucket>, rate: Rate, now: int)
    requires Holds(bucket, rate)
    ensures 0 <= Level(bucket, rate, now) <= Capacity(rate)
  {
    if bucket.Some? { ProductNonNegative(Max(0, now - bucket.value.updatedAt), rate); }
  }

  /** Whatever the clock does, a bucket never holds less than nothing nor more than its capacity. */
  lemma TakeHolds(bucket: Option<Bucket>, rate: Rate, now: int)
    requires Holds(bucket, rate)
    ensures Holds(Some(Take(bucket, rate, now).bucket), rate)
    ensures Take(bucket, rate, now).allowed ==>
              Take(bucket, rate, now).bucket.units <= Capacity(rate) - WINDOW_MS && Take(bucket, rate, now).retryAfterMs == 0
  {
    LevelInRange(bucket, rate, now);
  }

  /** An empty bucket is full again after a minute, and not before. */
  lemma FullAfterAMinute(rate: Rate, now: int, wait: nat)
    ensures Level(Some(Bucket(0, now)), rate, now + wait) == Capacity(rate) <==> wait >= 60_000
  {
    if wait >= 60_000 {
      ProductNonNegative(wait - 60_000, rate);
      assert wait * rate == (wait - 60_000) * rate + 60_000 * rate;
    } else {
      ProductNonNegative(60_000 - wait - 1, rate);
      assert wait * rate == 60_000 * rate - rate - (60_000 - wait - 1) * rate;
    }
  }

  lemma CeilDivIsLeast(a: int, b: int, w: int)
    requires b > 0
    ensures w >= CeilDiv(a, b) <==> w * b >= a
  {
    var q, r := (a + b - 1) / b, (a + b - 1) % b;
    assert q * b + r == a + b - 1;
    if w >= q {
      ProductNonNegative(w - q, b);
      assert w * b == (w - q) * b + q * b;
    } else {
      ProductNonNegative(q - 1 - w, b);
      assert w * b == q * b - b - (q - 1 - w) * b;
    }
  }

  /** A refused caller told to wait is let through after exactly that wait, and after no shorter one. */
  lemma RetryAfterIsLeast(bucket: Option<Bucket>, rate: Rate, now: int, wait: nat)
    requires Holds(bucket, rate) && !Take(bucket, rate, now).allowed
    ensures Take(bucket, rate, now).retryAfterMs > 0
    ensures var refused := Take(bucket, rate, now);
            Take(Some(refused.bucket), rate, now + wait).allowed <==> wait >= refused.retryAfterMs
  {
    var refused := Take(bucket, rate, now);
    LevelInRange(bucket, rate, now);
    CeilDivIsLeast(WINDOW_MS - refused.bucket.units, rate, wait);
    CeilDivIsLeast(WINDOW_MS - refused.bucket.units, rate, 0);
  }

  // ─── Runs of calls by one address ──────────────────────────────────────────

  function AllowedIn(bucket: Option<Bucket>, rate: Rate, times: seq<int>): nat
    decreases |times|
  {
    if times == [] then 0
    else
      var v := Take(bucket, rate, times[0]);
      (if v.allowed then 1 else 0) + AllowedIn(Some(v.bucket), rate, times[1..])
  }

  function BucketAfter(bucket: Option<Bucket>, rate: Rate, times: seq<int>): Option<Bucket>
    decreases |times|
  {
    if times == [] then bucket else BucketAfter(Some(Take(bucket, rate, times[0]).bucket), rate, times[1..])
  }

  lemma {:induction false} AfterOneMore(bucket: Option<Bucket>, rate: Rate, times: seq<int>, now: int)
    ensures BucketAfter(bucket, rate, times + [now])
            == Some(Take(BucketAfter(bucket, rate, times), rate, now).bucket)
    decreases |times|
  {
    if times == [] {
      assert times + [now] == [now] && [now][1..] == [];
    } else {
      assert (times + [now])[0] == times[0] && (times + [now])[1..] == times[1..] + [now];
      AfterOneMore(Some(Take(bucket, rate, times[0]).bucket), rate, times[1..], now);
    }
  }

  /** How far the clock moved forward in all. */
  function Forward(times: seq<int>): nat {
    if |times| <= 1 then 0 else Max(0, times[1] - times[0]) + Forward(times[1..])
  }

  lemma AllowanceStep(bucket: Option<Bucket>, rate: Rate, now: int, later: int)
    requires Holds(bucket, rate)
    ensures var v := Take(bucket, rate, now);
            WINDOW_MS * (if v.allowed then 1 else 0) + Level(Some(v.bucket), rate, later)
            <= Level(bucket, rate, now) + Max(0, later - now) * rate
  {
  }

  lemma Distribute(a: int, b: int, c: int)
    ensures (a + b) * c == a * c + b * c
  {
  }

  /** With any clock at all: what is allowed is paid for by what the bucket held and by how far the clock moved forward. */
  lemma {:induction false} AllowanceBound(bucket: Option<Bucket>, rate: Rate, times: seq<int>)
    requires Holds(bucket, rate) && times != []
    ensures WINDOW_MS * AllowedIn(bucket, rate, times) <= Level(bucket, rate, times[0]) + Forward(times) * rate
    decreases |times|
  {
    var v := Take(bucket, rate, times[0]);
    TakeHolds(bucket, rate, times[0]);
    LevelInRange(bucket, rate, times[0]);
    if |times| == 1 {
      assert AllowedIn(Some(v.bucket), rate, times[1..]) == 0;
    } else {
      AllowanceBound(Some(v.bucket), rate, times[1..]);
      AllowanceStep(bucket, rate, times[0], times[1]);
      Distribute(Max(0, times[1] - times[0]), Forward(times[1..]), rate);
    }
  }

  predicate NonDecreasing(times: seq<int>) {
    forall i, j :: 0 <= i < j < |times| ==> times[i] <= times[j]
  }

  lemma {:induction false} ForwardIsSpan(times: seq<int>)
    requires NonDecreasing(times) && times != []
    ensures Forward(times) == times[|times| - 1] - times[0]
  {
    if |times| > 1 { ForwardIsSpan(times[1..]); }
  }

  lemma {:induction false} AfterHolds(bucket: Option<Bucket>, rate: Rate, times: seq<int>)
    requires Holds(bucket, rate)
    ensures Holds(BucketAfter(bucket, rate, times), rate)
    decreases |times|
  {
    if times != [] {
      TakeHolds(bucket, rate, times[0]);
      AfterHolds(Some(Take(bucket, rate, times[0]).bucket), rate, times[1..]);
    }
  }

  /**
   * In any stretch of a run with a non-decreasing clock, from its i-th call to its j-th, no more
   * calls are allowed than the capacity and what its length refills.
   */
  lemma IntervalBound(rate: Rate, times: seq<int>, i: nat, j: nat)
    requires NonDecreasing(times) && i <= j < |times|
    ensures WINDOW_MS * AllowedIn(BucketAfter(None, rate, times[..i]), rate, times[i..j + 1])
            <= WINDOW_MS * rate + (times[j] - times[i]) * rate
  {
    var before := BucketAfter(None, rate, times[..i]);
    var stretch := times[i..j + 1];
    AfterHolds(None, rate, times[..i]);
    AllowanceBound(before, rate, stretch);
    LevelInRange(before, rate, stretch[0]);
    ForwardIsSpan(stretch);
  }

  function Repeat(t: int, n: nat): (r: seq<int>)
    ensures |r| == n
  {
    seq(n, _ => t)
  }

  lemma {:induction false} BurstFrom(bucket: Bucket, rate: Rate, n: nat)
    requires Holds(Some(bucket), rate)
    ensures AllowedIn(Some(bucket), rate, Repeat(bucket.updatedAt, n)) == Min(n, bucket.units / WINDOW_MS)
    decreases n
  {
    if n > 0 {
      var v := Take(Some(bucket), rate, bucket.updatedAt);
      TakeHolds(Some(bucket), rate, bucket.updatedAt);
      assert Repeat(bucket.updatedAt, n)[1..] == Repeat(bucket.updatedAt, n - 1);
      BurstFrom(v.bucket, rate, n - 1);
    }
  }

  /** Of any number of calls at one moment by a caller never seen exactly the stated number pass. */
  lemma BurstIsCapacity(rate: Rate, now: int, n: nat)
    ensures AllowedIn(None, rate, Repeat(now, n)) == Min(n, rate)
  {
    var full := Bucket(Capacity(rate), now);
    BurstFrom(full, rate, n);
    if n > 0 { assert Take(None, rate, now) == Take(Some(full), rate, now); }
    assert full.units / WINDOW_MS == rate;
  }

  // ─── A clock that steps back ───────────────────────────────────────────────

  lemma {:induction false} AllowedInConcat(bucket: Option<Bucket>, rate: Rate, s: seq<int>, t: seq<int>)
    ensures AllowedIn(bucket, rate, s + t) == AllowedIn(bucket, rate, s) + AllowedIn(BucketAfter(bucket, rate, s), rate, t)
    decreases |s|
  {
    if s == [] {
      assert s + t == t;
    } else {
      assert (s + t)[0] == s[0] && (s + t)[1..] == s[1..] + t;
      AllowedInConcat(Some(Take(bucket, rate, s[0]).bucket), rate, s[1..], t);
    }
  }

  lemma {:induction false} BurstSpends(bucket: Bucket, rate: Rate, n: nat)
    requires bucket.units <= Capacity(rate) && WINDOW_MS * n <= bucket.units
    ensures BucketAfter(Some(bucket), rate, Repeat(bucket.updatedAt, n))
            == Some(Bucket(bucket.units - WINDOW_MS * n, bucket.updatedAt))
    decreases n
  {
    if n > 0 {
      var v := Take(Some(bucket), rate, bucket.updatedAt);
      assert Repeat(bucket.updatedAt, n)[1..] == Repeat(bucket.updatedAt, n - 1);
      BurstSpends(v.bucket, rate, n - 1);
    }
  }

  lemma FullBurstSpends(rate: Rate, now: int)
    ensures BucketAfter(None, rate, Repeat(now, rate)) == Some(Bucket(0, now))
  {
    var full := Bucket(Capacity(rate), now);
    BurstSpends(full, rate, rate);
    assert Take(None, rate, now) == Take(Some(full), rate, now);
  }

  lemma CapacityHoldsOne(rate: Rate)
    ensures Capacity(rate) >= WINDOW_MS
  {
    ProductNonNegative(rate - 1, WINDOW_MS);
  }

  /** After an empty bucket saw an earlier time, the next call passes as if the step back had been waited for. */
  lemma PassesAfterStepBack(rate: Rate, earlier: int, later: int, t: int)
    requires earlier < later && t - earlier >= CeilDiv(WINDOW_MS, rate)
    ensures AllowedIn(Some(Bucket(0, later)), rate, [earlier, t]) >= 1
  {
    var back := Take(Some(Bucket(0, later)), rate, earlier);
    assert back.bucket == Bucket(0, earlier);
    CapacityHoldsOne(rate);
    CeilDivIsLeast(WINDOW_MS, rate, t - earlier);
    assert Take(Some(back.bucket), rate, t).allowed;
    assert [earlier, t][1..] == [t];
    assert AllowedIn(Some(back.bucket), rate, [t]) == 1;
  }

  /**
   * The bound needs a clock that never steps back: one step back of any size breaks it at every
   * rate. The whole allowance passes, one call reads an earlier time, and the next passes one
   * millisecond before the interval has refilled a single call.
   */
  lemma SteppingBackRefills(rate: Rate, earlier: int, later: int, t: int)
    requires earlier < later && t == later + CeilDiv(WINDOW_MS, rate) - 1
    ensures
      var times := Repeat(later, rate) + [earlier, t];
      && times[0] == later <= t == times[|times| - 1]
      && WINDOW_MS * AllowedIn(None, rate, times) > WINDOW_MS * rate + (t - later) * rate
  {
    CeilDivIsLeast(WINDOW_MS, rate, 0);
    CeilDivIsLeast(WINDOW_MS, rate, t - later);
    FullBurstSpends(rate, later);
    BurstIsCapacity(rate, later, rate);
    AllowedInConcat(None, rate, Repeat(later, rate), [earlier, t]);
    PassesAfterStepBack(rate, earlier, later, t);
  }
}

/** The bounded store of buckets (apps/api/src/ratelimit.ts, `createBucketStore`). */
module BucketStore {
  import opened Common
  import opened Ordering
  import opened TokenBucket

  type Buckets = map<string, Bucket>

  function Get(buckets: Buckets, id: string): Option<Bucket> {
    if id in buckets then Some(buckets[id]) else None
  }

  predicate Idle(b: Bucket, now: int) { now - b.updatedAt >= WINDOW_MS }

  /** The buckets used within the last window. */
  function Recent(buckets: Buckets, now: int): Buckets {
    map id | id in buckets && !Idle(buckets[id], now) :: buckets[id]
  }

  /** Of these buckets exactly so many of the least recently used are gone, nothing else. */
  ghost predicate OldestGone(before: Buckets, after: Buckets, kept: nat) {
    && |after| == kept
    && (forall id :: id in after ==> id in before && after[id] == before[id])
    && (forall gone, id :: gone in before && gone !in after && id in after ==>
          before[gone].updatedAt <= before[id].updatedAt)
  }

  /** What a sweep leaves: the recent buckets if they fit, else the most recently used of them. */
  ghost predicate Swept(before: Buckets, after: Buckets, now: int, maxBuckets: nat) {
    var recent := Recent(before, now);
    if |recent| <= maxBuckets then after == recent else OldestGone(recent, after, maxBuckets)
  }

  type Row = (string, Bucket)

  predicate Older(a: Row, b: Row) { a.1.updatedAt < b.1.updatedAt }

  ghost predicate RowsOf(rows: seq<Row>, buckets: Buckets) {
    && (forall row :: row in rows <==> row.0 in buckets && buckets[row.0] == row.1)
    && |rows| == |buckets| && Distinct(rows)
  }

  lemma Without(buckets: Buckets, id: string)
    requires id in buckets
    ensures |buckets - {id}| == |buckets| - 1
  {
    assert buckets.Keys == (buckets - {id}).Keys + {id};
    assert |buckets.Keys| == |buckets| && |(buckets - {id}).Keys| == |buckets - {id}|;
  }

  method Listed(buckets: Buckets) returns (rows: seq<Row>)
    ensures RowsOf(rows, buckets)
  {
    rows := [];
    var left := buckets;
    while |left| > 0
      invariant forall id :: id in left ==> id in buckets && left[id] == buckets[id]
      invariant |rows| + |left| == |buckets| && Distinct(rows)
      invariant forall row :: row in rows <==> row.0 in buckets && row.0 !in left && buckets[row.0] == row.1
      decreases |left|
    {
      var id :| id in left.Keys;
      Without(left, id);
      rows := rows + [(id, left[id])];
      left := left - {id};
    }
  }

  /** The first rows are gone, the others left. */
  ghost predicate Dropped(buckets: Buckets, rows: seq<Row>, n: nat, r: Buckets) {
    && n <= |rows| && |r| == |rows| - n
    && (forall id :: id in r ==> id in buckets && r[id] == buckets[id])
    && (forall id :: id in buckets ==> (id in r <==> (id, buckets[id]) !in rows[..n]))
  }

  lemma DropNext(buckets: Buckets, rows: seq<Row>, n: nat, r: Buckets, next: nat)
    requires RowsOf(rows, buckets) && Dropped(buckets, rows, n, r) && next == n + 1 <= |rows|
    ensures Dropped(buckets, rows, next, r - {rows[n].0})
  {
    assert rows[n] in rows;
    assert rows[n] !in rows[..n];
    Without(r, rows[n].0);
    assert rows[..next] == rows[..n] + [rows[n]];
  }

  lemma LaterAreYounger(buckets: Buckets, rows: seq<Row>, n: nat, r: Buckets)
    requires InOrder(rows, Older) && RowsOf(rows, buckets) && Dropped(buckets, rows, n, r)
    ensures OldestGone(buckets, r, |r|)
  {
    forall gone, id | gone in buckets && gone !in r && id in r ensures buckets[gone].updatedAt <= buckets[id].updatedAt {
      LaterIsYounger(rows, n, (gone, buckets[gone]), (id, buckets[id]));
    }
  }

  lemma LaterIsYounger(rows: seq<Row>, n: nat, first: Row, second: Row)
    requires InOrder(rows, Older) && n <= |rows| && first in rows[..n] && second in rows && second !in rows[..n]
    ensures !Older(second, first)
  {
    var i :| 0 <= i < n && rows[..n][i] == first;
    assert rows == rows[..n] + rows[n..];
    assert second in rows[n..];
    var j :| n <= j < |rows| && rows[j] == second;
    assert !Older(rows[j], rows[i]);
  }

  /** Drops the least recently used until so many are kept. */
  method DropOldest(buckets: Buckets, kept: nat) returns (r: Buckets)
    requires kept <= |buckets|
    ensures OldestGone(buckets, r, kept)
  {
    var rows := Listed(buckets);
    SortMembers(rows, Older);
    SortInOrder(rows, Older);
    SortDistinct(rows, Older);
    var oldestFirst := Sort(rows, Older);
    r := buckets;
    for n := 0 to |buckets| - kept
      invariant Dropped(buckets, oldestFirst, n, r)
    {
      DropNext(buckets, oldestFirst, n, r, n + 1);
      r := r - {oldestFirst[n].0};
    }
    LaterAreYounger(buckets, oldestFirst, |buckets| - kept, r);
  }

  /** A call of the store: who, and when. */
  datatype Call = Call(id: string, now: int)

  function Updated(before: Buckets, rate: Rate, call: Call): Buckets {
    before[call.id := TokenBucket.Take(Get(before, call.id), rate, call.now).bucket]
  }

  /** What one call makes of the buckets: the caller's is replaced, and a sweep follows only if they are too many. */
  ghost predicate Taken(before: Buckets, after: Buckets, maxBuckets: nat, rate: Rate, call: Call) {
    var with := Updated(before, rate, call);
    if |with| <= maxBuckets then after == with else Swept(with, after, call.now, maxBuckets)
  }

  /** One map of buckets, never larger after a call than it may be. */
  class Store {
    var buckets: Buckets
    const maxBuckets: nat

    constructor (maxBuckets: nat)
      ensures this.maxBuckets == maxBuckets && buckets == map[]
    {
      this.maxBuckets := maxBuckets;
      buckets := map[];
    }

    method Sweep(now: int)
      modifies this`buckets
      ensures Swept(old(buckets), buckets, now, maxBuckets)
    {
      buckets := Recent(buckets, now);
      if |buckets| <= maxBuckets { return; }
      buckets := DropOldest(buckets, maxBuckets);
    }

    method Take(id: string, rate: Rate, now: int) returns (verdict: Verdict)
      modifies this`buckets
      ensures verdict == TokenBucket.Take(if id in old(buckets) then Some(old(buckets)[id]) else None, rate, now)
      ensures Taken(old(buckets), buckets, maxBuckets, rate, Call(id, now))
      ensures |buckets| <= maxBuckets
    {
      verdict := TokenBucket.Take(Get(buckets, id), rate, now);
      buckets := buckets[id := verdict.bucket];
      if |buckets| > maxBuckets { Sweep(now); }
    }
  }

  // ─── Against a store that forgets nothing ──────────────────────────────────

  /** The map after these calls when nothing is ever dropped. */
  function Unbounded(rate: Rate, calls: seq<Call>): Buckets {
    if calls == [] then map[] else Updated(Unbounded(rate, calls[..|calls| - 1]), rate, calls[|calls| - 1])
  }

  /** One call of the bounded store in which no bucket younger than a window was dropped. */
  ghost predicate ForgetsOnlyIdle(before: Buckets, after: Buckets, rate: Rate, call: Call) {
    var with := Updated(before, rate, call);
    after == with || after == Recent(with, call.now)
  }

  /** The states of a store over the calls in which every sweep forgot only what was idle. */
  ghost predicate RanForgettingIdle(states: seq<Buckets>, rate: Rate, calls: seq<Call>) {
    && |states| == |calls| + 1 && states[0] == map[]
    && forall k :: 0 <= k < |calls| ==> ForgetsOnlyIdle(states[k], states[k + 1], rate, calls[k])
  }

  /** From `now` on, the two stores hold the same for every caller. */
  ghost predicate Alike(a: Buckets, b: Buckets, rate: Rate, now: int) {
    forall id: string, t: int :: t >= now ==> Level(Get(a, id), rate, t) == Level(Get(b, id), rate, t)
  }

  ghost predicate AllHold(buckets: Buckets, rate: Rate) { forall id :: id in buckets ==> Holds(Some(buckets[id]), rate) }

  lemma IdleIsFull(b: Bucket, rate: Rate, now: int, t: int)
    requires Holds(Some(b), rate) && Idle(b, now) && t >= now
    ensures Level(Some(b), rate, t) == Level(None, rate, t)
  {
    var elapsed := t - b.updatedAt;
    ProductNonNegative(elapsed - WINDOW_MS, rate);
    assert elapsed * rate == (elapsed - WINDOW_MS) * rate + WINDOW_MS * rate;
  }

  lemma SameLevelSameVerdict(a: Option<Bucket>, b: Option<Bucket>, rate: Rate, now: int)
    requires Level(a, rate, now) == Level(b, rate, now)
    ensures TokenBucket.Take(a, rate, now) == TokenBucket.Take(b, rate, now)
  {
  }

  lemma ForgettingIsAlike(buckets: Buckets, rate: Rate, now: int)
    requires AllHold(buckets, rate)
    ensures Alike(Recent(buckets, now), buckets, rate, now)
  {
    var recent := Recent(buckets, now);
    forall id: string, t: int | t >= now ensures Level(Get(recent, id), rate, t) == Level(Get(buckets, id), rate, t) {
      if id in buckets && id !in recent { IdleIsFull(buckets[id], rate, now, t); }
    }
  }

  lemma AlikeAfterCall(a: Buckets, after: Buckets, b: Buckets, rate: Rate, call: Call)
    requires AllHold(a, rate) && Alike(a, b, rate, call.now) && ForgetsOnlyIdle(a, after, rate, call)
    ensures AllHold(after, rate)
    ensures Alike(after, Updated(b, rate, call), rate, call.now)
  {
    SameLevelSameVerdict(Get(a, call.id), Get(b, call.id), rate, call.now);
    var bucket := TokenBucket.Take(Get(a, call.id), rate, call.now).bucket;
    TakeHolds(Get(a, call.id), rate, call.now);
    var withA, withB := a[call.id := bucket], b[call.id := bucket];
    assert AllHold(withA, rate);
    forall id: string, t: int | t >= call.now ensures Level(Get(withA, id), rate, t) == Level(Get(withB, id), rate, t) {
      if id != call.id { assert Get(withA, id) == Get(a, id) && Get(withB, id) == Get(b, id); }
    }
    assert Alike(withA, withB, rate, call.now);
    ForgettingIsAlike(withA, rate, call.now);
  }

  predicate InTime(calls: seq<Call>) {
    forall i, j :: 0 <= i < j < |calls| ==> calls[i].now <= calls[j].now
  }

  lemma {:induction false} StoresAlike(states: seq<Buckets>, rate: Rate, calls: seq<Call>)
    requires RanForgettingIdle(states, rate, calls) && InTime(calls)
    ensures AllHold(states[|calls|], rate)
    ensures forall now: int :: (calls == [] || now >= calls[|calls| - 1].now) ==>
              Alike(states[|calls|], Unbounded(rate, calls), rate, now)
  {
    if calls != [] {
      var n := |calls| - 1;
      var before := calls[..n];
      assert forall k :: 0 <= k < n ==> before[k] == calls[k] && states[..|calls|][k] == states[k];
      assert RanForgettingIdle(states[..|calls|], rate, before);
      StoresAlike(states[..|calls|], rate, before);
      AlikeAfterCall(states[n], states[|calls|], Unbounded(rate, before), rate, calls[n]);
    }
  }

  /**
   * As long as sweeps drop only buckets idle for a window, every verdict of the bounded store is
   * the verdict of one that forgets nothing.
   */
  lemma ForgettingIdleChangesNothing(states: seq<Buckets>, rate: Rate, calls: seq<Call>, k: nat)
    requires RanForgettingIdle(states, rate, calls) && InTime(calls) && k < |calls|
    ensures TokenBucket.Take(Get(states[k], calls[k].id), rate, calls[k].now)
            == TokenBucket.Take(Get(Unbounded(rate, calls[..k]), calls[k].id), rate, calls[k].now)
  {
    assert forall i :: 0 <= i < k ==> calls[..k][i] == calls[i] && states[..k + 1][i] == states[i];
    assert RanForgettingIdle(states[..k + 1], rate, calls[..k]);
    StoresAlike(states[..k + 1], rate, calls[..k]);
    assert Alike(states[k], Unbounded(rate, calls[..k]), rate, calls[k].now);
    SameLevelSameVerdict(Get(states[k], calls[k].id), Get(Unbounded(rate, calls[..k]), calls[k].id), rate, calls[k].now);
  }

  // ─── Runs of the store ─────────────────────────────────────────────────────

  /** The states of a store over the calls, from empty. */
  ghost predicate Ran(states: seq<Buckets>, maxBuckets: nat, rate: Rate, calls: seq<Call>) {
    && |states| == |calls| + 1 && states[0] == map[]
    && forall k :: 0 <= k < |calls| ==> Taken(states[k], states[k + 1], maxBuckets, rate, calls[k])
  }

  /** The addresses that called within the last window, the k-th call included. */
  function ActiveAt(calls: seq<Call>, k: nat): set<string>
    requires k < |calls|
  {
    set j | 0 <= j <= k && calls[k].now - calls[j].now < WINDOW_MS :: calls[j].id
  }

  predicate NeverMoreThan(calls: seq<Call>, limit: nat) {
    forall k :: 0 <= k < |calls| ==> |ActiveAt(calls, k)| <= limit
  }

  /** Every bucket is stamped with a call of its address. */
  ghost predicate Stamped(buckets: Buckets, calls: seq<Call>, k: nat)
    requires k <= |calls|
  {
    forall id :: id in buckets ==> exists j :: 0 <= j < k && calls[j] == Call(id, buckets[id].updatedAt)
  }

  lemma TakenIsPart(before: Buckets, after: Buckets, maxBuckets: nat, rate: Rate, call: Call)
    requires Taken(before, after, maxBuckets, rate, call)
    ensures forall id :: id in after ==> id in Updated(before, rate, call) && after[id] == Updated(before, rate, call)[id]
  {
  }

  lemma UpdatedStamped(before: Buckets, rate: Rate, calls: seq<Call>, k: nat, next: nat)
    requires k < |calls| && next == k + 1 && Stamped(before, calls, k)
    ensures Stamped(Updated(before, rate, calls[k]), calls, next)
  {
    var after := Updated(before, rate, calls[k]);
    forall id | id in after ensures exists j :: 0 <= j < next && calls[j] == Call(id, after[id].updatedAt) {
      if id == calls[k].id {
        assert calls[k] == Call(id, after[id].updatedAt);
      } else {
        var j :| 0 <= j < k && calls[j] == Call(id, before[id].updatedAt);
      }
    }
  }

  lemma {:induction false} StatesStamped(states: seq<Buckets>, maxBuckets: nat, rate: Rate, calls: seq<Call>, k: nat)
    requires Ran(states, maxBuckets, rate, calls) && k <= |calls|
    ensures Stamped(states[k], calls, k)
  {
    if k > 0 {
      var n := k - 1;
      StatesStamped(states, maxBuckets, rate, calls, n);
      UpdatedStamped(states[n], rate, calls, n, k);
      TakenIsPart(states[n], states[k], maxBuckets, rate, calls[n]);
    }
  }

  lemma RecentAreActive(with: Buckets, calls: seq<Call>, k: nat, next: nat)
    requires k < |calls| && next == k + 1 && Stamped(with, calls, next)
    ensures |Recent(with, calls[k].now)| <= |ActiveAt(calls, k)|
  {
    var recent := Recent(with, calls[k].now);
    forall id | id in recent.Keys ensures id in ActiveAt(calls, k) {
      var j :| 0 <= j < next && calls[j] == Call(id, with[id].updatedAt);
    }
    Smaller(recent.Keys, ActiveAt(calls, k));
    assert |recent.Keys| == |recent|;
  }

  lemma {:induction false} Smaller(a: set<string>, b: set<string>)
    requires a <= b
    ensures |a| <= |b|
  {
    if a != {} {
      var x :| x in a;
      Smaller(a - {x}, b - {x});
    }
  }

  /**
   * As long as no more addresses call within one window than the store may hold, every verdict of
   * the store is the verdict of one that forgets nothing.
   */
  lemma StoreForgetsNothingInBounds(states: seq<Buckets>, maxBuckets: nat, rate: Rate, calls: seq<Call>, k: nat)
    requires Ran(states, maxBuckets, rate, calls) && InTime(calls) && NeverMoreThan(calls, maxBuckets) && k < |calls|
    ensures TokenBucket.Take(Get(states[k], calls[k].id), rate, calls[k].now)
            == TokenBucket.Take(Get(Unbounded(rate, calls[..k]), calls[k].id), rate, calls[k].now)
  {
    forall i | 0 <= i < |calls| ensures ForgetsOnlyIdle(states[i], states[i + 1], rate, calls[i]) {
      StatesStamped(states, maxBuckets, rate, calls, i);
      UpdatedStamped(states[i], rate, calls, i, i + 1);
      RecentAreActive(Updated(states[i], rate, calls[i]), calls, i, i + 1);
    }
    ForgettingIdleChangesNothing(states, rate, calls, k);
  }

  /** When this address called. */
  function OwnTimes(calls: seq<Call>, id: string): seq<int> {
    if calls == [] then []
    else
      OwnTimes(calls[..|calls| - 1], id) + if calls[|calls| - 1].id == id then [calls[|calls| - 1].now] else []
  }

  lemma {:induction false} OwnBucket(rate: Rate, calls: seq<Call>, id: string)
    ensures Get(Unbounded(rate, calls), id) == BucketAfter(None, rate, OwnTimes(calls, id))
  {
    if calls != [] {
      var n := |calls| - 1;
      OwnBucket(rate, calls[..n], id);
      var times := OwnTimes(calls[..n], id);
      if calls[n].id == id {
        AfterOneMore(None, rate, times, calls[n].now);
        assert OwnTimes(calls, id) == times + [calls[n].now];
      } else {
        assert OwnTimes(calls, id) == times;
      }
    }
  }

  /**
   * Each address has its own allowance: as long as the store is large enough every verdict is that
   * of a bucket which saw the earlier calls of that address and no others.
   */
  lemma EachAddressItsOwn(states: seq<Buckets>, maxBuckets: nat, rate: Rate, calls: seq<Call>, k: nat)
    requires Ran(states, maxBuckets, rate, calls) && InTime(calls) && NeverMoreThan(calls, maxBuckets) && k < |calls|
    ensures TokenBucket.Take(Get(states[k], calls[k].id), rate, calls[k].now)
            == TokenBucket.Take(BucketAfter(None, rate, OwnTimes(calls[..k], calls[k].id)), rate, calls[k].now)
  {
    StoreForgetsNothingInBounds(states, maxBuckets, rate, calls, k);
    OwnBucket(rate, calls[..k], calls[k].id);
  }
}
