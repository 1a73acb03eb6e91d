/**
 * The download loop of the full block scan (crates/zipherx-core/src/async_sync.rs): pages of
 * block hashes, each fetched again and again until nothing is left of it, five attempts are
 * used up, or five fetches in a row were empty. A reconnect after three empty fetches gives
 * the three attempts back.
 */
module BatchScan {
  import opened Common

  const BATCH_SIZE: nat := 384
  const MAX_RETRIES: nat := 5
  const RECONNECT_AT: nat := 3

  /** A block hash to fetch, with its height. */
  type Header = (nat, Bytes)

  /** What one fetch brings, as heights of blocks in order; and whether a reconnect right after it would succeed. */
  datatype Event = Event(fails: bool, heights: seq<nat>, reconnects: bool)

  datatype ScanError = FetchFailed | HeightTooLarge

  /** Blocks of a fetch are blocks that were asked for. */
  function Answered(heights: seq<nat>, asked: seq<Header>): seq<nat> {
    if heights == [] then []
    else
      var h := heights[|heights| - 1];
      Answered(heights[..|heights| - 1], asked) + if exists i :: 0 <= i < |asked| && asked[i].0 == h then [h] else []
  }

  /** What is left of `s` once `received` has arrived (`retain`). */
  function Without(s: seq<Header>, received: set<nat>): seq<Header> {
    if s == [] then []
    else Without(s[..|s| - 1], received) + if s[|s| - 1].0 in received then [] else [s[|s| - 1]]
  }

  function Heights(s: seq<Header>): set<nat> {
    set h | h in s :: h.0
  }

  /** Heights are a key of the header table, and its pages come in ascending order. */
  predicate Ascending(s: seq<Header>) {
    forall i, j :: 0 <= i < j < |s| ==> s[i].0 < s[j].0
  }

  lemma {:induction false} AnsweredExactly(heights: seq<nat>, asked: seq<Header>)
    ensures forall h :: h in Answered(heights, asked) <==> h in heights && h in Heights(asked)
  {
    if heights != [] {
      var t, h := heights[..|heights| - 1], heights[|heights| - 1];
      AnsweredExactly(t, asked);
      assert heights == t + [h];
      assert h in Heights(asked) <==> exists i :: 0 <= i < |asked| && asked[i].0 == h;
    }
  }

  lemma {:induction false} WithoutMembers(s: seq<Header>, received: set<nat>)
    ensures |Without(s, received)| <= |s|
    ensures forall h :: h in Without(s, received) <==> h in s && h.0 !in received
  {
    if s != [] {
      var t, last := s[..|s| - 1], s[|s| - 1];
      WithoutMembers(t, received);
      assert s == t + [last];
    }
  }

  lemma {:induction false} WithoutTwice(s: seq<Header>, a: set<nat>, b: set<nat>)
    ensures Without(Without(s, a), b) == Without(s, a + b)
  {
    if s != [] {
      var t, last := s[..|s| - 1], s[|s| - 1];
      WithoutTwice(t, a, b);
      if last.0 in a {
        assert Without(s, a) == Without(t, a);
      } else {
        assert Without(s, a)[..|Without(s, a)| - 1] == Without(t, a);
      }
    }
  }

  lemma {:induction false} WithoutAppend(s: seq<Header>, t: seq<Header>, received: set<nat>)
    ensures Without(s + t, received) == Without(s, received) + Without(t, received)
  {
    if t == [] {
      assert s + t == s;
    } else {
      assert (s + t)[..|s + t| - 1] == s + t[..|t| - 1];
      WithoutAppend(s, t[..|t| - 1], received);
    }
  }

  /** Only heights that occur matter. */
  lemma {:induction false} WithoutOthers(s: seq<Header>, a: set<nat>, b: set<nat>)
    requires forall h :: h in s ==> (h.0 in a <==> h.0 in b)
    ensures Without(s, a) == Without(s, b)
  {
    if s != [] {
      assert s[|s| - 1] in s;
      WithoutOthers(s[..|s| - 1], a, b);
    }
  }

  /** Something received leaves strictly less. */
  lemma {:induction false} ReceivedShrinks(s: seq<Header>, received: set<nat>, h: nat)
    requires h in received && h in Heights(s)
    ensures |Without(s, received)| < |s|
  {
    var t, last := s[..|s| - 1], s[|s| - 1];
    assert s == t + [last];
    WithoutMembers(t, received);
    if last.0 != h {
      ReceivedShrinks(t, received, h);
    }
  }

  // ---------------------------------------------------------------- one batch

  /** The loop's counters: attempts counted, empty fetches in a row, calls made, reconnects that succeeded. */
  datatype Counters = Counters(retry: nat, zeros: nat, calls: nat, reconnects: nat)

  predicate Counted(c: Counters) {
    && c.retry + RECONNECT_AT * c.reconnects == c.calls
    && c.zeros <= c.retry <= MAX_RETRIES
  }

  /** An empty fetch: what it does to the counters, given whether a reconnect would succeed. */
  function AfterEmpty(c: Counters, reconnects: bool): Counters {
    var zeros := c.zeros + 1;
    if zeros == RECONNECT_AT && reconnects then
        Counters(SatSub(c.retry + 1, RECONNECT_AT), 0, c.calls + 1, c.reconnects + 1)
    else Counters(c.retry + 1, zeros, c.calls + 1, c.reconnects)
  }

  function AfterFetch(c: Counters): Counters {
    Counters(c.retry + 1, 0, c.calls + 1, c.reconnects)
  }

  /** A fetch numbered `from` to `to` that did not fail brought a block at `h`. */
  ghost predicate Brings(world: nat -> Event, from: nat, to: nat, h: nat) {
    exists n :: from <= n < to && !world(n).fails && h in world(n).heights
  }

  /** Received is exactly what was asked for and was brought by one of those fetches. */
  ghost predicate Delivered(world: nat -> Event, from: nat, to: nat, asked: set<nat>, received: set<nat>) {
    forall h :: h in received <==> h in asked && Brings(world, from, to, h)
  }

  lemma NothingDelivered(world: nat -> Event, from: nat, asked: set<nat>)
    ensures Delivered(world, from, from, asked, {})
  {
  }

  /** One fetch more, of what had not been received. */
  lemma DeliveredMore(world: nat -> Event, from: nat, to: nat, asked: set<nat>, received: set<nat>, now: set<nat>)
    requires from <= to && Delivered(world, from, to, asked, received)
    requires forall h :: h in now <==> h in asked && h !in received && !world(to).fails && h in world(to).heights
    ensures Delivered(world, from, to + 1, asked, received + now)
  {
    forall h
      ensures Brings(world, from, to + 1, h)
         <==> Brings(world, from, to, h) || (!world(to).fails && h in world(to).heights)
    {
    }
  }

  lemma LeftHeights(batch: seq<Header>, received: set<nat>)
    ensures Heights(Without(batch, received)) == Heights(batch) - received
  {
    WithoutMembers(batch, received);
  }

  lemma {:induction false} SetNoLarger(s: seq<nat>)
    ensures |AsSet(s)| <= |s|
  {
    if s != [] {
      var m := |s| - 1;
      SetNoLarger(s[..m]);
      assert s == s[..m] + [s[m]];
      assert AsSet(s) == AsSet(s[..m]) + {s[m]};
    }
  }

  lemma SumOfSets(a: set<nat>, b: set<nat>)
    ensures |a + b| <= |a| + |b|
  {
    assert |a + b| == |a| + |b - a| && |b| == |b - a| + |a * b|;
  }

  /** Where a batch stands: `left` is what has not been received, and everything received came with a fetch. */
  ghost predicate Standing(batch: seq<Header>, left: seq<Header>, received: set<nat>, fetched: nat,
                           world: nat -> Event, first: nat, calls: nat)
  {
    && left == Without(batch, received) && received <= Heights(batch)
    && Delivered(world, first, first + calls, Heights(batch), received) && |received| <= fetched
  }

  lemma StandingStart(batch: seq<Header>, world: nat -> Event, first: nat)
    ensures Standing(batch, batch, {}, 0, world, first, 0)
  {
    WithoutNothing(batch);
    NothingDelivered(world, first, Heights(batch));
  }

  /** A fetch that failed, or brought nothing that was asked for. */
  lemma StandingStill(batch: seq<Header>, left: seq<Header>, received: set<nat>, fetched: nat,
                      world: nat -> Event, first: nat, calls: nat)
    requires Standing(batch, left, received, fetched, world, first, calls)
    requires world(first + calls).fails || Answered(world(first + calls).heights, left) == []
    ensures Standing(batch, left, received, fetched, world, first, calls + 1)
  {
    hide Without, Answered, Heights, Delivered;
    LeftHeights(batch, received);
    AnsweredExactly(world(first + calls).heights, left);
    forall h
      ensures !(h in Heights(batch) && h !in received && !world(first + calls).fails
                && h in world(first + calls).heights)
    {
      assert h in Answered(world(first + calls).heights, left)
          <==> h in world(first + calls).heights && h in Heights(left);
    }
    DeliveredMore(world, first, first + calls, Heights(batch), received, {});
    assert received + {} == received;
  }

  /** A fetch that brought `got`. */
  lemma StandingAfter(batch: seq<Header>, left: seq<Header>, received: set<nat>, fetched: nat,
                      world: nat -> Event, first: nat, calls: nat, got: seq<nat>)
    requires Standing(batch, left, received, fetched, world, first, calls)
    requires !world(first + calls).fails && got == Answered(world(first + calls).heights, left)
    ensures Standing(batch, Without(left, AsSet(got)), received + AsSet(got), fetched + |got|, world, first, calls + 1)
  {
    hide Without, Answered, Heights, Delivered;
    AnsweredExactly(world(first + calls).heights, left);
    LeftHeights(batch, received);
    WithoutTwice(batch, received, AsSet(got));
    DeliveredMore(world, first, first + calls, Heights(batch), received, AsSet(got));
    SetNoLarger(got);
    SumOfSets(received, AsSet(got));
  }

  /** No answer names a height twice. */
  ghost predicate NoRepeats(world: nat -> Event) {
    forall n :: Distinct(world(n).heights)
  }

  /** Heights whose blocks were stored, in that order: received ones, each once if no answer repeats one. */
  ghost predicate StoredOf(order: seq<nat>, received: set<nat>, world: nat -> Event) {
    (forall h :: h in order ==> h in received) && (NoRepeats(world) ==> Distinct(order))
  }

  /** All that were received. */
  ghost predicate Stored(order: seq<nat>, received: set<nat>, world: nat -> Event) {
    StoredOf(order, received, world) && forall h :: h in received ==> h in order
  }

  lemma StoredLess(order: seq<nat>, received: set<nat>, more: set<nat>, world: nat -> Event)
    requires Stored(order, received, world) && received <= more
    ensures StoredOf(order, more, world)
  {
  }

  lemma StoredNothing(world: nat -> Event)
    ensures Stored([], {}, world)
  {
  }

  lemma {:induction false} AnsweredOnce(heights: seq<nat>, asked: seq<Header>)
    requires Distinct(heights)
    ensures Distinct(Answered(heights, asked))
  {
    if heights != [] {
      var t, h := heights[..|heights| - 1], heights[|heights| - 1];
      assert heights == t + [h];
      DistinctExtend(t, h);
      AnsweredOnce(t, asked);
      AnsweredExactly(t, asked);
      DistinctExtend(Answered(t, asked), h);
    }
  }

  lemma DistinctJoin(a: seq<nat>, b: seq<nat>)
    requires Distinct(a) && Distinct(b) && forall h :: h in a ==> h !in b
    ensures Distinct(a + b)
  {
    forall i, j | 0 <= i < j < |a + b| ensures (a + b)[i] != (a + b)[j] {
      assert i < |a| ==> a[i] in a;
      assert |a| <= j ==> b[j - |a|] in b;
    }
  }

  lemma StoredMore(order: seq<nat>, batch: seq<Header>, left: seq<Header>, received: set<nat>, fetched: nat,
                   world: nat -> Event, first: nat, calls: nat, got: seq<nat>)
    requires Stored(order, received, world) && Standing(batch, left, received, fetched, world, first, calls)
    requires got == Answered(world(first + calls).heights, left)
    ensures Stored(order + got, received + AsSet(got), world) && StoredOf(order, received + AsSet(got), world)
  {
    hide Without, Answered, Distinct;
    AnsweredExactly(world(first + calls).heights, left);
    WithoutMembers(batch, received);
    if NoRepeats(world) {
      AnsweredOnce(world(first + calls).heights, left);
      DistinctJoin(order, got);
    }
  }

  predicate TooHigh(heights: seq<nat>) {
    exists h :: h in heights && U32_MAX < h
  }

  /** The last fetch ended the scan with an error. */
  ghost predicate Fails(world: nat -> Event, from: nat, to: nat) {
    from < to && (world(to - 1).fails || TooHigh(world(to - 1).heights))
  }

  /**
   * What fetching a batch achieves: received is exactly what was asked for and came with a fetch
   * that did not fail, and left is exactly the rest. Reconnects were made after the fetches `at`, at
   * most `bound` of them; then 5 + 3 * |at| fetches are made, unless all arrives or an error ends it
   * before. Before any silent node that is reached with all `bound` reconnects. It ends in an error exactly if a
   * fetch failed, which was then the last one, or brought a height of more than 32 bits.
   */
  ghost predicate Fetched(batch: seq<Header>, world: nat -> Event, first: nat, bound: nat,
                          r: Result<seq<Header>, ScanError>, received: set<nat>, fetched: nat, calls: nat,
                          at: set<nat>, order: seq<nat>)
  {
    && Delivered(world, first, first + calls, Heights(batch), received) && |received| <= fetched
    && received <= Heights(batch) && StoredOf(order, received, world) && (r.Ok? ==> Stored(order, received, world))
    && ReconnectsAt(world, first, first + calls, Heights(batch), bound, at) && calls <= 5 + 3 * |at|
    && (r.Ok? ==> fetched == |order|)
    && (r.Ok? ==> r.value == Without(batch, received) && (r.value != [] ==> calls == 5 + 3 * |at|))
    && (r.Ok? <==> Untroubled(world, first, first + calls, received))
    && (r.Err? ==> Fails(world, first, first + calls) && (r.error == FetchFailed <==> world(first + calls - 1).fails))
    && (Silent(world) && batch != [] ==>
          r == Ok(batch) && |at| == bound && calls == MAX_RETRIES + RECONNECT_AT * bound)
  }

  /** A fetch that does not fail and brings nothing that was asked for and had not come before. */
  ghost predicate Empty(world: nat -> Event, first: nat, asked: set<nat>, n: nat) {
    !world(n).fails && forall h :: h in asked && h in world(n).heights ==> Brings(world, first, n, h)
  }

  /** Fetch `n` is the third empty one in a row, and no more, since the last reconnect or whatever else came before. */
  ghost predicate ThirdEmpty(world: nat -> Event, first: nat, asked: set<nat>, at: set<nat>, n: nat) {
    && first + 2 <= n
    && Empty(world, first, asked, n - 2) && Empty(world, first, asked, n - 1) && Empty(world, first, asked, n)
    && n - 2 !in at && n - 1 !in at
    && (n - 2 == first || n - 3 in at || !Empty(world, first, asked, n - 3))
  }

  /** Reconnects are made exactly after a third empty fetch, where one succeeds, until they are used up. */
  ghost predicate ReconnectsAt(world: nat -> Event, first: nat, to: nat, asked: set<nat>, bound: nat, at: set<nat>) {
    && |at| <= bound
    && (forall n :: n in at ==> first <= n < to && ThirdEmpty(world, first, asked, at, n) && world(n).reconnects)
    && forall n :: first <= n < to && ThirdEmpty(world, first, asked, at, n) && world(n).reconnects ==>
         n in at || |at| == bound
  }

  /** The last `zeros` fetches up to `to` were empty, and not the one before, unless it was followed by a reconnect. */
  ghost predicate Streak(world: nat -> Event, first: nat, to: nat, asked: set<nat>, at: set<nat>, zeros: nat) {
    && first + zeros <= to
    && (forall n :: to - zeros <= n < to ==> Empty(world, first, asked, n) && n !in at)
    && (to - zeros == first || to - zeros - 1 in at || !Empty(world, first, asked, to - zeros - 1))
  }

  lemma NoReconnects(world: nat -> Event, first: nat, asked: set<nat>, bound: nat)
    ensures ReconnectsAt(world, first, first, asked, bound, {}) && Streak(world, first, first, asked, {}, 0)
  {
  }

  /** A fetch that is not empty. */
  lemma StreakEnds(world: nat -> Event, first: nat, to: nat, asked: set<nat>, bound: nat, at: set<nat>)
    requires ReconnectsAt(world, first, to, asked, bound, at) && first <= to && !Empty(world, first, asked, to)
    ensures ReconnectsAt(world, first, to + 1, asked, bound, at) && Streak(world, first, to + 1, asked, at, 0)
  {
    hide Empty, ThirdEmpty;
    if ThirdEmpty(world, first, asked, at, to) {
      ThirdLate(world, first, asked, at, to);
    }
  }

  /** An empty one, and what it does to the counters. */
  lemma StreakGrows(world: nat -> Event, first: nat, to: nat, asked: set<nat>, bound: nat, at: set<nat>, c: Counters)
    requires ReconnectsAt(world, first, to, asked, bound, at) && Streak(world, first, to, asked, at, c.zeros)
    requires Empty(world, first, asked, to) && c.reconnects == |at|
    ensures var d := AfterEmpty(c, world(to).reconnects && |at| < bound);
            var now := if d.reconnects == c.reconnects then at else at + {to};
            && d.reconnects == |now|
            && ReconnectsAt(world, first, to + 1, asked, bound, now)
            && Streak(world, first, to + 1, asked, now, d.zeros)
  {
    hide Empty, ThirdEmpty;
    NotYet(world, first, to, asked, bound, at);
    ThirdExactly(world, first, to, asked, at, c.zeros);
    if c.zeros == 2 && world(to).reconnects && |at| < bound {
      Reconnecting(world, first, to, asked, bound, at);
    }
  }

  lemma NotYet(world: nat -> Event, first: nat, to: nat, asked: set<nat>, bound: nat, at: set<nat>)
    requires ReconnectsAt(world, first, to, asked, bound, at)
    ensures to !in at
  {
  }

  lemma Reconnecting(world: nat -> Event, first: nat, to: nat, asked: set<nat>, bound: nat, at: set<nat>)
    requires ReconnectsAt(world, first, to, asked, bound, at) && ThirdEmpty(world, first, asked, at, to)
    requires world(to).reconnects && |at| < bound
    ensures ReconnectsAt(world, first, to + 1, asked, bound, at + {to})
    ensures Streak(world, first, to + 1, asked, at + {to}, 0) && |at + {to}| == |at| + 1
  {
    hide Empty, ThirdEmpty;
    NotYet(world, first, to, asked, bound, at);
    var now := at + {to};
    forall n: nat | n <= to
      ensures ThirdEmpty(world, first, asked, now, n) <==> ThirdEmpty(world, first, asked, at, n)
    {
      ThirdBefore(world, first, to, asked, at, n);
    }
    ThirdLate(world, first, asked, at, to);
    assert |now| == |at| + 1 <= bound;
    forall n | n in now ensures first <= n < to + 1 && ThirdEmpty(world, first, asked, now, n) && world(n).reconnects {
      if n in at {
        assert ThirdEmpty(world, first, asked, at, n);
      }
    }
  }

  lemma ThirdLate(world: nat -> Event, first: nat, asked: set<nat>, at: set<nat>, n: nat)
    requires ThirdEmpty(world, first, asked, at, n)
    ensures first + 2 <= n && Empty(world, first, asked, n)
  {
  }

  lemma ThirdBefore(world: nat -> Event, first: nat, to: nat, asked: set<nat>, at: set<nat>, n: nat)
    requires n <= to
    ensures ThirdEmpty(world, first, asked, at + {to}, n) <==> ThirdEmpty(world, first, asked, at, n)
  {
    hide Empty;
  }

  lemma ThirdExactly(world: nat -> Event, first: nat, to: nat, asked: set<nat>, at: set<nat>, zeros: nat)
    requires Streak(world, first, to, asked, at, zeros) && Empty(world, first, asked, to) && to !in at
    ensures ThirdEmpty(world, first, asked, at, to) <==> zeros == 2
  {
    hide Empty;
  }

  /** What a fetch brings of what is left is empty as it is among all that was asked for. */
  lemma EmptyAnswer(batch: seq<Header>, left: seq<Header>, received: set<nat>, fetched: nat,
                    world: nat -> Event, first: nat, calls: nat)
    requires Standing(batch, left, received, fetched, world, first, calls) && !world(first + calls).fails
    ensures Empty(world, first, Heights(batch), first + calls) <==> Answered(world(first + calls).heights, left) == []
  {
    hide Without, Answered, Heights, Brings;
    var heights := world(first + calls).heights;
    LeftHeights(batch, received);
    AnsweredExactly(heights, left);
    if Answered(heights, left) != [] {
      assert Answered(heights, left)[0] in Answered(heights, left);
    }
  }

  /**
   * The loop over one batch: fetch, count, reconnect after three empty fetches, until nothing is
   * left or five attempts count.
   */
  method FetchBatch(batch: seq<Header>, world: nat -> Event, first: nat, bound: nat)
    returns (r: Result<seq<Header>, ScanError>, received: set<nat>, fetched: nat, calls: nat, ghost at: set<nat>,
             ghost order: seq<nat>)
    ensures Fetched(batch, world, first, bound, r, received, fetched, calls, at, order)
    ensures Delivered(world, first, first + calls, Heights(batch), received)
    ensures r.Ok? ==> r.value == Without(batch, received)
    ensures r.Ok? <==> Untroubled(world, first, first + calls, received)
  {
    hide Without, Answered, AfterEmpty, AfterFetch, AsSet, TooHigh, Fetched, InProgress, Delivered, Heights,
         Untroubled;
    var left, c := batch, Counters(0, 0, 0, 0);
    received, fetched, at, order := {}, 0, {}, [];
    Starting(batch, world, first, bound);
    while left != [] && c.retry < MAX_RETRIES
      invariant InProgress(batch, world, first, bound, Progress(left, received, fetched, at, order, c))
      invariant c.reconnects <= bound
      decreases bound - c.reconnects, MAX_RETRIES - c.retry
    {
      var event := world(first + c.calls);
      var got := Answered(event.heights, left);
      ghost var p := Progress(left, received, fetched, at, order, c);
      if event.fails || got == [] {
        if event.fails {
          FailedFetch(batch, world, first, bound, p);
          FetchedMeans(batch, world, first, bound, Err(FetchFailed), received, fetched, c.calls + 1, at, order);
          return Err(FetchFailed), received, fetched, c.calls + 1, at, order;
        }
        EmptyFetch(batch, world, first, bound, p);
        ghost var was := c;
        c := AfterEmpty(c, event.reconnects && c.reconnects < bound);
        at := if c.reconnects == was.reconnects then at else at + {first + was.calls};
        if MAX_RETRIES <= c.zeros {
          Finished(batch, world, first, bound, Progress(left, received, fetched, at, order, c));
          FetchedMeans(batch, world, first, bound, Ok(left), received, fetched, c.calls, at, order);
          return Ok(left), received, fetched, c.calls, at, order;
        }
      } else {
        FullFetch(batch, world, first, bound, p, got);
        left, received, fetched := Without(left, AsSet(got)), received + AsSet(got), fetched + |got|;
        c := AfterFetch(c);
        if TooHigh(got) {
          FetchedMeans(batch, world, first, bound, Err(HeightTooLarge), received, fetched, c.calls, at, order);
          return Err(HeightTooLarge), received, fetched, c.calls, at, order;
        }
        order := order + got;
      }
    }
    Finished(batch, world, first, bound, Progress(left, received, fetched, at, order, c));
    FetchedMeans(batch, world, first, bound, Ok(left), received, fetched, c.calls, at, order);
    return Ok(left), received, fetched, c.calls, at, order;
  }

  lemma FetchedMeans(batch: seq<Header>, world: nat -> Event, first: nat, bound: nat,
                     r: Result<seq<Header>, ScanError>, received: set<nat>, fetched: nat, calls: nat, at: set<nat>,
                     order: seq<nat>)
    requires Fetched(batch, world, first, bound, r, received, fetched, calls, at, order)
    ensures Delivered(world, first, first + calls, Heights(batch), received)
    ensures r.Ok? ==> r.value == Without(batch, received)
    ensures r.Ok? <==> Untroubled(world, first, first + calls, received)
  {
  }

  /** Where the loop stands. */
  datatype Progress = Progress(left: seq<Header>, received: set<nat>, fetched: nat, at: set<nat>, order: seq<nat>,
                               c: Counters)

  ghost predicate InProgress(batch: seq<Header>, world: nat -> Event, first: nat, bound: nat, p: Progress) {
    && Standing(batch, p.left, p.received, p.fetched, world, first, p.c.calls)
    && Stored(p.order, p.received, world) && Counted(p.c) && p.c.reconnects <= bound
    && StillWaiting(world, batch, p.left, p.c, bound) && p.fetched == |p.order|
    && Untroubled(world, first, first + p.c.calls, p.received)
    && p.c.reconnects == |p.at| && ReconnectsAt(world, first, first + p.c.calls, Heights(batch), bound, p.at)
    && Streak(world, first, first + p.c.calls, Heights(batch), p.at, p.c.zeros)
  }

  lemma Starting(batch: seq<Header>, world: nat -> Event, first: nat, bound: nat)
    ensures InProgress(batch, world, first, bound, Progress(batch, {}, 0, {}, [], Counters(0, 0, 0, 0)))
  {
    hide Standing, Stored, Untroubled, StillWaiting, Counted, ReconnectsAt, Streak;
    StoredNothing(world);
    NoReconnects(world, first, Heights(batch), bound);
    StandingStart(batch, world, first);
    CountsStart();
    UntroubledStart(world, first);
    StartsWaiting(world, batch, bound);
  }

  lemma FailedFetch(batch: seq<Header>, world: nat -> Event, first: nat, bound: nat, p: Progress)
    requires InProgress(batch, world, first, bound, p) && p.c.retry < MAX_RETRIES
    requires world(first + p.c.calls).fails
    ensures Fetched(batch, world, first, bound, Err(FetchFailed), p.received, p.fetched, p.c.calls + 1, p.at, p.order)
  {
    hide Without, Answered, Heights, Delivered, Counted, AfterEmpty, Silent, Stored, StoredOf, Standing, Untroubled,
         StillWaiting, Fails, ReconnectsAt, Streak;
    WaitsOn(world, batch, p.left, first, p.c, bound);
    StandingStill(batch, p.left, p.received, p.fetched, world, first, p.c.calls);
    StandingMeans(batch, p.left, p.received, p.fetched, world, first, p.c.calls + 1);
    StreakEnds(world, first, first + p.c.calls, Heights(batch), bound, p.at);
    CountOne(p.c, false);
    CountsBound(AfterFetch(p.c));
    UntroubledMore(world, first, first + p.c.calls, p.received, []);
    FetchFails(world, first, first + p.c.calls + 1);
    StoredLess(p.order, p.received, p.received, world);
  }

  lemma EmptyFetch(batch: seq<Header>, world: nat -> Event, first: nat, bound: nat, p: Progress)
    requires InProgress(batch, world, first, bound, p) && p.c.retry < MAX_RETRIES
    requires var event := world(first + p.c.calls); !event.fails && Answered(event.heights, p.left) == []
    ensures var d := AfterEmpty(p.c, world(first + p.c.calls).reconnects && p.c.reconnects < bound);
            var at := if d.reconnects == p.c.reconnects then p.at else p.at + {first + p.c.calls};
            && (p.c.reconnects < d.reconnects || (d.reconnects == p.c.reconnects && d.retry == p.c.retry + 1))
            && d.reconnects <= bound && d.zeros <= d.retry
            && InProgress(batch, world, first, bound, p.(c := d, at := at))
  {
    hide Without, Answered, Heights, Delivered, Counted, AfterEmpty, Silent, Stored, StoredOf, Standing, Untroubled,
         StillWaiting, Fails, ReconnectsAt, Streak, Empty;
    WaitsOn(world, batch, p.left, first, p.c, bound);
    StandingStill(batch, p.left, p.received, p.fetched, world, first, p.c.calls);
    EmptyAnswer(batch, p.left, p.received, p.fetched, world, first, p.c.calls);
    StreakGrows(world, first, first + p.c.calls, Heights(batch), bound, p.at, p.c);
    CountOne(p.c, world(first + p.c.calls).reconnects && p.c.reconnects < bound);
    UntroubledMore(world, first, first + p.c.calls, p.received, []);
  }

  lemma FullFetch(batch: seq<Header>, world: nat -> Event, first: nat, bound: nat, p: Progress, got: seq<nat>)
    requires InProgress(batch, world, first, bound, p) && p.c.retry < MAX_RETRIES
    requires !world(first + p.c.calls).fails && got == Answered(world(first + p.c.calls).heights, p.left) != []
    ensures var received, d := p.received + AsSet(got), AfterFetch(p.c);
            && d.reconnects == p.c.reconnects && d.retry == p.c.retry + 1
            && if TooHigh(got) then
                 Fetched(batch, world, first, bound, Err(HeightTooLarge), received, p.fetched + |got|, d.calls,
                         p.at, p.order)
               else InProgress(batch, world, first, bound,
                               Progress(Without(p.left, AsSet(got)), received, p.fetched + |got|, p.at,
                                        p.order + got, d))
  {
    hide Without, Answered, Heights, Delivered, Counted, AfterEmpty, AsSet, Silent, Stored, StoredOf, Standing,
         Untroubled, StillWaiting, Fails, TooHigh, ReconnectsAt, Streak, Empty;
    EmptyAnswer(batch, p.left, p.received, p.fetched, world, first, p.c.calls);
    StreakEnds(world, first, first + p.c.calls, Heights(batch), bound, p.at);
    WaitsOn(world, batch, p.left, first, p.c, bound);
    CountOne(p.c, false);
    UntroubledMore(world, first, first + p.c.calls, p.received, got);
    StandingAfter(batch, p.left, p.received, p.fetched, world, first, p.c.calls, got);
    StoredMore(p.order, batch, p.left, p.received, p.fetched, world, first, p.c.calls, got);
    if TooHigh(got) {
      TooHighFails(world, first, first + p.c.calls + 1, p.left);
      CountsBound(AfterFetch(p.c));
      StandingMeans(batch, Without(p.left, AsSet(got)), p.received + AsSet(got), p.fetched + |got|, world, first,
                    p.c.calls + 1);
    } else {
      Interrupted(world, batch, Without(p.left, AsSet(got)), AfterFetch(p.c), bound);
    }
  }

  lemma Finished(batch: seq<Header>, world: nat -> Event, first: nat, bound: nat, p: Progress)
    requires InProgress(batch, world, first, bound, p) && (p.left == [] || MAX_RETRIES <= p.c.retry)
    ensures Fetched(batch, world, first, bound, Ok(p.left), p.received, p.fetched, p.c.calls, p.at, p.order)
  {
    hide Without, Heights, Delivered, Counted, Silent, Stored, StoredOf, Standing, Untroubled, StillWaiting,
         ReconnectsAt, Streak;
    CountsBound(p.c);
    StandingMeans(batch, p.left, p.received, p.fetched, world, first, p.c.calls);
    StoredLess(p.order, p.received, p.received, world);
    WaitedOut(world, batch, p.left, p.c, bound);
  }

  /** No fetch failed, and nothing received is too high for 32 bits. */
  ghost predicate Untroubled(world: nat -> Event, from: nat, to: nat, received: set<nat>) {
    (forall n :: from <= n < to ==> !world(n).fails) && forall h :: h in received ==> h <= 0xFFFF_FFFF
  }

  lemma UntroubledMore(world: nat -> Event, from: nat, to: nat, received: set<nat>, got: seq<nat>)
    requires Untroubled(world, from, to, received) && from <= to
    ensures Untroubled(world, from, to + 1, received + AsSet(got)) <==> !world(to).fails && !TooHigh(got)
    ensures Untroubled(world, from, to + 1, received) <==> !world(to).fails
  {
    assert forall h :: h in AsSet(got) <==> h in got;
  }

  lemma UntroubledStart(world: nat -> Event, from: nat)
    ensures Untroubled(world, from, from, {})
  {
  }

  lemma StandingMeans(batch: seq<Header>, left: seq<Header>, received: set<nat>, fetched: nat,
                      world: nat -> Event, first: nat, calls: nat)
    requires Standing(batch, left, received, fetched, world, first, calls)
    ensures left == Without(batch, received) && received <= Heights(batch)
    ensures Delivered(world, first, first + calls, Heights(batch), received) && |received| <= fetched
  {
  }

  lemma FetchFails(world: nat -> Event, from: nat, to: nat)
    requires from < to && world(to - 1).fails
    ensures Fails(world, from, to)
  {
  }

  lemma TooHighFails(world: nat -> Event, from: nat, to: nat, left: seq<Header>)
    requires from < to && TooHigh(Answered(world(to - 1).heights, left))
    ensures Fails(world, from, to)
  {
    AnsweredExactly(world(to - 1).heights, left);
  }

  /** Before a silent node nothing has arrived, and every attempt since the last reconnect was empty. */
  ghost predicate StillWaiting(world: nat -> Event, batch: seq<Header>, left: seq<Header>, c: Counters, bound: nat) {
    Silent(world) ==> left == batch && Waiting(c, bound)
  }

  lemma WaitsOn(world: nat -> Event, batch: seq<Header>, left: seq<Header>, first: nat, c: Counters, bound: nat)
    requires StillWaiting(world, batch, left, c, bound) && c.retry < MAX_RETRIES
    ensures var event := world(first + c.calls);
            && (Silent(world) ==> !event.fails && Answered(event.heights, left) == [])
            && StillWaiting(world, batch, left, AfterEmpty(c, event.reconnects && c.reconnects < bound), bound)
  {
    hide AfterEmpty, Waiting, Answered;
    if Silent(world) {
      SilentAnswer(world, first + c.calls, left);
      WaitOnce(c, bound);
    }
  }

  lemma Interrupted(world: nat -> Event, batch: seq<Header>, left: seq<Header>, c: Counters, bound: nat)
    requires !Silent(world)
    ensures StillWaiting(world, batch, left, c, bound)
  {
  }

  lemma WaitedOut(world: nat -> Event, batch: seq<Header>, left: seq<Header>, c: Counters, bound: nat)
    requires StillWaiting(world, batch, left, c, bound) && (batch != [] && left == batch ==> MAX_RETRIES <= c.retry)
    ensures Silent(world) && batch != [] ==>
              left == batch && c.reconnects == bound && c.calls == MAX_RETRIES + RECONNECT_AT * bound
  {
    if Silent(world) && batch != [] {
      WaitOver(c, bound);
    }
  }

  /** One more fetch, empty or not, keeps the counters straight. */
  lemma CountOne(c: Counters, reconnects: bool)
    requires Counted(c) && c.retry < MAX_RETRIES
    ensures Counted(AfterFetch(c)) && AfterFetch(c) == c.(retry := c.retry + 1, zeros := 0, calls := c.calls + 1)
    ensures var d := AfterEmpty(c, reconnects);
            && d.calls == c.calls + 1
            && d.calls <= MAX_RETRIES + RECONNECT_AT * d.reconnects
            && Counted(d) && d.zeros <= d.retry
            && if d.reconnects == c.reconnects then d.retry == c.retry + 1
                else reconnects && d.reconnects == c.reconnects + 1
  {
  }

  lemma CountsStart()
    ensures Counted(Counters(0, 0, 0, 0))
  {
  }

  lemma CountsBound(c: Counters)
    requires Counted(c)
    ensures c.calls <= MAX_RETRIES + RECONNECT_AT * c.reconnects
    ensures MAX_RETRIES <= c.retry ==> c.calls == MAX_RETRIES + RECONNECT_AT * c.reconnects
  {
  }

  lemma {:induction false} WithoutNothing(s: seq<Header>)
    ensures Without(s, {}) == s
  {
    if s != [] {
      WithoutNothing(s[..|s| - 1]);
    }
  }

  /** A node that answers every fetch with nothing, and to which every reconnect succeeds. */
  ghost predicate Silent(world: nat -> Event) {
    forall n :: !world(n).fails && world(n).heights == [] && world(n).reconnects
  }

  /** The counters before such a node: every attempt since the last reconnect was an empty one. */
  predicate Waiting(c: Counters, bound: nat) {
    && c.retry == c.zeros && c.calls == RECONNECT_AT * c.reconnects + c.zeros
    && c.reconnects <= bound && c.zeros <= MAX_RETRIES && (RECONNECT_AT <= c.zeros ==> c.reconnects == bound)
  }

  lemma WaitOnce(c: Counters, bound: nat)
    requires Waiting(c, bound) && c.retry < MAX_RETRIES
    ensures Waiting(AfterEmpty(c, c.reconnects < bound), bound)
  {
  }

  lemma WaitOver(c: Counters, bound: nat)
    requires Waiting(c, bound) && MAX_RETRIES <= c.retry
    ensures c.reconnects == bound && c.calls == MAX_RETRIES + RECONNECT_AT * bound
  {
  }

  lemma StartsWaiting(world: nat -> Event, batch: seq<Header>, bound: nat)
    ensures StillWaiting(world, batch, batch, Counters(0, 0, 0, 0), bound)
  {
  }

  lemma SilentAnswer(world: nat -> Event, n: nat, asked: seq<Header>)
    requires Silent(world)
    ensures !world(n).fails && world(n).reconnects && Answered(world(n).heights, asked) == []
  {
  }

  /** So for any number of reconnects there is a node that takes all of the fetches that they allow. */
  method WorstCase(batch: seq<Header>, bound: nat) returns (calls: nat)
    requires batch != []
    ensures calls == MAX_RETRIES + RECONNECT_AT * bound
  {
    var world := (n: nat) => Event(false, [], true);
    var r, received, fetched, made, at, order := FetchBatch(batch, world, 0, bound);
    calls := made;
  }

  // ---------------------------------------------------------------- the whole scan

  /** `get_block_hashes_in_range_paged` with the batch size as limit. */
  function Page(headers: seq<Header>, offset: nat): seq<Header> {
    if |headers| <= offset then [] else headers[offset..Min(offset + BATCH_SIZE, |headers|)]
  }

  /** Two heights whose hashes are fetched in one batch. */
  ghost predicate SameBatch(headers: seq<Header>, g: nat, h: nat) {
    exists n: nat :: g in Heights(Page(headers, n * BATCH_SIZE)) && h in Heights(Page(headers, n * BATCH_SIZE))
  }

  /** A lower block is stored behind a higher one only within a batch. */
  ghost predicate InTurn(headers: seq<Header>, order: seq<nat>) {
    forall i, j :: 0 <= i < j < |order| && order[j] < order[i] ==> SameBatch(headers, order[i], order[j])
  }

  lemma NoTurns(headers: seq<Header>)
    ensures InTurn(headers, [])
  {
  }

  /** One more batch: everything in it is higher than what was stored before. */
  lemma NextInTurn(headers: seq<Header>, cursor: nat, n: nat, order: seq<nat>, now: seq<nat>)
    requires Ascending(headers) && cursor == n * BATCH_SIZE && cursor <= |headers| && InTurn(headers, order)
    requires forall h :: h in order ==> h in Heights(headers[..cursor])
    requires forall h :: h in now ==> h in Heights(Page(headers, cursor))
    ensures InTurn(headers, order + now)
    ensures forall h :: h in order ==> h !in now
    ensures forall h :: h in order + now ==> h in Heights(headers[..cursor + |Page(headers, cursor)|])
  {
    hide Ascending, Heights, SameBatch;
    var batch := Page(headers, cursor);
    var all := order + now;
    HigherBatch(headers, cursor);
    forall i, j | 0 <= i < j < |all| ensures all[j] < all[i] ==> SameBatch(headers, all[i], all[j]) {
      if j < |order| {
        assert all[i] == order[i] && all[j] == order[j];
      } else if i < |order| {
        assert order[i] in order && now[j - |order|] in now;
      } else {
        assert now[i - |order|] in now && now[j - |order|] in now;
        TogetherFetched(headers, n, all[i], all[j]);
      }
    }
  }

  lemma TogetherFetched(headers: seq<Header>, n: nat, g: nat, h: nat)
    requires g in Heights(Page(headers, n * BATCH_SIZE)) && h in Heights(Page(headers, n * BATCH_SIZE))
    ensures SameBatch(headers, g, h)
  {
  }

  lemma HigherBatch(headers: seq<Header>, cursor: nat)
    requires Ascending(headers) && cursor <= |headers|
    ensures forall g, h :: g in Heights(headers[..cursor]) && h in Heights(Page(headers, cursor)) ==> g < h
    ensures Heights(headers[..cursor + |Page(headers, cursor)|])
         == Heights(headers[..cursor]) + Heights(Page(headers, cursor))
  {
    var batch := Page(headers, cursor);
    assert headers[..cursor + |batch|] == headers[..cursor] + batch;
    forall a, b | a in headers[..cursor] && b in batch ensures a.0 < b.0 {
      var i :| 0 <= i < cursor && headers[i] == a;
      var j :| 0 <= j < |batch| && batch[j] == b;
      assert headers[cursor + j] == b;
    }
  }

  lemma NextStored(headers: seq<Header>, cursor: nat, n: nat, order: seq<nat>, received: set<nat>,
                   now: seq<nat>, arrived: set<nat>, world: nat -> Event)
    requires Ascending(headers) && cursor == n * BATCH_SIZE && cursor <= |headers| && InTurn(headers, order)
    requires Stored(order, received, world) && received <= Heights(headers[..cursor])
    requires StoredOf(now, arrived, world) && arrived <= Heights(Page(headers, cursor))
    ensures InTurn(headers, order + now) && StoredOf(order + now, received + arrived, world)
    ensures Stored(now, arrived, world) ==> Stored(order + now, received + arrived, world)
  {
    hide Ascending, Heights, InTurn, Distinct, Page, NoRepeats;
    NextInTurn(headers, cursor, n, order, now);
    if NoRepeats(world) {
      DistinctJoin(order, now);
    }
  }

  lemma PageIs(headers: seq<Header>, cursor: nat, n: nat)
    requires cursor == n * BATCH_SIZE && cursor < |headers|
    ensures var next := cursor + |Page(headers, cursor)|;
            && cursor < next <= |headers| && headers[..next] == headers[..cursor] + Page(headers, cursor)
            && (next < |headers| ==> next == (n + 1) * BATCH_SIZE) && next <= (n + 1) * BATCH_SIZE
  {
  }

  /**
   * Batch by batch: fetches `starts[n]` up to `starts[n + 1]` were for batch `n`, and of its heights
   * exactly those were received that they brought; five were made if something of it is left.
   */
  ghost predicate Windows(headers: seq<Header>, world: nat -> Event, received: set<nat>, starts: seq<nat>) {
    && starts != [] && starts[0] == 0
    && forall n :: 0 <= n < |starts| - 1 ==> Window(headers, world, received, n, starts[n], starts[n + 1])
  }

  ghost predicate Window(headers: seq<Header>, world: nat -> Event, received: set<nat>, n: nat, from: nat, to: nat) {
    && from <= to
    && (forall h :: h in Heights(Page(headers, n * BATCH_SIZE)) ==> (h in received <==> Brings(world, from, to, h)))
    && (Heights(Page(headers, n * BATCH_SIZE)) <= received || from + MAX_RETRIES <= to || Fails(world, from, to))
  }

  lemma WindowsStart(headers: seq<Header>, world: nat -> Event)
    ensures Windows(headers, world, {}, [0])
  {
  }

  lemma NextWindow(headers: seq<Header>, world: nat -> Event, received: set<nat>, now: set<nat>, starts: seq<nat>,
                   to: nat)
    requires Windows(headers, world, received, starts) && Ascending(headers)
    requires var n := |starts| - 1; var from := starts[n];
             && n * BATCH_SIZE <= |headers| && received <= Heights(headers[..n * BATCH_SIZE]) && from <= to
             && Delivered(world, from, to, Heights(Page(headers, n * BATCH_SIZE)), now)
             && (Heights(Page(headers, n * BATCH_SIZE)) <= now || from + MAX_RETRIES <= to || Fails(world, from, to))
    ensures Windows(headers, world, received + now, starts + [to])
  {
    hide Ascending, Heights, Brings, Page, Fails;
    var all, last := starts + [to], |starts| - 1;
    HigherBatch(headers, last * BATCH_SIZE);
    forall n | 0 <= n < last ensures Window(headers, world, received + now, n, all[n], all[n + 1]) {
      assert Window(headers, world, received, n, starts[n], starts[n + 1]);
      EarlierBatch(headers, n, last);
    }
    assert all[last] == starts[last] && all[last + 1] == to;
    assert Window(headers, world, received + now, last, starts[last], to);
  }

  lemma EarlierBatch(headers: seq<Header>, n: nat, m: nat)
    requires n < m && m * BATCH_SIZE <= |headers|
    ensures Heights(Page(headers, n * BATCH_SIZE)) <= Heights(headers[..m * BATCH_SIZE])
  {
    MulLess(n, m, BATCH_SIZE);
    assert Page(headers, n * BATCH_SIZE) == headers[n * BATCH_SIZE..n * BATCH_SIZE + BATCH_SIZE];
    forall h | h in Page(headers, n * BATCH_SIZE) ensures h in headers[..m * BATCH_SIZE] {
      var i :| n * BATCH_SIZE <= i < n * BATCH_SIZE + BATCH_SIZE && headers[i] == h;
      assert headers[..m * BATCH_SIZE][i] == h;
    }
  }

  /**
   * Every header hash in range is accounted for: either a block at its height was received, or
   * it is one of those counted as unfetched. The blocks are stored in turn, whatever the peers
   * answer and however the scan ends: a lower one behind a higher one only within a batch.
   */
  method FullScan(headers: seq<Header>, world: nat -> Event, bound: nat)
    returns (r: Result<(nat, nat), ScanError>, ghost received: set<nat>, ghost order: seq<nat>, ghost starts: seq<nat>)
    requires Ascending(headers)
    ensures received <= Heights(headers)
    ensures r.Ok? ==> r.value.1 == |Without(headers, received)| == |headers| - |received|
    ensures Windows(headers, world, received, starts)
    ensures r.Ok? ==> |headers| <= (|starts| - 1) * BATCH_SIZE
    ensures r.Ok? ==> |received| <= r.value.0 == |order|
    ensures InTurn(headers, order) && StoredOf(order, received, world)
    ensures r.Ok? ==> Stored(order, received, world)
  {
    hide Without, Heights, Ascending, Delivered, InTurn, StoredOf, Stored, Page, Windows, Fails;
    var cursor, calls, fetched, unfetched := 0, 0, 0, 0;
    ghost var n := 0;
    received, order, starts := {}, [], [0];
    WindowsStart(headers, world);
    NoTurns(headers);
    StoredNothing(world);
    WithoutNothing([]);
    assert headers[..0] == [];
    while cursor < |headers|
      invariant cursor <= |headers| && received <= Heights(headers[..cursor])
      invariant unfetched == |Without(headers[..cursor], received)|
      invariant Windows(headers, world, received, starts) && |received| <= fetched == |order|
      invariant |starts| == n + 1 && starts[n] == calls && (|headers| <= cursor ==> |headers| <= n * BATCH_SIZE)
      invariant InTurn(headers, order) && Stored(order, received, world)
      invariant cursor < |headers| ==> cursor == n * BATCH_SIZE
    {
      var batch := Page(headers, cursor);
      ghost var next := cursor + |batch|;
      PageIs(headers, cursor, n);
      var left, now, count, made, at, stored := FetchBatch(batch, world, calls, bound);
      AscendingPrefix(headers, next);
      BatchAccounts(headers[..cursor], batch, received, now);
      BatchDone(batch, world, calls, now, made, left);
      NextWindow(headers, world, received, now, starts, calls + made);
      SumOfSets(received, now);
      NextStored(headers, cursor, n, order, received, stored, now, world);
      received, order, starts := received + now, order + stored, starts + [calls + made];
      if left.Err? {
        return Err(left.error), received, order, starts;
      }
      PageIs(headers, cursor, n);
      cursor, calls, fetched, unfetched := cursor + |batch|, calls + made, fetched + count, unfetched + |left.value|;
      n := n + 1;
    }
    assert headers[..cursor] == headers;
    WithoutCounts(headers, received);
    StoredLess(order, received, received, world);
    return Ok((fetched, unfetched)), received, order, starts;
  }

  /** A batch is done when all of it was received, or five fetches were made, or one ended the scan. */
  lemma BatchDone(batch: seq<Header>, world: nat -> Event, first: nat, now: set<nat>, made: nat,
                  left: Result<seq<Header>, ScanError>)
    requires left.Ok? ==> left.value == Without(batch, now) && (left.value != [] ==> MAX_RETRIES <= made)
    requires left.Err? ==> Fails(world, first, first + made)
    ensures Heights(batch) <= now || first + MAX_RETRIES <= first + made || Fails(world, first, first + made)
  {
    WithoutMembers(batch, now);
  }

  lemma AscendingPrefix(s: seq<Header>, n: nat)
    requires Ascending(s) && n <= |s|
    ensures Ascending(s[..n]) && Heights(s[..n]) <= Heights(s)
  {
  }

  /** A new batch does not disturb what is known about the earlier ones. */
  lemma BatchAccounts(before: seq<Header>, batch: seq<Header>, received: set<nat>, now: set<nat>)
    requires Ascending(before + batch) && received <= Heights(before) && now <= Heights(batch)
    ensures Heights(before + batch) == Heights(before) + Heights(batch)
    ensures Without(before + batch, received + now) == Without(before, received) + Without(batch, now)
  {
    var all := before + batch;
    forall a, b | a in before && b in batch ensures a.0 != b.0 {
      var i :| 0 <= i < |before| && before[i] == a;
      var j :| 0 <= j < |batch| && batch[j] == b;
      assert all[i].0 < all[|before| + j].0;
    }
    WithoutAppend(before, batch, received + now);
    WithoutOthers(before, received + now, received);
    WithoutOthers(batch, received + now, now);
  }

  lemma LastIsHighest(s: seq<Header>)
    requires Ascending(s) && s != []
    ensures Ascending(s[..|s| - 1]) && Heights(s) == Heights(s[..|s| - 1]) + {s[|s| - 1].0}
    ensures forall h :: h in s[..|s| - 1] ==> h.0 < s[|s| - 1].0
  {
    var m := |s| - 1;
    assert s == s[..m] + [s[m]];
  }

  /** With distinct heights, what is left is what there was less what was received. */
  lemma {:induction false} WithoutCounts(s: seq<Header>, received: set<nat>)
    requires Ascending(s) && received <= Heights(s)
    ensures |Without(s, received)| == |s| - |received|
  {
    hide Ascending, Heights;
    if s == [] {
      NoHeights(received);
    } else {
      var t, last := s[..|s| - 1], s[|s| - 1];
      LastIsHighest(s);
      var rest := received - {last.0};
      WithoutOthers(t, received, rest);
      WithoutCounts(t, rest);
      assert received == if last.0 in received then rest + {last.0} else rest;
    }
  }

  lemma NoHeights(received: set<nat>)
    requires received <= Heights([])
    ensures received == {}
  {
  }
}
