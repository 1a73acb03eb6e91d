/**
 * Fetching blocks from peers in rounds (crates/zipherx-core/src/async_block_fetch.rs): each
 * round deals its blocks out to the ready peers in turn, at most 128 each, takes whatever
 * comes back, and stops the fetch if less than half of the round arrived.
 */
module BlockFetch {
  import opened Common
  import StableSort

  const PER_PEER: nat := 128

  /** A requested block: height and hash. */
  type Wanted = (nat, Bytes)

  /** A raw answer: the hash of its header, and whether the block behind it parses. */
  datatype Reply = Reply(hash: Bytes, parses: bool)

  datatype Block = Block(height: nat, hash: Bytes)

  /** What a round meets: for each ready peer whether its dispatcher is active; and the answers that arrive in time. */
  datatype Round = Round(ready: seq<bool>, replies: seq<Reply>)

  datatype FetchResult = FetchResult(blocks: seq<Block>, missing: set<nat>, rounds: nat)

  datatype FetchError = NoPeersAvailable

  // ---------------------------------------------------------------- dealing out a round

  /** How many of the first `n` blocks are meant for peer `p` of `peers`. */
  function Share(n: nat, p: nat, peers: nat): nat
    requires p < peers
  {
    n / peers + if p < n % peers then 1 else 0
  }

  /** Peer `p` got blocks p, p + peers, p + 2 * peers, ..., as many as its share, but at most 128. */
  ghost predicate Dealt(hands: seq<seq<Wanted>>, blocks: seq<Wanted>, peers: nat) {
    && |hands| == peers
    && forall p :: 0 <= p < peers ==> Hand(hands[p], blocks, p, peers)
  }

  ghost predicate Hand(hand: seq<Wanted>, blocks: seq<Wanted>, p: nat, peers: nat)
    requires p < peers
  {
    && |hand| == Min(PER_PEER, Share(|blocks|, p, peers))
    && forall j :: 0 <= j < |hand| ==> p + j * peers < |blocks| && hand[j] == blocks[p + j * peers]
  }

  lemma ShareStep(n: nat, p: nat, peers: nat)
    requires p < peers
    ensures Share(n + 1, p, peers) == Share(n, p, peers) + if p == n % peers then 1 else 0
    ensures p == n % peers ==> p + Share(n, p, peers) * peers == n
  {
    var q, r := n / peers, n % peers;
    assert n == q * peers + r;
    if r + 1 < peers {
      DivMod(n + 1, peers, q, r + 1);
    } else {
      assert (q + 1) * peers == q * peers + peers;
      DivMod(n + 1, peers, q + 1, 0);
    }
  }

  lemma HandStep(hand: seq<Wanted>, blocks: seq<Wanted>, b: Wanted, p: nat, peers: nat)
    requires p < peers && Hand(hand, blocks, p, peers)
    ensures Hand(if p == |blocks| % peers && |hand| < PER_PEER then hand + [b] else hand, blocks + [b], p, peers)
  {
    ShareStep(|blocks|, p, peers);
  }

  method Deal(blocks: seq<Wanted>, peers: nat) returns (hands: seq<seq<Wanted>>)
    requires 0 < peers
    ensures Dealt(hands, blocks, peers)
  {
    hands := seq(peers, _ => []);
    assert blocks[..0] == [];
    forall p | 0 <= p < peers ensures Hand([], [], p, peers) {
      DivMod(0, peers, 0, 0);
    }
    for i := 0 to |blocks|
      invariant Dealt(hands, blocks[..i], peers)
    {
      var p := i % peers;
      forall q | 0 <= q < peers
        ensures Hand(if q == p && |hands[q]| < PER_PEER then hands[q] + [blocks[i]] else hands[q],
                     blocks[..i + 1], q, peers)
      {
        assert blocks[..i + 1] == blocks[..i] + [blocks[i]];
        HandStep(hands[q], blocks[..i], blocks[i], q, peers);
      }
      if |hands[p]| < PER_PEER {
        hands := hands[p := hands[p] + [blocks[i]]];
      }
    }
    assert blocks[..|blocks|] == blocks;
  }

  /** Peer `p` got block `i`, at place `j` of its hand. */
  predicate Gets(hands: seq<seq<Wanted>>, peers: nat, i: nat, p: nat, j: nat) {
    p < |hands| && j < |hands[p]| && i == p + j * peers
  }

  /** A block can only be at one place of one hand. */
  lemma GetsOnce(hands: seq<seq<Wanted>>, blocks: seq<Wanted>, peers: nat, i: nat, p: nat, j: nat)
    requires 0 < peers && Dealt(hands, blocks, peers) && Gets(hands, peers, i, p, j)
    ensures p == i % peers && j == i / peers && i < PER_PEER * peers
    ensures i < |blocks| && hands[p][j] == blocks[i]
  {
    assert Hand(hands[p], blocks, p, peers);
    DivMod(i, peers, j, p);
    MulLess(j, PER_PEER, peers);
  }

  /** And it is there if it is among the first 128 * P. */
  lemma GetsSurely(hands: seq<seq<Wanted>>, blocks: seq<Wanted>, peers: nat, i: nat)
    requires 0 < peers && Dealt(hands, blocks, peers) && i < |blocks| && i < PER_PEER * peers
    ensures Gets(hands, peers, i, i % peers, i / peers)
  {
    assert i == i / peers * peers + i % peers;
    assert Hand(hands[i % peers], blocks, i % peers, peers);
    InShare(i, |blocks|, peers);
    MulLess(PER_PEER - 1, i / peers, peers);
  }

  /**
   * Who gets block `i` of a round with P ready peers: exactly one peer, once, if `i` is below
   * 128 * P, and nobody otherwise.
   */
  lemma DealtExactly(hands: seq<seq<Wanted>>, blocks: seq<Wanted>, peers: nat, i: nat)
    requires 0 < peers && Dealt(hands, blocks, peers) && i < |blocks|
    ensures i < PER_PEER * peers <==> exists p: nat, j: nat :: Gets(hands, peers, i, p, j)
    ensures forall p: nat, j: nat, q: nat, k: nat ::
              Gets(hands, peers, i, p, j) && Gets(hands, peers, i, q, k) ==> p == q && j == k
    ensures forall p: nat, j: nat :: Gets(hands, peers, i, p, j) ==> hands[p][j] == blocks[i]
  {
    forall p: nat, j: nat | Gets(hands, peers, i, p, j)
      ensures p == i % peers && j == i / peers && i < PER_PEER * peers && hands[p][j] == blocks[i]
    {
      GetsOnce(hands, blocks, peers, i, p, j);
    }
    if i < PER_PEER * peers {
      GetsSurely(hands, blocks, peers, i);
    }
  }

  lemma InShare(i: nat, n: nat, peers: nat)
    requires 0 < peers && i < n
    ensures i / peers < Share(n, i % peers, peers)
  {
    assert i == i / peers * peers + i % peers && n == n / peers * peers + n % peers;
    MulLess(n / peers, i / peers, peers);
  }

  // ---------------------------------------------------------------- identifying answers

  /** The height wanted under `hash`: the last one, if the hash was asked for more than once. */
  function HeightOf(blocks: seq<Wanted>, hash: Bytes): Option<nat> {
    if blocks == [] then None
    else
      var b := blocks[|blocks| - 1];
      if b.1 == hash then Some(b.0) else HeightOf(blocks[..|blocks| - 1], hash)
  }

  function Identify(blocks: seq<Wanted>, r: Reply): seq<Block> {
    if HeightOf(blocks, r.hash).Some? && r.parses then [Block(HeightOf(blocks, r.hash).value, r.hash)] else []
  }

  /** The wanted blocks among some answers, in order of arrival. */
  function Identified(blocks: seq<Wanted>, replies: seq<Reply>): seq<Block> {
    if replies == [] then []
    else Identified(blocks, replies[..|replies| - 1]) + Identify(blocks, replies[|replies| - 1])
  }

  lemma {:induction false} HeightIsWanted(blocks: seq<Wanted>, hash: Bytes)
    ensures HeightOf(blocks, hash).Some? ==> (HeightOf(blocks, hash).value, hash) in blocks
    ensures HeightOf(blocks, hash).None? ==> forall b :: b in blocks ==> b.1 != hash
  {
    if blocks != [] {
      var t, last := blocks[..|blocks| - 1], blocks[|blocks| - 1];
      HeightIsWanted(t, hash);
      assert blocks == t + [last] && last == (last.0, last.1);
    }
  }

  predicate OnlyWanted(got: seq<Block>, blocks: seq<Wanted>) {
    forall b :: b in got ==> (b.height, b.hash) in blocks
  }

  lemma {:induction false} IdentifiedAreWanted(blocks: seq<Wanted>, replies: seq<Reply>)
    ensures OnlyWanted(Identified(blocks, replies), blocks)
  {
    if replies != [] {
      IdentifiedAreWanted(blocks, replies[..|replies| - 1]);
      HeightIsWanted(blocks, replies[|replies| - 1].hash);
    }
  }

  method IndexHashes(blocks: seq<Wanted>) returns (index: map<Bytes, nat>)
    ensures forall h :: h in index <==> HeightOf(blocks, h).Some?
    ensures forall h :: h in index ==> HeightOf(blocks, h) == Some(index[h])
  {
    index := map[];
    for i := 0 to |blocks|
      invariant forall h :: h in index <==> HeightOf(blocks[..i], h).Some?
      invariant forall h :: h in index ==> HeightOf(blocks[..i], h) == Some(index[h])
    {
      assert blocks[..i + 1][..i] == blocks[..i];
      index := index[blocks[i].1 := blocks[i].0];
    }
    assert blocks[..|blocks|] == blocks;
  }

  method Collect(index: map<Bytes, nat>, replies: seq<Reply>, ghost blocks: seq<Wanted>) returns (got: seq<Block>)
    requires forall h :: h in index <==> HeightOf(blocks, h).Some?
    requires forall h :: h in index ==> HeightOf(blocks, h) == Some(index[h])
    ensures got == Identified(blocks, replies)
  {
    got := [];
    for i := 0 to |replies|
      invariant got == Identified(blocks, replies[..i])
    {
      assert replies[..i + 1][..i] == replies[..i];
      if replies[i].hash in index && replies[i].parses {
        got := got + [Block(index[replies[i].hash], replies[i].hash)];
      }
    }
    assert replies[..|replies|] == replies;
  }

  // ---------------------------------------------------------------- the rounds

  function Heights(blocks: seq<Wanted>): set<nat> {
    set b | b in blocks :: b.0
  }

  function Received(blocks: seq<Block>): set<nat> {
    set b | b in blocks :: b.height
  }

  predicate Enough(received: nat, requested: nat) {
    requested == 0 || requested <= received * 2
  }

  predicate NotHigher(a: Block, b: Block) {
    a.height <= b.height
  }

  /** Registers one handler for each block dealt to a ready peer whose dispatcher is active. */
  method Register(hands: seq<seq<Wanted>>, active: seq<bool>) returns (handlers: nat)
    requires |hands| == |active|
    ensures handlers == 0 <==> forall p :: 0 <= p < |hands| && active[p] ==> hands[p] == []
  {
    handlers := 0;
    for p := 0 to |hands|
      invariant handlers == 0 <==> forall q :: 0 <= q < p && active[q] ==> hands[q] == []
    {
      if active[p] {
        handlers := handlers + |hands[p]|;
      }
    }
  }

  /** Some ready peer with an active dispatcher is dealt a block. */
  predicate CanAsk(w: Round, slice: seq<Wanted>) {
    exists p :: 0 <= p < |w.ready| && w.ready[p] && p < |slice|
  }

  /** One round over `slice`. `go` is false when nobody could be asked. */
  method RunRound(index: map<Bytes, nat>, slice: seq<Wanted>, w: Round, ghost blocks: seq<Wanted>)
    returns (go: bool, got: seq<Block>)
    requires forall h :: h in index <==> HeightOf(blocks, h).Some?
    requires forall h :: h in index ==> HeightOf(blocks, h) == Some(index[h])
    requires slice != []
    ensures go <==> CanAsk(w, slice)
    ensures got == if go then Identified(blocks, w.replies) else []
  {
    if |w.ready| == 0 {
      return false, [];
    }
    var hands := Deal(slice, |w.ready|);
    var handlers := Register(hands, w.ready);
    forall p | 0 <= p < |hands| ensures hands[p] == [] <==> |slice| <= p {
      assert Hand(hands[p], slice, p, |w.ready|);
      FirstShare(|slice|, p, |w.ready|);
    }
    if handlers == 0 {
      return false, [];
    }
    got := Collect(index, w.replies, blocks);
    return true, got;
  }

  lemma FirstShare(n: nat, p: nat, peers: nat)
    requires p < peers
    ensures Share(n, p, peers) == 0 <==> n <= p
  {
    if n < peers {
      DivMod(n, peers, 0, n);
    } else {
      assert n == n / peers * peers + n % peers;
      assert 1 <= n / peers;
    }
  }

  /** Every wanted block that arrived in the first `n` rounds. */
  function Arrived(blocks: seq<Wanted>, world: nat -> Round, n: nat): seq<Block> {
    if n == 0 then [] else Arrived(blocks, world, n - 1) + Identified(blocks, world(n - 1).replies)
  }

  lemma {:induction false} ArrivedAreWanted(blocks: seq<Wanted>, world: nat -> Round, n: nat)
    ensures OnlyWanted(Arrived(blocks, world, n), blocks)
  {
    if n > 0 {
      ArrivedAreWanted(blocks, world, n - 1);
      IdentifiedAreWanted(blocks, world(n - 1).replies);
    }
  }

  // ---------------------------------------------------------------- which blocks arrive

  /** `hash` was asked for, last under `height`. */
  ghost predicate AskedUnder(blocks: seq<Wanted>, height: nat, hash: Bytes) {
    exists i :: 0 <= i < |blocks| && blocks[i] == (height, hash) && forall j :: i < j < |blocks| ==> blocks[j].1 != hash
  }

  lemma {:induction false} HeightOfIs(blocks: seq<Wanted>, height: nat, hash: Bytes)
    ensures HeightOf(blocks, hash) == Some(height) <==> AskedUnder(blocks, height, hash)
  {
    if blocks != [] {
      var n := |blocks| - 1;
      var t := blocks[..n];
      HeightOfIs(t, height, hash);
      if AskedUnder(t, height, hash) && blocks[n].1 != hash {
        var i :| 0 <= i < n && t[i] == (height, hash) && forall j :: i < j < n ==> t[j].1 != hash;
        assert blocks[i] == (height, hash);
      }
      if AskedUnder(blocks, height, hash) && blocks[n].1 != hash {
        var i :| 0 <= i < |blocks| && blocks[i] == (height, hash)
                 && forall j :: i < j < |blocks| ==> blocks[j].1 != hash;
        assert t[i] == (height, hash);
      }
    }
  }

  /** How many of some answers are blocks with this hash that parse. */
  function Answers(replies: seq<Reply>, hash: Bytes): nat {
    multiset(replies)[Reply(hash, true)]
  }

  /** How many such answers came in the first `n` rounds. */
  function AnswersIn(world: nat -> Round, n: nat, hash: Bytes): nat {
    if n == 0 then 0 else AnswersIn(world, n - 1, hash) + Answers(world(n - 1).replies, hash)
  }

  lemma OneAnswer(blocks: seq<Wanted>, r: Reply, b: Block)
    ensures multiset(Identify(blocks, r))[b] ==
            if AskedUnder(blocks, b.height, b.hash) && r == Reply(b.hash, true) then 1 else 0
  {
    hide AskedUnder, HeightOf;
    HeightOfIs(blocks, b.height, b.hash);
  }

  lemma AnswersExtend(replies: seq<Reply>, r: Reply, hash: Bytes)
    ensures Answers(replies + [r], hash) == Answers(replies, hash) + if r == Reply(hash, true) then 1 else 0
  {
  }

  lemma {:induction false} IdentifiedExactly(blocks: seq<Wanted>, replies: seq<Reply>, b: Block)
    ensures multiset(Identified(blocks, replies))[b] ==
            if AskedUnder(blocks, b.height, b.hash) then Answers(replies, b.hash) else 0
  {
    hide AskedUnder, Identify, Answers;
    if replies == [] {
      NoAnswers(b.hash);
    } else {
      var t, r := replies[..|replies| - 1], replies[|replies| - 1];
      assert replies == t + [r];
      IdentifiedExactly(blocks, t, b);
      OneAnswer(blocks, r, b);
      AnswersExtend(t, r, b.hash);
      CountJoin(Identified(blocks, t), Identify(blocks, r), b);
    }
  }

  lemma NoAnswers(hash: Bytes)
    ensures Answers([], hash) == 0
  {
  }

  lemma {:induction false} ArrivedExactly(blocks: seq<Wanted>, world: nat -> Round, n: nat, b: Block)
    ensures multiset(Arrived(blocks, world, n))[b] ==
            if AskedUnder(blocks, b.height, b.hash) then AnswersIn(world, n, b.hash) else 0
  {
    hide AskedUnder, Identified, Answers;
    if n > 0 {
      ArrivedExactly(blocks, world, n - 1, b);
      IdentifiedExactly(blocks, world(n - 1).replies, b);
      CountJoin(Arrived(blocks, world, n - 1), Identified(blocks, world(n - 1).replies), b);
    }
  }

  lemma CountJoin(a: seq<Block>, c: seq<Block>, b: Block)
    ensures multiset(a + c)[b] == multiset(a)[b] + multiset(c)[b]
  {
  }

  lemma {:induction false} AnswersCame(world: nat -> Round, n: nat, hash: Bytes)
    ensures 0 < AnswersIn(world, n, hash) <==> exists k :: 0 <= k < n && Reply(hash, true) in world(k).replies
  {
    if n > 0 {
      AnswersCame(world, n - 1, hash);
      assert 0 < Answers(world(n - 1).replies, hash) <==> Reply(hash, true) in world(n - 1).replies;
    }
  }

  /** A block with this hash came, and parsed, in one of the first `n` rounds. */
  ghost predicate Came(world: nat -> Round, n: nat, hash: Bytes) {
    exists k :: 0 <= k < n && Reply(hash, true) in world(k).replies
  }

  /**
   * The blocks are exactly those that were asked for (under the last height of their hash) and came
   * in an attempted round, as often as they came; a height is missing exactly if no block came that
   * was asked for under it.
   */
  ghost predicate Delivers(blocks: seq<Wanted>, world: nat -> Round, attempted: nat, got: seq<Block>,
                           missing: set<nat>) {
    && (forall b ::
          multiset(got)[b] == if AskedUnder(blocks, b.height, b.hash) then AnswersIn(world, attempted, b.hash) else 0)
    && (forall b :: b in got <==> AskedUnder(blocks, b.height, b.hash) && Came(world, attempted, b.hash))
    && (forall h :: h in missing <==>
          && (exists w :: w in blocks && w.0 == h)
          && !exists hash :: AskedUnder(blocks, h, hash) && Came(world, attempted, hash))
  }

  lemma DeliversWhatCame(blocks: seq<Wanted>, world: nat -> Round, attempted: nat, got: seq<Block>)
    requires multiset(got) == multiset(Arrived(blocks, world, attempted))
    ensures Delivers(blocks, world, attempted, got, Heights(blocks) - Received(got))
  {
    hide AskedUnder, Arrived, AnswersIn;
    forall b
      ensures multiset(got)[b]
           == if AskedUnder(blocks, b.height, b.hash) then AnswersIn(world, attempted, b.hash) else 0
      ensures b in got <==> AskedUnder(blocks, b.height, b.hash) && Came(world, attempted, b.hash)
    {
      ArrivedExactly(blocks, world, attempted, b);
      AnswersCame(world, attempted, b.hash);
      assert b in got <==> b in multiset(got);
    }
    forall h
      ensures h in Received(got) <==> exists hash :: AskedUnder(blocks, h, hash) && Came(world, attempted, hash)
    {
      if h in Received(got) {
        var b :| b in got && b.height == h;
        assert AskedUnder(blocks, h, b.hash);
      }
      if hash :| AskedUnder(blocks, h, hash) && Came(world, attempted, hash) {
        assert Block(h, hash) in got;
      }
    }
  }

  /** Blocks `round` asks for. */
  function Slice(blocks: seq<Wanted>, perRound: nat, round: nat): seq<Wanted> {
    blocks[Min(round * perRound, |blocks|)..Min((round + 1) * perRound, |blocks|)]
  }

  /** Round `n` was carried out and brought at least half of what it asked for. */
  predicate RoundOk(blocks: seq<Wanted>, world: nat -> Round, perRound: nat, n: nat) {
    && CanAsk(world(n), Slice(blocks, perRound, n))
    && Enough(|Identified(blocks, world(n).replies)|, |Slice(blocks, perRound, n)|)
  }

  /**
   * Why the fetch stopped after `completed` good rounds and `attempted` in all: everything was
   * asked for, or nobody could be asked, or the last round brought less than half.
   */
  predicate Stopped(blocks: seq<Wanted>, world: nat -> Round, perRound: nat, completed: nat, attempted: nat) {
    if attempted == completed then
      |blocks| <= completed * perRound || !CanAsk(world(completed), Slice(blocks, perRound, completed))
    else
      && attempted == completed + 1 && CanAsk(world(completed), Slice(blocks, perRound, completed))
      && !RoundOk(blocks, world, perRound, completed)
  }

  /** How many answers are wanted blocks that parse. */
  function GoodAnswers(blocks: seq<Wanted>, replies: seq<Reply>): nat {
    if replies == [] then 0
    else
      var r := replies[|replies| - 1];
      GoodAnswers(blocks, replies[..|replies| - 1])
      + if r.parses && exists i :: 0 <= i < |blocks| && blocks[i].1 == r.hash then 1 else 0
  }

  lemma {:induction false} IdentifiedCount(blocks: seq<Wanted>, replies: seq<Reply>)
    ensures |Identified(blocks, replies)| == GoodAnswers(blocks, replies)
  {
    if replies != [] {
      var r := replies[|replies| - 1];
      IdentifiedCount(blocks, replies[..|replies| - 1]);
      HeightIsWanted(blocks, r.hash);
      if i :| 0 <= i < |blocks| && blocks[i].1 == r.hash {
        assert blocks[i] in blocks;
      }
    }
  }

  /** The requests of round `n`, and whether one of them goes to a peer that is ready and active. */
  ghost predicate Asks(blocks: seq<Wanted>, world: nat -> Round, perRound: nat, n: nat) {
    exists p :: 0 <= p < |world(n).ready| && world(n).ready[p] && n * perRound + p < |blocks| && p < perRound
  }

  /**
   * Round by round: each completed one brought at least half of what it asked for, and the fetch
   * stopped at the end of the list, or because nobody could be asked, or after a round that brought less.
   */
  ghost predicate RoundsAre(blocks: seq<Wanted>, world: nat -> Round, perRound: nat, completed: nat, attempted: nat) {
    && (forall n :: 0 <= n < completed ==>
          Asks(blocks, world, perRound, n)
          && Min(perRound, |blocks| - n * perRound) <= 2 * GoodAnswers(blocks, world(n).replies))
    && if attempted == completed
       then |blocks| <= completed * perRound || !Asks(blocks, world, perRound, completed)
       else && attempted == completed + 1 && Asks(blocks, world, perRound, completed)
            && 2 * GoodAnswers(blocks, world(completed).replies) < Min(perRound, |blocks| - completed * perRound)
  }

  lemma SliceSize(blocks: seq<Wanted>, perRound: nat, n: nat)
    ensures |Slice(blocks, perRound, n)| == Max(0, Min(perRound, |blocks| - n * perRound))
  {
    assert (n + 1) * perRound == n * perRound + perRound;
  }

  lemma RoundsExactly(blocks: seq<Wanted>, world: nat -> Round, perRound: nat, completed: nat, attempted: nat)
    requires forall n :: 0 <= n < completed ==> RoundOk(blocks, world, perRound, n)
    requires Stopped(blocks, world, perRound, completed, attempted)
    ensures RoundsAre(blocks, world, perRound, completed, attempted)
  {
    hide Slice, Identified, GoodAnswers;
    forall n | 0 <= n < completed
      ensures Asks(blocks, world, perRound, n)
      ensures Min(perRound, |blocks| - n * perRound) <= 2 * GoodAnswers(blocks, world(n).replies)
    {
      RoundIs(blocks, world, perRound, n);
      assert RoundOk(blocks, world, perRound, n);
    }
    RoundIs(blocks, world, perRound, completed);
  }

  lemma RoundIs(blocks: seq<Wanted>, world: nat -> Round, perRound: nat, n: nat)
    ensures CanAsk(world(n), Slice(blocks, perRound, n)) <==> Asks(blocks, world, perRound, n)
    ensures Asks(blocks, world, perRound, n) ==> n * perRound < |blocks|
    ensures RoundOk(blocks, world, perRound, n) <==>
            && Asks(blocks, world, perRound, n)
            && Min(perRound, |blocks| - n * perRound) <= 2 * GoodAnswers(blocks, world(n).replies)
  {
    hide Slice, Identified, GoodAnswers;
    SliceSize(blocks, perRound, n);
    IdentifiedCount(blocks, world(n).replies);
  }

  /**
   * The whole fetch. Results are what arrived, sorted by height, and were all asked for; what is
   * missing is exactly what was asked for and did not come; the rounds counted are those that
   * brought at least half, and together they brought half of all they asked for.
   */
  method FetchBlocksByHashes(connected: nat, blocks: seq<Wanted>, world: nat -> Round)
    returns (r: Result<FetchResult, FetchError>, ghost attempted: nat)
    ensures r.Err? <==> blocks != [] && connected == 0
    ensures r.Ok? ==>
              && multiset(r.value.blocks) == multiset(Arrived(blocks, world, attempted))
              && OnlyWanted(r.value.blocks, blocks)
              && StableSort.Sorted(NotHigher, r.value.blocks)
              && r.value.missing == Heights(blocks) - Received(r.value.blocks)
              && Delivers(blocks, world, attempted, r.value.blocks, r.value.missing)
    ensures r.Ok? ==>
              && (blocks != [] ==> RoundsAre(blocks, world, connected * 128, r.value.rounds, attempted))
              && (blocks == [] ==> r.value.rounds == 0 == attempted)
              && Min(r.value.rounds * (connected * PER_PEER), |blocks|) <= 2 * |r.value.blocks|
  {
    attempted := 0;
    hide Delivers, RoundsAre, RoundOk, Stopped;
    DeliversWhatCame(blocks, world, 0, []);
    if blocks == [] {
      assert Heights(blocks) - Received([]) == {};
      return Ok(FetchResult([], {}, 0)), 0;
    }
    if connected == 0 {
      return Err(NoPeersAvailable), 0;
    }
    var index := IndexHashes(blocks);
    var got, rounds;
    got, rounds, attempted := Rounds(connected * PER_PEER, blocks, index, world);
    ArrivedAreWanted(blocks, world, attempted);
    var sorted := StableSort.Sort(NotHigher, got);
    StableSort.SortSorts(NotHigher, got);
    StableSort.SortKeeps(NotHigher, got);
    SameMembers(sorted, got);
    DeliversWhatCame(blocks, world, attempted, sorted);
    RoundsExactly(blocks, world, connected * PER_PEER, rounds, attempted);
    return Ok(FetchResult(sorted, Heights(blocks) - Received(got), rounds)), attempted;
  }

  lemma SameMembers(a: seq<Block>, b: seq<Block>)
    requires multiset(a) == multiset(b)
    ensures forall x :: x in a <==> x in b
    ensures Received(a) == Received(b)
  {
    forall x ensures x in a <==> x in b {
      assert x in a <==> x in multiset(a);
      assert x in b <==> x in multiset(b);
    }
  }

  method Rounds(perRound: nat, blocks: seq<Wanted>, index: map<Bytes, nat>, world: nat -> Round)
    returns (got: seq<Block>, completed: nat, ghost attempted: nat)
    requires 0 < perRound && blocks != []
    requires forall h :: h in index <==> HeightOf(blocks, h).Some?
    requires forall h :: h in index ==> HeightOf(blocks, h) == Some(index[h])
    ensures got == Arrived(blocks, world, attempted)
    ensures forall n :: 0 <= n < completed ==> RoundOk(blocks, world, perRound, n)
    ensures Stopped(blocks, world, perRound, completed, attempted)
    ensures Min(completed * perRound, |blocks|) <= 2 * |got|
  {
    hide Identified, CanAsk, HeightOf;
    got, completed, attempted := [], 0, 0;
    var cursor := 0;
    var numRounds := (|blocks| + perRound - 1) / perRound;
    for round := 0 to numRounds
      invariant cursor == Min(completed * perRound, |blocks|) && completed == round == attempted
      invariant got == Arrived(blocks, world, attempted)
      invariant forall n :: 0 <= n < completed ==> RoundOk(blocks, world, perRound, n)
      invariant cursor <= 2 * |got|
    {
      if |blocks| <= cursor {
        break;
      }
      var end := Min(cursor + perRound, |blocks|);
      assert (completed + 1) * perRound == completed * perRound + perRound;
      var slice := blocks[cursor..end];
      assert slice == Slice(blocks, perRound, completed);
      var go, arrived := RunRound(index, slice, world(round), blocks);
      if !go {
        break;
      }
      got, attempted := got + arrived, attempted + 1;
      if !Enough(|arrived|, end - cursor) {
        break;
      }
      completed, cursor := completed + 1, end;
    }
    EnoughRounds(|blocks|, perRound);
  }

  /** The number of rounds, rounded up, covers all blocks. */
  lemma EnoughRounds(total: nat, perRound: nat)
    requires 0 < perRound
    ensures total <= (total + perRound - 1) / perRound * perRound
  {
    var n := total + perRound - 1;
    assert n == n / perRound * perRound + n % perRound;
  }
}
