/**
 Whole runs of the delivery: a WebSub hub (section 7 of the W3C WebSub recommendation) that keeps posting
 the events a chat has not acknowledged. The acknowledged count is this system's own extension of the
 protocol; it is an assumption about the hub that after a 200 it drops exactly that many events from
 the front, and none after any other answer.

 An event is named by its place in the hub's stream for this subscription.
 */
module Hub {
  import opened Delivery

  datatype Hub = Hub(acked: seq<nat>, pending: seq<nat>, log: seq<Attempt<nat>>)

  /** One post: what awaits each event of the batch, as many events as the hub cares to send, and what
      the registry answers. */
  datatype Post = Post(env: seq<Answers>, currentOk: bool, legacyOk: bool)

  function Stream(from: nat, to: nat): (s: seq<nat>)
    requires from <= to
    ensures |s| == to - from && forall i :: 0 <= i < |s| ==> s[i] == from + i
  {
    seq(to - from, i requires 0 <= i => from + i)
  }

  function Start(total: nat): Hub {
    Hub([], Stream(0, total), [])
  }

  function Dropped(r: Response): nat {
    match r case Ok(n) => n case _ => 0
  }

  function BatchOf(h: Hub, p: Post): (n: nat)
    ensures n <= |h.pending| && n <= |p.env|
  {
    if |p.env| <= |h.pending| then |p.env| else |h.pending|
  }

  function OutcomeOfPost(h: Hub, p: Post): Outcome<nat> {
    OutcomeOf(h.pending[..BatchOf(h, p)], p.env[..BatchOf(h, p)], p.currentOk, p.legacyOk)
  }

  /** The hub after it posted a batch and got the answer. */
  function Step(h: Hub, p: Post): Hub {
    var o := OutcomeOfPost(h, p);
    var n := Dropped(Respond(o.ack, o.err));
    Hub(h.acked + h.pending[..n], h.pending[n..], h.log + o.log)
  }

  function Run(h: Hub, posts: seq<Post>): Hub
    decreases posts
  {
    if posts == [] then h else Run(Step(h, posts[0]), posts[1..])
  }

  predicate Increasing(s: seq<nat>) {
    forall i, j :: 0 <= i < j < |s| ==> s[i] < s[j]
  }

  /** What every reachable state keeps, for a stream of `total` events. */
  ghost predicate Inv(h: Hub, total: nat) {
    && |h.acked| <= total
    && h.acked == Stream(0, |h.acked|) && h.pending == Stream(|h.acked|, total)
    && Increasing(Reached(h.log))
    && forall e: nat :: Settled(h, e)
  }

  /** An event reached the chat or failed in all modes, never both, when it is acknowledged, and neither when
      it is not. */
  ghost predicate Settled(h: Hub, e: nat) {
    && (e < |h.acked| ==> (e in Reached(h.log) <==> !AllFailed(h.log, e)))
    && (e >= |h.acked| ==> e !in Reached(h.log) && !AllFailed(h.log, e))
  }

  lemma InStream(from: nat, to: nat, e: nat)
    requires from <= to
    ensures e in Stream(from, to) <==> from <= e < to
  {
    if from <= e < to {
      assert Stream(from, to)[e - from] == e;
    }
  }

  lemma StepDrops(h: Hub, p: Post)
    ensures var o := OutcomeOfPost(h, p);
            && o.ack <= BatchOf(h, p)
            && AckMeans(h.pending[..BatchOf(h, p)], o)
            && RunOfLadders(o.log)
            && Step(h, p) == Hub(h.acked + h.pending[..o.ack], h.pending[o.ack..], h.log + o.log)
  {
    AckMeaning(h.pending[..BatchOf(h, p)], p.env[..BatchOf(h, p)], p.currentOk, p.legacyOk);
    AttemptsAreLadders(h.pending[..BatchOf(h, p)], p.env[..BatchOf(h, p)], p.currentOk, p.legacyOk);
  }

  /** The events one post brings to the chat continue the ones that reached it before. */
  lemma StepReached(h: Hub, p: Post, total: nat)
    requires Inv(h, total)
    ensures var o, n := OutcomeOfPost(h, p), |h.acked|;
            && n + o.ack <= total
            && Reached(Step(h, p).log) == Reached(h.log) + Reached(o.log)
            && (|| Reached(o.log) == Stream(n, n + o.ack)
                || (o.ack > 0 && Reached(o.log) == Stream(n, n + o.ack - 1)))
  {
    var o, n := OutcomeOfPost(h, p), |h.acked|;
    StepDrops(h, p);
    ReachedConcat(h.log, o.log);
    var batch := h.pending[..BatchOf(h, p)];
    assert batch[..o.ack] == Stream(n, n + o.ack);
    if o.ack > 0 {
      assert batch[..o.ack - 1] == Stream(n, n + o.ack - 1);
    }
  }

  lemma StepFailed(h: Hub, p: Post, total: nat, e: nat)
    requires Inv(h, total)
    ensures AllFailed(Step(h, p).log, e) <==> AllFailed(h.log, e) || AllFailed(OutcomeOfPost(h, p).log, e)
  {
    StepDrops(h, p);
    AllFailedConcat(h.log, OutcomeOfPost(h, p).log, e);
  }

  lemma StepKeepsStreams(h: Hub, p: Post, total: nat)
    requires Inv(h, total)
    ensures var h', n := Step(h, p), |h.acked| + OutcomeOfPost(h, p).ack;
            n == |h'.acked| <= total && h'.acked == Stream(0, n) && h'.pending == Stream(n, total)
  {
    StepDrops(h, p);
    var ack := OutcomeOfPost(h, p).ack;
    assert h.pending[..ack] == Stream(|h.acked|, |h.acked| + ack);
    assert h.pending[ack..] == Stream(|h.acked| + ack, total);
  }

  lemma StepKeepsInv(h: Hub, p: Post, total: nat)
    requires Inv(h, total)
    ensures Inv(Step(h, p), total)
  {
    var h' := Step(h, p);
    StepKeepsStreams(h, p, total);
    StepStaysIncreasing(h, p, total);
    forall e: nat ensures Settled(h', e) {
      assert Settled(h, e);
      StepFailed(h, p, total, e);
      ReachedNew(h, p, total, e);
    }
  }

  lemma StepStaysIncreasing(h: Hub, p: Post, total: nat)
    requires Inv(h, total)
    ensures Increasing(Reached(Step(h, p).log))
  {
    StepReached(h, p, total);
    var before, added := Reached(h.log), Reached(OutcomeOfPost(h, p).log);
    forall i | 0 <= i < |before| ensures before[i] < |h.acked| {
      assert before[i] in before && Settled(h, before[i]);
    }
    assert Increasing(before + added);
  }

  /** Whether an event reached the chat in this post, and whether it failed in all modes in it. */
  lemma ReachedNew(h: Hub, p: Post, total: nat, e: nat)
    requires Inv(h, total)
    ensures var o, n := OutcomeOfPost(h, p), |h.acked|;
            && (e in Reached(Step(h, p).log) <==> e in Reached(h.log) || e in Reached(o.log))
            && (n <= e < n + o.ack ==> (e in Reached(o.log) <==> !AllFailed(o.log, e)))
            && (e < n || n + o.ack <= e ==> e !in Reached(o.log) && !AllFailed(o.log, e))
  {
    var o, n := OutcomeOfPost(h, p), |h.acked|;
    StepDrops(h, p);
    StepReached(h, p, total);
    var batch := h.pending[..BatchOf(h, p)];
    assert forall i :: 0 <= i < |batch| ==> batch[i] == n + i;
    if o.ack > 0 {
      assert batch[o.ack - 1] == n + o.ack - 1;
    }
    InStream(n, n + |Reached(o.log)|, e);
  }

  lemma {:induction false} RunKeepsInv(h: Hub, posts: seq<Post>, total: nat)
    requires Inv(h, total)
    ensures Inv(Run(h, posts), total)
    decreases posts
  {
    if posts != [] {
      StepKeepsInv(h, posts[0], total);
      RunKeepsInv(Step(h, posts[0]), posts[1..], total);
    }
  }

  lemma StartHasInv(total: nat)
    ensures Inv(Start(total), total)
  {
  }

  lemma SettledMeaning(h: Hub, total: nat, e: nat)
    requires Inv(h, total)
    ensures e in Reached(h.log) ==> e in h.acked
    ensures e in h.acked ==> (e !in Reached(h.log) <==> AllFailed(h.log, e))
    ensures e in h.pending ==> !AllFailed(h.log, e)
  {
    assert Settled(h, e);
    InStream(0, |h.acked|, e);
    InStream(|h.acked|, total, e);
  }

  /** Over any run of posts, with any batches and any answers of Telegram and of the registry: no event
      is lost or repeated between what is acknowledged and what is pending; the events reach the chat in
      order and at most once, and only acknowledged ones do; and an acknowledged event did not reach the
      chat exactly when there was an attempt at it in which HTML, plain and raw all failed without a
      flood. */
  lemma DeliveredInOrderAtMostOnce(total: nat, posts: seq<Post>)
    ensures var h := Run(Start(total), posts);
            && h.acked + h.pending == Stream(0, total)
            && Increasing(Reached(h.log))
            && (forall e <- Reached(h.log) :: e in h.acked)
            && (forall e <- h.acked :: e !in Reached(h.log) <==> AllFailed(h.log, e))
            && (forall e <- h.pending :: !AllFailed(h.log, e))
  {
    var h := Run(Start(total), posts);
    StartHasInv(total);
    RunKeepsInv(Start(total), posts, total);
    assert h.acked + h.pending == Stream(0, total);
    forall e: nat
      ensures e in Reached(h.log) ==> e in h.acked
      ensures e in h.acked ==> (e !in Reached(h.log) <==> AllFailed(h.log, e))
      ensures e in h.pending ==> !AllFailed(h.log, e)
    {
      SettledMeaning(h, total, e);
    }
  }

  /** A post makes progress exactly when its first event is delivered or given up on; otherwise the hub
      has the same events pending as before. It is answered with 500 exactly when the first event cannot
      be converted, is flooded, or finds the bot blocked with neither callback removed, and then nothing
      reached the chat. */
  lemma PostMakesProgress(h: Hub, p: Post)
    requires h.pending != [] && p.env != []
    ensures |Step(h, p).pending| < |h.pending| <==> FateOf(p.env[0]).Delivered? || FateOf(p.env[0]).GivenUp?
    ensures Step(h, p).pending == h.pending || |Step(h, p).pending| < |h.pending|
    ensures var o := OutcomeOfPost(h, p);
            && (Respond(o.ack, o.err) == ServerError
                <==> FateOf(p.env[0]).Undecodable? || FateOf(p.env[0]).Flooded?
                     || (FateOf(p.env[0]).Blocked? && !p.currentOk && !p.legacyOk))
            && (Respond(o.ack, o.err) == ServerError ==> Reached(o.log) == [])
  {
    StepDrops(h, p);
    LadderMeaning(h.pending[0], p.env[0], h.pending[0]);
  }

  /** A run whose posts all begin with an event that is delivered or given up on empties the hub in at
      most as many posts as there are events. */
  lemma {:induction false} RunDrains(h: Hub, posts: seq<Post>)
    requires forall p: Post <- posts :: p.env != [] && (FateOf(p.env[0]).Delivered? || FateOf(p.env[0]).GivenUp?)
    ensures |Run(h, posts).pending| <= if |posts| <= |h.pending| then |h.pending| - |posts| else 0
    decreases posts
  {
    if posts != [] {
      StepDrops(h, posts[0]);
      assert posts[0] in posts;
      if h.pending != [] {
        PostMakesProgress(h, posts[0]);
      }
      forall p | p in posts[1..] ensures p in posts {
      }
      RunDrains(Step(h, posts[0]), posts[1..]);
    }
  }
}
