/**
 The delivery of one post of events to a chat (service/chats/handler.go, `deliver`): every event is
 sent as HTML, then as plain text, then as raw text, until one is accepted, and the number of events
 done with is counted for the hub.

 What Telegram would answer to each attempt and what the registry would answer to each removal are
 parameters, arbitrary for every event. An attempt that was not accepted is taken not to have reached
 the chat.
 */
module Delivery {
  import opened Modes

  /** Telegram's answer to an attempt; `Forbidden` is the error with code 403. */
  datatype Reply = Accepted | Flood | Forbidden | Failure

  /** What happens to an event when it comes to it: whether it can be converted to a message at all, and
      the answer in each mode. */
  datatype Answers = Answers(decodes: bool, html: Reply, plain: Reply, raw: Reply) {
    function In(mode: Mode): Reply {
      match mode case Html => html case Plain => plain case Raw => raw
    }
  }

  datatype Attempt<E> = Attempt(event: E, mode: Mode, reply: Reply)

  datatype Error = Nil | DecodeError | SendError(reply: Reply) | UnsubscribeError

  /** The callbacks a blocked chat is unlinked from: the current one, then a legacy one. */
  datatype Removal = RemoveCurrent | RemoveLegacy

  /** How one call ends: the acknowledged count and the error it returns, the attempts it made in order,
      the number of times it started the flood handler, and the removals it asked for. */
  datatype Outcome<E> = Outcome(ack: nat, err: Error, log: seq<Attempt<E>>, floods: nat, removals: seq<Removal>)

  // ----- specification -----

  datatype Fate = Undecodable | Delivered | Flooded(mode: Mode) | Blocked | GivenUp

  function FateOf(a: Answers): Fate {
    if !a.decodes then Undecodable
    else match a.html
      case Accepted => Delivered
      case Flood => Flooded(Html)
      case Forbidden => Blocked
      case Failure =>
        if a.plain.Accepted? then Delivered
        else if a.plain.Flood? then Flooded(Plain)
        else if a.raw.Accepted? then Delivered
        else if a.raw.Flood? then Flooded(Raw)
        else GivenUp
  }

  /** The attempts made for one event. */
  function Ladder<E>(e: E, a: Answers): seq<Attempt<E>> {
    if !a.decodes then []
    else if !a.html.Failure? then [Attempt(e, Html, a.html)]
    else if a.plain.Accepted? || a.plain.Flood? then [Attempt(e, Html, a.html), Attempt(e, Plain, a.plain)]
    else [Attempt(e, Html, a.html), Attempt(e, Plain, a.plain), Attempt(e, Raw, a.raw)]
  }

  /** How often the flood handler is started for an event flooded in the given mode: every later stage
      finds the same error and starts it again. */
  function HandlersStarted(mode: Mode): nat {
    match mode case Html => 3 case Plain => 2 case Raw => 1
  }

  /** The outcome when the current event ends the call. */
  function Final<E>(e: E, a: Answers, currentOk: bool, legacyOk: bool): Outcome<E>
    requires !FateOf(a).Delivered?
  {
    match FateOf(a)
    case Undecodable => Outcome(0, DecodeError, [], 0, [])
    case Flooded(mode) => Outcome(0, SendError(Flood), Ladder(e, a), HandlersStarted(mode), [])
    case GivenUp => Outcome(1, SendError(a.raw), Ladder(e, a), 0, [])
    case Blocked =>
      Outcome(0, if currentOk || legacyOk then Nil else UnsubscribeError, Ladder(e, a), 0,
              if currentOk then [RemoveCurrent] else [RemoveCurrent, RemoveLegacy])
  }

  /** The outcome of a call for a post of events, each with its answers. */
  function OutcomeOf<E>(evts: seq<E>, env: seq<Answers>, currentOk: bool, legacyOk: bool): (o: Outcome<E>)
    requires |evts| == |env|
    ensures o.ack <= |evts|
  {
    if evts == [] then Outcome(0, Nil, [], 0, [])
    else if FateOf(env[0]).Delivered? then
      After(1, Ladder(evts[0], env[0]), OutcomeOf(evts[1..], env[1..], currentOk, legacyOk))
    else Final(evts[0], env[0], currentOk, legacyOk)
  }

  /** An outcome that comes after `ack` delivered events and the attempts made for them. */
  function After<E>(ack: nat, log: seq<Attempt<E>>, o: Outcome<E>): Outcome<E> {
    o.(ack := ack + o.ack, log := log + o.log)
  }

  /** The outcome of the whole post, seen from the event at `i`. */
  lemma AtEvent<E>(evts: seq<E>, env: seq<Answers>, currentOk: bool, legacyOk: bool, i: nat, log: seq<Attempt<E>>)
    requires |evts| == |env| && i < |evts|
    ensures var o := After(i, log, OutcomeOf(evts[i..], env[i..], currentOk, legacyOk));
            o == if FateOf(env[i]).Delivered?
                 then After(i + 1, log + Ladder(evts[i], env[i]),
                            OutcomeOf(evts[i + 1..], env[i + 1..], currentOk, legacyOk))
                 else After(i, log, Final(evts[i], env[i], currentOk, legacyOk))
  {
    assert evts[i..][0] == evts[i] && evts[i..][1..] == evts[i + 1..];
    assert env[i..][0] == env[i] && env[i..][1..] == env[i + 1..];
    var rest := OutcomeOf(evts[i + 1..], env[i + 1..], currentOk, legacyOk);
    assert log + (Ladder(evts[i], env[i]) + rest.log) == log + Ladder(evts[i], env[i]) + rest.log;
  }

  // ----- the loop -----

  /** The attempts for one event, in the order of the modes, up to the point where it is known whether they
      failed; `blocked` says that the whole call is over. */
  method SendEvent<E>(evt: E, answers: Answers, currentOk: bool, legacyOk: bool)
    returns (err: Error, attempts: seq<Attempt<E>>, floods: nat, removals: seq<Removal>, blocked: bool)
    requires answers.decodes
    ensures attempts == Ladder(evt, answers)
    ensures blocked <==> FateOf(answers).Blocked?
    ensures match FateOf(answers)
            case Blocked => Outcome(0, err, attempts, floods, removals) == Final(evt, answers, currentOk, legacyOk)
            case Flooded(mode) => err == SendError(Flood) && floods == HandlersStarted(mode) - 1 && removals == []
            case GivenUp => err == SendError(answers.raw) && floods == 0 && removals == []
            case Delivered => err == Nil && floods == 0 && removals == []
            case Undecodable => false
  {
    floods, removals, blocked := 0, [], false;
    err := if answers.html.Accepted? then Nil else SendError(answers.html);
    attempts := [Attempt(evt, Html, answers.html)];
    if err != Nil {
      if err.reply == Flood {
        floods := floods + 1;
      } else if err.reply == Forbidden {
        blocked := true;
        err := if currentOk then Nil else UnsubscribeError;
        removals := [RemoveCurrent];
        if err != Nil {
          err := if legacyOk then Nil else UnsubscribeError;
          removals := removals + [RemoveLegacy];
        }
        return;
      } else {
        err := if answers.plain.Accepted? then Nil else SendError(answers.plain);
        attempts := attempts + [Attempt(evt, Plain, answers.plain)];
      }
    }
    if err != Nil {
      if err.reply == Flood {
        floods := floods + 1;
      } else {
        err := if answers.raw.Accepted? then Nil else SendError(answers.raw);
        attempts := attempts + [Attempt(evt, Raw, answers.raw)];
      }
    }
  }

  method Deliver<E>(evts: seq<E>, env: seq<Answers>, currentOk: bool, legacyOk: bool)
    returns (countAck: nat, err: Error, log: seq<Attempt<E>>, floods: nat, removals: seq<Removal>)
    requires |evts| == |env|
    ensures Outcome(countAck, err, log, floods, removals) == OutcomeOf(evts, env, currentOk, legacyOk)
  {
    countAck, err, log, floods, removals := 0, Nil, [], 0, [];
    for i := 0 to |evts|
      invariant countAck == i && err == Nil && floods == 0 && removals == []
      invariant OutcomeOf(evts, env, currentOk, legacyOk)
             == After(i, log, OutcomeOf(evts[i..], env[i..], currentOk, legacyOk))
    {
      AtEvent(evts, env, currentOk, legacyOk, i, log);
      if !env[i].decodes {
        err := DecodeError;
        break;
      }
      var attempts, blocked;
      err, attempts, floods, removals, blocked := SendEvent(evts[i], env[i], currentOk, legacyOk);
      log := log + attempts;
      if blocked {
        return;
      }
      if err == Nil {
        countAck := countAck + 1;
      }
      if err != Nil {
        if err.reply == Flood {
          floods := floods + 1;
        } else {
          countAck := countAck + 1; // to skip
        }
        break;
      }
    }
  }

  /** The answer to the hub: 200 with the acknowledged count, 400 or 500. */
  datatype Response = Ok(ackCount: nat) | BadRequest | ServerError

  function Respond(ack: nat, err: Error): Response {
    if err == Nil || ack > 0 then Ok(ack) else ServerError
  }

  // ----- what the counts and the attempts mean -----

  /** The events that reached the chat, in order. */
  function Reached<E>(log: seq<Attempt<E>>): seq<E> {
    if log == [] then []
    else (if log[0].reply.Accepted? then [log[0].event] else []) + Reached(log[1..])
  }

  /** The three attempts at `e` from position `i` on all failed, and not because of a flood. */
  predicate AllFailedAt<E(==)>(log: seq<Attempt<E>>, i: nat, e: E) {
    && i + 2 < |log|
    && log[i] == Attempt(e, Html, Failure)
    && log[i + 1].event == e && log[i + 1].mode == Plain && log[i + 1].reply in {Failure, Forbidden}
    && log[i + 2].event == e && log[i + 2].mode == Raw && log[i + 2].reply in {Failure, Forbidden}
  }

  ghost predicate AllFailed<E>(log: seq<Attempt<E>>, e: E) {
    exists i: nat :: AllFailedAt(log, i, e)
  }

  /** An attempt after which the same event is tried in the next mode. */
  predicate FallsBack<E>(a: Attempt<E>) {
    (a.mode == Html && a.reply == Failure) || (a.mode == Plain && a.reply in {Failure, Forbidden})
  }

  predicate Follows<E(==)>(a: Attempt<E>, b: Attempt<E>) {
    if FallsBack(a) then b.event == a.event && b.mode == (if a.mode == Html then Plain else Raw)
    else a.reply == Accepted && b.mode == Html
  }

  /** The attempts are a run of ladders: each starts with HTML, goes on to the next mode exactly after a
      failure that is neither a flood nor, in HTML, a 403, and is followed by another event's ladder only
      when it ended with success. */
  predicate RunOfLadders<E(==)>(log: seq<Attempt<E>>) {
    && (log != [] ==> log[0].mode == Html && !FallsBack(log[|log| - 1]))
    && forall i :: 0 <= i < |log| - 1 ==> Follows(log[i], log[i + 1])
  }

  lemma {:induction false} ReachedConcat<E>(a: seq<Attempt<E>>, b: seq<Attempt<E>>)
    ensures Reached(a + b) == Reached(a) + Reached(b)
  {
    if a == [] {
      assert a + b == b;
    } else {
      assert (a + b)[1..] == a[1..] + b && (a + b)[0] == a[0];
      ReachedConcat(a[1..], b);
      var head := if a[0].reply.Accepted? then [a[0].event] else [];
      assert Reached(a + b) == head + Reached(a[1..] + b);
      assert head + (Reached(a[1..]) + Reached(b)) == head + Reached(a[1..]) + Reached(b);
    }
  }

  /** Attempts put together fail for an event exactly when one of the parts does: a run of three cannot
      lie across a place where a new ladder begins. */
  lemma AllFailedConcat<E>(a: seq<Attempt<E>>, b: seq<Attempt<E>>, e: E)
    requires b != [] ==> b[0].mode == Html
    ensures AllFailed(a + b, e) <==> AllFailed(a, e) || AllFailed(b, e)
  {
    if AllFailed(a + b, e) {
      var i: nat :| AllFailedAt(a + b, i, e);
      if i + 2 < |a| {
        assert AllFailedAt(a, i, e);
      } else if |a| <= i {
        assert AllFailedAt(b, i - |a|, e);
      } else {
        assert false;
      }
    }
    if AllFailed(a, e) {
      var i: nat :| AllFailedAt(a, i, e);
      assert AllFailedAt(a + b, i, e);
    }
    if AllFailed(b, e) {
      var i: nat :| AllFailedAt(b, i, e);
      assert AllFailedAt(a + b, |a| + i, e);
    }
  }

  /** One event's ladder by itself. */
  lemma LadderMeaning<E>(e: E, a: Answers, x: E)
    ensures RunOfLadders(Ladder(e, a))
    ensures Reached(Ladder(e, a)) == if FateOf(a).Delivered? then [e] else []
    ensures AllFailed(Ladder(e, a), x) <==> x == e && FateOf(a).GivenUp?
  {
    var ladder := Ladder(e, a);
    if |ladder| > 1 {
      assert ladder[1..] == [ladder[1]] + ladder[2..];
    }
    if |ladder| == 3 {
      assert ladder[2..] == [ladder[2]];
      assert Reached(ladder[2..]) == if a.raw.Accepted? then [e] else [];
      assert ladder[1..][1..] == ladder[2..];
      if FateOf(a).GivenUp? {
        assert AllFailedAt(ladder, 0, e);
      }
    }
  }

  /** An attempt at one of the events, which decodes, with the answer that awaits it in the attempt's mode. */
  ghost predicate Answered<E(!new)>(t: Attempt<E>, evts: seq<E>, env: seq<Answers>)
    requires |evts| == |env|
  {
    exists k: nat :: k < |evts| && t.event == evts[k] && env[k].decodes && t.reply == env[k].In(t.mode)
  }

  lemma AnsweredLater<E(!new)>(t: Attempt<E>, evts: seq<E>, env: seq<Answers>)
    requires |evts| == |env| && evts != [] && Answered(t, evts[1..], env[1..])
    ensures Answered(t, evts, env)
  {
    var k: nat :| && k < |evts[1..]| && t.event == evts[1..][k]
                  && env[1..][k].decodes && t.reply == env[1..][k].In(t.mode);
    assert t.event == evts[k + 1] && env[k + 1].decodes && t.reply == env[k + 1].In(t.mode);
  }

  lemma LadderAnswered<E(!new)>(evts: seq<E>, env: seq<Answers>)
    requires |evts| == |env| && evts != []
    ensures forall t <- Ladder(evts[0], env[0]) :: Answered(t, evts, env)
  {
    var ladder := Ladder(evts[0], env[0]);
    forall t | t in ladder ensures Answered(t, evts, env) {
      assert t.event == evts[0] && env[0].decodes && t.reply == env[0].In(t.mode);
    }
  }

  /** In one call the attempts are a run of ladders, each with the answers to its event. */
  lemma {:induction false} AttemptsAreLadders<E(!new)>(evts: seq<E>, env: seq<Answers>, currentOk: bool, legacyOk: bool)
    requires |evts| == |env|
    ensures RunOfLadders(OutcomeOf(evts, env, currentOk, legacyOk).log)
    ensures forall t <- OutcomeOf(evts, env, currentOk, legacyOk).log :: Answered(t, evts, env)
  {
    if evts != [] {
      var ladder := Ladder(evts[0], env[0]);
      LadderMeaning(evts[0], env[0], evts[0]);
      LadderAnswered(evts, env);
      if FateOf(env[0]).Delivered? {
        AttemptsAreLadders(evts[1..], env[1..], currentOk, legacyOk);
        var rest := OutcomeOf(evts[1..], env[1..], currentOk, legacyOk);
        forall t | t in rest.log ensures Answered(t, evts, env) {
          AnsweredLater(t, evts, env);
        }
        assert ladder[|ladder| - 1].reply == Accepted;
      }
    }
  }

  /** The last attempt found the bot blocked. */
  predicate EndsBlocked<E>(log: seq<Attempt<E>>) {
    log != [] && log[|log| - 1].mode == Html && log[|log| - 1].reply == Forbidden
  }

  /** How a call ended, read off its attempts: a 403 in HTML is the one error that asks for removals, of the
      current callback and then, when that failed, of the legacy one, and it is none if one of them worked; any
      other answer but success is the error returned; otherwise the events are used up or the next one could
      not be decoded. */
  ghost predicate EndsFor<E>(evts: seq<E>, env: seq<Answers>, currentOk: bool, legacyOk: bool, o: Outcome<E>)
    requires |evts| == |env|
  {
    if EndsBlocked(o.log) then
      && (o.err == if currentOk || legacyOk then Nil else UnsubscribeError)
      && |o.removals| == (if currentOk then 1 else 2) && o.removals[0] == RemoveCurrent
      && (!currentOk ==> o.removals[1] == RemoveLegacy)
    else
      && o.removals == []
      && if o.log != [] && o.log[|o.log| - 1].reply != Accepted then o.err == SendError(o.log[|o.log| - 1].reply)
         else if o.ack < |evts| then !env[o.ack].decodes && o.err == DecodeError
         else o.err == Nil
  }

  lemma {:induction false} CallEndsFor<E(!new)>(evts: seq<E>, env: seq<Answers>, currentOk: bool, legacyOk: bool)
    requires |evts| == |env|
    ensures EndsFor(evts, env, currentOk, legacyOk, OutcomeOf(evts, env, currentOk, legacyOk))
  {
    if evts != [] && FateOf(env[0]).Delivered? {
      CallEndsFor(evts[1..], env[1..], currentOk, legacyOk);
      var ladder := Ladder(evts[0], env[0]);
      assert ladder[|ladder| - 1].reply == Accepted;
    }
  }

  /** The events that reached the chat are exactly the acknowledged ones, in order, and no event failed
      in all three modes; or the last acknowledged event failed in all three, and it is the only one
      that did and the only acknowledged one that did not reach the chat. */
  ghost predicate AckMeans<E(!new)>(evts: seq<E>, o: Outcome<E>) {
    && o.ack <= |evts|
    && (|| (Reached(o.log) == evts[..o.ack] && forall e :: !AllFailed(o.log, e))
        || (&& o.ack > 0 && Reached(o.log) == evts[..o.ack - 1]
            && forall e :: AllFailed(o.log, e) <==> e == evts[o.ack - 1]))
  }

  lemma AllFailedAfter<E>(x: E, a: Answers, log: seq<Attempt<E>>, e: E)
    requires FateOf(a).Delivered? && (log != [] ==> log[0].mode == Html)
    ensures AllFailed(Ladder(x, a) + log, e) <==> AllFailed(log, e)
  {
    LadderMeaning(x, a, e);
    AllFailedConcat(Ladder(x, a), log, e);
  }

  lemma PrefixAfterFirst<T>(s: seq<T>, k: nat)
    requires k < |s|
    ensures [s[0]] + s[1..][..k] == s[..k + 1]
  {
  }

  lemma AckMeansAfter<E(!new)>(evts: seq<E>, a: Answers, rest: Outcome<E>)
    requires evts != [] && FateOf(a).Delivered?
    requires AckMeans(evts[1..], rest) && (rest.log != [] ==> rest.log[0].mode == Html)
    ensures AckMeans(evts, After(1, Ladder(evts[0], a), rest))
  {
    var ladder := Ladder(evts[0], a);
    LadderMeaning(evts[0], a, evts[0]);
    ReachedConcat(ladder, rest.log);
    forall e ensures AllFailed(ladder + rest.log, e) <==> AllFailed(rest.log, e) {
      AllFailedAfter(evts[0], a, rest.log, e);
    }
    PrefixAfterFirst(evts, rest.ack);
    if rest.ack > 0 {
      PrefixAfterFirst(evts, rest.ack - 1);
    }
  }

  /** What the acknowledged count of any call means. */
  lemma {:induction false} AckMeaning<E(!new)>(evts: seq<E>, env: seq<Answers>, currentOk: bool, legacyOk: bool)
    requires |evts| == |env|
    ensures AckMeans(evts, OutcomeOf(evts, env, currentOk, legacyOk))
  {
    if evts == [] {
    } else if FateOf(env[0]).Delivered? {
      AckMeaning(evts[1..], env[1..], currentOk, legacyOk);
      AttemptsAreLadders(evts[1..], env[1..], currentOk, legacyOk);
      AckMeansAfter(evts, env[0], OutcomeOf(evts[1..], env[1..], currentOk, legacyOk));
    } else {
      AckMeansFinal(evts, env[0], currentOk, legacyOk);
    }
  }

  lemma AckMeansFinal<E(!new)>(evts: seq<E>, a: Answers, currentOk: bool, legacyOk: bool)
    requires evts != [] && !FateOf(a).Delivered?
    ensures AckMeans(evts, Final(evts[0], a, currentOk, legacyOk))
  {
    LadderMeaning(evts[0], a, evts[0]);
    forall e ensures AllFailed(Ladder(evts[0], a), e) <==> e == evts[0] && FateOf(a).GivenUp? {
      LadderMeaning(evts[0], a, e);
    }
    if FateOf(a).Undecodable? {
      assert forall e :: !AllFailed(Ladder(evts[0], a), e);
    }
  }

  /** The flood handler is started three times for a flood in HTML, twice in plain text, once in raw text, and
      not at all in a call without a flood; a flooded call stops there. */
  lemma {:induction false} FloodHandlers<E>(evts: seq<E>, env: seq<Answers>, currentOk: bool, legacyOk: bool)
    requires |evts| == |env|
    ensures var o := OutcomeOf(evts, env, currentOk, legacyOk);
            o.floods == if o.log == [] || o.log[|o.log| - 1].reply != Flood then 0
                        else match o.log[|o.log| - 1].mode case Html => 3 case Plain => 2 case Raw => 1
    ensures var o := OutcomeOf(evts, env, currentOk, legacyOk);
            forall i :: 0 <= i < |o.log| - 1 ==> o.log[i].reply != Flood
  {
    if evts != [] && FateOf(env[0]).Delivered? {
      FloodHandlers(evts[1..], env[1..], currentOk, legacyOk);
      var ladder := Ladder(evts[0], env[0]);
      assert ladder[|ladder| - 1].reply == Accepted;
    }
  }
}
