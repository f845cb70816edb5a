/**
 The queue client (api/grpc/queue/service.go): it opens a stream, sends one Start command, and then
 acknowledges every batch it receives.

 The stream may never end. A run is given by the turns it takes, as many as one likes to look at; a run
 whose turns are used up is still going on, so every prefix of every run is covered. What the stream, the
 consumer and the context do in each turn is arbitrary.
 */
module Queue {

  /** The status codes that matter; an error can carry the code OK. */
  datatype Code = OK | NotFound | OtherCode

  datatype Open = Opened | OpenEof | OpenNotFound | OpenFailed

  datatype Recv<M> = Eof | Failed(code: Code) | NoResponse | Batch(msgs: seq<M>)

  /** One turn: what was received, and whether consuming and acknowledging a batch worked and the context
      was cancelled by then. */
  datatype Turn<M> = Turn(recv: Recv<M>, consumeOk: bool, ackOk: bool, cancelled: bool)

  /** What the client did: the Start command, the batches given to the consumer, the acknowledgements. */
  datatype Event<M> = Start(queue: string, subj: string, batchSize: nat) | Consume(msgs: seq<M>) | Ack(count: nat)

  datatype Error = Nil | QueueMissing | Internal | StreamEof | StartNotSent | ConsumeOrAckFailed | Cancelled

  datatype Result = Running | Returned(err: Error)

  /** The count of an acknowledgement is cut to 32 bits. */
  function Uint32(n: nat): (r: nat)
    ensures r < 0x1_0000_0000 && (n - r) % 0x1_0000_0000 == 0
  {
    n % 0x1_0000_0000
  }

  function DecodeError(code: Code): Error {
    match code case OK => Nil case NotFound => QueueMissing case OtherCode => Internal
  }

  // ----- specification -----

  /** How a turn ends the run, when it does. */
  function EndOf<M>(t: Turn<M>): Result {
    match t.recv
    case Eof => Returned(Nil)
    case Failed(code) => Returned(DecodeError(code))
    case NoResponse => if t.cancelled then Returned(Cancelled) else Running
    case Batch(_) =>
      if !t.consumeOk || !t.ackOk then Returned(ConsumeOrAckFailed)
      else if t.cancelled then Returned(Cancelled)
      else Running
  }

  /** What the client does in a turn. */
  function EventsOf<M>(t: Turn<M>): seq<Event<M>> {
    if t.recv.Batch? then [Consume(t.recv.msgs), Ack(Uint32(|t.recv.msgs|))] else []
  }

  datatype Served<M> = Served(trace: seq<Event<M>>, result: Result)

  function Serve<M>(turns: seq<Turn<M>>): Served<M> {
    if turns == [] then Served([], Running)
    else if EndOf(turns[0]).Returned? then Served(EventsOf(turns[0]), EndOf(turns[0]))
    else
      var rest := Serve(turns[1..]);
      Served(EventsOf(turns[0]) + rest.trace, rest.result)
  }

  /** A whole run. */
  function Run<M>(open: Open, startOk: bool, start: Event<M>, turns: seq<Turn<M>>): Served<M> {
    match open
    case OpenEof => Served([], Returned(StreamEof))
    case OpenNotFound => Served([], Returned(QueueMissing))
    case OpenFailed => Served([], Returned(Internal))
    case Opened =>
      if !startOk then Served([start], Returned(StartNotSent))
      else Served([start] + Serve(turns).trace, Serve(turns).result)
  }

  lemma ServeFrom<M>(turns: seq<Turn<M>>, i: nat)
    requires i < |turns|
    ensures Serve(turns[i..])
         == if EndOf(turns[i]).Returned? then Served(EventsOf(turns[i]), EndOf(turns[i]))
            else Served(EventsOf(turns[i]) + Serve(turns[i + 1..]).trace, Serve(turns[i + 1..]).result)
  {
    assert turns[i..][0] == turns[i] && turns[i..][1..] == turns[i + 1..];
  }

  // ----- the loop -----

  method ReceiveMessages<M>(queue: string, subj: string, batchSize: nat, open: Open, startOk: bool, turns: seq<Turn<M>>)
    returns (trace: seq<Event<M>>, result: Result)
    ensures Served(trace, result) == Run(open, startOk, Start(queue, subj, batchSize), turns)
  {
    trace := [];
    var err :=
      match open
      case Opened => Nil
      case OpenEof => StreamEof
      case OpenNotFound => QueueMissing
      case OpenFailed => Internal;
    if err == Nil {
      trace := [Start(queue, subj, batchSize)];
      err := if startOk then Nil else StartNotSent;
    }
    if err == Nil {
      var i := 0;
      while i < |turns|
        invariant 0 <= i <= |turns| && err == Nil
        invariant trace + Serve(turns[i..]).trace == [Start(queue, subj, batchSize)] + Serve(turns).trace
        invariant Serve(turns[i..]).result == Serve(turns).result
      {
        var t := turns[i];
        ghost var before := trace;
        ServeFrom(turns, i);
        i := i + 1;
        if t.recv.Eof? {
          return trace, Returned(Nil);
        }
        if t.recv.Failed? {
          return trace, Returned(DecodeError(t.recv.code));
        }
        if t.recv.Batch? {
          trace := trace + [Consume(t.recv.msgs)];
          if !t.consumeOk {
            err := ConsumeOrAckFailed;
          }
          trace := trace + [Ack(Uint32(|t.recv.msgs|))];
          if !t.ackOk {
            err := ConsumeOrAckFailed;
          }
        }
        assert trace == before + EventsOf(t);
        if err == Nil {
          if !t.cancelled {
            assert before + (EventsOf(t) + Serve(turns[i..]).trace) == trace + Serve(turns[i..]).trace;
            continue;
          }
          err := Cancelled;
        }
        return trace, Returned(err);
      }
      return trace, Running;
    }
    return trace, Returned(err);
  }

  // ----- what the trace means -----

  /** The batches received in the given turns, in order. */
  function Batches<M>(turns: seq<Turn<M>>): seq<seq<M>> {
    if turns == [] then []
    else (if turns[0].recv.Batch? then [turns[0].recv.msgs] else []) + Batches(turns[1..])
  }

  /** The trace of a protocol that consumes the batches in order and acknowledges each right after. */
  ghost predicate Alternates<M(!new)>(trace: seq<Event<M>>, batches: seq<seq<M>>) {
    && |trace| == 2 * |batches|
    && forall i :: 0 <= i < |batches| ==>
         trace[2 * i] == Consume(batches[i]) && trace[2 * i + 1] == Ack(Uint32(|batches[i]|))
  }

  /** The number of turns a run takes: up to the first that ends it. */
  function Taken<M>(turns: seq<Turn<M>>): (k: nat)
    ensures k <= |turns|
    ensures forall j :: 0 <= j < k - 1 ==> EndOf(turns[j]).Running?
    ensures k < |turns| ==> k > 0 && EndOf(turns[k - 1]).Returned?
  {
    if turns == [] then 0
    else if EndOf(turns[0]).Returned? then 1
    else 1 + Taken(turns[1..])
  }

  lemma {:induction false} ServeAlternates<M(!new)>(turns: seq<Turn<M>>)
    ensures Alternates(Serve(turns).trace, Batches(turns[..Taken(turns)]))
    ensures Serve(turns).result
         == if Taken(turns) == 0 then Running else EndOf(turns[Taken(turns) - 1])
  {
    if turns == [] {
    } else if EndOf(turns[0]).Returned? {
      assert turns[..1] == [turns[0]];
      assert Batches(turns[..1]) == if turns[0].recv.Batch? then [turns[0].recv.msgs] else [];
    } else {
      var rest := turns[1..];
      ServeAlternates(rest);
      var taken := turns[..Taken(turns)];
      assert taken[1..] == rest[..Taken(rest)];
      AlternatesAfter(turns[0], Serve(rest).trace, Batches(taken[1..]));
    }
  }

  lemma AlternatesAfter<M(!new)>(t: Turn<M>, trace: seq<Event<M>>, batches: seq<seq<M>>)
    requires Alternates(trace, batches)
    ensures Alternates(EventsOf(t) + trace, (if t.recv.Batch? then [t.recv.msgs] else []) + batches)
  {
    if t.recv.Batch? {
      var all, events := [t.recv.msgs] + batches, EventsOf(t) + trace;
      forall i | 0 <= i < |all|
        ensures events[2 * i] == Consume(all[i]) && events[2 * i + 1] == Ack(Uint32(|all[i]|))
      {
        if i > 0 {
          assert events[2 * i] == trace[2 * (i - 1)] && events[2 * i + 1] == trace[2 * (i - 1) + 1];
        }
      }
    } else {
      assert EventsOf(t) + trace == trace;
      assert [] + batches == batches;
    }
  }

  /** Nothing is sent before the stream is open. Then Start comes first, and after it exactly one
      acknowledgement for every batch received up to the turn that ended the run, in the order the
      batches were received, each right after its batch was given to the consumer, and with its length. */
  lemma TraceShape<M(!new)>(open: Open, startOk: bool, start: Event<M>, turns: seq<Turn<M>>)
    ensures var r := Run(open, startOk, start, turns);
            && (!open.Opened? ==> r.trace == [])
            && (open.Opened? ==>
                  && r.trace != [] && r.trace[0] == start
                  && Alternates(r.trace[1..], if startOk then Batches(turns[..Taken(turns)]) else []))
  {
    ServeAlternates(turns);
    if open.Opened? && startOk {
      assert ([start] + Serve(turns).trace)[1..] == Serve(turns).trace;
    }
  }

  predicate Clean<M>(t: Turn<M>) {
    !t.cancelled && (t.recv.NoResponse? || (t.recv.Batch? && t.consumeOk && t.ackOk))
  }

  /** A run returns without an error exactly when the stream opened, Start was sent, and some turn found the
      stream at its end, or failed with the code OK, after turns in which every batch was consumed and
      acknowledged and the context was not cancelled. */
  lemma {:induction false} NilResult<M(!new)>(open: Open, startOk: bool, start: Event<M>, turns: seq<Turn<M>>)
    ensures Run(open, startOk, start, turns).result == Returned(Nil)
       <==> && open.Opened? && startOk
            && exists k :: 0 <= k < |turns| && turns[k].recv in {Eof, Failed(OK)}
                           && forall j :: 0 <= j < k ==> Clean(turns[j])
  {
    ServeAlternates(turns);
    var n := Taken(turns);
    assert forall j :: 0 <= j && j + 1 < n ==> Clean(turns[j]);
    if Serve(turns).result == Returned(Nil) {
      assert turns[n - 1].recv in {Eof, Failed(OK)};
    }
  }

  lemma {:induction false} EndsAtFirstUnclean<M(!new)>(turns: seq<Turn<M>>, k: nat)
    requires k <= |turns| && forall j :: 0 <= j < k ==> Clean(turns[j])
    requires k < |turns| ==> !Clean(turns[k])
    ensures Taken(turns) == if k < |turns| then k + 1 else k
  {
    if k > 0 {
      assert Clean(turns[0]);
      EndsAtFirstUnclean(turns[1..], k - 1);
    } else if turns != [] {
      assert !Clean(turns[0]);
    }
  }

  /** Every error by its cause: the stream did not open, Start was not sent, or the first turn that did not go
      well failed, had its batch not consumed or not acknowledged, or found the context cancelled; while all
      turns go well the run goes on. */
  lemma ResultByCause<M(!new)>(open: Open, startOk: bool, start: Event<M>, turns: seq<Turn<M>>, k: nat)
    requires k <= |turns| && forall j :: 0 <= j < k ==> Clean(turns[j])
    requires k < |turns| ==> !Clean(turns[k])
    ensures var result := Run(open, startOk, start, turns).result;
            match open
            case OpenEof => result == Returned(StreamEof)
            case OpenNotFound => result == Returned(QueueMissing)
            case OpenFailed => result == Returned(Internal)
            case Opened =>
              if !startOk then result == Returned(StartNotSent)
              else if k == |turns| then result == Running
              else match turns[k].recv
                case Eof => result == Returned(Nil)
                case Failed(OK) => result == Returned(Nil)
                case Failed(NotFound) => result == Returned(QueueMissing)
                case Failed(OtherCode) => result == Returned(Internal)
                case NoResponse => result == Returned(Cancelled)
                case Batch(_) =>
                  result == Returned(if turns[k].consumeOk && turns[k].ackOk then Cancelled else ConsumeOrAckFailed)
  {
    ServeAlternates(turns);
    EndsAtFirstUnclean(turns, k);
    if k == |turns| && k > 0 {
      assert Clean(turns[k - 1]);
    }
  }

  function Acked<M>(trace: seq<Event<M>>): nat {
    if trace == [] then 0 else (if trace[0].Ack? then trace[0].count else 0) + Acked(trace[1..])
  }

  function Consumed<M>(trace: seq<Event<M>>): nat {
    if trace == [] then 0 else (if trace[0].Consume? then |trace[0].msgs| else 0) + Consumed(trace[1..])
  }

  /** The counts acknowledged add up to the number of messages consumed exactly when every batch has fewer
      than 2^32 messages; they never exceed it. */
  lemma {:induction false} AcksAddUp<M(!new)>(turns: seq<Turn<M>>)
    ensures Acked(Serve(turns).trace) <= Consumed(Serve(turns).trace)
    ensures Acked(Serve(turns).trace) == Consumed(Serve(turns).trace)
       <==> forall b <- Batches(turns[..Taken(turns)]) :: |b| < 0x1_0000_0000
  {
    if turns != [] {
      var t := turns[0];
      AckedOfTurn(t);
      BatchesOfFirst(turns, Taken(turns));
      var rest := turns[..Taken(turns)][1..];
      if EndOf(t).Returned? {
        assert rest == [] && Batches(rest) == [];
      } else {
        assert rest == turns[1..][..Taken(turns[1..])];
        AcksAddUp(turns[1..]);
        AckedConcat(EventsOf(t), Serve(turns[1..]).trace);
      }
      FirstAndRest(if t.recv.Batch? then [t.recv.msgs] else [], Batches(rest));
    }
  }

  /** What the counts acknowledged may fall short by is a multiple of 2^32. */
  lemma {:induction false} AcksAddUpModulo<M(!new)>(turns: seq<Turn<M>>)
    ensures (Consumed(Serve(turns).trace) - Acked(Serve(turns).trace)) % 0x1_0000_0000 == 0
  {
    if turns != [] {
      AckedOfTurn(turns[0]);
      if EndOf(turns[0]).Running? {
        AcksAddUpModulo(turns[1..]);
        AckedConcat(EventsOf(turns[0]), Serve(turns[1..]).trace);
      }
    }
  }

  lemma FirstAndRest<M>(first: seq<seq<M>>, rest: seq<seq<M>>)
    ensures (forall b <- first + rest :: |b| < 0x1_0000_0000)
        <==> (forall b <- first :: |b| < 0x1_0000_0000) && (forall b <- rest :: |b| < 0x1_0000_0000)
  {
    assert forall b <- first :: b in first + rest;
    assert forall b <- rest :: b in first + rest;
  }

  lemma BatchesOfFirst<M>(turns: seq<Turn<M>>, k: nat)
    requires 0 < k <= |turns|
    ensures var t := turns[0];
            Batches(turns[..k]) == (if t.recv.Batch? then [t.recv.msgs] else []) + Batches(turns[..k][1..])
  {
    assert turns[..k][0] == turns[0];
  }

  lemma AckedOfTurn<M>(t: Turn<M>)
    ensures Acked(EventsOf(t)) == if t.recv.Batch? then Uint32(|t.recv.msgs|) else 0
    ensures Consumed(EventsOf(t)) == if t.recv.Batch? then |t.recv.msgs| else 0
  {
    if t.recv.Batch? {
      var events := EventsOf(t);
      assert events[1..] == [events[1]];
      assert Acked(events[1..]) == Uint32(|t.recv.msgs|) && Consumed(events[1..]) == 0;
    }
  }

  lemma {:induction false} AckedConcat<M>(a: seq<Event<M>>, b: seq<Event<M>>)
    ensures Acked(a + b) == Acked(a) + Acked(b)
    ensures Consumed(a + b) == Consumed(a) + Consumed(b)
  {
    if a == [] {
      assert a + b == b;
    } else {
      assert (a + b)[1..] == a[1..] + b;
      AckedConcat(a[1..], b);
    }
  }
}
