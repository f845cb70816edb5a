/**
 Interest conditions: the translation between the bot's own condition trees and the ones on the wire
 (api/http/interests/service.go), and the check made before an interest is created
 (service/subscriptions/create.go).

 The logic and the operation of a condition are integers, 64 bits wide in the bot and 32 bits on the
 wire, and are not limited to the declared names. Number values are only copied.
 */
module Conditions {
  import opened Bytes
  import opened Integers

  const OR := 1
  const UNDEFINED := 0

  const LIMIT_OR_CHILDREN := 4
  const MIN_TERM_LENGTH := 3
  const MAX_TERM_LENGTH := 256

  /** A condition of the bot; `Unsupported` is any kind that is none of the four. */
  datatype Condition =
    | Group(not: bool, logic: int, group: seq<Condition>)
    | Text(not: bool, key: bytes, term: bytes, exact: bool)
    | Semantic(not: bool, id: bytes, query: bytes)
    | Number(not: bool, key: bytes, op: int, value: real)
    | Unsupported(not: bool)

  /** A condition on the wire; `Unset` is one whose kind is missing. */
  datatype Wire =
    | Gc(not: bool, logic: int32, group: seq<Wire>)
    | Tc(not: bool, id: bytes, key: bytes, term: bytes, exact: bool)
    | Sc(not: bool, id: bytes, query: bytes)
    | Nc(not: bool, id: bytes, key: bytes, op: int32, value: real)
    | Unset(not: bool)

  /** Both operation tables number the operations alike and know no others; an unknown one becomes the
      undefined one (`encodeNumOp`, `decodeNumOp`). */
  function NumOp(op: int): (r: int32)
    ensures 0 <= r <= 5 && (r == op || (r == 0 && (op < 0 || op > 5)))
  {
    if 1 <= op <= 5 then op else UNDEFINED
  }

  // ----- specification of the codec -----

  function Encode(c: Condition): Wire
    decreases c
  {
    match c
    case Group(not, logic, group) => Gc(not, Int32(logic), EncodeAll(group))
    case Text(not, key, term, exact) => Tc(not, [], key, term, exact)
    case Semantic(not, id, query) => Sc(not, [], query)
    case Number(not, key, op, value) => Nc(not, [], key, NumOp(op), value)
    case Unsupported(not) => Unset(not)
  }

  function EncodeAll(cs: seq<Condition>): (ws: seq<Wire>)
    ensures |ws| == |cs|
    decreases cs
  {
    if cs == [] then [] else EncodeAll(cs[..|cs| - 1]) + [Encode(cs[|cs| - 1])]
  }

  function Decode(w: Wire): Option<Condition>
    decreases w
  {
    match w
    case Gc(not, logic, group) =>
      (match DecodeAll(group) case None => None case Some(cs) => Some(Group(not, logic, cs)))
    case Nc(not, id, key, op, value) => Some(Number(not, key, NumOp(op), value))
    case Sc(not, id, query) => Some(Semantic(not, id, query))
    case Tc(not, id, key, term, exact) => Some(Text(not, key, term, exact))
    case Unset(_) => None
  }

  function DecodeAll(ws: seq<Wire>): (cs: Option<seq<Condition>>)
    ensures cs.Some? ==> |cs.value| == |ws|
    decreases ws
  {
    if ws == [] then Some([])
    else
      var before, last := DecodeAll(ws[..|ws| - 1]), Decode(ws[|ws| - 1]);
      if before.Some? && last.Some? then Some(before.value + [last.value]) else None
  }

  // ----- the codec -----

  method EncodeCondition(src: Condition) returns (dst: Wire)
    ensures dst == Encode(src)
    decreases src
  {
    match src {
      case Group(not, logic, group) =>
        var dstGroup := [];
        for i := 0 to |group|
          invariant dstGroup == EncodeAll(group[..i])
        {
          var childDst := EncodeCondition(group[i]);
          dstGroup := dstGroup + [childDst];
          assert group[..i + 1][..i] == group[..i];
        }
        assert group[..|group|] == group;
        dst := Gc(not, Int32(logic), dstGroup);
      case Text(not, key, term, exact) =>
        dst := Tc(not, [], key, term, exact);
      case Semantic(not, id, query) =>
        dst := Sc(not, [], query);
      case Number(not, key, op, value) =>
        dst := Nc(not, [], key, NumOp(op), value);
      case Unsupported(not) =>
        dst := Unset(not);
    }
  }

  method DecodeCondition(src: Wire) returns (dst: Option<Condition>)
    ensures dst == Decode(src)
    decreases src
  {
    match src {
      case Gc(not, logic, group) =>
        var children := [];
        for i := 0 to |group|
          invariant DecodeAll(group[..i]) == Some(children)
        {
          var childDst := DecodeCondition(group[i]);
          assert group[..i + 1][..i] == group[..i];
          if childDst.None? {
            DecodeAllFails(group, i);
            return None;
          }
          children := children + [childDst.value];
        }
        assert group[..|group|] == group;
        dst := Some(Group(not, logic, children));
      case Nc(not, id, key, op, value) =>
        dst := Some(Number(not, key, NumOp(op), value));
      case Sc(not, id, query) =>
        dst := Some(Semantic(not, id, query));
      case Tc(not, id, key, term, exact) =>
        dst := Some(Text(not, key, term, exact));
      case Unset(_) =>
        dst := None;
    }
  }

  lemma DecodeAllOfMore(ws: seq<Wire>, w: Wire)
    ensures DecodeAll(ws + [w])
         == if DecodeAll(ws).Some? && Decode(w).Some? then Some(DecodeAll(ws).value + [Decode(w).value]) else None
  {
    assert (ws + [w])[..|ws|] == ws;
  }

  lemma {:induction false} DecodeAllFails(ws: seq<Wire>, i: nat)
    requires i < |ws| && Decode(ws[i]).None?
    ensures DecodeAll(ws).None?
  {
    if i < |ws| - 1 {
      DecodeAllFails(ws[..|ws| - 1], i);
    }
  }

  // ----- what the codec keeps -----

  /** The nodes of a tree, one inside another to any depth. */
  predicate Within(n: Condition, c: Condition)
    decreases c
  {
    n == c || (c.Group? && exists k :: 0 <= k < |c.group| && Within(n, c.group[k]))
  }

  predicate WithinWire(n: Wire, w: Wire)
    decreases w
  {
    n == w || (w.Gc? && exists k :: 0 <= k < |w.group| && WithinWire(n, w.group[k]))
  }

  /** What is left of a condition on the way to the wire and back: the ids of semantic conditions are
      erased, unknown operations become undefined, and logics are reduced to 32 bits. */
  function Normal(c: Condition): Condition
    decreases c
  {
    match c
    case Group(not, logic, group) => Group(not, Int32(logic), NormalAll(group))
    case Semantic(not, id, query) => Semantic(not, [], query)
    case Number(not, key, op, value) => Number(not, key, NumOp(op), value)
    case _ => c
  }

  function NormalAll(cs: seq<Condition>): (ns: seq<Condition>)
    ensures |ns| == |cs|
    ensures forall k :: 0 <= k < |cs| ==> ns[k] == Normal(cs[k])
    decreases cs
  {
    if cs == [] then [] else NormalAll(cs[..|cs| - 1]) + [Normal(cs[|cs| - 1])]
  }

  /** What is left of a wire condition on the way to the bot and back: all ids are erased and unknown
      operations become undefined. */
  function Stripped(w: Wire): Wire
    decreases w
  {
    match w
    case Gc(not, logic, group) => Gc(not, logic, StrippedAll(group))
    case Tc(not, id, key, term, exact) => Tc(not, [], key, term, exact)
    case Sc(not, id, query) => Sc(not, [], query)
    case Nc(not, id, key, op, value) => Nc(not, [], key, NumOp(op), value)
    case Unset(_) => w
  }

  function StrippedAll(ws: seq<Wire>): (ss: seq<Wire>)
    ensures |ss| == |ws|
    decreases ws
  {
    if ws == [] then [] else StrippedAll(ws[..|ws| - 1]) + [Stripped(ws[|ws| - 1])]
  }

  ghost predicate AllSupported(c: Condition) {
    forall n: Condition :: Within(n, c) ==> !n.Unsupported?
  }

  ghost predicate AllSet(w: Wire) {
    forall n: Wire :: WithinWire(n, w) ==> !n.Unset?
  }

  /** A wire condition is accepted exactly when no node in it, at any depth, lacks its kind; then encoding
      it again gives it back stripped. */
  lemma {:induction false} EncodeOfDecode(w: Wire)
    ensures Decode(w).Some? <==> AllSet(w)
    ensures Decode(w).Some? ==> Encode(Decode(w).value) == Stripped(w)
    decreases w
  {
    assert WithinWire(w, w);
    if w.Gc? {
      EncodeAllOfDecodeAll(w.group);
      if Decode(w).Some? {
        forall n: Wire | WithinWire(n, w) ensures !n.Unset? {
          if n != w {
            var k :| 0 <= k < |w.group| && WithinWire(n, w.group[k]);
            assert AllSet(w.group[k]);
          }
        }
      } else {
        var k :| 0 <= k < |w.group| && !AllSet(w.group[k]);
        var n: Wire :| WithinWire(n, w.group[k]) && n.Unset?;
        assert WithinWire(n, w);
      }
    }
  }

  lemma {:induction false} EncodeAllOfDecodeAll(ws: seq<Wire>)
    ensures DecodeAll(ws).Some? <==> forall k :: 0 <= k < |ws| ==> AllSet(ws[k])
    ensures DecodeAll(ws).Some? ==> EncodeAll(DecodeAll(ws).value) == StrippedAll(ws)
    decreases ws
  {
    if ws != [] {
      var n := |ws| - 1;
      EncodeAllOfDecodeAll(ws[..n]);
      EncodeOfDecode(ws[n]);
      assert forall k :: 0 <= k < n ==> ws[..n][k] == ws[k];
      if DecodeAll(ws).Some? {
        var cs := DecodeAll(ws).value;
        assert cs[..n] == DecodeAll(ws[..n]).value;
      }
    }
  }

  /** A condition survives the way to the wire and back exactly when every node in it, at any depth, is a
      group, a text, a semantic or a number condition; then it comes back in its normal form. */
  lemma {:induction false} DecodeOfEncode(c: Condition)
    ensures Decode(Encode(c)).Some? <==> AllSupported(c)
    ensures Decode(Encode(c)).Some? ==> Decode(Encode(c)).value == Normal(c)
    decreases c
  {
    assert Within(c, c);
    if c.Group? {
      DecodeAllOfEncodeAll(c.group);
      if Decode(Encode(c)).Some? {
        forall n: Condition | Within(n, c) ensures !n.Unsupported? {
          if n != c {
            var k :| 0 <= k < |c.group| && Within(n, c.group[k]);
            assert AllSupported(c.group[k]);
          }
        }
      } else {
        var k :| 0 <= k < |c.group| && !AllSupported(c.group[k]);
        var n: Condition :| Within(n, c.group[k]) && n.Unsupported?;
        assert Within(n, c);
      }
    }
  }

  lemma {:induction false} DecodeAllOfEncodeAll(cs: seq<Condition>)
    ensures DecodeAll(EncodeAll(cs)).Some? <==> forall k :: 0 <= k < |cs| ==> AllSupported(cs[k])
    ensures DecodeAll(EncodeAll(cs)).Some? ==> DecodeAll(EncodeAll(cs)).value == NormalAll(cs)
    decreases cs
  {
    if cs != [] {
      var n := |cs| - 1;
      DecodeAllOfEncodeAll(cs[..n]);
      DecodeOfEncode(cs[n]);
      DecodeAllOfMore(EncodeAll(cs[..n]), Encode(cs[n]));
      assert forall k :: 0 <= k < n ==> cs[..n][k] == cs[k];
    }
  }

  /** The nodes that the way to the wire and back leaves as they are. */
  predicate Plain(c: Condition) {
    && (c.Group? ==> -0x8000_0000 <= c.logic < 0x8000_0000)
    && (c.Semantic? ==> c.id == [])
    && (c.Number? ==> 0 <= c.op <= 5)
  }

  /** A condition is its own normal form exactly when all its nodes are plain: logics of 32 bits, no
      semantic ids, known operations. */
  lemma {:induction false} NormalIsSame(c: Condition)
    ensures Normal(c) == c <==> forall n: Condition :: Within(n, c) ==> Plain(n)
    decreases c
  {
    assert Within(c, c);
    if c.Group? {
      forall k | 0 <= k < |c.group|
        ensures Normal(c.group[k]) == c.group[k] <==> forall n: Condition :: Within(n, c.group[k]) ==> Plain(n)
      {
        NormalIsSame(c.group[k]);
      }
      assert NormalAll(c.group) == c.group <==> forall k :: 0 <= k < |c.group| ==> Normal(c.group[k]) == c.group[k];
      PlainWithin(c);
    }
  }

  /** All nodes of a group are plain exactly when it is plain itself and so are all nodes of its children. */
  lemma PlainWithin(c: Condition)
    requires c.Group?
    ensures (forall n: Condition :: Within(n, c) ==> Plain(n))
        <==> Plain(c) && forall k :: 0 <= k < |c.group| ==> forall n: Condition :: Within(n, c.group[k]) ==> Plain(n)
  {
    assert Within(c, c);
    assert forall k, n: Condition :: 0 <= k < |c.group| && Within(n, c.group[k]) ==> Within(n, c);
  }

  // ----- what a condition means -----

  /** What the leaves are found to be in some event, and how the values of a group's children are combined. */
  datatype Reading = Reading(text: (bytes, bytes, bool) -> bool, semantic: (bytes, bytes) -> bool,
                             number: (bytes, int, real) -> bool, combine: (int, seq<bool>) -> bool)

  /** Whether a condition holds. The bot knows an id of semantic conditions only. A condition of no kind is taken
      to be false. */
  function Holds(c: Condition, r: Reading): bool
    decreases c
  {
    c.not != match c
             case Group(_, logic, group) => r.combine(logic, AllHold(group, r))
             case Text(_, key, term, exact) => r.text(key, term, exact)
             case Semantic(_, id, query) => r.semantic(id, query)
             case Number(_, key, op, value) => r.number(key, op, value)
             case Unsupported(_) => false
  }

  function AllHold(cs: seq<Condition>, r: Reading): seq<bool>
    decreases cs
  {
    if cs == [] then [] else AllHold(cs[..|cs| - 1], r) + [Holds(cs[|cs| - 1], r)]
  }

  function WireHolds(w: Wire, r: Reading): bool
    decreases w
  {
    w.not != match w
             case Gc(_, logic, group) => r.combine(logic, AllWireHold(group, r))
             case Tc(_, _, key, term, exact) => r.text(key, term, exact)
             case Sc(_, id, query) => r.semantic(id, query)
             case Nc(_, _, key, op, value) => r.number(key, op, value)
             case Unset(_) => false
  }

  function AllWireHold(ws: seq<Wire>, r: Reading): seq<bool>
    decreases ws
  {
    if ws == [] then [] else AllWireHold(ws[..|ws| - 1], r) + [WireHolds(ws[|ws| - 1], r)]
  }

  /** What is left for a reading after the wire: an unknown operation is undefined. */
  function Received(r: Reading): Reading {
    r.(number := (key, op, value) => r.number(key, NumOp(op), value))
  }

  /** What is left for it before the wire: moreover, the ids are empty and a logic has 32 bits. */
  function Sent(r: Reading): Reading {
    Received(r).(semantic := (id, query) => r.semantic([], query),
                 combine := (logic, values) => r.combine(Int32(logic), values))
  }

  /** An encoded condition holds when the condition itself does, under every reading, but for what the wire
      does not carry: semantic ids, wide logics and unknown operations. */
  lemma {:induction false} EncodeMeans(c: Condition, r: Reading)
    ensures WireHolds(Encode(c), r) == Holds(c, Sent(r))
    decreases c
  {
    if c.Group? {
      EncodeAllMeans(c.group, r);
    }
  }

  lemma {:induction false} EncodeAllMeans(cs: seq<Condition>, r: Reading)
    ensures AllWireHold(EncodeAll(cs), r) == AllHold(cs, Sent(r))
    decreases cs
  {
    if cs != [] {
      var n := |cs| - 1;
      EncodeAllMeans(cs[..n], r);
      EncodeMeans(cs[n], r);
      assert EncodeAll(cs)[..n] == EncodeAll(cs[..n]);
    }
  }

  /** A decoded condition holds when the one on the wire does, under every reading, but for unknown operations. */
  lemma {:induction false} DecodeMeans(w: Wire, r: Reading)
    requires Decode(w).Some?
    ensures Holds(Decode(w).value, r) == WireHolds(w, Received(r))
    decreases w
  {
    if w.Gc? {
      DecodeAllMeans(w.group, r);
      assert Int32(w.logic) == w.logic;
    }
  }

  lemma {:induction false} DecodeAllMeans(ws: seq<Wire>, r: Reading)
    requires DecodeAll(ws).Some?
    ensures AllHold(DecodeAll(ws).value, r) == AllWireHold(ws, Received(r))
    decreases ws
  {
    if ws != [] {
      var n := |ws| - 1;
      DecodeAllMeans(ws[..n], r);
      DecodeMeans(ws[n], r);
      assert DecodeAll(ws).value[..n] == DecodeAll(ws[..n]).value;
    }
  }

  lemma {:induction false} SentAsItIs(c: Condition, r: Reading)
    requires forall n: Condition :: Within(n, c) ==> Plain(n)
    ensures Holds(c, Sent(r)) == Holds(c, r)
    decreases c
  {
    assert Within(c, c);
    if c.Group? {
      assert forall k, n: Condition :: 0 <= k < |c.group| && Within(n, c.group[k]) ==> Within(n, c);
      AllSentAsTheyAre(c.group, r);
      assert Plain(c) && Int32(c.logic) == c.logic;
    } else if c.Number? {
      assert Plain(c) && NumOp(c.op) == c.op;
    }
  }

  lemma {:induction false} AllSentAsTheyAre(cs: seq<Condition>, r: Reading)
    requires forall k, n: Condition :: 0 <= k < |cs| && Within(n, cs[k]) ==> Plain(n)
    ensures AllHold(cs, Sent(r)) == AllHold(cs, r)
    decreases cs
  {
    if cs != [] {
      AllSentAsTheyAre(cs[..|cs| - 1], r);
      SentAsItIs(cs[|cs| - 1], r);
    }
  }

  /** Whatever leaves and logics mean, a condition whose nodes are all plain holds exactly when its encoding
      does. */
  lemma EncodeKeepsMeaning(c: Condition, r: Reading)
    requires forall n: Condition :: Within(n, c) ==> Plain(n)
    ensures WireHolds(Encode(c), r) == Holds(c, r)
  {
    EncodeMeans(c, r);
    SentAsItIs(c, r);
  }

  lemma {:induction false} ReceivedAsItIs(w: Wire, r: Reading)
    requires forall n: Wire :: WithinWire(n, w) && n.Nc? ==> 0 <= n.op <= 5
    ensures WireHolds(w, Received(r)) == WireHolds(w, r)
    decreases w
  {
    assert WithinWire(w, w);
    if w.Gc? {
      assert forall k, n: Wire :: 0 <= k < |w.group| && WithinWire(n, w.group[k]) ==> WithinWire(n, w);
      AllReceivedAsTheyAre(w.group, r);
      assert Int32(w.logic) == w.logic;
    } else if w.Nc? {
      assert NumOp(w.op) == w.op;
    }
  }

  lemma {:induction false} AllReceivedAsTheyAre(ws: seq<Wire>, r: Reading)
    requires forall k, n: Wire :: 0 <= k < |ws| && WithinWire(n, ws[k]) && n.Nc? ==> 0 <= n.op <= 5
    ensures AllWireHold(ws, Received(r)) == AllWireHold(ws, r)
    decreases ws
  {
    if ws != [] {
      AllReceivedAsTheyAre(ws[..|ws| - 1], r);
      ReceivedAsItIs(ws[|ws| - 1], r);
    }
  }

  /** Whatever leaves and logics mean, a decoded condition whose operations were known holds exactly when the
      one on the wire does. */
  lemma DecodeKeepsMeaning(w: Wire, r: Reading)
    requires Decode(w).Some?
    requires forall n: Wire :: WithinWire(n, w) && n.Nc? ==> 0 <= n.op <= 5
    ensures Holds(Decode(w).value, r) == WireHolds(w, r)
  {
    DecodeMeans(w, r);
    ReceivedAsItIs(w, r);
  }

  // ----- the check -----

  /** What the check asks of a single node. */
  predicate NodeOk(c: Condition) {
    && (c.Group? && c.logic == OR ==> |c.group| <= LIMIT_OR_CHILDREN)
    && (c.Text? ==> MIN_TERM_LENGTH <= |c.term| <= MAX_TERM_LENGTH)
  }

  ghost predicate AllNodesOk(c: Condition) {
    forall n: Condition :: Within(n, c) ==> NodeOk(n)
  }

  /** The check accepts a condition exactly when every node in it, at any depth, is in order. */
  method ValidateCondition(cond: Condition) returns (ok: bool)
    ensures ok <==> AllNodesOk(cond)
    decreases cond
  {
    ok := true;
    assert Within(cond, cond);
    match cond {
      case Group(_, logic, children) =>
        var countChildren := |children|;
        if logic == OR && countChildren > LIMIT_OR_CHILDREN {
          ok := false;
        } else {
          for i := 0 to |children|
            invariant ok && forall k :: 0 <= k < i ==> AllNodesOk(children[k])
          {
            ok := ValidateCondition(children[i]);
            if !ok {
              var n: Condition :| Within(n, children[i]) && !NodeOk(n);
              assert Within(n, cond);
              break;
            }
          }
          if ok {
            forall n: Condition | Within(n, cond) ensures NodeOk(n) {
              if n != cond {
                var k :| 0 <= k < |children| && Within(n, children[k]);
                assert AllNodesOk(children[k]);
              }
            }
          }
        }
      case Text(_, _, term, _) =>
        if |term| < MIN_TERM_LENGTH || |term| > MAX_TERM_LENGTH {
          ok := false;
        }
      case _ =>
    }
  }

  /** The verdict on a condition from the verdicts on its parts. */
  lemma VerdictByParts(c: Condition)
    ensures AllNodesOk(c) <==>
            match c
            case Group(_, logic, children) =>
              (logic == 1 ==> |children| <= 4) && forall k :: 0 <= k < |children| ==> AllNodesOk(children[k])
            case Text(_, _, term, _) => 3 <= |term| <= 256
            case _ => true
  {
    assert Within(c, c);
    if c.Group? {
      assert forall k, n: Condition :: 0 <= k < |c.group| && Within(n, c.group[k]) ==> Within(n, c);
    }
  }

  method ValidateSubscriptionData(description: bytes, cond: Condition) returns (ok: bool)
    ensures ok <==> description != [] && AllNodesOk(cond)
  {
    ok := description != [];
    if ok {
      ok := ValidateCondition(cond);
    }
  }

  /** A large group that is not an Or-group for the bot, but is one once its logic is cut to 32 bits. */
  predicate BecomesLargeOr(c: Condition) {
    c.Group? && c.logic != OR && Int32(c.logic) == OR && |c.group| > LIMIT_OR_CHILDREN
  }

  lemma NodeOkOfNormal(c: Condition)
    ensures NodeOk(Normal(c)) <==> NodeOk(c) && !BecomesLargeOr(c)
  {
  }

  /** The nodes of the normal form are the normal forms of the nodes. */
  lemma {:induction false} WithinNormal(n: Condition, c: Condition)
    ensures Within(n, c) ==> Within(Normal(n), Normal(c))
    ensures Within(n, Normal(c)) ==> exists m: Condition :: Within(m, c) && Normal(m) == n
    decreases c
  {
    assert Within(c, c);
    if c.Group? {
      forall k | 0 <= k < |c.group|
        ensures Within(n, c.group[k]) ==> Within(Normal(n), Normal(c).group[k])
        ensures Within(n, Normal(c).group[k]) ==> exists m: Condition :: Within(m, c) && Normal(m) == n
      {
        WithinNormal(n, c.group[k]);
        assert forall m: Condition :: Within(m, c.group[k]) ==> Within(m, c);
      }
    }
  }

  /** The check gives the same verdict before and after the way to the wire and back, except for a
      condition it accepts with a large group whose logic only becomes Or in 32 bits. */
  lemma VerdictAfterRoundTrip(c: Condition)
    requires AllSupported(c)
    ensures Decode(Encode(c)).Some?
    ensures AllNodesOk(Decode(Encode(c)).value)
        <==> AllNodesOk(c) && forall n: Condition :: Within(n, c) ==> !BecomesLargeOr(n)
  {
    DecodeOfEncode(c);
    var d := Normal(c);
    if AllNodesOk(d) {
      forall n: Condition | Within(n, c) ensures NodeOk(n) && !BecomesLargeOr(n) {
        WithinNormal(n, c);
        NodeOkOfNormal(n);
      }
    }
    if AllNodesOk(c) && forall n: Condition :: Within(n, c) ==> !BecomesLargeOr(n) {
      forall n: Condition | Within(n, d) ensures NodeOk(n) {
        WithinNormal(n, c);
        var m: Condition :| Within(m, c) && Normal(m) == n;
        NodeOkOfNormal(m);
      }
    }
  }

  /** Such a condition exists: five terms in a group with the logic 2^32 + 1 are accepted, and rejected once
      they come back as an Or-group. */
  lemma WrappedLogicFlipsVerdict()
    ensures var t := Text(false, [], ['a', 'b', 'c'], false);
            var c := Group(false, 0x1_0000_0001, [t, t, t, t, t]);
            AllNodesOk(c) && Decode(Encode(c)).Some? && !AllNodesOk(Decode(Encode(c)).value)
  {
    var t := Text(false, [], ['a', 'b', 'c'], false);
    var c := Group(false, 0x1_0000_0001, [t, t, t, t, t]);
    assert forall n: Condition :: Within(n, c) ==> n == c || n == t;
    assert Within(c, c) && BecomesLargeOr(c);
    VerdictAfterRoundTrip(c);
  }
}
