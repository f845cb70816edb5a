/**
 Paid memberships (service/paid.go). Being a member of a paid channel raises a user's limit to the channel's;
 the handler keeps the user in the channel with the highest limit, removes the user from the others, and
 brings the stored limit up to it.

 Go visits its maps in any order, and so do the loops here. A call to Telegram or to the limits service
 may fail and then has no effect. When looking a membership up fails, or the user is not known, the source
 reads what is missing and panics, before the run has changed anything; nothing after it is done then.
 A ban by itself already removes the user.
 */
module Paid {

  datatype Chat = Chat(id: int)

  datatype Subject = Subscriptions | Interests | InterestsPublic

  /** The channels a user is a member of, and the limits stored for the user. */
  datatype State = State(memberOf: set<Chat>, stored: map<Subject, int>)

  /** The limit that counts: the one stored for the user, otherwise the group's. */
  function Effective(s: State, group: Subject -> int, subj: Subject): int {
    if subj in s.stored then s.stored[subj] else group(subj)
  }

  /** The channels of a price list that the user is a member of. */
  function Mine(s: State, limitByChat: map<Chat, int>): set<Chat> {
    set c | c in limitByChat && c in s.memberOf
  }

  lemma HasElement(s: set<int>)
    ensures s == {} || exists x :: x in s
  {
    if forall x :: x !in s {
      assert s == {};
    }
  }

  /** The highest of the channels' limits, but not below zero. */
  ghost function Top(chats: set<Chat>, limitByChat: map<Chat, int>): (top: int)
    requires chats <= limitByChat.Keys
    ensures top >= 0 && forall c <- chats :: limitByChat[c] <= top
    ensures top == 0 || exists c <- chats :: limitByChat[c] == top
  {
    if chats == {} then 0
    else
      var c :| c in chats;
      var rest := Top(chats - {c}, limitByChat);
      if limitByChat[c] > rest then limitByChat[c] else rest
  }

  lemma TopIsUnique(chats: set<Chat>, limitByChat: map<Chat, int>, top: int)
    requires chats <= limitByChat.Keys
    requires top >= 0 && forall c <- chats :: limitByChat[c] <= top
    requires top == 0 || exists c <- chats :: limitByChat[c] == top
    ensures Top(chats, limitByChat) == top
  {
  }

  /** The channels with their limits, one list for each kind of limit. */
  datatype Prices = Prices(subscriptions: map<Chat, int>, interests: map<Chat, int>, interestsPublic: map<Chat, int>) {
    function All(): map<Chat, int> {
      subscriptions + interests + interestsPublic
    }
  }

  // ----- what a run may do -----

  /** One of the channels has the limit. */
  predicate HasLimit(chats: set<Chat>, limitByChat: map<Chat, int>, limit: int)
    requires chats <= limitByChat.Keys
  {
    exists c <- chats :: limitByChat[c] == limit
  }

  /** The memberships after a run: the user was removed only from channels below the top, from at most one for
      each limit, and from exactly one for each if nothing failed. */
  ghost predicate MembershipsAfter(before: State, after: State, limitByChat: map<Chat, int>, failed: bool) {
    var mine := Mine(before, limitByChat);
    var top := Top(mine, limitByChat);
    var removed := before.memberOf - after.memberOf;
    && after.memberOf <= before.memberOf && removed <= mine
    && (forall c <- removed :: limitByChat[c] != top)
    && (forall c, d :: c in removed && d in removed && limitByChat[c] == limitByChat[d] ==> c == d)
    && (!failed ==>
          forall c <- mine :: limitByChat[c] != top ==> HasLimit(removed, limitByChat, limitByChat[c]))
  }

  /** The stored limits after a run: deleted for a user of no channel, raised to the top limit if a channel
      has it and it is higher, and otherwise as before; or, when something failed, perhaps untouched. */
  ghost predicate LimitsAfter(before: State, after: State, limitByChat: map<Chat, int>, group: Subject -> int,
                              subj: Subject, failed: bool) {
    var mine := Mine(before, limitByChat);
    var top := Top(mine, limitByChat);
    var done :=
      if mine == {} then before.stored - {subj}
      else if top > Effective(before, group, subj) && HasLimit(mine, limitByChat, top)
      then before.stored[subj := top]
      else before.stored;
    after.stored == done || (failed && after.stored == before.stored)
  }

  ghost predicate Reconciled(before: State, after: State, limitByChat: map<Chat, int>, group: Subject -> int,
                             subj: Subject, failed: bool) {
    && MembershipsAfter(before, after, limitByChat, failed)
    && LimitsAfter(before, after, limitByChat, group, subj, failed)
  }

  // ----- what a run does -----

  /** What the remote services answer in one run. Setting the limit is only asked for after getting it, an
      unban after a ban. */
  datatype Answers = Answers(lookupOk: Chat -> bool, getOk: bool, setOk: bool, deleteOk: bool,
                             banOk: Chat -> bool, unbanOk: Chat -> bool)
  {
    predicate Reliable(chats: set<Chat>) {
      getOk && setOk && deleteOk && forall c <- chats :: lookupOk(c) && banOk(c) && unbanOk(c)
    }
  }

  predicate AllReliable(prices: Prices, answers: Subject -> Answers) {
    && answers(Subscriptions).Reliable(prices.subscriptions.Keys)
    && answers(Interests).Reliable(prices.interests.Keys)
    && answers(InterestsPublic).Reliable(prices.interestsPublic.Keys)
  }

  predicate LookupFails(limitByChat: map<Chat, int>, answers: Answers) {
    exists c <- limitByChat :: !answers.lookupOk(c)
  }

  predicate RemovalFails(tried: set<Chat>, answers: Answers) {
    exists c <- tried :: !answers.banOk(c) || !answers.unbanOk(c)
  }

  function Banned(tried: set<Chat>, answers: Answers): set<Chat> {
    set c | c in tried && answers.banOk(c)
  }

  /** One of the user's channels for each limit below the top. */
  ghost predicate OneForEachBelow(tried: set<Chat>, mine: set<Chat>, limitByChat: map<Chat, int>)
    requires mine <= limitByChat.Keys
  {
    && tried <= mine && Distinct(tried, limitByChat)
    && (forall c <- tried :: limitByChat[c] != Top(mine, limitByChat))
    && forall c <- mine :: limitByChat[c] != Top(mine, limitByChat) ==> HasLimit(tried, limitByChat, limitByChat[c])
  }

  /** How a run that does not panic ends, given the answers and the channels it tried to remove the user from:
      exactly what it changes and whether it reports a failure. */
  ghost predicate EndsAs(before: State, after: State, limitByChat: map<Chat, int>, group: Subject -> int,
                         subj: Subject, answers: Answers, tried: set<Chat>, failed: bool) {
    var mine := Mine(before, limitByChat);
    var top := Top(mine, limitByChat);
    var inTop := HasLimit(mine, limitByChat, top);
    var toRaise := inTop && top > Effective(before, group, subj);
    && OneForEachBelow(tried, mine, limitByChat)
    && after.memberOf == before.memberOf - Banned(tried, answers)
    && after.stored == (if mine == {} && answers.deleteOk then before.stored - {subj}
                        else if toRaise && answers.getOk && answers.setOk then before.stored[subj := top]
                        else before.stored)
    && (failed <==> || RemovalFails(tried, answers)
                    || (mine == {} && !answers.deleteOk)
                    || (inTop && !answers.getOk) || (toRaise && !answers.setOk && answers.getOk))
  }

  /** A run that ends as its answers say is one of those that may be; without failing answers it does not fail. */
  lemma EndsReconciled(before: State, after: State, limitByChat: map<Chat, int>, group: Subject -> int,
                       subj: Subject, answers: Answers, tried: set<Chat>, failed: bool)
    requires EndsAs(before, after, limitByChat, group, subj, answers, tried, failed)
    ensures Reconciled(before, after, limitByChat, group, subj, failed)
    ensures answers.Reliable(limitByChat.Keys) ==> !failed
  {
    assert before.memberOf - after.memberOf == Banned(tried, answers);
    if !failed {
      assert Banned(tried, answers) == tried;
    }
  }

  /** A run may fail at once and change nothing, and one that did not fail is among those that may have. */
  lemma RunMayFail(before: State, after: State, limitByChat: map<Chat, int>, group: Subject -> int, subj: Subject,
                   failed: bool)
    requires Reconciled(before, after, limitByChat, group, subj, failed) || (failed && after == before)
    ensures Reconciled(before, after, limitByChat, group, subj, true)
    ensures Reconciled(before, after, limitByChat, group, subj, failed)
  {
  }

  lemma HandledFromRuns(before: State, first: State, second: State, after: State, prices: Prices,
                        group: Subject -> int, failed: bool, failed2: bool, failed3: bool)
    requires Reconciled(before, first, prices.subscriptions, group, Subscriptions, failed)
             || (failed && first == before)
    requires Reconciled(first, second, prices.interests, group, Interests, failed2) || (failed2 && second == first)
    requires Reconciled(second, after, prices.interestsPublic, group, InterestsPublic, failed3)
             || (failed3 && after == second)
    ensures Handled(before, first, second, after, prices, group, failed || failed2 || failed3)
  {
    RunMayFail(before, first, prices.subscriptions, group, Subscriptions, failed);
    RunMayFail(first, second, prices.interests, group, Interests, failed2);
    RunMayFail(second, after, prices.interestsPublic, group, InterestsPublic, failed3);
  }

  // ----- the handler -----

  class Account {
    var memberOf: set<Chat>
    var stored: map<Subject, int>
    const group: Subject -> int

    constructor (memberOf: set<Chat>, stored: map<Subject, int>, group: Subject -> int)
      ensures this.memberOf == memberOf && this.stored == stored && this.group == group
    {
      this.memberOf, this.stored, this.group := memberOf, stored, group;
    }

    ghost function View(): State
      reads this
    {
      State(memberOf, stored)
    }

    /** The user's channels by limit, one for each, and the highest limit; or a panic, exactly when looking one
        of the channels up fails. */
    method MemberChannels(limitByChat: map<Chat, int>, answers: Answers)
      returns (chanByLimit: map<int, Chat>, limitMax: int, panicked: bool)
      ensures panicked <==> LookupFails(limitByChat, answers)
      ensures !panicked ==> limitMax == Top(Mine(View(), limitByChat), limitByChat)
      ensures !panicked ==> IsIndex(chanByLimit, View(), limitByChat)
    {
      chanByLimit, limitMax, panicked := map[], 0, false;
      ghost var mine := Mine(View(), limitByChat);
      var rest := limitByChat.Keys;
      while rest != {}
        invariant rest <= limitByChat.Keys
        invariant forall c <- limitByChat.Keys - rest :: answers.lookupOk(c)
        invariant limitMax >= 0 && forall c <- mine - rest :: limitByChat[c] <= limitMax
        invariant limitMax == 0 || exists c <- mine - rest :: limitByChat[c] == limitMax
        invariant forall l <- chanByLimit :: chanByLimit[l] in mine && limitByChat[chanByLimit[l]] == l
        invariant forall c <- mine - rest :: limitByChat[c] in chanByLimit
      {
        var chatId :| chatId in rest;
        rest := rest - {chatId};
        if !answers.lookupOk(chatId) {
          return chanByLimit, limitMax, true;
        }
        if chatId in memberOf {
          var limit := limitByChat[chatId];
          chanByLimit := chanByLimit[limit := chatId];
          if limit > limitMax {
            limitMax := limit;
          }
        }
      }
      assert mine - rest == mine && limitByChat.Keys - rest == limitByChat.Keys;
      TopIsUnique(mine, limitByChat, limitMax);
    }

    /** Raise the stored limit to that of the highest channel, unless it is as high already. */
    method Raise(limitMax: int, subj: Subject, answers: Answers) returns (failed: bool)
      modifies this`stored
      ensures var toRaise := limitMax > old(Effective(View(), group, subj));
              && stored == (if toRaise && answers.getOk && answers.setOk then old(stored)[subj := limitMax]
                            else old(stored))
              && (failed <==> !answers.getOk || (toRaise && !answers.setOk))
    {
      failed := false;
      if answers.getOk {
        var limitCurr := if subj in stored then stored[subj] else group(subj);
        if limitMax > limitCurr {
          if answers.setOk {
            stored := stored[subj := limitMax];
          } else {
            failed := true;
          }
        }
      } else {
        failed := true;
      }
    }

    /** Remove the user from a channel: ban, then unban. */
    method Remove(chat: Chat, answers: Answers) returns (failed: bool)
      modifies this`memberOf
      ensures memberOf == old(memberOf) - Banned({chat}, answers)
      ensures failed <==> RemovalFails({chat}, answers)
    {
      var removeOk := answers.banOk(chat);
      if removeOk {
        memberOf := memberOf - {chat};
        removeOk := answers.unbanOk(chat);
      }
      failed := !removeOk;
    }

    /** Raise the limit to the highest one and remove the user from all channels of the index but that one's. */
    method KeepHighest(chanByLimit: map<int, Chat>, limitMax: int, subj: Subject, answers: Answers)
      returns (failed: bool, ghost tried: set<Chat>)
      modifies this
      ensures tried == ChatsOf(chanByLimit, chanByLimit.Keys - {limitMax})
      ensures memberOf == old(memberOf) - Banned(tried, answers)
      ensures var toRaise := limitMax in chanByLimit && limitMax > old(Effective(View(), group, subj));
              && stored == (if toRaise && answers.getOk && answers.setOk then old(stored)[subj := limitMax]
                            else old(stored))
              && (failed <==> || RemovalFails(tried, answers)
                              || (limitMax in chanByLimit && !answers.getOk) || (toRaise && !answers.setOk))
    {
      failed, tried := false, {};
      var rest := chanByLimit.Keys;
      ghost var toRaise := limitMax > Effective(View(), group, subj);
      while rest != {}
        invariant rest <= chanByLimit.Keys
        invariant tried == ChatsOf(chanByLimit, chanByLimit.Keys - rest - {limitMax})
        invariant memberOf == old(memberOf) - Banned(tried, answers)
        invariant limitMax in rest || limitMax !in chanByLimit ==> stored == old(stored)
        invariant limitMax in chanByLimit.Keys - rest ==>
                    stored == if toRaise && answers.getOk && answers.setOk then old(stored)[subj := limitMax]
                              else old(stored)
        invariant failed <==> || RemovalFails(tried, answers)
                              || (limitMax in chanByLimit.Keys - rest
                                  && (!answers.getOk || (toRaise && !answers.setOk)))
      {
        HasElement(rest);
        var limit :| limit in rest;
        ghost var before := chanByLimit.Keys - rest - {limitMax};
        rest := rest - {limit};
        var failedNow;
        if limit == limitMax {
          assert chanByLimit.Keys - rest - {limitMax} == before;
          failedNow := Raise(limitMax, subj, answers);
        } else {
          failedNow := Remove(chanByLimit[limit], answers);
          assert chanByLimit.Keys - rest - {limitMax} == before + {limit};
          OneMore(chanByLimit, before, limit, answers);
          tried := tried + {chanByLimit[limit]};
        }
        failed := failed || failedNow;
      }
      assert chanByLimit.Keys - rest == chanByLimit.Keys;
    }

    /** One run. A panic counts as a failure and leaves everything as it was. */
    method EnsureLimit(limitByChat: map<Chat, int>, subj: Subject, answers: Answers)
      returns (failed: bool, panicked: bool, ghost tried: set<Chat>)
      modifies this
      ensures panicked <==> LookupFails(limitByChat, answers)
      ensures panicked ==> failed && View() == old(View())
      ensures !panicked ==> EndsAs(old(View()), View(), limitByChat, group, subj, answers, tried, failed)
    {
      failed, tried := false, {};
      var chanByLimit, limitMax;
      chanByLimit, limitMax, panicked := MemberChannels(limitByChat, answers);
      if panicked {
        return true, true, {};
      }
      IndexedLimits(View(), limitByChat, chanByLimit);
      if chanByLimit == map[] {
        if answers.deleteOk {
          stored := stored - {subj};
        } else {
          failed := true;
        }
        return;
      }
      failed, tried := KeepHighest(chanByLimit, limitMax, subj, answers);
      IndexedBelow(old(View()), limitByChat, chanByLimit, limitMax);
    }

    /** One run, told by the relation that the laws of runs are about. */
    method EnsureLimitBriefly(limitByChat: map<Chat, int>, subj: Subject, answers: Answers)
      returns (failed: bool, panicked: bool)
      modifies this
      ensures Reconciled(old(View()), View(), limitByChat, group, subj, failed)
      ensures panicked ==> failed && View() == old(View())
      ensures panicked <==> LookupFails(limitByChat, answers)
      ensures answers.Reliable(limitByChat.Keys) ==> !failed
    {
      ghost var tried;
      failed, panicked, tried := EnsureLimit(limitByChat, subj, answers);
      if !panicked {
        EndsReconciled(old(View()), View(), limitByChat, group, subj, answers, tried, failed);
      }
    }

    /** A change of membership: the three limits are looked after one by one, whatever fails, up to a panic. */
    method HandleChatMember(userKnown: bool, prices: Prices, answers: Subject -> Answers)
      returns (failed: bool, panicked: bool, ghost first: State, ghost second: State)
      modifies this
      ensures Handled(old(View()), first, second, View(), prices, group, failed)
      ensures !userKnown ==> View() == old(View())
      ensures panicked <==> || !userKnown
                            || LookupFails(prices.subscriptions, answers(Subscriptions))
                            || LookupFails(prices.interests, answers(Interests))
                            || LookupFails(prices.interestsPublic, answers(InterestsPublic))
      ensures userKnown && AllReliable(prices, answers) ==> !failed
    {
      ghost var before := View();
      first, second := before, before;
      if !userKnown {
        HandledFromRuns(before, first, second, View(), prices, group, true, true, true);
        return true, true, first, second;
      }
      failed, panicked := EnsureLimitBriefly(prices.subscriptions, Subscriptions, answers(Subscriptions));
      first, second := View(), View();
      if panicked {
        HandledFromRuns(before, first, second, View(), prices, group, failed, true, true);
        return;
      }
      var failed2, failed3;
      failed2, panicked := EnsureLimitBriefly(prices.interests, Interests, answers(Interests));
      second := View();
      if panicked {
        HandledFromRuns(before, first, second, View(), prices, group, failed, failed2, true);
        return true, true, first, second;
      }
      failed3, panicked := EnsureLimitBriefly(prices.interestsPublic, InterestsPublic, answers(InterestsPublic));
      HandledFromRuns(before, first, second, View(), prices, group, failed, failed2, failed3);
      failed := failed || failed2 || failed3;
    }
  }

  ghost predicate Handled(before: State, first: State, second: State, after: State, prices: Prices,
                          group: Subject -> int, failed: bool) {
    && Reconciled(before, first, prices.subscriptions, group, Subscriptions, failed)
    && Reconciled(first, second, prices.interests, group, Interests, failed)
    && Reconciled(second, after, prices.interestsPublic, group, InterestsPublic, failed)
  }

  ghost function ChatsOf(chanByLimit: map<int, Chat>, limits: set<int>): set<Chat>
    requires limits <= chanByLimit.Keys
  {
    set l | l in limits :: chanByLimit[l]
  }

  /** For every limit among the user's channels, one channel that has it. */
  ghost predicate IsIndex(chanByLimit: map<int, Chat>, s: State, limitByChat: map<Chat, int>) {
    && (forall l <- chanByLimit :: chanByLimit[l] in Mine(s, limitByChat) && limitByChat[chanByLimit[l]] == l)
    && (forall c <- Mine(s, limitByChat) :: limitByChat[c] in chanByLimit)
  }

  lemma IndexedLimits(s: State, limitByChat: map<Chat, int>, chanByLimit: map<int, Chat>)
    requires IsIndex(chanByLimit, s, limitByChat)
    ensures chanByLimit == map[] <==> Mine(s, limitByChat) == {}
    ensures forall l :: HasLimit(Mine(s, limitByChat), limitByChat, l) <==> l in chanByLimit
  {
    HasElement(chanByLimit.Keys);
    forall l | l in chanByLimit ensures HasLimit(Mine(s, limitByChat), limitByChat, l) {
      assert chanByLimit[l] in Mine(s, limitByChat);
    }
  }

  lemma OneMore(chanByLimit: map<int, Chat>, limits: set<int>, limit: int, answers: Answers)
    requires limits <= chanByLimit.Keys && limit in chanByLimit
    ensures var tried, more := ChatsOf(chanByLimit, limits), ChatsOf(chanByLimit, limits + {limit});
            && more == tried + {chanByLimit[limit]}
            && Banned(more, answers) == Banned(tried, answers) + Banned({chanByLimit[limit]}, answers)
            && (RemovalFails(more, answers)
                <==> RemovalFails(tried, answers) || RemovalFails({chanByLimit[limit]}, answers))
  {
    var tried, more := ChatsOf(chanByLimit, limits), ChatsOf(chanByLimit, limits + {limit});
    assert more == tried + {chanByLimit[limit]};
    assert forall c <- tried :: c in more;
  }

  lemma IndexedBelow(s: State, limitByChat: map<Chat, int>, chanByLimit: map<int, Chat>, limitMax: int)
    requires IsIndex(chanByLimit, s, limitByChat) && limitMax == Top(Mine(s, limitByChat), limitByChat)
    ensures OneForEachBelow(ChatsOf(chanByLimit, chanByLimit.Keys - {limitMax}), Mine(s, limitByChat), limitByChat)
  {
    var mine, tried := Mine(s, limitByChat), ChatsOf(chanByLimit, chanByLimit.Keys - {limitMax});
    forall c | c in mine && limitByChat[c] != limitMax ensures HasLimit(tried, limitByChat, limitByChat[c]) {
      var d := chanByLimit[limitByChat[c]];
      assert d in tried && limitByChat[d] == limitByChat[c];
    }
  }

  // ----- one run -----

  predicate Distinct(chats: set<Chat>, limitByChat: map<Chat, int>)
    requires chats <= limitByChat.Keys
  {
    forall c, d :: c in chats && d in chats && limitByChat[c] == limitByChat[d] ==> c == d
  }

  predicate Positive(chats: set<Chat>, limitByChat: map<Chat, int>)
    requires chats <= limitByChat.Keys
  {
    forall c <- chats :: limitByChat[c] > 0
  }

  function Max(a: int, b: int): int {
    if a >= b then a else b
  }

  /** No two of the channels below the top have the same limit. */
  ghost predicate DistinctBelowTop(chats: set<Chat>, limitByChat: map<Chat, int>)
    requires chats <= limitByChat.Keys
  {
    forall c, d :: c in chats && d in chats && limitByChat[c] == limitByChat[d] != Top(chats, limitByChat) ==> c == d
  }

  lemma RemovedExactly(before: State, after: State, limitByChat: map<Chat, int>)
    requires MembershipsAfter(before, after, limitByChat, false)
    requires DistinctBelowTop(Mine(before, limitByChat), limitByChat)
    ensures var mine := Mine(before, limitByChat);
            before.memberOf - after.memberOf == set c | c in mine && limitByChat[c] != Top(mine, limitByChat)
  {
    var mine := Mine(before, limitByChat);
    var removed := before.memberOf - after.memberOf;
    forall c | c in mine && limitByChat[c] != Top(mine, limitByChat) ensures c in removed {
      assert HasLimit(removed, limitByChat, limitByChat[c]);
      var d :| d in removed && limitByChat[d] == limitByChat[c];
      assert d in mine;
    }
    assert removed == set c | c in mine && limitByChat[c] != Top(mine, limitByChat);
  }

  lemma SameRemovals(before: State, after: State, after': State, limitByChat: map<Chat, int>)
    requires MembershipsAfter(before, after, limitByChat, false)
    requires MembershipsAfter(before, after', limitByChat, false)
    requires DistinctBelowTop(Mine(before, limitByChat), limitByChat)
    ensures after.memberOf == after'.memberOf
  {
    RemovedExactly(before, after, limitByChat);
    RemovedExactly(before, after', limitByChat);
    assert before.memberOf - (before.memberOf - after.memberOf) == after.memberOf;
    assert before.memberOf - (before.memberOf - after'.memberOf) == after'.memberOf;
  }

  /** Each of the channels shares its limit with a chosen one. */
  ghost predicate Covers(chosen: set<Chat>, chats: set<Chat>, limitByChat: map<Chat, int>)
    requires chosen <= limitByChat.Keys && chats <= limitByChat.Keys
  {
    forall d <- chats :: HasLimit(chosen, limitByChat, limitByChat[d])
  }

  lemma CoversWithMore(chosen: set<Chat>, chats: set<Chat>, limitByChat: map<Chat, int>, x: Chat)
    requires chosen <= limitByChat.Keys && chats <= limitByChat.Keys
    requires Covers(chosen, chats - {x}, limitByChat) && x in limitByChat
    ensures Covers(chosen + {x}, chats, limitByChat)
    ensures HasLimit(chosen, limitByChat, limitByChat[x]) ==> Covers(chosen, chats, limitByChat)
  {
    var more := chosen + {x};
    forall d | d in chats ensures HasLimit(more, limitByChat, limitByChat[d]) {
      if d == x {
        assert x in more;
      } else {
        assert d in chats - {x} && HasLimit(chosen, limitByChat, limitByChat[d]);
        var e :| e in chosen && limitByChat[e] == limitByChat[d];
        assert e in more;
      }
    }
    assert forall d <- chats :: d != x ==> d in chats - {x};
  }

  lemma ExtendedChoice(chosen: set<Chat>, chats: set<Chat>, limitByChat: map<Chat, int>, x: Chat)
    returns (more: set<Chat>)
    requires chosen <= chats - {x} && x in chats && chats <= limitByChat.Keys
    requires Distinct(chosen, limitByChat) && Covers(chosen, chats - {x}, limitByChat)
    ensures chosen <= more <= chats && Distinct(more, limitByChat) && Covers(more, chats, limitByChat)
  {
    CoversWithMore(chosen, chats, limitByChat, x);
    more := if HasLimit(chosen, limitByChat, limitByChat[x]) then chosen else chosen + {x};
  }

  /** Some of the channels, one for each limit among them, with `c` for its own limit. */
  lemma {:induction false} OnePerLimit(chats: set<Chat>, limitByChat: map<Chat, int>, c: Chat)
    returns (chosen: set<Chat>)
    requires chats <= limitByChat.Keys && c in chats
    ensures c in chosen && chosen <= chats && Distinct(chosen, limitByChat)
    ensures Covers(chosen, chats, limitByChat)
    decreases chats
  {
    if chats == {c} {
      chosen := {c};
    } else {
      assert chats - {c} != {} by {
        assert chats == {c} + (chats - {c});
      }
      var x :| x in chats - {c};
      assert c in chats - {x} && chats - {x} < chats;
      chosen := OnePerLimit(chats - {x}, limitByChat, c);
      chosen := ExtendedChoice(chosen, chats, limitByChat, x);
    }
  }

  /** A run without failures that removes the user from `c`, a channel below the top. */
  lemma SomeRun(before: State, limitByChat: map<Chat, int>, group: Subject -> int, subj: Subject, c: Chat)
    returns (after: State)
    requires c in Mine(before, limitByChat) && limitByChat[c] != Top(Mine(before, limitByChat), limitByChat)
    ensures Reconciled(before, after, limitByChat, group, subj, false)
    ensures c !in after.memberOf
    ensures forall d <- Mine(before, limitByChat) :: d != c && limitByChat[d] == limitByChat[c] ==> d in after.memberOf
  {
    var mine := Mine(before, limitByChat);
    var top := Top(mine, limitByChat);
    var below := set d | d in mine && limitByChat[d] != top;
    var removed := OnePerLimit(below, limitByChat, c);
    var stored :=
      if top > Effective(before, group, subj) && HasLimit(mine, limitByChat, top)
      then before.stored[subj := top] else before.stored;
    after := State(before.memberOf - removed, stored);
    assert before.memberOf - after.memberOf == removed;
    assert forall d <- mine :: limitByChat[d] != top ==> d in below;
  }

  /** Whatever the orders in which the maps are visited, all runs without failures from one state end in the
      same state, if and only if no two of the user's channels below the highest limit have the same limit. */
  lemma RunsAgree(before: State, limitByChat: map<Chat, int>, group: Subject -> int, subj: Subject)
    ensures (forall after, after' ::
               (&& Reconciled(before, after, limitByChat, group, subj, false)
                && Reconciled(before, after', limitByChat, group, subj, false))
               ==> after == after')
        <==> DistinctBelowTop(Mine(before, limitByChat), limitByChat)
  {
    var mine := Mine(before, limitByChat);
    if DistinctBelowTop(mine, limitByChat) {
      forall after, after' | Reconciled(before, after, limitByChat, group, subj, false)
                             && Reconciled(before, after', limitByChat, group, subj, false)
        ensures after == after'
      {
        SameRemovals(before, after, after', limitByChat);
      }
    } else {
      var c, d :| c in mine && d in mine && limitByChat[c] == limitByChat[d] != Top(mine, limitByChat) && c != d;
      var after := SomeRun(before, limitByChat, group, subj, c);
      var after' := SomeRun(before, limitByChat, group, subj, d);
      assert d in after.memberOf && d !in after'.memberOf;
    }
  }

  /** Even when calls fail, and when several channels have the same limit, the user stays in every channel
      with the highest limit, as long as it is not negative. */
  lemma KeepsHighest(before: State, after: State, limitByChat: map<Chat, int>, failed: bool, highest: Chat)
    requires MembershipsAfter(before, after, limitByChat, failed)
    requires highest in Mine(before, limitByChat) && limitByChat[highest] >= 0
    requires forall c <- Mine(before, limitByChat) :: limitByChat[c] <= limitByChat[highest]
    ensures highest in Mine(after, limitByChat)
  {
    TopIsUnique(Mine(before, limitByChat), limitByChat, limitByChat[highest]);
  }

  /** A run without failures leaves the user in some channel exactly when one of the user's channels has a
      limit that is not negative, or two of them have the same limit. */
  lemma StaysInSome(before: State, after: State, limitByChat: map<Chat, int>)
    requires MembershipsAfter(before, after, limitByChat, false)
    ensures var mine := Mine(before, limitByChat);
            Mine(after, limitByChat) != {}
            <==> (exists c <- mine :: limitByChat[c] >= 0) || !Distinct(mine, limitByChat)
  {
    var mine := Mine(before, limitByChat);
    var removed := before.memberOf - after.memberOf;
    assert forall c <- mine :: c in Mine(after, limitByChat) <==> c !in removed;
    if c :| c in mine && limitByChat[c] >= 0 {
      var highest :| highest in mine && limitByChat[highest] == Top(mine, limitByChat);
      assert highest in Mine(after, limitByChat);
    } else if Distinct(mine, limitByChat) {
      RemovedExactly(before, after, limitByChat);
      assert Mine(after, limitByChat) <= mine;
    } else {
      var c, d :| c in mine && d in mine && limitByChat[c] == limitByChat[d] && c != d;
      assert c !in removed || d !in removed;
    }
  }

  /** The user is in the one channel with the highest limit and the limit that counts is the maximum of that
      and what it was; for a user of no channel it is the group's. */
  ghost predicate Settled(before: State, after: State, limitByChat: map<Chat, int>, group: Subject -> int,
                          subj: Subject) {
    var mine := Mine(before, limitByChat);
    if mine == {} then Mine(after, limitByChat) == {} && Effective(after, group, subj) == group(subj)
    else exists c <- mine ::
           && Mine(after, limitByChat) == {c} && (forall d <- mine :: limitByChat[d] <= limitByChat[c])
           && Effective(after, group, subj) == Max(Effective(before, group, subj), limitByChat[c])
  }

  /** A run without failures over different positive limits leaves the user in the one channel with the
      highest limit and the limit that counts at the maximum of that and what it was; for a user of no
      channel it goes back to the group's. */
  lemma RunIsExact(before: State, after: State, limitByChat: map<Chat, int>, group: Subject -> int, subj: Subject)
    requires Reconciled(before, after, limitByChat, group, subj, false)
    requires Distinct(Mine(before, limitByChat), limitByChat) && Positive(Mine(before, limitByChat), limitByChat)
    ensures Settled(before, after, limitByChat, group, subj)
  {
    if Mine(before, limitByChat) == {} {
      assert Mine(after, limitByChat) == {};
    } else {
      var c := OneChannelLeft(before, after, limitByChat);
      assert Effective(after, group, subj) == Max(Effective(before, group, subj), limitByChat[c]);
    }
  }

  lemma OneChannelLeft(before: State, after: State, limitByChat: map<Chat, int>) returns (c: Chat)
    requires MembershipsAfter(before, after, limitByChat, false) && Mine(before, limitByChat) != {}
    requires Distinct(Mine(before, limitByChat), limitByChat) && Positive(Mine(before, limitByChat), limitByChat)
    ensures c in Mine(before, limitByChat) && limitByChat[c] == Top(Mine(before, limitByChat), limitByChat)
    ensures Mine(after, limitByChat) == {c}
  {
    var mine := Mine(before, limitByChat);
    var top := Top(mine, limitByChat);
    RemovedExactly(before, after, limitByChat);
    var any :| any in mine;
    assert limitByChat[any] > 0;
    c :| c in mine && limitByChat[c] == top;
    forall d ensures d in Mine(after, limitByChat) <==> d == c {
      assert d in Mine(after, limitByChat) <==> d in mine && d !in before.memberOf - after.memberOf;
    }
  }

  // ----- running again -----

  /** When a run without failures removes the user from no channel, all of the user's channels have one and
      the same limit, the highest. This needs no assumption on the limits. */
  lemma QuietMeansHighest(before: State, after: State, limitByChat: map<Chat, int>)
    requires MembershipsAfter(before, after, limitByChat, false) && after.memberOf == before.memberOf
    ensures forall c <- Mine(before, limitByChat) :: limitByChat[c] == Top(Mine(before, limitByChat), limitByChat)
  {
  }

  lemma HandledShrinks(before: State, first: State, second: State, after: State, prices: Prices,
                       group: Subject -> int, failed: bool)
    requires Handled(before, first, second, after, prices, group, failed)
    ensures after.memberOf <= before.memberOf
    ensures before.memberOf - after.memberOf <= prices.All().Keys
  {
    assert before.memberOf - first.memberOf <= prices.subscriptions.Keys;
    assert first.memberOf - second.memberOf <= prices.interests.Keys;
    assert second.memberOf - after.memberOf <= prices.interestsPublic.Keys;
  }

  /** The user's state and the number of membership changes that are still to be handled. */
  datatype System = System(state: State, pending: nat)

  /** One change is handled, in whatever way and perhaps with failures. It calls for up to two more to be
      handled for every channel the user was removed from: one by the ban and one by the unban. */
  ghost predicate Turn(s: System, s': System, prices: Prices, group: Subject -> int) {
    && s.pending > 0
    && s'.pending <= s.pending - 1 + 2 * |s.state.memberOf - s'.state.memberOf|
    && exists first, second, failed :: Handled(s.state, first, second, s'.state, prices, group, failed)
  }

  ghost predicate IsRun(systems: seq<System>, prices: Prices, group: Subject -> int) {
    systems != [] && forall i :: 0 <= i < |systems| - 1 ==> Turn(systems[i], systems[i + 1], prices, group)
  }

  /** What bounds the turns that are left: the pending changes, and two for each paid channel. */
  function TurnsLeft(s: System, prices: Prices): nat {
    s.pending + 2 * |Mine(s.state, prices.All())|
  }

  lemma TurnUsesUpOne(s: System, s': System, prices: Prices, group: Subject -> int)
    requires Turn(s, s', prices, group)
    ensures TurnsLeft(s', prices) < TurnsLeft(s, prices)
  {
    var first, second, failed :| Handled(s.state, first, second, s'.state, prices, group, failed);
    HandledShrinks(s.state, first, second, s'.state, prices, group, failed);
    RemovedSize(s.state, s'.state, prices.All());
  }

  lemma RemovedSize(s: State, s': State, limitByChat: map<Chat, int>)
    requires s'.memberOf <= s.memberOf && s.memberOf - s'.memberOf <= limitByChat.Keys
    ensures |Mine(s, limitByChat)| == |Mine(s', limitByChat)| + |s.memberOf - s'.memberOf|
  {
    assert Mine(s, limitByChat) == Mine(s', limitByChat) + (s.memberOf - s'.memberOf);
  }

  /** Removals change memberships and so call the handler again; this ends, whether or not the runs remove
      anything, whatever the limits are and whatever fails: there are at most as many turns as changes were
      pending and twice as many as the user had paid channels. */
  lemma {:induction false} TurnsEnd(systems: seq<System>, prices: Prices, group: Subject -> int)
    requires IsRun(systems, prices, group)
    ensures |systems| - 1 <= systems[0].pending + 2 * |Mine(systems[0].state, prices.All())|
  {
    if |systems| > 1 {
      TurnUsesUpOne(systems[0], systems[1], prices, group);
      var rest := systems[1..];
      forall i | 0 <= i < |rest| - 1 ensures Turn(rest[i], rest[i + 1], prices, group) {
        assert rest[i] == systems[i + 1] && rest[i + 1] == systems[i + 2];
      }
      TurnsEnd(rest, prices, group);
    }
  }

  // ----- the three limits together -----

  /** A run for one price list leaves another with no channel in common, and its limit, as they are. */
  lemma RunKeepsOther(before: State, after: State, limitByChat: map<Chat, int>, group: Subject -> int, subj: Subject,
                      failed: bool, other: map<Chat, int>, otherSubj: Subject)
    requires Reconciled(before, after, limitByChat, group, subj, failed)
    requires limitByChat.Keys !! other.Keys && otherSubj != subj
    ensures Mine(after, other) == Mine(before, other)
    ensures Effective(after, group, otherSubj) == Effective(before, group, otherSubj)
    ensures otherSubj in after.stored <==> otherSubj in before.stored
  {
    var removed := before.memberOf - after.memberOf;
    assert removed <= limitByChat.Keys;
    assert forall c <- Mine(before, other) :: c !in removed;
  }

  /** Price lists with no channel in common, in each of which the user's channels have different positive
      limits. */
  predicate WellPriced(s: State, prices: Prices) {
    && prices.subscriptions.Keys !! prices.interests.Keys !! prices.interestsPublic.Keys
    && Distinct(Mine(s, prices.subscriptions), prices.subscriptions)
    && Positive(Mine(s, prices.subscriptions), prices.subscriptions)
    && Distinct(Mine(s, prices.interests), prices.interests)
    && Positive(Mine(s, prices.interests), prices.interests)
    && Distinct(Mine(s, prices.interestsPublic), prices.interestsPublic)
    && Positive(Mine(s, prices.interestsPublic), prices.interestsPublic)
  }

  /** A handled change without failures, limit by limit. */
  lemma HandledApart(before: State, first: State, second: State, after: State, prices: Prices, group: Subject -> int,
                     failed: bool)
    requires Handled(before, first, second, after, prices, group, failed) && WellPriced(before, prices)
    ensures Apart(first, after, prices.subscriptions, group, Subscriptions)
    ensures Apart(before, first, prices.interests, group, Interests)
    ensures Apart(second, after, prices.interests, group, Interests)
    ensures Apart(before, second, prices.interestsPublic, group, InterestsPublic)
  {
    var p := prices;
    RunKeepsOther(before, first, p.subscriptions, group, Subscriptions, failed, p.interests, Interests);
    RunKeepsOther(before, first, p.subscriptions, group, Subscriptions, failed, p.interestsPublic, InterestsPublic);
    RunKeepsOther(first, second, p.interests, group, Interests, failed, p.subscriptions, Subscriptions);
    RunKeepsOther(first, second, p.interests, group, Interests, failed, p.interestsPublic, InterestsPublic);
    RunKeepsOther(second, after, p.interestsPublic, group, InterestsPublic, failed, p.subscriptions, Subscriptions);
    RunKeepsOther(second, after, p.interestsPublic, group, InterestsPublic, failed, p.interests, Interests);
  }

  /** Two states that agree on one limit and its channels. */
  ghost predicate Apart(s: State, t: State, limitByChat: map<Chat, int>, group: Subject -> int, subj: Subject) {
    && Mine(t, limitByChat) == Mine(s, limitByChat) && Effective(t, group, subj) == Effective(s, group, subj)
    && (subj in t.stored <==> subj in s.stored)
  }

  /** A change of membership handled without failures, over well-priced lists, settles all three limits: for
      each, the user is left in the channel with the highest limit only, and the limit that counts is at
      least that. */
  lemma HandlerSettlesAll(before: State, first: State, second: State, after: State, prices: Prices,
                          group: Subject -> int)
    requires Handled(before, first, second, after, prices, group, false) && WellPriced(before, prices)
    ensures Settled(before, after, prices.subscriptions, group, Subscriptions)
    ensures Settled(before, after, prices.interests, group, Interests)
    ensures Settled(before, after, prices.interestsPublic, group, InterestsPublic)
  {
    HandledApart(before, first, second, after, prices, group, false);
    RunIsExact(before, first, prices.subscriptions, group, Subscriptions);
    RunIsExact(first, second, prices.interests, group, Interests);
    RunIsExact(second, after, prices.interestsPublic, group, InterestsPublic);
  }

  // ----- the turns after the first -----

  /** Nothing is left to do for one limit. */
  ghost predicate Quiet(s: State, limitByChat: map<Chat, int>, group: Subject -> int, subj: Subject) {
    var mine := Mine(s, limitByChat);
    if mine == {} then subj !in s.stored
    else exists c :: mine == {c} && 0 <= limitByChat[c] <= Effective(s, group, subj)
  }

  lemma QuietRun(s: State, after: State, limitByChat: map<Chat, int>, group: Subject -> int, subj: Subject,
                 failed: bool)
    requires Quiet(s, limitByChat, group, subj) && Reconciled(s, after, limitByChat, group, subj, failed)
    ensures after == s
  {
    var mine := Mine(s, limitByChat);
    if mine != {} {
      var c :| mine == {c} && 0 <= limitByChat[c] <= Effective(s, group, subj);
      assert c in mine;
      TopIsUnique(mine, limitByChat, limitByChat[c]);
    }
    assert s.memberOf - after.memberOf == {};
    assert forall c <- s.memberOf :: c !in s.memberOf - after.memberOf;
    assert after.memberOf == s.memberOf;
  }

  lemma RunMakesQuiet(before: State, after: State, limitByChat: map<Chat, int>, group: Subject -> int, subj: Subject)
    requires Reconciled(before, after, limitByChat, group, subj, false)
    requires Distinct(Mine(before, limitByChat), limitByChat) && Positive(Mine(before, limitByChat), limitByChat)
    ensures Quiet(after, limitByChat, group, subj)
  {
    RunIsExact(before, after, limitByChat, group, subj);
    if Mine(before, limitByChat) != {} {
      var c :| c in Mine(before, limitByChat) && Mine(after, limitByChat) == {c}
               && Effective(after, group, subj) == Max(Effective(before, group, subj), limitByChat[c]);
      assert Mine(after, limitByChat) == {c} && 0 <= limitByChat[c] <= Effective(after, group, subj);
    }
  }

  /** After a run without failures over different positive limits, another run changes nothing at all,
      whether or not its calls fail. */
  lemma SecondRunChangesNothing(before: State, after: State, again: State, limitByChat: map<Chat, int>,
                                group: Subject -> int, subj: Subject, failed: bool)
    requires Reconciled(before, after, limitByChat, group, subj, false)
    requires Reconciled(after, again, limitByChat, group, subj, failed)
    requires Distinct(Mine(before, limitByChat), limitByChat) && Positive(Mine(before, limitByChat), limitByChat)
    ensures again == after
  {
    RunMakesQuiet(before, after, limitByChat, group, subj);
    QuietRun(after, again, limitByChat, group, subj, failed);
  }

  ghost predicate AllQuiet(s: State, prices: Prices, group: Subject -> int) {
    && Quiet(s, prices.subscriptions, group, Subscriptions)
    && Quiet(s, prices.interests, group, Interests)
    && Quiet(s, prices.interestsPublic, group, InterestsPublic)
  }

  lemma HandlerMakesQuiet(before: State, first: State, second: State, after: State, prices: Prices,
                          group: Subject -> int)
    requires Handled(before, first, second, after, prices, group, false) && WellPriced(before, prices)
    ensures AllQuiet(after, prices, group)
  {
    HandledApart(before, first, second, after, prices, group, false);
    RunMakesQuiet(before, first, prices.subscriptions, group, Subscriptions);
    RunMakesQuiet(first, second, prices.interests, group, Interests);
    RunMakesQuiet(second, after, prices.interestsPublic, group, InterestsPublic);
  }

  lemma {:induction false} QuietStays(systems: seq<System>, prices: Prices, group: Subject -> int)
    requires IsRun(systems, prices, group) && AllQuiet(systems[0].state, prices, group)
    ensures forall i :: 0 <= i < |systems| ==> systems[i].state == systems[0].state
    ensures |systems| - 1 <= systems[0].pending
  {
    if |systems| > 1 {
      var s, s' := systems[0], systems[1];
      assert Turn(s, s', prices, group);
      var first, second, failed :| Handled(s.state, first, second, s'.state, prices, group, failed);
      QuietRun(s.state, first, prices.subscriptions, group, Subscriptions, failed);
      QuietRun(first, second, prices.interests, group, Interests, failed);
      QuietRun(second, s'.state, prices.interestsPublic, group, InterestsPublic, failed);
      assert s.state.memberOf - s'.state.memberOf == {};
      var rest := systems[1..];
      forall i | 0 <= i < |rest| - 1 ensures Turn(rest[i], rest[i + 1], prices, group) {
        assert rest[i] == systems[i + 1] && rest[i + 1] == systems[i + 2];
      }
      QuietStays(rest, prices, group);
      assert forall i :: 1 <= i < |systems| ==> systems[i] == rest[i - 1];
    }
  }

  /** Once one change was handled without failures, over well-priced lists, all later turns, failing or not,
      leave memberships and limits as they are, and there are no more of them than changes were pending. */
  lemma SettledForGood(before: State, first: State, second: State, systems: seq<System>, prices: Prices,
                       group: Subject -> int)
    requires IsRun(systems, prices, group) && WellPriced(before, prices)
    requires Handled(before, first, second, systems[0].state, prices, group, false)
    ensures forall i :: 0 <= i < |systems| ==> systems[i].state == systems[0].state
    ensures |systems| - 1 <= systems[0].pending
  {
    HandlerMakesQuiet(before, first, second, systems[0].state, prices, group);
    QuietStays(systems, prices, group);
  }
}
