/**
 The web hook (service/chats/handler.go): from the hub's request to the chat, the user and the interest
 it is for, through the delivery, to the answer. A request body is given by the events it decodes to,
 when it does.
 */
module Handler {
  import opened Bytes
  import opened Decimal
  import opened CallbackUrl
  import opened Delivery
  import opened Modes
  import opened Links

  const LINK_SELF_SUFFIX: bytes := ">; rel=\"self\""
  const SUB_JSON: bytes := "/sub/json"

  /** What a request is for. */
  datatype Target = Target(interestId: bytes, chatId: int, userId: bytes)

  // ----- topics -----

  predicate IsSelfLink(link: bytes) {
    HasSuffix(link, LINK_SELF_SUFFIX) && |link| > |LINK_SELF_SUFFIX|
  }

  /** The topic of the last self link among the `Link` header's values, empty when there is none. */
  function TopicOf(links: seq<bytes>): bytes {
    if links == [] then []
    else
      var last := links[|links| - 1];
      if IsSelfLink(last) then last[1..|last| - |LINK_SELF_SUFFIX|] else TopicOf(links[..|links| - 1])
  }

  /** The last path segment of a topic. */
  function InterestOf(topic: bytes): bytes {
    var parts := Split(topic, '/');
    parts[|parts| - 1]
  }

  /** The topic a subscription to an interest is made for (api/http/subscriptions/service.go). */
  function TopicUri(topicPrefixBase: bytes, interestId: bytes): bytes {
    topicPrefixBase + SUB_JSON + ['/'] + interestId
  }

  /** `Confirm` echoes the hub's challenge for every topic that begins like those of this service. */
  function Confirm(topicPrefixBase: bytes, topic: bytes, challenge: bytes): Option<bytes> {
    if HasPrefix(topic, topicPrefixBase + SUB_JSON) then Some(challenge) else None
  }

  /** What a request is for, when its headers, its path and its query tell. */
  function TargetOf(links: seq<bytes>, segment: bytes, query: bytes): Option<Target> {
    var topic := TopicOf(links);
    var interestId := InterestOf(topic);
    var address := ReadAddress(segment, query);
    if topic == [] || interestId == [] || !address.Address? then None
    else Some(Target(interestId, address.chatId, address.userId))
  }

  /** What a post with these links to a callback URL is for. */
  function TargetOfPost(links: seq<bytes>, url: bytes): Option<Target> {
    var (segment, query) := LastSegmentAndQuery(url);
    TargetOf(links, segment, query)
  }

  // ----- the handler -----

  method FindTopic(links: seq<bytes>) returns (topic: bytes)
    ensures topic == TopicOf(links)
  {
    topic := [];
    for i := 0 to |links|
      invariant topic == TopicOf(links[..i])
    {
      var l := links[i];
      assert links[..i + 1][..i] == links[..i];
      if IsSelfLink(l) {
        topic := l[1..|l| - |LINK_SELF_SUFFIX|];
      }
    }
    assert links[..|links|] == links;
  }

  /** A request without a target or with a body that does not decode is answered with 400 and sends
      nothing; any other is delivered to its target and answered by the acknowledged count. */
  method DeliverMessages<E(!new)>(links: seq<bytes>, segment: bytes, query: bytes, body: Option<seq<E>>,
                            env: seq<Answers>, currentOk: bool, legacyOk: bool)
    returns (response: Response, target: Option<Target>, log: seq<Attempt<E>>, floods: nat, removals: seq<Removal>)
    requires body.Some? ==> |env| == |body.value|
    ensures target == TargetOf(links, segment, query)
    ensures response == BadRequest <==> target.None? || body.None?
    ensures response == BadRequest ==> log == [] && floods == 0 && removals == []
    ensures response != BadRequest ==>
              var o := OutcomeOf(body.value, env, currentOk, legacyOk);
              response == Respond(o.ack, o.err) && log == o.log && floods == o.floods && removals == o.removals
    ensures response == ServerError ==> Reached(log) == []
  {
    log, target, floods, removals := [], None, 0, [];
    var topic := FindTopic(links);
    if topic == [] {
      return BadRequest, target, log, floods, removals;
    }
    var topicParts := Split(topic, '/');
    var interestId := topicParts[|topicParts| - 1];
    if interestId == [] {
      return BadRequest, target, log, floods, removals;
    }
    var address := ReadAddress(segment, query);
    if !address.Address? {
      return BadRequest, target, log, floods, removals;
    }
    target := Some(Target(interestId, address.chatId, address.userId));
    if body.None? {
      return BadRequest, target, log, floods, removals;
    }
    var countAck, err;
    countAck, err, log, floods, removals := Deliver(body.value, env, currentOk, legacyOk);
    if err == Nil || countAck > 0 {
      response := Ok(countAck);
    } else {
      response := ServerError;
      NothingReached(body.value, env, currentOk, legacyOk);
    }
  }

  // ----- proofs -----

  lemma NothingReached<E(!new)>(evts: seq<E>, env: seq<Answers>, currentOk: bool, legacyOk: bool)
    requires |evts| == |env| && OutcomeOf(evts, env, currentOk, legacyOk).ack == 0
    ensures Reached(OutcomeOf(evts, env, currentOk, legacyOk).log) == []
  {
    AckMeaning(evts, env, currentOk, legacyOk);
  }

  /** The topic printed for an interest is confirmed, and the interest is read back from it if and only
      if its id has no slash. */
  lemma InterestOfTopic(topicPrefixBase: bytes, interestId: bytes, challenge: bytes)
    ensures Confirm(topicPrefixBase, TopicUri(topicPrefixBase, interestId), challenge) == Some(challenge)
    ensures InterestOf(TopicUri(topicPrefixBase, interestId)) == interestId <==> '/' !in interestId
  {
    var prefix := topicPrefixBase + SUB_JSON;
    assert TopicUri(topicPrefixBase, interestId)[..|prefix|] == prefix;
    JoinOfSplit(TopicUri(topicPrefixBase, interestId), '/');
    if '/' !in interestId {
      LastOfSplit(prefix, interestId, '/');
    }
  }

  /** The self link a hub sends for a topic is read back as that topic, whatever links come before it and
      whatever links that are not self links come after it; without a self link there is no topic. */
  lemma {:induction false} TopicOfSelfLink(before: seq<bytes>, topic: bytes, after: seq<bytes>)
    requires forall l <- after :: !HasSuffix(l, ">; rel=\"self\"")
    ensures TopicOf(before + [['<'] + topic + LINK_SELF_SUFFIX] + after) == topic
    ensures TopicOf(after) == []
  {
    var link := ['<'] + topic + LINK_SELF_SUFFIX;
    var links := before + [link] + after;
    if after == [] {
      assert link[|link| - |LINK_SELF_SUFFIX|..] == LINK_SELF_SUFFIX;
      assert link[1..|link| - |LINK_SELF_SUFFIX|] == topic;
      assert links[|links| - 1] == link;
    } else {
      var n := |after| - 1;
      TopicOfSelfLink(before, topic, after[..n]);
      assert links[..|links| - 1] == before + [link] + after[..n];
      assert links[|links| - 1] == after[n] && after[n] in after;
    }
  }

  /** The topics confirmed are those that continue the prefix of this service. */
  lemma ConfirmedTopics(topicPrefixBase: bytes, topic: bytes, challenge: bytes)
    ensures Confirm(topicPrefixBase, topic, challenge)
         == if exists rest: bytes :: topic == topicPrefixBase + "/sub/json" + rest then Some(challenge) else None
  {
    var prefix := topicPrefixBase + SUB_JSON;
    if HasPrefix(topic, prefix) {
      assert topic == topicPrefixBase + "/sub/json" + topic[|prefix|..];
    }
    forall rest: bytes ensures HasPrefix(prefix + rest, prefix) {
      assert (prefix + rest)[..|prefix|] == prefix;
    }
  }

  /** From the subscription to the delivery: when a chat subscribed to an interest with its callback URL,
      a post to that URL with the interest's self link is for that interest, that chat and that user; one to a
      legacy URL is for the Telegram user the chat belongs to. */
  lemma SubscribedTargetIsFound(topicPrefixBase: bytes, interestId: bytes, chat: Chat, before: seq<bytes>,
                                after: seq<bytes>)
    requires interestId != [] && '/' !in interestId
    requires '?' !in chat.urlBase && '#' !in chat.urlBase
    requires forall l <- after :: !HasSuffix(l, LINK_SELF_SUFFIX)
    ensures var links := before + [['<'] + TopicUri(topicPrefixBase, interestId) + LINK_SELF_SUFFIX] + after;
            var legacyUserId := TelegramToAwakariUserId(chat.chatId);
            && TargetOfPost(links, chat.Current(interestId).url)
               == Some(Target(interestId, chat.chatId, if chat.userId == [] then legacyUserId else chat.userId))
            && TargetOfPost(links, chat.Legacy(interestId).url)
               == Some(Target(interestId, chat.chatId, legacyUserId))
  {
    InterestOfTopic(topicPrefixBase, interestId, []);
    TopicOfSelfLink(before, TopicUri(topicPrefixBase, interestId), after);
    CallbacksName(chat, interestId);
  }

  /** The registry after the removals a call asked for, each of which has an effect when it worked. */
  function Replayed(entries: set<Callback>, removals: seq<Removal>, interestId: bytes, chat: Chat,
                    currentOk: bool, legacyOk: bool): set<Callback>
  {
    if removals == [] then entries
    else
      var callback := if removals[0].RemoveCurrent? then chat.Current(interestId) else chat.Legacy(interestId);
      var ok := if removals[0].RemoveCurrent? then currentOk else legacyOk;
      Replayed(if ok then entries - {callback} else entries, removals[1..], interestId, chat, currentOk, legacyOk)
  }

  /** What a blocked chat loses. Removals that work find their callback in the registry. When the last attempt of
      a call was answered with 403 in HTML, the current callback is gone, or, if it could not be removed, the
      legacy one, or neither, and only then an error is returned; after any other call the registry is as it
      was. When exactly the callbacks that are there can be removed, this is a whole removal. */
  lemma BlockedUnlinks<E(!new)>(evts: seq<E>, env: seq<Answers>, currentOk: bool, legacyOk: bool,
                                entries: set<Callback>, interestId: bytes, chat: Chat)
    requires |evts| == |env|
    requires currentOk ==> chat.Current(interestId) in entries
    requires legacyOk ==> chat.Legacy(interestId) in entries
    ensures var o := OutcomeOf(evts, env, currentOk, legacyOk);
            var after := Replayed(entries, o.removals, interestId, chat, currentOk, legacyOk);
            if o.log != [] && o.log[|o.log| - 1].mode == Html && o.log[|o.log| - 1].reply == Forbidden then
              && after == (if currentOk then entries - {chat.Current(interestId)}
                           else if legacyOk then entries - {chat.Legacy(interestId)} else entries)
              && (o.err == Nil <==> TakesOne(entries, after, interestId, chat))
              && (currentOk == (chat.Current(interestId) in entries)
                  && legacyOk == (chat.Legacy(interestId) in entries) ==>
                    && after == Unlinked(entries, interestId, chat)
                    && (o.err == Nil <==> Linked(entries, interestId, chat)))
            else o.removals == [] && after == entries
  {
    var o := OutcomeOf(evts, env, currentOk, legacyOk);
    CallEndsFor(evts, env, currentOk, legacyOk);
    LinkedByEither(entries, interestId, chat);
    if EndsBlocked(o.log) {
      assert o.removals[1..] == if currentOk then [] else [RemoveLegacy];
      assert Replayed(entries, [RemoveLegacy], interestId, chat, currentOk, legacyOk)
          == if legacyOk then entries - {chat.Legacy(interestId)} else entries;
      if currentOk {
        assert chat.Current(interestId) in LinksOf(entries, interestId, chat);
      } else if legacyOk {
        assert chat.Legacy(interestId) in LinksOf(entries, interestId, chat);
      }
    }
  }

  /** The handlers a flooded call starts run at the same time and each remove a link. When all are done, in
      whatever order their calls were made, a flood in HTML or in plain text has left no link; a flood in
      raw text has left the legacy link exactly when the chat had both. */
  lemma FloodUnlinks<E>(evts: seq<E>, env: seq<Answers>, currentOk: bool, legacyOk: bool,
                        entries: set<Callback>, interestId: bytes, chat: Chat,
                        handlers: seq<Stage>, schedule: seq<nat>)
    requires |evts| == |env|
    requires |handlers| == OutcomeOf(evts, env, currentOk, legacyOk).floods && AllAt(handlers, Begun)
    requires IsSchedule(schedule, |handlers|)
    requires AllAt(Interleaved(Floods(entries, handlers), interestId, chat, schedule).handlers, Finished)
    ensures var log := OutcomeOf(evts, env, currentOk, legacyOk).log;
            var after := Interleaved(Floods(entries, handlers), interestId, chat, schedule).entries;
            log != [] && log[|log| - 1].reply == Flood ==>
              (Linked(after, interestId, chat)
               <==> log[|log| - 1].mode == Raw && |LinksOf(entries, interestId, chat)| == 2)
  {
    var after := Interleaved(Floods(entries, handlers), interestId, chat, schedule);
    FloodHandlers(evts, env, currentOk, legacyOk);
    InterleavingIsHarmless(Floods(entries, handlers), interestId, chat, schedule);
    AllFinishedCount(after.handlers);
    LinkedAfterRemovals(entries, interestId, chat, |handlers|);
  }
}
