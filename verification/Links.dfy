/**
 Which interests are linked to which chat. The hub's registry holds callbacks, pairs of an interest
 and a callback URL; a chat's callback carries the user id, and a legacy one does not.
 Looking up or removing a callback that is not there is an error; with a registry that is not reliable
 any other call may fail too, and then has no effect.
 */
module Links {
  import opened Bytes
  import opened Decimal
  import opened CallbackUrl
  import opened Buttons

  datatype Callback = Callback(interestId: bytes, url: bytes)

  datatype Chat = Chat(urlBase: bytes, chatId: int64, userId: bytes) {
    function Current(interestId: bytes): Callback {
      Callback(interestId, MakeCallbackUrl(urlBase, chatId, userId))
    }

    function Legacy(interestId: bytes): Callback {
      Callback(interestId, MakeCallbackUrl(urlBase, chatId, []))
    }
  }

  /** The callbacks that link an interest to a chat, at most two. */
  function LinksOf(entries: set<Callback>, interestId: bytes, chat: Chat): set<Callback> {
    {chat.Current(interestId), chat.Legacy(interestId)} * entries
  }

  predicate Linked(entries: set<Callback>, interestId: bytes, chat: Chat) {
    LinksOf(entries, interestId, chat) != {}
  }

  /** The registry after one removal: the current callback goes first. */
  function Unlinked(entries: set<Callback>, interestId: bytes, chat: Chat): set<Callback> {
    if chat.Current(interestId) in entries then entries - {chat.Current(interestId)}
    else entries - {chat.Legacy(interestId)}
  }

  /** The registry after a removal: one of the links of the chat is gone, and nothing else. */
  ghost predicate TakesOne(before: set<Callback>, after: set<Callback>, interestId: bytes, chat: Chat) {
    exists callback <- LinksOf(before, interestId, chat) :: after == before - {callback}
  }

  class Registry {
    const reliable: bool
    var entries: set<Callback>

    constructor (reliable: bool)
      ensures this.reliable == reliable && entries == {}
    {
      this.reliable, entries := reliable, {};
    }

    method Answer() returns (ok: bool)
      ensures reliable ==> ok
    {
      ok := *;
      ok := ok || reliable;
    }

    method Subscription(callback: Callback) returns (found: bool)
      ensures found ==> callback in entries
      ensures reliable ==> found == (callback in entries)
    {
      found := Answer();
      found := found && callback in entries;
    }

    method Unsubscribe(callback: Callback) returns (ok: bool)
      modifies this
      ensures ok ==> callback in old(entries)
      ensures reliable ==> ok == (callback in old(entries))
      ensures entries == if ok then old(entries) - {callback} else old(entries)
    {
      ok := Answer();
      ok := ok && callback in entries;
      if ok {
        entries := entries - {callback};
      }
    }

    /** The command of the "stop" button: look the current callback up and remove it, otherwise do the
        same with the legacy one. */
    method Stop(chat: Chat, args: seq<bytes>) returns (ok: bool)
      requires args != []
      modifies this
      ensures if ok then TakesOne(old(entries), entries, args[0], chat) else entries == old(entries)
      ensures reliable ==> ok == Linked(old(entries), args[0], chat)
      ensures reliable ==> entries == Unlinked(old(entries), args[0], chat)
    {
      var interestId := args[0];
      LinkedByEither(entries, interestId, chat);
      var callback := chat.Current(interestId);
      var found := Subscription(callback);
      if found {
        ok := Unsubscribe(callback);
      } else {
        callback := chat.Legacy(interestId);
        found := Subscription(callback);
        ok := found;
        if found {
          ok := Unsubscribe(callback);
        }
      }
      assert ok ==> callback in LinksOf(old(entries), interestId, chat);
    }

    /** What the delivery does to the registry when the bot is blocked or the chat is flooded: remove
        the current callback, and the legacy one when that failed. */
    method Unlink(chat: Chat, interestId: bytes) returns (ok: bool)
      modifies this
      ensures if ok then TakesOne(old(entries), entries, interestId, chat) else entries == old(entries)
      ensures reliable ==> ok == Linked(old(entries), interestId, chat)
      ensures reliable ==> entries == Unlinked(old(entries), interestId, chat)
    {
      LinkedByEither(entries, interestId, chat);
      var callback := chat.Current(interestId);
      ok := Unsubscribe(callback);
      if !ok {
        callback := chat.Legacy(interestId);
        ok := Unsubscribe(callback);
      }
      assert ok ==> callback in LinksOf(old(entries), interestId, chat);
    }

    /** Whether the list shows an interest as linked here. */
    method LinkedHere(chat: Chat, interestId: bytes) returns (linked: bool)
      ensures linked ==> Linked(entries, interestId, chat)
      ensures reliable ==> linked == Linked(entries, interestId, chat)
    {
      LinkedByEither(entries, interestId, chat);
      linked := Subscription(chat.Current(interestId));
      if !linked {
        linked := Subscription(chat.Legacy(interestId));
      }
    }

    /** A button is right for an interest: ticked only when the interest is linked here, and not ticked only
        when it is not linked, as far as the registry is reliable. */
    ghost predicate RightButton(b: Button, btnCmd: bytes, i: Interest, chat: Chat)
      reads this
    {
      || (b == InterestButton(true, btnCmd, i) && Linked(entries, i.id, chat))
      || (b == InterestButton(false, btnCmd, i) && (reliable ==> !Linked(entries, i.id, chat)))
    }

    method MakeButton(chat: Chat, btnCmd: bytes, i: Interest) returns (btn: Button)
      ensures RightButton(btn, btnCmd, i, chat)
    {
      var subLinkedHere := LinkedHere(chat, i.id);
      var text := i.description;
      if subLinkedHere {
        text := text + TICK;
      }
      if i.isPublic {
        text := EYE + text;
      }
      var data := RowData(btnCmd, i.id);
      if btnCmd == CMD_START && subLinkedHere {
        data := RowData(CMD_STOP, i.id);
      }
      btn := Button(text, data);
      assert btn == InterestButton(subLinkedHere, btnCmd, i);
    }

    /** The list of interests: each has a button that stops it, when the list is for starting and the
        interest was found to be linked here, and that runs the list's own command otherwise. */
    method ListButtons(chat: Chat, btnCmd: bytes, isPublic: bool, page: seq<Interest>) returns (rows: seq<Button>)
      ensures |rows| == |page| + if |page| == PAGE_LIMIT then 1 else 0
      ensures forall k :: 0 <= k < |page| ==> RightButton(rows[k], btnCmd, page[k], chat)
      ensures |page| == PAGE_LIMIT ==>
                var last := page[PAGE_LIMIT - 1];
                rows[PAGE_LIMIT] == Button(NEXT_PAGE, NextPageData(btnCmd, last.id, last.followers, isPublic))
    {
      rows := [];
      var lastFollowers: int64 := 0;
      for k := 0 to |page|
        invariant |rows| == k
        invariant k > 0 ==> lastFollowers == page[k - 1].followers
        invariant forall j :: 0 <= j < k ==> RightButton(rows[j], btnCmd, page[j], chat)
      {
        lastFollowers := page[k].followers;
        var btn := MakeButton(chat, btnCmd, page[k]);
        rows := rows + [btn];
      }
      if |page| == PAGE_LIMIT {
        rows := rows + [Button(NEXT_PAGE, NextPageData(btnCmd, page[|page| - 1].id, lastFollowers, isPublic))];
      }
    }
  }

  datatype Button = Button(text: bytes, data: bytes)

  const NEXT_PAGE: bytes := "Next Page >"
  const ID_TEXT: bytes := "ID: "

  /** A space and a check mark (U+2713), and an eye (U+1F441) and a space, in UTF-8. */
  const TICK: bytes := [' ', 0xE2 as char, 0x9C as char, 0x93 as char]
  const EYE: bytes := [0xF0 as char, 0x9F as char, 0x91 as char, 0x81 as char, ' ']

  function InterestButton(ticked: bool, btnCmd: bytes, i: Interest): Button {
    Button((if i.isPublic then EYE else []) + i.description + (if ticked then TICK else []),
           RowData(if ticked && btnCmd == CMD_START then CMD_STOP else btnCmd, i.id))
  }

  /** The button of a followed interest, as far as reading the interest worked. */
  function FollowedButton(id: bytes, read: Option<Interest>): Button {
    Button(match read
           case None => ID_TEXT + id
           case Some(i) => (if i.isPublic then EYE else []) + i.description,
           RowData(CMD_STOP, id))
  }

  /** The list of interests followed in a chat, as the hub returned them: each has a "stop" button. */
  method ListButtonsFollowing(ids: seq<bytes>, read: bytes -> Option<Interest>) returns (rows: seq<Button>)
    ensures |rows| == |ids| + if |ids| == PAGE_LIMIT then 1 else 0
    ensures forall k :: 0 <= k < |ids| ==> rows[k] == FollowedButton(ids[k], read(ids[k]))
    ensures |ids| == PAGE_LIMIT ==> rows[PAGE_LIMIT] == Button(NEXT_PAGE, NextFollowingData(ids[PAGE_LIMIT - 1]))
  {
    rows := [];
    for k := 0 to |ids|
      invariant |rows| == k
      invariant forall j :: 0 <= j < k ==> rows[j] == FollowedButton(ids[j], read(ids[j]))
    {
      var descr := ID_TEXT + ids[k];
      var sub := read(ids[k]);
      if sub.Some? {
        descr := sub.value.description;
        if sub.value.isPublic {
          descr := EYE + descr;
        }
      }
      rows := rows + [Button(descr, RowData(CMD_STOP, ids[k]))];
    }
    if |ids| == PAGE_LIMIT {
      rows := rows + [Button(NEXT_PAGE, NextFollowingData(ids[|ids| - 1]))];
    }
  }

  // ----- proofs -----

  lemma LinkedByEither(entries: set<Callback>, interestId: bytes, chat: Chat)
    ensures Linked(entries, interestId, chat)
        <==> chat.Current(interestId) in entries || chat.Legacy(interestId) in entries
  {
    if chat.Current(interestId) in entries {
      assert chat.Current(interestId) in LinksOf(entries, interestId, chat);
    }
    if chat.Legacy(interestId) in entries {
      assert chat.Legacy(interestId) in LinksOf(entries, interestId, chat);
    }
  }

  /** The list offers "stop" exactly for the interests that the next "stop" can unlink, and the button
      reaches that interest: reading the button gives "stop" with this id if and only if the interest
      is linked here, for every id without a space. */
  lemma StopIsOfferedWhenLinked(entries: set<Callback>, i: Interest, chat: Chat)
    requires ' ' !in i.id
    ensures ReadCallback(InterestButton(Linked(entries, i.id, chat), CMD_START, i).data) == Call(CMD_STOP, [i.id])
       <==> chat.Current(i.id) in entries || chat.Legacy(i.id) in entries
  {
    LinkedByEither(entries, i.id, chat);
    assert ' ' !in CMD_START && ' ' !in CMD_STOP;
    RowCallsItsCommand(CMD_START, i.id);
    RowCallsItsCommand(CMD_STOP, i.id);
    assert CMD_START[4] != CMD_STOP[4] || |CMD_START| != |CMD_STOP|;
  }

  /** A removal leaves one link less, and takes away nothing that is not a link of the chat. */
  lemma TakesOneLink(before: set<Callback>, after: set<Callback>, interestId: bytes, chat: Chat)
    requires TakesOne(before, after, interestId, chat)
    ensures before - LinksOf(before, interestId, chat) <= after <= before
    ensures |LinksOf(after, interestId, chat)| == |LinksOf(before, interestId, chat)| - 1
  {
    var callback :| callback in LinksOf(before, interestId, chat) && after == before - {callback};
    assert LinksOf(after, interestId, chat) == LinksOf(before, interestId, chat) - {callback};
  }

  /** A removal keeps the callbacks of every other interest, of every other chat, and of every other user
      of the same chat, however alike their URLs are. */
  lemma TakesOneKeepsOthers(before: set<Callback>, after: set<Callback>, interestId: bytes, chat: Chat,
                            otherId: bytes, other: Chat)
    requires TakesOne(before, after, interestId, chat) && other.urlBase == chat.urlBase
    requires interestId != otherId || chat.chatId != other.chatId || other.userId !in {chat.userId, []}
    ensures other.Current(otherId) in after <==> other.Current(otherId) in before
  {
    if interestId == otherId {
      if other.Current(otherId) == chat.Current(interestId) {
        MakeIsInjective(chat.urlBase, chat.chatId, chat.userId, other.chatId, other.userId);
      }
      if other.Current(otherId) == chat.Legacy(interestId) {
        MakeIsInjective(chat.urlBase, chat.chatId, [], other.chatId, other.userId);
      }
    }
  }

  /** The callbacks say whom they are for: the current one the user of the chat, the legacy one, which names
      none, the Telegram user the chat belongs to. */
  lemma CallbacksName(chat: Chat, interestId: bytes)
    requires '?' !in chat.urlBase && '#' !in chat.urlBase
    ensures chat.Current(interestId).interestId == chat.Legacy(interestId).interestId == interestId
    ensures chat.userId != [] ==> ParseCallbackUrl(chat.Current(interestId).url) == Address(chat.chatId, chat.userId)
    ensures ParseCallbackUrl(chat.Legacy(interestId).url)
         == Address(chat.chatId, TelegramToAwakariUserId(chat.chatId))
    ensures chat.Current(interestId) == chat.Legacy(interestId) <==> chat.userId == []
  {
    ParseOfMake(chat.urlBase, chat.chatId, chat.userId);
    ParseOfMake(chat.urlBase, chat.chatId, []);
    if chat.userId != [] && chat.Current(interestId) == chat.Legacy(interestId) {
      MakeIsInjective(chat.urlBase, chat.chatId, chat.userId, chat.chatId, []);
    }
  }

  /** What a button shows and does: the description, an eye before it exactly when the interest is public and
      a tick after it exactly when it is ticked; pressed, it calls the list's command for this interest, or
      "stop" for a ticked one in a list for starting. */
  lemma ButtonShowsInterest(ticked: bool, btnCmd: bytes, i: Interest)
    requires ' ' !in btnCmd && ' ' !in i.id
    ensures var b, left := InterestButton(ticked, btnCmd, i), if i.isPublic then 5 else 0;
            && |b.text| == left + |i.description| + (if ticked then 4 else 0)
            && b.text[left..left + |i.description|] == i.description
            && (i.isPublic ==> HasPrefix(b.text, EYE)) && (ticked ==> HasSuffix(b.text, TICK))
    ensures var call := ReadCallback(InterestButton(ticked, btnCmd, i).data);
            && call.args == [i.id]
            && (ticked && btnCmd == "sub_start" ==> call.cmd == "sub_stop")
            && (!ticked || btnCmd != "sub_start" ==> call.cmd == btnCmd)
  {
    assert ' ' !in CMD_STOP;
    RowCallsItsCommand(btnCmd, i.id);
    RowCallsItsCommand(CMD_STOP, i.id);
  }

  /** The button of a followed interest stops it, and shows its description, with an eye when it is public, or
      its id when it could not be read. */
  lemma FollowedButtonStops(id: bytes, read: Option<Interest>)
    requires ' ' !in id
    ensures ReadCallback(FollowedButton(id, read).data) == Call("sub_stop", [id])
    ensures var text := FollowedButton(id, read).text;
            match read
            case None => |text| == 4 + |id| && HasSuffix(text, id)
            case Some(i) => && |text| == (if i.isPublic then 5 else 0) + |i.description|
                            && HasSuffix(text, i.description) && (i.isPublic ==> HasPrefix(text, EYE))
  {
    assert ' ' !in CMD_STOP;
    RowCallsItsCommand(CMD_STOP, id);
  }

  lemma UnlinkedTakesOne(entries: set<Callback>, interestId: bytes, chat: Chat)
    ensures if Linked(entries, interestId, chat)
            then TakesOne(entries, Unlinked(entries, interestId, chat), interestId, chat)
            else Unlinked(entries, interestId, chat) == entries
  {
    LinkedByEither(entries, interestId, chat);
    if chat.Current(interestId) in entries {
      assert chat.Current(interestId) in LinksOf(entries, interestId, chat);
    } else if chat.Legacy(interestId) in entries {
      assert chat.Legacy(interestId) in LinksOf(entries, interestId, chat);
    }
  }

  /** The registry after `n` removals. */
  function UnlinkedTimes(entries: set<Callback>, interestId: bytes, chat: Chat, n: nat): set<Callback> {
    if n == 0 then entries
    else Unlinked(UnlinkedTimes(entries, interestId, chat, n - 1), interestId, chat)
  }

  /** After `n` removals the interest is still linked exactly when there were more than `n` links: one
      removal leaves the legacy link of a chat that had both, and two removals always unlink. */
  lemma {:induction false} LinkedAfterRemovals(entries: set<Callback>, interestId: bytes, chat: Chat, n: nat)
    ensures Linked(UnlinkedTimes(entries, interestId, chat, n), interestId, chat)
        <==> n < |LinksOf(entries, interestId, chat)|
    ensures |LinksOf(entries, interestId, chat)| <= 2
    ensures n < |LinksOf(entries, interestId, chat)| ==>
              |LinksOf(UnlinkedTimes(entries, interestId, chat, n), interestId, chat)|
              == |LinksOf(entries, interestId, chat)| - n
  {
    var both := {chat.Current(interestId), chat.Legacy(interestId)};
    assert both == {chat.Current(interestId)} + {chat.Legacy(interestId)};
    assert |both| <= 2;
    SubsetSize(LinksOf(entries, interestId, chat), both);
    if n > 0 {
      LinkedAfterRemovals(entries, interestId, chat, n - 1);
      var before := UnlinkedTimes(entries, interestId, chat, n - 1);
      UnlinkedTakesOne(before, interestId, chat);
      if Linked(before, interestId, chat) {
        TakesOneLink(before, Unlinked(before, interestId, chat), interestId, chat);
      }
    }
  }

  lemma SubsetSize<T>(a: set<T>, b: set<T>)
    requires a <= b
    ensures |a| <= |b|
  {
    assert b == a + (b - a);
  }

  // ----- flood handlers at the same time -----

  /** How far a flood handler has come: nothing done yet, the current callback was not there to be removed,
      and done. */
  datatype Stage = Begun | CurrentMissing | Finished

  datatype Floods = Floods(entries: set<Callback>, handlers: seq<Stage>)

  predicate AllAt(handlers: seq<Stage>, stage: Stage) {
    forall k :: 0 <= k < |handlers| ==> handlers[k] == stage
  }

  /** A schedule of `n` handlers: who makes the next call. */
  predicate IsSchedule(schedule: seq<nat>, n: nat) {
    forall k :: 0 <= k < |schedule| ==> schedule[k] < n
  }

  /** One handler makes its next call to the registry. */
  function HandlerStep(s: Floods, interestId: bytes, chat: Chat, i: nat): Floods
    requires i < |s.handlers|
  {
    match s.handlers[i]
    case Begun =>
      if chat.Current(interestId) in s.entries
      then Floods(s.entries - {chat.Current(interestId)}, s.handlers[i := Finished])
      else s.(handlers := s.handlers[i := CurrentMissing])
    case CurrentMissing => Floods(s.entries - {chat.Legacy(interestId)}, s.handlers[i := Finished])
    case Finished => s
  }

  /** The handlers make their calls in the order of the schedule. */
  function Interleaved(s: Floods, interestId: bytes, chat: Chat, schedule: seq<nat>): (after: Floods)
    requires IsSchedule(schedule, |s.handlers|)
    ensures |after.handlers| == |s.handlers|
  {
    if schedule == [] then s
    else
      var before := Interleaved(s, interestId, chat, schedule[..|schedule| - 1]);
      HandlerStep(before, interestId, chat, schedule[|schedule| - 1])
  }

  function FinishedCount(handlers: seq<Stage>): nat {
    if handlers == [] then 0
    else FinishedCount(handlers[..|handlers| - 1]) + if handlers[|handlers| - 1].Finished? then 1 else 0
  }

  lemma {:induction false} FinishedCountAfter(handlers: seq<Stage>, i: nat, stage: Stage)
    requires i < |handlers| && !handlers[i].Finished?
    ensures FinishedCount(handlers[i := stage]) == FinishedCount(handlers) + if stage.Finished? then 1 else 0
  {
    var n := |handlers| - 1;
    if i < n {
      FinishedCountAfter(handlers[..n], i, stage);
      assert handlers[i := stage][..n] == handlers[..n][i := stage];
    } else {
      assert handlers[i := stage][..n] == handlers[..n];
    }
  }

  lemma {:induction false} AllFinishedCount(handlers: seq<Stage>)
    requires AllAt(handlers, Finished)
    ensures FinishedCount(handlers) == |handlers|
  {
    if handlers != [] {
      AllFinishedCount(handlers[..|handlers| - 1]);
    }
  }

  lemma {:induction false} NoneFinishedCount(handlers: seq<Stage>)
    requires AllAt(handlers, Begun)
    ensures FinishedCount(handlers) == 0
  {
    if handlers != [] {
      NoneFinishedCount(handlers[..|handlers| - 1]);
    }
  }

  /** In whatever order the calls of the handlers follow each other, at every moment the registry is as after
      that many whole removals as handlers have finished. */
  lemma {:induction false} InterleavingIsHarmless(s: Floods, interestId: bytes, chat: Chat, schedule: seq<nat>)
    requires AllAt(s.handlers, Begun)
    requires IsSchedule(schedule, |s.handlers|)
    ensures var after := Interleaved(s, interestId, chat, schedule);
            && after.entries == UnlinkedTimes(s.entries, interestId, chat, FinishedCount(after.handlers))
            && (CurrentMissing in after.handlers ==> chat.Current(interestId) !in after.entries)
  {
    if schedule == [] {
      NoneFinishedCount(s.handlers);
    } else {
      var earlier, i := schedule[..|schedule| - 1], schedule[|schedule| - 1];
      InterleavingIsHarmless(s, interestId, chat, earlier);
      StepIsHarmless(Interleaved(s, interestId, chat, earlier), interestId, chat, i);
    }
  }

  lemma StepIsHarmless(s: Floods, interestId: bytes, chat: Chat, i: nat)
    requires i < |s.handlers|
    requires CurrentMissing in s.handlers ==> chat.Current(interestId) !in s.entries
    ensures var after := HandlerStep(s, interestId, chat, i);
            && (CurrentMissing in after.handlers ==> chat.Current(interestId) !in after.entries)
            && (|| (after.entries == s.entries && FinishedCount(after.handlers) == FinishedCount(s.handlers))
                || (after.entries == Unlinked(s.entries, interestId, chat)
                    && FinishedCount(after.handlers) == FinishedCount(s.handlers) + 1))
  {
    var stage := s.handlers[i];
    assert stage in s.handlers;
    if stage.Begun? {
      FinishedCountAfter(s.handlers, i, Finished);
      FinishedCountAfter(s.handlers, i, CurrentMissing);
    } else if stage.CurrentMissing? {
      FinishedCountAfter(s.handlers, i, Finished);
    }
  }
}
