/**
 The text protocol between the bot and its own buttons and reply prompts: what
 service/subscriptions/list.go prints into a button, cut at Telegram's 64 bytes, and what
 service/callback.go, service/root.go and the command handlers read back.
 */
module Buttons {
  import opened Bytes
  import opened Decimal

  const CMD_LIMIT := 64
  const PAGE_LIMIT := 10
  const CMD_START: bytes := "sub_start"
  const CMD_STOP: bytes := "sub_stop"
  const CMD_PAGE_NEXT: bytes := "subs_next"
  const CMD_PAGE_NEXT_FOLLOWING: bytes := "following_next"
  const PUBLIC: bytes := "public"

  datatype Interest = Interest(id: bytes, description: bytes, isPublic: bool, followers: int64)

  // ----- printing -----

  function Take(s: bytes, n: nat): bytes {
    if |s| > n then s[..n] else s
  }

  /** What follows the two commands in a "Next Page" button: the id and the printed count. */
  function CursorText(id: bytes, count: bytes, isPublic: bool): bytes {
    id + [' '] + CountText(count, isPublic)
  }

  function CountText(count: bytes, isPublic: bool): bytes {
    count + (if isPublic then [' '] + PUBLIC else [])
  }

  /** The data of the "Next Page" button below the listed interests. */
  function NextPageData(btnCmd: bytes, id: bytes, followers: int64, isPublic: bool): bytes {
    Take(CMD_PAGE_NEXT + [' '] + btnCmd + [' '] + CursorText(id, FormatInt(followers), isPublic), CMD_LIMIT)
  }

  /** The data of the "Next Page" button below the followed interests. */
  function NextFollowingData(id: bytes): bytes {
    Take(CMD_PAGE_NEXT_FOLLOWING + [' '] + id, CMD_LIMIT)
  }

  /** The data of an interest's own button. */
  function RowData(cmd: bytes, id: bytes): bytes {
    cmd + [' '] + id
  }

  // ----- reading -----

  datatype Call = Call(cmd: bytes, args: seq<bytes>)

  /** `Callback`: the command and the arguments found in a pressed button's data. */
  function ReadCallback(data: bytes): Call {
    var parts := Split(data, ' ');
    Call(parts[0], parts[1..])
  }

  /** `handleReply`: the command and the arguments found in a prompt and the text replied to it. */
  function ReadReply(prompt: bytes, reply: bytes): Call {
    var parts := Split(prompt, ' ');
    Call(parts[0], parts + [reply])
  }

  /** The page that `PageNext` asks for. */
  datatype PageRequest = PageRequest(btnCmd: bytes, id: bytes, followers: int, isPublic: bool)

  function ReadPageNext(args: seq<bytes>): PageRequest
    requires args != []
  {
    if |args| > 2 then PageRequest(args[0], args[1], ParseInt(args[2]).value, |args| > 3)
    else PageRequest(args[0], [], 0, false)
  }

  function ReadPageNextFollowing(args: seq<bytes>): bytes {
    if args == [] then [] else args[0]
  }

  /** What `StartHandler` does with its arguments: ask for an interval, subscribe, or complain. */
  datatype StartCall = AskInterval(id: bytes) | Subscribe(id: bytes, interval: bytes) | WrongArguments

  function ReadStart(args: seq<bytes>): StartCall {
    if |args| == 1 then AskInterval(args[0])
    else if |args| == 3 then Subscribe(args[1], args[2])
    else WrongArguments
  }

  // ----- the next page button -----

  /** When the button of a "sub_start" list carries the cursor and the flag past the cut: the id has no
      space, and the id and the follower count fit, with one byte to spare for a public list, where
      the space before a cut "public" is enough. The zero count is the one text that may be cut. */
  predicate CursorFits(id: bytes, followers: int64, isPublic: bool) {
    && ' ' !in id
    && (if isPublic then |id| + |FormatInt(followers)| <= 42
        else |id| + |FormatInt(followers)| <= 43 || (followers == 0 && |id| == 43))
  }

  lemma ReadTwoCommands(a: bytes, b: bytes, rest: bytes, limit: nat)
    requires ' ' !in a && ' ' !in b && |a| + |b| + 2 <= limit
    ensures ReadCallback(Take(a + [' '] + b + [' '] + rest, limit))
         == Call(a, [b] + Split(Take(rest, limit - |a| - |b| - 2), ' '))
  {
    var cut := Take(rest, limit - |a| - |b| - 2);
    assert Take(a + [' '] + b + [' '] + rest, limit) == a + [' '] + (b + [' '] + cut);
    SplitCons(a, b + [' '] + cut, ' ');
    SplitCons(b, cut, ' ');
  }

  /** The first twenty bytes, both commands and their spaces, are never cut. */
  lemma ReadCutCursor(id: bytes, followers: int64, isPublic: bool)
    ensures ReadCallback(NextPageData(CMD_START, id, followers, isPublic))
         == Call(CMD_PAGE_NEXT, [CMD_START] + Split(Take(CursorText(id, FormatInt(followers), isPublic), 44), ' '))
  {
    assert |CMD_PAGE_NEXT| == 9 && |CMD_START| == 9;
    assert ' ' !in CMD_PAGE_NEXT && ' ' !in CMD_START;
    ReadTwoCommands(CMD_PAGE_NEXT, CMD_START, CursorText(id, FormatInt(followers), isPublic), CMD_LIMIT);
  }

  lemma TakeAfter(a: bytes, b: bytes, k: nat)
    ensures Take(a + b, |a| + k) == a + Take(b, k)
  {
  }

  lemma SplitAfter(a: bytes, b: bytes, n: nat, k: nat)
    requires ' ' !in a && n == |a| + 1 + k
    ensures Split(Take(a + [' '] + b, n), ' ') == [a] + Split(Take(b, k), ' ')
  {
    TakeAfter(a + [' '], b, k);
    SplitCons(a, Take(b, k), ' ');
  }

  /** The pieces of a cut count and flag: the flag can only be told when the whole count and the space after it
      are left. */
  lemma PiecesOfCount(count: bytes, isPublic: bool, k: nat)
    requires ' ' !in count
    ensures var r := Split(Take(CountText(count, isPublic), k), ' ');
            r[0] == Take(count, k) && (|r| > 1 <==> isPublic && |count| < k)
  {
    if isPublic && |count| < k {
      assert CountText(count, isPublic) == count + [' '] + PUBLIC;
      SplitAfter(count, PUBLIC, k, k - |count| - 1);
    } else {
      assert Take(CountText(count, isPublic), k) == Take(count, k);
      SplitNone(Take(count, k), ' ');
    }
  }

  /** The pieces of a cursor whose id was cut or holds a space begin with another one, or are only one. */
  lemma PiecesOfOtherId(id: bytes, count: bytes, isPublic: bool)
    requires ' ' in id || |id| >= 44
    ensures var q := Split(Take(CursorText(id, count, isPublic), 44), ' ');
            id != [] && (|q| > 1 ==> q[0] != id)
  {
    var cut := Take(CursorText(id, count, isPublic), 44);
    JoinOfSplit(cut, ' ');
    if ' ' !in id {
      assert cut == id[..44];
      SplitNone(cut, ' ');
    }
  }

  lemma ReadWholeId(cmd: bytes, id: bytes, r: seq<bytes>, followers: int64, isPublic: bool)
    requires r != []
    ensures ReadPageNext([cmd] + ([id] + r)) == PageRequest(cmd, id, followers, isPublic)
        <==> ParseInt(r[0]).value == followers && (|r| > 1) == isPublic
  {
    assert ([cmd] + ([id] + r))[1] == id && ([cmd] + ([id] + r))[2] == r[0];
  }

  lemma ReadOtherId(cmd: bytes, id: bytes, q: seq<bytes>, followers: int64, isPublic: bool)
    requires q != [] && id != [] && (|q| > 1 ==> q[0] != id)
    ensures ReadPageNext([cmd] + q) != PageRequest(cmd, id, followers, isPublic)
  {
    if |q| > 1 {
      assert ([cmd] + q)[1] == q[0];
    }
  }

  /** The first `k` bytes of a count are read as the count exactly when they are all of it, or it is zero. */
  lemma CutCountIsRead(followers: int64, k: nat)
    ensures ParseInt(Take(FormatInt(followers), k)).value == followers
        <==> |FormatInt(followers)| <= k || (followers == 0 && k == 0)
  {
    if k < |FormatInt(followers)| {
      CutNumberDiffers(followers, k);
    } else {
      ParseOfFormat(followers);
    }
  }

  lemma PiecesOfWholeId(id: bytes, count: bytes, isPublic: bool) returns (r: seq<bytes>)
    requires ' ' !in id && ' ' !in count && |id| < 44
    ensures Split(Take(CursorText(id, count, isPublic), 44), ' ') == [id] + r
    ensures r != [] && r[0] == Take(count, 43 - |id|) && (|r| > 1 <==> isPublic && |count| < 43 - |id|)
  {
    var k := 43 - |id|;
    SplitAfter(id, CountText(count, isPublic), 44, k);
    PiecesOfCount(count, isPublic, k);
    r := Split(Take(CountText(count, isPublic), k), ' ');
  }

  lemma ReadCutOtherId(cmd: bytes, id: bytes, count: bytes, followers: int64, isPublic: bool)
    requires ' ' in id || |id| >= 44
    ensures ReadPageNext([cmd] + Split(Take(CursorText(id, count, isPublic), 44), ' '))
            != PageRequest(cmd, id, followers, isPublic)
  {
    PiecesOfOtherId(id, count, isPublic);
    ReadOtherId(cmd, id, Split(Take(CursorText(id, count, isPublic), 44), ' '), followers, isPublic);
  }

  lemma ReadCutRequest(cmd: bytes, id: bytes, followers: int64, isPublic: bool)
    ensures ReadPageNext([cmd] + Split(Take(CursorText(id, FormatInt(followers), isPublic), 44), ' '))
            == PageRequest(cmd, id, followers, isPublic)
        <==> CursorFits(id, followers, isPublic)
  {
    if ' ' !in id && |id| < 44 {
      var r := PiecesOfWholeId(id, FormatInt(followers), isPublic);
      ReadWholeId(cmd, id, r, followers, isPublic);
      CutCountIsRead(followers, 43 - |id|);
    } else {
      ReadCutOtherId(cmd, id, FormatInt(followers), followers, isPublic);
    }
  }

  /** Pressing the "Next Page" button asks for exactly the page that was printed on it, if and only if
      the cursor fits. */
  lemma NextPageSurvivesCut(id: bytes, followers: int64, isPublic: bool)
    ensures var call := ReadCallback(NextPageData(CMD_START, id, followers, isPublic));
            call.args != [] && (ReadPageNext(call.args) == PageRequest(CMD_START, id, followers, isPublic)
            <==> CursorFits(id, followers, isPublic))
  {
    ReadCutCursor(id, followers, isPublic);
    ReadCutRequest(CMD_START, id, followers, isPublic);
  }

  /** A button whose id fills what is left of it after the commands asks for the first page again. */
  lemma LongIdRestarts(id: bytes, followers: int64, isPublic: bool)
    requires ' ' !in id && |id| >= 44
    ensures var args := ReadCallback(NextPageData(CMD_START, id, followers, isPublic)).args;
            args != [] && ReadPageNext(args) == PageRequest(CMD_START, [], 0, false)
  {
    ReadCutCursor(id, followers, isPublic);
    assert Take(CursorText(id, FormatInt(followers), isPublic), 44) == id[..44];
    SplitNone(id[..44], ' ');
  }

  /** No button has more than 64 bytes of data. */
  lemma ButtonsFit(btnCmd: bytes, id: bytes, followers: int64, isPublic: bool)
    ensures |NextPageData(btnCmd, id, followers, isPublic)| <= 64 && |NextFollowingData(id)| <= 64
  {
  }

  /** The request that follows a run of full pages, each reached by pressing the button below the one
      before it. */
  function AfterPages(first: PageRequest, pages: seq<seq<Interest>>): PageRequest
    requires forall p <- pages :: |p| == PAGE_LIMIT
  {
    if pages == [] then first
    else
      var request := AfterPages(first, pages[..|pages| - 1]);
      var last := pages[|pages| - 1][PAGE_LIMIT - 1];
      var call := ReadCallback(NextPageData(request.btnCmd, last.id, last.followers, request.isPublic));
      if call.args == [] then request else ReadPageNext(call.args)
  }

  /** However long the ids on the pages are, every page of a "sub_start" list has "sub_start" buttons. */
  lemma {:induction false} PagesKeepCommand(first: PageRequest, pages: seq<seq<Interest>>)
    requires forall p <- pages :: |p| == PAGE_LIMIT
    requires first.btnCmd == CMD_START
    ensures AfterPages(first, pages).btnCmd == CMD_START
  {
    if pages != [] {
      PagesKeepCommand(first, pages[..|pages| - 1]);
      var request := AfterPages(first, pages[..|pages| - 1]);
      var last := pages[|pages| - 1][PAGE_LIMIT - 1];
      ReadCutCursor(last.id, last.followers, request.isPublic);
    }
  }

  predicate LastFits(page: seq<Interest>, isPublic: bool) {
    page != [] && CursorFits(page[|page| - 1].id, page[|page| - 1].followers, isPublic)
  }

  /** When the last interest of every page fits its button, each press continues after the last interest
      of the page before, in the same kind of list. */
  lemma {:induction false} PagesKeepCursor(first: PageRequest, pages: seq<seq<Interest>>)
    requires forall p <- pages :: |p| == PAGE_LIMIT
    requires forall p <- pages :: LastFits(p, first.isPublic)
    requires first.btnCmd == CMD_START && pages != []
    ensures var last := pages[|pages| - 1][PAGE_LIMIT - 1];
            AfterPages(first, pages) == PageRequest(CMD_START, last.id, last.followers, first.isPublic)
  {
    if |pages| > 1 {
      var before := pages[..|pages| - 1];
      assert forall p <- before :: p in pages;
      PagesKeepCursor(first, before);
    }
    assert LastFits(pages[|pages| - 1], first.isPublic);
    var last := pages[|pages| - 1][PAGE_LIMIT - 1];
    NextPageSurvivesCut(last.id, last.followers, first.isPublic);
  }

  // ----- the other texts -----

  /** The "Next Page" button of the followed list keeps its cursor if and only if the id has no space
      and at most 49 bytes. */
  lemma NextFollowingSurvivesCut(id: bytes)
    ensures var call := ReadCallback(NextFollowingData(id));
            call.cmd == CMD_PAGE_NEXT_FOLLOWING
            && (ReadPageNextFollowing(call.args) == id <==> ' ' !in id && |id| <= 49)
  {
    var cut := Take(id, 49);
    assert |CMD_PAGE_NEXT_FOLLOWING| == 14 && ' ' !in CMD_PAGE_NEXT_FOLLOWING;
    assert NextFollowingData(id) == CMD_PAGE_NEXT_FOLLOWING + [' '] + cut;
    SplitCons(CMD_PAGE_NEXT_FOLLOWING, cut, ' ');
    JoinOfSplit(cut, ' ');
    if ' ' !in id {
      SplitNone(cut, ' ');
    }
  }

  /** The button of an interest calls its command for that interest if and only if the id has no space. */
  lemma RowCallsItsCommand(cmd: bytes, id: bytes)
    requires ' ' !in cmd
    ensures var call := ReadCallback(RowData(cmd, id));
            call.cmd == cmd && (call.args == [id] <==> ' ' !in id)
  {
    SplitCons(cmd, id, ' ');
    JoinOfSplit(id, ' ');
    if ' ' !in id {
      SplitNone(id, ' ');
    }
  }

  /** The two steps of a subscription: the interest's button asks for the interval of that interest, and
      the reply to the prompt, kept whole with its spaces, subscribes to that interest; both happen if
      and only if the id has no space. */
  lemma StartDialogue(id: bytes, reply: bytes)
    ensures ReadStart(ReadCallback(RowData(CMD_START, id)).args) == AskInterval(id) <==> ' ' !in id
    ensures ReadReply(RowData(CMD_START, id), reply).cmd == CMD_START
    ensures ReadStart(ReadReply(RowData(CMD_START, id), reply).args) == Subscribe(id, reply) <==> ' ' !in id
  {
    assert ' ' !in CMD_START;
    RowCallsItsCommand(CMD_START, id);
    SplitCons(CMD_START, id, ' ');
    JoinOfSplit(id, ' ');
    var parts := Split(id, ' ');
    assert ReadReply(RowData(CMD_START, id), reply).args == [CMD_START] + parts + [reply];
    if |parts| == 1 {
      assert parts[0] == id;
    }
  }
}
