/**
 The callback URL a chat registers with the hub: printed by `MakeCallbackUrl`
 (api/http/subscriptions/subscription.go) and read back by the web hook handler
 (service/chats/handler.go), with the query-component percent-encoding of Go's `net/url`
 (section 2.1 of RFC 3986) between them.
 */
module CallbackUrl {
  import opened Bytes
  import opened Decimal

  const QUERY_KEY: bytes := "userId"
  const USER_ID_PREFIX: bytes := "tg://user?id="

  // ----- percent-encoding -----

  /** The bytes that `url.QueryEscape` leaves as they are. */
  predicate Unreserved(c: byte) {
    'a' <= c <= 'z' || 'A' <= c <= 'Z' || IsDigit(c) || c == '-' || c == '_' || c == '.' || c == '~'
  }

  function HexDigit(d: nat): (c: byte)
    requires d < 16
    ensures HexValue(c) == Some(d) && c == "0123456789ABCDEF"[d]
  {
    if d < 10 then (d + 48) as char else (d + 55) as char
  }

  function HexValue(c: byte): (v: Option<nat>)
    ensures v.Some? ==> v.value < 16
  {
    if IsDigit(c) then Some(c as int - 48)
    else if 'a' <= c <= 'f' then Some(c as int - 87)
    else if 'A' <= c <= 'F' then Some(c as int - 55)
    else None
  }

  function EscapeByte(c: byte): (s: bytes)
    ensures s != []
  {
    if c == ' ' then "+"
    else if Unreserved(c) then [c]
    else ['%', HexDigit(c as int / 16), HexDigit(c as int % 16)]
  }

  /** `url.QueryEscape`. */
  function QueryEscape(s: bytes): bytes {
    if s == [] then [] else EscapeByte(s[0]) + QueryEscape(s[1..])
  }

  /** `url.QueryUnescape`: an error when a percent sign is not followed by two hexadecimal digits. */
  function QueryUnescape(s: bytes): Option<bytes> {
    if s == [] then Some([])
    else if s[0] == '%' then
      if |s| < 3 || HexValue(s[1]).None? || HexValue(s[2]).None? then None
      else Prepend((16 * HexValue(s[1]).value + HexValue(s[2]).value) as char, QueryUnescape(s[3..]))
    else Prepend(if s[0] == '+' then ' ' else s[0], QueryUnescape(s[1..]))
  }

  function Prepend(c: byte, rest: Option<bytes>): Option<bytes> {
    if rest.None? then None else Some([c] + rest.value)
  }

  // ----- URLs -----

  /** `strings.Cut(s, c)`, with an empty second part when `c` is not there. */
  function Cut(s: bytes, c: byte): (bytes, bytes) {
    var i := IndexOf(s, c);
    if i == |s| then (s, []) else (s[..i], s[i + 1..])
  }

  /** The first value of `key` among the `&`-separated pairs of a query string, empty when there is
      none; a malformed pair is passed over, as `url.ParseQuery` does. */
  function FirstValue(pairs: seq<bytes>, key: bytes): bytes {
    if pairs == [] then []
    else
      var (k, v) := Cut(pairs[0], '=');
      if pairs[0] != [] && ';' !in pairs[0] && QueryUnescape(k) == Some(key) && QueryUnescape(v).Some?
      then QueryUnescape(v).value
      else FirstValue(pairs[1..], key)
  }

  /** `util.TelegramToAwakariUserId`. */
  function TelegramToAwakariUserId(id: int): bytes {
    USER_ID_PREFIX + FormatInt(id)
  }

  function MakeCallbackUrl(urlBase: bytes, chatId: int64, userId: bytes): bytes {
    urlBase + ['/'] + FormatInt(chatId)
    + (if userId == [] then [] else ['?'] + QUERY_KEY + ['='] + QueryEscape(userId))
  }

  datatype Address = Address(chatId: int, userId: bytes) | MissingChatId | InvalidChatId

  /** The chat and the user `DeliverMessages` takes from the `chatId` path segment and the query. */
  function ReadAddress(segment: bytes, query: bytes): Address {
    if segment == [] then MissingChatId
    else
      var id := ParseInt(segment);
      if !id.ok then InvalidChatId
      else
        var userId := FirstValue(Split(query, '&'), QUERY_KEY);
        Address(id.value, if userId == [] then TelegramToAwakariUserId(id.value) else userId)
  }

  /** The last path segment and the query of a URL: what is after `#` is dropped, the query starts at
      the first `?`. */
  function LastSegmentAndQuery(u: bytes): (bytes, bytes) {
    var (path, query) := Cut(Cut(u, '#').0, '?');
    var segments := Split(path, '/');
    (segments[|segments| - 1], query)
  }

  function ParseCallbackUrl(u: bytes): Address {
    var (segment, query) := LastSegmentAndQuery(u);
    ReadAddress(segment, query)
  }

  // ----- proofs -----

  /** Hexadecimal digits are read in both cases, and nothing else is one. */
  lemma HexValues(c: byte, d: nat)
    requires d < 16
    ensures HexValue(c) == Some(d)
       <==> || (d < 10 && c as int == '0' as int + d)
            || (d >= 10 && (c as int == 'a' as int + d - 10 || c as int == 'A' as int + d - 10))
  {
  }

  lemma {:induction false} UnescapeOfEscape(s: bytes)
    ensures QueryUnescape(QueryEscape(s)) == Some(s)
  {
    if s != [] {
      UnescapeOfEscape(s[1..]);
      var head, tail := EscapeByte(s[0]), QueryEscape(s[1..]);
      assert QueryEscape(s) == head + tail;
      assert (head + tail)[|head|..] == tail;
      assert [s[0]] + s[1..] == s;
    }
  }

  /** A plus sign in escaped text stands for a space, and every space becomes one. */
  lemma {:induction false} PlusMeansSpace(s: bytes)
    ensures '+' in QueryEscape(s) <==> ' ' in s
  {
    if s != [] {
      PlusMeansSpace(s[1..]);
      assert '+' in EscapeByte(s[0]) <==> s[0] == ' ';
      assert s == [s[0]] + s[1..];
    }
  }

  /** Escaped text holds none of the bytes that have a meaning in a URL. */
  lemma {:induction false} EscapedIsPlain(s: bytes)
    ensures forall c <- QueryEscape(s) :: Unreserved(c) || c == '+' || c == '%'
  {
    if s != [] {
      EscapedIsPlain(s[1..]);
      assert forall c <- EscapeByte(s[0]) :: Unreserved(c) || c == '+' || c == '%';
    }
  }

  lemma CutAt(a: bytes, c: byte, b: bytes)
    requires c !in a
    ensures Cut(a + [c] + b, c) == (a, b)
  {
    var s := a + [c] + b;
    assert s[..|a|] == a && s[|a| + 1..] == b;
    IndexOfUnique(s, c, |a|);
  }

  lemma CutNowhere(a: bytes, c: byte)
    requires c !in a
    ensures Cut(a, c) == (a, [])
  {
    IndexOfUnique(a, c, |a|);
  }

  /** The part after the last separator is what follows it. */
  lemma {:induction false} LastOfSplit(a: bytes, b: bytes, sep: byte)
    requires sep !in b
    ensures var parts := Split(a + [sep] + b, sep); parts[|parts| - 1] == b
    decreases |a|
  {
    var s := a + [sep] + b;
    var i := IndexOf(a, sep);
    if i == |a| {
      SplitCons(a, b, sep);
      SplitNone(b, sep);
    } else {
      assert a == a[..i] + [sep] + a[i + 1..];
      assert s == a[..i] + [sep] + (a[i + 1..] + [sep] + b);
      SplitCons(a[..i], a[i + 1..] + [sep] + b, sep);
      LastOfSplit(a[i + 1..], b, sep);
    }
  }

  lemma PairIsPlain(key: bytes, value: bytes, c: byte)
    requires forall k <- key :: Unreserved(k)
    requires !Unreserved(c) && c != '+' && c != '%' && c != '='
    ensures c !in key + ['='] + QueryEscape(value)
  {
    EscapedIsPlain(value);
  }

  lemma ReadsPair(key: bytes, value: bytes)
    requires key != [] && forall c <- key :: Unreserved(c)
    ensures FirstValue([key + ['='] + QueryEscape(value)], key) == value
  {
    PairIsPlain(key, value, ';');
    assert '=' !in key;
    CutAt(key, '=', QueryEscape(value));
    UnescapeOfEscape(value);
    UnescapeOfEscape(key);
    PlainUnchanged(key);
  }

  lemma ReadsValue(key: bytes, value: bytes)
    requires key != [] && forall c <- key :: Unreserved(c)
    ensures FirstValue(Split(key + ['='] + QueryEscape(value), '&'), key) == value
  {
    PairIsPlain(key, value, '&');
    SplitNone(key + ['='] + QueryEscape(value), '&');
    ReadsPair(key, value);
  }

  lemma {:induction false} PlainUnchanged(s: bytes)
    requires forall c <- s :: Unreserved(c)
    ensures QueryEscape(s) == s
  {
    if s != [] {
      assert s[0] in s && forall c <- s[1..] :: c in s;
      PlainUnchanged(s[1..]);
      assert QueryEscape(s) == [s[0]] + QueryEscape(s[1..]);
    }
  }

  /** The query part of a callback URL, empty when there is no user. */
  function UserQuery(userId: bytes): bytes {
    if userId == [] then [] else QUERY_KEY + ['='] + QueryEscape(userId)
  }

  lemma ReadsUserId(userId: bytes)
    ensures FirstValue(Split(UserQuery(userId), '&'), QUERY_KEY) == userId
  {
    if userId == [] {
      SplitNone([], '&');
      CutNowhere([], '=');
    } else {
      ReadsValue(QUERY_KEY, userId);
    }
  }

  lemma UserQueryIsPlain(userId: bytes)
    ensures '#' !in UserQuery(userId) && '?' !in UserQuery(userId)
  {
    EscapedIsPlain(userId);
    assert '#' !in QUERY_KEY && '?' !in QUERY_KEY;
  }

  lemma SegmentAndQueryOf(urlBase: bytes, segment: bytes, query: bytes)
    requires '?' !in urlBase && '#' !in urlBase
    requires '?' !in segment && '#' !in segment && '/' !in segment
    requires '#' !in query
    ensures LastSegmentAndQuery(urlBase + ['/'] + segment) == (segment, [])
    ensures LastSegmentAndQuery(urlBase + ['/'] + segment + ['?'] + query) == (segment, query)
  {
    var path := urlBase + ['/'] + segment;
    CutNowhere(path, '#');
    CutNowhere(path, '?');
    CutNowhere(path + ['?'] + query, '#');
    CutAt(path, '?', query);
    LastOfSplit(urlBase, segment, '/');
  }

  lemma MakeAsSegmentAndQuery(urlBase: bytes, chatId: int64, userId: bytes)
    ensures var path := urlBase + ['/'] + FormatInt(chatId);
            MakeCallbackUrl(urlBase, chatId, userId) == if userId == [] then path else path + ['?'] + UserQuery(userId)
  {
    var path := urlBase + ['/'] + FormatInt(chatId);
    if userId == [] {
      assert path + [] == path;
    } else {
      assert path + (['?'] + QUERY_KEY + ['='] + QueryEscape(userId)) == path + ['?'] + UserQuery(userId);
    }
  }

  lemma SegmentAndQueryOfMake(urlBase: bytes, chatId: int64, userId: bytes)
    requires '?' !in urlBase && '#' !in urlBase
    ensures LastSegmentAndQuery(MakeCallbackUrl(urlBase, chatId, userId)) == (FormatInt(chatId), UserQuery(userId))
  {
    var segment, query := FormatInt(chatId), UserQuery(userId);
    UserQueryIsPlain(userId);
    SegmentIsPlain(chatId);
    SegmentAndQueryOf(urlBase, segment, query);
    MakeAsSegmentAndQuery(urlBase, chatId, userId);
  }

  lemma SegmentIsPlain(chatId: int64)
    ensures '?' !in FormatInt(chatId) && '#' !in FormatInt(chatId) && '/' !in FormatInt(chatId)
  {
  }

  /** The handler reads back the chat and the user that the URL was made for; a URL made without a
      user stands for the chat's own Telegram user. */
  lemma ParseOfMake(urlBase: bytes, chatId: int64, userId: bytes)
    requires '?' !in urlBase && '#' !in urlBase
    ensures ParseCallbackUrl(MakeCallbackUrl(urlBase, chatId, userId))
         == Address(chatId, if userId == [] then TelegramToAwakariUserId(chatId) else userId)
  {
    SegmentAndQueryOfMake(urlBase, chatId, userId);
    ParseOfFormat(chatId);
    ReadsUserId(userId);
  }

  /** For one base, whatever bytes it holds, two URLs are equal only when they are for the same chat
      and the same user; in particular a chat's URL with and without a user differ. */
  lemma MakeIsInjective(urlBase: bytes, chatId: int64, userId: bytes, chatId': int64, userId': bytes)
    requires MakeCallbackUrl(urlBase, chatId, userId) == MakeCallbackUrl(urlBase, chatId', userId')
    ensures chatId == chatId' && userId == userId'
  {
    SuffixOfMake(urlBase, chatId, userId);
    SuffixOfMake(urlBase, chatId', userId');
    ParseOfMake([], chatId, userId);
    ParseOfMake([], chatId', userId');
    HasQueryMark(chatId, userId);
    HasQueryMark(chatId', userId');
  }

  lemma SuffixOfMake(urlBase: bytes, chatId: int64, userId: bytes)
    ensures MakeCallbackUrl(urlBase, chatId, userId)[|urlBase|..] == MakeCallbackUrl([], chatId, userId)
  {
  }

  lemma HasQueryMark(chatId: int64, userId: bytes)
    ensures '?' in MakeCallbackUrl([], chatId, userId) <==> userId != []
  {
    if userId != [] {
      assert MakeCallbackUrl([], chatId, userId)[1 + |FormatInt(chatId)|] == '?';
    }
  }

  // ----- queries with several parameters -----

  /** `key=value` pairs as a query is written. */
  function PairsOf(params: seq<(bytes, bytes)>): (pairs: seq<bytes>)
    ensures |pairs| == |params|
  {
    if params == [] then []
    else [QueryEscape(params[0].0) + ['='] + QueryEscape(params[0].1)] + PairsOf(params[1..])
  }

  /** The value of the first parameter with the key, empty when there is none. */
  function FirstParam(params: seq<(bytes, bytes)>, key: bytes): bytes {
    if params == [] then []
    else if params[0].0 == key then params[0].1
    else FirstParam(params[1..], key)
  }

  lemma EscapedPairHasNo(k: bytes, v: bytes, c: byte)
    requires !Unreserved(c) && c != '+' && c != '%'
    ensures c !in QueryEscape(k) && c !in QueryEscape(v)
    ensures c != '=' ==> c !in QueryEscape(k) + ['='] + QueryEscape(v)
  {
    EscapedIsPlain(k);
    EscapedIsPlain(v);
  }

  lemma PairIsRead(param: (bytes, bytes), rest: seq<bytes>, key: bytes)
    ensures var pair := QueryEscape(param.0) + ['='] + QueryEscape(param.1);
            FirstValue([pair] + rest, key) == if param.0 == key then param.1 else FirstValue(rest, key)
  {
    var pair := QueryEscape(param.0) + ['='] + QueryEscape(param.1);
    EscapedPairHasNo(param.0, param.1, '=');
    EscapedPairHasNo(param.0, param.1, ';');
    CutAt(QueryEscape(param.0), '=', QueryEscape(param.1));
    UnescapeOfEscape(param.0);
    UnescapeOfEscape(param.1);
    var all := [pair] + rest;
    assert all[0] == pair && all[1..] == rest && pair != [];
  }

  lemma {:induction false} PairsAreRead(params: seq<(bytes, bytes)>, key: bytes)
    ensures FirstValue(PairsOf(params), key) == FirstParam(params, key)
    ensures forall p <- PairsOf(params) :: '&' !in p
  {
    if params != [] {
      PairIsRead(params[0], PairsOf(params[1..]), key);
      EscapedPairHasNo(params[0].0, params[0].1, '&');
      PairsAreRead(params[1..], key);
    }
  }

  /** From a query of any parameters the handler takes the value of the first with its key, as it was before it
      was escaped; no parameter and no character in one can be taken for another. */
  lemma QueryIsRead(params: seq<(bytes, bytes)>, key: bytes)
    ensures FirstValue(Split(Join(PairsOf(params), '&'), '&'), key) == FirstParam(params, key)
  {
    PairsAreRead(params, key);
    if params == [] {
      SplitNone([], '&');
      CutNowhere([], '=');
    } else {
      SplitOfJoin(PairsOf(params), '&');
    }
  }

  /** A pair that is empty, has a semicolon or is not properly escaped is passed over. */
  lemma MalformedIsPassedOver(pair: bytes, rest: seq<bytes>, key: bytes)
    requires pair == [] || ';' in pair || QueryUnescape(Cut(pair, '=').0).None? || QueryUnescape(Cut(pair, '=').1).None?
    ensures FirstValue([pair] + rest, key) == FirstValue(rest, key)
  {
  }

  /** A path segment is accepted exactly when it is the numeral of a 64-bit integer, which is the chat; an empty
      one is reported apart. */
  lemma AddressIsRead(segment: bytes, query: bytes)
    ensures ReadAddress(segment, query).Address? <==> exists n: int64 :: Denotes(segment, n)
    ensures ReadAddress(segment, query).Address? ==> Denotes(segment, ReadAddress(segment, query).chatId)
    ensures ReadAddress(segment, query).MissingChatId? <==> segment == []
  {
    ParseMeans(segment);
  }
}
