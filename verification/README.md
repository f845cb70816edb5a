# A verified model of bot-telegram

bot-telegram is a Telegram front end of Awakari: it delivers the events that match a user's interests to
chats, lets chats subscribe and unsubscribe through buttons, lists source channels, publishes messages as
events, and keeps paid limits in step with channel memberships. This project models the parts of it whose
guarantees run over whole histories, arbitrary text or trees, and proves them with Dafny 4.11:

    dafny verify dfyconfig.toml

## What is modelled

A Go string is a sequence of bytes (`Bytes`); a byte is written as a character below U+0100 so that literals
can be used. Remote services appear as arbitrary answers: a parameter that says what Telegram, the registry or
the stream would answer, or a nondeterministic choice. Code that updates state step by step is a method with a
loop or a class with fields; its postcondition names a specification function or relation, and the lemmas
are about that.

- `Delivery`, `Hub`, `Handler` - one post of events to a chat, whole runs of posts by a WebSub hub (section 7
  of the W3C WebSub recommendation), and the web hook around them. The `X-Ack-Count` header is an extension of
  this system. Two assumptions: after a 200 the hub drops exactly the acknowledged events from the front and
  otherwise none; an attempt that Telegram did not accept did not reach the chat. The flood handlers a call
  starts run at the same time, their registry calls in any order.
- `Channels`, `Walks` - one page of the channel list, and walks from page to page while the channel map changes
  arbitrarily between calls. An empty cursor means the beginning, so a page that ends with an empty link sends
  a walk back. A pattern that does not compile is reported as an error and still lists every channel, as in
  the source.
- `Paid` - the reconciliation of paid memberships, with both map iterations in arbitrary order and every
  remote call allowed to fail; a failed membership lookup and an unknown user make the source panic.
- `Utf8`, `Trim`, `Format` - well-formed UTF-8 (sections 3 and 4 of RFC 3629), `strings.TrimSpace`, truncation,
  tags and the body of a message. The two HTML sanitizers are arbitrary functions.
- `Conditions` - the codec between the bot's condition trees and the ones on the wire, and the validator.
- `Decimal`, `CallbackUrl`, `Buttons`, `Links` - decimal numbers, percent-encoding (section 2.1 of RFC 3986),
  callback URLs, button data with its 64-byte cut, reply prompts, and the registry of callbacks with current
  and legacy URLs, whose calls may fail for any reason.
- `Attachments` - a Telegram message turned into an event and back. The attribute names are an enumeration.
- `Queue` - the receive and acknowledge protocol of the queue client.

Some properties one would expect hold only under a condition, which is then stated exactly:

- A "Next Page" button survives the 64-byte cut exactly under `Buttons.CursorFits`. A public list needs one byte
  less of id and count, since the space before a cut "public" is enough; a follower count of zero may be cut
  off entirely, because an unreadable count is read as zero.
- A flood in HTML starts the flood handler three times and one in plain text twice, which also removes a
  legacy link; a flood in raw text starts it once and leaves the legacy link of a chat that had both.
- `decode(encode(c))` is not always `c`: semantic ids are erased, unknown operations become undefined, and the
  logic of a group, 64 bits wide in the bot, is cut to 32 bits. So the validator can change its mind after a round
  trip; `Conditions.VerdictAfterRoundTrip` says when, and `Conditions.WrappedLogicFlipsVerdict` shows an instance.
- The counts acknowledged to the queue add up to the messages consumed exactly when no batch has 2^32 messages,
  as a count is cut to 32 bits. `ReceiveMessages` also returns no error after a failure that carries the code OK.
- A run without failures leaves a user in some paid channel exactly when one of the user's channels has a limit
  that is not negative (the maximum in the source starts at zero) or two of them have the same limit (only one
  for each limit is removed in a run).
- Runs without failures end in one state, whatever the map orders, exactly when no two of the user's channels
  below the highest limit have the same limit.
- On an unchanging map whose links may be empty, a walk returns links in strict order exactly when no page but
  the last ends with the empty link; a map without empty links never sends a walk back.

## Model

| member | source | states |
|---|---|---|
| Delivery.Deliver | service/chats/handler.go:145-231 | The loop over the events, with its early exits, delivers a run of events one ladder each, ends at the first that is not delivered, and returns the count, the error, the attempts, the flood handlers started and the removals of exactly that run |
| Delivery.SendEvent | service/chats/handler.go:181-214 | One event is tried in HTML, plain and raw; a 403 is recognised in HTML only and asks for the removal of the current callback, then of the legacy one when that failed |
| Delivery.AckMeaning | service/chats/handler.go:163-229 | The events that reached the chat are the acknowledged ones, in order, except perhaps the last, which then failed in all three modes and is the only one that did |
| Delivery.AttemptsAreLadders | service/chats/handler.go:181-214 | Each event's attempts are a prefix of HTML, plain, raw that stops at the first success, flood or HTML 403, only a success is followed by another event, and each attempt has the answer to its event in its mode |
| Delivery.FloodHandlers | service/chats/handler.go:184-226 | The flood handler is started three times, twice or once, by the flooded stage, and a flood is the last attempt of the call |
| Delivery.CallEndsFor | service/chats/handler.go:163-229 | Read off the attempts: only a 403 in HTML asks for removals, of the current callback and then, if that failed, of the legacy one, and is an error only if both failed; any other failure is the error returned; otherwise all events were delivered or the next one does not decode |
| Hub.DeliveredInOrderAtMostOnce | service/chats/handler.go:133-140 | Over any run of posts: acknowledged and pending events together are the original stream; events reach the chat in order and at most once; an acknowledged event did not reach it exactly when all three modes failed without a flood |
| Hub.StepKeepsInv | service/chats/handler.go:133-140 | One post of any size with any answers keeps the invariant of the run |
| Hub.PostMakesProgress | service/chats/handler.go:133-140 | A post shortens the pending events exactly when its first event is delivered or given up on; when exactly it is answered with 500, and that nothing reached the chat then |
| Hub.RunDrains | service/chats/handler.go:133-140 | Posts whose first event is never stuck empty the hub in at most as many posts as there are events |
| Handler.FindTopic | service/chats/handler.go:80-89 | The loop finds the topic of the last self link |
| Handler.DeliverMessages | service/chats/handler.go:78-143 | Exactly when the request is answered with 400, and that it sends and removes nothing then; otherwise the delivery is for the target read from the request and the answer is its acknowledged count, or 500, and then nothing reached the chat |
| Handler.InterestOfTopic | service/chats/handler.go:67-104 | A subscription's own topic is confirmed, and its interest is read back if and only if the id has no slash |
| Handler.TopicOfSelfLink | service/chats/handler.go:80-89 | The self link for a topic is read back as that topic, whatever links come before it and whatever other links come after it; without a self link there is no topic |
| Handler.ConfirmedTopics | service/chats/handler.go:67-76 | The challenge is echoed exactly for the topics that continue the service's prefix |
| Handler.SubscribedTargetIsFound | service/chats/handler.go:80-121 | A post with the interest's self link to the URL a chat subscribed with is for that interest, chat and user, and to its legacy URL for the Telegram user of the chat |
| Handler.BlockedUnlinks | service/chats/handler.go:187-198 | After a 403 in HTML the registry has lost exactly the current callback, or the legacy one if that could not be removed, and an error is returned exactly if neither could; after any other call it is as it was |
| Handler.FloodUnlinks | service/chats/handler.go:233-240 | When all flood handlers of one call are done, in whatever order their registry calls were made, the chat is still linked exactly when the flood was in raw text and the chat had both callbacks |
| Links.InterleavingIsHarmless | service/chats/handler.go:233-240 | At every moment of every interleaving of flood handlers the registry is as after that many whole removals as handlers have finished |
| Channels.ChanPostHandler.List | service/messages/channel.go:88-137 | In any state of the map the result is a page: ordered, to be listed, at most the limit, leaving a link out only when full and only after all links of the page; each with its own time |
| Channels.SortedLinks | service/messages/channel.go:98-109 | The keys collected in arbitrary order come out in strict order, all of them and no others |
| Channels.FirstDifferenceDecides | service/messages/channel.go:102-109 | Two links are ordered by the first byte in which they differ, the smaller first when ascending and the greater first when descending |
| Channels.PrefixComesFirst | service/messages/channel.go:102-109 | A link that continues another comes after it when ascending and before it when descending |
| Channels.PatternNarrows | service/messages/channel.go:127-129 | A pattern leaves of the links exactly those it matches, and one that does not compile all of them |
| Walks.WalkAscends | service/messages/channel.go:110-135 | A walk over a changing map that is never sent back returns links in strict order, so none twice |
| Walks.NonEmptyLinksSuffice | service/messages/channel.go:115-126 | A walk over maps without empty links is never sent back |
| Walks.ReturnedWasThere | service/messages/channel.go:110-135 | Every link a walk returns is accepted and was in the map at the call that returned it |
| Walks.CompletedWalkMissesNothing | service/messages/channel.go:110-135 | A walk that ended with a page that is not full returned every accepted link that was in the map at every call whose cursor had not passed it |
| Walks.PageIsFirstOfListing | service/messages/channel.go:98-135 | A page is the first limit links of the ordered listing of accepted keys past the cursor |
| Walks.StaticWalkListsAll | service/messages/channel.go:98-135 | On an unchanging map the pages of a completed walk that is never sent back, put together, are the whole ordered list, in both orders |
| Walks.PageShortensAhead | service/messages/channel.go:115-126 | On an unchanging map each page takes exactly its own links off those past the cursor, so a walk ends |
| Walks.StaticWalkAscends | service/messages/channel.go:115-126 | On an unchanging map, with or without an empty link, a walk returns links in strict order if and only if no page but the last ends with the empty link |
| Paid.Account.MemberChannels | service/paid.go:127-153 | In any order of the price list: for every limit among the user's channels one of its channels, and the highest limit but not below zero; or a panic, exactly when a lookup fails |
| Paid.Account.EnsureLimit | service/paid.go:53-125 | In any order and for any answers of the services: exactly what the run changes and whether it reports a failure; a panic changes nothing |
| Paid.EndsReconciled | service/paid.go:64-122 | A run that ends as its answers say is one of the runs the laws below are about, and it does not fail when no answer does |
| Paid.Account.HandleChatMember | service/paid.go:32-51 | The three limits are handled one after the other, whatever fails, up to a panic; when exactly there is one; for an unknown user nothing changes; when all services work there is no failure |
| Paid.RunsAgree | service/paid.go:64-122 | All runs without failures from one state end in the same state, whatever the map orders, if and only if no two of the user's channels below the highest limit have the same limit |
| Paid.RunIsExact | service/paid.go:64-122 | Without failures, over different positive limits, the user is left in the highest channel only and the limit is the maximum of old and new, or the group's for a user of none |
| Paid.KeepsHighest | service/paid.go:80-121 | Whatever fails, and with equal limits too, the user stays in every channel with the highest limit when it is not negative |
| Paid.StaysInSome | service/paid.go:145-149 | A run without failures leaves the user in some channel if and only if one of the user's limits is not negative or two of them are equal |
| Paid.SecondRunChangesNothing | service/paid.go:80-121 | A second run changes no membership and no limit, even if its calls fail |
| Paid.QuietMeansHighest | service/paid.go:98-121 | A run without failures that removes nothing leaves only channels with the highest limit, for any limits |
| Paid.TurnsEnd | service/paid.go:47-49 | Handling membership changes, each removal calling for up to two more, ends, quiet and failing runs included: at most as many turns as changes were pending and twice as many as the user had paid channels |
| Paid.SettledForGood | service/paid.go:47-49 | Once a change was handled without failures over well-priced lists, all later turns, failing or not, change nothing, and there are no more of them than changes were pending |
| Paid.HandlerSettlesAll | service/paid.go:47-49 | For price lists without common channels and with different positive limits, one change handled without failures settles all three limits |
| Utf8.ValidCut | service/messages/format.go:247-252 | Valid UTF-8 cut where a character starts is valid on both sides |
| Utf8.ValidPrefixEndsAtRune | service/messages/format.go:247-252 | A valid prefix of valid UTF-8 ends only where a character starts |
| Utf8.ValidMeansEncoded | service/messages/format.go:247-252 | A byte string is valid exactly when it is the encoding of some sequence of code points, surrogates excluded |
| Trim.TruncateStringUtf8 | service/messages/format.go:242-254 | The downward scan never reads out of range, for any bytes and any limit, and computes the specified truncation, which fits in the limit and is valid UTF-8 if the text is |
| Trim.TruncatedCuts | service/messages/format.go:242-254 | The text without the white space at its ends, all of it and nothing else, comes out whole if it fits; otherwise it is cut at the last character start that leaves room for the ellipsis, or nothing comes out if there is none after the first byte |
| Trim.TrimDropsOnlySpace | service/messages/format.go:243 | Trimming drops encoded white space code points from both ends, all of them and nothing else, for any bytes |
| Trim.SpaceRunesAreWhiteSpace | service/messages/format.go:243 | The byte strings taken for white space are exactly the encodings of the code points with the White_Space property |
| Trim.TruncatedIsLongestPrefix | service/messages/format.go:242-254 | From valid UTF-8 the result is valid under any limit; from a limit of 7 on it is the trimmed text, or the longest valid prefix with room for the ellipsis, which loses at most three more bytes |
| Trim.TruncatedTwice | service/messages/format.go:242-254 | Truncating twice is truncating once, for any bytes and any limit |
| Trim.TruncatedIsTrimmed | service/messages/format.go:242-254 | The result has no white space at its ends, and it fits or is empty |
| Format.CollectTags | service/messages/format.go:113-135 | The loop collects the tags among the first eight categories |
| Format.TagsOfProps | service/messages/format.go:113-135 | At most eight tags, each with a leading "#", without spaces and of 2 to 63 bytes |
| Format.TagsOfTags | service/messages/format.go:113-138 | The tags of the joined tags are the same tags |
| Format.TagsOfWords | service/messages/format.go:113-135 | Words of up to 62 bytes make tags, each the word after "#", as many as there are up to eight |
| Format.TagsComeFromCategories | service/messages/format.go:113-135 | Every tag is one of the first eight categories, whole, with or without "#" put before it |
| Format.TagLineIsRead | service/messages/format.go:136-138 | The line of tags is read back as the tags |
| Format.Body | service/messages/format.go:85-138 | The body before the footer, assembled step by step, is the full text, truncated to 300 bytes when asked for, and then the line of tags; truncated, it has at most 813 bytes |
| Format.TextShowsParts | service/messages/format.go:193-240 | With nothing to sanitize, the text shows in order, and besides them only white space and bold markup: headline, title, description, a summary that is news, and the text; the name only when there is nothing to show |
| Format.WholeHeadings | service/messages/format.go:193-210 | Headline and title are separated by a space and in bold in HTML only |
| Format.WholeHeader | service/messages/format.go:208-240 | Headings, description and news are separated by empty lines, the news sanitized as its mode asks for, the whole by the policy |
| Format.TextIsSanitized | service/messages/format.go:91-101 | What the sanitizers ensure holds of the whole text, unless the text is the event's name |
| Format.OneSanitizerEach | service/messages/format.go:91-98 | In HTML nothing is stripped, and in the other modes the policy is not applied to a text without a header |
| Format.BodyEndsWithTags | service/messages/format.go:107-138 | The body is the text, truncated to 300 bytes when asked for, and the whole line of tags |
| Format.BodyFits | service/messages/format.go:85-138 | A truncated body has at most 813 bytes for every event, mode and sanitizer |
| Format.BodyFillsBound | service/messages/format.go:85-138 | Some events reach the 813 bytes |
| Format.BodyIsValid | service/messages/format.go:85-138 | Valid input and sanitizers that keep UTF-8 valid give a valid body, truncated or not |
| Conditions.EncodeCondition | api/http/interests/service.go:258-300 | The recursive encoder with its loop computes the specified wire condition |
| Conditions.DecodeCondition | api/http/interests/service.go:320-360 | The recursive decoder, which stops at the first child it cannot decode, computes the specified result |
| Conditions.EncodeMeans | api/http/interests/service.go:258-318 | Under every reading of leaves and logics an encoded condition holds exactly when the condition does, but for semantic ids, wide logics and unknown operations, which the wire does not carry |
| Conditions.EncodeKeepsMeaning | api/http/interests/service.go:258-318 | A condition with plain nodes means the same once encoded |
| Conditions.DecodeMeans | api/http/interests/service.go:320-378 | Under every reading a decoded condition holds exactly when the one on the wire does, but for unknown operations |
| Conditions.DecodeKeepsMeaning | api/http/interests/service.go:320-378 | A wire condition with known operations means the same once decoded |
| Conditions.DecodeOfEncode | api/http/interests/service.go:258-378 | Decoding an encoded condition succeeds exactly when all nodes at any depth are supported, and then gives its normal form |
| Conditions.NormalIsSame | api/http/interests/service.go:258-378 | The normal form is the condition itself exactly when every node has no semantic id, a known operation and a logic of 32 bits |
| Conditions.EncodeOfDecode | api/http/interests/service.go:258-378 | Decoding succeeds exactly when no node at any depth lacks its kind, and encoding again gives the wire condition without ids and with unknown operations undefined |
| Conditions.ValidateCondition | service/subscriptions/create.go:119-152 | Accepts exactly when every Or-group at any depth has at most 4 children and every term has 3 to 256 bytes |
| Conditions.VerdictByParts | service/subscriptions/create.go:119-152 | The verdict on a group from those on its children, an Or-group of at most 4, and on a text from its 3 to 256 bytes |
| Conditions.ValidateSubscriptionData | service/subscriptions/create.go:109-117 | Accepts exactly a non-empty description with an accepted condition |
| Conditions.VerdictAfterRoundTrip | service/subscriptions/create.go:119-152 | The verdict after a round trip is the one before it, except for an accepted condition with a large group whose logic becomes Or in 32 bits |
| Conditions.WrappedLogicFlipsVerdict | service/subscriptions/create.go:124-130 | An accepted condition that is rejected after a round trip |
| Decimal.ParseOfFormat | service/chats/handler.go:111-115 | Parsing a printed 64-bit integer gives it back |
| Decimal.FormatDenotes | api/http/subscriptions/subscription.go:14 | A number is printed by decimal digits that stand for it, without leading zeros, after a sign exactly when it is negative |
| Decimal.ParseMeans | service/chats/handler.go:111-115 | Parsing accepts exactly the numerals of 64-bit integers and gives what they stand for; for other numerals the nearest such integer with an error |
| Decimal.CutNumberDiffers | service/subscriptions/list.go:57-60 | A printed count that was cut is read as another number, except a zero that was cut off entirely |
| CallbackUrl.UnescapeOfEscape | api/http/subscriptions/subscription.go:15-17 | Percent-decoding undoes percent-encoding for all bytes |
| CallbackUrl.PlusMeansSpace | api/http/subscriptions/subscription.go:15-17 | Escaped text has a plus sign exactly when the text has a space |
| CallbackUrl.QueryIsRead | service/chats/handler.go:117-121 | From a query of any number of escaped parameters the value of the first with the key is read |
| CallbackUrl.MalformedIsPassedOver | service/chats/handler.go:118 | An empty pair, one with a semicolon and one that is not properly escaped are passed over |
| CallbackUrl.AddressIsRead | service/chats/handler.go:106-115 | The path segment is accepted exactly when it is the numeral of a 64-bit integer, which is the chat |
| CallbackUrl.ParseOfMake | api/http/subscriptions/subscription.go:13-19 | The handler reads back the chat and the user of every callback URL; without a user, the chat's own Telegram user |
| CallbackUrl.MakeIsInjective | api/http/subscriptions/subscription.go:13-19 | For any base, equal URLs are for the same chat and the same user |
| Buttons.NextPageSurvivesCut | service/subscriptions/list.go:142-149 | Pressing the cut button asks for exactly the printed page if and only if the cursor fits |
| Buttons.LongIdRestarts | service/subscriptions/list.go:52-65 | A button filled by its id asks for the first page again |
| Buttons.ButtonsFit | service/subscriptions/list.go:142-149 | No button for a next page has more than 64 bytes of data |
| Buttons.PagesKeepCommand | service/subscriptions/list.go:52-65 | Along any chain of pages, with any ids, the button command stays sub_start |
| Buttons.PagesKeepCursor | service/subscriptions/list.go:52-65 | Along a chain of fitting pages every press continues after the last interest in the same kind of list |
| Buttons.NextFollowingSurvivesCut | service/subscriptions/list.go:173-232 | The followed list's cursor survives if and only if the id has no space and at most 49 bytes |
| Buttons.RowCallsItsCommand | service/callback.go:15-40 | An interest's button calls its command for that interest if and only if the id has no space |
| Buttons.StartDialogue | service/root.go:35-51 | The button asks for the interval and the reply, kept whole, subscribes, for that interest, if and only if its id has no space |
| Links.Registry.Stop | service/subscriptions/stop.go:13-37 | Removes exactly one link of the chat when it succeeds and nothing when it fails, whatever registry calls fail; if none does, it succeeds exactly when the interest is linked and removes the current callback first |
| Links.Registry.Unlink | service/chats/handler.go:233-240 | Removing without looking up first removes exactly one link or nothing, and without registry failures has the same effect as the stop command |
| Links.Registry.ListButtons | service/subscriptions/list.go:94-154 | A row is ticked only when the interest is linked here, and exactly then without registry failures; its text and its command match; a full page ends with the cursor of its last interest |
| Links.ListButtonsFollowing | service/subscriptions/list.go:203-237 | Every followed interest gets a stop button with its description, or its id when it could not be read; a full page ends with the cursor of the last one |
| Links.ButtonShowsInterest | service/subscriptions/list.go:99-134 | A button shows the description, an eye exactly when the interest is public and a tick exactly when it is ticked, and calls the command of the list, or stop, for this interest |
| Links.FollowedButtonStops | service/subscriptions/list.go:203-228 | The button of a followed interest stops it and shows its description, or its id when it could not be read |
| Links.CallbacksName | service/subscriptions/stop.go:18-31 | The current callback is read as the user of the chat, the legacy one as the Telegram user it belongs to, and they differ exactly when the user has an id |
| Links.StopIsOfferedWhenLinked | service/subscriptions/list.go:99-134 | The button is read back as stop for this interest if and only if the current or the legacy callback is registered |
| Links.TakesOneLink | service/subscriptions/stop.go:18-31 | A successful removal leaves one link less and takes nothing that is not a link of the chat |
| Links.TakesOneKeepsOthers | service/subscriptions/stop.go:18-31 | A removal keeps the callbacks of every other interest, chat and user, however alike their URLs |
| Links.LinkedAfterRemovals | service/subscriptions/stop.go:18-31 | After n removals the interest is linked exactly when it had more than n links, and it never has more than two |
| Attachments.ToCloudEvent | service/messages/publish.go:74-186 | The event's attributes and text become the specified ones |
| Attachments.EventTellsMessage | service/messages/publish.go:75-86 | The event tells the id and the time of the message |
| Attachments.EventTellsKind | service/messages/publish.go:97-176 | The file type is 1, 2, 3 or 4 for audio, document, image, video, in this precedence, and missing when a location comes before or there is no file |
| Attachments.EventTellsFile | service/messages/publish.go:97-186 | The event tells the ids of the file that counts |
| Attachments.EventTellsMeasures | service/messages/publish.go:97-176 | The event tells width, height and duration of the file that counts, in 32 bits |
| Attachments.EventTellsPlace | service/messages/publish.go:119-129 | The event tells latitude and longitude exactly when the location counts |
| Attachments.AttachmentComesBack | service/messages/format.go:35-83 | In HTML and plain mode the attachment that counts comes back with its kind, ids and measures cut to 32 bits; otherwise the message comes back as text that is not truncated |
| Attachments.AttachmentComesBackWhole | service/messages/format.go:35-83 | The attachment comes back unchanged exactly when there is one that counts and its measures fit in 32 bits |
| Attachments.SentByKind | service/messages/format.go:35-83 | Any event is sent as a file exactly when its file type is known and the mode is not raw, as nothing for an unknown one, otherwise as a text, truncated exactly when it is not from Telegram |
| Queue.ReceiveMessages | api/grpc/queue/service.go:43-99 | Followed for any number of turns, the endless loop sends, consumes and returns exactly what the run of the protocol prescribes, ending at the first turn that ends it |
| Queue.TraceShape | api/grpc/queue/service.go:43-99 | Start comes first, then for every batch received, in order, its consumption and at once one acknowledgement with its length |
| Queue.NilResult | api/grpc/queue/service.go:64-94 | No error is returned exactly when the stream ended, or failed with the code OK, after turns that all went well |
| Queue.ResultByCause | api/grpc/queue/service.go:43-113 | Every error by its cause: a stream that did not open, Start not sent, or the first turn that did not go well |
| Queue.AcksAddUp | api/grpc/queue/service.go:74-84 | The counts acknowledged equal the messages consumed exactly when every batch has fewer than 2^32 messages, and never exceed them |
| Queue.AcksAddUpModulo | api/grpc/queue/service.go:74-84 | What the acknowledged counts fall short by is a multiple of 2^32 |

## Left out

- Delivery.Deliver: the acknowledged count is a natural number; the source's 32-bit counter would wrap after 2^32 events in one post, which are sent at least three seconds apart.
- Delivery.Deliver: pauses between events, the texts sent and the flood handler's own message, sent with exponential backoff, are not modelled.
- Handler.DeliverMessages: the interest's description is read only for logging and formatting; reading it is left out, and so is percent-decoding of the path, which holds digits only.
- Handler.FloodUnlinks: stated for a registry without failures, and once all the handlers of the call are done.
- Channels.ChanPostHandler.List: the lock is modelled as one state of the map for each call; the library sort is an insertion sort; regular expressions are arbitrary predicates.
- Paid.Account.EnsureLimit: messages to the user are not modelled; what recovers from a panic is not part of this model.
- Paid.TurnsEnd: no membership changes other than those of the runs themselves while the pending ones are handled.
- Format.Body: the footer with its links, which needs `url.Parse`, and what the sanitizers do; nothing is claimed about the markup being well formed after truncation.
- Attachments.AttachmentComesBack: coordinates are kept as printed text, and the wording of captions is not modelled.
- Links.Registry.ListButtons: the interests and their order, which the servers decide, are given.
- Buttons.RowCallsItsCommand: the tables from commands to handlers, and the error for an unknown command, are not modelled.
- Queue.ReceiveMessages: an error on opening the stream is taken to carry a code other than OK; the errors themselves are reduced to their kind.
- Conditions.NumOp: floating-point values of number conditions are only copied.
- The re-link branch in `Start` (service/subscriptions/start.go:87-97): it tests for an error the subscription service never returns.
- HTTP and gRPC clients, configuration, menus, donations, support, logging, and how the servers match events with a condition.
