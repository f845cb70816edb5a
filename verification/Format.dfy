/**
 The text of a message (service/messages/format.go): the header, the event's own text, truncated when
 asked for, and the line of tags; everything that comes before the footer with the links.
 The two HTML sanitizers are arbitrary functions.
 */
module Format {
  import opened Bytes
  import opened Modes
  import opened Trim
  import opened Utf8

  const LEN_MAX_BODY_TXT := 300
  const TAG_COUNT_MAX := 8
  const TAG_LEN_MAX := 64

  /** The attributes of an event that the text is made from. */
  datatype Event = Event(text: bytes, headline: Option<bytes>, title: Option<bytes>, description: Option<bytes>,
                         summary: Option<bytes>, name: Option<bytes>, categories: Option<bytes>)

  /** The HTML policy, and the one that strips all markup. */
  datatype Sanitizers = Sanitizers(policy: bytes -> bytes, strip: bytes -> bytes) {
    function For(mode: Mode): bytes -> bytes {
      if mode.Html? then policy else strip
    }
  }

  /** The string value of an attribute, empty when it is missing. */
  function Str(attr: Option<bytes>): bytes {
    match attr case None => [] case Some(v) => v
  }

  // ----- tags -----

  function Hashed(cat: bytes): bytes {
    if HasPrefix(cat, ['#']) then cat else ['#'] + cat
  }

  predicate IsTag(t: bytes) {
    1 < |t| < TAG_LEN_MAX
  }

  /** The categories that make a tag of the right size, as tags. */
  function TagsAmong(cats: seq<bytes>): (tags: seq<bytes>)
    ensures |tags| <= |cats|
  {
    if cats == [] then []
    else
      var before, last := TagsAmong(cats[..|cats| - 1]), Hashed(cats[|cats| - 1]);
      if IsTag(last) then before + [last] else before
  }

  function FirstCategories(categories: bytes): seq<bytes> {
    var cats := Split(categories, ' ');
    if |cats| > TAG_COUNT_MAX then cats[..TAG_COUNT_MAX] else cats
  }

  function TagsOf(categories: bytes): seq<bytes> {
    TagsAmong(FirstCategories(categories))
  }

  method CollectTags(categories: bytes) returns (tags: seq<bytes>)
    ensures tags == TagsOf(categories)
  {
    var cats := Split(categories, ' ');
    tags := [];
    var tagCount := 0;
    var i := 0;
    while i < |cats|
      invariant 0 <= i <= |cats| && i <= TAG_COUNT_MAX && tagCount == i
      invariant tags == TagsAmong(cats[..i])
    {
      if i == TAG_COUNT_MAX {
        break;
      }
      var cat := cats[i];
      var t := if HasPrefix(cat, ['#']) then cat else ['#'] + cat;
      assert cats[..i + 1][..i] == cats[..i];
      if |t| > 1 && |t| < TAG_LEN_MAX {
        tags := tags + [t];
      }
      if tagCount > 10 {
        break;
      }
      tagCount := tagCount + 1;
      i := i + 1;
    }
    assert cats[..|cats|] == cats;
  }

  /** The line of tags, empty when there is none. */
  function TagLine(categories: bytes): bytes {
    var tags := TagsOf(categories);
    if tags == [] then [] else Join(tags, ' ') + ['\n']
  }

  // ----- header and body -----

  /** `txt` with one more part, after a separator unless `txt` is empty. */
  function Grown(txt: bytes, sep: bytes, part: bytes): bytes {
    if txt == [] then part else txt + sep + part
  }

  const BLANK_LINE: bytes := "\n\n"
  const BOLD_OPEN: bytes := "<b>"
  const BOLD_CLOSE: bytes := "</b>"

  function Headings(e: Event): bytes {
    var head := if e.headline.Some? then TrimSpace(e.headline.value) else [];
    if e.title.Some? then Grown(head, [' '], TrimSpace(e.title.value)) else head
  }

  function WithBold(txt: bytes, mode: Mode): bytes {
    if txt != [] && mode.Html? then BOLD_OPEN + txt + BOLD_CLOSE else txt
  }

  function WithDescription(txt: bytes, e: Event): bytes {
    if e.description.Some? then Grown(txt, BLANK_LINE, TrimSpace(e.description.value)) else txt
  }

  /** The summary is left out when it repeats the title, the description or the text. */
  function WithSummary(txt: bytes, e: Event, mode: Mode, s: Sanitizers): bytes {
    var v := Str(e.summary);
    if e.summary.Some? && v != Str(e.title) && v != Str(e.description) && v != e.text
    then Grown(txt, BLANK_LINE, TrimSpace(s.For(mode)(v)))
    else txt
  }

  function HeaderOf(e: Event, mode: Mode, s: Sanitizers): bytes {
    s.policy(WithSummary(WithDescription(WithBold(Headings(e), mode), e), e, mode, s))
  }

  /** The whole text before any truncation and without the tags. */
  function FullText(e: Event, mode: Mode, attrs: bool, s: Sanitizers): bytes {
    var header := if attrs then HeaderOf(e, mode, s) else [];
    var txt := if e.text == [] then header else Grown(header, BLANK_LINE, TrimSpace(s.For(mode)(e.text)));
    if txt == [] then Str(e.name) else txt
  }

  function BodyOf(e: Event, mode: Mode, trunc: bool, attrs: bool, s: Sanitizers): bytes {
    WithTags(FullText(e, mode, attrs, s), trunc, Str(e.categories))
  }

  function WithTags(txt: bytes, trunc: bool, categories: bytes): bytes {
    (if trunc then Truncated(txt, LEN_MAX_BODY_TXT) + ['\n'] else txt) + TagLine(categories)
  }

  /** The first line of the header. */
  method HeaderLine(e: Event, mode: Mode) returns (txt: bytes)
    ensures txt == WithBold(Headings(e), mode)
  {
    txt := [];
    if e.headline.Some? {
      txt := TrimSpace(e.headline.value);
    }
    if e.title.Some? {
      if txt != [] {
        txt := txt + [' '];
      }
      txt := txt + TrimSpace(e.title.value);
    }
    assert txt == Headings(e);
    if txt != [] && mode.Html? {
      txt := BOLD_OPEN + txt + BOLD_CLOSE;
    }
  }

  method Header(e: Event, mode: Mode, s: Sanitizers) returns (txt: bytes)
    ensures txt == HeaderOf(e, mode, s)
  {
    txt := HeaderLine(e, mode);
    ghost var line := txt;
    if e.description.Some? {
      if txt != [] {
        txt := txt + BLANK_LINE;
      }
      txt := txt + TrimSpace(e.description.value);
    }
    ghost var described := WithDescription(line, e);
    assert txt == described;
    if e.summary.Some? {
      var v := e.summary.value;
      if v != Str(e.title) && v != Str(e.description) && v != e.text {
        v := if mode.Html? then s.policy(v) else s.strip(v);
        if txt != [] {
          txt := txt + BLANK_LINE;
        }
        txt := txt + TrimSpace(v);
      }
    }
    assert txt == WithSummary(described, e, mode, s);
    txt := s.policy(txt);
  }

  /** The first half of the body: everything before the truncation. */
  method Text(e: Event, mode: Mode, attrs: bool, s: Sanitizers) returns (txt: bytes)
    ensures txt == FullText(e, mode, attrs, s)
  {
    txt := [];
    if attrs {
      txt := Header(e, mode, s);
    }
    if e.text != [] {
      var txtData := if mode.Html? then s.policy(e.text) else s.strip(e.text);
      if txt != [] {
        txt := txt + BLANK_LINE;
      }
      txt := txt + TrimSpace(txtData);
    }
    if txt == [] && e.name.Some? {
      txt := e.name.value;
    }
  }

  method Tags(categories: bytes) returns (line: bytes)
    ensures line == TagLine(categories)
  {
    var tags := CollectTags(categories);
    line := [];
    if tags != [] {
      line := Join(tags, ' ') + ['\n'];
    }
  }

  method Body(e: Event, mode: Mode, trunc: bool, attrs: bool, s: Sanitizers) returns (txt: bytes)
    ensures txt == BodyOf(e, mode, trunc, attrs, s)
    ensures trunc ==> |txt| <= 813
  {
    BodyFits(e, mode, attrs, s);
    txt := Text(e, mode, attrs, s);
    if trunc {
      txt := TruncateStringUtf8(txt, LEN_MAX_BODY_TXT);
      txt := txt + ['\n'];
    }
    var line := Tags(Str(e.categories));
    txt := txt + line;
  }

  // ----- proofs -----

  lemma {:induction false} TagsAmongProps(cats: seq<bytes>)
    requires forall c <- cats :: ' ' !in c
    ensures forall t <- TagsAmong(cats) :: HasPrefix(t, ['#']) && IsTag(t) && ' ' !in t
  {
    if cats != [] {
      TagsAmongProps(cats[..|cats| - 1]);
      assert cats[|cats| - 1] in cats;
    }
  }

  /** Whatever the categories are, there are at most eight tags; each begins with "#", has no space, and is
      two to sixty-three bytes long. */
  lemma TagsOfProps(categories: bytes)
    ensures |TagsOf(categories)| <= TAG_COUNT_MAX
    ensures forall t <- TagsOf(categories) :: HasPrefix(t, ['#']) && 2 <= |t| <= 63 && ' ' !in t
  {
    JoinOfSplit(categories, ' ');
    TagsAmongProps(FirstCategories(categories));
  }

  lemma {:induction false} TagsAmongTags(tags: seq<bytes>)
    requires forall t <- tags :: HasPrefix(t, ['#']) && IsTag(t)
    ensures TagsAmong(tags) == tags
  {
    if tags != [] {
      TagsAmongTags(tags[..|tags| - 1]);
      assert tags[|tags| - 1] in tags;
      assert HasPrefix(tags[|tags| - 1], ['#']);
    }
  }

  /** Tags that were already made from categories make the same tags again. */
  lemma TagsOfTags(categories: bytes)
    ensures TagsOf(Join(TagsOf(categories), ' ')) == TagsOf(categories)
  {
    var tags := TagsOf(categories);
    TagsOfProps(categories);
    if tags == [] {
      SplitNone([], ' ');
      var cats := FirstCategories([]);
      assert cats == [[]] && cats[..0] == [];
      assert !IsTag(Hashed([]));
    } else {
      SplitOfJoin(tags, ' ');
      TagsAmongTags(tags);
    }
  }

  lemma {:induction false} JoinLength(parts: seq<bytes>, sep: byte)
    requires parts != [] && forall p <- parts :: |p| <= 63
    ensures |Join(parts, sep)| <= 64 * |parts| - 1
    ensures (forall p <- parts :: |p| == 63) ==> |Join(parts, sep)| == 64 * |parts| - 1
  {
    assert parts[0] in parts;
    if |parts| > 1 {
      assert forall p <- parts[1..] :: p in parts;
      JoinLength(parts[1..], sep);
    }
  }

  lemma TagLineFits(categories: bytes)
    ensures |TagLine(categories)| <= 512
  {
    var tags := TagsOf(categories);
    TagsOfProps(categories);
    if tags != [] {
      JoinLength(tags, ' ');
    }
  }

  /** A truncated message has at most 813 bytes before its footer, for every event, mode and
      sanitizer: 300 of text, a line break, and 512 of tags. */
  lemma BodyFits(e: Event, mode: Mode, attrs: bool, s: Sanitizers)
    ensures |BodyOf(e, mode, true, attrs, s)| <= 813
  {
    TruncatedFits(FullText(e, mode, attrs, s), LEN_MAX_BODY_TXT);
    TagLineFits(Str(e.categories));
  }

  /** The bound is met: by a name of 300 letters and eight categories of 63 bytes. */
  lemma BodyFillsBound(name: bytes, tag: bytes, tags: seq<bytes>, s: Sanitizers)
    requires |name| == 300 && forall i :: 0 <= i < |name| ==> name[i] == 'a'
    requires |tag| == 63 && HasPrefix(tag, ['#']) && ' ' !in tag
    requires |tags| == 8 && forall t <- tags :: t == tag
    ensures var e := Event([], None, None, None, None, Some(name), Some(Join(tags, ' ')));
            |BodyOf(e, Plain, true, false, s)| == 813
  {
    assert Trimmed(name) by {
      assert forall n :: 1 <= n <= 3 ==> name[..n][0] == 'a';
      assert forall k :: 297 <= k < 300 ==> name[k..][0] == 'a';
    }
    TrimSpaceOfTrimmed(name);
    SplitOfJoin(tags, ' ');
    TagsAmongTags(tags);
    JoinLength(tags, ' ');
  }

  // ----- valid UTF-8 -----

  predicate ValidEvent(e: Event) {
    && ValidUtf8(e.text) && ValidUtf8(Str(e.headline)) && ValidUtf8(Str(e.title)) && ValidUtf8(Str(e.description))
    && ValidUtf8(Str(e.summary)) && ValidUtf8(Str(e.name)) && ValidUtf8(Str(e.categories))
  }

  ghost predicate KeepsValid(f: bytes -> bytes) {
    forall x: bytes :: ValidUtf8(x) ==> ValidUtf8(f(x))
  }

  lemma GrownIsValid(txt: bytes, sep: bytes, part: bytes)
    requires ValidUtf8(txt) && ValidUtf8(part) && forall c <- sep :: c as int < 0x80
    ensures ValidUtf8(Grown(txt, sep, part))
  {
    AsciiIsValid(sep);
    ValidConcat(txt, sep);
    ValidConcat(txt + sep, part);
  }

  lemma WithBoldIsValid(txt: bytes, mode: Mode)
    requires ValidUtf8(txt)
    ensures ValidUtf8(WithBold(txt, mode))
  {
    AsciiIsValid(BOLD_OPEN);
    AsciiIsValid(BOLD_CLOSE);
    ValidConcat(BOLD_OPEN, txt);
    ValidConcat(BOLD_OPEN + txt, BOLD_CLOSE);
  }

  lemma HeadingsIsValid(e: Event)
    requires ValidEvent(e)
    ensures ValidUtf8(Headings(e))
  {
    TrimSpaceIsValid(Str(e.headline));
    TrimSpaceIsValid(Str(e.title));
    GrownIsValid(TrimSpace(Str(e.headline)), [' '], TrimSpace(Str(e.title)));
  }

  lemma WithDescriptionIsValid(txt: bytes, e: Event)
    requires ValidUtf8(txt) && ValidEvent(e)
    ensures ValidUtf8(WithDescription(txt, e))
  {
    TrimSpaceIsValid(Str(e.description));
    GrownIsValid(txt, BLANK_LINE, TrimSpace(Str(e.description)));
  }

  lemma WithSummaryIsValid(txt: bytes, e: Event, mode: Mode, s: Sanitizers)
    requires ValidUtf8(txt) && ValidEvent(e) && KeepsValid(s.policy) && KeepsValid(s.strip)
    ensures ValidUtf8(WithSummary(txt, e, mode, s))
  {
    var v := s.For(mode)(Str(e.summary));
    TrimSpaceIsValid(v);
    GrownIsValid(txt, BLANK_LINE, TrimSpace(v));
  }

  lemma HeaderIsValid(e: Event, mode: Mode, s: Sanitizers)
    requires ValidEvent(e) && KeepsValid(s.policy) && KeepsValid(s.strip)
    ensures ValidUtf8(HeaderOf(e, mode, s))
  {
    HeadingsIsValid(e);
    var txt := WithBold(Headings(e), mode);
    WithBoldIsValid(Headings(e), mode);
    WithDescriptionIsValid(txt, e);
    WithSummaryIsValid(WithDescription(txt, e), e, mode, s);
  }

  lemma FullTextIsValid(e: Event, mode: Mode, attrs: bool, s: Sanitizers)
    requires ValidEvent(e) && KeepsValid(s.policy) && KeepsValid(s.strip)
    ensures ValidUtf8(FullText(e, mode, attrs, s))
  {
    HeaderIsValid(e, mode, s);
    TrimSpaceIsValid(s.For(mode)(e.text));
    GrownIsValid(if attrs then HeaderOf(e, mode, s) else [], BLANK_LINE, TrimSpace(s.For(mode)(e.text)));
  }

  lemma {:induction false} TagsAmongAreValid(cats: seq<bytes>)
    requires forall c <- cats :: ValidUtf8(c)
    ensures forall t <- TagsAmong(cats) :: ValidUtf8(t)
  {
    if cats != [] {
      TagsAmongAreValid(cats[..|cats| - 1]);
      assert cats[|cats| - 1] in cats;
      AsciiIsValid(['#']);
      ValidConcat(['#'], cats[|cats| - 1]);
    }
  }

  lemma TagLineIsValid(categories: bytes)
    requires ValidUtf8(categories)
    ensures ValidUtf8(TagLine(categories))
  {
    ValidSplit(categories, ' ');
    TagsAmongAreValid(FirstCategories(categories));
    ValidJoin(TagsOf(categories), ' ');
    AsciiIsValid(['\n']);
    ValidConcat(Join(TagsOf(categories), ' '), ['\n']);
  }

  /** From a valid event, sanitizers that keep UTF-8 valid make a valid message body, truncated or not: no
      cut, no dropped category and no added markup splits a character. */
  lemma BodyIsValid(e: Event, mode: Mode, trunc: bool, attrs: bool, s: Sanitizers)
    requires ValidEvent(e) && KeepsValid(s.policy) && KeepsValid(s.strip)
    ensures ValidUtf8(BodyOf(e, mode, trunc, attrs, s))
  {
    var txt := FullText(e, mode, attrs, s);
    FullTextIsValid(e, mode, attrs, s);
    TruncatedIsLongestPrefix(txt, LEN_MAX_BODY_TXT);
    AsciiIsValid(['\n']);
    ValidConcat(Truncated(txt, LEN_MAX_BODY_TXT), ['\n']);
    TagLineIsValid(Str(e.categories));
    ValidConcat(if trunc then Truncated(txt, LEN_MAX_BODY_TXT) + ['\n'] else txt, TagLine(Str(e.categories)));
  }

  // ----- what the body shows -----

  /** White space and the markup of bold text, between the parts of a text. */
  predicate IsGlue(g: bytes) {
    forall c <- g :: c in {' ', '\n', '<', '/', 'b', '>'}
  }

  /** The text consists of the parts, in order, and glue. */
  ghost predicate ShowsInOrder(txt: bytes, parts: seq<bytes>)
    decreases |parts|
  {
    if parts == [] then IsGlue(txt)
    else exists i, j :: 0 <= i <= j <= |txt| && ShowsUpTo(txt, parts, i, j)
  }

  ghost predicate ShowsUpTo(txt: bytes, parts: seq<bytes>, i: nat, j: nat)
    requires parts != [] && i <= j <= |txt|
    decreases |parts|, 0
  {
    && ShowsInOrder(txt[..i], parts[..|parts| - 1])
    && txt[i..j] == parts[|parts| - 1] && IsGlue(txt[j..])
  }

  lemma ShowsMore(txt: bytes, parts: seq<bytes>, part: bytes)
    requires ShowsInOrder(txt, parts)
    ensures ShowsInOrder(txt + part, parts + [part])
  {
    var all := parts + [part];
    assert all[..|parts|] == parts && (txt + part)[..|txt|] == txt;
    assert ShowsUpTo(txt + part, all, |txt|, |txt + part|);
  }

  lemma ShowsBeforeGlue(txt: bytes, parts: seq<bytes>, g: bytes)
    requires ShowsInOrder(txt, parts) && IsGlue(g)
    ensures ShowsInOrder(txt + g, parts)
  {
    if parts != [] {
      var i: nat, j: nat :| i <= j <= |txt| && ShowsUpTo(txt, parts, i, j);
      assert (txt + g)[..i] == txt[..i] && (txt + g)[i..j] == txt[i..j] && (txt + g)[j..] == txt[j..] + g;
      assert ShowsUpTo(txt + g, parts, i, j);
    }
  }

  lemma {:induction false} ShowsAfterGlue(g: bytes, txt: bytes, parts: seq<bytes>)
    requires ShowsInOrder(txt, parts) && IsGlue(g)
    ensures ShowsInOrder(g + txt, parts)
    decreases |parts|
  {
    if parts != [] {
      var i: nat, j: nat :| i <= j <= |txt| && ShowsUpTo(txt, parts, i, j);
      ShowsAfterGlue(g, txt[..i], parts[..|parts| - 1]);
      var n := |g|;
      assert (g + txt)[..n + i] == g + txt[..i];
      assert (g + txt)[n + i..n + j] == txt[i..j] && (g + txt)[n + j..] == txt[j..];
      assert ShowsUpTo(g + txt, parts, n + i, n + j);
    }
  }

  lemma GrownShows(txt: bytes, sep: bytes, part: bytes, parts: seq<bytes>)
    requires ShowsInOrder(txt, parts) && IsGlue(sep)
    ensures ShowsInOrder(Grown(txt, sep, part), parts + [part])
  {
    ShowsMore(txt, parts, part);
    ShowsBeforeGlue(txt, parts, sep);
    ShowsMore(txt + sep, parts, part);
    assert txt == [] ==> txt + part == part;
  }

  /** The white space around an attribute is not shown; an attribute that is missing is not either. */
  function Shown(attr: Option<bytes>): seq<bytes> {
    match attr case None => [] case Some(v) => [TrimSpace(v)]
  }

  /** A summary that says what the title, the description or the text already say is not shown. */
  predicate IsNews(e: Event) {
    e.summary.Some? && e.summary.value !in {Str(e.title), Str(e.description), e.text}
  }

  /** What a reader gets to see of an event, from the top down; its name only when there is nothing else. */
  function PartsOf(e: Event, attrs: bool): seq<bytes> {
    HeaderParts(e, attrs) + if e.text == [] then [] else [TrimSpace(e.text)]
  }

  function HeaderParts(e: Event, attrs: bool): seq<bytes> {
    if !attrs then []
    else Shown(e.headline) + Shown(e.title) + Shown(e.description) + if IsNews(e) then Shown(e.summary) else []
  }

  /** One more attribute, if it is there. */
  lemma AttributeShows(txt: bytes, sep: bytes, attr: Option<bytes>, parts: seq<bytes>)
    requires ShowsInOrder(txt, parts) && IsGlue(sep)
    ensures ShowsInOrder(if attr.Some? then Grown(txt, sep, TrimSpace(attr.value)) else txt, parts + Shown(attr))
  {
    if attr.Some? {
      GrownShows(txt, sep, TrimSpace(attr.value), parts);
    } else {
      assert parts + [] == parts;
    }
  }

  lemma HeadingsShow(e: Event)
    ensures ShowsInOrder(Headings(e), Shown(e.headline) + Shown(e.title))
  {
    AttributeShows([], [], e.headline, []);
    assert [] + Shown(e.headline) == Shown(e.headline);
    var head := if e.headline.Some? then TrimSpace(e.headline.value) else [];
    AttributeShows(head, [' '], e.title, Shown(e.headline));
  }

  lemma BoldShows(txt: bytes, mode: Mode, parts: seq<bytes>)
    requires ShowsInOrder(txt, parts)
    ensures ShowsInOrder(WithBold(txt, mode), parts)
  {
    ShowsAfterGlue(BOLD_OPEN, txt, parts);
    ShowsBeforeGlue(BOLD_OPEN + txt, parts, BOLD_CLOSE);
  }

  /** Sanitizers that find nothing to remove. */
  ghost predicate Transparent(s: Sanitizers) {
    forall x :: s.policy(x) == x && s.strip(x) == x
  }

  lemma SummaryShows(txt: bytes, e: Event, mode: Mode, s: Sanitizers, parts: seq<bytes>)
    requires Transparent(s) && ShowsInOrder(txt, parts)
    ensures ShowsInOrder(WithSummary(txt, e, mode, s), parts + if IsNews(e) then Shown(e.summary) else [])
  {
    assert s.For(mode)(Str(e.summary)) == Str(e.summary);
    AttributeShows(txt, BLANK_LINE, if IsNews(e) then e.summary else None, parts);
  }

  lemma HeaderShows(e: Event, mode: Mode, s: Sanitizers)
    requires Transparent(s)
    ensures ShowsInOrder(HeaderOf(e, mode, s), HeaderParts(e, true))
  {
    var line, parts := WithBold(Headings(e), mode), Shown(e.headline) + Shown(e.title);
    HeadingsShow(e);
    BoldShows(Headings(e), mode, parts);
    AttributeShows(line, BLANK_LINE, e.description, parts);
    SummaryShows(WithDescription(line, e), e, mode, s, parts + Shown(e.description));
  }

  /** When the sanitizers have nothing to remove, the text of a message shows, in every mode, the headline, the
      title, the description, a summary that is news and the event's text, in this order and each without the
      white space around it, and besides them only white space and the markup of the headings; the event's name
      is shown only when there is nothing to show. */
  lemma TextShowsParts(e: Event, mode: Mode, attrs: bool, s: Sanitizers)
    requires Transparent(s)
    ensures var txt := FullText(e, mode, attrs, s);
            ShowsInOrder(txt, PartsOf(e, attrs)) || (txt == Str(e.name) && ShowsInOrder([], PartsOf(e, attrs)))
  {
    HeaderShows(e, mode, s);
    var header, parts := if attrs then HeaderOf(e, mode, s) else [], HeaderParts(e, attrs);
    assert ShowsInOrder(header, parts);
    assert s.For(mode)(e.text) == e.text;
    GrownShows(header, BLANK_LINE, TrimSpace(e.text), parts);
    assert parts + [] == parts;
  }

  /** The headings together: with a space between them, and in bold in HTML. */
  lemma WholeHeadings(e: Event, mode: Mode)
    requires e.headline.Some? && TrimSpace(e.headline.value) != [] && e.title.Some?
    ensures var line: bytes := TrimSpace(e.headline.value) + " " + TrimSpace(e.title.value);
            WithBold(Headings(e), mode) == if mode.Html? then "<b>" + line + "</b>" else line
  {
  }

  /** The whole header, with an empty line between its parts. */
  lemma WholeHeader(e: Event, mode: Mode, s: Sanitizers)
    requires WithBold(Headings(e), mode) != [] && e.description.Some? && IsNews(e)
    ensures var description: bytes := "\n\n" + TrimSpace(e.description.value);
            var news: bytes := if mode.Html? then s.policy(e.summary.value) else s.strip(e.summary.value);
            HeaderOf(e, mode, s) == s.policy(WithBold(Headings(e), mode) + description + BLANK_LINE + TrimSpace(news))
  {
    var line, v := WithBold(Headings(e), mode), e.summary.value;
    assert WithDescription(line, e) == line + (BLANK_LINE + TrimSpace(e.description.value));
    assert v != Str(e.title) && v != Str(e.description) && v != e.text;
  }

  /** What a sanitizer lets through is closed under what is done to it afterwards. */
  ghost predicate IsClosed(safe: bytes -> bool) {
    && safe([]) && (forall x :: safe(x) ==> safe(TrimSpace(x)))
    && forall x, y :: safe(x) && safe(y) ==> safe(x + BLANK_LINE + y)
  }

  /** Nothing gets past the sanitizers but the name: what the policy always ensures, and for the text of a message
      that is not in HTML what stripping ensures, holds of the whole text. */
  lemma TextIsSanitized(e: Event, mode: Mode, attrs: bool, s: Sanitizers, safe: bytes -> bool)
    requires IsClosed(safe)
    requires mode.Html? || attrs ==> forall x :: safe(s.policy(x))
    requires !mode.Html? ==> forall x :: safe(s.strip(x))
    ensures safe(FullText(e, mode, attrs, s)) || FullText(e, mode, attrs, s) == Str(e.name)
  {
  }

  /** In HTML nothing is stripped, and without a header the other modes do not apply the policy. */
  lemma OneSanitizerEach(e: Event, mode: Mode, trunc: bool, attrs: bool, s: Sanitizers, other: bytes -> bytes)
    ensures mode.Html? ==> BodyOf(e, mode, trunc, attrs, s.(strip := other)) == BodyOf(e, mode, trunc, attrs, s)
    ensures !mode.Html? && !attrs ==>
              BodyOf(e, mode, trunc, attrs, s.(policy := other)) == BodyOf(e, mode, trunc, attrs, s)
  {
  }

  /** The body ends with the line of tags, whole even if the text before it was cut. */
  lemma BodyEndsWithTags(e: Event, mode: Mode, attrs: bool, s: Sanitizers)
    ensures var txt, line := FullText(e, mode, attrs, s), TagLine(Str(e.categories));
            && BodyOf(e, mode, false, attrs, s) == txt + line
            && exists r: bytes :: IsTruncation(r, txt, 300) && BodyOf(e, mode, true, attrs, s) == r + ['\n'] + line
  {
    TruncatedCuts(FullText(e, mode, attrs, s), 300);
  }

  /** The line of tags, when there are any, is read back as the tags. */
  lemma TagLineIsRead(categories: bytes)
    ensures var tags, line := TagsOf(categories), TagLine(categories);
            if tags == [] then line == []
            else line != [] && line[|line| - 1] == '\n' && Split(line[..|line| - 1], ' ') == tags
  {
    TagsOfProps(categories);
    if TagsOf(categories) != [] {
      SplitOfJoin(TagsOf(categories), ' ');
      assert (Join(TagsOf(categories), ' ') + ['\n'])[..|TagLine(categories)| - 1] == Join(TagsOf(categories), ' ');
    }
  }

  /** A category that makes a tag when "#" is put before it. */
  predicate IsWord(c: bytes) {
    1 <= |c| <= 62 && c[0] != '#' && ' ' !in c
  }

  lemma HashedWord(word: bytes)
    requires IsWord(word)
    ensures Hashed(word) == ['#'] + word && IsTag(Hashed(word))
  {
  }

  lemma {:induction false} TagsAmongWords(words: seq<bytes>)
    requires forall c <- words :: IsWord(c)
    ensures |TagsAmong(words)| == |words|
    ensures forall k :: 0 <= k < |words| ==> TagsAmong(words)[k] == ['#'] + words[k]
  {
    if words != [] {
      var n := |words| - 1;
      var before, last := words[..n], words[n];
      assert last in words && forall c <- before :: c in words;
      HashedWord(last);
      TagsAmongWords(before);
      assert TagsAmong(words) == TagsAmong(before) + [['#'] + last];
    }
  }

  /** Words make tags, each the word after "#", as many as there are but no more than the first eight. */
  lemma TagsOfWords(words: seq<bytes>)
    requires words != [] && forall c <- words :: IsWord(c)
    ensures |TagsOf(Join(words, ' '))| == if |words| < 8 then |words| else 8
    ensures forall k :: 0 <= k < |words| && k < 8 ==> TagsOf(Join(words, ' '))[k] == ['#'] + words[k]
  {
    SplitOfJoin(words, ' ');
    TagsAmongWords(if |words| > 8 then words[..8] else words);
  }

  predicate IsTagOf(t: bytes, cat: bytes) {
    t == cat || t == ['#'] + cat
  }

  lemma {:induction false} TagsAmongCategories(cats: seq<bytes>, t: bytes)
    requires t in TagsAmong(cats)
    ensures exists k :: 0 <= k < |cats| && IsTagOf(t, cats[k])
  {
    var n := |cats| - 1;
    if t == Hashed(cats[n]) {
      assert IsTagOf(t, cats[n]);
    } else {
      TagsAmongCategories(cats[..n], t);
      var k :| 0 <= k < n && IsTagOf(t, cats[..n][k]);
      assert IsTagOf(t, cats[k]);
    }
  }

  /** Every tag is a whole category, one of the first eight. */
  lemma TagsComeFromCategories(categories: bytes, t: bytes)
    requires t in TagsOf(categories)
    ensures exists k :: 0 <= k < |Split(categories, ' ')| && k < 8 && IsTagOf(t, Split(categories, ' ')[k])
  {
    TagsAmongCategories(FirstCategories(categories), t);
  }
}
