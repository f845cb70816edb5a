/**
 A Telegram message on its way into an event (service/messages/publish.go, `toCloudEvent`) and out again
 as a message to another chat (service/messages/format.go, `Convert`).
 */
module Attachments {
  import opened Bytes
  import opened Decimal
  import opened Integers
  import opened Modes

  datatype File = File(fileId: bytes, uniqueId: bytes)

  /** The file of a message, with what is kept of its measures. */
  datatype Attachment =
    | NoFile
    | Audio(file: File, duration: int)
    | Document(file: File)
    | Photo(file: File, width: int, height: int)
    | Video(file: File, width: int, height: int, duration: int)

  /** A Telegram message; each kind of attachment is there or not, independently of the others. */
  datatype Message = Message(
    id: int, time: int, caption: bytes,
    audio: Option<Attachment>, document: Option<Attachment>, location: Option<(bytes, bytes)>,
    photo: Option<Attachment>, video: Option<Attachment>)
  {
    predicate Valid() {
      && (audio.Some? ==> audio.value.Audio?)
      && (document.Some? ==> document.value.Document?)
      && (photo.Some? ==> photo.value.Photo?)
      && (video.Some? ==> video.value.Video?)
    }
  }

  /** The names of the event attributes used here. */
  datatype Key =
    | TgMessageId | Time | TgFileType | TgFileId | TgFileUniqueId
    | TgFileMediaDuration | TgFileImgHeight | TgFileImgWidth | Latitude | Longitude

  datatype Value = CeInteger(n: int32) | CeString(s: bytes) | CeTimestamp(t: int)

  type Attributes = map<Key, Value>

  const FILE_TYPE_AUDIO: int32 := 1
  const FILE_TYPE_DOCUMENT: int32 := 2
  const FILE_TYPE_IMAGE: int32 := 3
  const FILE_TYPE_VIDEO: int32 := 4

  /** `GetCeInteger`: zero for an attribute that is missing or not an integer. */
  function IntegerAt(attrs: Attributes, key: Key): int32 {
    if key in attrs && attrs[key].CeInteger? then attrs[key].n else 0
  }

  /** `GetCeString`: empty for an attribute that is missing or not a string. */
  function StringAt(attrs: Attributes, key: Key): bytes {
    if key in attrs && attrs[key].CeString? then attrs[key].s else []
  }

  // ----- from a message to an event -----

  class Event {
    var attributes: Attributes
    var text: Option<bytes>

    constructor ()
      ensures attributes == map[] && text == None
    {
      attributes, text := map[], None;
    }
  }

  /** The one attachment of a message that counts: audio before document, before a location, which has no
      file, before photo, before video. */
  function AttachmentOf(msg: Message): Attachment
    requires msg.Valid()
  {
    if msg.audio.Some? then msg.audio.value
    else if msg.document.Some? then msg.document.value
    else if msg.location.Some? then NoFile
    else if msg.photo.Some? then msg.photo.value
    else if msg.video.Some? then msg.video.value
    else NoFile
  }

  function MeasuresOf(a: Attachment): Attributes {
    match a
    case NoFile => map[]
    case Audio(_, d) =>
      map[TgFileType := CeInteger(FILE_TYPE_AUDIO), TgFileMediaDuration := CeInteger(Int32(d))]
    case Document(_) =>
      map[TgFileType := CeInteger(FILE_TYPE_DOCUMENT)]
    case Photo(_, w, h) =>
      map[TgFileType := CeInteger(FILE_TYPE_IMAGE),
          TgFileImgHeight := CeInteger(Int32(h)), TgFileImgWidth := CeInteger(Int32(w))]
    case Video(_, w, h, d) =>
      map[TgFileType := CeInteger(FILE_TYPE_VIDEO), TgFileMediaDuration := CeInteger(Int32(d)),
          TgFileImgHeight := CeInteger(Int32(h)), TgFileImgWidth := CeInteger(Int32(w))]
  }

  /** The ids of the file, as far as they are not empty. */
  function FileIdsOf(a: Attachment): Attributes {
    if a.NoFile? then map[]
    else
      (if a.file.fileId == [] then map[] else map[TgFileId := CeString(a.file.fileId)])
      + (if a.file.uniqueId == [] then map[] else map[TgFileUniqueId := CeString(a.file.uniqueId)])
  }

  function AttributesOf(msg: Message): Attributes
    requires msg.Valid()
  {
    WithoutIds(msg) + FileIdsOf(AttachmentOf(msg))
  }

  function WithoutIds(msg: Message): Attributes
    requires msg.Valid()
  {
    map[TgMessageId := CeString(FormatInt(msg.id)), Time := CeTimestamp(msg.time)]
    + (if msg.audio.None? && msg.document.None? && msg.location.Some?
       then map[Latitude := CeString(msg.location.value.0), Longitude := CeString(msg.location.value.1)] else map[])
    + MeasuresOf(AttachmentOf(msg))
  }

  /** Adding the measures one by one, in the order they are written. */
  lemma MeasuresByUpdates(m: Attributes, a: Attachment)
    ensures m + MeasuresOf(a) == match a
      case NoFile => m
      case Audio(_, d) => m[TgFileType := CeInteger(FILE_TYPE_AUDIO)][TgFileMediaDuration := CeInteger(Int32(d))]
      case Document(_) => m[TgFileType := CeInteger(FILE_TYPE_DOCUMENT)]
      case Photo(_, w, h) =>
        m[TgFileType := CeInteger(FILE_TYPE_IMAGE)]
         [TgFileImgHeight := CeInteger(Int32(h))][TgFileImgWidth := CeInteger(Int32(w))]
      case Video(_, w, h, d) =>
        m[TgFileType := CeInteger(FILE_TYPE_VIDEO)][TgFileMediaDuration := CeInteger(Int32(d))]
         [TgFileImgHeight := CeInteger(Int32(h))][TgFileImgWidth := CeInteger(Int32(w))]
  {
  }

  lemma WithoutIdsByUpdates(msg: Message)
    requires msg.Valid()
    ensures var m: Attributes := map[TgMessageId := CeString(FormatInt(msg.id)), Time := CeTimestamp(msg.time)];
            WithoutIds(msg)
            == if msg.audio.None? && msg.document.None? && msg.location.Some?
               then m[Latitude := CeString(msg.location.value.0)][Longitude := CeString(msg.location.value.1)]
               else m + MeasuresOf(AttachmentOf(msg))
  {
    var m: Attributes := map[TgMessageId := CeString(FormatInt(msg.id)), Time := CeTimestamp(msg.time)];
    var empty: Attributes := map[];
    assert m + empty == m;
  }

  lemma IdsByUpdates(m: Attributes, a: Attachment)
    requires !a.NoFile?
    ensures m + FileIdsOf(a)
         == var n := if a.file.fileId == [] then m else m[TgFileId := CeString(a.file.fileId)];
            if a.file.uniqueId == [] then n else n[TgFileUniqueId := CeString(a.file.uniqueId)]
  {
  }

  method ToCloudEvent(msg: Message, txt: bytes, evt: Event)
    requires msg.Valid()
    modifies evt
    ensures evt.attributes == AttributesOf(msg)
    ensures evt.text == if txt != [] then Some(txt) else if msg.caption != [] then Some(msg.caption) else old(evt.text)
  {
    evt.attributes := map[TgMessageId := CeString(FormatInt(msg.id)), Time := CeTimestamp(msg.time)];
    if txt != [] {
      evt.text := Some(txt);
    } else if msg.caption != [] {
      evt.text := Some(msg.caption);
    }
    var f := File([], []);
    ghost var start, a := evt.attributes, AttachmentOf(msg);
    MeasuresByUpdates(start, a);
    WithoutIdsByUpdates(msg);
    if msg.audio.Some? {
      evt.attributes := evt.attributes[TgFileType := CeInteger(FILE_TYPE_AUDIO)];
      evt.attributes := evt.attributes[TgFileMediaDuration := CeInteger(Int32(msg.audio.value.duration))];
      f := msg.audio.value.file;
    } else if msg.document.Some? {
      evt.attributes := evt.attributes[TgFileType := CeInteger(FILE_TYPE_DOCUMENT)];
      f := msg.document.value.file;
    } else if msg.location.Some? {
      evt.attributes := evt.attributes[Latitude := CeString(msg.location.value.0)];
      evt.attributes := evt.attributes[Longitude := CeString(msg.location.value.1)];
    } else if msg.photo.Some? {
      evt.attributes := evt.attributes[TgFileType := CeInteger(FILE_TYPE_IMAGE)];
      evt.attributes := evt.attributes[TgFileImgHeight := CeInteger(Int32(msg.photo.value.height))];
      evt.attributes := evt.attributes[TgFileImgWidth := CeInteger(Int32(msg.photo.value.width))];
      f := msg.photo.value.file;
    } else if msg.video.Some? {
      evt.attributes := evt.attributes[TgFileType := CeInteger(FILE_TYPE_VIDEO)];
      evt.attributes := evt.attributes[TgFileMediaDuration := CeInteger(Int32(msg.video.value.duration))];
      evt.attributes := evt.attributes[TgFileImgHeight := CeInteger(Int32(msg.video.value.height))];
      evt.attributes := evt.attributes[TgFileImgWidth := CeInteger(Int32(msg.video.value.width))];
      f := msg.video.value.file;
    }
    assert evt.attributes == WithoutIds(msg);
    if !a.NoFile? {
      IdsByUpdates(evt.attributes, a);
    }
    if f.fileId != [] {
      evt.attributes := evt.attributes[TgFileId := CeString(f.fileId)];
    }
    if f.uniqueId != [] {
      evt.attributes := evt.attributes[TgFileUniqueId := CeString(f.uniqueId)];
    }
  }

  // ----- from an event to a message -----

  /** The message that is sent: a file with a caption, a text, or nothing for an unknown kind of file. The
      flags say whether the text is truncated and whether it begins with the header. */
  datatype Sent = FileMessage(a: Attachment, trunc: bool, attrs: bool) | TextMessage(trunc: bool, attrs: bool) | Nothing

  function Convert(attrs: Attributes, mode: Mode): Sent {
    if TgFileType in attrs && !mode.Raw? then
      var file := File(StringAt(attrs, TgFileId), StringAt(attrs, TgFileUniqueId));
      var ft := IntegerAt(attrs, TgFileType);
      var width, height := IntegerAt(attrs, TgFileImgWidth), IntegerAt(attrs, TgFileImgHeight);
      var duration := IntegerAt(attrs, TgFileMediaDuration);
      if ft == FILE_TYPE_AUDIO then FileMessage(Audio(file, duration), false, false)
      else if ft == FILE_TYPE_DOCUMENT then FileMessage(Document(file), false, false)
      else if ft == FILE_TYPE_IMAGE then FileMessage(Photo(file, width, height), false, false)
      else if ft == FILE_TYPE_VIDEO then FileMessage(Video(file, width, height, duration), false, false)
      else Nothing
    else TextMessage(TgMessageId !in attrs, true)
  }

  // ----- proofs -----

  /** An attachment whose measures are cut to 32 bits. */
  function Cut32(a: Attachment): Attachment {
    match a
    case Audio(f, d) => Audio(f, Int32(d))
    case Photo(f, w, h) => Photo(f, Int32(w), Int32(h))
    case Video(f, w, h, d) => Video(f, Int32(w), Int32(h), Int32(d))
    case _ => a
  }

  predicate Fits(n: int) {
    -0x8000_0000 <= n < 0x8000_0000
  }

  predicate MeasuresFit(a: Attachment) {
    match a
    case Audio(_, d) => Fits(d)
    case Photo(_, w, h) => Fits(w) && Fits(h)
    case Video(_, w, h, d) => Fits(w) && Fits(h) && Fits(d)
    case _ => true
  }

  predicate HasIdsOf(attrs: Attributes, a: Attachment) {
    && (forall k <- FileIdsOf(a) :: k in attrs && attrs[k] == FileIdsOf(a)[k])
    && (TgFileId in attrs ==> TgFileId in FileIdsOf(a))
    && (TgFileUniqueId in attrs ==> TgFileUniqueId in FileIdsOf(a))
  }

  lemma IdsComeBack(attrs: Attributes, a: Attachment)
    requires !a.NoFile? && HasIdsOf(attrs, a)
    ensures StringAt(attrs, TgFileId) == a.file.fileId && StringAt(attrs, TgFileUniqueId) == a.file.uniqueId
  {
  }

  lemma MeasuresComeBack(attrs: Attributes, a: Attachment, mode: Mode)
    requires !a.NoFile? && !mode.Raw?
    requires forall k <- MeasuresOf(a) :: k in attrs && attrs[k] == MeasuresOf(a)[k]
    requires HasIdsOf(attrs, a)
    ensures Convert(attrs, mode) == FileMessage(Cut32(a), false, false)
  {
    var measures := MeasuresOf(a);
    IdsComeBack(attrs, a);
    assert TgFileType in measures;
    if a.Audio? || a.Video? {
      assert TgFileMediaDuration in measures;
    }
    if a.Photo? || a.Video? {
      assert TgFileImgWidth in measures && TgFileImgHeight in measures;
    }
  }

  lemma AttributesHold(msg: Message)
    requires msg.Valid() && !AttachmentOf(msg).NoFile?
    ensures var a := AttachmentOf(msg);
            && HasIdsOf(AttributesOf(msg), a)
            && forall k <- MeasuresOf(a) :: k in AttributesOf(msg) && AttributesOf(msg)[k] == MeasuresOf(a)[k]
  {
    var a := AttachmentOf(msg);
    assert forall k <- MeasuresOf(a) :: k != TgFileId && k != TgFileUniqueId;
    assert forall k <- FileIdsOf(a) :: k in {TgFileId, TgFileUniqueId};
  }

  lemma LookupPast(attrs: Attributes, more: Attributes, k: Key)
    requires k !in more
    ensures StringAt(attrs + more, k) == StringAt(attrs, k) && IntegerAt(attrs + more, k) == IntegerAt(attrs, k)
    ensures k in attrs + more <==> k in attrs
    ensures k in attrs ==> (attrs + more)[k] == attrs[k]
  {
  }

  lemma OtherThanIds(a: Attachment)
    ensures forall k <- FileIdsOf(a) :: k == TgFileId || k == TgFileUniqueId
  {
  }

  /** What the attributes of an event say, whoever reads them, about the message it was made from: its id and
      time; the kind of attachment that counts, its file and its measures; and the place, if that is what counts. */
  lemma EventTellsMessage(msg: Message)
    requires msg.Valid()
    ensures var attrs := AttributesOf(msg);
            StringAt(attrs, TgMessageId) == FormatInt(msg.id) && attrs[Time] == CeTimestamp(msg.time)
  {
    OtherThanIds(AttachmentOf(msg));
    LookupPast(WithoutIds(msg), FileIdsOf(AttachmentOf(msg)), TgMessageId);
    LookupPast(WithoutIds(msg), FileIdsOf(AttachmentOf(msg)), Time);
  }

  lemma EventTellsKind(msg: Message)
    requires msg.Valid()
    ensures var attrs, a := AttributesOf(msg), AttachmentOf(msg);
            && IntegerAt(attrs, TgFileType) == (if msg.audio.Some? then 1 else if msg.document.Some? then 2
                                                else if msg.location.Some? then 0
                                                else if msg.photo.Some? then 3 else if msg.video.Some? then 4 else 0)
            && (TgFileType in attrs <==> !a.NoFile?)
            && (a.NoFile? || Some(a) in {msg.audio, msg.document, msg.photo, msg.video})
  {
    OtherThanIds(AttachmentOf(msg));
    LookupPast(WithoutIds(msg), FileIdsOf(AttachmentOf(msg)), TgFileType);
  }

  lemma EventTellsFile(msg: Message)
    requires msg.Valid()
    ensures var attrs, a := AttributesOf(msg), AttachmentOf(msg);
            && StringAt(attrs, TgFileId) == (if a.NoFile? then [] else a.file.fileId)
            && StringAt(attrs, TgFileUniqueId) == (if a.NoFile? then [] else a.file.uniqueId)
  {
    if !AttachmentOf(msg).NoFile? {
      AttributesHold(msg);
      IdsComeBack(AttributesOf(msg), AttachmentOf(msg));
    }
  }

  lemma EventTellsMeasures(msg: Message)
    requires msg.Valid()
    ensures var attrs, a := AttributesOf(msg), AttachmentOf(msg);
            && IntegerAt(attrs, TgFileImgWidth) == (if a.Photo? || a.Video? then Int32(a.width) else 0)
            && IntegerAt(attrs, TgFileImgHeight) == (if a.Photo? || a.Video? then Int32(a.height) else 0)
            && IntegerAt(attrs, TgFileMediaDuration) == (if a.Audio? || a.Video? then Int32(a.duration) else 0)
  {
    OtherThanIds(AttachmentOf(msg));
    LookupPast(WithoutIds(msg), FileIdsOf(AttachmentOf(msg)), TgFileImgWidth);
    LookupPast(WithoutIds(msg), FileIdsOf(AttachmentOf(msg)), TgFileImgHeight);
    LookupPast(WithoutIds(msg), FileIdsOf(AttachmentOf(msg)), TgFileMediaDuration);
  }

  lemma EventTellsPlace(msg: Message)
    requires msg.Valid()
    ensures var attrs, located := AttributesOf(msg), msg.audio.None? && msg.document.None? && msg.location.Some?;
            && StringAt(attrs, Latitude) == (if located then msg.location.value.0 else [])
            && StringAt(attrs, Longitude) == (if located then msg.location.value.1 else [])
  {
    OtherThanIds(AttachmentOf(msg));
    LookupPast(WithoutIds(msg), FileIdsOf(AttachmentOf(msg)), Latitude);
    LookupPast(WithoutIds(msg), FileIdsOf(AttachmentOf(msg)), Longitude);
  }

  /** What any event, from wherever, is sent as: a file exactly when its kind is known and the mode is not raw,
      nothing exactly for an unknown kind, and otherwise a text; only the text of an event that is no Telegram
      message is truncated. */
  lemma SentByKind(attrs: Attributes, mode: Mode)
    ensures var sent, kind := Convert(attrs, mode), IntegerAt(attrs, TgFileType);
            && (sent.TextMessage? <==> mode == Raw || TgFileType !in attrs)
            && (sent.FileMessage? <==> mode != Raw && TgFileType in attrs && 1 <= kind <= 4)
            && (sent.FileMessage? ==> !sent.trunc && !sent.attrs && !sent.a.NoFile?)
            && (sent.TextMessage? ==> sent.attrs && (sent.trunc <==> TgMessageId !in attrs))
  {
  }

  /** What went in as a message comes out, in HTML or in plain mode, as a message with the attachment that
      counts: the same kind, the same ids, empty or not, and its measures cut to 32 bits; without one, and
      always in raw mode, it comes out as a text that is not truncated. */
  lemma AttachmentComesBack(msg: Message, mode: Mode)
    requires msg.Valid()
    ensures Convert(AttributesOf(msg), mode)
         == if AttachmentOf(msg).NoFile? || mode.Raw? then TextMessage(false, true)
            else FileMessage(Cut32(AttachmentOf(msg)), false, false)
  {
    var a := AttachmentOf(msg);
    if !a.NoFile? && !mode.Raw? {
      AttributesHold(msg);
      MeasuresComeBack(AttributesOf(msg), a, mode);
    }
  }

  /** The attachment comes back unchanged exactly when its measures fit in 32 bits, and there is one exactly
      when the message has audio or a document, or a photo or a video and no location. */
  lemma AttachmentComesBackWhole(msg: Message, mode: Mode)
    requires msg.Valid() && !mode.Raw?
    ensures Convert(AttributesOf(msg), mode) == FileMessage(AttachmentOf(msg), false, false)
        <==> && MeasuresFit(AttachmentOf(msg))
             && (msg.audio.Some? || msg.document.Some? || (msg.location.None? && (msg.photo.Some? || msg.video.Some?)))
  {
    AttachmentComesBack(msg, mode);
  }
}
