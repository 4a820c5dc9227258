/** Which parts of the fetched messages become Image rows, and the loop
    of `check_emails_for_event` that builds those rows. MIME parsing is
    abstracted: a message is its fetch status, its From header and the
    parts `walk()` yields, in order. */
module Attachments {
  import opened Common
  import opened Events

  type Byte = b: int | 0 <= b < 256

  /** One part of a message as the walk sees it: whether its main type is
      multipart, its Content-Disposition header, `get_filename()` and the
      decoded payload. */
  datatype Part = Part(multipart: bool, disposition: Option<string>, filename: Option<string>, payload: seq<Byte>)

  /** A message of the search result: whether its fetch answered OK, its
      From header, and its parts. */
  datatype Message = Message(fetched: bool, from: Option<string>, parts: seq<Part>)

  /** What one saved part contributes: the sender, the decoded filename and the bytes. */
  datatype Attachment = Attachment(sender: string, filename: string, payload: seq<Byte>)

  const ImageExtensions: seq<string> := [".jpg", ".jpeg", ".png", ".gif"]

  /** The lower-cased filename ends with one of the image extensions. */
  predicate HasImageExtension(filename: string)
  {
    exists ext :: ext in ImageExtensions && EndsWith(Lower(filename), ext)
  }

  /** The four tests a part passes before it is looked at further: not a
      multipart container, a Content-Disposition header (of any value), a
      non-empty filename, and an image extension. */
  predicate Qualifies(p: Part)
  {
    && !p.multipart
    && p.disposition.Some?
    && p.filename.Some? && p.filename.value != ""
    && HasImageExtension(p.filename.value)
  }

  lemma UpperCaseExtensionQualifies(payload: seq<Byte>)
    ensures Qualifies(Part(false, Some("attachment"), Some("photo.PNG"), payload))
  {
    var lowered := Lower("photo.PNG");
    assert lowered == "photo.png";
    assert lowered[|lowered| - 4..] == ".png";
    assert ".png" in ImageExtensions;
  }

  lemma PdfDoesNotQualify(payload: seq<Byte>)
    ensures !Qualifies(Part(false, Some("attachment"), Some("doc.pdf"), payload))
  {
    var lowered := Lower("doc.pdf");
    assert lowered == "doc.pdf";
    assert !EndsWith(lowered, ".jpg") && !EndsWith(lowered, ".jpeg");
    assert !EndsWith(lowered, ".png") && !EndsWith(lowered, ".gif");
  }

  /** `decode_header` reports a charset for MIME-encoded names; `decode`
      returns the decoded text then, and nothing for plain names. */
  function DecodedName(decode: string -> Option<string>, raw: string): string
  {
    decode(raw).GetOr(raw)
  }

  /** `msg.get("From", "Unknown")`. */
  function SenderOf(m: Message): string
  {
    m.from.GetOr("Unknown")
  }

  /** What one part contributes: one attachment when it qualifies and its
      payload is non-empty, otherwise nothing. */
  function PartSaved(sender: string, decode: string -> Option<string>, p: Part): seq<Attachment>
  {
    if Qualifies(p) && |p.payload| > 0 then [Attachment(sender, DecodedName(decode, p.filename.value), p.payload)]
    else []
  }

  function PartAttachments(sender: string, decode: string -> Option<string>, parts: seq<Part>): seq<Attachment>
  {
    if parts == [] then []
    else PartAttachments(sender, decode, parts[..|parts| - 1]) + PartSaved(sender, decode, parts[|parts| - 1])
  }

  /** A message whose fetch failed contributes nothing. */
  function MessageAttachments(decode: string -> Option<string>, m: Message): seq<Attachment>
  {
    if m.fetched then PartAttachments(SenderOf(m), decode, m.parts) else []
  }

  /** The attachments a pass over `messages` saves, message by message and
      part by part. */
  function MailAttachments(decode: string -> Option<string>, messages: seq<Message>): seq<Attachment>
  {
    if messages == [] then []
    else MailAttachments(decode, messages[..|messages| - 1]) + MessageAttachments(decode, messages[|messages| - 1])
  }

  /** Order: the attachments of a mailbox are those of its first messages
      followed by those of the rest. */
  lemma {:induction false} MailAttachmentsAppend(decode: string -> Option<string>, a: seq<Message>, b: seq<Message>)
    ensures MailAttachments(decode, a + b) == MailAttachments(decode, a) + MailAttachments(decode, b)
  {
    if b == [] {
      assert a + b == a;
    } else {
      var b', last := b[..|b| - 1], b[|b| - 1];
      calc {
        MailAttachments(decode, a + b);
        { assert (a + b)[..|a + b| - 1] == a + b'; assert (a + b)[|a + b| - 1] == last; }
        MailAttachments(decode, a + b') + MessageAttachments(decode, last);
        { MailAttachmentsAppend(decode, a, b'); }
        MailAttachments(decode, a) + MailAttachments(decode, b') + MessageAttachments(decode, last);
      }
    }
  }

  /** A message whose fetch fails is skipped and the others are still processed. */
  lemma FailedFetchSkipped(decode: string -> Option<string>, before: seq<Message>, m: Message, after: seq<Message>)
    requires !m.fetched
    ensures MailAttachments(decode, before + [m] + after) == MailAttachments(decode, before + after)
  {
    assert (before + [m])[..|before|] == before;
    assert MailAttachments(decode, before + [m]) == MailAttachments(decode, before);
    MailAttachmentsAppend(decode, before + [m], after);
    MailAttachmentsAppend(decode, before, after);
  }

  /** Part `j` of `parts` yields the attachment `a`. */
  ghost predicate PartSavedAt(sender: string, decode: string -> Option<string>, parts: seq<Part>, j: int, a: Attachment)
  {
    0 <= j < |parts| && PartSaved(sender, decode, parts[j]) == [a]
  }

  lemma {:induction false} PartAttachmentsSound(sender: string, decode: string -> Option<string>, parts: seq<Part>, a: Attachment)
    requires a in PartAttachments(sender, decode, parts)
    ensures exists j :: PartSavedAt(sender, decode, parts, j, a)
  {
    var init, last := parts[..|parts| - 1], parts[|parts| - 1];
    if a in PartAttachments(sender, decode, init) {
      PartAttachmentsSound(sender, decode, init, a);
      var j :| PartSavedAt(sender, decode, init, j, a);
      assert PartSavedAt(sender, decode, parts, j, a);
    } else {
      assert PartSavedAt(sender, decode, parts, |parts| - 1, a);
    }
  }

  lemma {:induction false} PartAttachmentsComplete(sender: string, decode: string -> Option<string>, parts: seq<Part>, j: int, a: Attachment)
    requires PartSavedAt(sender, decode, parts, j, a)
    ensures a in PartAttachments(sender, decode, parts)
  {
    var init := parts[..|parts| - 1];
    if j < |init| {
      assert PartSavedAt(sender, decode, init, j, a);
      PartAttachmentsComplete(sender, decode, init, j, a);
    }
  }

  /** An attachment comes from a list of parts exactly when one of them yields it. */
  lemma PartAttachmentsMembership(sender: string, decode: string -> Option<string>, parts: seq<Part>, a: Attachment)
    ensures a in PartAttachments(sender, decode, parts) <==> exists j :: PartSavedAt(sender, decode, parts, j, a)
  {
    if a in PartAttachments(sender, decode, parts) {
      PartAttachmentsSound(sender, decode, parts, a);
    }
    if exists j :: PartSavedAt(sender, decode, parts, j, a) {
      var j :| PartSavedAt(sender, decode, parts, j, a);
      PartAttachmentsComplete(sender, decode, parts, j, a);
    }
  }

  /** Message `i` was fetched and its part `j` yields the attachment `a`. */
  ghost predicate SavedAt(decode: string -> Option<string>, messages: seq<Message>, i: int, j: int, a: Attachment)
  {
    0 <= i < |messages| && messages[i].fetched && PartSavedAt(SenderOf(messages[i]), decode, messages[i].parts, j, a)
  }

  lemma {:induction false} MailAttachmentsSound(decode: string -> Option<string>, messages: seq<Message>, a: Attachment)
    requires a in MailAttachments(decode, messages)
    ensures exists i, j :: SavedAt(decode, messages, i, j, a)
  {
    var init, m := messages[..|messages| - 1], messages[|messages| - 1];
    if a in MailAttachments(decode, init) {
      MailAttachmentsSound(decode, init, a);
      var i, j :| SavedAt(decode, init, i, j, a);
      assert SavedAt(decode, messages, i, j, a);
    } else {
      PartAttachmentsSound(SenderOf(m), decode, m.parts, a);
      var j :| PartSavedAt(SenderOf(m), decode, m.parts, j, a);
      assert SavedAt(decode, messages, |messages| - 1, j, a);
    }
  }

  lemma {:induction false} MailAttachmentsComplete(decode: string -> Option<string>, messages: seq<Message>, i: int, j: int, a: Attachment)
    requires SavedAt(decode, messages, i, j, a)
    ensures a in MailAttachments(decode, messages)
  {
    var init, m := messages[..|messages| - 1], messages[|messages| - 1];
    if i < |init| {
      assert SavedAt(decode, init, i, j, a);
      MailAttachmentsComplete(decode, init, i, j, a);
    } else {
      PartAttachmentsComplete(SenderOf(m), decode, m.parts, j, a);
    }
  }

  /** Exactly the qualifying parts with a payload, of the messages whose
      fetch succeeded, become attachments. */
  lemma MailAttachmentsMembership(decode: string -> Option<string>, messages: seq<Message>, a: Attachment)
    ensures a in MailAttachments(decode, messages) <==> exists i, j :: SavedAt(decode, messages, i, j, a)
  {
    if a in MailAttachments(decode, messages) {
      MailAttachmentsSound(decode, messages, a);
    }
    if exists i, j :: SavedAt(decode, messages, i, j, a) {
      var i, j :| SavedAt(decode, messages, i, j, a);
      MailAttachmentsComplete(decode, messages, i, j, a);
    }
  }

  /** A message none of whose parts qualifies yields no image. */
  lemma NoQualifyingPartNoImages(decode: string -> Option<string>, m: Message)
    requires forall j :: 0 <= j < |m.parts| ==> !Qualifies(m.parts[j])
    ensures MessageAttachments(decode, m) == []
  {
    if m.fetched && MessageAttachments(decode, m) != [] {
      PartAttachmentsSound(SenderOf(m), decode, m.parts, MessageAttachments(decode, m)[0]);
    }
  }

  /** The stored file name: timestamp, "_", hex token, "_", decoded filename. */
  function StoredName(stamp: string, hex: string, filename: string): string
  {
    stamp + "_" + hex + "_" + filename
  }

  function ImageRecord(a: Attachment, eventId: nat, stamp: string, hex: string): Image
  {
    Image(StoredName(stamp, hex, a.filename), a.filename, a.sender, eventId)
  }

  /** `images` holds one row per attachment, in order; the k-th row was
      named with the k-th reading of the clock and of the token source. */
  predicate RecordsFor(images: seq<Image>, atts: seq<Attachment>, eventId: nat,
                       clock: nat -> string, token: nat -> string)
  {
    |images| == |atts| &&
    forall k :: 0 <= k < |atts| ==> images[k] == ImageRecord(atts[k], eventId, clock(k), token(k))
  }

  lemma RecordsForSnoc(images: seq<Image>, atts: seq<Attachment>, a: Attachment, eventId: nat,
                       clock: nat -> string, token: nat -> string)
    requires RecordsFor(images, atts, eventId, clock, token)
    ensures RecordsFor(images + [ImageRecord(a, eventId, clock(|atts|), token(|atts|))], atts + [a], eventId, clock, token)
  {
  }

  lemma PartAttachmentsSnoc(sender: string, decode: string -> Option<string>, parts: seq<Part>, j: nat)
    requires j < |parts|
    ensures PartAttachments(sender, decode, parts[..j + 1]) ==
            PartAttachments(sender, decode, parts[..j]) + PartSaved(sender, decode, parts[j])
  {
    assert parts[..j + 1][..j] == parts[..j];
  }

  lemma MailAttachmentsSnoc(decode: string -> Option<string>, messages: seq<Message>, i: nat)
    requires i < |messages|
    ensures MailAttachments(decode, messages[..i + 1]) ==
            MailAttachments(decode, messages[..i]) + MessageAttachments(decode, messages[i])
  {
    assert messages[..i + 1][..i] == messages[..i];
  }

  /** The inner loop, over the parts of one fetched message: `added`
      already holds the rows for `done`, and the rows for the message's
      saved parts are appended to it. */
  method SaveParts(added: seq<Image>, ghost done: seq<Attachment>, sender: string, parts: seq<Part>,
                   eventId: nat, decode: string -> Option<string>, clock: nat -> string, token: nat -> string)
    returns (added': seq<Image>)
    requires RecordsFor(added, done, eventId, clock, token)
    ensures RecordsFor(added', done + PartAttachments(sender, decode, parts), eventId, clock, token)
  {
    added' := added;
    for j := 0 to |parts|
      invariant RecordsFor(added', done + PartAttachments(sender, decode, parts[..j]), eventId, clock, token)
    {
      PartAttachmentsSnoc(sender, decode, parts, j);
      ghost var sofar := done + PartAttachments(sender, decode, parts[..j]);
      assert done + PartAttachments(sender, decode, parts[..j + 1]) == sofar + PartSaved(sender, decode, parts[j]);
      var part := parts[j];
      if part.multipart {
        continue;
      }
      if part.disposition.None? {
        continue;
      }
      if part.filename.None? || part.filename.value == "" {
        continue;
      }
      var filename := part.filename.value;
      if !HasImageExtension(filename) {
        continue;
      }
      var decoded := decode(filename);
      if decoded.Some? {
        filename := decoded.value;
      }
      var data := part.payload;
      if |data| > 0 {
        var uniqueFilename := StoredName(clock(|added'|), token(|added'|), filename);
        RecordsForSnoc(added', sofar, Attachment(sender, filename, data), eventId, clock, token);
        added' := added' + [Image(uniqueFilename, filename, sender, eventId)];
      }
    }
    assert parts[..|parts|] == parts;
  }

  /** The loop over the messages of the search result; each
      `db.session.add` is collected in `added`. `clock(k)` and `token(k)`
      stand for the `datetime.now()` and `secrets.token_hex(4)` read for
      the k-th row. */
  method CollectImages(messages: seq<Message>, eventId: nat, decode: string -> Option<string>,
                       clock: nat -> string, token: nat -> string) returns (added: seq<Image>)
    ensures RecordsFor(added, MailAttachments(decode, messages), eventId, clock, token)
  {
    added := [];
    for i := 0 to |messages|
      invariant RecordsFor(added, MailAttachments(decode, messages[..i]), eventId, clock, token)
    {
      MailAttachmentsSnoc(decode, messages, i);
      var msg := messages[i];
      if !msg.fetched {
        continue;
      }
      var sender := msg.from.GetOr("Unknown");
      added := SaveParts(added, MailAttachments(decode, messages[..i]), sender, msg.parts, eventId, decode, clock, token);
    }
    assert messages[..|messages|] == messages;
  }
}
