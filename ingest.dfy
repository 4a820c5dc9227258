/** `check_emails_for_event`: its early exits, and the commit of the rows
    the attachment loop builds. The IMAP session is abstracted to the
    answer its search gives for a criterion. */
module Ingest {
  import opened Common
  import opened Events
  import opened Attachments

  /** What `mail.search` answers: whether the status was OK, and the
      messages the returned ids name, each with the outcome of its fetch. */
  datatype SearchReply = SearchReply(ok: bool, messages: seq<Message>)

  /** How a pass ends. */
  datatype IngestOutcome = NotConfigured | SearchFailed | NoNewMail | UnknownEvent | Processed(added: nat)

  /** The IMAP criterion: messages addressed to the event's address. */
  function SearchCriterion(key: string): string
  {
    "TO \"" + EventEmail(key) + "\""
  }

  /** Different events search for different criteria. */
  lemma SearchCriterionInjective(k1: string, k2: string)
    requires SearchCriterion(k1) == SearchCriterion(k2)
    ensures k1 == k2
  {
    var c1, c2 := SearchCriterion(k1), SearchCriterion(k2);
    assert EventEmail(k1) == c1[4..|c1| - 1];
    assert EventEmail(k2) == c2[4..|c2| - 1];
    EventEmailInjective(k1, k2);
  }

  /** One ingestion pass for the event with key `eventKey`. `password` is
      the configured app password, `search` the mailbox's answer to a
      criterion, `decode` the filename decoding, and `clock(k)`,
      `token(k)` the timestamp and hex token read for the k-th new row.
      `ok` is the boolean the function returns. */
  method CheckEmailsForEvent(db: Database, password: string, search: string -> SearchReply, eventKey: string,
                             decode: string -> Option<string>, clock: nat -> string, token: nat -> string)
    returns (outcome: IngestOutcome, ok: bool)
    requires db.Valid()
    modifies db`images
    ensures db.Valid()
    ensures var reply := search(SearchCriterion(eventKey));
            outcome == if password == "" then NotConfigured
                       else if !reply.ok then SearchFailed
                       else if reply.messages == [] then NoNewMail
                       else if FindByKey(db.events, eventKey).None? then UnknownEvent
                       else Processed(|MailAttachments(decode, reply.messages)|)
    ensures ok <==> outcome.NoNewMail? || outcome.Processed?
    ensures !outcome.Processed? ==> db.images == old(db.images)
    ensures outcome.Processed? ==>
              var reply := search(SearchCriterion(eventKey));
              var event := FindByKey(db.events, eventKey).value;
              |old(db.images)| <= |db.images| && db.images[..|old(db.images)|] == old(db.images) &&
              RecordsFor(db.images[|old(db.images)|..], MailAttachments(decode, reply.messages), event.id, clock, token)
  {
    if password == "" {
      return NotConfigured, false;
    }
    var reply := search(SearchCriterion(eventKey));
    if !reply.ok {
      return SearchFailed, false;
    }
    if reply.messages == [] {
      return NoNewMail, true;
    }
    var event := FindByKey(db.events, eventKey);
    if event.None? {
      return UnknownEvent, false;
    }
    var added := CollectImages(reply.messages, event.value.id, decode, clock, token);
    // the single commit after the loop
    ghost var before := db.images;
    db.images := db.images + added;
    assert db.images[..|before|] == before && db.images[|before|..] == added;
    return Processed(|added|), true;
  }
}
