/** The two request handlers with logic of their own: `create_event`
    (name check, key generation, insertion) and `find_event` (key
    extraction and lookup). Rendering, flashing and redirects are reduced
    to the outcome each path reaches. */
module Routes {
  import opened Common
  import opened Events
  import opened Keys
  import opened Lookup

  datatype CreateOutcome = NameRequired | Created(key: string, address: string)

  /** A POST to `create_event`. An empty or missing name is refused before
      any key is drawn; otherwise a fresh key is generated and the event
      inserted. `draw` is the token source; when a key is to be drawn, the
      requires states that it eventually yields one no event holds. */
  method CreateEvent(db: Database, name: Option<string>, description: Option<string>, draw: nat -> string)
    returns (outcome: CreateOutcome)
    requires db.Valid()
    requires name.Some? && name.value != "" ==> exists m: nat :: Candidate(draw(m)) !in db.Keys()
    modifies db`events
    ensures db.Valid()
    ensures name.None? || name.value == "" ==> outcome == NameRequired && db.events == old(db.events)
    ensures name.Some? && name.value != "" ==>
              && outcome.Created?
              && outcome.key !in old(db.Keys())
              && AllAlnum(outcome.key) && |outcome.key| <= MaxKeyLength
              && outcome.address == EventEmail(outcome.key)
              && db.events == old(db.events) + [Event(|old(db.events)| + 1, name.value, description, outcome.key)]
              && db.Keys() == old(db.Keys()) + {outcome.key}
  {
    if name.None? || name.value == "" {
      return NameRequired;
    }
    var key, _ := GenerateEventKey(db.Keys(), draw);
    var event := Event(|db.events| + 1, name.value, description, key);
    db.events := db.events + [event];
    return Created(key, event.Email());
  }

  datatype FindOutcome = EmailRequired | InvalidFormat | EventNotFound | ShowEvent(key: string)

  /** A POST to `find_event` with the submitted `email`; the handler uses
      the pattern `AsWritten`. */
  function FindEvent(p: Pattern, events: seq<Event>, email: Option<string>): (r: FindOutcome)
    ensures r == EmailRequired <==> email.None? || email.value == ""
    ensures r == InvalidFormat <==> email.Some? && email.value != "" && ExtractKey(p, email.value).None?
    ensures r == EventNotFound <==>
              email.Some? && ExtractKey(p, email.value).Some? && FindByKey(events, ExtractKey(p, email.value).value).None?
    ensures r.ShowEvent? ==>
              && email.Some? && ExtractKey(p, email.value) == Some(r.key)
              && r.key != "" && AllAlnum(r.key)
              && exists i :: 0 <= i < |events| && events[i].key == r.key
  {
    if email.None? || email.value == "" then EmailRequired
    else
      match ExtractKey(p, email.value)
      case None => InvalidFormat
      case Some(key) =>
        if FindByKey(events, key).None? then EventNotFound else ShowEvent(key)
  }

  /** As written, pasting an event's own address never leads to that event. */
  lemma DerivedAddressNeverShown(events: seq<Event>, key: string)
    ensures FindEvent(AsWritten, events, Some(EventEmail(key))) != ShowEvent(key)
  {
    DerivedAddressNeverFound(key);
  }

  /** With the pattern escaped, every stored event with a non-empty key is
      found from its address. */
  lemma EscapedFindsEveryEvent(events: seq<Event>, e: Event)
    requires e in events && e.key != "" && AllAlnum(e.key)
    ensures FindEvent(Escaped, events, Some(e.Email())) == ShowEvent(e.key)
  {
    EscapedRoundTrip(e.key);
  }

  /** Escaping does not help an event whose key is empty: the group
      `[a-zA-Z0-9]+` needs at least one character, so its address is
      reported as malformed under either pattern. */
  lemma EmptyKeyNeverFound(p: Pattern, events: seq<Event>, e: Event)
    requires e.key == ""
    ensures FindEvent(p, events, Some(e.Email())) == InvalidFormat
  {
    var s := EventEmail("");
    if ExtractKey(p, s).Some? {
      ExtractKeySpec(p, s);
      var i: nat, a: nat, b: nat :| MatchesAt(p, s, i, a, b);
      match p
      case AsWritten => MatchInsideKey("", i, a, b);
      case Escaped =>
    }
  }
}
