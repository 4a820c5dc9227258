/** The two persisted entities, the collection address derived from an
    event's key, and the in-memory stand-in for the database tables. */
module Events {
  import opened Common

  /** The local part every collection address starts with. */
  const GmailPrefix: string := "eikonsym+"
  const GmailDomain: string := "gmail.com"

  /** A row of the events table. `created_at`, which SQLAlchemy fills in
      from the clock at insert time, is not modelled. */
  datatype Event = Event(id: nat, name: string, description: Option<string>, key: string)
  {
    /** The event's collection address; derived, never stored. */
    function Email(): string
    {
      EventEmail(key)
    }
  }

  /** A row of the images table: the stored file name, the name the
      sender gave, the From header and the owning event's id.
      `received_at`, filled in from the clock at insert time, is not
      modelled. */
  datatype Image = Image(filename: string, originalFilename: string, sender: string, eventId: nat)

  /** The address an event collects mail at: prefix, key, "@", domain. */
  function EventEmail(key: string): (r: string)
    ensures |r| == |GmailPrefix| + |key| + 1 + |GmailDomain|
    ensures r[..|GmailPrefix|] == GmailPrefix
    ensures r[|GmailPrefix|..|GmailPrefix| + |key|] == key
    ensures r[|GmailPrefix| + |key|..] == "@" + GmailDomain
  {
    GmailPrefix + key + "@" + GmailDomain
  }

  /** Distinct keys give distinct addresses. */
  lemma EventEmailInjective(k1: string, k2: string)
    requires EventEmail(k1) == EventEmail(k2)
    ensures k1 == k2
  {
    var a := EventEmail(k1);
    assert |k1| == |k2|;
    calc {
      k1;
      a[|GmailPrefix|..|GmailPrefix| + |k1|];
      k2;
    }
  }

  /** `Event.query.filter_by(key=key).first()`: the first event holding
      `key`, or nothing when no event holds it. */
  function FindByKey(events: seq<Event>, key: string): (r: Option<Event>)
    ensures r.Some? ==> r.value in events && r.value.key == key
    ensures r.Some? ==> exists i :: 0 <= i < |events| && events[i] == r.value &&
                          forall j :: 0 <= j < i ==> events[j].key != key
    ensures r.None? <==> forall i :: 0 <= i < |events| ==> events[i].key != key
  {
    if events == [] then None
    else if events[0].key == key then Some(events[0])
    else
      var r := FindByKey(events[1..], key);
      assert forall i :: 1 <= i < |events| ==> events[i] == events[1..][i - 1];
      r
  }

  /** The events and images tables. Ids are assigned in insertion order,
      as SQLite assigns row ids to a table nothing is deleted from (the
      application never deletes a row). */
  class Database {
    var events: seq<Event>
    var images: seq<Image>

    /** The invariants the handlers keep: sequential ids (nothing is ever
        deleted), distinct keys (the one constraint the database itself
        enforces, as a unique column), and every image naming an existing
        event (a foreign key SQLite does not check by default). */
    ghost predicate Valid()
      reads this
    {
      && (forall i :: 0 <= i < |events| ==> events[i].id == i + 1)
      && (forall i, j :: 0 <= i < j < |events| ==> events[i].key != events[j].key)
      && (forall k :: 0 <= k < |images| ==> 1 <= images[k].eventId <= |events|)
    }

    constructor ()
      ensures Valid()
      ensures events == [] && images == []
    {
      events := [];
      images := [];
    }

    /** The keys currently held by some event. */
    function Keys(): (ks: set<string>)
      reads this
      ensures forall k :: k in ks <==> exists i :: 0 <= i < |events| && events[i].key == k
    {
      set e | e in events :: e.key
    }
  }
}
