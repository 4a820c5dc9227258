# Eikonsym event gallery — verified model of the application logic

Eikonsym lets an organiser create a named event. Each event gets a random
short key and a collection address `eikonsym+<key>@gmail.com`. Image
attachments mailed to that address are pulled out of the shared mailbox
and recorded as the event's gallery. This project models the logic
`app.py` adds around its libraries, and proves what that logic promises:

- **Key generation** (`Keys`). A token is filtered to `[A-Za-z0-9]` and then
  cut to twelve characters. Tokens are re-drawn until no event holds the
  candidate. The token source is an oracle `draw: nat -> string`.
- **Collection address** (`Events.EventEmail`). The address is prefix, key,
  `@` and domain. Ingestion searches for `TO "<that address>"`.
- **Attachment selection and row building** (`Attachments`). A mailbox
  search result is a sequence of messages. Each message has a fetch status,
  a From header and the parts `walk()` yields. A part is kept when it is not
  multipart, has a Content-Disposition header, has a non-empty filename, and
  has an image extension (case-insensitive). Each kept part with a non-empty
  payload becomes one `Image` row, in message-then-part order.
- **Ingestion outcomes** (`Ingest.CheckEmailsForEvent`). The early exits are:
  no password, failed search, no messages, and unknown event. A message
  whose fetch fails is skipped. The rows are committed once, at the end.
- **Key extraction** (`Lookup`, `Routes.FindEvent`). This models `re.search`
  with the pattern as Python reads it. The `+` of the prefix is not escaped,
  so it makes `m` repeatable. The `.` of the domain matches any character
  except a newline.
- **Event creation** (`Routes.CreateEvent`). An empty name is refused
  before any key is drawn.

The database is the class `Events.Database`, with the two tables as
sequences. Its `Valid()` states three invariants that the handlers keep:
- ids are sequential, because the application never deletes a row;
- keys are distinct, which the unique key column enforces;
- every image names an existing event, which holds because ingestion only
  attaches rows to a looked-up event (SQLite does not check foreign keys by
  default).

Both mutating handlers preserve it.

Behaviours of the code worth knowing:

- the Content-Disposition header is only checked for presence, so an
  `inline` part with an image filename is kept too;
- the filename is not sanitised, and the raw decoded name goes into the
  stored filename;
- the extension test runs on the filename before MIME decoding;
- processed messages are not deleted or expunged;
- a key may be empty, when every character of the token is `-` or `_`
  (`Keys.UrlSafeCandidate`). Tokens of `secrets.token_urlsafe(8)` are
  eleven characters long, so the cut to twelve never shortens one.

## Model

| member | source | states |
|---|---|---|
| `Events.EventEmail` | app.py:37-39 | the address consists of the prefix `eikonsym+`, the key, `@` and `gmail.com`, in that order |
| `Events.EventEmailInjective` | app.py:37-39 | two keys with the same address are the same key |
| `Events.FindByKey` | app.py:86 | the lookup by key returns the first event holding the key, or nothing exactly when no event holds it |
| `Events.Database.constructor` | app.py:49-50 | the freshly created tables are empty and satisfy the invariants `Valid()` states |
| `Keys.KeepAlnum` | app.py:57 | the filtered token holds only `[A-Za-z0-9]` and is no longer than the token |
| `Keys.KeepAlnumAppend` | app.py:57 | the filter works character by character: filtering a concatenation concatenates the filtered parts |
| `Keys.KeepAlnumSingle` | app.py:57 | a single character is kept exactly when it is a letter or digit |
| `Keys.KeepAlnumKeepsKeys` | app.py:57 | an already alphanumeric string passes the filter unchanged |
| `Keys.Candidate` | app.py:55-57 | a candidate key is alphanumeric, at most 12 long, and consists of the first min(12, n) characters that survive the filter (filter before the cut) |
| `Keys.UrlSafeCandidate` | app.py:55-57 | for an 11-character URL-safe token the candidate is at most 11 long, and it is empty when the token has no letter or digit |
| `Keys.GenerateEventKey` | app.py:52-59 | the returned key is held by no existing event, is alphanumeric and at most 12 long, and comes from the first draw whose candidate is free; every earlier candidate was taken |
| `Attachments.UpperCaseExtensionQualifies` | app.py:103-115 | a non-multipart part with a disposition and filename `photo.PNG` qualifies |
| `Attachments.PdfDoesNotQualify` | app.py:103-115 | a part named `doc.pdf` does not qualify |
| `Attachments.MailAttachmentsAppend` | app.py:90-102 | the attachments of a mailbox are those of its first messages followed by those of the rest, so order is message then part |
| `Attachments.FailedFetchSkipped` | app.py:90-93 | a message whose fetch fails contributes nothing, and the other messages' attachments are unchanged |
| `Attachments.PartAttachmentsMembership` | app.py:102-123 | an attachment comes from a message's parts exactly when some part qualifies, has a payload and yields it |
| `Attachments.MailAttachmentsMembership` | app.py:90-123 | an attachment is saved exactly when some fetched message has a qualifying part with a non-empty payload that yields it |
| `Attachments.NoQualifyingPartNoImages` | app.py:102-115 | a message none of whose parts qualifies (e.g. only a `.pdf`) yields no image |
| `Attachments.SaveParts` | app.py:102-138 | the part loop appends exactly one row per saved part of the message, in order, after the rows already built |
| `Attachments.CollectImages` | app.py:90-138 | the rows built are one per saved attachment, in order; row k has stored name `clock(k) + "_" + token(k) + "_" + decoded filename`, the decoded filename as original name, the From header or `Unknown` as sender, and the event's id |
| `Ingest.SearchCriterionInjective` | app.py:74-76 | different keys give different search criteria |
| `Ingest.CheckEmailsForEvent` | app.py:61-141 | no password ends as NotConfigured, a non-OK search as SearchFailed, an empty result as NoNewMail, an unknown key as UnknownEvent, all without new rows; otherwise exactly the rows of `CollectImages` are appended to the images table for the looked-up event, and the invariants `Valid()` states still hold; the returned boolean is True exactly for NoNewMail and Processed |
| `Lookup.MatchFromSpec` | app.py:200 | at a given position the pattern's match is reported exactly when one exists, and the reported one takes the longest run of `m` |
| `Lookup.SearchFromSpec` | app.py:200 | the search reports the leftmost position at which the pattern matches, or nothing when no position matches |
| `Lookup.ExtractKey` | app.py:200-205 | an extracted key is non-empty and alphanumeric |
| `Lookup.ExtractKeySpec` | app.py:200-205 | extraction fails exactly when the pattern matches nowhere; otherwise it captures the group of the leftmost match, with the longest `m+` |
| `Lookup.MatchInsideKey` | app.py:24-25 | in a derived address any match of the pattern as written starts and ends inside the key |
| `Lookup.DerivedAddressNeverFound` | app.py:200 | the pattern as written never extracts a key from that key's own address |
| `Lookup.DerivedAddressRejected` | app.py:200-203 | for a key without an `e`, the event's own address does not match at all |
| `Lookup.PlusAddressRejected` | app.py:200-203 | `eikonsym+abc@gmail.com` does not match |
| `Lookup.AddressWithoutPlusAccepted` | app.py:200-205 | `eikonsymabc@gmail.com` matches and yields `abc` |
| `Lookup.EscapedRoundTrip` | app.py:200 | with prefix and domain escaped, every non-empty alphanumeric key is extracted from its own address |
| `Routes.CreateEvent` | app.py:159-174 | a missing or empty name is refused and no event is added, whatever the token source (no key is drawn on that path); otherwise one event is appended with the next id, the given name and description, and a fresh alphanumeric key of at most 12 characters, and the reported address is that key's address; the set of stored keys grows by exactly that key |
| `Routes.FindEvent` | app.py:192-212 | a missing or empty email is refused; no match reports an invalid format; a key no event holds reports not found; otherwise the event shown is the one holding the extracted non-empty alphanumeric key |
| `Routes.DerivedAddressNeverShown` | app.py:200-212 | with the pattern as written, entering an event's own address never shows that event |
| `Routes.EscapedFindsEveryEvent` | app.py:200-212 | with the pattern escaped, entering the address of any stored event with a non-empty key shows that event |
| `Routes.EmptyKeyNeverFound` | app.py:200-203 | the address of an event whose key is empty is reported as an invalid format under either pattern, because the group needs at least one letter or digit |

## Findings

| source | as written | input that shows it | evidently intended | confidence | as-written member | corrected member |
|---|---|---|---|---|---|---|
| app.py:200 | the prefix `eikonsym+` and the domain are put into the regular expression unescaped, so `+` makes `m` repeatable and `.` matches any character | `eikonsym+abc@gmail.com`, the address shown for the event with key `abc`, is reported as an invalid format | the address shown at creation finds its event: escape the prefix and the domain (`re.escape`); this covers every event with a non-empty key, and an event whose key is empty (`Routes.EmptyKeyNeverFound`) also needs the key generation to reject empty candidates | high; not executed | `Routes.DerivedAddressNeverShown` | `Routes.EscapedFindsEveryEvent` |

`Routes.FindEvent` takes the pattern as a parameter. `AsWritten` is the
handler as the code has it. `Escaped` is the corrected pattern.

## Left out

- The IMAP session is not modelled: connect, login, select, fetch, close and logout, and the swallowed cleanup errors (app.py:67-76, 146-151). The mailbox is a function from the search criterion to the search answer.
- Exceptions caught at app.py:143-145 are not modelled. These are IMAP errors, filename decoding errors and file write errors. In the source they end the pass with False and no commit.
- MIME parsing and header decoding are library calls and are not modelled. A message is given as its parts, and `decode_header` is a parameter `decode`.
- Writing attachment files to the upload folder (app.py:126-129) is file I/O and is not modelled.
- `datetime.now()`, `secrets.token_urlsafe` and `secrets.token_hex` are oracles passed as parameters.
- The timestamps `created_at` and `received_at` are not modelled. SQLAlchemy fills them in from `datetime.utcnow` at insert time (app.py:34, 46). Image ids, which SQLite assigns, are not modelled either.
- Column length limits are not modelled, because SQLite does not enforce them.
- Flask routing, templates, flash texts and the GET handlers are not modelled. `index` (app.py:153-155) only renders a page.
- `view_event` (app.py:178-188) is not modelled as a handler. It looks the event up (404 when absent), then runs `check_emails_for_event` and ignores its result, so every gallery view starts an ingestion pass (`Ingest.CheckEmailsForEvent`). It then lists the event's images, newest first; `received_at` is not modelled.
- Keys.GenerateEventKey: requires that some draw eventually yields a free key. The source loops forever otherwise, and a non-terminating loop cannot be modelled here.
- Common.Lower lower-cases ASCII letters only. Python's `str.lower` also maps other letters; the two are meant to agree on whether a name ends with one of the image extensions, which is the only use.
- Concurrent requests are not modelled.
- How the mail server evaluates `TO "<address>"` is not modelled: `search` is a free parameter. IMAP's SEARCH compares case-insensitively and by substring (section 6.4.4 of RFC 3501), while the unique key column compares case-sensitively. So one event's search can also return mail addressed to another event, for example when two keys differ only in letter case.
