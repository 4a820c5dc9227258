/** Key extraction in `find_event`: `re.search` with the pattern built as
    GMAIL_PREFIX + "([a-zA-Z0-9]+)@" + GMAIL_DOMAIN.

    Interpolated unescaped, that pattern reads to Python's `re` as
    "eikonsy", then `m+` (the '+' of the prefix quantifies the 'm'), the
    captured run `[a-zA-Z0-9]+`, "@gmail", any character but a newline
    (the '.' of the domain), then "com". `AsWritten` is that reading;
    `Escaped` is the pattern with both characters escaped, which matches
    the prefix and the domain literally. */
module Lookup {
  import opened Common
  import opened Events

  datatype Pattern = AsWritten | Escaped

  /** Where a match starts and where its captured group lies. */
  datatype Span = Span(start: nat, groupStart: nat, groupEnd: nat)

  /** The two character classes the pattern repeats: the 'm' of `m+` and
      the letters and digits of the group. */
  datatype RunKind = Ms | Alnums

  predicate InRun(kind: RunKind, c: char)
  {
    match kind
    case Ms => c == 'm'
    case Alnums => IsAlnum(c)
  }

  /** The end of the longest run of `kind` characters starting at `j`. */
  function RunEnd(s: string, j: nat, kind: RunKind): (e: nat)
    requires j <= |s|
    ensures j <= e <= |s|
    ensures forall k :: j <= k < e ==> InRun(kind, s[k])
    ensures e == |s| || !InRun(kind, s[e])
    decreases |s| - j
  {
    if j == |s| || !InRun(kind, s[j]) then j else RunEnd(s, j + 1, kind)
  }

  lemma RunEndUnique(s: string, j: nat, kind: RunKind, e: nat)
    requires j <= e <= |s|
    requires forall k :: j <= k < e ==> InRun(kind, s[k])
    requires e == |s| || !InRun(kind, s[e])
    ensures RunEnd(s, j, kind) == e
  {
  }

  /** What follows the captured group. */
  predicate TailAt(p: Pattern, s: string, g1: nat)
  {
    match p
    case AsWritten => g1 + 10 <= |s| && s[g1..g1 + 6] == "@gmail" && s[g1 + 6] != '\n' && s[g1 + 7..g1 + 10] == "com"
    case Escaped => g1 + 10 <= |s| && s[g1..g1 + 10] == "@" + GmailDomain
  }

  lemma TailStartsWithAt(p: Pattern, s: string, g1: nat)
    requires TailAt(p, s, g1)
    ensures g1 < |s| && s[g1] == '@'
  {
    match p
    case AsWritten => assert s[g1..g1 + 6][0] == s[g1];
    case Escaped => assert s[g1..g1 + 10][0] == s[g1];
  }

  /** The pattern matches `s` from `i`, capturing `s[g0..g1]`. */
  ghost predicate MatchesAt(p: Pattern, s: string, i: nat, g0: nat, g1: nat)
  {
    && g0 < g1 <= |s|
    && (forall k :: g0 <= k < g1 ==> IsAlnum(s[k]))
    && TailAt(p, s, g1)
    && match p
       case AsWritten => i + 7 < g0 && s[i..i + 7] == "eikonsy" && forall k :: i + 7 <= k < g0 ==> s[k] == 'm'
       case Escaped => g0 == i + 9 && s[i..g0] == GmailPrefix
  }

  /** The match `re` reports when it tries position `i`. Backtracking
      prefers the longest `m+`: the group starts after the whole run of
      'm's when a letter or digit follows it, and at its last 'm'
      otherwise. The group always runs to the end of the letters and
      digits, since '@' must follow it. */
  function MatchFrom(p: Pattern, s: string, i: nat): Option<(nat, nat)>
    requires i <= |s|
  {
    match p
    case AsWritten =>
      if i + 7 < |s| && s[i..i + 7] == "eikonsy" && s[i + 7] == 'm' then
        var mEnd := RunEnd(s, i + 7, Ms);
        var more := mEnd < |s| && IsAlnum(s[mEnd]);
        if more || i + 8 < mEnd then
          var g0 := if more then mEnd else mEnd - 1;
          var g1 := RunEnd(s, g0, Alnums);
          if TailAt(p, s, g1) then Some((g0, g1)) else None
        else None
      else None
    case Escaped =>
      if i + 9 <= |s| && s[i..i + 9] == GmailPrefix then
        var g1 := RunEnd(s, i + 9, Alnums);
        if i + 9 < g1 && TailAt(p, s, g1) then Some((i + 9, g1)) else None
      else None
  }

  /** Any match of the as-written pattern at `i` is the one `MatchFrom`
      builds, or captures a group starting earlier in the run of 'm's. */
  lemma AsWrittenChoice(s: string, i: nat, a: nat, b: nat)
    requires i <= |s| && MatchesAt(AsWritten, s, i, a, b)
    ensures MatchFrom(AsWritten, s, i).Some?
    ensures a <= MatchFrom(AsWritten, s, i).value.0 && b == MatchFrom(AsWritten, s, i).value.1
  {
    assert s[i + 7] == 'm';
    var mEnd := RunEnd(s, i + 7, Ms);
    assert a <= mEnd;
    var more := mEnd < |s| && IsAlnum(s[mEnd]);
    assert more || i + 8 < mEnd;
    var g0 := if more then mEnd else mEnd - 1;
    assert a <= g0;
    TailStartsWithAt(AsWritten, s, b);
    assert g0 <= b;
    RunEndUnique(s, g0, Alnums, b);
  }

  lemma EscapedChoice(s: string, i: nat, a: nat, b: nat)
    requires i <= |s| && MatchesAt(Escaped, s, i, a, b)
    ensures MatchFrom(Escaped, s, i) == Some((a, b))
  {
    TailStartsWithAt(Escaped, s, b);
    RunEndUnique(s, i + 9, Alnums, b);
  }

  /** `MatchFrom` reports a match exactly when there is one, and the one
      it reports has the longest `m+`. */
  lemma MatchFromSpec(p: Pattern, s: string, i: nat)
    requires i <= |s|
    ensures MatchFrom(p, s, i).Some? ==>
              var g := MatchFrom(p, s, i).value;
              MatchesAt(p, s, i, g.0, g.1) &&
              forall a: nat, b: nat :: MatchesAt(p, s, i, a, b) ==> a <= g.0 && b == g.1
    ensures MatchFrom(p, s, i).None? ==> forall a: nat, b: nat :: !MatchesAt(p, s, i, a, b)
  {
    forall a: nat, b: nat | MatchesAt(p, s, i, a, b)
      ensures MatchFrom(p, s, i).Some? && a <= MatchFrom(p, s, i).value.0 && b == MatchFrom(p, s, i).value.1
    {
      match p
      case AsWritten => AsWrittenChoice(s, i, a, b);
      case Escaped => EscapedChoice(s, i, a, b);
    }
    if MatchFrom(p, s, i).Some? {
      var g := MatchFrom(p, s, i).value;
      match p
      case AsWritten =>
        var mEnd := RunEnd(s, i + 7, Ms);
        assert forall k :: i + 7 <= k < g.0 ==> s[k] == 'm';
      case Escaped =>
    }
  }

  /** `re.search`: try the positions from `i` on, leftmost first. */
  function SearchFrom(p: Pattern, s: string, i: nat): (r: Option<Span>)
    requires i <= |s|
    ensures r.Some? ==> i <= r.value.start <= |s|
    decreases |s| - i
  {
    match MatchFrom(p, s, i)
    case Some(g) => Some(Span(i, g.0, g.1))
    case None => if i == |s| then None else SearchFrom(p, s, i + 1)
  }

  lemma {:induction false} SearchFromFoundMatches(p: Pattern, s: string, i: nat)
    requires i <= |s| && SearchFrom(p, s, i).Some?
    ensures var r := SearchFrom(p, s, i).value;
            MatchFrom(p, s, r.start) == Some((r.groupStart, r.groupEnd))
    decreases |s| - i
  {
    if MatchFrom(p, s, i).None? {
      assert SearchFrom(p, s, i) == SearchFrom(p, s, i + 1);
      SearchFromFoundMatches(p, s, i + 1);
    }
  }

  lemma {:induction false} SearchFromFoundLeftmost(p: Pattern, s: string, i: nat)
    requires i <= |s| && SearchFrom(p, s, i).Some?
    ensures forall j :: i <= j < SearchFrom(p, s, i).value.start ==> MatchFrom(p, s, j).None?
    decreases |s| - i
  {
    if MatchFrom(p, s, i).None? {
      assert SearchFrom(p, s, i) == SearchFrom(p, s, i + 1);
      SearchFromFoundLeftmost(p, s, i + 1);
    }
  }

  lemma {:induction false} SearchFromNotFound(p: Pattern, s: string, i: nat)
    requires i <= |s| && SearchFrom(p, s, i).None?
    ensures forall j :: i <= j <= |s| ==> MatchFrom(p, s, j).None?
    decreases |s| - i
  {
    if i < |s| {
      assert SearchFrom(p, s, i) == SearchFrom(p, s, i + 1);
      SearchFromNotFound(p, s, i + 1);
    }
  }

  /** The search reports the leftmost position at which the pattern
      matches, with the match found there, or nothing when no position
      from `i` on matches. */
  lemma SearchFromSpec(p: Pattern, s: string, i: nat)
    requires i <= |s|
    ensures var r := SearchFrom(p, s, i);
            r.Some? ==> MatchFrom(p, s, r.value.start) == Some((r.value.groupStart, r.value.groupEnd))
    ensures var r := SearchFrom(p, s, i);
            r.Some? ==> forall j :: i <= j < r.value.start ==> MatchFrom(p, s, j).None?
    ensures SearchFrom(p, s, i).None? ==> forall j :: i <= j <= |s| ==> MatchFrom(p, s, j).None?
  {
    if SearchFrom(p, s, i).Some? {
      SearchFromFoundMatches(p, s, i);
      SearchFromFoundLeftmost(p, s, i);
    } else {
      SearchFromNotFound(p, s, i);
    }
  }

  /** `match.group(1)` of `re.search(pattern, s)`, or nothing. */
  function ExtractKey(p: Pattern, s: string): (r: Option<string>)
    ensures r.Some? ==> r.value != "" && AllAlnum(r.value)
  {
    match SearchFrom(p, s, 0)
    case Some(m) =>
      SearchFromSpec(p, s, 0);
      MatchFromSpec(p, s, m.start);
      Some(s[m.groupStart..m.groupEnd])
    case None => None
  }

  /** Extraction succeeds exactly when the pattern matches somewhere; it
      then captures the group of the leftmost match, with the longest
      `m+` among the matches at that position. */
  lemma ExtractKeySpec(p: Pattern, s: string)
    ensures ExtractKey(p, s).None? <==> forall i: nat, a: nat, b: nat :: !MatchesAt(p, s, i, a, b)
    ensures ExtractKey(p, s).Some? ==>
              exists i: nat, a: nat, b: nat :: MatchesAt(p, s, i, a, b) && ExtractKey(p, s).value == s[a..b] &&
                forall i': nat, a': nat, b': nat :: MatchesAt(p, s, i', a', b') ==> i <= i' && (i' == i ==> a' <= a && b' == b)
  {
    var r := SearchFrom(p, s, 0);
    SearchFromSpec(p, s, 0);
    forall i: nat, a: nat, b: nat | MatchesAt(p, s, i, a, b)
      ensures i <= |s| && MatchFrom(p, s, i).Some?
    {
      MatchFromSpec(p, s, i);
    }
    if r.Some? {
      var m := r.value;
      MatchFromSpec(p, s, m.start);
      assert MatchesAt(p, s, m.start, m.groupStart, m.groupEnd);
    }
  }

  /** In a derived address, a match of the as-written pattern can only
      start inside the key: at position 0 the '+' stands where the pattern
      wants another 'm' or the group, no other character of the prefix is
      an 'e', and the domain leaves no room for a match. */
  lemma MatchInsideKey(key: string, i: nat, a: nat, b: nat)
    requires MatchesAt(AsWritten, EventEmail(key), i, a, b)
    ensures |GmailPrefix| <= i < a < b <= |GmailPrefix| + |key|
    ensures EventEmail(key)[i] == 'e'
  {
    var s := EventEmail(key);
    assert s[i] == 'e' by { assert s[i..i + 7][0] == s[i]; }
    assert s[..|GmailPrefix|] == GmailPrefix;
    assert forall k :: 1 <= k < |GmailPrefix| ==> s[k] == GmailPrefix[k] != 'e';
    // s[8] is '+', neither an 'm' of `m+` nor a character of the group
    assert s[8] == '+' && !IsAlnum(s[8]);
  }

  /** The as-written pattern never yields the key of the address it was
      meant for: whatever it captures is shorter than the key. */
  lemma DerivedAddressNeverFound(key: string)
    ensures ExtractKey(AsWritten, EventEmail(key)) != Some(key)
  {
    var s := EventEmail(key);
    if ExtractKey(AsWritten, s) == Some(key) {
      ExtractKeySpec(AsWritten, s);
      var i: nat, a: nat, b: nat :| MatchesAt(AsWritten, s, i, a, b) && key == s[a..b];
      MatchInsideKey(key, i, a, b);
    }
  }

  /** When the key has no 'e', there is no match at all: the address of
      such an event is reported as malformed. */
  lemma DerivedAddressRejected(key: string)
    requires forall k :: 0 <= k < |key| ==> key[k] != 'e'
    ensures ExtractKey(AsWritten, EventEmail(key)) == None
  {
    var s := EventEmail(key);
    if ExtractKey(AsWritten, s).Some? {
      ExtractKeySpec(AsWritten, s);
      var i: nat, a: nat, b: nat :| MatchesAt(AsWritten, s, i, a, b);
      MatchInsideKey(key, i, a, b);
    }
  }

  lemma PlusAddressRejected()
    ensures ExtractKey(AsWritten, "eikonsym+abc@gmail.com") == None
  {
    assert "eikonsym+abc@gmail.com" == EventEmail("abc");
    DerivedAddressRejected("abc");
  }

  /** The match the as-written pattern finds at the start of
      `eikonsymabc@gmail.com`. */
  lemma AddressWithoutPlusMatch()
    ensures MatchFrom(AsWritten, "eikonsymabc@gmail.com", 0) == Some((8, 11))
  {
    var s := "eikonsymabc@gmail.com";
    assert s[0..7] == "eikonsy" && s[7] == 'm' && IsAlnum(s[8]);
    RunEndUnique(s, 7, Ms, 8);
    RunEndUnique(s, 8, Alnums, 11);
    assert s[11..17] == "@gmail" && s[18..21] == "com";
  }

  /** Without the '+', the as-written pattern accepts the address. */
  lemma AddressWithoutPlusAccepted()
    ensures ExtractKey(AsWritten, "eikonsymabc@gmail.com") == Some("abc")
  {
    var s := "eikonsymabc@gmail.com";
    AddressWithoutPlusMatch();
    assert SearchFrom(AsWritten, s, 0) == Some(Span(0, 8, 11));
    assert s[8..11] == "abc";
  }

  /** With the prefix and the domain escaped, every derived address gives
      back its key. */
  lemma EscapedRoundTrip(key: string)
    requires key != "" && AllAlnum(key)
    ensures ExtractKey(Escaped, EventEmail(key)) == Some(key)
  {
    var s := EventEmail(key);
    var n := |GmailPrefix|;
    assert s[0..n] == GmailPrefix;
    assert forall k :: n <= k < n + |key| ==> s[k] == key[k - n];
    assert s[n + |key|..] == "@" + GmailDomain;
    assert s[n + |key|] == '@';
    RunEndUnique(s, n, Alnums, n + |key|);
    assert MatchFrom(Escaped, s, 0) == Some((n, n + |key|));
  }
}
