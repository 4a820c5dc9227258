/** Event-key generation: a random token is reduced to its ASCII letters
    and digits, cut to twelve characters, and re-drawn until no event
    holds it. */
module Keys {
  import opened Common

  const MaxKeyLength: nat := 12

  /** `re.sub(r'[^a-zA-Z0-9]', '', s)`: the letters and digits of `s`, in order. */
  function KeepAlnum(s: string): (r: string)
    ensures AllAlnum(r)
    ensures |r| <= |s|
  {
    if s == [] then []
    else (if IsAlnum(s[0]) then [s[0]] else []) + KeepAlnum(s[1..])
  }

  /** The filter works character by character: it distributes over
      concatenation. With `KeepAlnumSingle` this determines it. */
  lemma {:induction false} KeepAlnumAppend(a: string, b: string)
    ensures KeepAlnum(a + b) == KeepAlnum(a) + KeepAlnum(b)
  {
    if a == [] {
      assert a + b == b;
    } else {
      assert (a + b)[0] == a[0];
      assert (a + b)[1..] == a[1..] + b;
      KeepAlnumAppend(a[1..], b);
    }
  }

  lemma KeepAlnumSingle(c: char)
    ensures KeepAlnum([c]) == if IsAlnum(c) then [c] else []
  {
    assert [c][1..] == [];
  }

  /** Strings that are already alphanumeric pass through unchanged. */
  lemma {:induction false} KeepAlnumKeepsKeys(s: string)
    requires AllAlnum(s)
    ensures KeepAlnum(s) == s
  {
    if s != [] {
      KeepAlnumKeepsKeys(s[1..]);
    }
  }

  /** One candidate key from one token: filter first, then keep at most
      twelve of the characters that survived the filter. */
  function Candidate(token: string): (r: string)
    ensures AllAlnum(r)
    ensures |r| <= MaxKeyLength
    ensures |r| <= |KeepAlnum(token)| && r == KeepAlnum(token)[..|r|]
    ensures |r| == if |KeepAlnum(token)| < MaxKeyLength then |KeepAlnum(token)| else MaxKeyLength
  {
    var kept := KeepAlnum(token);
    if |kept| <= MaxKeyLength then kept else kept[..MaxKeyLength]
  }

  /** A token of `secrets.token_urlsafe(8)`: eleven characters of the
      URL-safe base64 alphabet. */
  predicate UrlSafeToken(t: string)
  {
    |t| == 11 && forall k :: 0 <= k < |t| ==> IsAlnum(t[k]) || t[k] == '-' || t[k] == '_'
  }

  /** For the tokens the library draws, the cut to twelve never shortens
      anything, and a token made only of `-` and `_` yields the empty key. */
  lemma UrlSafeCandidate(t: string)
    requires UrlSafeToken(t)
    ensures |Candidate(t)| <= 11
    ensures (forall k :: 0 <= k < |t| ==> !IsAlnum(t[k])) ==> Candidate(t) == ""
  {
    if forall k :: 0 <= k < |t| ==> !IsAlnum(t[k]) {
      KeepAlnumNone(t);
    }
  }

  lemma {:induction false} KeepAlnumNone(s: string)
    requires forall k :: 0 <= k < |s| ==> !IsAlnum(s[k])
    ensures KeepAlnum(s) == ""
  {
    if s != [] {
      KeepAlnumNone(s[1..]);
    }
  }

  /** `generate_event_key`: draw tokens `draw(0)`, `draw(1)`, ... until the
      candidate is held by no event in `used`. Returns the key and the
      index of the draw that produced it. The source loops forever when
      no draw is ever fresh; the requires states that some draw is. */
  method GenerateEventKey(used: set<string>, draw: nat -> string) returns (key: string, n: nat)
    requires exists m: nat :: Candidate(draw(m)) !in used
    ensures key !in used
    ensures AllAlnum(key) && |key| <= MaxKeyLength
    ensures key == Candidate(draw(n))
    ensures forall m :: 0 <= m < n ==> Candidate(draw(m)) in used
  {
    ghost var bound: nat :| Candidate(draw(bound)) !in used;
    n := 0;
    key := Candidate(draw(n));
    while key in used
      invariant n <= bound
      invariant key == Candidate(draw(n))
      invariant forall m :: 0 <= m < n ==> Candidate(draw(m)) in used
      decreases bound - n
    {
      n := n + 1;
      key := Candidate(draw(n));
    }
  }
}
