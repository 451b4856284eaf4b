/**
 * The request filter of the browser extension (pewe/background.js). Before
 * a request leaves, the filter walks its headers in order: a Host header
 * naming a known tracker cancels the request, and every User-Agent header
 * passed on the way has its value replaced by "Hidden".
 */
module HeaderFilter {

  /** One request header; the filter changes values in place, never names. */
  datatype Header = Header(name: string, value: string)

  /** The listener's answer: {cancel: true}, or {requestHeaders: ...} with the (rewritten) headers. */
  datatype Verdict = Cancel | Forward

  /** Substrings of tracker host names. */
  const SPIES: seq<string> := ["chartbeat", "cdn", "securepubads", "2mdn"]

  const HIDDEN: string := "Hidden"

  /** sub occurs in s starting at position i. */
  predicate OccursAt(s: string, sub: string, i: nat)
  {
    i + |sub| <= |s| && s[i..i + |sub|] == sub
  }

  /** String.prototype.includes: sub occurs in s at some position. */
  predicate Includes(s: string, sub: string)
  {
    exists i: nat | i <= |s| :: OccursAt(s, sub, i)
  }

  /** A Host header whose value contains one of the tracker names. */
  predicate BlockedHost(h: Header)
  {
    h.name == "Host" && exists k | 0 <= k < |SPIES| :: Includes(h.value, SPIES[k])
  }

  /**
   * The position of the first blocked Host header, or the number of
   * headers when there is none: the loop's early return.
   */
  function FirstBlocked(hs: seq<Header>): (b: nat)
    ensures b <= |hs|
    ensures forall i :: 0 <= i < b ==> !BlockedHost(hs[i])
    ensures b < |hs| ==> BlockedHost(hs[b])
    ensures b < |hs| <==> exists i :: 0 <= i < |hs| && BlockedHost(hs[i])
  {
    if hs == [] then 0
    else if BlockedHost(hs[0]) then 0
    else 1 + FirstBlocked(hs[1..])
  }

  /** The header after the User-Agent rewrite. */
  function Hide(h: Header): Header
  {
    if h.name == "User-Agent" then h.(value := HIDDEN) else h
  }

  /**
   * The headers after the loop visited the first n of them: the same
   * number, in the same order, with the same names; User-Agent values
   * among the first n read "Hidden" and every other value is unchanged.
   */
  function Hidden(hs: seq<Header>, n: nat): (r: seq<Header>)
    ensures |r| == |hs|
    ensures forall i :: 0 <= i < |hs| ==> r[i].name == hs[i].name
    ensures forall i :: 0 <= i < |hs| ==>
      r[i].value == if i < n && hs[i].name == "User-Agent" then HIDDEN else hs[i].value
  {
    seq(|hs|, i requires 0 <= i < |hs| => if i < n then Hide(hs[i]) else hs[i])
  }

  /** The first blocked position is fixed by the first blocked header and the clean ones before it. */
  lemma {:induction false} FirstBlockedUnique(hs: seq<Header>, b: nat)
    requires b <= |hs|
    requires forall i :: 0 <= i < b ==> !BlockedHost(hs[i])
    requires b < |hs| ==> BlockedHost(hs[b])
    ensures FirstBlocked(hs) == b
    decreases b
  {
    if b > 0 {
      assert !BlockedHost(hs[0]);
      FirstBlockedUnique(hs[1..], b - 1);
    }
  }

  /**
   * Filtering its own output again changes nothing: the rewrite keeps
   * every Host header, so the same header blocks, and hidden values stay
   * hidden.
   */
  lemma FilterIdempotent(hs: seq<Header>)
    ensures var out := Hidden(hs, FirstBlocked(hs));
      FirstBlocked(out) == FirstBlocked(hs) && Hidden(out, FirstBlocked(out)) == out
  {
    var b := FirstBlocked(hs);
    var out := Hidden(hs, b);
    assert forall i :: 0 <= i < |hs| ==> (BlockedHost(out[i]) <==> BlockedHost(hs[i])) by {
      forall i | 0 <= i < |hs|
        ensures BlockedHost(out[i]) <==> BlockedHost(hs[i])
      {
        if hs[i].name == "Host" {
          assert out[i] == hs[i];
        }
      }
    }
    FirstBlockedUnique(out, b);
  }

  /**
   * onrequest: walks the headers in order; the first Host header that
   * contains a tracker name cancels the request, User-Agent values met on
   * the way become "Hidden", and without a tracker the rewritten headers
   * go out. The headers are rewritten in place in both cases.
   */
  method OnRequest(headers: array<Header>) returns (verdict: Verdict)
    modifies headers
    ensures headers[..] == Hidden(old(headers[..]), FirstBlocked(old(headers[..])))
    ensures verdict == Cancel <==> exists i :: 0 <= i < headers.Length && BlockedHost(old(headers[i]))
  {
    ghost var original := headers[..];
    for i := 0 to headers.Length
      invariant forall j :: 0 <= j < i ==> !BlockedHost(original[j])
      invariant headers[..] == Hidden(original, i)
    {
      var header := headers[i];
      assert header == original[i];
      if header.name == "Host" {
        for index := 0 to |SPIES|
          invariant forall k :: 0 <= k < index ==> !Includes(header.value, SPIES[k])
        {
          if Includes(header.value, SPIES[index]) {
            FirstBlockedUnique(original, i);
            return Cancel;
          }
        }
      }
      if header.name == "User-Agent" {
        headers[i] := header.(value := HIDDEN);
      }
      assert headers[..] == Hidden(original, i + 1);
    }
    FirstBlockedUnique(original, headers.Length);
    return Forward;
  }
}
