/**
 * The longest-prefix IPv4 lookup table (lpm/src/lpm/LongestPrefixMatcher.java).
 * Addresses and keys are Java ints, with Java's arithmetic right shift and
 * five-bit shift-count masking written out (module JavaInt). The table is a
 * list of 33 maps, one per prefix length, from the address shifted right by
 * 32 - length to a port number.
 */
module PrefixMatcher {
  import opened Wrappers
  import opened Decimal
  import opened JavaInt
  import opened Octets

  /** The key of an address in the map of one prefix length: ip >> 32 - len. */
  function Prefix(ip: int, len: int): int
    requires 0 <= len <= 32
  {
    ShiftRight(ip, ShiftCount(32 - len))
  }

  /** A route of length 0 is keyed by the whole address, the shift by 32 being a shift by 0. */
  lemma PrefixZero(ip: int)
    ensures Prefix(ip, 0) == ip
  {
  }

  /** The addresses of the block ip/len: the 2^(32-len) addresses from its first one. */
  function BlockSize(len: int): int
    requires 1 <= len <= 32
  {
    Pow2(32 - len)
  }

  /**
   * For lengths 1..32 an address has the same key as ip exactly when it lies
   * in the aligned block of 2^(32-len) addresses that contains ip, that is
   * when the two share their top len bits.
   */
  lemma SameKeyIffSameBlock(x: int, ip: int, len: int)
    requires 1 <= len <= 32
    ensures var p := Prefix(ip, len);
      Prefix(x, len) == p <==> p * BlockSize(len) <= x < p * BlockSize(len) + BlockSize(len)
  {
    DivIff(x, BlockSize(len), Prefix(ip, len));
  }

  /**
   * lookup as a specification: the port stored under the address's key in
   * the map of the longest length from `from` down to 1 that has one, -1
   * when none does. The map of length 0 is never consulted.
   */
  ghost function LookupFrom(routes: seq<map<int, int>>, ip: int, from: int): int
    requires |routes| == 33 && 0 <= from <= 32
    decreases from
  {
    if from == 0 then -1
    else if Prefix(ip, from) in routes[from] then routes[from][Prefix(ip, from)]
    else LookupFrom(routes, ip, from - 1)
  }

  /** A matching length no longer one beats: the lookup answers with its port. */
  lemma {:induction false} LongestMatchWins(routes: seq<map<int, int>>, ip: int, len: int, from: int)
    requires |routes| == 33 && 1 <= len <= from <= 32
    requires Prefix(ip, len) in routes[len]
    requires forall j :: len < j <= from ==> Prefix(ip, j) !in routes[j]
    ensures LookupFrom(routes, ip, from) == routes[len][Prefix(ip, len)]
    decreases from
  {
    if from > len {
      LongestMatchWins(routes, ip, len, from - 1);
    }
  }

  /** No matching length among 1..from: the lookup answers -1. */
  lemma {:induction false} NoMatchMinusOne(routes: seq<map<int, int>>, ip: int, from: int)
    requires |routes| == 33 && 0 <= from <= 32
    requires forall j :: 1 <= j <= from ==> Prefix(ip, j) !in routes[j]
    ensures LookupFrom(routes, ip, from) == -1
    decreases from
  {
    if from > 0 {
      NoMatchMinusOne(routes, ip, from - 1);
    }
  }

  /** The table after addRoute(ip, len, port): map len maps ip's key to port; nothing else changes. */
  function Added(routes: seq<map<int, int>>, ip: int, len: int, port: int): (r: seq<map<int, int>>)
    requires |routes| == 33 && 0 <= len <= 32
    ensures |r| == 33
    ensures forall j :: 0 <= j < 33 && j != len ==> r[j] == routes[j]
    ensures r[len].Keys == routes[len].Keys + {Prefix(ip, len)} && r[len][Prefix(ip, len)] == port
    ensures forall k :: k in routes[len] && k != Prefix(ip, len) ==> r[len][k] == routes[len][k]
  {
    routes[len := routes[len][Prefix(ip, len) := port]]
  }

  /**
   * After addRoute(ip, len, port) with len in 1..32, every address of the
   * block ip/len is looked up to port, unless a longer route matches it.
   */
  lemma AddedRouteFound(routes: seq<map<int, int>>, ip: int, len: int, port: int, x: int)
    requires |routes| == 33 && 1 <= len <= 32
    requires var p := Prefix(ip, len); p * BlockSize(len) <= x < p * BlockSize(len) + BlockSize(len)
    requires forall j :: len < j <= 32 ==> Prefix(x, j) !in routes[j]
    ensures LookupFrom(Added(routes, ip, len, port), x, 32) == port
  {
    SameKeyIffSameBlock(x, ip, len);
    var r := Added(routes, ip, len, port);
    LongestMatchWins(r, x, len, 32);
  }

  /** ipToHuman: the four octets in decimal, most significant first, joined by dots. */
  function IpToHuman(ip: int): string
  {
    Digits(Octet(ip, 24)) + "." + Digits(Octet(ip, 16)) + "." + Digits(Octet(ip, 8)) + "." + Digits(Octet(ip, 0))
  }

  /** The pieces of s between dots, empty ones included. */
  function RawSplit(s: string): (r: seq<string>)
    ensures |r| >= 1
  {
    if s == [] then [[]]
    else if s[0] == '.' then [[]] + RawSplit(s[1..])
    else
      var rest := RawSplit(s[1..]);
      [[s[0]] + rest[0]] + rest[1..]
  }

  function DropTrailingEmpty(parts: seq<string>): (r: seq<string>)
    ensures |r| <= |parts| && r == parts[..|r|]
    ensures r == [] || r[|r| - 1] != []
  {
    if parts == [] || parts[|parts| - 1] != [] then parts else DropTrailingEmpty(parts[..|parts| - 1])
  }

  /**
   * String.split("\\.") in Java: without a dot the whole string is the one
   * piece; otherwise the pieces between dots, trailing empty pieces removed.
   */
  function Split(s: string): seq<string>
  {
    if '.' !in s then [s] else DropTrailingEmpty(RawSplit(s))
  }

  /** A piece without dots stays whole. */
  lemma {:induction false} RawSplitNoDot(a: string)
    requires '.' !in a
    ensures RawSplit(a) == [a]
  {
    if a != [] {
      assert '.' !in a[1..];
      RawSplitNoDot(a[1..]);
      assert [a[0]] + a[1..] == a;
    }
  }

  /** A dot after a dot-free piece ends that piece. */
  lemma {:induction false} RawSplitDot(a: string, b: string)
    requires '.' !in a
    ensures RawSplit(a + "." + b) == [a] + RawSplit(b)
  {
    if a == [] {
      assert a + "." + b == "." + b;
      assert ("." + b)[1..] == b;
    } else {
      var s := a + "." + b;
      assert s[0] == a[0] && s[1..] == a[1..] + "." + b;
      assert '.' !in a[1..];
      RawSplitDot(a[1..], b);
      assert [a[0]] + a[1..] == a;
    }
  }

  /**
   * The loop of parseIP over its first n rounds: round i reads piece i,
   * which must exist (else ArrayIndexOutOfBoundsException) and be a Java int
   * (else NumberFormatException); None when a round throws.
   */
  function ParsedPieces(parts: seq<string>, n: nat): (r: Option<seq<int>>)
    ensures r.Some? ==> |r.value| == n && n <= |parts|
    ensures r.Some? ==> forall j :: 0 <= j < n ==> IsInt(r.value[j])
  {
    if n == 0 then Some([])
    else
      match ParsedPieces(parts, n - 1)
      case None => None
      case Some(vs) =>
        if n - 1 >= |parts| then None
        else
          match ParseInt(parts[n - 1])
          case None => None
          case Some(v) => Some(vs + [v])
  }

  /** One more round of parseIP that reads a piece. */
  lemma ParsedStep(parts: seq<string>, n: nat, vs: seq<int>, v: int)
    requires ParsedPieces(parts, n) == Some(vs) && n < |parts| && ParseInt(parts[n]) == Some(v)
    ensures ParsedPieces(parts, n + 1) == Some(vs + [v])
  {
  }

  /** A round of parseIP that throws: no later round is reached. */
  lemma {:induction false} ParsedFails(parts: seq<string>, n: nat, m: nat)
    requires ParsedPieces(parts, n).Some? && n < m
    requires n >= |parts| || ParseInt(parts[n]).None?
    ensures ParsedPieces(parts, m) == None
    decreases m
  {
    if m > n + 1 {
      ParsedFails(parts, n, m - 1);
    }
  }

  /** parseIP as a specification: the four pieces combined, None when a round throws. */
  function ParseIPSpec(s: string): Option<int>
  {
    match ParsedPieces(Split(s), 4)
    case None => None
    case Some(vs) => Some(Combine(vs))
  }

  /** Decimal digits contain no dot. */
  lemma NoDotInDigits(n: nat)
    ensures '.' !in Digits(n)
  {
    assert AllDigits(Digits(n));
  }

  /** Four dot-free pieces joined by dots split back into the four, the last one non-empty. */
  lemma SplitFour(d0: string, d1: string, d2: string, d3: string)
    requires '.' !in d0 && '.' !in d1 && '.' !in d2 && '.' !in d3 && d3 != []
    ensures Split(d0 + "." + d1 + "." + d2 + "." + d3) == [d0, d1, d2, d3]
  {
    var t2 := d2 + "." + d3;
    var t1 := d1 + "." + t2;
    var s := d0 + "." + t1;
    assert d0 + "." + d1 + "." + d2 + "." + d3 == s;
    RawSplitNoDot(d3);
    RawSplitDot(d2, d3);
    assert RawSplit(t2) == [d2, d3];
    RawSplitDot(d1, t2);
    assert RawSplit(t1) == [d1, d2, d3];
    RawSplitDot(d0, t1);
    assert RawSplit(s) == [d0, d1, d2, d3];
    assert s[|d0|] == '.';
  }

  /** Splitting the text of ipToHuman at its dots gives back the four decimal octets. */
  lemma SplitHuman(ip: int)
    ensures Split(IpToHuman(ip))
      == [Digits(Octet(ip, 24)), Digits(Octet(ip, 16)), Digits(Octet(ip, 8)), Digits(Octet(ip, 0))]
  {
    NoDotInDigits(Octet(ip, 24));
    NoDotInDigits(Octet(ip, 16));
    NoDotInDigits(Octet(ip, 8));
    NoDotInDigits(Octet(ip, 0));
    SplitFour(Digits(Octet(ip, 24)), Digits(Octet(ip, 16)), Digits(Octet(ip, 8)), Digits(Octet(ip, 0)));
  }

  /** The four rounds of parseIP over four decimal numbers read them back. */
  lemma ParsedDigits(a: nat, b: nat, c: nat, d: nat)
    requires a < 256 && b < 256 && c < 256 && d < 256
    ensures ParsedPieces([Digits(a), Digits(b), Digits(c), Digits(d)], 4) == Some([a, b, c, d])
  {
    var parts := [Digits(a), Digits(b), Digits(c), Digits(d)];
    ParseIntDigits(a);
    ParseIntDigits(b);
    ParseIntDigits(c);
    ParseIntDigits(d);
    ParsedStep(parts, 0, [], a);
    assert [] + [a] == [a];
    ParsedStep(parts, 1, [a], b);
    assert [a] + [b] == [a, b];
    ParsedStep(parts, 2, [a, b], c);
    assert [a, b] + [c] == [a, b, c];
    ParsedStep(parts, 3, [a, b, c], d);
    assert [a, b, c] + [d] == [a, b, c, d];
  }

  /** parseIP reads back what ipToHuman writes, for every address. */
  lemma ParseIPRoundTrip(ip: int)
    requires IsInt(ip)
    ensures ParseIPSpec(IpToHuman(ip)) == Some(ip)
  {
    SplitHuman(ip);
    ParsedDigits(Octet(ip, 24), Octet(ip, 16), Octet(ip, 8), Octet(ip, 0));
    OctetsRecombine(ip);
  }

  /** An empty prefix table: one map per length 0..32. */
  function EmptyRoutes(): (r: seq<map<int, int>>)
    ensures |r| == 33 && forall j :: 0 <= j < 33 ==> r[j] == map[]
  {
    seq(33, _ => map[])
  }

  class LongestPrefixMatcher {
    /** routes[len] maps the key of a prefix of length len to its port. */
    var routes: seq<map<int, int>>

    ghost predicate Valid()
      reads this
    {
      |routes| == 33
    }

    /** One empty map per prefix length 0..32, added in a loop. */
    constructor ()
      ensures Valid() && routes == EmptyRoutes()
    {
      var tables: seq<map<int, int>> := [];
      var i := 32;
      while i >= 0
        invariant -1 <= i <= 32
        invariant |tables| == 32 - i && forall j :: 0 <= j < |tables| ==> tables[j] == map[]
      {
        tables := tables + [map[]];
        i := i - 1;
      }
      routes := tables;
    }

    /** addRoute: store port under ip's key in the map of its length, overwriting. */
    method AddRoute(ip: int, prefixLength: int, portNumber: int)
      requires Valid() && 0 <= prefixLength <= 32
      modifies this
      ensures Valid() && routes == Added(old(routes), ip, prefixLength, portNumber)
    {
      var prefix := Prefix(ip, prefixLength);
      routes := routes[prefixLength := routes[prefixLength][prefix := portNumber]];
    }

    /** lookup: scan the lengths from 32 down to 1 and answer at the first key found. */
    method Lookup(ip: int) returns (port: int)
      requires Valid()
      ensures port == LookupFrom(routes, ip, 32)
    {
      var i := 32;
      while i > 0
        invariant 0 <= i <= 32
        invariant LookupFrom(routes, ip, i) == LookupFrom(routes, ip, 32)
      {
        var prefix := Prefix(ip, i);
        if prefix in routes[i] {
          return routes[i][prefix];
        }
        i := i - 1;
      }
      return -1;
    }
  }

  /** parseIP: OR the four parsed pieces into place, one per loop round. */
  method ParseIP(ipString: string) returns (r: Option<int>)
    ensures r == ParseIPSpec(ipString)
  {
    var ipParts := Split(ipString);
    var ip := 0;
    ghost var values: seq<int> := [];
    for i := 0 to 4
      invariant ParsedPieces(ipParts, i) == Some(values)
      invariant ip == Combine(values)
    {
      if i >= |ipParts| {
        ParsedFails(ipParts, i, 4);
        return None;
      }
      var parsed := ParseInt(ipParts[i]);
      if parsed.None? {
        ParsedFails(ipParts, i, 4);
        return None;
      }
      ParsedStep(ipParts, i, values, parsed.value);
      CombineStep(values, parsed.value);
      ip := BitOr(ip, ShiftLeft(parsed.value, 24 - 8 * i));
      values := values + [parsed.value];
    }
    return Some(ip);
  }
}
