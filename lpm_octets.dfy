/**
 * The IPv4 address as four octets (lpm/src/lpm/LongestPrefixMatcher.java):
 * ipToHuman takes an address apart with `(ip >> s) & 0xff`, and parseIP
 * puts it together again by OR-ing each parsed piece shifted into place.
 */
module Octets {
  import opened JavaInt

  /** (ip >> shift) & 0xff: one octet of the address, as a number 0..255. */
  function Octet(ip: int, shift: nat): (o: nat)
    requires shift < 32
    ensures o < 256
  {
    LowByte(ShiftRight(ip, shift))
  }

  /** Round i of parseIP: the piece v shifted left by 24 - 8i and OR-ed onto acc. */
  function Round(acc: int, v: int, i: nat): (r: int)
    requires i < 4
    ensures IsInt(r)
  {
    BitOr(acc, ShiftLeft(v, 24 - 8 * i))
  }

  /** The first |values| pieces OR-ed into place, piece k shifted left by 24 - 8k. */
  function Combine(values: seq<int>): (r: int)
    requires |values| <= 4
    ensures IsInt(r)
  {
    if values == [] then 0
    else Round(Combine(values[..|values| - 1]), values[|values| - 1], |values| - 1)
  }

  /** One more round of the combination. */
  lemma CombineStep(values: seq<int>, v: int)
    requires |values| < 4
    ensures Combine(values + [v]) == Round(Combine(values), v, |values|)
  {
    var w := values + [v];
    assert w[..|w| - 1] == values && w[|w| - 1] == v;
  }

  /** An int is the four bytes of its pattern, most significant first, shifted into place. */
  lemma OctetDigits(ip: int)
    requires IsInt(ip)
    ensures Unsigned(ip)
      == Octet(ip, 24) * TWO_24 + Octet(ip, 16) * TWO_16 + Octet(ip, 8) * TWO_8 + Octet(ip, 0)
  {
    Pow2Facts(0);
    var u := Unsigned(ip);
    UnsignedBytes(u);
    SameByte(ip, TWO_24, TWO_8);
    SameByte(ip, TWO_16, TWO_16);
    SameByte(ip, TWO_8, TWO_24);
    SameByte(ip, 1, TWO_32);
  }

  /** The pattern of an int is its unsigned value when that is below 2^32. */
  lemma ShiftedByte(o: int, n: nat)
    requires 0 <= o < TWO_8 && (n == 0 || n == 8 || n == 16 || n == 24)
    ensures Unsigned(ShiftLeft(o, n)) == o * Pow2(n)
  {
    Pow2Facts(0);
  }

  /**
   * One round of parseIP on a byte: OR-ing o << n onto a pattern whose low
   * n + 8 bits are clear adds o * 2^n.
   */
  lemma OrPlace(x: int, o: int, q: nat, n: nat, p: nat)
    requires 0 <= o < TWO_8 && (n == 0 || n == 8 || n == 16 || n == 24) && p == Pow2(n)
    requires Unsigned(x) == q * (p * TWO_8)
    ensures Unsigned(BitOr(x, ShiftLeft(o, n))) == Unsigned(x) + o * p
  {
    ShiftedByte(o, n);
    ByteBelow(o, n);
    OrOfDisjoint(x, ShiftLeft(o, n), q, n + 8);
  }

  /** A byte shifted left by n stays below 2^(n + 8), which is 2^n * 256. */
  lemma ByteBelow(o: int, n: nat)
    requires 0 <= o < TWO_8 && (n == 0 || n == 8 || n == 16 || n == 24)
    ensures o * Pow2(n) < Pow2(n + 8) == Pow2(n) * TWO_8
  {
    Pow2Facts(0);
    if n == 0 {} else if n == 8 {} else if n == 16 {} else {}
  }

  /** The four rounds of parseIP, written out. */
  lemma CombineChain(o0: int, o1: int, o2: int, o3: int)
    ensures Combine([o0, o1, o2, o3])
      == BitOr(BitOr(BitOr(BitOr(0, ShiftLeft(o0, 24)), ShiftLeft(o1, 16)), ShiftLeft(o2, 8)), ShiftLeft(o3, 0))
  {
    CombineStep([], o0);
    assert [] + [o0] == [o0];
    CombineStep([o0], o1);
    assert [o0] + [o1] == [o0, o1];
    CombineStep([o0, o1], o2);
    assert [o0, o1] + [o2] == [o0, o1, o2];
    CombineStep([o0, o1, o2], o3);
    assert [o0, o1, o2] + [o3] == [o0, o1, o2, o3];
  }

  /** The first two rounds of parseIP on bytes. */
  lemma TopBytes(o0: int, o1: int)
    requires 0 <= o0 < TWO_8 && 0 <= o1 < TWO_8
    ensures Unsigned(BitOr(BitOr(0, ShiftLeft(o0, 24)), ShiftLeft(o1, 16))) == o0 * TWO_24 + o1 * TWO_16
  {
    Pow2Facts(0);
    OrPlace(0, o0, 0, 24, TWO_24);
    OrPlace(BitOr(0, ShiftLeft(o0, 24)), o1, o0, 16, TWO_16);
  }

  /** Four bytes OR-ed into place by parseIP are the base-256 number they spell. */
  lemma CombineBytes(o0: int, o1: int, o2: int, o3: int)
    requires 0 <= o0 < TWO_8 && 0 <= o1 < TWO_8 && 0 <= o2 < TWO_8 && 0 <= o3 < TWO_8
    ensures Unsigned(Combine([o0, o1, o2, o3])) == o0 * TWO_24 + o1 * TWO_16 + o2 * TWO_8 + o3
  {
    Pow2Facts(0);
    var x2 := BitOr(BitOr(0, ShiftLeft(o0, 24)), ShiftLeft(o1, 16));
    TopBytes(o0, o1);
    var x3 := BitOr(x2, ShiftLeft(o2, 8));
    OrPlace(x2, o2, o0 * TWO_8 + o1, 8, TWO_8);
    OrPlace(x3, o3, o0 * TWO_16 + o1 * TWO_8 + o2, 0, 1);
    CombineChain(o0, o1, o2, o3);
  }

  /** The four octets, shifted back into place and OR-ed, are the address. */
  lemma OctetsRecombine(ip: int)
    requires IsInt(ip)
    ensures Combine([Octet(ip, 24), Octet(ip, 16), Octet(ip, 8), Octet(ip, 0)]) == ip
  {
    OctetDigits(ip);
    CombineBytes(Octet(ip, 24), Octet(ip, 16), Octet(ip, 8), Octet(ip, 0));
    var c := Combine([Octet(ip, 24), Octet(ip, 16), Octet(ip, 8), Octet(ip, 0)]);
    assert Wrap(c) == c && Wrap(ip) == ip;
  }
}
