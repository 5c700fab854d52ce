/**
 IPv4 networks (internal/lab/cli.go): whether a network lies inside one of the
 lab's routes. The code compares masked addresses in 32-bit arithmetic; it is
 proved to say exactly whether every address of the network is one of the
 route's, for all lengths from 0 to 32.
*/
module PrefixSpec {
  import opened Words

  const BITS: nat := 32

  function Pow2(n: nat): (p: nat)
    ensures p >= 1
  {
    if n == 0 then 1 else 2 * Pow2(n - 1)
  }

  /** x shifted right by k. */
  function Shr(x: nat, k: nat): nat {
    if k == 0 then x else Shr(x / 2, k - 1)
  }

  /** x shifted left by k in arithmetic of w bits: what leaves the word is lost. */
  function Shl(x: nat, k: nat, w: nat): nat {
    if k == 0 then x else 2 * Shl(x, k - 1, w) % Pow2(w)
  }

  /** The bitwise and of two words of w bits. */
  function And(a: nat, b: nat, w: nat): nat {
    if w == 0 then 0 else 2 * And(a / 2, b / 2, w - 1) + (a % 2) * (b % 2)
  }

  /** A network in CIDR notation (section 3.1 of RFC 4632): an address and a prefix length. */
  datatype Net = Net(addr: nat, len: nat)

  predicate Valid(n: Net) {
    n.addr < Pow2(BITS) && n.len <= BITS
  }

  /** x is an address of the network: its first len bits are the network's. */
  predicate Member(x: nat, n: Net)
    requires Valid(n)
  {
    x < Pow2(BITS) && Shr(x, BITS - n.len) == Shr(n.addr, BITS - n.len)
  }

  /** Every address of n is one of r's. */
  ghost predicate Inside(n: Net, r: Net)
    requires Valid(n) && Valid(r)
  {
    forall x :: Member(x, n) ==> Member(x, r)
  }

  /** The mask of a prefix: all ones, shifted left by what it leaves free. */
  function Mask(len: nat): nat
    requires len <= BITS
  {
    Shl(0xFFFFFFFF, BITS - len, BITS)
  }

  /** The comparison the code makes. */
  predicate MasksAgree(n: Net, r: Net)
    requires Valid(n) && Valid(r)
  {
    r.len <= n.len && And(n.addr, Mask(r.len), BITS) == And(r.addr, Mask(r.len), BITS)
  }

  // ---- masks

  lemma {:induction false} Pow2Grows(a: nat, b: nat)
    requires a <= b
    ensures Pow2(a) <= Pow2(b)
  {
    if a < b { Pow2Grows(a, b - 1); }
  }

  lemma Pow2Of32()
    ensures Pow2(BITS) == 0x1_0000_0000
  {
    assert Pow2(8) == 256;
    assert Pow2(16) == 65536 by { assert Pow2(12) == 4096; }
    assert Pow2(24) == 0x100_0000 by { assert Pow2(20) == 0x10_0000; }
    assert Pow2(28) == 0x1000_0000;
  }

  /** A word of w bits: ones, and k zeros. */
  function Ones(w: nat, k: nat): nat
    requires k <= w
  {
    Pow2Grows(k, w);
    Pow2(w) - Pow2(k)
  }

  /** What shifting all ones left by k makes. */
  lemma {:induction false} OnesShifted(k: nat, w: nat)
    requires k <= w
    ensures Shl(Pow2(w) - 1, k, w) == Ones(w, k)
  {
    if k > 0 {
      OnesShifted(k - 1, w);
      Pow2Grows(k, w);
      OneShiftMore(Pow2(w) - 1, k, w, Pow2(w), Pow2(k - 1));
    }
  }

  /** One place more, from the value after k - 1. */
  lemma OneShiftMore(x: nat, k: nat, w: nat, m: nat, p: nat)
    requires 0 < k && m == Pow2(w) && 0 < p && 2 * p <= m && Shl(x, k - 1, w) == m - p
    ensures Shl(x, k, w) == m - 2 * p
  {
    LoseOneTurn(m, 2 * p);
    if 2 * p == m { ModuloOnce(m, m); }
  }

  lemma LoseOneTurn(m: nat, p: nat)
    requires 0 < p <= m
    ensures (2 * m - p) % m == if p == m then 0 else m - p
  {
    ModuloOnce(2 * m - p, m);
  }

  lemma {:induction false} AllOnesKeep(a: nat, w: nat)
    requires a < Pow2(w)
    ensures And(a, Pow2(w) - 1, w) == a
  {
    if w > 0 { AllOnesKeep(a / 2, w - 1); }
  }

  /** Under a mask with k zeros, two words agree exactly when they agree without their last k bits. */
  lemma {:induction false} MaskedAgreeIff(a: nat, b: nat, w: nat, k: nat)
    requires k <= w && a < Pow2(w) && b < Pow2(w)
    ensures And(a, Ones(w, k), w) == And(b, Ones(w, k), w) <==> Shr(a, k) == Shr(b, k)
  {
    if k == 0 {
      AllOnesKeep(a, w);
      AllOnesKeep(b, w);
    } else {
      MaskedAgreeIff(a / 2, b / 2, w - 1, k - 1);
      assert Ones(w, k) == 2 * Ones(w - 1, k - 1);
    }
  }

  lemma MaskIsOnes(len: nat)
    requires len <= BITS
    ensures Mask(len) == Ones(BITS, BITS - len)
  {
    Pow2Of32();
    OnesShifted(BITS - len, BITS);
  }

  lemma MasksAgreeIff(n: Net, r: Net)
    requires Valid(n) && Valid(r)
    ensures MasksAgree(n, r) <==> r.len <= n.len && Shr(n.addr, BITS - r.len) == Shr(r.addr, BITS - r.len)
  {
    MaskIsOnes(r.len);
    MaskedAgreeIff(n.addr, r.addr, BITS, BITS - r.len);
  }

  // ---- addresses

  lemma {:induction false} ShrShr(x: nat, j: nat, k: nat)
    ensures Shr(Shr(x, j), k) == Shr(x, j + k)
  {
    if j > 0 { ShrShr(x / 2, j - 1, k); }
  }

  /** x with bit j turned over. */
  function Flip(x: nat, j: nat): nat {
    if j == 0 then (if x % 2 == 0 then x + 1 else x - 1) else 2 * Flip(x / 2, j - 1) + x % 2
  }

  lemma Halves(x: nat, w: nat)
    requires 0 < w && x < Pow2(w)
    ensures x / 2 < Pow2(w - 1) && 0 <= x % 2 < 2
  {}

  lemma {:induction false} FlipStays(x: nat, j: nat, w: nat)
    requires j < w && x < Pow2(w)
    ensures Flip(x, j) < Pow2(w)
  {
    if j > 0 {
      Halves(x, w);
      FlipStays(x / 2, j - 1, w - 1);
    }
  }

  lemma {:induction false} FlipShows(x: nat, j: nat)
    ensures Shr(Flip(x, j), j) != Shr(x, j)
    ensures Shr(Flip(x, j), j + 1) == Shr(x, j + 1)
  {
    if j > 0 {
      FlipShows(x / 2, j - 1);
      assert Flip(x, j) / 2 == Flip(x / 2, j - 1);
    }
  }

  /** A longer prefix of the same network is inside a shorter one. */
  lemma InsideWhenAgree(n: Net, r: Net)
    requires Valid(n) && Valid(r) && r.len <= n.len && Shr(n.addr, BITS - r.len) == Shr(r.addr, BITS - r.len)
    ensures Inside(n, r)
  {
    forall x | Member(x, n) ensures Member(x, r) {
      ShrShr(x, BITS - n.len, n.len - r.len);
      ShrShr(n.addr, BITS - n.len, n.len - r.len);
    }
  }

  /** A network is not inside one with a longer prefix: an address with the next bit turned over is left out. */
  lemma LongerLeavesOut(n: Net, r: Net)
    requires Valid(n) && Valid(r) && n.len < r.len
    ensures !Inside(n, r)
  {
    var j := BITS - r.len;
    var x := Flip(n.addr, j);
    FlipStays(n.addr, j, BITS);
    FlipShows(n.addr, j);
    ShrShr(x, j + 1, r.len - n.len - 1);
    ShrShr(n.addr, j + 1, r.len - n.len - 1);
    assert Member(x, n) && Member(n.addr, n);
    assert !(Member(x, r) && Member(n.addr, r));
  }

  /** The masks agree exactly when every address of the network is one of the route's. */
  lemma MasksAgreeIffInside(n: Net, r: Net)
    requires Valid(n) && Valid(r)
    ensures MasksAgree(n, r) <==> Inside(n, r)
  {
    MasksAgreeIff(n, r);
    if r.len <= n.len {
      if Shr(n.addr, BITS - r.len) == Shr(r.addr, BITS - r.len) {
        InsideWhenAgree(n, r);
      } else {
        assert Member(n.addr, n) && !Member(n.addr, r);
      }
    } else {
      LongerLeavesOut(n, r);
    }
  }
}

module Routes {
  import opened Words
  import opened PrefixSpec

  predicate Digit(c: char) {
    '0' <= c <= '9'
  }

  predicate Digits(s: string) {
    forall i :: 0 <= i < |s| ==> Digit(s[i])
  }

  /** The first place of c from i on, or the end. */
  function Find(s: string, c: char, i: nat): (r: nat)
    requires i <= |s|
    ensures i <= r <= |s|
    decreases |s| - i
  {
    if i == |s| || s[i] == c then i else Find(s, c, i + 1)
  }

  /** The decimal value of digits; leading zeros do not matter. */
  function Decimal(s: string): nat
    requires Digits(s)
  {
    if s == "" then 0 else Decimal(s[..|s| - 1]) * 10 + (s[|s| - 1] as nat - '0' as nat)
  }

  /** One to three digits of at most 255. */
  function Octet(s: string): Option<nat> {
    if 1 <= |s| <= 3 && Digits(s) && Decimal(s) <= 255 then Some(Decimal(s)) else None
  }

  /** s as n octets with dots between them, after the value acc of those before. */
  function Quad(s: string, n: nat, acc: nat): Option<nat> {
    if n == 0 then None
    else if n == 1 then
      (var o := Octet(s); if o.None? then None else Some(acc * 256 + o.value))
    else
      var dot := Find(s, '.', 0);
      var o := Octet(s[..dot]);
      if dot == |s| || o.None? then None else Quad(s[dot + 1..], n - 1, acc * 256 + o.value)
  }

  /** A dotted quad as one number. */
  function Ip4(s: string): Option<nat> {
    Quad(s, 4, 0)
  }

  /** One or two digits, at most 32. */
  function PrefixLen(s: string): Option<nat> {
    if 1 <= |s| <= 2 && Digits(s) && Decimal(s) <= BITS then Some(Decimal(s)) else None
  }

  /** An address, a slash and a length. */
  function Parse(s: string): Option<Net> {
    var slash := Find(s, '/', 0);
    if slash == |s| then None
    else
      var n, a := PrefixLen(s[slash + 1..]), Ip4(s[..slash]);
      if n.None? || a.None? then None else Some(Net(a.value, n.value))
  }

  lemma {:induction false} QuadFits(s: string, n: nat, acc: nat, w: nat)
    requires acc < Pow2(w) && Quad(s, n, acc).Some?
    ensures Quad(s, n, acc).value < Pow2(w + 8 * n)
    decreases n
  {
    var o := Octet(if n == 1 then s else s[..Find(s, '.', 0)]).value;
    OctetFits(acc, w, o);
    if n > 1 {
      QuadFits(s[Find(s, '.', 0) + 1..], n - 1, acc * 256 + o, w + 8);
    }
  }

  lemma OctetFits(acc: nat, w: nat, o: nat)
    requires acc < Pow2(w) && o <= 255
    ensures acc * 256 + o < Pow2(w + 8)
  {
    assert Pow2(w + 2) == 4 * Pow2(w) && Pow2(w + 4) == 4 * Pow2(w + 2);
    assert Pow2(w + 6) == 4 * Pow2(w + 4) && Pow2(w + 8) == 4 * Pow2(w + 6);
  }

  lemma Ip4Fits(s: string)
    requires Ip4(s).Some?
    ensures Ip4(s).value < Pow2(BITS)
  {
    var octets: nat := 4;
    QuadFits(s, octets, 0, 0);
    assert 0 + 8 * octets == BITS;
  }

  lemma {:induction false} FindPast(a: string, c: char, rest: string, i: nat)
    requires i <= |a| && forall k :: 0 <= k < |a| ==> a[k] != c
    ensures Find(a + [c] + rest, c, i) == |a|
    decreases |a| - i
  {
    var s := a + [c] + rest;
    if i < |a| {
      assert s[i] == a[i];
      FindPast(a, c, rest, i + 1);
    } else {
      assert s[i] == c;
    }
  }

  lemma DotEnds(a: string, rest: string)
    requires Octet(a).Some?
    ensures var s := a + "." + rest; Find(s, '.', 0) == |a| && s[..|a|] == a && s[|a| + 1..] == rest
  {
    FindPast(a, '.', rest, 0);
    assert a + "." + rest == a + ['.'] + rest;
  }

  lemma QuadReads(a: string, rest: string, n: nat, acc: nat)
    requires n > 1 && Octet(a).Some?
    ensures Quad(a + "." + rest, n, acc) == Quad(rest, n - 1, acc * 256 + Octet(a).value)
  {
    DotEnds(a, rest);
  }

  /** Four octets with dots between them are read as one number, the first octet the highest. */
  lemma Ip4Reads(a: string, b: string, c: string, d: string)
    requires Octet(a).Some? && Octet(b).Some? && Octet(c).Some? && Octet(d).Some?
    ensures Ip4(a + "." + (b + "." + (c + "." + d)))
         == Some(Octet(a).value * 0x100_0000 + Octet(b).value * 0x1_0000 + Octet(c).value * 0x100 + Octet(d).value)
  {
    QuadReads(a, b + "." + (c + "." + d), 4, 0);
    QuadReads(b, c + "." + d, 3, Octet(a).value);
    QuadReads(c, d, 2, Octet(a).value * 256 + Octet(b).value);
  }

  lemma QuadSplits(s: string, n: nat, acc: nat) returns (a: string, rest: string)
    requires n > 1 && Quad(s, n, acc).Some?
    ensures Octet(a).Some? && s == a + "." + rest && Quad(rest, n - 1, acc * 256 + Octet(a).value).Some?
  {
    var dot := Find(s, '.', 0);
    a, rest := s[..dot], s[dot + 1..];
    FindStops(s, '.', 0);
    assert s == s[..dot] + [s[dot]] + s[dot + 1..];
  }

  lemma {:induction false} FindStops(s: string, c: char, i: nat)
    requires i <= |s|
    ensures Find(s, c, i) < |s| ==> s[Find(s, c, i)] == c
    decreases |s| - i
  {
    if i < |s| && s[i] != c { FindStops(s, c, i + 1); }
  }

  /** And nothing else is an address. */
  lemma Ip4IsFourOctets(s: string) returns (a: string, b: string, c: string, d: string)
    requires Ip4(s).Some?
    ensures Octet(a).Some? && Octet(b).Some? && Octet(c).Some? && Octet(d).Some?
    ensures s == a + "." + (b + "." + (c + "." + d))
  {
    var r1, r2;
    a, r1 := QuadSplits(s, 4, 0);
    b, r2 := QuadSplits(r1, 3, Octet(a).value);
    c, d := QuadSplits(r2, 2, Octet(a).value * 256 + Octet(b).value);
  }

  /** What is parsed is a network. */
  lemma ParsedIsValid(s: string)
    requires Parse(s).Some?
    ensures Valid(Parse(s).value)
  {
    Ip4Fits(s[..Find(s, '/', 0)]);
  }

  /** Route i is a network, and every address of n is one of its. */
  ghost predicate Leads(n: Net, routes: seq<string>, i: nat)
    requires Valid(n) && i < |routes|
  {
    Parse(routes[i]).Some? && (ParsedIsValid(routes[i]); Inside(n, Parse(routes[i]).value))
  }

  /** Whether the network lies inside one of the routes; routes that are not networks do not count. */
  method InRoutes(cidr: string, routes: seq<string>) returns (inside: bool)
    ensures Parse(cidr).Some? ==> Valid(Parse(cidr).value)
    ensures inside <==> Parse(cidr).Some? && exists i :: 0 <= i < |routes| && Leads(Parse(cidr).value, routes, i)
  {
    var net := Parse(cidr);
    if net.None? { return false; }
    ParsedIsValid(cidr);
    for i := 0 to |routes|
      invariant forall k :: 0 <= k < i ==> !Leads(net.value, routes, k)
    {
      var r := Parse(routes[i]);
      if r.Some? {
        ParsedIsValid(routes[i]);
        MasksAgreeIffInside(net.value, r.value);
        if r.value.len <= net.value.len {
          var mask := Mask(r.value.len);
          if And(net.value.addr, mask, BITS) == And(r.value.addr, mask, BITS) {
            assert Leads(net.value, routes, i);
            return true;
          }
        }
      }
    }
    return false;
  }
}
