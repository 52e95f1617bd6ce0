// Address prefixes and the set of addresses that a list of them covers.
module Cidr {

  function Pow2(n: nat): (p: nat)
    ensures p >= 1
  {
    if n == 0 then 1 else 2 * Pow2(n - 1)
  }

  /** A net.IP as its users compare it: the 16-byte form of an IPv4 address is
      the IPv4 address. */
  datatype IP = V4(address: nat) | V6(address: nat) {
    function Width(): nat { if V4? then 32 else 128 }

    predicate Wellformed() { address < Pow2(Width()) }

    predicate IsUnspecified() { address == 0 }
  }

  datatype IPCidr = IPCidr(ip: IP, cidr: nat) {
    predicate Wellformed() { ip.Wellformed() && cidr <= ip.Width() }

    function BlockSize(): (size: nat)
      ensures size >= 1
    {
      if cidr <= ip.Width() then Pow2(ip.Width() - cidr) else 1
    }

    /** The first cidr bits of x are those of the prefix. */
    predicate Contains(x: IP) {
      cidr <= ip.Width() && ip.V4? == x.V4? && x.address / BlockSize() == ip.address / BlockSize()
    }
  }

  predicate Covered(list: seq<IPCidr>, x: IP) {
    exists i :: 0 <= i < |list| && list[i].Contains(x)
  }

  /** How many entries contain x. */
  function Count(list: seq<IPCidr>, x: IP): nat {
    if list == [] then 0 else (if list[0].Contains(x) then 1 else 0) + Count(list[1..], x)
  }

  lemma {:induction false} CountCovers(list: seq<IPCidr>, x: IP)
    ensures Count(list, x) > 0 <==> Covered(list, x)
    decreases |list|
  {
    if list != [] {
      CountCovers(list[1..], x);
      CoveredConcat([list[0]], list[1..], x);
      assert list == [list[0]] + list[1..];
      assert Covered([list[0]], x) <==> list[0].Contains(x) by { assert [list[0]][0] == list[0]; }
    }
  }

  lemma CoveredConcat(a: seq<IPCidr>, b: seq<IPCidr>, x: IP)
    ensures Covered(a + b, x) <==> Covered(a, x) || Covered(b, x)
  {
    if Covered(a, x) { var i :| 0 <= i < |a| && a[i].Contains(x); assert (a + b)[i] == a[i]; }
    if Covered(b, x) { var i :| 0 <= i < |b| && b[i].Contains(x); assert (a + b)[|a| + i] == b[i]; }
  }

  lemma CoveredOne(c: IPCidr, x: IP)
    ensures Covered([c], x) <==> c.Contains(x)
  {
    assert [c][0] == c;
  }

  lemma SameElementsCover(a: seq<IPCidr>, b: seq<IPCidr>, x: IP)
    requires forall c :: c in a ==> c in b
    ensures Covered(a, x) ==> Covered(b, x)
  {
    if Covered(a, x) {
      var i :| 0 <= i < |a| && a[i].Contains(x);
      assert a[i] in b;
    }
  }

  // ---- Blocks as intervals -------------------------------------------------

  lemma DivideWithin(x: nat, base: nat, size: nat)
    requires size > 0 && base % size == 0
    ensures x / size == base / size <==> base <= x < base + size
  {
    var q, k := x / size, base / size;
    assert base == k * size && x == q * size + x % size;
    if q > k { MulMonotone(k + 1, q, size); }
    if q < k { MulMonotone(q + 1, k, size); }
  }

  lemma OwnMultiple(n: nat)
    requires n > 0
    ensures 0 % n == 0 && n % n == 0
  {}

  lemma MulMonotone(a: nat, b: nat, c: nat)
    requires a <= b
    ensures a * c <= b * c
  {}

  /** An aligned prefix contains exactly the addresses of its block. */
  lemma BlockContains(c: IPCidr, x: IP)
    requires c.cidr <= c.ip.Width() && c.ip.address % c.BlockSize() == 0 && c.ip.V4? == x.V4?
    ensures c.Contains(x) <==> c.ip.address <= x.address < c.ip.address + c.BlockSize()
  {
    DivideWithin(x.address, c.ip.address, c.BlockSize());
  }

  /** A prefix of length 0 contains its whole family. */
  lemma AllContains(c: IPCidr, x: IP)
    requires c.cidr == 0 && c.Wellformed() && x.Wellformed()
    ensures c.Contains(x) <==> c.ip.V4? == x.V4?
  {
    if c.ip.V4? == x.V4? {
      DivideWithin(x.address, 0, c.BlockSize());
      DivideWithin(c.ip.address, 0, c.BlockSize());
    }
  }
}
