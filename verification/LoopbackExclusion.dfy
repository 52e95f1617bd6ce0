// Taking 127.0.0.1 out of the allowed addresses, and putting it back.
module LoopbackExclusion {
  import opened Text
  import opened Cidr

  function Quad(a: nat, b: nat, c: nat, d: nat): nat { ((a * 256 + b) * 256 + c) * 256 + d }

  function Net(a: nat, b: nat, c: nat, d: nat, cidr: nat): IPCidr { IPCidr(V4(Quad(a, b, c, d)), cidr) }

  const LOOPBACK := V4(Quad(127, 0, 0, 1))
  const ALL_V4 := IPCidr(V4(0), 0)
  const ALL_V6 := IPCidr(V6(0), 0)

  /** The subnets that stand for everything but 127.0.0.1, in four parts. */
  const BELOW: seq<IPCidr> := [
    Net(0, 0, 0, 0, 2), Net(64, 0, 0, 0, 3), Net(96, 0, 0, 0, 4), Net(112, 0, 0, 0, 5),
    Net(120, 0, 0, 0, 6), Net(124, 0, 0, 0, 7), Net(126, 0, 0, 0, 8), Net(127, 0, 0, 0, 32)
  ]
  const NEAR: seq<IPCidr> := [
    Net(127, 0, 0, 2, 31), Net(127, 0, 0, 4, 30), Net(127, 0, 0, 8, 29), Net(127, 0, 0, 16, 28),
    Net(127, 0, 0, 32, 27), Net(127, 0, 0, 64, 26), Net(127, 0, 0, 128, 25), Net(127, 0, 1, 0, 24)
  ]
  const MIDDLE: seq<IPCidr> := [
    Net(127, 0, 2, 0, 23), Net(127, 0, 4, 0, 22), Net(127, 0, 8, 0, 21), Net(127, 0, 16, 0, 20),
    Net(127, 0, 32, 0, 19), Net(127, 0, 64, 0, 18), Net(127, 0, 128, 0, 17), Net(127, 1, 0, 0, 16)
  ]
  const ABOVE: seq<IPCidr> := [
    Net(127, 2, 0, 0, 15), Net(127, 4, 0, 0, 14), Net(127, 8, 0, 0, 13), Net(127, 16, 0, 0, 12),
    Net(127, 32, 0, 0, 11), Net(127, 64, 0, 0, 10), Net(127, 128, 0, 0, 9), Net(128, 0, 0, 0, 1)
  ]
  const SUBNETS := BELOW + NEAR + MIDDLE + ABOVE

  lemma Powers()
    ensures Pow2(0) == 1 && Pow2(1) == 2 && Pow2(2) == 4 && Pow2(3) == 8
    ensures Pow2(4) == 16 && Pow2(5) == 32 && Pow2(6) == 64 && Pow2(7) == 128
    ensures Pow2(8) == 256 && Pow2(9) == 512 && Pow2(10) == 1024 && Pow2(11) == 2048
    ensures Pow2(12) == 4096 && Pow2(13) == 8192 && Pow2(14) == 16384 && Pow2(15) == 32768
    ensures Pow2(16) == 65536 && Pow2(17) == 131072 && Pow2(18) == 262144 && Pow2(19) == 524288
    ensures Pow2(20) == 1048576 && Pow2(21) == 2097152 && Pow2(22) == 4194304 && Pow2(23) == 8388608
    ensures Pow2(24) == 16777216 && Pow2(25) == 33554432 && Pow2(26) == 67108864 && Pow2(27) == 134217728
    ensures Pow2(28) == 268435456 && Pow2(29) == 536870912 && Pow2(30) == 1073741824 && Pow2(31) == 2147483648
    ensures Pow2(32) == 4294967296
  {
    assert Pow2(3) == 8;
    assert Pow2(6) == 64;
    assert Pow2(9) == 512;
    assert Pow2(12) == 4096;
    assert Pow2(15) == 32768;
    assert Pow2(18) == 262144;
    assert Pow2(21) == 2097152;
    assert Pow2(24) == 16777216;
    assert Pow2(27) == 134217728;
    assert Pow2(30) == 1073741824;
  }

  /** Entry k is the aligned block of the addresses from start up to end. */
  ghost predicate Block(list: seq<IPCidr>, k: nat, start: nat, end: nat) {
    k < |list| && var c := list[k];
    c.ip == V4(start) && c.cidr <= 32 && start % c.BlockSize() == 0 && start + c.BlockSize() == end
  }

  /** Each block ends where the next one begins. */
  ghost predicate Contiguous(list: seq<IPCidr>, end: nat) {
    forall k :: 0 <= k < |list| ==> Block(list, k, list[k].ip.address, NextStart(list, k, end))
  }

  ghost predicate Stretch(list: seq<IPCidr>, start: nat, end: nat) {
    list != [] && list[0].ip == V4(start) && Contiguous(list, end)
  }

  function NextStart(list: seq<IPCidr>, k: nat, end: nat): nat {
    if k + 1 < |list| then list[k + 1].ip.address else end
  }

  lemma {:induction false} CountContiguous(list: seq<IPCidr>, k: nat, end: nat, x: IP)
    requires Contiguous(list, end) && k < |list| && x.V4?
    ensures Count(list[k..], x) == if list[k].ip.address <= x.address < end then 1 else 0
    ensures list[k].ip.address < end
    decreases |list| - k
  {
    assert Block(list, k, list[k].ip.address, NextStart(list, k, end));
    BlockContains(list[k], x);
    assert list[k..][1..] == list[k + 1..];
    if k + 1 < |list| {
      CountContiguous(list, k + 1, end, x);
    }
  }

  lemma CountAll(list: seq<IPCidr>, start: nat, end: nat, x: IP)
    requires Stretch(list, start, end) && x.V4?
    ensures Count(list, x) == if start <= x.address < end then 1 else 0
  {
    CountContiguous(list, 0, end, x);
    assert list[0..] == list;
  }

  lemma BelowBlocks()
    ensures Block(BELOW, 0, 0, 1073741824) && Block(BELOW, 1, 1073741824, 1610612736)
    ensures Block(BELOW, 2, 1610612736, 1879048192) && Block(BELOW, 3, 1879048192, 2013265920)
    ensures Block(BELOW, 4, 2013265920, 2080374784) && Block(BELOW, 5, 2080374784, 2113929216)
    ensures Block(BELOW, 6, 2113929216, 2130706432) && Block(BELOW, 7, 2130706432, 2130706433)
  {
    Powers();
  }

  lemma BelowContiguous()
    ensures Stretch(BELOW, 0, 2130706433)
  {
    BelowBlocks();
  }

  lemma CountBelow(x: IP)
    requires x.V4?
    ensures Count(BELOW, x) == if 0 <= x.address < 2130706433 then 1 else 0
  {
    BelowContiguous();
    CountAll(BELOW, 0, 2130706433, x);
  }

  lemma NearBlocks()
    ensures Block(NEAR, 0, 2130706434, 2130706436) && Block(NEAR, 1, 2130706436, 2130706440)
    ensures Block(NEAR, 2, 2130706440, 2130706448) && Block(NEAR, 3, 2130706448, 2130706464)
    ensures Block(NEAR, 4, 2130706464, 2130706496) && Block(NEAR, 5, 2130706496, 2130706560)
    ensures Block(NEAR, 6, 2130706560, 2130706688) && Block(NEAR, 7, 2130706688, 2130706944)
  {
    Powers();
  }

  lemma NearContiguous()
    ensures Stretch(NEAR, 2130706434, 2130706944)
  {
    NearBlocks();
  }

  lemma CountNear(x: IP)
    requires x.V4?
    ensures Count(NEAR, x) == if 2130706434 <= x.address < 2130706944 then 1 else 0
  {
    NearContiguous();
    CountAll(NEAR, 2130706434, 2130706944, x);
  }

  lemma MiddleBlocks()
    ensures Block(MIDDLE, 0, 2130706944, 2130707456) && Block(MIDDLE, 1, 2130707456, 2130708480)
    ensures Block(MIDDLE, 2, 2130708480, 2130710528) && Block(MIDDLE, 3, 2130710528, 2130714624)
    ensures Block(MIDDLE, 4, 2130714624, 2130722816) && Block(MIDDLE, 5, 2130722816, 2130739200)
    ensures Block(MIDDLE, 6, 2130739200, 2130771968) && Block(MIDDLE, 7, 2130771968, 2130837504)
  {
    Powers();
  }

  lemma MiddleContiguous()
    ensures Stretch(MIDDLE, 2130706944, 2130837504)
  {
    MiddleBlocks();
  }

  lemma CountMiddle(x: IP)
    requires x.V4?
    ensures Count(MIDDLE, x) == if 2130706944 <= x.address < 2130837504 then 1 else 0
  {
    MiddleContiguous();
    CountAll(MIDDLE, 2130706944, 2130837504, x);
  }

  lemma AboveBlocks()
    ensures Block(ABOVE, 0, 2130837504, 2130968576) && Block(ABOVE, 1, 2130968576, 2131230720)
    ensures Block(ABOVE, 2, 2131230720, 2131755008) && Block(ABOVE, 3, 2131755008, 2132803584)
    ensures Block(ABOVE, 4, 2132803584, 2134900736) && Block(ABOVE, 5, 2134900736, 2139095040)
    ensures Block(ABOVE, 6, 2139095040, 2147483648) && Block(ABOVE, 7, 2147483648, 4294967296)
  {
    Powers();
  }

  lemma AboveContiguous()
    ensures Stretch(ABOVE, 2130837504, 4294967296)
  {
    AboveBlocks();
  }

  lemma CountAbove(x: IP)
    requires x.V4?
    ensures Count(ABOVE, x) == if 2130837504 <= x.address < 4294967296 then 1 else 0
  {
    AboveContiguous();
    CountAll(ABOVE, 2130837504, 4294967296, x);
  }

  lemma {:induction false} CountConcat(a: seq<IPCidr>, b: seq<IPCidr>, x: IP)
    ensures Count(a + b, x) == Count(a, x) + Count(b, x)
    decreases |a|
  {
    if a == [] {
      assert a + b == b;
    } else {
      assert (a + b)[1..] == a[1..] + b;
      CountConcat(a[1..], b, x);
    }
  }

  /** The subnets contain every IPv4 address but 127.0.0.1 exactly once. */
  lemma SubnetsExactlyOnce(x: IP)
    requires x.V4? && x.Wellformed()
    ensures Count(SUBNETS, x) == if x == LOOPBACK then 0 else 1
  {
    Powers();
    CountBelow(x);
    CountNear(x);
    CountMiddle(x);
    CountAbove(x);
    CountConcat(BELOW, NEAR, x);
    CountConcat(BELOW + NEAR, MIDDLE, x);
    CountConcat(BELOW + NEAR + MIDDLE, ABOVE, x);
  }

  lemma SubnetsAreProper(c: IPCidr)
    requires c in SUBNETS
    ensures c.ip.V4? && c.cidr > 0
  {
    assert c in BELOW || c in NEAR || c in MIDDLE || c in ABOVE;
  }

  lemma SubnetsCover(x: IP)
    requires x.Wellformed()
    ensures Covered(SUBNETS, x) <==> x.V4? && x != LOOPBACK
  {
    if x.V4? {
      SubnetsExactlyOnce(x);
      CountCovers(SUBNETS, x);
    } else {
      forall i | 0 <= i < |SUBNETS| ensures !SUBNETS[i].Contains(x) {
        SubnetsAreProper(SUBNETS[i]);
      }
    }
  }

  // ---- Exclusion -----------------------------------------------------------

  /** The source takes the IPv6 entry ::/0 for one of these as well. */
  predicate IsEverything(c: IPCidr) { c.ip.IsUnspecified() && c.cidr == 0 }

  predicate HasEverything(list: seq<IPCidr>) { exists i :: 0 <= i < |list| && IsEverything(list[i]) }

  function Excluded(list: seq<IPCidr>): seq<IPCidr> {
    if list == [] then []
    else
      var n := |list| - 1;
      Excluded(list[..n]) + if IsEverything(list[n]) then SUBNETS else [list[n]]
  }

  lemma ExcludedMore(list: seq<IPCidr>, c: IPCidr)
    ensures Excluded(list + [c]) == Excluded(list) + if IsEverything(c) then SUBNETS else [c]
  {
    assert (list + [c])[..|list|] == list;
  }

  /** The entries keep their order, and the subnets come in the place of each /0
      entry. */
  lemma ExcludedInOrder(a: seq<IPCidr>, b: seq<IPCidr>, c: IPCidr)
    ensures Excluded(a + b) == Excluded(a) + Excluded(b)
    ensures Excluded([c]) == if c == ALL_V4 || c == ALL_V6 then SUBNETS else [c]
  {
    var f := (list: seq<IPCidr>) => Excluded(list);
    var one := (c: IPCidr) => if IsEverything(c) then SUBNETS else [c];
    forall list, c ensures CollectsAt(f, one, list, c) { ExcludedMore(list, c); }
    CollectsInOrder(f, one, a, b);
    CollectsOne(f, one, c);
  }

  method ExcludeLoopback(peers: seq<seq<IPCidr>>) returns (result: seq<seq<IPCidr>>, modified: bool)
    ensures |result| == |peers| && forall i :: 0 <= i < |peers| ==> result[i] == Excluded(peers[i])
    ensures modified <==> exists i :: 0 <= i < |peers| && HasEverything(peers[i])
  {
    result, modified := peers, false;
    for i := 0 to |peers|
      invariant |result| == |peers|
      invariant forall j :: 0 <= j < i ==> result[j] == Excluded(peers[j])
      invariant forall j :: i <= j < |peers| ==> result[j] == peers[j]
      invariant modified <==> exists j :: 0 <= j < i && HasEverything(peers[j])
    {
      var newAllowedIPs, found := ExcludeFromList(peers[i]);
      modified := modified || found;
      if modified {
        result := result[i := newAllowedIPs];
      } else {
        NothingExcluded(peers[i]);
      }
    }
  }

  method ExcludeFromList(list: seq<IPCidr>) returns (newAllowedIPs: seq<IPCidr>, found: bool)
    ensures newAllowedIPs == Excluded(list) && (found <==> HasEverything(list))
  {
    newAllowedIPs, found := [], false;
    for k := 0 to |list|
      invariant newAllowedIPs == Excluded(list[..k])
      invariant found <==> exists j :: 0 <= j < k && IsEverything(list[j])
    {
      assert list[..k + 1][..k] == list[..k];
      if list[k].ip.IsUnspecified() && list[k].cidr == 0 {
        newAllowedIPs := newAllowedIPs + SUBNETS;
        found := true;
      } else {
        newAllowedIPs := newAllowedIPs + [list[k]];
      }
    }
    assert list[..|list|] == list;
  }

  lemma {:induction false} NothingExcluded(list: seq<IPCidr>)
    requires !HasEverything(list)
    ensures Excluded(list) == list
    decreases |list|
  {
    if list != [] {
      var n := |list| - 1;
      assert forall i :: 0 <= i < n ==> list[..n][i] == list[i];
      NothingExcluded(list[..n]);
      assert list == list[..n] + [list[n]];
    }
  }

  /** The entries that are not to be replaced. */
  function Others(list: seq<IPCidr>): (others: seq<IPCidr>)
    ensures forall c :: c in others <==> c in list && !IsEverything(c)
  {
    if list == [] then []
    else
      var n := |list| - 1;
      assert list == list[..n] + [list[n]];
      Others(list[..n]) + if IsEverything(list[n]) then [] else [list[n]]
  }

  /** What exclusion leaves: the other entries, and with an entry for everything
      also every IPv4 address but 127.0.0.1. */
  lemma {:induction false} ExcludedCovers(list: seq<IPCidr>, x: IP)
    requires x.Wellformed()
    ensures Covered(Excluded(list), x) <==>
            Covered(Others(list), x) || (HasEverything(list) && x.V4? && x != LOOPBACK)
    decreases |list|
  {
    if list != [] {
      var n := |list| - 1;
      var front, last := list[..n], list[n];
      ExcludedCovers(front, x);
      LastOrBefore(list);
      if IsEverything(last) {
        CoveredConcat(Excluded(front), SUBNETS, x);
        SubnetsCover(x);
        assert Others(front) + [] == Others(front);
      } else {
        CoveredConcat(Excluded(front), [last], x);
        CoveredConcat(Others(front), [last], x);
      }
    }
  }

  // ---- Restoring -----------------------------------------------------------

  /** Two of the subnets are taken for the whole pattern. */
  predicate HasPattern(list: seq<IPCidr>) { Net(0, 0, 0, 0, 2) in list && Net(128, 0, 0, 0, 1) in list }

  function Remaining(list: seq<IPCidr>): (kept: seq<IPCidr>)
    ensures forall c :: c in kept <==> c in list && c !in SUBNETS
  {
    if list == [] then []
    else
      var n := |list| - 1;
      assert list == list[..n] + [list[n]];
      Remaining(list[..n]) + if list[n] in SUBNETS then [] else [list[n]]
  }

  lemma RemainingMore(list: seq<IPCidr>, c: IPCidr, gone: seq<IPCidr>)
    requires gone == SUBNETS
    ensures Remaining(list + [c]) == Remaining(list) + if c in gone then [] else [c]
  {
    assert (list + [c])[..|list|] == list;
  }

  /** Both of the two subnets are needed, at any places of the list. */
  lemma PatternNeedsBoth(list: seq<IPCidr>)
    ensures HasPattern(list) <==>
            exists low, high :: low in list && high in list && IsNet(low, 0, 2) && IsNet(high, 0x8000_0000, 1)
  {
    assert IsNet(Net(0, 0, 0, 0, 2), 0, 2) && IsNet(Net(128, 0, 0, 0, 1), 0x8000_0000, 1);
  }

  predicate IsNet(c: IPCidr, address: nat, cidr: nat) { c.ip.V4? && c.ip.address == address && c.cidr == cidr }

  /** What is no subnet stays in its order, duplicates included. */
  lemma RemainingInOrder(a: seq<IPCidr>, b: seq<IPCidr>, c: IPCidr, gone: seq<IPCidr>)
    requires gone == SUBNETS
    ensures Remaining(a + b) == Remaining(a) + Remaining(b)
    ensures Remaining([c]) == if c in gone then [] else [c]
  {
    var f := (list: seq<IPCidr>) => Remaining(list);
    var one := (c: IPCidr) => if c in gone then [] else [c];
    forall list, c ensures CollectsAt(f, one, list, c) { RemainingMore(list, c, gone); }
    CollectsInOrder(f, one, a, b);
    CollectsOne(f, one, c);
  }

  function Restored(list: seq<IPCidr>): seq<IPCidr> {
    if HasPattern(list) then Remaining(list) + [ALL_V4] else list
  }

  method RestoreLoopback(peers: seq<seq<IPCidr>>) returns (result: seq<seq<IPCidr>>, modified: bool)
    ensures |result| == |peers| && forall i :: 0 <= i < |peers| ==> result[i] == Restored(peers[i])
    ensures modified <==> exists i :: 0 <= i < |peers| && HasPattern(peers[i])
  {
    result, modified := peers, false;
    for i := 0 to |peers|
      invariant |result| == |peers|
      invariant forall j :: 0 <= j < i ==> result[j] == Restored(peers[j])
      invariant forall j :: i <= j < |peers| ==> result[j] == peers[j]
      invariant modified <==> exists j :: 0 <= j < i && HasPattern(peers[j])
    {
      var found := FindPattern(peers[i]);
      if found {
        var kept := RemoveSubnets(peers[i]);
        result := result[i := kept + [ALL_V4]];
        modified := true;
      }
    }
  }

  method FindPattern(list: seq<IPCidr>) returns (found: bool)
    ensures found <==> HasPattern(list)
  {
    var has0, has128 := false, false;
    for k := 0 to |list|
      invariant has0 <==> Net(0, 0, 0, 0, 2) in list[..k]
      invariant has128 <==> Net(128, 0, 0, 0, 1) in list[..k]
    {
      if list[k] == Net(0, 0, 0, 0, 2) { has0 := true; }
      if list[k] == Net(128, 0, 0, 0, 1) { has128 := true; }
    }
    assert list[..|list|] == list;
    return has0 && has128;
  }

  method RemoveSubnets(list: seq<IPCidr>) returns (kept: seq<IPCidr>)
    ensures kept == Remaining(list)
  {
    kept := [];
    for k := 0 to |list|
      invariant kept == Remaining(list[..k])
    {
      assert list[..k + 1][..k] == list[..k];
      if list[k] !in SUBNETS { kept := kept + [list[k]]; }
    }
    assert list[..|list|] == list;
  }

  lemma {:induction false} ExcludedElements(list: seq<IPCidr>)
    ensures forall c :: c in Excluded(list) <==> c in Others(list) || (HasEverything(list) && c in SUBNETS)
    decreases |list|
  {
    if list != [] {
      var n := |list| - 1;
      ExcludedElements(list[..n]);
      LastOrBefore(list);
    }
  }

  lemma LastOrBefore(list: seq<IPCidr>)
    requires list != []
    ensures HasEverything(list) <==> HasEverything(list[..|list| - 1]) || IsEverything(list[|list| - 1])
  {
    var n := |list| - 1;
    if HasEverything(list) {
      var i :| 0 <= i < |list| && IsEverything(list[i]);
      assert i < n ==> list[..n][i] == list[i];
    }
    if HasEverything(list[..n]) {
      var i :| 0 <= i < n && IsEverything(list[..n][i]);
      assert list[..n][i] == list[i];
    }
  }

  /** The two subnets that give the pattern away are two of the subnets. */
  lemma PatternInSubnets()
    ensures Net(0, 0, 0, 0, 2) in SUBNETS && Net(128, 0, 0, 0, 1) in SUBNETS
  {
    assert BELOW[0] in BELOW && ABOVE[7] in ABOVE;
  }

  lemma RestoredElements(list: seq<IPCidr>, c: IPCidr)
    requires HasEverything(list)
    ensures c in Restored(Excluded(list)) <==> c == ALL_V4 || (c in Others(list) && c !in SUBNETS)
  {
    ExcludedElements(list);
    PatternInSubnets();
  }

  /** Restoring after excluding leaves no subnet of the pattern behind, and
      covers all of IPv4 and whatever IPv6 the entries not replaced cover. */
  lemma RestoreAfterExclude(list: seq<IPCidr>, x: IP)
    requires HasEverything(list) && x.Wellformed()
    ensures forall c :: c in SUBNETS ==> c !in Restored(Excluded(list))
    ensures Covered(Restored(Excluded(list)), x) <==> x.V4? || Covered(Others(list), x)
  {
    var result := Restored(Excluded(list));
    forall c | c in SUBNETS ensures c !in result {
      SubnetsAreProper(c);
      RestoredElements(list, c);
    }
    RestoredElements(list, ALL_V4);
    AllContains(ALL_V4, x);
    if x.V4? {
      CoveredOne(ALL_V4, x);
      SameElementsCover([ALL_V4], result, x);
    } else {
      RestoredCoversV6(list, x);
    }
  }

  lemma RestoredCoversV6(list: seq<IPCidr>, x: IP)
    requires HasEverything(list) && x.V6? && x.Wellformed()
    ensures Covered(Restored(Excluded(list)), x) <==> Covered(Others(list), x)
  {
    var result, others := Restored(Excluded(list)), Others(list);
    if Covered(result, x) {
      var i :| 0 <= i < |result| && result[i].Contains(x);
      RestoredElements(list, result[i]);
      var j :| 0 <= j < |others| && others[j] == result[i];
    }
    if Covered(others, x) {
      var i :| 0 <= i < |others| && others[i].Contains(x);
      assert others[i] in others;
      if others[i] in SUBNETS { SubnetsAreProper(others[i]); }
      RestoredElements(list, others[i]);
      var j :| 0 <= j < |result| && result[j] == others[i];
    }
  }

  // ---- When the covered addresses survive ----------------------------------

  ghost predicate SameCoverage(a: seq<IPCidr>, b: seq<IPCidr>) {
    forall x: IP :: x.Wellformed() ==> (Covered(a, x) <==> Covered(b, x))
  }

  ghost predicate CoversV4(list: seq<IPCidr>) {
    forall x: IP :: x.Wellformed() && x.V4? ==> Covered(list, x)
  }

  ghost predicate CoversV6(list: seq<IPCidr>) {
    forall x: IP :: x.Wellformed() && x.V6? ==> Covered(list, x)
  }

  /** Restoring makes a list with the pattern cover all of IPv4, and changes
      nothing else that it covers. */
  lemma RestoredCovers(list: seq<IPCidr>, x: IP)
    requires HasPattern(list) && x.Wellformed()
    ensures Covered(Restored(list), x) <==> x.V4? || Covered(list, x)
  {
    CoveredConcat(Remaining(list), [ALL_V4], x);
    CoveredOne(ALL_V4, x);
    AllContains(ALL_V4, x);
    SameElementsCover(Remaining(list), list, x);
    if x.V6? && Covered(list, x) {
      var i :| 0 <= i < |list| && list[i].Contains(x);
      if list[i] in SUBNETS { SubnetsAreProper(list[i]); }
      EntryCovers(Remaining(list), list[i], x);
    }
  }

  /** Restoring keeps the covered addresses of a list exactly when it does not
      find the pattern in it, or the list covers all of IPv4 anyway. */
  lemma RestoreKeepsCoverage(list: seq<IPCidr>)
    ensures SameCoverage(Restored(list), list) <==> !HasPattern(list) || CoversV4(list)
  {
    if HasPattern(list) {
      forall x: IP | x.Wellformed() ensures Covered(Restored(list), x) <==> x.V4? || Covered(list, x) {
        RestoredCovers(list, x);
      }
    }
  }

  /** What a list covers, by its entries for everything and the others. */
  lemma CoveredByParts(list: seq<IPCidr>, x: IP)
    requires x.Wellformed()
    ensures Covered(list, x) <==>
            Covered(Others(list), x) || (x.V4? && ALL_V4 in list) || (x.V6? && ALL_V6 in list)
  {
    SameElementsCover(Others(list), list, x);
    if ALL_V4 in list { EntryCovers(list, ALL_V4, x); }
    if ALL_V6 in list { EntryCovers(list, ALL_V6, x); }
    AllContains(ALL_V4, x);
    AllContains(ALL_V6, x);
    if Covered(list, x) { EntryOf(list, x); }
  }

  lemma EntryCovers(list: seq<IPCidr>, c: IPCidr, x: IP)
    requires c in list
    ensures c.Contains(x) ==> Covered(list, x)
  {}

  lemma EntryOf(list: seq<IPCidr>, x: IP)
    requires Covered(list, x)
    ensures Covered(Others(list), x) || (ALL_V4 in list && ALL_V4.Contains(x)) || (ALL_V6 in list && ALL_V6.Contains(x))
  {
    var i :| 0 <= i < |list| && list[i].Contains(x);
    if !IsEverything(list[i]) { EntryCovers(Others(list), list[i], x); }
  }

  /** The lists that come back from exclusion and restoring as they were. */
  ghost predicate Survives(list: seq<IPCidr>) {
    if HasEverything(list) then
      (ALL_V4 in list || CoversV4(Others(list))) && (ALL_V6 in list ==> CoversV6(Others(list)))
    else !HasPattern(list) || CoversV4(list)
  }

  /** The round trip keeps the covered addresses of exactly these lists. */
  lemma RoundTripKeepsCoverage(list: seq<IPCidr>)
    ensures SameCoverage(Restored(Excluded(list)), list) <==> Survives(list)
  {
    if HasEverything(list) {
      forall x: IP | x.Wellformed()
        ensures Covered(Restored(Excluded(list)), x) <==> x.V4? || Covered(Others(list), x)
        ensures Covered(list, x) <==>
                Covered(Others(list), x) || (x.V4? && ALL_V4 in list) || (x.V6? && ALL_V6 in list)
      {
        RestoreAfterExclude(list, x);
        CoveredByParts(list, x);
      }
    } else {
      NothingExcluded(list);
      RestoreKeepsCoverage(list);
    }
  }

  /** The family of lists that the source is written for. */
  lemma PlainListsSurvive(list: seq<IPCidr>)
    requires ALL_V4 in list && ALL_V6 !in list
    ensures Survives(list)
  {
    var i :| 0 <= i < |list| && list[i] == ALL_V4;
    assert IsEverything(list[i]);
  }

  /** A user's own list with the two entries gains 64.0.0.0. */
  lemma OwnHalvesGain()
    ensures var list, gained := [Net(0, 0, 0, 0, 2), Net(128, 0, 0, 0, 1)], V4(Quad(64, 0, 0, 0));
            Restored(Excluded(list)) == [ALL_V4] && gained.Wellformed()
            && !Covered(list, gained) && Covered([ALL_V4], gained)
  {
    var list, gained := [Net(0, 0, 0, 0, 2), Net(128, 0, 0, 0, 1)], V4(Quad(64, 0, 0, 0));
    Powers();
    NothingExcluded(list);
    assert list[0] == Net(0, 0, 0, 0, 2) && list[1] == Net(128, 0, 0, 0, 1);
    PatternInSubnets();
    NothingRemains(list, 2);
    assert list[..2] == list;
    CoveredOne(ALL_V4, gained);
    AllContains(ALL_V4, gained);
    BlockContains(list[0], gained);
    BlockContains(list[1], gained);
  }

  /** ::/0 alone comes back as 0.0.0.0/0. */
  lemma AllOfV6IsLost()
    ensures Restored(Excluded([ALL_V6])) == [ALL_V4]
    ensures !Covered([ALL_V4], V6(1)) && Covered([ALL_V6], V6(1))
  {
    var list := [ALL_V6];
    assert list[..0] == [] && IsEverything(list[0]);
    assert Excluded(list) == Excluded(list[..0]) + SUBNETS;
    assert Excluded(list) == SUBNETS;
    PatternInSubnets();
    NothingRemains(SUBNETS, 32);
    assert SUBNETS[..32] == SUBNETS;
    CoveredOne(ALL_V4, V6(1));
    CoveredOne(ALL_V6, V6(1));
    AllContains(ALL_V6, V6(1));
  }

  lemma {:induction false} NothingRemains(list: seq<IPCidr>, k: nat)
    requires k <= |list| && forall c :: c in list ==> c in SUBNETS
    ensures Remaining(list[..k]) == []
    decreases k
  {
    if k > 0 {
      NothingRemains(list, k - 1);
      assert list[..k][..k - 1] == list[..k - 1];
    }
  }
}
