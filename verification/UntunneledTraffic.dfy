// The "block untunneled traffic" check box: /0 entries and their two halves.
module UntunneledTraffic {
  import opened Text
  import opened Cidr

  const V4_ALL := IPCidr(V4(0), 0)
  const V4_LOW := IPCidr(V4(0), 1)
  const V4_HIGH := IPCidr(V4(Pow2(31)), 1)
  const V6_ALL := IPCidr(V6(0), 0)
  const V6_LOW := IPCidr(V6(0), 1)
  const V6_HIGH := IPCidr(V6(Pow2(127)), 1)

  const ALLS := {V4_ALL, V6_ALL}
  const HALVES := {V4_LOW, V4_HIGH, V6_LOW, V6_HIGH}

  function Without(list: seq<IPCidr>, gone: set<IPCidr>): (kept: seq<IPCidr>)
    ensures forall c :: c in kept <==> c in list && c !in gone
  {
    if list == [] then []
    else
      var n := |list| - 1;
      assert list == list[..n] + [list[n]];
      Without(list[..n], gone) + if list[n] in gone then [] else [list[n]]
  }

  lemma KeptMore(list: seq<IPCidr>, c: IPCidr, gone: set<IPCidr>)
    ensures Without(list + [c], gone) == Without(list, gone) + if c in gone then [] else [c]
  {
    assert (list + [c])[..|list|] == list;
  }

  /** What is kept stays in its order, duplicates included. */
  lemma KeptInOrder(a: seq<IPCidr>, b: seq<IPCidr>, c: IPCidr, gone: set<IPCidr>)
    ensures Without(a + b, gone) == Without(a, gone) + Without(b, gone)
    ensures Without([c], gone) == if c in gone then [] else [c]
  {
    var f := (list: seq<IPCidr>) => Without(list, gone);
    var one := (c: IPCidr) => if c in gone then [] else [c];
    forall list, c ensures CollectsAt(f, one, list, c) { KeptMore(list, c, gone); }
    CollectsInOrder(f, one, a, b);
    CollectsOne(f, one, c);
  }

  /** What one family gets back when the box is checked. */
  function Merged(list: seq<IPCidr>, low: IPCidr, high: IPCidr, all: IPCidr): seq<IPCidr> {
    if low in list && high in list then [all]
    else if low in list then [low]
    else if high in list then [high]
    else []
  }

  function Halved(list: seq<IPCidr>, all: IPCidr, low: IPCidr, high: IPCidr): seq<IPCidr> {
    if all in list then [low, high] else []
  }

  predicate CanCheck(list: seq<IPCidr>) {
    (V4_LOW in list && V4_HIGH in list) || (V6_LOW in list && V6_HIGH in list)
  }

  predicate CanUncheck(list: seq<IPCidr>) { V4_ALL in list || V6_ALL in list }

  function Checked(list: seq<IPCidr>): seq<IPCidr> {
    Without(list, HALVES) + Merged(list, V4_LOW, V4_HIGH, V4_ALL) + Merged(list, V6_LOW, V6_HIGH, V6_ALL)
  }

  function Unchecked(list: seq<IPCidr>): seq<IPCidr> {
    Without(list, ALLS) + Halved(list, V4_ALL, V4_LOW, V4_HIGH) + Halved(list, V6_ALL, V6_LOW, V6_HIGH)
  }

  /** Unchecking needs a whole family and checking two halves of one family. */
  lemma WhenPossible(list: seq<IPCidr>)
    ensures CanUncheck(list) <==> exists c :: c in list && c.cidr == 0 && c.ip.address == 0
    ensures CanCheck(list) <==> exists a, b :: a in list && b in list && Halves(a, b)
  {
    forall c | c in list && c.cidr == 0 && c.ip.address == 0 ensures c == V4_ALL || c == V6_ALL {}
    forall a, b | Halves(a, b) ensures (a == V4_LOW && b == V4_HIGH) || (a == V6_LOW && b == V6_HIGH) {}
    assert Halves(V4_LOW, V4_HIGH) && Halves(V6_LOW, V6_HIGH);
  }

  /** The lower and the upper half of a family. */
  predicate Halves(a: IPCidr, b: IPCidr) {
    a.cidr == 1 && b.cidr == 1 && a.ip.V4? == b.ip.V4? && a.ip.address == 0 && b.ip.address == Pow2(b.ip.Width() - 1)
  }

  /** The rewrite of the one peer's list; on failure the text stays as it is. */
  method OnCheckedChanged(peers: seq<seq<IPCidr>>, block: bool) returns (result: Option<seq<IPCidr>>)
    ensures result == if |peers| != 1 then None
                      else if block then (if CanCheck(peers[0]) then Some(Checked(peers[0])) else None)
                      else if CanUncheck(peers[0]) then Some(Unchecked(peers[0])) else None
  {
    if |peers| != 1 { return None; }
    if block {
      result := Check(peers[0]);
    } else {
      result := Uncheck(peers[0]);
    }
  }

  lemma OneMore(list: seq<IPCidr>, gone: set<IPCidr>, k: nat)
    requires k < |list|
    ensures Without(list[..k + 1], gone) == Without(list[..k], gone) + if list[k] in gone then [] else [list[k]]
    ensures forall c :: c in list[..k + 1] <==> c in list[..k] || c == list[k]
  {
    assert list[..k + 1][..k] == list[..k];
    assert list[..k + 1] == list[..k] + [list[k]];
  }

  method ScanHalves(list: seq<IPCidr>)
    returns (kept: seq<IPCidr>, foundV401: bool, foundV41281: bool, foundV600001: bool, foundV680001: bool)
    ensures kept == Without(list, HALVES)
    ensures foundV401 == (V4_LOW in list) && foundV41281 == (V4_HIGH in list)
    ensures foundV600001 == (V6_LOW in list) && foundV680001 == (V6_HIGH in list)
  {
    kept := [];
    foundV401, foundV41281, foundV600001, foundV680001 := false, false, false, false;
    for k := 0 to |list|
      invariant kept == Without(list[..k], HALVES)
      invariant foundV401 == (V4_LOW in list[..k]) && foundV41281 == (V4_HIGH in list[..k])
      invariant foundV600001 == (V6_LOW in list[..k]) && foundV680001 == (V6_HIGH in list[..k])
    {
      var allowedip := list[k];
      OneMore(list, HALVES, k);
      if allowedip == V6_LOW {
        foundV600001 := true;
      } else if allowedip == V6_HIGH {
        foundV680001 := true;
      } else if allowedip == V4_LOW {
        foundV401 := true;
      } else if allowedip == V4_HIGH {
        foundV41281 := true;
      } else {
        kept := kept + [allowedip];
      }
    }
    assert list[..|list|] == list;
  }

  method Check(list: seq<IPCidr>) returns (result: Option<seq<IPCidr>>)
    ensures result == if CanCheck(list) then Some(Checked(list)) else None
  {
    var newAllowedIPs, foundV401, foundV41281, foundV600001, foundV680001 := ScanHalves(list);
    if !((foundV401 && foundV41281) || (foundV600001 && foundV680001)) { return None; }
    newAllowedIPs := AppendMerged(newAllowedIPs, foundV401, foundV41281, V4_LOW, V4_HIGH, V4_ALL);
    newAllowedIPs := AppendMerged(newAllowedIPs, foundV600001, foundV680001, V6_LOW, V6_HIGH, V6_ALL);
    return Some(newAllowedIPs);
  }

  method AppendMerged(list: seq<IPCidr>, foundLow: bool, foundHigh: bool, low: IPCidr, high: IPCidr, all: IPCidr)
    returns (more: seq<IPCidr>)
    ensures more == list + if foundLow && foundHigh then [all] else if foundLow then [low] else if foundHigh then [high] else []
  {
    more := list;
    if foundLow && foundHigh {
      more := more + [all];
    } else if foundLow {
      more := more + [low];
    } else if foundHigh {
      more := more + [high];
    }
  }

  method ScanAlls(list: seq<IPCidr>) returns (kept: seq<IPCidr>, foundV400: bool, foundV600000: bool)
    ensures kept == Without(list, ALLS)
    ensures foundV400 == (V4_ALL in list) && foundV600000 == (V6_ALL in list)
  {
    kept, foundV400, foundV600000 := [], false, false;
    for k := 0 to |list|
      invariant kept == Without(list[..k], ALLS)
      invariant foundV400 == (V4_ALL in list[..k]) && foundV600000 == (V6_ALL in list[..k])
    {
      var allowedip := list[k];
      OneMore(list, ALLS, k);
      if allowedip == V6_ALL {
        foundV600000 := true;
      } else if allowedip == V4_ALL {
        foundV400 := true;
      } else {
        kept := kept + [allowedip];
      }
    }
    assert list[..|list|] == list;
  }

  method Uncheck(list: seq<IPCidr>) returns (result: Option<seq<IPCidr>>)
    ensures result == if CanUncheck(list) then Some(Unchecked(list)) else None
  {
    var newAllowedIPs, foundV400, foundV600000 := ScanAlls(list);
    if !(foundV400 || foundV600000) { return None; }
    newAllowedIPs := AppendHalves(newAllowedIPs, foundV400, V4_LOW, V4_HIGH);
    newAllowedIPs := AppendHalves(newAllowedIPs, foundV600000, V6_LOW, V6_HIGH);
    return Some(newAllowedIPs);
  }

  method AppendHalves(list: seq<IPCidr>, found: bool, low: IPCidr, high: IPCidr) returns (more: seq<IPCidr>)
    ensures more == list + if found then [low, high] else []
  {
    more := list;
    if found {
      more := more + [low];
      more := more + [high];
    }
  }

  // ---- Coverage ------------------------------------------------------------

  /** One family's whole and its halves. */
  predicate Family(all: IPCidr, low: IPCidr, high: IPCidr) {
    && all.cidr == 0 && all.ip.address == 0 && low == IPCidr(all.ip, 1) && high.cidr == 1
    && high.ip.V4? == all.ip.V4? && high.ip.address == Pow2(all.ip.Width() - 1)
  }

  lemma HalfOf(c: IPCidr, second: bool, half: nat, x: IP)
    requires c.cidr <= c.ip.Width() && c.BlockSize() == half && c.ip.V4? == x.V4?
    requires c.ip.address == if second then half else 0
    ensures c.Contains(x) <==> c.ip.address <= x.address < c.ip.address + half
  {
    OwnMultiple(half);
    DivideWithin(x.address, c.ip.address, half);
  }

  lemma HalfContains(all: IPCidr, low: IPCidr, high: IPCidr, x: IP)
    requires Family(all, low, high) && x.Wellformed()
    ensures all.Contains(x) <==> low.Contains(x) || high.Contains(x)
  {
    AllContains(all, x);
    if x.V4? == all.ip.V4? {
      var half := Pow2(all.ip.Width() - 1);
      HalfOf(low, false, half, x);
      HalfOf(high, true, half, x);
      assert Pow2(x.Width()) == 2 * half;
    }
  }

  /** x is covered by an entry of this family's three. */
  predicate FamilyCovers(list: seq<IPCidr>, all: IPCidr, low: IPCidr, high: IPCidr, x: IP) {
    (all in list && all.Contains(x)) || (low in list && low.Contains(x)) || (high in list && high.Contains(x))
  }

  lemma CoveredMember(list: seq<IPCidr>, x: IP)
    ensures Covered(list, x) <==> exists c :: c in list && c.Contains(x)
  {
    if Covered(list, x) {
      var i :| 0 <= i < |list| && list[i].Contains(x);
      assert list[i] in list;
    }
    if c :| c in list && c.Contains(x) {
      var i :| 0 <= i < |list| && list[i] == c;
    }
  }

  lemma CoverageByFamily(list: seq<IPCidr>, x: IP)
    ensures Covered(list, x) <==>
            Covered(Without(list, ALLS + HALVES), x)
            || FamilyCovers(list, V4_ALL, V4_LOW, V4_HIGH, x) || FamilyCovers(list, V6_ALL, V6_LOW, V6_HIGH, x)
  {
    CoveredMember(list, x);
    CoveredMember(Without(list, ALLS + HALVES), x);
  }

  /** Two lists that agree outside the six special entries. */
  ghost predicate SameOthers(a: seq<IPCidr>, b: seq<IPCidr>) {
    forall c :: c in Without(a, ALLS + HALVES) <==> c in Without(b, ALLS + HALVES)
  }

  lemma SameCoverage(a: seq<IPCidr>, b: seq<IPCidr>, x: IP)
    requires SameOthers(a, b)
    requires FamilyCovers(a, V4_ALL, V4_LOW, V4_HIGH, x) <==> FamilyCovers(b, V4_ALL, V4_LOW, V4_HIGH, x)
    requires FamilyCovers(a, V6_ALL, V6_LOW, V6_HIGH, x) <==> FamilyCovers(b, V6_ALL, V6_LOW, V6_HIGH, x)
    ensures Covered(a, x) <==> Covered(b, x)
  {
    CoverageByFamily(a, x);
    CoverageByFamily(b, x);
    CoveredMember(Without(a, ALLS + HALVES), x);
    CoveredMember(Without(b, ALLS + HALVES), x);
  }

  lemma SpecialsDiffer()
    ensures |ALLS| == 2 && |HALVES| == 4 && ALLS !! HALVES
    ensures Family(V4_ALL, V4_LOW, V4_HIGH) && Family(V6_ALL, V6_LOW, V6_HIGH)
  {}

  lemma CheckedElements(list: seq<IPCidr>, c: IPCidr)
    ensures c !in ALLS + HALVES ==> (c in Checked(list) <==> c in list)
    ensures V4_ALL in Checked(list) <==> V4_ALL in list || (V4_LOW in list && V4_HIGH in list)
    ensures V6_ALL in Checked(list) <==> V6_ALL in list || (V6_LOW in list && V6_HIGH in list)
    ensures V4_LOW in Checked(list) <==> V4_LOW in list && V4_HIGH !in list
    ensures V4_HIGH in Checked(list) <==> V4_HIGH in list && V4_LOW !in list
    ensures V6_LOW in Checked(list) <==> V6_LOW in list && V6_HIGH !in list
    ensures V6_HIGH in Checked(list) <==> V6_HIGH in list && V6_LOW !in list
  {
    SpecialsDiffer();
  }

  lemma UncheckedElements(list: seq<IPCidr>, c: IPCidr)
    ensures c !in ALLS + HALVES ==> (c in Unchecked(list) <==> c in list)
    ensures V4_ALL !in Unchecked(list) && V6_ALL !in Unchecked(list)
    ensures V4_LOW in Unchecked(list) <==> V4_LOW in list || V4_ALL in list
    ensures V4_HIGH in Unchecked(list) <==> V4_HIGH in list || V4_ALL in list
    ensures V6_LOW in Unchecked(list) <==> V6_LOW in list || V6_ALL in list
    ensures V6_HIGH in Unchecked(list) <==> V6_HIGH in list || V6_ALL in list
  {
    SpecialsDiffer();
  }

  /** Checking the box changes no covered address, lone halves and duplicates
      included. */
  lemma CheckKeepsCoverage(list: seq<IPCidr>, x: IP)
    requires x.Wellformed()
    ensures Covered(Checked(list), x) <==> Covered(list, x)
  {
    forall c ensures c in Without(list, ALLS + HALVES) <==> c in Without(Checked(list), ALLS + HALVES) {
      CheckedElements(list, c);
    }
    CheckedElements(list, V4_ALL);
    SpecialsDiffer();
    HalfContains(V4_ALL, V4_LOW, V4_HIGH, x);
    HalfContains(V6_ALL, V6_LOW, V6_HIGH, x);
    SameCoverage(Checked(list), list, x);
  }

  lemma UncheckKeepsCoverage(list: seq<IPCidr>, x: IP)
    requires x.Wellformed()
    ensures Covered(Unchecked(list), x) <==> Covered(list, x)
  {
    forall c ensures c in Without(list, ALLS + HALVES) <==> c in Without(Unchecked(list), ALLS + HALVES) {
      UncheckedElements(list, c);
    }
    UncheckedElements(list, V4_ALL);
    SpecialsDiffer();
    HalfContains(V4_ALL, V4_LOW, V4_HIGH, x);
    HalfContains(V6_ALL, V6_LOW, V6_HIGH, x);
    SameCoverage(Unchecked(list), list, x);
  }

  /** Unchecking and checking again is possible and gives the /0 entries back:
      a list that had no halves has the same entries as before. */
  lemma UncheckThenCheck(list: seq<IPCidr>)
    requires CanUncheck(list)
    ensures CanCheck(Unchecked(list))
    ensures var again := Checked(Unchecked(list));
            (V4_ALL in list ==> V4_ALL in again) && (V6_ALL in list ==> V6_ALL in again)
            && ((forall c :: c in list ==> c !in HALVES) ==> forall c :: c in again <==> c in list)
  {
    forall c ensures (forall d :: d in list ==> d !in HALVES) ==> (c in Checked(Unchecked(list)) <==> c in list) {
      UncheckedElements(list, c);
      CheckedElements(Unchecked(list), c);
      assert ALLS + HALVES == {V4_ALL, V6_ALL, V4_LOW, V4_HIGH, V6_LOW, V6_HIGH};
    }
    UncheckedElements(list, V4_ALL);
    CheckedElements(Unchecked(list), V4_ALL);
  }
}
