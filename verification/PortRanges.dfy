// Port intervals: the merge and the complement behind the firewall rules.
module PortRanges {

  const MAX_PORT := 65535

  datatype Range = Range(from: int, to: int)

  predicate Proper(ranges: seq<Range>) {
    forall i :: 0 <= i < |ranges| ==> ranges[i].from <= ranges[i].to
  }

  predicate Within(ranges: seq<Range>) {
    forall i :: 0 <= i < |ranges| ==> 1 <= ranges[i].from && ranges[i].to <= MAX_PORT
  }

  predicate Has(r: Range, p: int) { r.from <= p <= r.to }

  /** The port p lies in one of the ranges. */
  predicate Covers(ranges: seq<Range>, p: int) {
    exists i :: 0 <= i < |ranges| && Has(ranges[i], p)
  }

  predicate SortedByFrom(ranges: seq<Range>) {
    forall i :: 0 < i < |ranges| ==> ranges[i - 1].from <= ranges[i].from
  }

  /** Sorted, and at least one port apart. */
  predicate Canonical(ranges: seq<Range>) {
    Proper(ranges) && forall i, j :: 0 <= i < j < |ranges| ==> ranges[i].to + 1 < ranges[j].from
  }

  ghost predicate SamePorts(a: seq<Range>, b: seq<Range>) {
    forall p :: Covers(a, p) <==> Covers(b, p)
  }

  ghost predicate IsMerge(ranges: seq<Range>, merged: seq<Range>) {
    Canonical(merged) && SamePorts(merged, ranges)
  }

  /** Exactly the ports from 1 to 65535 that are in none of the ranges. */
  ghost predicate IsComplement(ranges: seq<Range>, out: seq<Range>) {
    Canonical(out) && forall p :: Covers(out, p) <==> 1 <= p <= MAX_PORT && !Covers(ranges, p)
  }

  // ---- The canonical form is unique ----------------------------------------

  lemma FirstPort(ranges: seq<Range>)
    requires Canonical(ranges) && ranges != []
    ensures Covers(ranges, ranges[0].from) && forall p :: Covers(ranges, p) ==> ranges[0].from <= p
  {
    assert Has(ranges[0], ranges[0].from);
  }

  /** The first gap after the first range is the port behind it. */
  lemma FirstGap(ranges: seq<Range>)
    requires Canonical(ranges) && ranges != []
    ensures !Covers(ranges, ranges[0].to + 1)
    ensures forall p :: Has(ranges[0], p) ==> Covers(ranges, p)
  {
    assert !Has(ranges[0], ranges[0].to + 1);
  }

  lemma RestPorts(ranges: seq<Range>, p: int)
    requires Canonical(ranges) && ranges != []
    ensures Covers(ranges[1..], p) <==> Covers(ranges, p) && p > ranges[0].to
  {
    if Covers(ranges, p) && p > ranges[0].to {
      var i :| 0 <= i < |ranges| && Has(ranges[i], p);
      assert ranges[1..][i - 1] == ranges[i];
    }
    if Covers(ranges[1..], p) {
      var i :| 0 <= i < |ranges| - 1 && Has(ranges[1..][i], p);
      assert ranges[1..][i] == ranges[i + 1];
    }
  }

  /** Equal port sets have one canonical form, however the ranges are given. */
  lemma {:induction false} CanonicalUnique(a: seq<Range>, b: seq<Range>)
    requires Canonical(a) && Canonical(b) && SamePorts(a, b)
    ensures a == b
    decreases |a|
  {
    if a == [] {
      if b != [] { FirstPort(b); }
    } else if b == [] {
      FirstPort(a);
    } else {
      FirstRanges(a, b);
      forall p ensures Covers(a[1..], p) <==> Covers(b[1..], p) {
        RestPorts(a, p);
        RestPorts(b, p);
      }
      CanonicalUnique(a[1..], b[1..]);
      assert a == [a[0]] + a[1..];
      assert b == [b[0]] + b[1..];
    }
  }

  lemma FirstRanges(a: seq<Range>, b: seq<Range>)
    requires Canonical(a) && Canonical(b) && SamePorts(a, b) && a != [] && b != []
    ensures a[0] == b[0]
  {
    FirstPort(a);
    FirstPort(b);
    FirstGap(a);
    FirstGap(b);
    if a[0].to < b[0].to { assert Has(b[0], a[0].to + 1); }
    if b[0].to < a[0].to { assert Has(a[0], b[0].to + 1); }
  }

  /** Complementing twice merges. */
  lemma ComplementTwice(ranges: seq<Range>, merged: seq<Range>, once: seq<Range>, twice: seq<Range>)
    requires Within(ranges) && IsMerge(ranges, merged) && IsComplement(ranges, once) && IsComplement(once, twice)
    ensures twice == merged
  {
    CanonicalUnique(twice, merged);
  }

  // ---- The algorithms ------------------------------------------------------

  lemma SamePermutation(a: seq<Range>, b: seq<Range>)
    requires multiset(a) == multiset(b)
    ensures SamePorts(a, b) && (Proper(a) <==> Proper(b)) && (Within(a) <==> Within(b))
  {
    forall r ensures r in a <==> r in b {
      assert r in multiset(a) <==> r in multiset(b);
    }
    forall p ensures Covers(a, p) <==> Covers(b, p) {
      if Covers(a, p) { var i :| 0 <= i < |a| && Has(a[i], p); assert a[i] in b; }
      if Covers(b, p) { var i :| 0 <= i < |b| && Has(b[i], p); assert b[i] in a; }
    }
    ProperElements(a);
    ProperElements(b);
  }

  lemma ProperElements(a: seq<Range>)
    ensures Proper(a) <==> forall r :: r in a ==> r.from <= r.to
    ensures Within(a) <==> forall r :: r in a ==> 1 <= r.from && r.to <= MAX_PORT
  {}

  /** sort.Slice: ranges with an equal start may come out in any order. */
  method SortByFrom(ranges: seq<Range>) returns (sorted: seq<Range>)
    ensures multiset(sorted) == multiset(ranges) && SortedByFrom(sorted)
  {
    sorted := [];
    for i := 0 to |ranges|
      invariant multiset(sorted) == multiset(ranges[..i]) && SortedByFrom(sorted)
    {
      TakeOne(ranges, i);
      sorted := Insert(sorted, ranges[i]);
    }
    assert ranges[..|ranges|] == ranges;
  }

  method Insert(sorted: seq<Range>, r: Range) returns (more: seq<Range>)
    requires SortedByFrom(sorted)
    ensures multiset(more) == multiset(sorted) + multiset{r} && SortedByFrom(more)
  {
    var k := |sorted|;
    while k > 0 && sorted[k - 1].from > r.from
      invariant 0 <= k <= |sorted| && (k < |sorted| ==> r.from < sorted[k].from)
    {
      k := k - 1;
    }
    InsertAt(sorted, k, r);
    InsertAtSorted(sorted, k, r);
    more := sorted[..k] + [r] + sorted[k..];
  }

  lemma InsertAt(sorted: seq<Range>, k: nat, r: Range)
    requires k <= |sorted|
    ensures multiset(sorted[..k] + [r] + sorted[k..]) == multiset(sorted) + multiset{r}
  {
    assert sorted == sorted[..k] + sorted[k..];
  }

  lemma InsertAtSorted(sorted: seq<Range>, k: nat, r: Range)
    requires k <= |sorted| && SortedByFrom(sorted)
    requires k > 0 ==> sorted[k - 1].from <= r.from
    requires k < |sorted| ==> r.from < sorted[k].from
    ensures SortedByFrom(sorted[..k] + [r] + sorted[k..])
  {
    var more := sorted[..k] + [r] + sorted[k..];
    forall i | 0 < i < |more| ensures more[i - 1].from <= more[i].from {
      assert i < k ==> sorted[i - 1].from <= sorted[i].from;
      assert i > k + 1 ==> sorted[i - 2].from <= sorted[i - 1].from;
    }
  }

  method MergeRanges(ranges: seq<Range>) returns (merged: seq<Range>)
    requires Proper(ranges)
    ensures IsMerge(ranges, merged)
  {
    if |ranges| == 0 { return []; }
    var sorted := SortByFrom(ranges);
    SamePermutation(sorted, ranges);
    merged := [sorted[0]];
    TakeOne(sorted, 0);
    for k := 1 to |sorted|
      invariant merged != [] && Canonical(merged) && SamePorts(merged, sorted[..k])
      invariant merged[|merged| - 1].from <= sorted[k - 1].from
    {
      var r, last := sorted[k], merged[|merged| - 1];
      TakeOne(sorted, k);
      if r.from <= last.to + 1 {
        if r.to > last.to {
          MergeLast(merged, r, sorted[..k]);
          merged := merged[|merged| - 1 := Range(last.from, r.to)];
        } else {
          MergeNothing(merged, r, sorted[..k]);
        }
      } else {
        MergeNew(merged, r, sorted[..k]);
        merged := merged + [r];
      }
    }
    assert sorted[..|sorted|] == sorted;
  }

  lemma TakeOne(s: seq<Range>, k: nat)
    requires k < |s|
    ensures s[..k + 1] == s[..k] + [s[k]]
  {}

  lemma CoversMore(a: seq<Range>, r: Range, p: int)
    ensures Covers(a + [r], p) <==> Covers(a, p) || Has(r, p)
  {
    if Covers(a, p) {
      var i :| 0 <= i < |a| && Has(a[i], p);
      assert (a + [r])[i] == a[i];
    }
    if Has(r, p) { assert (a + [r])[|a|] == r; }
  }

  lemma MergeNew(merged: seq<Range>, r: Range, seen: seq<Range>)
    requires SamePorts(merged, seen)
    ensures SamePorts(merged + [r], seen + [r])
  {
    forall p ensures Covers(merged + [r], p) <==> Covers(seen + [r], p) {
      CoversMore(merged, r, p);
      CoversMore(seen, r, p);
    }
  }

  lemma MergeLast(merged: seq<Range>, r: Range, seen: seq<Range>)
    requires merged != [] && SamePorts(merged, seen)
    requires var last := merged[|merged| - 1]; last.from <= r.from <= last.to + 1 && last.to < r.to
    ensures SamePorts(merged[|merged| - 1 := Range(merged[|merged| - 1].from, r.to)], seen + [r])
  {
    var n := |merged| - 1;
    var last, wide := merged[n], Range(merged[n].from, r.to);
    assert merged == merged[..n] + [last] && merged[n := wide] == merged[..n] + [wide];
    forall p ensures Covers(merged[n := wide], p) <==> Covers(seen + [r], p) {
      CoversMore(merged[..n], wide, p);
      CoversMore(merged[..n], last, p);
      CoversMore(seen, r, p);
    }
  }

  lemma MergeNothing(merged: seq<Range>, r: Range, seen: seq<Range>)
    requires merged != [] && SamePorts(merged, seen)
    requires var last := merged[|merged| - 1]; last.from <= r.from && r.to <= last.to
    ensures SamePorts(merged, seen + [r])
  {
    var n := |merged| - 1;
    forall p ensures Covers(merged, p) <==> Covers(seen + [r], p) {
      CoversMore(seen, r, p);
      assert Has(r, p) ==> Has(merged[n], p);
    }
  }

  method ComplementRanges(ranges: seq<Range>) returns (out: seq<Range>)
    requires Proper(ranges) && Within(ranges)
    ensures IsComplement(ranges, out)
  {
    var merged := MergeRanges(ranges);
    out := [];
    var cursor := 1;
    MergedWithin(ranges, merged);
    for k := 0 to |merged|
      invariant cursor == CursorAt(merged, k)
      invariant GapsUpTo(merged, out, cursor)
    {
      var r := merged[k];
      FillGap(merged, k, out, cursor);
      if r.from > cursor {
        out := out + [Range(cursor, r.from - 1)];
      }
      if r.to + 1 > cursor {
        cursor := r.to + 1;
      }
    }
    LastGap(merged, out, cursor);
    if cursor <= 65535 {
      out := out + [Range(cursor, 65535)];
    }
    ComplementOfMerge(ranges, merged, out);
  }

  lemma ComplementOfMerge(ranges: seq<Range>, merged: seq<Range>, out: seq<Range>)
    requires IsMerge(ranges, merged) && IsComplement(merged, out)
    ensures IsComplement(ranges, out)
  {}

  function CursorAt(merged: seq<Range>, k: nat): int
    requires k <= |merged|
  {
    if k == 0 then 1 else merged[k - 1].to + 1
  }

  /** out with the gap from cursor up to the port upTo, if there is one. */
  function WithGap(out: seq<Range>, cursor: int, upTo: int): seq<Range> {
    if cursor <= upTo then out + [Range(cursor, upTo)] else out
  }

  /** The gaps before the cursor have been found. */
  ghost predicate GapsUpTo(merged: seq<Range>, out: seq<Range>, cursor: int) {
    && Canonical(out) && (forall i :: 0 <= i < |out| ==> out[i].to + 1 < cursor)
    && forall p :: Covers(out, p) <==> 1 <= p < cursor && !Covers(merged, p)
  }

  lemma MergedWithin(ranges: seq<Range>, merged: seq<Range>)
    requires Within(ranges) && IsMerge(ranges, merged)
    ensures Within(merged)
  {
    forall i | 0 <= i < |merged| ensures 1 <= merged[i].from && merged[i].to <= MAX_PORT {
      assert Has(merged[i], merged[i].from) && Has(merged[i], merged[i].to);
      assert Covers(merged, merged[i].from) && Covers(merged, merged[i].to);
    }
  }

  /** Between two neighbours, or before the first range, there is nothing. */
  lemma InGap(merged: seq<Range>, k: nat, p: int)
    requires k < |merged| && Canonical(merged) && p < merged[k].from && (k > 0 ==> merged[k - 1].to < p)
    ensures !Covers(merged, p)
  {
    forall i | 0 <= i < |merged| ensures !Has(merged[i], p) {
      if i > k { assert merged[k].to + 1 < merged[i].from; }
      if i < k - 1 { assert merged[i].to + 1 < merged[k - 1].from; }
    }
  }

  lemma FillGap(merged: seq<Range>, k: nat, out: seq<Range>, cursor: int)
    requires k < |merged| && Canonical(merged) && Within(merged) && GapsUpTo(merged, out, cursor)
    requires cursor == CursorAt(merged, k)
    ensures GapsUpTo(merged, WithGap(out, cursor, merged[k].from - 1), merged[k].to + 1)
    ensures cursor < merged[k].to + 1
  {
    var r := merged[k];
    assert cursor <= r.from;
    forall p | cursor <= p <= r.to ensures Covers(merged, p) <==> r.from <= p {
      if r.from <= p { assert Has(merged[k], p); } else { InGap(merged, k, p); }
    }
    if r.from > cursor {
      forall p ensures Covers(out + [Range(cursor, r.from - 1)], p) <==> 1 <= p < r.to + 1 && !Covers(merged, p) {
        CoversMore(out, Range(cursor, r.from - 1), p);
      }
      assert GapsUpTo(merged, out + [Range(cursor, r.from - 1)], r.to + 1);
    } else {
      assert GapsUpTo(merged, out, r.to + 1);
    }
  }

  lemma LastGap(merged: seq<Range>, out: seq<Range>, cursor: int)
    requires Canonical(merged) && Within(merged) && GapsUpTo(merged, out, cursor)
    requires cursor == CursorAt(merged, |merged|)
    ensures IsComplement(merged, WithGap(out, cursor, 65535))
  {
    forall p | Covers(merged, p) ensures p < cursor {
      var i :| 0 <= i < |merged| && Has(merged[i], p);
      assert i < |merged| - 1 ==> merged[i].to + 1 < merged[|merged| - 1].from;
      assert merged[|merged| - 1].from <= merged[|merged| - 1].to;
    }
    if cursor <= 65535 {
      forall p ensures Covers(out + [Range(cursor, 65535)], p) <==> 1 <= p <= MAX_PORT && !Covers(merged, p) {
        CoversMore(out, Range(cursor, 65535), p);
      }
    }
  }
}
