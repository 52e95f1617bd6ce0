// Version strings: the installer packs them into 64 bits, the updater compares
// them part by part.
module Versions {
  import opened Text

  const MAX_PART := 65535
  const UNSIGNED_LONG := 0x1_0000_0000

  predicate ValidPart(p: string) { p != "" && AllDigits(p) && Value(p) <= MAX_PART }

  /** Part i as a number; parts that are not there count as zero. */
  function Part(parts: seq<string>, i: nat): (v: nat)
    ensures v <= MAX_PART
  {
    if i < |parts| && ValidPart(parts[i]) then Value(parts[i]) else 0
  }

  // ---- Packing -------------------------------------------------------------

  predicate Digits(text: string, at: nat, end: nat) {
    at <= end <= |text| && forall i :: at <= i < end ==> IsDigit(text[i])
  }

  /** Where the digits from at on end. */
  function DigitsEnd(text: string, at: nat): (end: nat)
    requires at <= |text|
    ensures Digits(text, at, end) && (end < |text| ==> !IsDigit(text[end]))
    decreases |text| - at
  {
    if at < |text| && IsDigit(text[at]) then DigitsEnd(text, at + 1) else at
  }

  function DigitsValue(text: string, at: nat, end: nat): nat
    requires Digits(text, at, end)
    decreases end
  {
    if at == end then 0 else 10 * DigitsValue(text, at, end - 1) + DigitValue(text[end - 1])
  }

  lemma {:induction false} DigitsValueIsValue(text: string, at: nat, end: nat)
    requires Digits(text, at, end)
    ensures AllDigits(text[at..end]) && DigitsValue(text, at, end) == Value(text[at..end])
    decreases end
  {
    if at < end {
      var s := text[at..end];
      assert s[..|s| - 1] == text[at..end - 1];
      DigitsValueIsValue(text, at, end - 1);
    }
  }

  /** strtoul in base 10 with a 32-bit unsigned long: the value and the end. */
  function Strtoul(text: string, at: nat): (r: (nat, nat))
    requires at <= |text|
    ensures at <= r.1 <= |text|
  {
    var i := LeftEdge(text, IsAsciiSpace, at);
    var negative := i < |text| && text[i] == '-';
    var j := if i < |text| && (text[i] == '-' || text[i] == '+') then i + 1 else i;
    var end := DigitsEnd(text, j);
    if end == j then (0, at)
    else
      var v := DigitsValue(text, j, end);
      if v >= UNSIGNED_LONG then (UNSIGNED_LONG - 1, end)
      else (if negative then (UNSIGNED_LONG - v) % UNSIGNED_LONG else v, end)
  }

  datatype FieldResult = Malformed | Last(v: nat) | More(v: nat, next: nat)

  /** One round of the loop of parse_version. */
  function NextField(text: string, limit: nat, at: nat): (r: FieldResult)
    requires limit < |text|
    ensures r.More? ==> at < r.next <= limit
  {
    if at > limit then Malformed
    else if text[at] == '-' || text[at] == '+' then Malformed
    else
      var (nibble, end) := Strtoul(text, at);
      if nibble > MAX_PART then Malformed
      else if end >= limit then Last(nibble)
      else if text[end] != '.' then Malformed
      else More(nibble, end + 1)
  }

  /** A field with n fields, three at most, to the right of it. */
  function Field(v: nat, n: nat): nat {
    if n == 0 then v else if n == 1 then v * 0x1_0000 else if n == 2 then v * 0x1_0000_0000 else v * 0x1_0000_0000_0000
  }

  /** The value of the last n fields, read with step from position at. */
  function Fields(step: nat -> FieldResult, at: nat, n: nat): Option<nat>
    decreases n
  {
    if n == 0 then Some(0)
    else
      match step(at)
      case Malformed => None
      case Last(v) => Some(Field(v, n - 1))
      case More(v, next) => Plus(Field(v, n - 1), Fields(step, next, n - 1))
  }

  function Reader(text: string, limit: nat): nat -> FieldResult
    requires limit < |text|
  {
    (at: nat) => NextField(text, limit, at)
  }

  /** The version in front of limit; zero when it is malformed. */
  function ParsedVersion(text: string, limit: nat): nat
    requires limit < |text|
  {
    match Fields(Reader(text, limit), 0, 4)
    case None => 0
    case Some(v) => v
  }

  function Plus(v: nat, rest: Option<nat>): Option<nat> {
    if rest.Some? then Some(v + rest.value) else None
  }

  lemma DisjointOr(version: bv64, field: bv64)
    requires version & field == 0
    ensures version | field == version + field
  {}

  ghost predicate Reads(step: nat -> FieldResult, text: string, limit: nat)
    requires limit < |text|
  {
    ReadsEverywhere(step, text, limit)
  }

  ghost predicate ReadsEverywhere(step: nat -> FieldResult, text: string, limit: nat)
    requires limit < |text|
  {
    forall at {:trigger NextField(text, limit, at)} :: step(at) == NextField(text, limit, at)
  }

  /** parse_version. The text goes on behind the version, and the fields do not
      overlap, so that or is addition. */
  method ParseVersion(text: string, limit: nat) returns (version: nat)
    requires limit < |text|
    ensures version == ParsedVersion(text, limit)
  {
    var parsed := ParseFields(text, limit, 4, Reader(text, limit));
    version := if parsed.Some? then parsed.value else 0;
  }

  method ParseFields(text: string, limit: nat, count: nat, ghost step: nat -> FieldResult) returns (parsed: Option<nat>)
    requires limit < |text| && Reads(step, text, limit)
    ensures parsed == Fields(step, 0, count)
  {
    var version: nat := 0;
    var at: nat := 0;
    for k := 0 to count
      invariant at <= limit
      invariant Fields(step, 0, count) == Plus(version, Fields(step, at, count - k))
    {
      var r := ReadField(text, limit, at, step);
      match r {
        case Malformed => return None;
        case Last(nibble) => return Some(version + Field(nibble, count - 1 - k));
        case More(nibble, next) =>
          version := version + Field(nibble, count - 1 - k);
          at := next;
      }
    }
    return Some(version);
  }

  method ReadField(text: string, limit: nat, at: nat, ghost step: nat -> FieldResult) returns (r: FieldResult)
    requires at <= limit < |text| && Reads(step, text, limit)
    ensures r == step(at) && (r.More? ==> r.next <= limit)
  {
    assert step(at) == NextField(text, limit, at);
    if text[at] == '-' || text[at] == '+' { return Malformed; }
    var (nibble, end) := Strtoul(text, at);
    if nibble > MAX_PART { return Malformed; }
    if end >= limit { return Last(nibble); }
    if text[end] != '.' { return Malformed; }
    return More(nibble, end + 1);
  }

  /** The first n parts as digits in base 65536. */
  function Packed(parts: seq<string>, n: nat): nat {
    if n == 0 then 0
    else Field(Part(parts, 0), n - 1) + Packed(if parts == [] then [] else parts[1..], n - 1)
  }

  /** What n fields, four at most, can count up to. */
  function Limit(n: nat): nat {
    if n < 4 then Field(1, n) else 0x1_0000_0000_0000_0000
  }

  lemma {:induction false} PackedBelow(parts: seq<string>, n: nat)
    requires n <= 4
    ensures Packed(parts, n) < Limit(n)
  {
    if n > 0 { PackedBelow(if parts == [] then [] else parts[1..], n - 1); }
  }

  predicate ValidUpTo(parts: seq<string>, n: nat) {
    forall i :: 0 <= i < |parts| && i < n ==> ValidPart(parts[i])
  }

  /** A part that parse_version can read; an empty one counts as zero. */
  predicate Readable(p: string) { p == "" || ValidPart(p) }

  function Number(p: string): nat
    requires Readable(p)
  {
    if p == "" then 0 else Value(p)
  }

  predicate ReadableUpTo(parts: seq<string>, n: nat) {
    forall i :: 0 <= i < |parts| && i < n ==> Readable(parts[i])
  }

  lemma {:induction false} DigitsEndUnique(text: string, at: nat, end: nat)
    requires Digits(text, at, end) && end < |text| && !IsDigit(text[end])
    ensures DigitsEnd(text, at) == end
    decreases end - at
  {
    if at < end { DigitsEndUnique(text, at + 1, end); }
  }

  lemma StrtoulOfPart(text: string, at: nat, end: nat)
    requires at <= end < |text| && Readable(text[at..end]) && text[end] == '.'
    ensures Strtoul(text, at) == (Number(text[at..end]), end) && (IsDigit(text[at]) || text[at] == '.')
  {
    if at < end {
      assert forall i :: at <= i < end ==> text[i] == text[at..end][i - at];
      DigitsEndUnique(text, at, end);
      DigitsValueIsValue(text, at, end);
    }
  }

  /** The parts one after the other, with a dot in between, make up s. */
  ghost predicate SplitsInto(s: string, parts: seq<string>)
    decreases |parts|
  {
    parts != [] && |parts[0]| <= |s| && s[..|parts[0]|] == parts[0]
    && if |parts| == 1 then |parts[0]| == |s|
       else |parts[0]| < |s| && s[|parts[0]|] == '.' && SplitsInto(s[|parts[0]| + 1..], parts[1..])
  }

  lemma PieceAt(text: string, at: nat, limit: nat, parts: seq<string>)
    requires at <= limit <= |text| && SplitsInto(text[at..limit], parts)
    ensures parts != [] && parts == [parts[0]] + parts[1..]
    ensures at + |parts[0]| <= limit && text[at..at + |parts[0]|] == parts[0]
  {
    assert text[at..limit][..|parts[0]|] == text[at..at + |parts[0]|];
  }

  lemma {:induction false} SplitParts(s: string)
    ensures SplitsInto(s, Split(s, '.'))
    decreases |s|
  {
    var k := IndexOf(s, '.');
    if k < |s| {
      SplitParts(s[k + 1..]);
      assert Split(s, '.')[1..] == Split(s[k + 1..], '.');
    }
  }

  lemma NextFieldOfPart(text: string, limit: nat, at: nat, end: nat, step: nat -> FieldResult)
    requires at <= end <= limit < |text| && Reads(step, text, limit) && Readable(text[at..end]) && text[end] == '.'
    ensures step(at) == if end == limit then Last(Number(text[at..end])) else More(Number(text[at..end]), end + 1)
  {
    StrtoulOfPart(text, at, end);
    assert step(at) == NextField(text, limit, at);
  }

  /** Stepping from at meets the given parts, as far as the first n. */
  ghost predicate Yields(step: nat -> FieldResult, at: nat, parts: seq<string>, n: nat)
    decreases n
  {
    n == 0
    || (parts != [] && Readable(parts[0])
        && match step(at)
           case Malformed => false
           case Last(v) => |parts| == 1 && v == Number(parts[0])
           case More(v, next) => |parts| > 1 && v == Number(parts[0]) && Yields(step, next, parts[1..], n - 1))
  }

  lemma YieldsCons(step: nat -> FieldResult, at: nat, head: string, tail: seq<string>, n: nat)
    requires n > 0 && Readable(head)
    requires match step(at)
             case Malformed => false
             case Last(v) => tail == [] && v == Number(head)
             case More(v, next) => tail != [] && v == Number(head) && Yields(step, next, tail, n - 1)
    ensures Yields(step, at, [head] + tail, n)
  {
    assert ([head] + tail)[1..] == tail;
  }

  lemma {:induction false} TextYields(text: string, limit: nat, at: nat, n: nat, parts: seq<string>, step: nat -> FieldResult)
    requires at <= limit < |text| && Reads(step, text, limit) && text[limit] == '.'
    requires SplitsInto(text[at..limit], parts) && ReadableUpTo(parts, n)
    ensures Yields(step, at, parts, n)
    decreases n
  {
    if n > 0 {
      PieceAt(text, at, limit, parts);
      var rest, head, tail := text[at..limit], parts[0], parts[1..];
      var end := at + |head|;
      ReadableTail(head, tail, n);
      if end < limit {
        assert rest[|head|] == text[end] && rest[|head| + 1..] == text[end + 1..limit];
        TextYields(text, limit, end + 1, n - 1, tail, step);
      }
      NextFieldOfPart(text, limit, at, end, step);
      YieldsCons(step, at, head, tail, n);
    }
  }

  /** Reading the fields of a version gives its parts. */
  lemma {:induction false} FieldsOfParts(step: nat -> FieldResult, at: nat, parts: seq<string>, n: nat)
    requires n > 0 && Yields(step, at, parts, n)
    ensures Fields(step, at, n) == Some(Packed(parts, n))
    decreases n
  {
    assert parts == [parts[0]] + parts[1..];
    PackedCons(parts[0], parts[1..], n);
    if step(at).Last? {
      PackedNothing(n - 1);
    } else if n > 1 {
      FieldsOfParts(step, step(at).next, parts[1..], n - 1);
    }
  }

  lemma ReadableTail(head: string, tail: seq<string>, n: nat)
    requires n > 0 && ReadableUpTo([head] + tail, n)
    ensures ReadableUpTo(tail, n - 1) && Readable(head)
  {
    assert ([head] + tail)[0] == head;
    assert forall i :: 0 <= i < |tail| ==> tail[i] == ([head] + tail)[i + 1];
  }

  lemma PackedCons(head: string, tail: seq<string>, n: nat)
    requires n > 0 && Readable(head)
    ensures Packed([head] + tail, n) == Field(Number(head), n - 1) + Packed(tail, n - 1)
  {
    assert ([head] + tail)[1..] == tail;
  }

  lemma {:induction false} PackedNothing(n: nat)
    ensures Packed([], n) == 0
  {
    if n > 0 { PackedNothing(n - 1); }
  }

  /** parse_version of a version whose first four parts are decimal numbers up
      to 65535, or empty, puts them in order into 64 bits; further parts do not
      count. */
  lemma ParsedIsPacked(version: string, rest: string)
    requires HasPrefix(rest, ".") && ReadableUpTo(Split(version, '.'), 4)
    ensures ParsedVersion(version + rest, |version|) == Packed(Split(version, '.'), 4) < 0x1_0000_0000_0000_0000
  {
    var text := version + rest;
    assert text[0..|version|] == version && rest[..1][0] == '.';
    SplitParts(version);
    TextYields(text, |version|, 0, 4, Split(version, '.'), Reader(text, |version|));
    FieldsOfParts(Reader(text, |version|), 0, Split(version, '.'), 4);
    PackedBelow(Split(version, '.'), 4);
  }

  /** Something other than a number up to 65535, not starting with a blank. */
  predicate BadPart(p: string) { p != "" && !IsAsciiSpace(p[0]) && !ValidPart(p) }

  lemma DigitsInFront(text: string, at: nat, end: nat)
    requires at <= end < |text|
    ensures DigitsEnd(text, at) >= end ==> AllDigits(text[at..end])
  {
    var e := DigitsEnd(text, at);
    if e >= end {
      forall i | 0 <= i < end - at ensures IsDigit(text[at..end][i]) { assert text[at..end][i] == text[at + i]; }
    }
  }

  lemma NextFieldOfBad(text: string, limit: nat, at: nat, end: nat)
    requires at < end <= limit < |text| && BadPart(text[at..end]) && '.' !in text[at..end] && text[end] == '.'
    ensures NextField(text, limit, at).Malformed?
  {
    assert text[at..end][0] == text[at];
    if text[at] != '-' && text[at] != '+' {
      var stop := DigitsEnd(text, at);
      DigitsInFront(text, at, end);
      if stop >= end {
        DigitsEndUnique(text, at, end);
        DigitsValueIsValue(text, at, end);
      } else {
        assert text[at..end][stop - at] == text[stop];
      }
    }
  }

  lemma {:induction false} FieldsFail(text: string, limit: nat, at: nat, n: nat, parts: seq<string>, step: nat -> FieldResult, i: nat)
    requires at <= limit < |text| && Reads(step, text, limit) && text[limit] == '.'
    requires SplitsInto(text[at..limit], parts) && Free(parts, '.') && i < n && i < |parts| && ReadableUpTo(parts, i) && BadPart(parts[i])
    ensures Fields(step, at, n) == None
    decreases n
  {
    PieceAt(text, at, limit, parts);
    var rest, head, tail := text[at..limit], parts[0], parts[1..];
    var end := at + |head|;
    assert end < limit ==> rest[|head|] == text[end] && rest[|head| + 1..] == text[end + 1..limit];
    if i == 0 {
      NextFieldOfBad(text, limit, at, end);
      assert step(at) == NextField(text, limit, at);
    } else {
      NextFieldOfPart(text, limit, at, end, step);
      FieldsFail(text, limit, end + 1, n - 1, tail, step, i - 1);
    }
  }

  /** A version with something else among its first four parts is read as zero. */
  lemma BadIsZero(version: string, rest: string, i: nat)
    requires HasPrefix(rest, ".") && i < 4
    requires var parts := Split(version, '.'); i < |parts| && ReadableUpTo(parts, i) && BadPart(parts[i])
    ensures ParsedVersion(version + rest, |version|) == 0
  {
    var text := version + rest;
    assert text[0..|version|] == version && rest[..1][0] == '.';
    SplitParts(version);
    SplitIsFree(version, '.');
    FieldsFail(text, |version|, 0, 4, Split(version, '.'), Reader(text, |version|), i);
  }

  // ---- Comparing -----------------------------------------------------------

  predicate ValidAt(parts: seq<string>, i: nat) { i < |parts| ==> ValidPart(parts[i]) }

  /** The comparison from part i on; None is an error. */
  function Compare(candidate: seq<string>, ours: seq<string>, i: nat): Option<bool>
    decreases |candidate| + |ours| - i
  {
    if i >= |candidate| && i >= |ours| then Some(false)
    else if !ValidAt(candidate, i) || !ValidAt(ours, i) then None
    else if Part(candidate, i) == Part(ours, i) then Compare(candidate, ours, i + 1)
    else Some(Part(candidate, i) > Part(ours, i))
  }

  /** Valid parts that are the same, up to part j. */
  predicate AlikeTo(c: seq<string>, o: seq<string>, i: nat, j: nat) {
    i <= j && forall k :: i <= k < j ==> ValidAt(c, k) && ValidAt(o, k) && Part(c, k) == Part(o, k)
  }

  predicate FailsAt(c: seq<string>, o: seq<string>, i: nat, j: nat) { AlikeTo(c, o, i, j) && !(ValidAt(c, j) && ValidAt(o, j)) }

  predicate WinsAt(c: seq<string>, o: seq<string>, i: nat, j: nat) {
    AlikeTo(c, o, i, j) && ValidAt(c, j) && ValidAt(o, j) && Part(c, j) > Part(o, j)
  }

  /** For any two versions: an error when the first part that is not alike is no
      number up to 65535 in one of them, and newer when it is larger. */
  lemma {:induction false} CompareExactly(c: seq<string>, o: seq<string>, i: nat)
    ensures Compare(c, o, i) == None <==> exists j :: FailsAt(c, o, i, j)
    ensures Compare(c, o, i) == Some(true) <==> exists j :: WinsAt(c, o, i, j)
    decreases |c| + |o| - i
  {
    if i < |c| || i < |o| {
      CompareExactly(c, o, i + 1);
      ExactlyStep(c, o, i, i + 1);
    }
  }

  lemma ExactlyStep(c: seq<string>, o: seq<string>, i: nat, next: nat)
    requires next == i + 1
    ensures var same := ValidAt(c, i) && ValidAt(o, i) && Part(c, i) == Part(o, i);
            && ((exists j :: FailsAt(c, o, i, j)) <==> !(ValidAt(c, i) && ValidAt(o, i)) || (same && exists j :: FailsAt(c, o, next, j)))
            && ((exists j :: WinsAt(c, o, i, j)) <==>
                  (ValidAt(c, i) && ValidAt(o, i) && Part(c, i) > Part(o, i)) || (same && exists j :: WinsAt(c, o, next, j)))
  {
    if !(ValidAt(c, i) && ValidAt(o, i)) { assert FailsAt(c, o, i, i); }
    if ValidAt(c, i) && ValidAt(o, i) && Part(c, i) > Part(o, i) { assert WinsAt(c, o, i, i); }
    if ValidAt(c, i) && ValidAt(o, i) && Part(c, i) == Part(o, i) {
      if j :| FailsAt(c, o, next, j) { assert FailsAt(c, o, i, j); }
      if j :| FailsAt(c, o, i, j) { assert FailsAt(c, o, next, j); }
      if j :| WinsAt(c, o, next, j) { assert WinsAt(c, o, i, j); }
      if j :| WinsAt(c, o, i, j) { assert WinsAt(c, o, next, j); }
    }
  }

  method VersionNewerThanUs(candidate: string, ours: string) returns (newer: Option<bool>)
    ensures newer == Compare(Split(candidate, '.'), Split(ours, '.'), 0)
  {
    var candidateParts, ourParts := Split(candidate, '.'), Split(ours, '.');
    if |candidateParts| == 0 || |ourParts| == 0 { return None; }
    var l := |candidateParts|;
    if |ourParts| > l { l := |ourParts|; }
    for i := 0 to l
      invariant Compare(candidateParts, ourParts, 0) == Compare(candidateParts, ourParts, i)
    {
      var cP, oP := 0, 0;
      if i < |candidateParts| {
        if |candidateParts[i]| == 0 { return None; }
        var parsed := ParseUint16(candidateParts[i]);
        if parsed.None? { return None; }
        cP := parsed.value;
      }
      if i < |ourParts| {
        if |ourParts[i]| == 0 { return None; }
        var parsed := ParseUint16(ourParts[i]);
        if parsed.None? { return None; }
        oP := parsed.value;
      }
      if cP == oP { continue; }
      return Some(cP > oP);
    }
    return Some(false);
  }

  function Drop(parts: seq<string>, i: nat): seq<string> { if i < |parts| then parts[i..] else [] }

  lemma PackedDrop(parts: seq<string>, i: nat, n: nat)
    requires n > 0
    ensures Packed(Drop(parts, i), n) == Field(Part(parts, i), n - 1) + Packed(Drop(parts, i + 1), n - 1)
  {
    assert Part(Drop(parts, i), 0) == Part(parts, i);
    assert Drop(parts, i + 1) == if Drop(parts, i) == [] then [] else Drop(parts, i)[1..];
  }

  /** One part of valid versions; a missing one counts as zero. */
  lemma CompareStep(c: seq<string>, o: seq<string>, i: nat)
    requires ValidUpTo(c, |c|) && ValidUpTo(o, |o|)
    ensures Compare(c, o, i) ==
            if Part(c, i) == Part(o, i) then Compare(c, o, i + 1) else Some(Part(c, i) > Part(o, i))
  {}

  lemma PackedStep(c: seq<string>, o: seq<string>, i: nat)
    requires i < 4
    ensures var a, b := Part(c, i), Part(o, i);
            var x, y := Packed(Drop(c, i + 1), 3 - i), Packed(Drop(o, i + 1), 3 - i);
            && (Packed(Drop(c, i), 4 - i) > Packed(Drop(o, i), 4 - i) <==> a > b || (a == b && x > y))
            && (Packed(Drop(c, i), 4 - i) == Packed(Drop(o, i), 4 - i) <==> a == b && x == y)
  {
    PackedDrop(c, i, 4 - i);
    PackedDrop(o, i, 4 - i);
    PackedBelow(Drop(c, i + 1), 3 - i);
    PackedBelow(Drop(o, i + 1), 3 - i);
    FirstFieldDecides(Part(c, i), Packed(Drop(c, i + 1), 3 - i), Part(o, i), Packed(Drop(o, i + 1), 3 - i), 3 - i);
  }

  predicate SameUpTo(c: seq<string>, o: seq<string>, i: nat, n: nat) { forall k :: i <= k < n ==> Part(c, k) == Part(o, k) }

  predicate SameParts(c: seq<string>, o: seq<string>, i: nat) { SameUpTo(c, o, i, 4) }

  /** The packed values of two versions from part i on, known by how they grow. */
  ghost predicate PackedSo(x: nat -> nat, y: nat -> nat, c: seq<string>, o: seq<string>, n: nat) {
    x(n) == y(n) && forall i: nat :: PackedSoAt(x, y, c, o, n, i)
  }

  ghost predicate PackedSoAt(x: nat -> nat, y: nat -> nat, c: seq<string>, o: seq<string>, n: nat, i: nat) {
    i < n ==>
      (x(i) > y(i) <==> Part(c, i) > Part(o, i) || (Part(c, i) == Part(o, i) && x(i + 1) > y(i + 1)))
      && (x(i) == y(i) <==> Part(c, i) == Part(o, i) && x(i + 1) == y(i + 1))
  }

  /** The packed fields decide as long as they differ; then the parts behind them. */
  lemma {:induction false} CompareIsPacked(x: nat -> nat, y: nat -> nat, c: seq<string>, o: seq<string>, i: nat, n: nat)
    requires i <= n && ValidUpTo(c, |c|) && ValidUpTo(o, |o|) && PackedSo(x, y, c, o, n)
    ensures Compare(c, o, i) == if x(i) == y(i) then Compare(c, o, n) else Some(x(i) > y(i))
    ensures x(i) == y(i) <==> SameUpTo(c, o, i, n)
    decreases n - i
  {
    if i < n {
      CompareStep(c, o, i);
      assert PackedSoAt(x, y, c, o, n, i);
      CompareIsPacked(x, y, c, o, i + 1, n);
    }
  }

  lemma FirstFieldDecides(a: nat, x: nat, b: nat, y: nat, n: nat)
    requires n < 4 && x < Limit(n) && y < Limit(n)
    ensures Field(a, n) + x > Field(b, n) + y <==> a > b || (a == b && x > y)
    ensures Field(a, n) + x == Field(b, n) + y <==> a == b && x == y
  {}

  /** Part j is the first one that differs, and the candidate's is larger. */
  predicate NewerAt(c: seq<string>, o: seq<string>, i: nat, j: nat) {
    i <= j && Part(c, j) > Part(o, j) && forall k :: i <= k < j ==> Part(c, k) == Part(o, k)
  }

  ghost predicate NewerFrom(c: seq<string>, o: seq<string>, i: nat) { exists j :: NewerAt(c, o, i, j) }

  /** What the comparison of valid versions says. */
  lemma {:induction false} CompareMeans(c: seq<string>, o: seq<string>, i: nat)
    requires ValidUpTo(c, |c|) && ValidUpTo(o, |o|)
    ensures Compare(c, o, i).Some? && (Compare(c, o, i) == Some(true) <==> NewerFrom(c, o, i))
    decreases |c| + |o| - i
  {
    if i < |c| || i < |o| {
      CompareStep(c, o, i);
      CompareMeans(c, o, i + 1);
      NewerStep(c, o, i, i + 1);
    }
  }

  lemma NewerStep(c: seq<string>, o: seq<string>, i: nat, next: nat)
    requires next == i + 1
    ensures NewerFrom(c, o, i) <==> Part(c, i) > Part(o, i) || (Part(c, i) == Part(o, i) && NewerFrom(c, o, next))
  {
    if Part(c, i) > Part(o, i) { assert NewerAt(c, o, i, i); }
    if Part(c, i) == Part(o, i) {
      if j :| NewerAt(c, o, next, j) { assert NewerAt(c, o, i, j); }
      if j :| NewerAt(c, o, i, j) { assert NewerAt(c, o, next, j); }
    }
  }

  predicate NewerBehind(c: seq<string>, o: seq<string>, j: nat) { j >= 4 && NewerAt(c, o, 0, j) }

  /** The first four parts are equal, and the candidate is newer by a later one. */
  ghost predicate LaterNewer(c: seq<string>, o: seq<string>) { exists j :: NewerBehind(c, o, j) }

  /** For valid versions of any length, with parts c and o, which the installer
      reads as x and y: the two ways of ordering disagree exactly when the
      candidate is newer by a part behind the fourth. */
  lemma Disagreement(candidate: string, ours: string, rest: string, c: seq<string>, o: seq<string>, x: nat, y: nat)
    requires HasPrefix(rest, ".") && c == Split(candidate, '.') && o == Split(ours, '.')
    requires ValidUpTo(c, |c|) && ValidUpTo(o, |o|)
    requires x == ParsedVersion(candidate + rest, |candidate|) && y == ParsedVersion(ours + rest, |ours|)
    ensures Compare(c, o, 0) != Some(x > y) <==> LaterNewer(c, o)
  {
    var n: nat :| n == 4;
    assert x == ParsedPacked(candidate, rest, n) && y == ParsedPacked(ours, rest, n);
    PackedDecides(c, o, x, y, 0, n);
  }

  /** The packed version, as the installer reads it. */
  ghost function ParsedPacked(version: string, rest: string, n: nat): (v: nat)
    requires HasPrefix(rest, ".") && ValidUpTo(Split(version, '.'), |Split(version, '.')|) && n == 4
    ensures v == ParsedVersion(version + rest, |version|) && v == Packed(Split(version, '.'), n)
  {
    ParsedIsPacked(version, rest);
    Packed(Split(version, '.'), n)
  }

  lemma PackedDecides(c: seq<string>, o: seq<string>, x: nat, y: nat, i: nat, n: nat)
    requires ValidUpTo(c, |c|) && ValidUpTo(o, |o|) && i == 0 && n == 4 && x == Packed(c, n) && y == Packed(o, n)
    ensures Compare(c, o, i) != Some(x > y) <==> LaterNewer(c, o)
  {
    WholeIsPacked(c, o, x, y, i, n);
    CompareMeans(c, o, n);
    Decides(Compare(c, o, i), Compare(c, o, n), x, y);
    BehindFourth(c, o, n);
  }

  lemma WholeIsPacked(c: seq<string>, o: seq<string>, x: nat, y: nat, i: nat, n: nat)
    requires ValidUpTo(c, |c|) && ValidUpTo(o, |o|) && i == 0 && n == 4 && x == Packed(c, n) && y == Packed(o, n)
    ensures Compare(c, o, i) == (if x == y then Compare(c, o, n) else Some(x > y)) && (x == y <==> SameParts(c, o, i))
  {
    assert Drop(c, i) == c && Drop(o, i) == o;
    var u, v := PackedFrom(c, o, n);
    CompareIsPacked(u, v, c, o, i, n);
  }

  lemma PackedFrom(c: seq<string>, o: seq<string>, n: nat) returns (x: nat -> nat, y: nat -> nat)
    requires n == 4
    ensures PackedSo(x, y, c, o, n) && x(0) == Packed(Drop(c, 0), n) && y(0) == Packed(Drop(o, 0), n)
  {
    x := (k: nat) => if k <= n then Packed(Drop(c, k), n - k) else 0;
    y := (k: nat) => if k <= n then Packed(Drop(o, k), n - k) else 0;
    forall k: nat ensures PackedSoAt(x, y, c, o, n, k) {
      if k < n { PackedStep(c, o, k); }
    }
  }

  lemma Decides(whole: Option<bool>, later: Option<bool>, x: nat, y: nat)
    requires whole == (if x == y then later else Some(x > y)) && later.Some?
    ensures whole != Some(x > y) <==> x == y && later == Some(true)
  {
    if x == y && later.value { assert later == Some(true); }
    if x == y && !later.value { assert later == Some(false); }
  }

  lemma BehindFourth(c: seq<string>, o: seq<string>, n: nat)
    requires n == 4
    ensures LaterNewer(c, o) <==> SameParts(c, o, 0) && NewerFrom(c, o, n)
  {
    if j :| NewerBehind(c, o, j) { assert NewerAt(c, o, n, j); }
    if SameParts(c, o, 0) && NewerFrom(c, o, n) {
      var j :| NewerAt(c, o, n, j);
      assert NewerBehind(c, o, j);
    }
  }

  /** As with a fifth part that the installer does not read. */
  lemma FifthPartCounts()
    ensures var c, o := ["1", "0", "0", "0", "1"], ["1"]; ValidUpTo(c, |c|) && ValidUpTo(o, |o|) && LaterNewer(c, o)
  {
    var c, o := ["1", "0", "0", "0", "1"], ["1"];
    assert Value("") == 0 && "0"[..0] == "" && "1"[..0] == "";
    assert Value("0") == 0 && Value("1") == 1;
    assert NewerBehind(c, o, 4);
  }

  /** So they agree on versions of up to four parts. */
  lemma Agreement(candidate: string, ours: string, rest: string)
    requires HasPrefix(rest, ".")
    requires var c, o := Split(candidate, '.'), Split(ours, '.');
             |c| <= 4 && |o| <= 4 && ValidUpTo(c, 4) && ValidUpTo(o, 4)
    ensures Compare(Split(candidate, '.'), Split(ours, '.'), 0) ==
            Some(ParsedVersion(candidate + rest, |candidate|) > ParsedVersion(ours + rest, |ours|))
  {
    AgreementOf(candidate, ours, rest, Split(candidate, '.'), Split(ours, '.'),
                ParsedVersion(candidate + rest, |candidate|), ParsedVersion(ours + rest, |ours|));
  }

  lemma AgreementOf(candidate: string, ours: string, rest: string, c: seq<string>, o: seq<string>, x: nat, y: nat)
    requires HasPrefix(rest, ".") && c == Split(candidate, '.') && o == Split(ours, '.')
    requires |c| <= 4 && |o| <= 4 && ValidUpTo(c, 4) && ValidUpTo(o, 4)
    requires x == ParsedVersion(candidate + rest, |candidate|) && y == ParsedVersion(ours + rest, |ours|)
    ensures Compare(c, o, 0) == Some(x > y)
  {
    Disagreement(candidate, ours, rest, c, o, x, y);
    NothingBehind(c, o);
  }

  lemma NothingBehind(c: seq<string>, o: seq<string>)
    requires |c| <= 4 && |o| <= 4
    ensures !LaterNewer(c, o)
  {
    assert forall j :: j >= 4 ==> Part(c, j) == 0;
  }

  // ---- Choosing a candidate ------------------------------------------------

  const MSI_SUFFIX := ".msi"

  function TrimPrefix(s: string, prefix: string): string {
    if HasPrefix(s, prefix) then s[|prefix|..] else s
  }

  function TrimSuffix(s: string, suffix: string): string {
    if HasSuffix(s, suffix) then s[..|s| - |suffix|] else s
  }

  predicate IsInstaller(name: string, prefix: string) { HasPrefix(name, prefix) && HasSuffix(name, MSI_SUFFIX) }

  function VersionOf(name: string, prefix: string): string { TrimSuffix(TrimPrefix(name, prefix), MSI_SUFFIX) }

  lemma VerdictIs(name: string, prefix: string, version: string, ours: string)
    requires VersionOf(name, prefix) == version
    ensures Verdict(name, prefix, ours) == if |version| > 128 then None else Compare(Split(version, '.'), Split(ours, '.'), 0)
  {}

  /** Versions of more than 128 bytes are errors. */
  lemma InstallerVerdict(name: string, prefix: string, version: string, ours: string, c: seq<string>, o: seq<string>)
    requires name == prefix + version + MSI_SUFFIX && c == Split(version, '.') && o == Split(ours, '.')
    ensures Verdict(name, prefix, ours) == None <==> |version| >= 129 || exists j :: FailsAt(c, o, 0, j)
    ensures Verdict(name, prefix, ours) == Some(true) <==> |version| <= 128 && exists j :: WinsAt(c, o, 0, j)
  {
    InstallerNames(name, prefix, version);
    VerdictIs(name, prefix, version, ours);
    CompareExactly(c, o, 0);
  }

  /** The version is what stands between the prefix and the suffix. */
  lemma InstallerNames(name: string, prefix: string, version: string)
    ensures name == prefix + version + MSI_SUFFIX ==> IsInstaller(name, prefix) && VersionOf(name, prefix) == version
    ensures IsInstaller(name, prefix) && |prefix| + |MSI_SUFFIX| <= |name| ==> name == prefix + VersionOf(name, prefix) + MSI_SUFFIX
  {
    if name == prefix + version + MSI_SUFFIX {
      var back := version + MSI_SUFFIX;
      assert name == prefix + back;
      assert name[..|prefix|] == prefix && name[|prefix|..] == back;
      assert name[|name| - |MSI_SUFFIX|..] == MSI_SUFFIX && back[|back| - |MSI_SUFFIX|..] == MSI_SUFFIX;
      assert back[..|back| - |MSI_SUFFIX|] == version;
    }
    if IsInstaller(name, prefix) && |prefix| + |MSI_SUFFIX| <= |name| {
      var back := name[|prefix|..];
      assert back[|back| - |MSI_SUFFIX|..] == name[|name| - |MSI_SUFFIX|..];
      assert back == back[..|back| - |MSI_SUFFIX|] + MSI_SUFFIX;
    }
  }

  /** None for an error, else whether the version of the file is newer. */
  function Verdict(name: string, prefix: string, ours: string): Option<bool> {
    var version := VersionOf(name, prefix);
    if |version| > 128 then None else Compare(Split(version, '.'), Split(ours, '.'), 0)
  }

  datatype Search<H> = Failed | NothingNewer | Found(name: string, hash: H)

  /** The candidates come in any order, so that any newer one may be found. */
  method FindCandidate<H>(candidates: map<string, H>, prefix: string, ours: string) returns (r: Search<H>)
    ensures r.Found? ==> r.name in candidates && r.hash == candidates[r.name] && IsInstaller(r.name, prefix)
                         && Verdict(r.name, prefix, ours) == Some(true)
    ensures r.NothingNewer? ==>
              forall name :: name in candidates && IsInstaller(name, prefix) ==> Verdict(name, prefix, ours) == Some(false)
    ensures r.Failed? ==> exists name :: name in candidates && IsInstaller(name, prefix) && Verdict(name, prefix, ours) == None
  {
    var left := candidates.Keys;
    while left != {}
      invariant left <= candidates.Keys
      invariant forall name :: name in candidates && name !in left && IsInstaller(name, prefix) ==>
                  Verdict(name, prefix, ours) == Some(false)
      decreases |left|
    {
      var name :| name in left;
      left := left - {name};
      if HasPrefix(name, prefix) && HasSuffix(name, MSI_SUFFIX) {
        var version := TrimSuffix(TrimPrefix(name, prefix), MSI_SUFFIX);
        if |version| > 128 { return Failed; }
        var newer := VersionNewerThanUs(version, ours);
        if newer.None? { return Failed; }
        if newer.value { return Found(name, candidates[name]); }
      }
    }
    return NothingNewer;
  }
}
