// The shared-memory ring of log lines: writers claim a slot, invalidate it,
// fill it and publish it; readers follow from a cursor.
module RingLog {
  import opened Text

  const MAX_LOG_LINE_LENGTH := 512
  const MAX_TAG_LENGTH := 5
  const MAX_LINES := 2048
  const TWO_32 := 0x1_0000_0000
  const CURSOR_ALL := 0xFFFF_FFFF

  // ---- One line ------------------------------------------------------------

  /** What a line should say: the tag in brackets and the message. */
  function Message(tag: string, p: string): string { "[" + tag + "] " + p }

  function Nuls(n: nat): string { seq(n, _ => '\0') }

  /** The 512 bytes of a filled line: the message, cut to 511 bytes, and NULs. */
  function Rendered(tag: string, p: string): (line: string)
    ensures |line| == MAX_LOG_LINE_LENGTH
  {
    var m := Message(tag, p);
    var cut := if |m| > MAX_LOG_LINE_LENGTH - 1 then m[..MAX_LOG_LINE_LENGTH - 1] else m;
    cut + Nuls(MAX_LOG_LINE_LENGTH - |cut|)
  }

  /** What a reader shows of a line: everything before the first NUL. */
  function Shown(line: string): string { line[..IndexOf(line, '\0')] }

  /** A reader shows the message, cut to 511 bytes, up to its first NUL. */
  lemma ShownRendered(tag: string, p: string)
    ensures var m := Message(tag, p);
            var cut := m[..if |m| < MAX_LOG_LINE_LENGTH then |m| else MAX_LOG_LINE_LENGTH - 1];
            Shown(Rendered(tag, p)) == cut[..IndexOf(cut, '\0')] && ('\0' !in cut ==> Shown(Rendered(tag, p)) == cut)
  {
    var m, line := Message(tag, p), Rendered(tag, p);
    var cut := m[..if |m| < MAX_LOG_LINE_LENGTH then |m| else MAX_LOG_LINE_LENGTH - 1];
    var k := IndexOf(cut, '\0');
    assert line[..|cut|] == cut && line[..k] == cut[..k];
    if k < |cut| { assert line[k] == cut[k]; }
    IndexOfUnique(line, '\0', k);
  }

  lemma ShownNonEmpty(tag: string, p: string)
    ensures Rendered(tag, p)[0] == '[' && IndexOf(Rendered(tag, p), '\0') > 0
  {
    assert Message(tag, p)[0] == '[';
  }

  /** s with text written over it from position at. */
  function Put(s: string, at: nat, text: string): (t: string)
    requires at + |text| <= |s|
    ensures |t| == |s|
  {
    s[..at] + text + s[at + |text|..]
  }

  lemma PutOneMore(s: string, at: nat, text: string, i: nat)
    requires at + |text| <= |s| && i < |text|
    ensures Put(s, at, text[..i])[at + i := text[i]] == Put(s, at, text[..i + 1])
  {}

  method CopyInto(line: array<char>, at: nat, text: string)
    requires at + |text| <= line.Length
    modifies line
    ensures line[..] == Put(old(line[..]), at, text)
  {
    for i := 0 to |text|
      invariant line[..] == Put(old(line[..]), at, text[..i])
    {
      PutOneMore(old(line[..]), at, text, i);
      line[at + i] := text[i];
    }
    assert text[..|text|] == text;
  }

  method ClearLine(line: array<char>)
    modifies line
    ensures line[..] == Nuls(line.Length)
  {
    for i := 0 to line.Length
      invariant forall k :: 0 <= k < i ==> line[k] == '\0'
    {
      line[i] := '\0';
    }
  }

  /** The byte writes between the two stamps, in their order. */
  method FillLine(line: array<char>, tag: string, p: string)
    requires line.Length == MAX_LOG_LINE_LENGTH && |tag| <= MAX_TAG_LENGTH
    modifies line
    ensures line[..] == Rendered(tag, p)
  {
    ClearLine(line);
    var q := p;
    var textLen := 3 + |p| + |tag|;
    if textLen > MAX_LOG_LINE_LENGTH - 1 {
      q := p[..MAX_LOG_LINE_LENGTH - 1 - 3 - |tag|];
      textLen := MAX_LOG_LINE_LENGTH - 1;
    }
    line[textLen] := '\0';
    line[0] := '\0';
    assert line[..] == Nuls(MAX_LOG_LINE_LENGTH);
    CopyInto(line, 1, tag);
    line[1 + |tag|] := ']';
    line[2 + |tag|] := ' ';
    CopyInto(line, 3 + |tag|, q);
    line[0] := '[';
    LineWritten(tag, p, q);
  }

  lemma LineWritten(tag: string, p: string, q: string)
    requires |tag| <= MAX_TAG_LENGTH && |q| <= MAX_LOG_LINE_LENGTH - 4 - |tag|
    requires if |p| <= MAX_LOG_LINE_LENGTH - 4 - |tag| then q == p else q == p[..MAX_LOG_LINE_LENGTH - 4 - |tag|]
    ensures var s1 := Put(Nuls(MAX_LOG_LINE_LENGTH), 1, tag)[1 + |tag| := ']'][2 + |tag| := ' '];
            Put(s1, 3 + |tag|, q)[0 := '['] == Rendered(tag, p)
  {
    var n := 3 + |tag|;
    var s1 := Put(Nuls(MAX_LOG_LINE_LENGTH), 1, tag)[1 + |tag| := ']'][2 + |tag| := ' '];
    assert s1[1..n] == tag + "] ";
    assert s1[n + |q|..] == Nuls(MAX_LOG_LINE_LENGTH - n - |q|);
    var s2 := Put(s1, n, q)[0 := '['];
    assert s2 == "[" + s1[1..n] + q + s1[n + |q|..];
    assert Message(tag, p)[..n + |q|] == Message(tag, q);
  }

  // ---- The claims, in order ------------------------------------------------

  /** How far a writer is with the slot it claimed. */
  datatype Phase = Claimed | Invalidated | Filled | Published

  datatype Claim = Claim(stamp: int, line: string, phase: Phase)

  datatype LogLine = LogLine(timeNs: int, line: string)

  datatype FollowLine = FollowLine(line: string, stamp: int)

  function Followed(c: Claim): FollowLine { FollowLine(Shown(c.line), c.stamp) }

  /** The lines of the claims from a up to, not including, b. */
  function Texts(claims: seq<Claim>, a: int, b: int): (r: seq<FollowLine>)
    requires 0 <= a <= b <= |claims|
    ensures |r| == b - a && forall i :: 0 <= i < b - a ==> r[i] == Followed(claims[a + i])
  {
    seq(b - a, i requires 0 <= i < b - a => Followed(claims[a + i]))
  }

  /** The line that the slot of index n shows: its own once published, and the
      one of the lap before until it is invalidated. */
  function Visible(claims: seq<Claim>, n: int): Option<FollowLine>
    requires n < |claims|
  {
    if n < 0 then None
    else if claims[n].phase.Published? then Some(Followed(claims[n]))
    else if claims[n].phase.Claimed? && n >= MAX_LINES then Some(Followed(claims[n - MAX_LINES]))
    else None
  }

  /** The lines shown by the slots of the indices from a up to b, in order, and
      the cursor behind the last one of them. */
  function VisibleTexts(claims: seq<Claim>, a: int, b: int): (seq<FollowLine>, nat)
    requires a <= b <= |claims|
    decreases b - a
  {
    if a == b then ([], CURSOR_ALL)
    else
      var (lines, next) := VisibleTexts(claims, a, b - 1);
      match Visible(claims, b - 1)
      case None => (lines, next)
      case Some(line) => (lines + [line], b % MAX_LINES)
  }

  /** The first index from a on whose line is not there to be read. */
  function FirstPending(claims: seq<Claim>, a: int): (e: int)
    requires a <= |claims|
    ensures a <= e <= |claims| && (a >= 0 ==> forall n :: a <= n < e ==> claims[n].phase.Published?)
    ensures a < 0 ==> e == a
    ensures 0 <= e < |claims| ==> !claims[e].phase.Published?
    decreases |claims| - a
  {
    if a < 0 || a == |claims| || !claims[a].phase.Published? then a else FirstPending(claims, a + 1)
  }

  /** Where a read from cursor starts: the last index of the cursor's slot that
      is less than one lap behind the claims. */
  function ReadStart(claims: seq<Claim>, cursor: int): int {
    |claims| - (|claims| - cursor) % MAX_LINES
  }

  /** The first line that is not there belongs to a slot that has been
      invalidated or never been used. */
  predicate Prompt(claims: seq<Claim>, cursor: int) {
    var e := FirstPending(claims, ReadStart(claims, cursor));
    0 <= e < |claims| && claims[e].phase.Claimed? ==> e < MAX_LINES
  }

  /** What the slot of claim n, the latest one for it, holds. */
  predicate Holds(slot: LogLine, claims: seq<Claim>, n: nat)
    requires n < |claims|
  {
    match claims[n].phase
    case Published => slot == LogLine(claims[n].stamp, claims[n].line)
    case Filled => slot == LogLine(0, claims[n].line)
    case Invalidated => slot.timeNs == 0
    case Claimed =>
      if n < MAX_LINES then slot.timeNs == 0
      else slot == LogLine(claims[n - MAX_LINES].stamp, claims[n - MAX_LINES].line)
  }

  /** What the slots hold: every claim of the last lap in its own slot, all
      earlier claims published, and nothing in slots never claimed. */
  predicate Coherent(slots: seq<LogLine>, claims: seq<Claim>) {
    && |slots| == MAX_LINES
    && (forall n :: 0 <= n < |claims| ==> claims[n].stamp != 0 && IndexOf(claims[n].line, '\0') > 0)
    && (forall n :: 0 <= n < |claims| - MAX_LINES ==> claims[n].phase.Published?)
    && (forall n :: 0 <= n < |claims| && |claims| - MAX_LINES <= n ==> Holds(slots[n % MAX_LINES], claims, n))
    && (forall k :: |claims| <= k < MAX_LINES ==> slots[k].timeNs == 0)
  }

  /** The last writer of the next slot has finished: no more than 2048 writers. */
  predicate NoClash(claims: seq<Claim>) {
    |claims| < MAX_LINES || claims[|claims| - MAX_LINES].phase.Published?
  }

  /** Claim n is the latest one for its slot. */
  predicate Latest(claims: seq<Claim>, n: nat) {
    n < |claims| && |claims| - MAX_LINES <= n
  }

  function Enter(claims: seq<Claim>, n: nat, phase: Phase): seq<Claim>
    requires n < |claims|
  {
    claims[n := claims[n].(phase := phase)]
  }

  /** A new claim touches no slot. */
  lemma ClaimKeeps(slots: seq<LogLine>, claims: seq<Claim>, c: Claim)
    requires Coherent(slots, claims) && NoClash(claims)
    requires c.phase.Claimed? && c.stamp != 0 && IndexOf(c.line, '\0') > 0
    ensures Coherent(slots, claims + [c])
  {
    var n, all := |claims|, claims + [c];
    forall m | 0 <= m < |all| && |all| - MAX_LINES <= m ensures Holds(slots[m % MAX_LINES], all, m) {
      if m < n {
        assert Holds(slots[m % MAX_LINES], claims, m);
      } else if n >= MAX_LINES {
        assert Holds(slots[(n - MAX_LINES) % MAX_LINES], claims, n - MAX_LINES);
      }
    }
  }

  /** A step of the latest writer of a slot disturbs no other claim. */
  lemma StepKeeps(slots: seq<LogLine>, claims: seq<Claim>, n: nat, slot: LogLine, phase: Phase)
    requires Coherent(slots, claims) && Latest(claims, n) && !claims[n].phase.Published?
    requires Holds(slot, Enter(claims, n, phase), n)
    ensures Coherent(slots[n % MAX_LINES := slot], Enter(claims, n, phase))
  {
    var next, after := Enter(claims, n, phase), slots[n % MAX_LINES := slot];
    forall m | 0 <= m < |next| && |next| - MAX_LINES <= m ensures Holds(after[m % MAX_LINES], next, m) {
      if m != n {
        OtherSlot(m, n, |claims|);
        assert Holds(slots[m % MAX_LINES], claims, m);
      }
    }
  }

  /** What the slot of index a, at most a lap behind, holds. */
  lemma SlotAt(slots: seq<LogLine>, claims: seq<Claim>, a: int)
    requires Coherent(slots, claims) && |claims| - MAX_LINES <= a < |claims|
    ensures a < 0 ==> slots[a % MAX_LINES].timeNs == 0
    ensures a >= 0 ==> Holds(slots[a % MAX_LINES], claims, a)
  {
    if a < 0 { NegativeSlot(a); }
  }

  class RingLogger {
    const tag: string
    const readOnly: bool
    const lines: array<LogLine>
    var nextIndex: nat
    ghost var claims: seq<Claim>

    ghost predicate Valid()
      reads this, lines
    {
      |tag| <= MAX_TAG_LENGTH && nextIndex == |claims| % TWO_32 && Coherent(lines[..], claims)
    }

    constructor (tag: string, readOnly: bool)
      requires |tag| <= MAX_TAG_LENGTH
      ensures Valid() && claims == [] && this.tag == tag && this.readOnly == readOnly && fresh(lines)
    {
      this.tag := tag;
      this.readOnly := readOnly;
      lines := new LogLine[MAX_LINES](_ => LogLine(0, Nuls(MAX_LOG_LINE_LENGTH)));
      nextIndex := 0;
      claims := [];
    }

    /** The atomic fetch-and-add. */
    method ClaimIndex(p: string, ts: int) returns (index: nat)
      requires Valid() && NoClash(claims) && ts != 0
      modifies this
      ensures Valid() && claims == old(claims) + [Claim(ts, Rendered(tag, p), Claimed)]
      ensures index == |old(claims)| % TWO_32 && index % MAX_LINES == |old(claims)| % MAX_LINES
    {
      ShownNonEmpty(tag, p);
      WrapKeepsSlot(|claims|);
      ClaimKeeps(lines[..], claims, Claim(ts, Rendered(tag, p), Claimed));
      index := nextIndex;
      nextIndex := (nextIndex + 1) % TWO_32;
      claims := claims + [Claim(ts, Rendered(tag, p), Claimed)];
    }

    /** The store that hides the line of the lap before. */
    method Invalidate(ghost n: nat, index: nat)
      requires Valid() && Latest(claims, n) && claims[n].phase.Claimed? && index % MAX_LINES == n % MAX_LINES
      modifies this, lines
      ensures Valid() && claims == Enter(old(claims), n, Invalidated)
    {
      var line := lines[index % MAX_LINES].line;
      StepKeeps(lines[..], claims, n, LogLine(0, line), Invalidated);
      lines[index % MAX_LINES] := LogLine(0, line);
      claims := Enter(claims, n, Invalidated);
    }

    /** Any of the byte writes, in any order: the line may hold anything. */
    method Scribble(ghost n: nat, index: nat, bytes: string)
      requires Valid() && Latest(claims, n) && claims[n].phase.Invalidated? && index % MAX_LINES == n % MAX_LINES
      modifies lines
      ensures Valid()
    {
      var stamp := lines[index % MAX_LINES].timeNs;
      StepKeeps(lines[..], claims, n, LogLine(stamp, bytes), Invalidated);
      assert Enter(claims, n, Invalidated) == claims;
      lines[index % MAX_LINES] := LogLine(stamp, bytes);
    }

    /** The byte writes, done. */
    method Fill(ghost n: nat, index: nat, p: string)
      requires Valid() && Latest(claims, n) && claims[n].phase.Invalidated? && index % MAX_LINES == n % MAX_LINES
      requires claims[n].line == Rendered(tag, p)
      modifies this, lines
      ensures Valid() && claims == Enter(old(claims), n, Filled)
    {
      var line := new char[MAX_LOG_LINE_LENGTH];
      FillLine(line, tag, p);
      var stamp := lines[index % MAX_LINES].timeNs;
      StepKeeps(lines[..], claims, n, LogLine(stamp, line[..]), Filled);
      lines[index % MAX_LINES] := LogLine(stamp, line[..]);
      claims := Enter(claims, n, Filled);
    }

    /** The store that shows the line. */
    method Publish(ghost n: nat, index: nat, ts: int)
      requires Valid() && Latest(claims, n) && claims[n].phase.Filled? && claims[n].stamp == ts
      requires index % MAX_LINES == n % MAX_LINES
      modifies this, lines
      ensures Valid() && claims == Enter(old(claims), n, Published)
    {
      var line := lines[index % MAX_LINES].line;
      StepKeeps(lines[..], claims, n, LogLine(ts, line), Published);
      lines[index % MAX_LINES] := LogLine(ts, line);
      claims := Enter(claims, n, Published);
    }

    /** The steps of one writer in a row. */
    method WriteWithTimestamp(p: string, ts: int) returns (n: nat, ok: bool)
      requires Valid() && NoClash(claims) && ts != 0
      modifies this, lines
      ensures Valid() && ok == !readOnly && n == (if readOnly then 0 else |p|)
      ensures var t := Trim(p, IsAsciiSpace);
              claims == old(claims) + if readOnly || t == "" then [] else [Claim(ts, Rendered(tag, t), Published)]
      ensures if readOnly || forall i :: 0 <= i < |p| ==> IsAsciiSpace(p[i]) then claims == old(claims)
              else exists from, to :: Middle(p, IsAsciiSpace, from, to) && from < to
                     && claims == old(claims) + [Claim(ts, Rendered(tag, p[from..to]), Published)]
    {
      var from, to := TrimIsMiddle(p, IsAsciiSpace);
      if readOnly { return 0, false; }
      var t := Trim(p, IsAsciiSpace);
      if t == "" { return |p|, true; }
      ghost var k := |claims|;
      var index := ClaimIndex(t, ts);
      Invalidate(k, index);
      Fill(k, index, t);
      Publish(k, index, ts);
      return |p|, true;
    }

    /** A read from a cursor over one copy of the ring. */
    method FollowFromCursor(cursor: nat) returns (followLines: seq<FollowLine>, nextCursor: nat)
      requires Valid() && cursor < TWO_32
      ensures cursor != CURSOR_ALL && Prompt(claims, cursor) ==>
                Read(claims, cursor) == (followLines, nextCursor)
      ensures cursor != CURSOR_ALL && !Prompt(claims, cursor) ==> StaleRead(claims, cursor, followLines)
      ensures cursor == CURSOR_ALL ==>
                (followLines, nextCursor) == VisibleTexts(claims, |claims| - MAX_LINES, |claims|)
    {
      WrapKeepsSlot(|claims|);
      if cursor == CURSOR_ALL {
        followLines, nextCursor := FollowAll(lines[..], nextIndex, claims);
      } else {
        followLines, nextCursor := FollowOn(lines[..], nextIndex, cursor, claims);
      }
    }

    method WriteTo() returns (out: seq<FollowLine>)
      requires Valid()
      ensures out == VisibleTexts(claims, |claims| - MAX_LINES, |claims|).0
    {
      WrapKeepsSlot(|claims|);
      out := Dump(lines[..], nextIndex, claims);
    }
  }

  /** The reading loop from a cursor that is not CURSOR_ALL. */
  method FollowOn(log: seq<LogLine>, nextIndex: nat, cursor: nat, ghost claims: seq<Claim>)
    returns (followLines: seq<FollowLine>, nextCursor: nat)
    requires Coherent(log, claims) && cursor < TWO_32 && nextIndex % MAX_LINES == |claims| % MAX_LINES
    ensures Prompt(claims, cursor) ==> Read(claims, cursor) == (followLines, nextCursor)
    ensures !Prompt(claims, cursor) ==> StaleRead(claims, cursor, followLines)
  {
    followLines := [];
    nextCursor := cursor;
    var i: nat := cursor;
    ghost var a := ReadStart(claims, cursor);
    StartSlot(claims, cursor);
    for l := 0 to MAX_LINES
      invariant a == ReadStart(claims, cursor) + l && a <= |claims| && i % MAX_LINES == a % MAX_LINES && i < TWO_32
      invariant Progress(claims, cursor, a, followLines, nextCursor)
    {
      var line := log[i % MAX_LINES];
      if i % MAX_LINES == nextIndex % MAX_LINES {
        LessThanALap(a, |claims|);
        ReadEnds(log, claims, cursor, a, followLines, nextCursor);
        break;
      }
      if line.timeNs == 0 {
        ReadEnds(log, claims, cursor, a, followLines, nextCursor);
        break;
      }
      ReadGoesOn(log, claims, cursor, a, followLines, nextCursor);
      var index := IndexOf(line.line, '\0');
      if index > 0 {
        followLines := followLines + [FollowLine(line.line[..index], line.timeNs)];
      }
      WrapStep(i, a);
      i := (i + 1) % TWO_32;
      nextCursor := i % MAX_LINES;
      a := a + 1;
    }
  }

  /** The dump of all lines, written out in the order of their slots' indices. */
  method Dump(log: seq<LogLine>, nextIndex: nat, ghost claims: seq<Claim>) returns (out: seq<FollowLine>)
    requires Coherent(log, claims) && nextIndex < TWO_32 && nextIndex % MAX_LINES == |claims| % MAX_LINES
    ensures out == VisibleTexts(claims, |claims| - MAX_LINES, |claims|).0
  {
    out := [];
    ghost var lo := |claims| - MAX_LINES;
    for l := 0 to MAX_LINES
      invariant out == VisibleTexts(claims, lo, lo + l).0
    {
      SlotAfter(nextIndex, |claims|, l);
      SlotVisible(log, claims, lo + l);
      VisibleNext(claims, lo, lo + l);
      var line := log[(nextIndex + l) % TWO_32 % MAX_LINES];
      if line.timeNs == 0 { continue; }
      var index := IndexOf(line.line, '\0');
      if index < 1 { continue; }
      out := out + [FollowLine(line.line[..index], line.timeNs)];
    }
  }

  /** A slot of the last lap and the line that it shows. */
  lemma SlotVisible(log: seq<LogLine>, claims: seq<Claim>, a: int)
    requires Coherent(log, claims) && |claims| - MAX_LINES <= a < |claims|
    ensures var line := log[a % MAX_LINES];
            if line.timeNs == 0 then Visible(claims, a) == None
            else IndexOf(line.line, '\0') > 0 && Visible(claims, a) == Some(FollowLine(Shown(line.line), line.timeNs))
  {
    SlotAt(log, claims, a);
  }

  lemma VisibleNext(claims: seq<Claim>, a: int, b: int)
    requires a <= b < |claims|
    ensures var (lines, next) := VisibleTexts(claims, a, b);
            VisibleTexts(claims, a, b + 1) ==
            match Visible(claims, b)
            case None => (lines, next)
            case Some(line) => (lines + [line], (b + 1) % MAX_LINES)
  {}

  /** The state of a read that has seen the published claims before a. */
  ghost predicate ReadSoFar(claims: seq<Claim>, cursor: nat, a: int, lines: seq<FollowLine>, nextCursor: nat) {
    var q := ReadStart(claims, cursor);
    q <= a <= FirstPending(claims, q)
    && if a == q then lines == [] && nextCursor == cursor
       else q >= 0 && lines == Texts(claims, q, a) && nextCursor == a % MAX_LINES
  }

  /** Either every line so far is a published claim, or one is of the lap before. */
  ghost predicate Progress(claims: seq<Claim>, cursor: nat, a: int, lines: seq<FollowLine>, nextCursor: nat) {
    ReadSoFar(claims, cursor, a, lines, nextCursor)
    || (StaleRead(claims, cursor, lines) && !Prompt(claims, cursor))
  }

  lemma ReadEnds(log: seq<LogLine>, claims: seq<Claim>, cursor: nat, a: int, lines: seq<FollowLine>, next: nat)
    requires Coherent(log, claims) && |claims| - MAX_LINES < a <= |claims|
    requires Progress(claims, cursor, a, lines, next)
    requires a == |claims| || log[a % MAX_LINES].timeNs == 0
    ensures if Prompt(claims, cursor) then Read(claims, cursor) == (lines, next) else StaleRead(claims, cursor, lines)
  {
    if a < |claims| { SlotAt(log, claims, a); }
  }

  lemma ReadGoesOn(log: seq<LogLine>, claims: seq<Claim>, cursor: nat, a: int, lines: seq<FollowLine>, next: nat)
    requires Coherent(log, claims) && |claims| - MAX_LINES < a < |claims| && log[a % MAX_LINES].timeNs != 0
    requires Progress(claims, cursor, a, lines, next)
    ensures var line := log[a % MAX_LINES];
            var more := lines + [FollowLine(Shown(line.line), line.timeNs)];
            IndexOf(line.line, '\0') > 0
            && Progress(claims, cursor, a + 1, more, (a + 1) % MAX_LINES)
  {
    SlotAt(log, claims, a);
  }

  /** The reading loop from CURSOR_ALL. */
  method FollowAll(log: seq<LogLine>, nextIndex: nat, ghost claims: seq<Claim>)
    returns (followLines: seq<FollowLine>, nextCursor: nat)
    requires Coherent(log, claims) && nextIndex < TWO_32 && nextIndex % MAX_LINES == |claims| % MAX_LINES
    ensures (followLines, nextCursor) == VisibleTexts(claims, |claims| - MAX_LINES, |claims|)
  {
    followLines := [];
    nextCursor := CURSOR_ALL;
    var i: nat := nextIndex;
    ghost var lo := |claims| - MAX_LINES;
    for l := 0 to MAX_LINES
      invariant i < TWO_32 && i % MAX_LINES == (lo + l) % MAX_LINES
      invariant (followLines, nextCursor) == VisibleTexts(claims, lo, lo + l)
    {
      var line := log[i % MAX_LINES];
      SlotVisible(log, claims, lo + l);
      VisibleNext(claims, lo, lo + l);
      WrapStep(i, lo + l);
      if line.timeNs == 0 {
        i := (i + 1) % TWO_32;
        continue;
      }
      var index := IndexOf(line.line, '\0');
      if index > 0 {
        followLines := followLines + [FollowLine(line.line[..index], line.timeNs)];
      }
      i := (i + 1) % TWO_32;
      nextCursor := i % MAX_LINES;
    }
  }

  /** The lines and the next cursor of a prompt read. */
  function Read(claims: seq<Claim>, cursor: nat): (seq<FollowLine>, nat) {
    var q := ReadStart(claims, cursor);
    var e := FirstPending(claims, q);
    if e == q then ([], cursor) else (Texts(claims, q, e), e % MAX_LINES)
  }

  /** A read that is not prompt repeats a line of the lap before. */
  predicate StaleRead(claims: seq<Claim>, cursor: nat, lines: seq<FollowLine>) {
    var q := ReadStart(claims, cursor);
    var e := FirstPending(claims, q);
    && MAX_LINES <= e < |claims| && 0 <= q
    && Texts(claims, q, e) + [Followed(claims[e - MAX_LINES])] <= lines
  }

  // ---- Whole runs ----------------------------------------------------------

  /** No slot in use still shows the line of the lap before. */
  predicate AllInvalidated(claims: seq<Claim>) {
    forall n :: MAX_LINES <= n < |claims| ==> !claims[n].phase.Claimed?
  }

  predicate AllPublished(claims: seq<Claim>, a: int, b: int) {
    forall n :: 0 <= n < |claims| && a <= n < b ==> claims[n].phase.Published?
  }

  /** When claiming and invalidating are one step, every read is prompt. */
  lemma FusedIsPrompt(claims: seq<Claim>, cursor: nat)
    requires AllInvalidated(claims)
    ensures Prompt(claims, cursor)
  {
    var e := FirstPending(claims, ReadStart(claims, cursor));
    assert 0 <= e < |claims| && claims[e].phase.Claimed? ==> !(MAX_LINES <= e);
  }

  /** A read is prompt exactly when the slot that it stops at is blank. */
  lemma PromptMeansBlank(slots: seq<LogLine>, claims: seq<Claim>, cursor: nat)
    requires Coherent(slots, claims)
    ensures var e := FirstPending(claims, ReadStart(claims, cursor));
            0 <= e < |claims| ==> (Prompt(claims, cursor) <==> slots[e % MAX_LINES].timeNs == 0)
  {
    var e := FirstPending(claims, ReadStart(claims, cursor));
    StartSlot(claims, cursor);
    if 0 <= e < |claims| {
      SlotAt(slots, claims, e);
      if claims[e].phase.Claimed? && e >= MAX_LINES { assert claims[e - MAX_LINES].stamp != 0; }
    }
  }

  /** A full lap of lines and one more claim whose slot is not blank yet: a
      reader that is up to date reads the oldest line again. */
  lemma ClaimedIsStale(tag: string, p: string)
    ensures var line := Rendered(tag, p);
            var claims := seq(MAX_LINES, i => Claim(1, line, Published)) + [Claim(1, line, Claimed)];
            var slots := seq(MAX_LINES, i => LogLine(1, line));
            Coherent(slots, claims) && !Prompt(claims, 0)
            && StaleRead(claims, 0, [Followed(claims[0])])
  {
    ShownNonEmpty(tag, p);
    var line := Rendered(tag, p);
    var claims := seq(MAX_LINES, i => Claim(1, line, Published)) + [Claim(1, line, Claimed)];
    var slots := seq(MAX_LINES, i => LogLine(1, line));
    assert claims[MAX_LINES] == Claim(1, line, Claimed);
    assert Texts(claims, MAX_LINES, MAX_LINES) == [];
    forall n | 0 <= n < |claims| && |claims| - MAX_LINES <= n ensures Holds(slots[n % MAX_LINES], claims, n) {}
  }

  /** What happens to a ring while one reader follows it. */
  datatype Event = Claiming(stamp: int, line: string) | Advancing(n: nat) | Reading

  /** A reader that started behind claim number start. */
  datatype Session = Session(claims: seq<Claim>, start: nat, cursor: nat, delivered: seq<FollowLine>) {
    function Position(): nat { start + |delivered| }
  }

  function NextPhase(phase: Phase): Phase {
    match phase
    case Claimed => Invalidated
    case Invalidated => Filled
    case Filled => Published
    case Published => Published
  }

  /** A claim needs a free slot, a step needs a writer that is not done, and a
      read is prompt and comes before 2048 further claims. */
  predicate Enabled(s: Session, e: Event) {
    match e
    case Claiming(stamp, line) => NoClash(s.claims) && stamp != 0
    case Advancing(n) => Latest(s.claims, n) && !s.claims[n].phase.Published?
    case Reading => Prompt(s.claims, s.cursor) && |s.claims| - s.Position() < MAX_LINES
  }

  function After(s: Session, e: Event): Session
    requires Enabled(s, e)
  {
    match e
    case Claiming(stamp, line) => s.(claims := s.claims + [Claim(stamp, line, Claimed)])
    case Advancing(n) => s.(claims := Enter(s.claims, n, NextPhase(s.claims[n].phase)))
    case Reading =>
      var (lines, next) := Read(s.claims, s.cursor);
      s.(cursor := next, delivered := s.delivered + lines)
  }

  predicate Runs(s: Session, events: seq<Event>)
    decreases |events|
  {
    events == [] || (Enabled(s, events[0]) && Runs(After(s, events[0]), events[1..]))
  }

  function Final(s: Session, events: seq<Event>): Session
    requires Runs(s, events)
    decreases |events|
  {
    if events == [] then s else Final(After(s, events[0]), events[1..])
  }

  /** What the reader has got is a stretch of the claims in their order, each
      once and each of them published. */
  predicate InStep(s: Session) {
    s.Position() <= |s.claims|
    && s.cursor < CURSOR_ALL && s.cursor % MAX_LINES == s.Position() % MAX_LINES
    && s.delivered == Texts(s.claims, s.start, s.Position())
    && AllPublished(s.claims, s.start, s.Position())
  }

  lemma {:induction false} RunKeepsInStep(s: Session, events: seq<Event>)
    requires InStep(s) && Runs(s, events)
    ensures InStep(Final(s, events)) && Final(s, events).start == s.start
    decreases |events|
  {
    if events != [] {
      EventKeepsInStep(s, events[0]);
      RunKeepsInStep(After(s, events[0]), events[1..]);
    }
  }

  lemma EventKeepsInStep(s: Session, e: Event)
    requires InStep(s) && Enabled(s, e)
    ensures InStep(After(s, e))
  {
    var t := After(s, e);
    if e.Reading? {
      ReadFrom(s);
    } else {
      assert Texts(t.claims, s.start, s.Position()) == s.delivered;
    }
  }

  // ---- What a run has written ----------------------------------------------

  /** The stamps and lines of the claims, in their order. */
  function Written(claims: seq<Claim>): (r: seq<(int, string)>)
    ensures |r| == |claims| && forall i :: 0 <= i < |claims| ==> r[i] == (claims[i].stamp, claims[i].line)
  {
    seq(|claims|, i requires 0 <= i < |claims| => (claims[i].stamp, claims[i].line))
  }

  function Claimings(events: seq<Event>): seq<(int, string)> {
    if events == [] then []
    else (if events[0].Claiming? then [(events[0].stamp, events[0].line)] else []) + Claimings(events[1..])
  }

  /** The steps that a claim has behind it; three publish it. */
  function Steps(claims: seq<Claim>, n: nat): nat {
    if n >= |claims| then 0
    else
      match claims[n].phase
      case Claimed => 0
      case Invalidated => 1
      case Filled => 2
      case Published => 3
  }

  function Advances(events: seq<Event>, n: nat): nat {
    if events == [] then 0 else (if events[0] == Advancing(n) then 1 else 0) + Advances(events[1..], n)
  }

  /** A run adds exactly the lines that it claims, in that order, and each claim
      has moved on once for each step of its writer. */
  lemma {:induction false} RunWrites(s: Session, events: seq<Event>, n: nat)
    requires Runs(s, events)
    ensures var t := Final(s, events);
            Written(t.claims) == Written(s.claims) + Claimings(events) && Steps(t.claims, n) == Steps(s.claims, n) + Advances(events, n)
    decreases |events|
  {
    if events != [] {
      var e, t := events[0], After(s, events[0]);
      EventWrites(s, e, n);
      RunWrites(t, events[1..], n);
    }
  }

  lemma EventWrites(s: Session, e: Event, n: nat)
    requires Enabled(s, e)
    ensures var t := After(s, e);
            Written(t.claims) == Written(s.claims) + (if e.Claiming? then [(e.stamp, e.line)] else [])
            && Steps(t.claims, n) == Steps(s.claims, n) + if e == Advancing(n) then 1 else 0
  {}

  // ---- Claiming and invalidating in one step -------------------------------

  /** The reader only has to come before 2048 further claims. */
  predicate FusedEnabled(s: Session, e: Event) {
    match e
    case Claiming(stamp, line) => NoClash(s.claims) && stamp != 0
    case Advancing(n) => Latest(s.claims, n) && !s.claims[n].phase.Published?
    case Reading => |s.claims| - s.Position() < MAX_LINES
  }

  /** A claim comes with its slot blank. */
  function FusedAfter(s: Session, e: Event): (t: Session)
    requires AllInvalidated(s.claims) && FusedEnabled(s, e)
    ensures AllInvalidated(t.claims)
  {
    FusedIsPrompt(s.claims, s.cursor);
    if e.Claiming? then s.(claims := s.claims + [Claim(e.stamp, e.line, Invalidated)]) else After(s, e)
  }

  predicate FusedRuns(s: Session, events: seq<Event>)
    requires AllInvalidated(s.claims)
    decreases |events|
  {
    events == [] || (FusedEnabled(s, events[0]) && FusedRuns(FusedAfter(s, events[0]), events[1..]))
  }

  function FusedFinal(s: Session, events: seq<Event>): (t: Session)
    requires AllInvalidated(s.claims) && FusedRuns(s, events)
    ensures AllInvalidated(t.claims)
    decreases |events|
  {
    if events == [] then s else FusedFinal(FusedAfter(s, events[0]), events[1..])
  }

  /** Then every interleaving keeps a reader in step that is never 2048 claims
      behind. */
  lemma {:induction false} FusedRunKeepsInStep(s: Session, events: seq<Event>)
    requires InStep(s) && AllInvalidated(s.claims) && FusedRuns(s, events)
    ensures InStep(FusedFinal(s, events)) && FusedFinal(s, events).start == s.start
    decreases |events|
  {
    if events != [] {
      var e, t := events[0], FusedAfter(s, events[0]);
      FusedIsPrompt(s.claims, s.cursor);
      if e.Claiming? {
        assert Texts(t.claims, s.start, s.Position()) == s.delivered;
      } else {
        EventKeepsInStep(s, e);
      }
      FusedRunKeepsInStep(t, events[1..]);
    }
  }

  /** And what it claims is exactly what the run has written. */
  lemma {:induction false} FusedRunWrites(s: Session, events: seq<Event>)
    requires AllInvalidated(s.claims) && FusedRuns(s, events)
    ensures Written(FusedFinal(s, events).claims) == Written(s.claims) + Claimings(events)
    decreases |events|
  {
    if events != [] {
      var t := FusedAfter(s, events[0]);
      FusedEventWrites(s, events[0], t);
      FusedRunWrites(t, events[1..]);
      Associates(Written(s.claims), if events[0].Claiming? then [(events[0].stamp, events[0].line)] else [], Claimings(events[1..]));
    }
  }

  lemma FusedEventWrites(s: Session, e: Event, t: Session)
    requires AllInvalidated(s.claims) && FusedEnabled(s, e) && t == FusedAfter(s, e)
    ensures Written(t.claims) == Written(s.claims) + if e.Claiming? then [(e.stamp, e.line)] else []
  {
    FusedIsPrompt(s.claims, s.cursor);
  }

  /** A read goes on where the last one ended and stops at the first claim
      that is not published. */
  lemma ReadFrom(s: Session)
    requires InStep(s) && Enabled(s, Reading)
    ensures InStep(After(s, Reading))
    ensures After(s, Reading).Position() == FirstPending(s.claims, s.Position())
  {
    var r := s.Position();
    LagSkipsLaps(s.claims, s.cursor, r);
    var e := FirstPending(s.claims, r);
    assert s.delivered + Texts(s.claims, r, e) == Texts(s.claims, s.start, e);
    assert AllPublished(s.claims, s.start, e);
  }

  /** A read at position r resumes a whole number of laps further on: nothing is
      lost exactly when fewer than 2048 claims are pending. */
  lemma LagSkipsLaps(claims: seq<Claim>, cursor: nat, r: nat)
    requires r <= |claims| && cursor % MAX_LINES == r % MAX_LINES
    ensures var lag := |claims| - r; ReadStart(claims, cursor) == r + (lag - lag % MAX_LINES)
    ensures ReadStart(claims, cursor) == r <==> |claims| - r < MAX_LINES
  {
    var lag := |claims| - r;
    assert lag % MAX_LINES == (|claims| - cursor) % MAX_LINES;
  }

  /** Once all writers are done, one read delivers all that is left, and a
      second one nothing. */
  lemma CatchUp(s: Session)
    requires InStep(s) && |s.claims| - s.Position() < MAX_LINES && AllPublished(s.claims, 0, |s.claims|)
    ensures Enabled(s, Reading) && var t := After(s, Reading);
            t.delivered == Texts(s.claims, s.start, |s.claims|)
            && Enabled(t, Reading) && After(t, Reading) == t
  {
    LagSkipsLaps(s.claims, s.cursor, s.Position());
    var e := FirstPending(s.claims, s.Position());
    assert e == |s.claims|;
    ReadFrom(s);
    var t := After(s, Reading);
    LagSkipsLaps(t.claims, t.cursor, t.Position());
  }

  /** A read of everything shows the last lap and leaves its reader in step. */
  lemma {:induction false} AllVisible(claims: seq<Claim>, a: int, b: int)
    requires AllPublished(claims, a, b) && a <= b <= |claims|
    ensures var lo := if a < 0 then 0 else a;
            VisibleTexts(claims, a, b) == if b <= lo then ([], CURSOR_ALL) else (Texts(claims, lo, b), b % MAX_LINES)
    decreases b - a
  {
    if a < b {
      AllVisible(claims, a, b - 1);
      var lo := if a < 0 then 0 else a;
      assert b > lo ==> Texts(claims, lo, b) == Texts(claims, lo, b - 1) + [Followed(claims[b - 1])];
    }
  }

  // ---- Slot arithmetic -----------------------------------------------------

  lemma WrapKeepsSlot(n: nat)
    ensures n % TWO_32 % MAX_LINES == n % MAX_LINES
  {
    var q := n / TWO_32;
    assert n == (n % TWO_32) + q * 2097152 * MAX_LINES;
    AddLaps(n % TWO_32, q * 2097152);
  }

  lemma {:induction false} AddLaps(x: int, laps: nat)
    ensures (x + laps * MAX_LINES) % MAX_LINES == x % MAX_LINES
    decreases laps
  {
    if laps > 0 {
      AddLaps(x, laps - 1);
      assert x + laps * MAX_LINES == (x + (laps - 1) * MAX_LINES) + MAX_LINES;
    }
  }

  lemma WrapStep(i: nat, a: int)
    requires i < TWO_32 && i % MAX_LINES == a % MAX_LINES
    ensures (i + 1) % TWO_32 % MAX_LINES == (a + 1) % MAX_LINES
  {
    WrapKeepsSlot(i + 1);
  }

  lemma SlotAfter(i: nat, n: nat, l: nat)
    requires i % MAX_LINES == n % MAX_LINES
    ensures (i + l) % TWO_32 % MAX_LINES == (n - MAX_LINES + l) % MAX_LINES
  {
    WrapKeepsSlot(i + l);
  }

  lemma StartSlot(claims: seq<Claim>, cursor: nat)
    ensures var q := ReadStart(claims, cursor);
            q <= |claims| < q + MAX_LINES && q % MAX_LINES == cursor % MAX_LINES
  {}

  lemma OtherSlot(m: nat, n: nat, count: nat)
    requires m < count && n < count && m != n && count - MAX_LINES <= m && count - MAX_LINES <= n
    ensures m % MAX_LINES != n % MAX_LINES
  {}

  lemma LessThanALap(a: int, n: int)
    requires a <= n < a + MAX_LINES && a % MAX_LINES == n % MAX_LINES
    ensures a == n
  {}

  lemma NegativeSlot(a: int)
    requires -MAX_LINES <= a < 0
    ensures a % MAX_LINES == a + MAX_LINES
  {}
}
