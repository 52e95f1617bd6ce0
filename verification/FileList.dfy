// The signed list of released files: which file the installer picks.
module FileList {
  import opened Text
  import opened Base64
  import opened Signify
  import opened Versions

  const MAX_FILENAME_LEN := 0x400
  const NEWLINE: bv8 := 10

  // ---- Lines ---------------------------------------------------------------

  /** memchr for a line end: its position from at on, or the length. */
  function NewlineFrom(s: seq<bv8>, at: nat): (k: nat)
    requires at <= |s|
    ensures at <= k <= |s| && (k < |s| ==> s[k] == NEWLINE) && forall i :: at <= i < k ==> s[i] != NEWLINE
    decreases |s| - at
  {
    if at == |s| || s[at] == NEWLINE then at else NewlineFrom(s, at + 1)
  }

  /** The lines from start on that have an end. A line is taken to have at least
      one byte, so that an empty line runs into the next one. */
  function Lines(body: seq<bv8>, start: nat): seq<seq<bv8>>
    decreases |body| - start
  {
    if start >= |body| then []
    else
      var end := NewlineFrom(body, start + 1);
      if end == |body| then [] else [body[start..end]] + Lines(body, end + 1)
  }

  /** A hash, two blanks and the name of an installer for this architecture. */
  predicate Qualifies(line: seq<bv8>, prefix: string) {
    && |line| >= 64 + 2 + |prefix| + |MSI_SUFFIX| + 1 && line[64] == 32 && line[65] == 32
    && Chars(line[66..66 + |prefix|]) == prefix && Chars(line[|line| - |MSI_SUFFIX|..]) == MSI_SUFFIX
    && |line| - 66 <= MAX_FILENAME_LEN - 1
  }

  /** What a line says: nothing of interest, or a file with its version and the
      bytes that its hash decodes to. */
  datatype Entry = Skipped | Offer(version: nat, name: seq<bv8>, hash: seq<bv8>, wellformed: bool)

  function EntryOf(line: seq<bv8>, prefix: string): Entry {
    if Qualifies(line, prefix) then OfferOf(line, |prefix|) else Skipped
  }

  /** The parts of a line that is long enough for a prefix of n bytes. */
  function OfferOf(line: seq<bv8>, n: nat): Entry
    requires |line| >= 66 + n + |MSI_SUFFIX|
  {
    var version := ParsedVersion(Chars(line[66 + n..]), |line| - |MSI_SUFFIX| - 66 - n);
    Offer(version, line[66..], HexBytes(line[..64]), AllHex(line[..64]))
  }

  function Entries(lines: seq<seq<bv8>>, prefix: string): (entries: seq<Entry>)
    ensures |entries| == |lines| && forall i :: 0 <= i < |lines| ==> entries[i] == EntryOf(lines[i], prefix)
  {
    seq(|lines|, i requires 0 <= i < |lines| => EntryOf(lines[i], prefix))
  }

  predicate OneLine(s: seq<bv8>) { s != [] && forall i :: 0 <= i < |s| ==> s[i] != NEWLINE }

  predicate NoEndFrom(body: seq<bv8>, start: nat) { forall i :: start <= i < |body| ==> body[i] != NEWLINE }

  predicate StandsAt(body: seq<bv8>, start: nat, line: seq<bv8>) {
    start + |line| < |body| && body[start..start + |line|] == line && body[start + |line|] == NEWLINE
  }

  /** From start on the lines stand one after the other, each with its line end,
      and there is no line end behind them. */
  predicate Laid(body: seq<bv8>, start: nat, lines: seq<seq<bv8>>)
    decreases |lines|
  {
    if lines == [] then NoEndFrom(body, start)
    else OneLine(lines[0]) && StandsAt(body, start, lines[0]) && Laid(body, start + |lines[0]| + 1, lines[1..])
  }

  lemma FirstLaid(body: seq<bv8>, start: nat, line: seq<bv8>)
    requires OneLine(line) && StandsAt(body, start, line)
    ensures Lines(body, start) == [line] + Lines(body, start + |line| + 1)
  {
    var end := start + |line|;
    assert forall i :: start <= i < end ==> body[i] == body[start..end][i - start];
    LineAt(body, start, end);
  }

  /** The lines are what the line ends separate; what follows the last one is
      none. */
  lemma {:induction false} LinesLaid(body: seq<bv8>, start: nat, lines: seq<seq<bv8>>)
    requires Laid(body, start, lines)
    ensures Lines(body, start) == lines
    decreases |lines|
  {
    if lines != [] {
      var first, more := lines[0], lines[1..];
      FirstLaid(body, start, first);
      LinesLaid(body, start + |first| + 1, more);
      assert lines == [first] + more;
    }
  }

  const MSI_BYTES: seq<bv8> := [46, 109, 115, 105]

  /** A hash, two blanks, and a name made up of the prefix, a version and the
      suffix. */
  predicate IsFile(line: seq<bv8>, prefix: string, hash: seq<bv8>, start: seq<bv8>, version: seq<bv8>) {
    && line == hash + [32, 32] + start + version + MSI_BYTES && |hash| == 64 && Chars(start) == prefix
    && version != [] && |start| + |version| + 4 <= 1023
  }

  /** Exactly such a line offers a file: with its name, its hash, and the version
      that the installer reads in front of the suffix. */
  lemma OfferIsFile(line: seq<bv8>, prefix: string, hash: seq<bv8>, start: seq<bv8>, version: seq<bv8>)
    requires IsFile(line, prefix, hash, start, version)
    ensures EntryOf(line, prefix) ==
            Offer(ParsedVersion(Chars(version) + MSI_SUFFIX, |version|), start + version + MSI_BYTES, HexBytes(hash), AllHex(hash))
  {
    FileParts(line, hash, start, version);
    SuffixChars(MSI_BYTES);
    CharsConcat(version, MSI_BYTES);
    OfferOfParts(line, |prefix|, hash, version, start + version + MSI_BYTES);
  }

  lemma OfferOfParts(line: seq<bv8>, n: nat, hash: seq<bv8>, version: seq<bv8>, name: seq<bv8>)
    requires |line| == 66 + n + |version| + 4 && line[..64] == hash && line[66..] == name
    requires Chars(line[66 + n..]) == Chars(version) + MSI_SUFFIX
    ensures OfferOf(line, n) == Offer(ParsedVersion(Chars(version) + MSI_SUFFIX, |version|), name, HexBytes(hash), AllHex(hash))
  {}

  lemma FileParts(line: seq<bv8>, hash: seq<bv8>, start: seq<bv8>, version: seq<bv8>)
    requires line == hash + [32, 32] + start + version + MSI_BYTES && |hash| == 64
    ensures line[..64] == hash && line[64] == 32 && line[65] == 32 && line[66..66 + |start|] == start
    ensures line[66 + |start|..] == version + MSI_BYTES && line[66..] == start + version + MSI_BYTES
    ensures line[|line| - 4..] == MSI_BYTES
  {}

  lemma OnlyFilesAreOffered(line: seq<bv8>, prefix: string)
    requires EntryOf(line, prefix).Offer?
    ensures exists hash, start, version :: IsFile(line, prefix, hash, start, version)
  {
    var n, m := 66 + |prefix|, |line| - 4;
    var hash, start, version, tail := line[..64], line[66..n], line[n..m], line[m..];
    InFiveParts(line, n, m);
    OnlyMsi(tail);
    assert IsFile(line, prefix, hash, start, version);
  }

  lemma InFiveParts(line: seq<bv8>, n: nat, m: nat)
    requires 66 <= n <= m <= |line| && line[64] == 32 && line[65] == 32
    ensures line == line[..64] + [32, 32] + line[66..n] + line[n..m] + line[m..]
  {}

  lemma OnlyMsi(tail: seq<bv8>)
    requires Chars(tail) == MSI_SUFFIX
    ensures tail == MSI_BYTES
  {
    assert |tail| == 4;
    forall i | 0 <= i < 4 ensures tail[i] == MSI_BYTES[i] {
      assert CharOf(tail[i]) == MSI_SUFFIX[i];
      SuffixChars(MSI_BYTES);
      assert CharOf(MSI_BYTES[i]) == MSI_SUFFIX[i];
      SameChar(tail[i], MSI_BYTES[i]);
    }
  }

  lemma SameChar(a: bv8, b: bv8)
    requires CharOf(a) == CharOf(b)
    ensures a == b
  {
    assert a as int == (CharOf(a)) as int && b as int == (CharOf(b)) as int;
  }

  // ---- The choice ----------------------------------------------------------

  datatype Choice = Choice(version: nat, name: seq<bv8>, hash: seq<bv8>)

  /** What one line does to the outputs. A line with a malformed hash is not
      chosen, but its hash is written all the same. */
  function Take(c: Choice, e: Entry): Choice {
    if e.Skipped? || e.version < c.version then c
    else if !e.wellformed then c.(hash := e.hash)
    else Choice(e.version, e.name, e.hash)
  }

  function TakeAll(c: Choice, entries: seq<Entry>): Choice {
    if entries == [] then c else Take(TakeAll(c, entries[..|entries| - 1]), entries[|entries| - 1])
  }

  predicate Good(e: Entry) { e.Offer? && e.wellformed }

  predicate Misleading(e: Entry, version: nat) { e.Offer? && !e.wellformed && e.version >= version }

  /** Entry k is the last good one of the largest version. */
  predicate LastMaximum(entries: seq<Entry>, k: nat) {
    k < |entries| && Good(entries[k])
    && (forall j :: 0 <= j < |entries| && Good(entries[j]) ==> entries[j].version <= entries[k].version)
    && (forall j :: k < j < |entries| && Good(entries[j]) ==> entries[j].version < entries[k].version)
  }

  predicate NoneGood(entries: seq<Entry>) { forall j :: 0 <= j < |entries| ==> !Good(entries[j]) }

  /** Entry m wrote the hash last: the chosen entry k itself, or a later one
      whose own hash is malformed. */
  predicate LastHash(entries: seq<Entry>, k: int, m: nat, version: nat) {
    k <= m < |entries| && entries[m].Offer? && (m == k || Misleading(entries[m], version))
    && forall j :: m < j < |entries| ==> !Misleading(entries[j], version)
  }

  /** The chosen file is the last one of the largest version among the entries
      with a well-formed hash, and its hash is its own unless a later entry with
      a malformed hash claims at least that version. */
  lemma {:induction false} ChosenIsLastMaximum(start: Choice, entries: seq<Entry>) returns (k: int, m: int)
    requires start.version == 0
    ensures var c := TakeAll(start, entries);
            -1 <= k && -1 <= m
            && (if k < 0 then NoneGood(entries) && c.version == 0 && c.name == start.name
                else LastMaximum(entries, k) && c.version == entries[k].version && c.name == entries[k].name)
            && (if m < 0 then k < 0 && c.hash == start.hash
                else LastHash(entries, k, m, c.version) && c.hash == entries[m].hash)
    ensures m < 0 ==> forall j :: 0 <= j < |entries| ==> entries[j].Skipped?
    decreases |entries|
  {
    if entries == [] {
      k, m := -1, -1;
    } else {
      var n := |entries| - 1;
      var e, front := entries[n], entries[..n];
      k, m := ChosenIsLastMaximum(start, front);
      assert entries == front + [e];
      if e.Offer? && e.version >= TakeAll(start, front).version {
        m := n;
        if e.wellformed { k := n; }
      }
    }
  }

  /** With all hashes well-formed, the chosen hash is that of the chosen file. */
  lemma ChosenHashIsOwn(start: Choice, entries: seq<Entry>) returns (k: int)
    requires start.version == 0
    requires forall j :: 0 <= j < |entries| && entries[j].Offer? ==> entries[j].wellformed
    ensures var c := TakeAll(start, entries);
            if k < 0 then c == start && forall j :: 0 <= j < |entries| ==> entries[j].Skipped?
            else LastMaximum(entries, k) && c == Choice(entries[k].version, entries[k].name, entries[k].hash)
  {
    var m;
    k, m := ChosenIsLastMaximum(start, entries);
    if k >= 0 { assert !Misleading(entries[m], TakeAll(start, entries).version); }
  }

  /** The last entry behind k that spoils the hash of the chosen version, or -1. */
  function LastMisleading(entries: seq<Entry>, k: nat, version: nat): (m: int)
    ensures m == -1 || (k < m < |entries| && Misleading(entries[m], version))
    ensures forall j :: k < j < |entries| && m < j ==> !Misleading(entries[j], version)
  {
    if entries == [] then -1
    else
      var n := |entries| - 1;
      if n > k && Misleading(entries[n], version) then n
      else
        assert entries == entries[..n] + [entries[n]];
        LastMisleading(entries[..n], k, version)
  }

  /** For any list: the hash is the chosen file's own, or what the last line
      behind it with a malformed hash and at least its version has written. */
  lemma HashIsOwn(start: Choice, entries: seq<Entry>) returns (k: int)
    requires start.version == 0
    ensures k < 0 ==> NoneGood(entries)
    ensures k >= 0 ==> LastMaximum(entries, k)
    ensures k >= 0 ==>
              var c := TakeAll(start, entries);
              var m := LastMisleading(entries, k, c.version);
              c.version == entries[k].version && c.name == entries[k].name
              && c.hash == if m < 0 then entries[k].hash else entries[m].hash
  {
    var m;
    k, m := ChosenIsLastMaximum(start, entries);
  }

  /** Two lines of a list for the same version, the second one without a proper
      hash: the first one is chosen with the hash bytes of the second. */
  lemma HashOfAnotherLine(start: Choice, body: seq<bv8>, prefix: string, first: Entry, second: Entry)
    requires start.version == 0 && Entries(Lines(body, 0), prefix) == [first, second]
    requires first.Offer? && second.Offer? && first.wellformed && !second.wellformed && first.version == second.version
    ensures TakeAll(start, Entries(Lines(body, 0), prefix)) == Choice(first.version, first.name, second.hash)
  {
    var entries := [first, second];
    assert entries[..1] == [first] && [first][..0] == [];
    assert TakeAll(start, [first]) == Take(start, first);
  }

  lemma LinesOfTwo(first: seq<bv8>, second: seq<bv8>)
    requires OneLine(first) && OneLine(second)
    ensures Lines(first + [NEWLINE] + second + [NEWLINE], 0) == [first, second]
  {
    var body := first + [NEWLINE] + second + [NEWLINE];
    var n, m := |first|, |first| + 1 + |second|;
    LineAt(body, 0, n);
    LineAt(body, n + 1, m);
    assert body[0..n] == first && body[n + 1..m] == second;
    assert Lines(body, m + 1) == [];
  }

  lemma LineAt(body: seq<bv8>, start: nat, end: nat)
    requires start < end < |body| && body[end] == NEWLINE && forall i :: start <= i < end ==> body[i] != NEWLINE
    ensures Lines(body, start) == [body[start..end]] + Lines(body, end + 1)
  {
    assert NewlineFrom(body, start + 1) == end;
  }

  /** A line for the file of version 1, with 64 equal characters for its hash. */
  function SampleLine(c: bv8, prefix: seq<bv8>): seq<bv8> {
    seq(64, _ => c) + [32, 32] + (prefix + [49, 46, 109, 115, 105])
  }

  lemma SampleIsOffered(c: bv8, prefix: seq<bv8>)
    requires c != NEWLINE && |prefix| <= 1000 && forall i :: 0 <= i < |prefix| ==> prefix[i] != NEWLINE
    ensures var line := SampleLine(c, prefix);
            OneLine(line) && Qualifies(line, Chars(prefix)) && line[..64] == seq(64, _ => c)
            && line[66..] == prefix + [49, 46, 109, 115, 105]
  {
    var line, name := SampleLine(c, prefix), prefix + [49, 46, 109, 115, 105];
    assert line[66..] == name && line[..64] == seq(64, _ => c) && line[64] == 32 && line[65] == 32;
    assert line[66..66 + |prefix|] == name[..|prefix|] == prefix;
    var suffix := line[|line| - 4..];
    assert suffix == name[|name| - 4..] == [46, 109, 115, 105];
    SuffixChars(suffix);
  }

  lemma SuffixChars(suffix: seq<bv8>)
    requires suffix == [46, 109, 115, 105]
    ensures Chars(suffix) == MSI_SUFFIX
  {
    assert CharOf(46) == '.' && CharOf(109) == 'm' && CharOf(115) == 's' && CharOf(105) == 'i';
  }

  lemma SampleEntry(c: bv8, prefix: seq<bv8>)
    requires c != NEWLINE && |prefix| <= 1000 && forall i :: 0 <= i < |prefix| ==> prefix[i] != NEWLINE
    ensures EntryOf(SampleLine(c, prefix), Chars(prefix)) ==
            Offer(ParsedVersion(Chars([49, 46, 109, 115, 105]), 1), prefix + [49, 46, 109, 115, 105],
                  HexBytes(seq(64, _ => c)), AllHex(seq(64, _ => c)))
  {
    var line := SampleLine(c, prefix);
    SampleIsOffered(c, prefix);
    assert line[66 + |prefix|..] == line[66..][|prefix|..] == [49, 46, 109, 115, 105];
  }

  /** Such a list: a file with the hash 11...1, and once more with gg...g. The
      file is chosen with the hash 00...0. */
  lemma SpoiledList(start: Choice, prefix: seq<bv8>)
    requires start.version == 0 && |prefix| <= 1000 && forall i :: 0 <= i < |prefix| ==> prefix[i] != NEWLINE
    ensures var body := SampleLine(49, prefix) + [NEWLINE] + SampleLine(103, prefix) + [NEWLINE];
            var c := TakeAll(start, Entries(Lines(body, 0), Chars(prefix)));
            c.name == prefix + [49, 46, 109, 115, 105] && c.hash == seq(32, _ => 0)
  {
    var first, second := SampleLine(49, prefix), SampleLine(103, prefix);
    var body := first + [NEWLINE] + second + [NEWLINE];
    SampleLines(prefix, first, second);
    SampleEntries(prefix, first, second);
    HashOfAnotherLine(start, body, Chars(prefix), EntryOf(first, Chars(prefix)), EntryOf(second, Chars(prefix)));
  }

  lemma SampleLines(prefix: seq<bv8>, first: seq<bv8>, second: seq<bv8>)
    requires |prefix| <= 1000 && forall i :: 0 <= i < |prefix| ==> prefix[i] != NEWLINE
    requires first == SampleLine(49, prefix) && second == SampleLine(103, prefix)
    ensures Entries(Lines(first + [NEWLINE] + second + [NEWLINE], 0), Chars(prefix)) ==
            [EntryOf(first, Chars(prefix)), EntryOf(second, Chars(prefix))]
  {
    SampleIsOffered(49, prefix);
    SampleIsOffered(103, prefix);
    LinesOfTwo(first, second);
  }

  lemma SampleEntries(prefix: seq<bv8>, first: seq<bv8>, second: seq<bv8>)
    requires |prefix| <= 1000 && forall i :: 0 <= i < |prefix| ==> prefix[i] != NEWLINE
    requires first == SampleLine(49, prefix) && second == SampleLine(103, prefix)
    ensures var a, b := EntryOf(first, Chars(prefix)), EntryOf(second, Chars(prefix));
            a.Offer? && b.Offer? && a.version == b.version && a.wellformed && !b.wellformed
            && a.name == prefix + [49, 46, 109, 115, 105] && a.hash == seq(32, _ => 17) && b.hash == seq(32, _ => 0)
  {
    SampleEntry(49, prefix);
    SampleEntry(103, prefix);
    SampleHashes();
  }

  lemma SampleHashes()
    ensures AllHex(seq(64, _ => 49)) && HexBytes(seq(64, _ => 49)) == seq(32, _ => 17)
    ensures !AllHex(seq(64, _ => 103)) && HexBytes(seq(64, _ => 103)) == seq(32, _ => 0)
  {
    assert PairValue(49, 49) == 17 && PairValue(103, 103) == 0;
    var spoiled: seq<bv8> := seq(64, _ => 103);
    assert spoiled[0] == 103 && !IsHex(spoiled[0]);
  }

  // ---- The signed envelope -------------------------------------------------

  const UNTRUSTED_COMMENT := "untrusted comment: "

  function FirstNewline(list: seq<bv8>): (k: nat)
    ensures k <= |list|
  {
    NewlineFrom(list, 0)
  }

  function SecondNewline(list: seq<bv8>): (k: nat)
    ensures k <= |list|
  {
    if FirstNewline(list) < |list| then NewlineFrom(list, FirstNewline(list) + 1) else |list|
  }

  /** A comment line, a signature line of 100 characters, and the rest. */
  predicate Framed(list: seq<bv8>) {
    && FirstNewline(list) < |list| && SecondNewline(list) < |list|
    && |list| >= 19 && Chars(list[..19]) == UNTRUSTED_COMMENT
    && SecondNewline(list) - FirstNewline(list) == 101
  }

  function SignatureText(list: seq<bv8>): (t: seq<bv8>)
    requires Framed(list)
    ensures |t| == 100
  {
    list[FirstNewline(list) + 1..SecondNewline(list)]
  }

  function Body(list: seq<bv8>): seq<bv8>
    requires Framed(list)
  {
    list[SecondNewline(list) + 1..]
  }

  /** A comment line that starts as it should, a signature line and the rest. */
  predicate IsFrame(list: seq<bv8>, comment: seq<bv8>, signature: seq<bv8>, body: seq<bv8>) {
    && list == comment + [NEWLINE] + signature + [NEWLINE] + body && NoEndFrom(comment, 0) && NoEndFrom(signature, 0)
    && |signature| == 100 && HasPrefix(Chars(comment), UNTRUSTED_COMMENT)
  }

  /** The list is framed exactly when it is written like this. */
  lemma FrameIsRead(list: seq<bv8>, comment: seq<bv8>, signature: seq<bv8>, body: seq<bv8>)
    requires IsFrame(list, comment, signature, body)
    ensures Framed(list) && SignatureText(list) == signature && Body(list) == body
  {
    var n := |comment|;
    var m := n + 101;
    assert list[..n] == comment && list[n + 1..m] == signature && list[m + 1..] == body;
    assert forall i :: 0 <= i < n ==> list[i] == comment[i];
    assert forall i :: n + 1 <= i < m ==> list[i] == signature[i - n - 1];
    assert list[n] == NEWLINE && list[m] == NEWLINE;
    assert FirstNewline(list) == n && SecondNewline(list) == m;
    assert list[..19] == comment[..19];
    assert Chars(comment)[..19] == Chars(comment[..19]);
  }

  lemma OnlyFramesAreRead(list: seq<bv8>)
    requires Framed(list)
    ensures IsFrame(list, list[..FirstNewline(list)], SignatureText(list), Body(list))
  {
    var n, m := FirstNewline(list), SecondNewline(list);
    var comment := list[..n];
    assert list == list[..n] + [NEWLINE] + list[n + 1..m] + [NEWLINE] + list[m + 1..];
    FrameStart(list, n);
  }

  lemma StartHasNoEnd(list: seq<bv8>)
    requires |list| >= 19 && Chars(list[..19]) == UNTRUSTED_COMMENT
    ensures forall k :: 0 <= k < 19 ==> list[k] != NEWLINE
  {
    assert CharOf(NEWLINE) == '\n' && '\n' !in UNTRUSTED_COMMENT;
    forall k | 0 <= k < 19 ensures list[k] != NEWLINE { assert CharOf(list[k]) == Chars(list[..19])[k] == UNTRUSTED_COMMENT[k]; }
  }

  lemma FrameStart(list: seq<bv8>, n: nat)
    requires n < |list| && list[n] == NEWLINE && |list| >= 19 && Chars(list[..19]) == UNTRUSTED_COMMENT
    ensures n >= 19 && HasPrefix(Chars(list[..n]), UNTRUSTED_COMMENT)
  {
    StartHasNoEnd(list);
    assert Chars(list[..n])[..19] == Chars(list[..19]);
  }

  ghost predicate IsText(bytes: seq<bv8>, n: nat, text: seq<bv8>) {
    |bytes| == n && Encode(Numbers(bytes)) == Chars(text)
  }

  ghost predicate SignedBy(key: seq<bv8>, sig: seq<bv8>, body: seq<bv8>, verify: (seq<bv8>, seq<bv8>, seq<bv8>) -> bool)
    requires |key| == 42 && |sig| == 74
  {
    key[..10] == sig[..10] && verify(sig[10..], key[10..], body)
  }

  /** The list is framed, and its signature line holds a signature of all that
      follows by the key of the given text. */
  ghost predicate Authentic(list: seq<bv8>, keyText: seq<bv8>, verify: (seq<bv8>, seq<bv8>, seq<bv8>) -> bool) {
    Framed(list)
    && exists key, sig: seq<bv8> :: IsText(key, 42, keyText) && IsText(sig, 74, SignatureText(list))
                                    && SignedBy(key, sig, Body(list), verify)
  }

  lemma OneText(a: seq<bv8>, b: seq<bv8>, n: nat, text: seq<bv8>)
    requires IsText(a, n, text) && IsText(b, n, text)
    ensures a == b
  {
    EncodeInjective(Numbers(a), Numbers(b));
    forall i | 0 <= i < n ensures a[i] == b[i] {
      assert Numbers(a)[i] == Numbers(b)[i];
      SameNumber(a[i], b[i]);
    }
  }

  lemma SameNumber(x: bv8, y: bv8)
    requires x as int == y as int
    ensures x == y
  {}

  lemma TextOfDecoded(bytes: seq<bv8>, n: nat, text: seq<bv8>)
    requires IsText(bytes, n, text)
    ensures Encodes(text, n)
  {}

  /** The checks in front of the selection. */
  method VerifyEnvelope(list: seq<bv8>, keyText: seq<bv8>, verify: (seq<bv8>, seq<bv8>, seq<bv8>) -> bool) returns (ok: bool)
    requires |keyText| == 56
    ensures ok <==> Authentic(list, keyText, verify)
  {
    var key, sig := new bv8[42], new bv8[74];
    var keyOk := PubkeyFromBase64(key, keyText);
    if !keyOk {
      NotAText(keyText, 42);
      return false;
    }
    if !Framed(list) { return false; }
    var sigOk := SignatureFromBase64(sig, SignatureText(list));
    if !sigOk {
      NotAText(SignatureText(list), 74);
      return false;
    }
    OnlyTexts(list, keyText, verify, key[..], sig[..]);
    ok := key[..10] == sig[..10] && verify(sig[10..], key[10..], Body(list));
    assert key[..][..10] == key[..10] && sig[..][..10] == sig[..10];
    assert key[..][10..] == key[10..] && sig[..][10..] == sig[10..];
  }

  lemma NotAText(text: seq<bv8>, n: nat)
    requires !Encodes(text, n)
    ensures forall bytes: seq<bv8> :: !IsText(bytes, n, text)
  {
    forall bytes: seq<bv8> ensures !IsText(bytes, n, text) {
      if IsText(bytes, n, text) { TextOfDecoded(bytes, n, text); }
    }
  }

  lemma OnlyTexts(list: seq<bv8>, keyText: seq<bv8>, verify: (seq<bv8>, seq<bv8>, seq<bv8>) -> bool,
      key: seq<bv8>, sig: seq<bv8>)
    requires Framed(list) && IsText(key, 42, keyText) && IsText(sig, 74, SignatureText(list))
    ensures Authentic(list, keyText, verify) <==> SignedBy(key, sig, Body(list), verify)
  {
    if Authentic(list, keyText, verify) {
      var k, s: seq<bv8> :| IsText(k, 42, keyText) && IsText(s, 74, SignatureText(list)) && SignedBy(k, s, Body(list), verify);
      OneText(k, key, 42, keyText);
      OneText(s, sig, 74, SignatureText(list));
    }
  }

  // ---- The selection loop --------------------------------------------------

  /** The buffer holds the name and the NUL behind it. */
  predicate HoldsName(buffer: seq<bv8>, name: seq<bv8>) {
    |name| < |buffer| && buffer[..|name|] == name && buffer[|name|] == 0
  }

  method WriteName(filename: array<bv8>, name: seq<bv8>)
    requires |name| < filename.Length
    modifies filename
    ensures HoldsName(filename[..], name)
  {
    for i := 0 to |name|
      invariant filename[..i] == name[..i]
    {
      filename[i] := name[i];
    }
    filename[|name|] := 0;
    assert filename[..][..|name|] == name;
  }

  method Select(filename: array<bv8>, hash: array<bv8>, body: seq<bv8>, prefix: string) returns (biggest: nat)
    requires filename.Length == MAX_FILENAME_LEN && hash.Length == 32 && filename != hash
    modifies filename, hash
    ensures var c := TakeAll(Choice(0, [], old(hash[..])), Entries(Lines(body, 0), prefix));
            biggest == c.version && hash[..] == c.hash && (biggest > 0 ==> HoldsName(filename[..], c.name))
  {
    biggest := 0;
    ghost var c := Choice(0, [], hash[..]);
    ghost var done: seq<seq<bv8>> := [];
    var start: nat := 0;
    while start < |body|
      invariant done + Lines(body, start) == Lines(body, 0)
      invariant c == TakeAll(Choice(0, [], old(hash[..])), Entries(done, prefix))
      invariant biggest == c.version && hash[..] == c.hash && (biggest > 0 ==> HoldsName(filename[..], c.name))
      decreases |body| - start
    {
      var end := NewlineFrom(body, start + 1);
      if end == |body| { break; }
      var line := body[start..end];
      OneMoreLine(Choice(0, [], old(hash[..])), done, body, start, line, prefix);
      done := done + [line];
      c := Take(c, EntryOf(line, prefix));
      biggest := TakeLine(filename, hash, line, prefix, biggest);
      start := end + 1;
    }
    assert done + [] == done;
  }

  lemma OneMoreLine(first: Choice, done: seq<seq<bv8>>, body: seq<bv8>, start: nat, line: seq<bv8>, prefix: string)
    requires start < |body| && var end := NewlineFrom(body, start + 1); end < |body| && line == body[start..end]
    ensures done + Lines(body, start) == done + [line] + Lines(body, NewlineFrom(body, start + 1) + 1)
    ensures TakeAll(first, Entries(done + [line], prefix)) == Take(TakeAll(first, Entries(done, prefix)), EntryOf(line, prefix))
  {
    Associates(done, [line], Lines(body, NewlineFrom(body, start + 1) + 1));
    OneMoreEntry(first, done, line, prefix);
  }

  lemma OneMoreEntry(start: Choice, done: seq<seq<bv8>>, line: seq<bv8>, prefix: string)
    ensures TakeAll(start, Entries(done + [line], prefix)) == Take(TakeAll(start, Entries(done, prefix)), EntryOf(line, prefix))
  {
    var more := Entries(done + [line], prefix);
    assert more[..|done|] == Entries(done, prefix);
    assert more[|done|] == EntryOf(line, prefix);
  }

  method TakeLine(filename: array<bv8>, hash: array<bv8>, line: seq<bv8>, prefix: string, biggest: nat) returns (version: nat)
    requires filename.Length == MAX_FILENAME_LEN && hash.Length == 32 && filename != hash
    modifies filename, hash
    ensures var e := EntryOf(line, prefix);
            if e.Skipped? || e.version < biggest then
              version == biggest && hash[..] == old(hash[..]) && filename[..] == old(filename[..])
            else if !e.wellformed then
              version == biggest && hash[..] == e.hash && filename[..] == old(filename[..])
            else version == e.version && hash[..] == e.hash && HoldsName(filename[..], e.name)
  {
    if !Qualifies(line, prefix) { return biggest; }
    version := ParseVersion(Chars(line[66 + |prefix|..]), |line| - |MSI_SUFFIX| - 66 - |prefix|);
    if version < biggest { return biggest; }
    var ok := HashFromHex(hash, line[..64]);
    if !ok { return biggest; }
    WriteName(filename, line[66..]);
  }

  const MAX_PREFIX := 23

  function MsiPrefix(arch: string): string { "amneziawg-" + arch + "-" }

  method ExtractNewestFile(filename: array<bv8>, hash: array<bv8>, list: seq<bv8>, arch: string, keyText: seq<bv8>,
      verify: (seq<bv8>, seq<bv8>, seq<bv8>) -> bool) returns (ok: bool)
    requires filename.Length == MAX_FILENAME_LEN && hash.Length == 32 && filename != hash && |keyText| == 56
    modifies filename, hash
    ensures |MsiPrefix(arch)| > MAX_PREFIX || !Authentic(list, keyText, verify) ==>
              !ok && filename[..] == old(filename[..]) && hash[..] == old(hash[..])
    ensures |MsiPrefix(arch)| <= MAX_PREFIX && Authentic(list, keyText, verify) ==>
              var c := TakeAll(Choice(0, [], old(hash[..])), Entries(Lines(Body(list), 0), MsiPrefix(arch)));
              ok == (c.version > 0) && hash[..] == c.hash && (ok ==> HoldsName(filename[..], c.name))
  {
    if |MsiPrefix(arch)| > MAX_PREFIX { return false; }
    var authentic := VerifyEnvelope(list, keyText, verify);
    if !authentic { return false; }
    var biggest := Select(filename, hash, Body(list), MsiPrefix(arch));
    return biggest > 0;
  }
}
