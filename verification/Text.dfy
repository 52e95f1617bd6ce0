// Byte strings as the Go and C sources use them. A char stands for one byte
// (or, where the source ranges over runes, for one Unicode scalar value).
module Text {

  datatype Option<+T> = None | Some(value: T)

  // ---- Searching, splitting and joining -----------------------------------

  predicate HasPrefix(s: string, prefix: string) {
    |prefix| <= |s| && s[..|prefix|] == prefix
  }

  predicate HasSuffix(s: string, suffix: string) {
    |suffix| <= |s| && s[|s| - |suffix|..] == suffix
  }

  /** The position of the first c in s, or |s| when there is none. */
  function IndexOf(s: string, c: char): (k: nat)
    ensures k <= |s|
    ensures c !in s[..k]
    ensures k < |s| ==> s[k] == c
  {
    if s == [] || s[0] == c then 0
    else
      var rest := IndexOf(s[1..], c);
      assert s[..rest + 1] == [s[0]] + s[1..][..rest];
      rest + 1
  }

  lemma IndexOfUnique(s: string, c: char, k: nat)
    requires k <= |s| && c !in s[..k] && (k < |s| ==> s[k] == c)
    ensures IndexOf(s, c) == k
  {}

  /** The pieces of s between separators; never empty. */
  function Split(s: string, sep: char): (parts: seq<string>)
    ensures |parts| >= 1
    decreases |s|
  {
    var k := IndexOf(s, sep);
    if k == |s| then [s] else [s[..k]] + Split(s[k + 1..], sep)
  }

  function Join(parts: seq<string>, sep: string): string {
    if parts == [] then "" else if |parts| == 1 then parts[0] else parts[0] + sep + Join(parts[1..], sep)
  }

  // ---- Going over a list ---------------------------------------------------

  /** f collects what one gives for each element. */
  ghost predicate Collects<T(!new)>(f: seq<T> -> seq<T>, one: T -> seq<T>) {
    f([]) == [] && forall list, x :: CollectsAt(f, one, list, x)
  }

  ghost predicate CollectsAt<T>(f: seq<T> -> seq<T>, one: T -> seq<T>, list: seq<T>, x: T) { f(list + [x]) == f(list) + one(x) }

  lemma {:induction false} CollectsInOrder<T(!new)>(f: seq<T> -> seq<T>, one: T -> seq<T>, a: seq<T>, b: seq<T>)
    requires Collects(f, one)
    ensures f(a + b) == f(a) + f(b)
    decreases |b|
  {
    if b == [] {
      assert a + b == a;
    } else {
      var front, x := b[..|b| - 1], b[|b| - 1];
      CollectsInOrder(f, one, a, front);
      assert b == front + [x] && a + b == (a + front) + [x];
      assert CollectsAt(f, one, front, x) && CollectsAt(f, one, a + front, x);
    }
  }

  lemma CollectsOne<T(!new)>(f: seq<T> -> seq<T>, one: T -> seq<T>, x: T)
    requires Collects(f, one)
    ensures f([x]) == one(x)
  {
    assert CollectsAt(f, one, [], x) && [] + [x] == [x];
  }

  predicate Free(parts: seq<string>, c: char) {
    forall i :: 0 <= i < |parts| ==> c !in parts[i]
  }

  lemma {:induction false} SplitIsFree(s: string, sep: char)
    ensures Free(Split(s, sep), sep)
    decreases |s|
  {
    var k := IndexOf(s, sep);
    if k < |s| {
      SplitIsFree(s[k + 1..], sep);
    } else {
      assert s[..k] == s;
    }
  }

  /** Joining undoes splitting. */
  lemma {:induction false} JoinSplit(s: string, sep: char)
    ensures Join(Split(s, sep), [sep]) == s
    decreases |s|
  {
    var k := IndexOf(s, sep);
    if k < |s| {
      var u := s[k + 1..];
      TakeAndDrop(s, k);
      SplitAt(s, sep, k);
      JoinCons(s[..k], Split(u, sep), [sep]);
      JoinSplit(u, sep);
    } else {
      SplitWithout(s, sep);
    }
  }

  lemma TakeAndDrop(s: string, k: nat)
    requires k < |s|
    ensures s == s[..k] + [s[k]] + s[k + 1..]
  {}

  lemma JoinCons(head: string, rest: seq<string>, sep: string)
    requires rest != []
    ensures Join([head] + rest, sep) == head + sep + Join(rest, sep)
  {
    assert ([head] + rest)[1..] == rest;
  }

  lemma Associates<T>(a: seq<T>, b: seq<T>, c: seq<T>)
    ensures (a + b) + c == a + (b + c)
  {}

  lemma SplitAt(s: string, sep: char, k: nat)
    requires k < |s| && sep !in s[..k] && s[k] == sep
    ensures Split(s, sep) == [s[..k]] + Split(s[k + 1..], sep)
  {
    IndexOfUnique(s, sep, k);
  }

  lemma {:induction false} SplitConcat(a: string, b: string, sep: char)
    ensures Split(a + [sep] + b, sep) == Split(a, sep) + Split(b, sep)
    decreases |a|
  {
    var s, k := a + [sep] + b, IndexOf(a, sep);
    assert s[..k] == a[..k];
    SplitAt(s, sep, k);
    if k == |a| {
      assert s[k + 1..] == b;
      assert a[..k] == a;
    } else {
      var c := a[k + 1..];
      SplitAt(a, sep, k);
      assert s[k + 1..] == c + [sep] + b;
      SplitConcat(c, b, sep);
      Associates([a[..k]], Split(c, sep), Split(b, sep));
    }
  }

  lemma SplitWithout(s: string, sep: char)
    requires IndexOf(s, sep) == |s| || sep !in s
    ensures Split(s, sep) == [s]
  {
    assert s[..|s|] == s;
    IndexOfUnique(s, sep, |s|);
  }

  /** What follows the last separator is the last piece. */
  lemma SplitLast(s: string, sep: char, k: nat)
    requires k <= |s| && sep !in s[k..] && (k > 0 ==> s[k - 1] == sep)
    ensures Split(s, sep) == (if k == 0 then [] else Split(s[..k - 1], sep)) + [s[k..]]
  {
    SplitWithout(s[k..], sep);
    if k > 0 {
      assert s == s[..k - 1] + [sep] + s[k..];
      SplitConcat(s[..k - 1], s[k..], sep);
    } else {
      assert s[0..] == s;
    }
  }

  /** Splitting undoes joining when no piece holds the separator. */
  lemma {:induction false} SplitJoin(parts: seq<string>, sep: char)
    requires parts != [] && Free(parts, sep)
    ensures Split(Join(parts, [sep]), sep) == parts
    decreases |parts|
  {
    SplitWithout(parts[0], sep);
    if |parts| > 1 {
      var rest := Join(parts[1..], [sep]);
      SplitConcat(parts[0], rest, sep);
      SplitJoin(parts[1..], sep);
      assert Join(parts, [sep]) == parts[0] + [sep] + rest;
      assert parts == [parts[0]] + parts[1..];
    } else {
      assert parts == [parts[0]];
    }
  }

  lemma {:induction false} JoinConcat(p: seq<string>, q: seq<string>, sep: string)
    requires p != [] && q != []
    ensures Join(p + q, sep) == Join(p, sep) + sep + Join(q, sep)
    decreases |p|
  {
    assert (p + q)[1..] == p[1..] + q;
    if |p| > 1 {
      JoinConcat(p[1..], q, sep);
      assert p[0] + sep + (Join(p[1..], sep) + sep + Join(q, sep)) == Join(p, sep) + sep + Join(q, sep);
    } else {
      assert p[1..] + q == q;
    }
  }

  // ---- Trimming and case ---------------------------------------------------

  predicate IsAsciiSpace(c: char) {
    c == ' ' || c == '\t' || c == '\n' || c == '\r' || c as int == 11 || c as int == 12
  }

  /** The runes that unicode.IsSpace accepts. */
  predicate IsSpace(c: char) {
    var n := c as int;
    IsAsciiSpace(c) || n == 0x85 || n == 0xA0 || n == 0x1680 || 0x2000 <= n <= 0x200A
    || n == 0x2028 || n == 0x2029 || n == 0x202F || n == 0x205F || n == 0x3000
  }

  /** The first position from k on that is not blank. */
  function LeftEdge(s: string, blank: char -> bool, k: nat): (i: nat)
    requires k <= |s|
    ensures k <= i <= |s| && (forall j :: k <= j < i ==> blank(s[j])) && (i < |s| ==> !blank(s[i]))
    decreases |s| - k
  {
    if k < |s| && blank(s[k]) then LeftEdge(s, blank, k + 1) else k
  }

  /** The last position up to k, but not before from, that follows a non-blank. */
  function RightEdge(s: string, blank: char -> bool, from: nat, k: nat): (i: nat)
    requires from <= k <= |s|
    ensures from <= i <= k && (forall j :: i <= j < k ==> blank(s[j])) && (i > from ==> !blank(s[i - 1]))
    decreases k
  {
    if from < k && blank(s[k - 1]) then RightEdge(s, blank, from, k - 1) else k
  }

  function Trim(s: string, blank: char -> bool): string {
    var from := LeftEdge(s, blank, 0);
    s[from..RightEdge(s, blank, from, |s|)]
  }

  /** The stretch of s from the first non-blank to the last one; blanks alone
      leave nothing. */
  predicate Middle(s: string, blank: char -> bool, from: int, to: int) {
    && 0 <= from <= to <= |s|
    && (forall j :: 0 <= j < from ==> blank(s[j])) && (forall j :: to <= j < |s| ==> blank(s[j]))
    && (from < to ==> !blank(s[from]) && !blank(s[to - 1]))
  }

  /** Trimming takes the blanks at both ends away, and nothing else. */
  lemma TrimIsMiddle(s: string, blank: char -> bool) returns (from: nat, to: nat)
    ensures Middle(s, blank, from, to) && Trim(s, blank) == s[from..to]
  {
    from := LeftEdge(s, blank, 0);
    to := RightEdge(s, blank, from, |s|);
  }

  lemma MiddleIsTrim(s: string, blank: char -> bool, from: nat, to: nat)
    requires Middle(s, blank, from, to)
    ensures Trim(s, blank) == s[from..to]
  {
    var x, y := TrimIsMiddle(s, blank);
    if from < to {
      assert from == x && to == y;
    } else {
      assert x == y;
    }
  }

  lemma TrimPadded(left: string, s: string, right: string, blank: char -> bool)
    requires (forall i :: 0 <= i < |left| ==> blank(left[i])) && forall i :: 0 <= i < |right| ==> blank(right[i])
    requires s != "" ==> !blank(s[0]) && !blank(s[|s| - 1])
    ensures Trim(left + s + right, blank) == s
  {
    var t := left + s + right;
    assert t[|left|..|left| + |s|] == s;
    MiddleIsTrim(t, blank, |left|, |left| + |s|);
  }

  /** What is left starts and ends with a non-blank. */
  lemma TrimEnds(s: string, blank: char -> bool)
    ensures var t := Trim(s, blank); |t| <= |s| && (t != [] ==> !blank(t[0]) && !blank(t[|t| - 1]))
  {}

  function TrimSpace(s: string): string { Trim(s, IsSpace) }

  /** Nothing is trimmed from a string that has no blank at either end. */
  lemma TrimSpaceFixed(s: string)
    requires s != [] ==> !IsSpace(s[0]) && !IsSpace(s[|s| - 1])
    ensures TrimSpace(s) == s
  {
    var from := LeftEdge(s, IsSpace, 0);
    assert from == 0;
    assert RightEdge(s, IsSpace, from, |s|) == |s|;
  }

  /** unicode.ToLower, exact wherever the result is an ASCII letter: next to the
      capitals those are the dotted capital I and the Kelvin sign. */
  function LowerChar(c: char): char {
    if 'A' <= c <= 'Z' then (c as int + 32) as char
    else if c as int == 0x130 then 'i'
    else if c as int == 0x212A then 'k'
    else c
  }

  /** Lower-casing, as far as the source's comparisons with ASCII text go. */
  function Lower(s: string): (t: string)
    ensures |t| == |s| && forall i :: 0 <= i < |s| ==> t[i] == LowerChar(s[i])
  {
    seq(|s|, i requires 0 <= i < |s| => LowerChar(s[i]))
  }

  predicate AllBlank(s: string) { forall i :: 0 <= i < |s| ==> IsSpace(s[i]) }

  /** No blanks at either end. */
  predicate Tight(s: string) { s != "" && !IsSpace(s[0]) && !IsSpace(s[|s| - 1]) }

  /** The text of s, between blanks. */
  predicate Written(s: string, left: string, text: string, right: string) {
    AllBlank(left) && AllBlank(right) && s == left + text + right
  }

  lemma TrimSpacePadded(left: string, s: string, right: string)
    requires AllBlank(left) && AllBlank(right) && Tight(s)
    ensures TrimSpace(left + s + right) == s
  {
    TrimPadded(left, s, right, IsSpace);
  }

  /** Every text is blanks, what trimming leaves, and blanks. */
  lemma TrimSpaceParts(s: string) returns (left: string, right: string)
    ensures AllBlank(left) && AllBlank(right) && s == left + TrimSpace(s) + right
    ensures if TrimSpace(s) == "" then AllBlank(s) else Tight(TrimSpace(s))
  {
    var from, to := TrimIsMiddle(s, IsSpace);
    left, right := s[..from], s[to..];
  }

  lemma LowerKeepsBlanks(c: char)
    ensures IsSpace(LowerChar(c)) <==> IsSpace(c)
    ensures LowerChar(c) == '.' <==> c == '.'
    ensures LowerChar(c) == '*' <==> c == '*'
  {}

  lemma LowerTight(s: string)
    ensures Tight(Lower(s)) <==> Tight(s)
  {
    if s != "" {
      LowerKeepsBlanks(s[0]);
      LowerKeepsBlanks(s[|s| - 1]);
    }
  }

  // ---- Decimal numbers -----------------------------------------------------

  predicate IsDigit(c: char) { '0' <= c <= '9' }

  predicate AllDigits(s: string) { forall i :: 0 <= i < |s| ==> IsDigit(s[i]) }

  function DigitValue(c: char): (d: nat)
    requires IsDigit(c)
    ensures d < 10
  {
    c as int - '0' as int
  }

  function DigitChar(d: nat): (c: char)
    requires d < 10
    ensures IsDigit(c) && DigitValue(c) == d
  {
    (d + '0' as int) as char
  }

  function Value(s: string): nat
    requires AllDigits(s)
  {
    if s == [] then 0 else 10 * Value(s[..|s| - 1]) + DigitValue(s[|s| - 1])
  }

  /** The way strconv.Itoa and %d write a non-negative number. */
  function Render(n: nat): (s: string)
    ensures s != [] && AllDigits(s)
  {
    if n < 10 then [DigitChar(n)] else Render(n / 10) + [DigitChar(n % 10)]
  }

  /** Decimal text without superfluous leading zeros. */
  predicate Canonical(s: string) {
    s != [] && AllDigits(s) && (|s| > 1 ==> s[0] != '0')
  }

  lemma {:induction false} ValueOfRender(n: nat)
    ensures Value(Render(n)) == n && Canonical(Render(n)) && (n > 0 ==> Render(n)[0] != '0')
  {
    if n >= 10 {
      ValueOfRender(n / 10);
      var s := Render(n);
      assert s[..|s| - 1] == Render(n / 10);
    }
  }

  lemma {:induction false} ValuePositive(s: string)
    requires s != [] && AllDigits(s) && s[0] != '0'
    ensures Value(s) > 0
    decreases |s|
  {
    if |s| > 1 { ValuePositive(s[..|s| - 1]); }
  }

  lemma {:induction false} RenderOfValue(s: string)
    requires Canonical(s)
    ensures Render(Value(s)) == s
    decreases |s|
  {
    if |s| > 1 {
      var t := s[..|s| - 1];
      RenderOfValue(t);
      ValuePositive(t);
      assert s == t + [s[|s| - 1]];
    } else {
      assert s[..0] == "" && Value("") == 0;
      assert s == [s[0]];
    }
  }

  lemma RenderLength(n: nat)
    ensures n < 65536 ==> |Render(n)| <= 5
    ensures n < 256 ==> |Render(n)| <= 3
  {
    if 10 <= n < 65536 { RenderLengthBelow(n / 10); }
  }

  lemma RenderLengthBelow(n: nat)
    requires n < 10000
    ensures |Render(n)| <= 4 && (n < 100 ==> |Render(n)| <= 2)
  {
    assert n >= 10 ==> |Render(n)| == |Render(n / 10)| + 1;
    assert n >= 100 ==> |Render(n / 10)| == |Render(n / 100)| + 1;
  }

  /** strconv.ParseUint(s, 10, 16): digits only, at least one, at most 65535. */
  function ParseUint16(s: string): (r: Option<nat>)
    ensures r.Some? <==> s != [] && AllDigits(s) && Value(s) <= 65535
    ensures r.Some? ==> r.value == Value(s)
  {
    if s != [] && AllDigits(s) && Value(s) <= 65535 then Some(Value(s)) else None
  }
}
