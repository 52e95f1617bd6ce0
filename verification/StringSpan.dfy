// The pointer-and-length spans of the config highlighter and the validators
// that walk them. Every read is at an index into the NUL-terminated buffer.
module StringSpans {
  import opened Text
  import opened AddressGrammar
  import opened Base64

  /** The bits of c|32 as a number. */
  function Or32(c: char): int {
    var n := c as int;
    if n / 32 % 2 == 1 then n else n + 32
  }

  predicate IsDecimal(c: char) { '0' <= c <= '9' }

  predicate IsHexadecimal(c: char) {
    IsDecimal(c) || 'a' as int <= Or32(c) <= 'f' as int
  }

  predicate IsAlphabet(c: char) { 'a' as int <= Or32(c) <= 'z' as int }

  lemma Classes(c: char)
    ensures IsHexadecimal(c) <==> IsHex(c)
    ensures IsAlphabet(c) <==> 'a' <= c <= 'z' || 'A' <= c <= 'Z'
    ensures IsDecimal(c) || IsAlphabet(c) || c == '+' || c == '/' <==> IsSextetChar(c)
  {}

  function AsciiLower(c: char): char { if 'A' <= c <= 'Z' then (c as int + 32) as char else c }

  /** The same letters, in any case. */
  predicate Caseless(a: string, b: string) {
    |a| == |b| && forall i :: 0 <= i < |a| ==> AsciiLower(a[i]) == AsciiLower(b[i])
  }

  /** Subtraction of bytes, which wraps around below zero. */
  function ByteMinus(a: char, b: char): int { if a < b then a as int + 256 - b as int else a as int - b as int }

  /** The bits of c&95 as a number, for a byte. */
  function And95(c: char): (n: nat)
    requires c as int < 256
  {
    var n := c as int;
    n - n / 32 % 2 * 32 - n / 128 * 128
  }

  /** The source's folding of one byte. */
  function Folded(c: char): nat {
    if ByteMinus(c, 'a') < 26 then And95(c) else c as int
  }

  lemma FoldedLetters(a: char, b: char)
    requires b as int < 128
    ensures Folded(a) == Folded(b) <==> AsciiLower(a) == AsciiLower(b)
  {}

  /** The addresses accepted when the byte after the text is next. A colon there
      lets one to seven groups pass for a whole address. */
  ghost predicate AcceptsIPv6(s: string, next: char) {
    IPv6Text(s) || (next == ':' && |s| >= 2 && Groups(s) && Width(s) <= 7)
  }

  /** Without a colon after the text only real addresses pass; with one, a text
      such as 1:2 does too, although it is no address. */
  lemma ColonPastTheEnd()
    ensures AcceptsIPv6("1:2", ':') && !IPv6Text("1:2")
    ensures forall s, next :: next != ':' ==> (AcceptsIPv6(s, next) <==> IPv6Text(s))
  {
    assert "1:2" == "1" + [':'] + "2" && Split("1", ':') == ["1"] && Split("2", ':') == ["2"] by {
      SplitWithout("1", ':');
      SplitWithout("2", ':');
    }
    SplitConcat("1", "2", ':');
    assert Split("1:2", ':') == ["1", "2"];
    HexIsNotPunctuation("2");
    assert ["1", "2"][1..] == ["2"] && AllHexGroups(["2"][1..]);
    assert forall p :: !ElidedAt("1:2", p);
  }

  predicate Number(s: string, min: nat, max: nat) {
    1 <= |s| <= 10 && AllDigits(s) && min <= Value(s) <= max
  }

  predicate HostnameChar(c: char) {
    IsDecimal(c) || IsAlphabet(c) || c == '.' || c == '-'
  }

  /** Letters, digits, dots and hyphens, with at least one letter or hyphen
      and neither dot nor hyphen at the ends. */
  ghost predicate HostnameText(s: string) {
    && 1 <= |s| <= 63
    && s[0] != '-' && s[|s| - 1] != '-' && s[0] != '.' && s[|s| - 1] != '.'
    && (forall i :: 0 <= i < |s| ==> HostnameChar(s[i]))
    && exists i :: 0 <= i < |s| && !IsDecimal(s[i]) && s[i] != '.'
  }

  /** What the scope check lets through: anything of the right length that has
      no letter in it. */
  predicate ScopeText(s: string) {
    1 <= |s| <= 64 && forall i :: 0 <= i < |s| ==> !IsAlphabet(s[i])
  }

  predicate PortText(s: string) { Number(s, 0, 65535) }

  /** An IPv6 address in brackets, with an optional scope after a percent sign. */
  ghost predicate BracketHost(h: string) {
    && |h| >= 2 && h[0] == '[' && h[|h| - 1] == ']'
    && ']' !in h[1..|h| - 1] && BracketInner(h[1..|h| - 1])
  }

  ghost predicate BracketInner(inner: string) {
    var k := IndexOf(inner, '%');
    && IPv6Text(inner[..k])
    && (k < |inner| ==> '%' !in inner[k + 1..] && ScopeText(inner[k + 1..]))
  }

  ghost predicate HostText(h: string) {
    DottedQuad(h) || HostnameText(h) || BracketHost(h)
  }

  /** A host and a port around the colon at c. */
  ghost predicate EndpointAt(s: string, c: int) {
    0 <= c < |s| && s[c] == ':' && HostText(s[..c]) && PortText(s[c + 1..])
  }

  ghost predicate EndpointText(s: string) {
    exists c :: EndpointAt(s, c)
  }

  /** An address and a prefix length around the slash at i. */
  ghost predicate PrefixAt(s: string, i: int) {
    && 0 <= i < |s| && s[i] == '/' && '/' !in s[..i]
    && 1 <= |s| - i - 1 <= 3 && AllDigits(s[i + 1..])
    && ((DottedQuad(s[..i]) && Value(s[i + 1..]) <= 32) || (IPv6Text(s[..i]) && Value(s[i + 1..]) <= 128))
  }

  ghost predicate NetworkText(s: string) {
    || ('/' !in s && (DottedQuad(s) || IPv6Text(s)))
    || exists i :: PrefixAt(s, i)
  }

  /** A text without a slash is accepted as an address would be. */
  ghost predicate AcceptsNetwork(s: string, next: char) {
    NetworkText(s) || ('/' !in s && AcceptsIPv6(s, next))
  }

  datatype StringSpan = StringSpan(b: string, off: nat, len: nat) {

    /** The span lies inside the text of a NUL-terminated buffer. */
    predicate Valid() {
      off + len < |b| && b[|b| - 1] == '\0'
    }

    function Str(): (s: string)
      requires Valid()
      ensures |s| == len
    {
      b[off..off + len]
    }

    /** The byte just past the span. */
    function Next(): char
      requires Valid()
    {
      b[off + len]
    }

    function At(i: nat): (c: char)
      requires Valid() && i <= len
      ensures i < len ==> c == Str()[i]
      ensures i == len ==> c == Next()
    {
      b[off + i]
    }

    function Sub(from: nat, n: nat): (s: StringSpan)
      requires Valid() && from + n <= len
      ensures s.Valid() && s.Str() == Str()[from..from + n] && s.b == b
      ensures from + n == len ==> s.Next() == Next()
      ensures from + n < len ==> s.Next() == Str()[from + n]
    {
      assert b[off..off + len][from..from + n] == b[off + from..off + from + n];
      StringSpan(b, off + from, n)
    }

    method IsSame(c: string) returns (same: bool)
      requires Valid()
      ensures same <==> Str() == c
    {
      if len != |c| { return false; }
      for i := 0 to len
        invariant forall k :: 0 <= k < i ==> Str()[k] == c[k]
      {
        if At(i) != c[i] { return false; }
      }
      return true;
    }

    method IsCaselessSame(c: string) returns (same: bool)
      requires Valid() && forall i :: 0 <= i < |c| ==> c[i] as int < 128
      ensures same <==> Caseless(Str(), c)
    {
      if len != |c| { return false; }
      for i := 0 to len
        invariant forall k :: 0 <= k < i ==> AsciiLower(Str()[k]) == AsciiLower(c[k])
      {
        FoldedLetters(At(i), c[i]);
        var a, b := At(i) as int, c[i] as int;
        if ByteMinus(At(i), 'a') < 26 { a := And95(At(i)); }
        if ByteMinus(c[i], 'a') < 26 { b := And95(c[i]); }
        if a != b { return false; }
      }
      return true;
    }

    method IsValidKey() returns (ok: bool)
      requires Valid()
      ensures ok <==> KeyEncoding(Str())
    {
      ok := HasKeyChars();
      KeyText(Str());
    }

    method HasKeyChars() returns (ok: bool)
      requires Valid()
      ensures ok <==> KeyChars(Str())
    {
      if len != 44 || At(43) != '=' { return false; }
      for i := 0 to 42
        invariant forall k :: 0 <= k < i ==> IsSextetChar(Str()[k])
      {
        Classes(At(i));
        if !IsDecimal(At(i)) && !IsAlphabet(At(i)) && At(i) != '/' && At(i) != '+' { return false; }
      }
      return PaddingChar(At(42));
    }

    method IsValidHostname() returns (ok: bool)
      requires Valid()
      ensures ok <==> HostnameText(Str())
    {
      var numDigit, numEntity := 0, len;
      if len > 63 || len == 0 { return false; }
      if At(0) == '-' || At(len - 1) == '-' { return false; }
      if At(0) == '.' || At(len - 1) == '.' { return false; }
      for i := 0 to len
        invariant forall k :: 0 <= k < i ==> HostnameChar(Str()[k])
        invariant numDigit <= numEntity - (len - i)
        invariant numDigit < numEntity - (len - i) <==> exists k :: 0 <= k < i && !IsDecimal(Str()[k]) && Str()[k] != '.'
      {
        if IsDecimal(At(i)) { numDigit := numDigit + 1; continue; }
        if At(i) == '.' { numEntity := numEntity - 1; continue; }
        if !IsAlphabet(At(i)) && At(i) != '-' { return false; }
        assert !IsDecimal(Str()[i]) && Str()[i] != '.';
      }
      return numDigit != numEntity;
    }

    /** The run of at most three digits at pos and its value. */
    method DecimalRun(pos: nat) returns (j: nat, val: nat)
      requires Valid() && pos <= len
      ensures DigitPrefix(Str(), pos, j) && val == Value(Str()[pos..pos + j])
    {
      val := 0;
      j := 0;
      while j < 3 && pos + j < len && IsDecimal(At(pos + j))
        invariant j <= 3 && pos + j <= len
        invariant AllDigits(Str()[pos..pos + j]) && val == Value(Str()[pos..pos + j])
      {
        ValueSnoc(Str(), pos, j);
        val := 10 * val + (At(pos + j) as int - '0' as int);
        j := j + 1;
      }
    }

    method IsValidIPv4() returns (ok: bool)
      requires Valid()
      ensures ok <==> DottedQuad(Str())
    {
      ghost var s := Str();
      ghost var due := QuadStates(s);
      var pos := 0;
      var i := 0;
      while i < 4 && pos < len
        invariant 0 <= i <= 4 && 0 <= pos <= len + 1
        invariant pos <= len ==> (DottedQuad(s) <==> due(pos, 4 - i))
        invariant pos > len ==> !DottedQuad(s)
        decreases 4 - i
      {
        var j, val := DecimalRun(pos);
        assert PartStep(s, due, pos, j, 4 - i);
        if j == 0 || (j > 1 && At(pos) == '0') || val > 255 { return false; }
        if pos + j == len && i == 3 { return true; }
        if At(pos + j) != '.' { return false; }
        pos := pos + j + 1;
        i := i + 1;
      }
      assert i == 4 && pos < len ==> !due(pos, 0);
      return false;
    }

    /** The length of the run of at most four hexadecimal digits at pos. */
    method HexRun(pos: nat) returns (j: nat)
      requires Valid() && pos < len
      ensures HexPrefix(Str(), pos, j)
    {
      j := 0;
      while true
        invariant j <= 4 && pos + j <= len
        invariant forall k :: pos <= k < pos + j ==> IsHex(Str()[k])
        decreases 4 - j
      {
        if j < 4 && pos + j < len { Classes(At(pos + j)); }
        if j < 4 && pos + j < len && IsHexadecimal(At(pos + j)) {
          j := j + 1;
          continue;
        }
        break;
      }
    }

    /** The embedded dotted quad: the rest of the span from pos. */
    method IsValidIPv4From(pos: nat, ghost quad: int -> bool) returns (ok: bool)
      requires Valid() && pos <= len && QuadOracle(Str(), quad)
      ensures ok <==> quad(pos)
    {
      assert Str()[pos..len] == Str()[pos..];
      ok := Sub(pos, len - pos).IsValidIPv4();
    }

    method IsValidIPv6() returns (ok: bool)
      requires Valid()
      ensures ok <==> AcceptsIPv6(Str(), Next())
    {
      ghost var live, quad, accepts := ScanStates(Str(), Next());
      ok := ScanIPv6(live, quad, accepts);
    }

    /** The scan itself, against the states it goes through. */
    method ScanIPv6(ghost live: (int, int, bool) -> bool, ghost quad: int -> bool, ghost accepts: bool)
      returns (ok: bool)
      requires Valid() && QuadOracle(Str(), quad) && ScanSteps(Str(), Next(), live, quad, accepts)
      ensures ok <==> accepts
    {
      ghost var s, next := Str(), Next();
      if len < 2 { return false; }
      var pos := 0;
      if At(0) == ':' {
        if At(1) != ':' { return false; }
        pos := 1;
      }
      if At(len - 1) == ':' && At(len - 2) != ':' { return false; }
      var seenColon := false;
      var i := 0;
      while pos < len
        invariant 0 <= i <= 7 && 0 <= pos <= len
        invariant pos == len ==> accepts
        invariant pos < len ==> (accepts <==> live(pos, i, seenColon))
        decreases len - pos
      {
        if At(pos) == ':' && !seenColon {
          assert ElisionStep(s, live, pos, i);
          seenColon := true;
          pos := pos + 1;
          if pos == len { break; }
          if i == 7 { return false; }
          i := i + 1;
          continue;
        }
        var j := HexRun(pos);
        assert GroupStep(s, next, live, quad, pos, j, i, seenColon);
        if j == 0 { return false; }
        if pos + j == len && (seenColon || i == 7) { break; }
        if i == 7 { return false; }
        if At(pos + j) != ':' {
          if At(pos + j) != '.' || (i < 6 && !seenColon) { return false; }
          ok := IsValidIPv4From(pos, quad);
          return ok;
        }
        if pos + j == len { return true; }
        pos := pos + j + 1;
        i := i + 1;
      }
      return true;
    }

    method IsValidUint(min: nat, max: nat) returns (ok: bool)
      requires Valid()
      ensures ok <==> Number(Str(), min, max)
    {
      if len > 10 || len == 0 { return false; }
      var val := 0;
      assert Str()[0..0] == "";
      for i := 0 to len
        invariant AllDigits(Str()[0..i]) && val == Value(Str()[0..i])
      {
        if !IsDecimal(At(i)) { return false; }
        ValueSnoc(Str(), 0, i);
        val := 10 * val + (At(i) as int - '0' as int);
      }
      assert Str()[0..len] == Str();
      return min <= val <= max;
    }

    method IsValidUintIn(from: nat, to: nat, min: nat, max: nat) returns (ok: bool)
      requires Valid() && from <= to <= len
      ensures ok <==> Number(Str()[from..to], min, max)
    {
      ok := Sub(from, to - from).IsValidUint(min, max);
    }

    method IsValidPort() returns (ok: bool)
      requires Valid()
      ensures ok <==> PortText(Str())
    {
      ok := IsValidUint(0, 65535);
    }

    method IsValidScope() returns (ok: bool)
      requires Valid()
      ensures ok <==> ScopeText(Str())
    {
      if len > 64 || len == 0 { return false; }
      for i := 0 to len
        invariant forall k :: 0 <= k < i ==> !IsAlphabet(Str()[k])
      {
        var c := At(i);
        Classes(c);
        if IsAlphabet(c) && !IsDecimal(c) && c != '_' && c != '=' && c != '+' && c != '.' && c != '-' {
          return false;
        }
      }
      return true;
    }

    method IsValidEndpoint() returns (ok: bool)
      requires Valid()
      ensures ok <==> EndpointText(Str())
    {
      ghost var s := Str();
      if len == 0 { return false; }
      if At(0) == '[' {
        BracketSteps(s);
        ok := IsValidBracketed(EndpointText(s));
        return ok;
      }
      for i := 0 to len
        invariant ':' !in s[..i]
      {
        if At(i) == ':' {
          var host, port := Sub(0, i), Sub(i + 1, len - i - 1);
          assert s[0..i] == s[..i] && s[i + 1..len] == s[i + 1..];
          FirstColon(s, i);
          var portOk := port.IsValidPort();
          var quadOk := host.IsValidIPv4();
          var nameOk := host.IsValidHostname();
          return portOk && (quadOk || nameOk);
        }
      }
      assert s[..len] == s;
      return false;
    }

    /** The form with the address in brackets, given whether it is an endpoint. */
    method IsValidBracketed(ghost accepts: bool) returns (ok: bool)
      requires Valid() && len > 0 && At(0) == '['
      requires forall from, i, seenScope :: BracketStep(Str(), accepts, from, i, seenScope)
      requires ']' !in Str()[1..] ==> !accepts
      ensures ok <==> accepts
    {
      ghost var s := Str();
      var seenScope := false;
      var from := 1;
      for i := 1 to len
        invariant 1 <= from <= i && InBracket(s, from, i, seenScope)
      {
        assert BracketStep(s, accepts, from, i, seenScope);
        if At(i) == '%' {
          if seenScope { return false; }
          var v6 := IsValidBracketHost(from, i, false);
          seenScope := true;
          if !v6 { return false; }
          from := i + 1;
        } else if At(i) == ']' {
          ok := IsValidBracketEnd(from, i, seenScope);
          return ok;
        }
      }
      return false;
    }

    /** The end of the host at the bracket, and the port. */
    method IsValidBracketEnd(from: nat, i: nat, seenScope: bool) returns (ok: bool)
      requires Valid() && from <= i < len && At(i) == ']'
      ensures ok <==> (if seenScope then ScopeText(Str()[from..i]) else IPv6Text(Str()[from..i]))
                      && i + 1 < len && Str()[i + 1] == ':' && PortText(Str()[i + 2..])
    {
      var hostOk := IsValidBracketHost(from, i, seenScope);
      if !hostOk { return false; }
      if i == len - 1 || At(i + 1) != ':' { return false; }
      ok := IsValidPortFrom(i + 2);
    }

    /** The host span in the brackets: a scope after "%", an address otherwise. */
    method IsValidBracketHost(from: nat, i: nat, seenScope: bool) returns (ok: bool)
      requires Valid() && from <= i < len && At(i) != ':'
      ensures ok <==> if seenScope then ScopeText(Str()[from..i]) else IPv6Text(Str()[from..i])
    {
      var hostspan := Sub(from, i - from);
      if seenScope { ok := hostspan.IsValidScope(); } else { ok := hostspan.IsValidIPv6(); }
    }

    method IsValidPortFrom(i: nat) returns (ok: bool)
      requires Valid() && i <= len
      ensures ok <==> PortText(Str()[i..])
    {
      assert Str()[i..len] == Str()[i..];
      ok := Sub(i, len - i).IsValidPort();
    }

    method IsValidNetwork() returns (ok: bool)
      requires Valid()
      ensures ok <==> AcceptsNetwork(Str(), Next())
    {
      ghost var s := Str();
      for i := 0 to len
        invariant '/' !in s[..i]
      {
        if At(i) == '/' {
          ok := IsValidPrefix(i);
          FirstSlash(s, i);
          return ok;
        }
      }
      assert s[..len] == s;
      var v4 := IsValidIPv4();
      var v6 := IsValidIPv6();
      return v4 || v6;
    }

    /** The address before and the prefix length after the slash at i. */
    method IsValidPrefix(i: nat) returns (ok: bool)
      requires Valid() && i < len && At(i) == '/' && '/' !in Str()[..i]
      ensures ok <==> PrefixAt(Str(), i)
    {
      ghost var s := Str();
      var ip, cidr := Sub(0, i), Sub(i + 1, len - i - 1);
      assert s[0..i] == s[..i] && s[i + 1..len] == s[i + 1..];
      if cidr.len > 3 || cidr.len == 0 { return false; }
      var digits, cidrval := cidr.AllDecimal();
      if !digits { return false; }
      ok := ip.AllowsLength(cidrval);
    }

    /** An address that a prefix length may follow. */
    method AllowsLength(cidrval: nat) returns (ok: bool)
      requires Valid() && Next() != ':'
      ensures ok <==> (DottedQuad(Str()) && cidrval <= 32) || (IPv6Text(Str()) && cidrval <= 128)
    {
      var v4 := IsValidIPv4();
      if v4 {
        QuadIsNotIPv6(Str());
        return cidrval <= 32;
      }
      var v6 := IsValidIPv6();
      return v6 && cidrval <= 128;
    }

    /** The loop over the digits of the prefix length. */
    method AllDecimal() returns (ok: bool, val: nat)
      requires Valid()
      ensures ok <==> AllDigits(Str())
      ensures ok ==> val == Value(Str())
    {
      ghost var t := Str();
      val := 0;
      assert t[0..0] == "";
      for j := 0 to len
        invariant AllDigits(t[0..j]) && val == Value(t[0..j])
      {
        if !IsDecimal(At(j)) { return false, 0; }
        ValueSnoc(t, 0, j);
        val := 10 * val + (At(j) as int - '0' as int);
      }
      assert t[0..len] == t;
      return true, val;
    }
  }

  // ---- Endpoints and networks ----------------------------------------------

  lemma HostHasNoColon(h: string)
    requires DottedQuad(h) || HostnameText(h)
    ensures ':' !in h && (h != "" ==> h[0] != '[')
  {
    if DottedQuad(h) {
      QuadHasNoColon(h);
      if h != "" && h[0] == '[' { NotAQuad(h); }
    }
  }

  lemma NotAQuad(h: string)
    requires h != "" && h[0] == '['
    ensures !DottedQuad(h)
  {
    var k := IndexOf(h, '.');
    assert Split(h, '.')[0] == h[..k];
    assert k > 0 && h[..k][0] == h[0];
  }

  /** Without a bracket the first colon is the only candidate. */
  lemma FirstColon(s: string, i: nat)
    requires i < |s| && s[0] != '[' && ':' !in s[..i] && s[i] == ':'
    ensures EndpointText(s) <==> (DottedQuad(s[..i]) || HostnameText(s[..i])) && PortText(s[i + 1..])
  {
    if c :| EndpointAt(s, c) {
      assert c > 0 ==> s[..c][0] == s[0];
      HostHasNoColon(s[..c]);
      IndexOfUnique(s, ':', c);
      IndexOfUnique(s, ':', i);
    }
    if (DottedQuad(s[..i]) || HostnameText(s[..i])) && PortText(s[i + 1..]) { assert EndpointAt(s, i); }
  }

  /** With a bracket the host reaches at least to the first closing bracket. */
  lemma BracketBeyond(s: string, i: nat, c: int)
    requires 1 <= i < |s| && s[0] == '[' && ']' !in s[1..i] && EndpointAt(s, c)
    ensures c > i && s[c - 1] == ']' && BracketInner(s[1..c - 1]) && ']' !in s[1..c - 1]
  {
    BracketHostOf(s, c);
  }

  lemma BracketEnd(s: string, i: nat)
    requires 1 <= i < |s| && s[0] == '[' && ']' !in s[1..i] && s[i] == ']'
    ensures EndpointText(s) <==> i + 1 < |s| && s[i + 1] == ':' && BracketInner(s[1..i]) && PortText(s[i + 2..])
  {
    if c :| EndpointAt(s, c) { EndpointAfterBracket(s, i, c); }
    if i + 1 < |s| && s[i + 1] == ':' && BracketInner(s[1..i]) && PortText(s[i + 2..]) { EndpointWithBracket(s, i); }
  }

  lemma EndpointAfterBracket(s: string, i: nat, c: int)
    requires 1 <= i < |s| && s[0] == '[' && ']' !in s[1..i] && s[i] == ']' && EndpointAt(s, c)
    ensures i + 1 < |s| && s[i + 1] == ':' && BracketInner(s[1..i]) && PortText(s[i + 2..])
  {
    BracketBeyond(s, i, c);
    BracketAt(s, i, c);
  }

  lemma BracketAt(s: string, i: nat, c: int)
    requires 1 <= i <= c - 1 < |s| && s[i] == ']' && ']' !in s[1..c - 1]
    ensures c == i + 1
  {
    IndexOfUnique(s[1..], ']', i - 1) by { assert forall k :: 0 <= k < i - 1 ==> s[1..c - 1][k] == s[1..][k]; }
    assert s[1..][..c - 2] == s[1..c - 1];
  }

  lemma EndpointWithBracket(s: string, i: nat)
    requires 1 <= i < |s| - 1 && s[0] == '[' && ']' !in s[1..i] && s[i] == ']'
    requires s[i + 1] == ':' && BracketInner(s[1..i]) && PortText(s[i + 2..])
    ensures EndpointText(s)
  {
    var h := s[..i + 1];
    assert h[1..|h| - 1] == s[1..i];
    assert BracketHost(h);
    assert EndpointAt(s, i + 1);
  }

  lemma BracketHostOf(s: string, c: int)
    requires |s| > 0 && s[0] == '[' && EndpointAt(s, c)
    ensures c >= 2 && s[c - 1] == ']' && BracketInner(s[1..c - 1]) && ']' !in s[1..c - 1]
  {
    var h := s[..c];
    assert c > 0;
    if DottedQuad(h) || HostnameText(h) { HostHasNoColon(h); }
    assert h[1..|h| - 1] == s[1..c - 1];
  }

  lemma NoBracket(s: string)
    requires s != "" && s[0] == '[' && ']' !in s[1..]
    ensures !EndpointText(s)
  {
    if c :| EndpointAt(s, c) {
      BracketHostOf(s, c);
    }
  }

  /** The state of the bracket scan before index i, the host span starting at from. */
  ghost predicate InBracket(s: string, from: int, i: int, seenScope: bool) {
    && 1 <= from <= i <= |s| && s[0] == '[' && ']' !in s[1..i]
    && (!seenScope ==> from == 1 && '%' !in s[1..i])
    && (seenScope ==>
          from > 1 && s[from - 1] == '%' && '%' !in s[1..from - 1] && '%' !in s[from..i] && IPv6Text(s[1..from - 1]))
  }

  /** What the bracket scan concludes at i. */
  ghost predicate BracketStep(s: string, accepts: bool, from: int, i: int, seenScope: bool) {
    InBracket(s, from, i, seenScope) && i < |s| ==>
      && (s[i] == '%' && (seenScope || !IPv6Text(s[1..i])) ==> !accepts)
      && (s[i] == ']' ==>
            (accepts <==> (if seenScope then ScopeText(s[from..i]) else IPv6Text(s[from..i]))
                          && i + 1 < |s| && s[i + 1] == ':' && PortText(s[i + 2..])))
      && (s[i] != '%' && s[i] != ']' ==> InBracket(s, from, i + 1, seenScope))
      && (s[i] == '%' && !seenScope && IPv6Text(s[from..i]) ==> InBracket(s, i + 1, i + 1, true))
  }

  lemma BracketSteps(s: string)
    requires s != "" && s[0] == '['
    ensures forall from, i, seenScope :: BracketStep(s, EndpointText(s), from, i, seenScope)
    ensures ']' !in s[1..] ==> !EndpointText(s)
  {
    forall from, i, seenScope ensures BracketStep(s, EndpointText(s), from, i, seenScope) {
      if InBracket(s, from, i, seenScope) && i < |s| { BracketScan(s, from, i, seenScope); }
    }
    if ']' !in s[1..] { NoBracket(s); }
  }

  lemma BracketScan(s: string, from: nat, i: nat, seenScope: bool)
    requires i < |s| && InBracket(s, from, i, seenScope)
    ensures BracketStep(s, EndpointText(s), from, i, seenScope)
  {
    if s[i] == ']' {
      BracketEnd(s, i);
      InnerParts(s, from, i, seenScope);
    } else {
      BracketGoesOn(s, from, i, seenScope);
      if s[i] == '%' && (seenScope || !IPv6Text(s[1..i])) { PercentEnds(s, from, i, seenScope); }
    }
  }

  lemma BracketGoesOn(s: string, from: nat, i: nat, seenScope: bool)
    requires i < |s| && InBracket(s, from, i, seenScope) && s[i] != ']'
    ensures s[i] != '%' ==> InBracket(s, from, i + 1, seenScope)
    ensures s[i] == '%' && !seenScope && IPv6Text(s[from..i]) ==> InBracket(s, i + 1, i + 1, true)
  {
    assert s[1..i + 1] == s[1..i] + [s[i]];
    assert s[from..i + 1] == s[from..i] + [s[i]];
  }

  lemma PercentEnds(s: string, from: nat, i: nat, seenScope: bool)
    requires i < |s| && InBracket(s, from, i, seenScope) && s[i] == '%' && (seenScope || !IPv6Text(s[1..i]))
    ensures !EndpointText(s)
  {
    if c :| EndpointAt(s, c) {
      BracketBeyond(s, i, c);
      assert s[c - 1] == ']' && c - 1 > i;
      PercentInside(s, from, i, seenScope, c - 1);
    }
  }

  lemma InnerParts(s: string, from: nat, i: nat, seenScope: bool)
    requires i < |s| && InBracket(s, from, i, seenScope)
    ensures BracketInner(s[1..i]) <==> if seenScope then ScopeText(s[from..i]) else IPv6Text(s[from..i])
  {
    var inner := s[1..i];
    if seenScope {
      assert inner[..from - 2] == s[1..from - 1] && inner[from - 1..] == s[from..i];
      IndexOfUnique(inner, '%', from - 2);
    } else {
      IndexOfUnique(inner, '%', |inner|);
      assert inner[..|inner|] == inner;
    }
  }

  lemma PercentInside(s: string, from: nat, i: nat, seenScope: bool, close: nat)
    requires i < close < |s| && s[i] == '%' && InBracket(s, from, i, seenScope)
    ensures seenScope ==> !BracketInner(s[1..close])
    ensures !seenScope && BracketInner(s[1..close]) ==> IPv6Text(s[1..i])
  {
    var inner := s[1..close];
    if seenScope {
      assert inner[..from - 2] == s[1..from - 1];
      IndexOfUnique(inner, '%', from - 2);
      assert inner[from - 1..][i - from] == '%';
    } else {
      assert inner[..i - 1] == s[1..i];
      IndexOfUnique(inner, '%', i - 1);
    }
  }

  lemma QuadIsNotIPv6(s: string)
    requires DottedQuad(s)
    ensures !IPv6Text(s)
  {
    QuadHasNoColon(s);
    if s != "" { OnePiece(s); } else { NoMoreParts(); }
  }

  lemma FirstSlash(s: string, i: nat)
    requires i < |s| && s[i] == '/' && '/' !in s[..i]
    ensures NetworkText(s) <==> PrefixAt(s, i)
  {
    if k :| PrefixAt(s, k) {
      IndexOfUnique(s, '/', k);
      IndexOfUnique(s, '/', i);
    }
  }

  // ---- IPv4 steps ----------------------------------------------------------

  /** At pos there are exactly j digits, or at least three and j is 3. */
  predicate DigitPrefix(s: string, pos: nat, j: nat) {
    && pos + j <= |s| && j <= 3 && AllDigits(s[pos..pos + j])
    && (j == 3 || pos + j == |s| || !IsDecimal(s[pos + j]))
  }

  lemma ValueSnoc(s: string, pos: nat, j: nat)
    requires pos + j < |s| && AllDigits(s[pos..pos + j]) && IsDecimal(s[pos + j])
    ensures AllDigits(s[pos..pos + j + 1])
    ensures Value(s[pos..pos + j + 1]) == 10 * Value(s[pos..pos + j]) + DigitValue(s[pos + j])
  {
    var t := s[pos..pos + j + 1];
    assert t == s[pos..pos + j] + [s[pos + j]];
    assert t[..j] == s[pos..pos + j];
  }

  /** What a run of j digits at pos leads to, when n octets are due. */
  ghost predicate PartStep(s: string, due: (int, int) -> bool, pos: nat, j: nat, n: int) {
    DigitPrefix(s, pos, j) && pos < |s| && 1 <= n <= 4 ==>
      var good := j > 0 && (j > 1 ==> s[pos] != '0') && Value(s[pos..pos + j]) <= 255;
      if !good then !due(pos, n)
      else if pos + j == |s| then due(pos, n) <==> n == 1
      else if s[pos + j] != '.' then !due(pos, n)
      else due(pos, n) <==> due(pos + j + 1, n - 1)
  }

  ghost function Due(s: string): (int, int) -> bool {
    (pos, n) => 0 <= pos <= |s| && Octets(s[pos..], n)
  }

  /** The states of the scan: due(pos, n) holds when n octets start at pos. */
  lemma QuadStates(s: string) returns (due: (int, int) -> bool)
    ensures due(0, 4) <==> DottedQuad(s)
    ensures forall pos: nat, j: nat, n :: PartStep(s, due, pos, j, n)
    ensures (forall n :: !due(|s|, n)) && (forall pos :: !due(pos, 0))
  {
    due := Due(s);
    assert s[0..] == s;
    NoMoreParts();
    forall n ensures !due(|s|, n) { assert s[|s|..] == ""; }
    forall pos: nat, j: nat, n ensures PartStep(s, due, pos, j, n) {
      if DigitPrefix(s, pos, j) && pos < |s| && 1 <= n <= 4 { PartHere(s, pos, j, n); }
    }
  }

  lemma PartHere(s: string, pos: nat, j: nat, n: int)
    requires DigitPrefix(s, pos, j) && pos < |s| && 1 <= n <= 4
    ensures PartStep(s, Due(s), pos, j, n)
  {
    var t := s[pos..];
    assert t[..j] == s[pos..pos + j];
    FirstPart(t, j);
    if 0 < j < |t| && t[j] == '.' && (j > 1 ==> t[0] != '0') && Value(t[..j]) <= 255 {
      StepOctets(t, j, n);
      assert t[j + 1..] == s[pos + j + 1..];
    }
  }

  lemma FirstPart(t: string, j: nat)
    requires j <= |t| && j <= 3 && AllDigits(t[..j])
    requires j == 3 || j == |t| || !IsDecimal(t[j])
    ensures Octet(Split(t, '.')[0]) ==> j > 0 && (j > 1 ==> t[0] != '0') && Value(t[..j]) <= 255
    ensures Octet(Split(t, '.')[0]) && j < |t| ==> t[j] == '.'
    ensures j == |t| ==> Split(t, '.') == [t] && t[..j] == t
  {
    var k := IndexOf(t, '.');
    if j == |t| {
      assert t[..j] == t;
      DigitsFree(t, '.');
      SplitWithout(t, '.');
    } else {
      assert Split(t, '.')[0] == t[..k];
      assert k < j ==> IsDigit(t[..j][k]);
      assert Octet(t[..k]) && k > j ==> IsDigit(t[..k][j]);
    }
  }

  lemma NoMoreParts()
    ensures forall n :: !Octets("", n)
  {
    SplitWithout("", '.');
    assert Split("", '.')[0] == "";
  }

  lemma StepOctets(t: string, j: nat, n: int)
    requires j < |t| && t[j] == '.' && AllDigits(t[..j]) && 1 <= j <= 3
    requires (j > 1 ==> t[0] != '0') && Value(t[..j]) <= 255
    ensures Octets(t, n) <==> Octets(t[j + 1..], n - 1)
  {
    DigitsFree(t[..j], '.');
    SplitAt(t, '.', j);
    var parts, rest := Split(t, '.'), Split(t[j + 1..], '.');
    assert Octet(parts[0]);
    assert forall k :: 0 <= k < |rest| ==> parts[k + 1] == rest[k];
  }

  // ---- IPv6 steps ----------------------------------------------------------

  /** At pos there are exactly j hexadecimal digits, or at least four and j is 4. */
  predicate HexPrefix(s: string, pos: int, j: int) {
    && 0 <= pos < |s| && 0 <= j <= 4 && pos + j <= |s|
    && (forall k :: pos <= k < pos + j ==> IsHex(s[k]))
    && (j == 4 || pos + j == |s| || !IsHex(s[pos + j]))
  }

  /** What must follow for the whole text to be accepted. */
  ghost predicate Remaining(t: string, next: char, i: int, seenColon: bool) {
    if seenColon then AfterElision(t, i)
    else BeforeElision(t, i) || (next == ':' && Groups(t) && Width(t) + i <= 7)
  }

  /** The checks before the loop. */
  lemma Opening(s: string, next: char)
    ensures |s| < 2 ==> !AcceptsIPv6(s, next)
    ensures |s| >= 2 && s[0] == ':' && s[1] != ':' ==> !AcceptsIPv6(s, next)
    ensures |s| >= 2 && s[|s| - 1] == ':' && s[|s| - 2] != ':' ==> !AcceptsIPv6(s, next)
    ensures |s| >= 2 && s[0] != ':' ==> (AcceptsIPv6(s, next) <==> Remaining(s[0..], next, 0, false))
    ensures |s| >= 2 && s[0] == ':' && s[1] == ':' ==> (AcceptsIPv6(s, next) <==> Remaining(s[1..], next, 0, false))
  {
    if s == "" {
      SplitWithout("", ':');
      SplitWithout("", '.');
    } else {
      StartOfText(s);
    }
    if |s| >= 2 {
      if s[|s| - 1] == ':' && s[|s| - 2] != ':' { SingleTrailingColon(s); }
      if s[0] == ':' { LeadingColon(s); }
      if s[0] == ':' && s[1] == ':' { LeadingColon(s[1..]); }
      assert s[0..] == s;
    }
  }

  lemma SingleTrailingColon(s: string)
    requires |s| >= 2 && s[|s| - 1] == ':' && s[|s| - 2] != ':'
    ensures !IPv6Text(s) && !Groups(s)
  {
    TrailingColon(s);
    if p :| ElidedAt(s, p) { TrailingColon(s[p + 2..]); }
  }

  lemma {:induction false} TrailingColon(s: string)
    requires s != "" && s[|s| - 1] == ':'
    ensures !MixedGroups(s) && !Groups(s)
    decreases |s|
  {
    var k := IndexOf(s, ':');
    var u := s[k + 1..];
    SplitAt(s, ':', k);
    var parts := Split(s, ':');
    assert parts[1..] == Split(u, ':');
    if u == "" {
      SplitWithout(u, ':');
      SplitWithout(u, '.');
      assert parts[1] == "" && parts[1..] == [parts[1]];
      assert !MixedParts(parts[1..]) && !AllHexGroups(parts[1..]);
    } else {
      TrailingColon(u);
    }
  }

  /** What a "::" at pos leads to. */
  ghost predicate ElisionStep(s: string, live: (int, int, bool) -> bool, pos: int, i: int) {
    && (pos + 1 == |s| ==> live(pos, i, false))
    && (pos + 1 < |s| && i == 7 ==> !live(pos, i, false))
    && (pos + 1 < |s| ==> (live(pos, i, false) <==> live(pos + 1, i + 1, true)))
  }

  /** What a run of j hexadecimal digits at pos leads to. */
  ghost predicate GroupStep(s: string, next: char, live: (int, int, bool) -> bool, quad: int -> bool,
                            pos: int, j: int, i: int, seenColon: bool)
  {
    HexPrefix(s, pos, j) ==>
      var here := live(pos, i, seenColon);
      if j == 0 then !here
      else if pos + j == |s| then
        if seenColon || i == 7 then here else (here <==> next == ':') && !quad(pos)
      else if i == 7 then !here
      else if s[pos + j] != ':' then
        (here <==> quad(pos) && (seenColon || i == 6)) && (s[pos + j] != '.' ==> !quad(pos))
      else if pos + j == |s| - 1 then s[|s| - 2] != ':'
      else here <==> live(pos + j + 1, i + 1, seenColon)
  }

  ghost predicate QuadOracle(s: string, quad: int -> bool) {
    forall pos {:trigger quad(pos)} :: 0 <= pos <= |s| ==> (quad(pos) <==> DottedQuad(s[pos..]))
  }

  /** How the states follow from one another and from the start. */
  ghost predicate ScanSteps(s: string, next: char, live: (int, int, bool) -> bool, quad: int -> bool, accepts: bool) {
    && (|s| < 2 ==> !accepts)
    && (|s| >= 2 && s[0] == ':' && s[1] != ':' ==> !accepts)
    && (|s| >= 2 && s[|s| - 1] == ':' && s[|s| - 2] != ':' ==> !accepts)
    && (|s| >= 2 && s[0] != ':' ==> (accepts <==> live(0, 0, false)))
    && (|s| >= 2 && s[0] == ':' && s[1] == ':' ==> (accepts <==> live(1, 0, false)))
    && (forall pos, i :: 0 <= pos < |s| && s[pos] == ':' && 0 <= i <= 7 ==> ElisionStep(s, live, pos, i))
    && (forall pos, j, i, seenColon :: 0 <= pos < |s| && 0 <= i <= 7 && (s[pos] == ':' ==> seenColon) ==>
          GroupStep(s, next, live, quad, pos, j, i, seenColon))
  }

  ghost function Live(s: string, next: char): (int, int, bool) -> bool {
    (pos, i, seenColon) => 0 <= pos <= |s| && Remaining(s[pos..], next, i, seenColon)
  }

  ghost function QuadsOf(s: string): int -> bool {
    pos => 0 <= pos <= |s| && DottedQuad(s[pos..])
  }

  /** The states of the scan: live(pos, i, seenColon) holds when the text from
      pos on completes an address after i groups. */
  lemma ScanStates(s: string, next: char)
    returns (live: (int, int, bool) -> bool, quad: int -> bool, accepts: bool)
    ensures accepts <==> AcceptsIPv6(s, next)
    ensures QuadOracle(s, quad)
    ensures ScanSteps(s, next, live, quad, accepts)
  {
    live, quad, accepts := Live(s, next), QuadsOf(s), AcceptsIPv6(s, next);
    Opening(s, next);
    forall pos, i | 0 <= pos < |s| && s[pos] == ':' && 0 <= i <= 7 ensures ElisionStep(s, live, pos, i) {
      ElisionHere(s, pos, next, i);
    }
    forall pos, j, i, seenColon | 0 <= pos < |s| && 0 <= i <= 7 && (s[pos] == ':' ==> seenColon)
      ensures GroupStep(s, next, live, quad, pos, j, i, seenColon)
    {
      if HexPrefix(s, pos, j) { GroupHere(s, pos, j, next, i, seenColon); }
    }
  }

  /** A colon where a group could start, before any "::". */
  lemma ElisionHere(s: string, pos: nat, next: char, i: int)
    requires pos < |s| && s[pos] == ':' && 0 <= i <= 7
    ensures ElisionStep(s, Live(s, next), pos, i)
  {
    var t := s[pos..];
    LeadingColon(t);
    if p :| p > 0 && LaterElision(t, p, i) { LeadingColon(t[..p]); }
    assert LaterElision(t, 0, i) <==> AtMost(t[1..], 7 - i);
    assert t[1..] == s[pos + 1..];
    EmptyWidth();
  }

  /** Everything the loop concludes from a run of j hexadecimal digits. */
  lemma GroupHere(s: string, pos: nat, j: nat, next: char, i: int, seenColon: bool)
    requires HexPrefix(s, pos, j) && 0 <= i <= 7 && (s[pos] == ':' ==> seenColon)
    ensures GroupStep(s, next, Live(s, next), QuadsOf(s), pos, j, i, seenColon)
  {
    var t := s[pos..];
    assert HexPrefix(t, 0, j) by { assert forall k :: 0 <= k < |t| ==> t[k] == s[pos + k]; }
    if j > 0 && s[pos + j..] != "" && s[pos + j] == ':' {
      ColonAfterGroup(s, pos, j, next, i, seenColon);
    } else if j == 0 {
      NoGroup(t, next, i, seenColon);
    } else if j == |t| {
      LastGroup(t, next, i, seenColon);
    } else {
      BrokenOff(t, j, next, i, seenColon);
    }
  }

  lemma ColonAfterGroup(s: string, pos: nat, j: nat, next: char, i: int, seenColon: bool)
    requires HexPrefix(s, pos, j) && 0 <= i <= 7 && 0 < j < |s| - pos && s[pos + j] == ':'
    ensures GroupStep(s, next, Live(s, next), QuadsOf(s), pos, j, i, seenColon)
  {
    assert IsHex(s[pos + j - 1]);
    if i == 7 {
      LiveTooMany(s, pos, j, next, seenColon);
    } else if pos + j < |s| - 1 {
      LiveStep(s, pos, j, next, i, seenColon);
    }
  }

  lemma LiveTooMany(s: string, pos: nat, j: nat, next: char, seenColon: bool)
    requires HexPrefix(s, pos, j) && 0 < j < |s| - pos && s[pos + j] == ':'
    ensures !Live(s, next)(pos, 7, seenColon)
  {
    RestOfRest(s, pos, j);
    TooMany(s[pos..], j, next, seenColon);
  }

  lemma LiveStep(s: string, pos: nat, j: nat, next: char, i: int, seenColon: bool)
    requires HexPrefix(s, pos, j) && 0 < j < |s| - 1 - pos && s[pos + j] == ':'
    ensures Live(s, next)(pos, i, seenColon) <==> Live(s, next)(pos + j + 1, i + 1, seenColon)
  {
    RemainingStep(s, pos, j, next, i, seenColon);
  }

  lemma RemainingStep(s: string, pos: nat, j: nat, next: char, i: int, seenColon: bool)
    requires HexPrefix(s, pos, j) && 0 < j < |s| - 1 - pos && s[pos + j] == ':'
    ensures Remaining(s[pos..], next, i, seenColon) == Remaining(s[pos + j + 1..], next, i + 1, seenColon)
  {
    RestOfRest(s, pos, j);
    StepRemaining(s[pos..], j, next, i, seenColon);
  }

  lemma RestOfRest(s: string, pos: nat, j: nat)
    requires HexPrefix(s, pos, j) && 0 < j < |s| - pos
    ensures HexGroup(s[pos..][..j]) && s[pos..][j] == s[pos + j] && s[pos..][j + 1..] == s[pos + j + 1..]
  {
    assert s[pos..][..j] == s[pos..pos + j];
  }

  lemma NoGroup(t: string, next: char, i: int, seenColon: bool)
    requires t != "" && !IsHex(t[0]) && (t[0] == ':' ==> seenColon)
    ensures !Remaining(t, next, i, seenColon)
  {
    if t[0] == ':' {
      LeadingColon(t);
    } else {
      NotAGroup(t, 0);
      if t[0] == '.' {
        IndexOfUnique(t, '.', 0);
        assert Split(t, '.')[0] == "";
      }
    }
  }

  lemma LastGroup(t: string, next: char, i: int, seenColon: bool)
    requires HexGroup(t) && 0 <= i <= 7
    ensures seenColon || i == 7 ==> Remaining(t, next, i, seenColon)
    ensures !seenColon && i < 7 ==> (Remaining(t, next, i, seenColon) <==> next == ':')
    ensures !DottedQuad(t)
  {
    HexIsNotPunctuation(t);
    OnePiece(t);
  }

  lemma TooMany(t: string, j: nat, next: char, seenColon: bool)
    requires 0 < j < |t| && HexGroup(t[..j]) && t[j] == ':'
    ensures !Remaining(t, next, 7, seenColon)
  {
    SplitGroup(t, j);
    assert |Split(t, ':')| >= 2;
  }

  lemma BrokenOff(t: string, j: nat, next: char, i: int, seenColon: bool)
    requires 0 < j < |t| && HexPrefix(t, 0, j) && t[j] != ':' && i <= 7
    ensures Remaining(t, next, i, seenColon) <==> DottedQuad(t) && (if seenColon then i <= 6 else i == 6)
    ensures t[j] != '.' ==> !DottedQuad(t)
  {
    NotAGroup(t, j);
  }

  lemma StepRemaining(t: string, j: nat, next: char, i: int, seenColon: bool)
    requires j < |t| - 1 && HexGroup(t[..j]) && t[j] == ':'
    ensures Remaining(t, next, i, seenColon) <==> Remaining(t[j + 1..], next, i + 1, seenColon)
  {
    StepMixed(t, j);
    StepBefore(t, j, i);
    StepAfter(t, j, i);
  }
}
