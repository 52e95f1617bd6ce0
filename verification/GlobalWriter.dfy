// The front end that cuts a stream of runtime output into ring lines.
module GlobalWriter {
  import opened Text
  import RingLog

  const CAPACITY := RingLog.MAX_LOG_LINE_LENGTH - 1 - RingLog.MAX_TAG_LENGTH - 3

  function Concat(chunks: seq<string>): string {
    if chunks == [] then "" else Concat(chunks[..|chunks| - 1]) + chunks[|chunks| - 1]
  }

  /** A chunk goes out because it holds a line end or because it is full. */
  predicate Due(chunk: string) {
    chunk != "" && |chunk| <= CAPACITY && ('\n' in chunk || |chunk| == CAPACITY)
  }

  class Writer {
    const buffer: array<char>
    var location: nat
    ghost var fed: string
    ghost var flushed: seq<string>

    /** No byte is lost, doubled or out of order. */
    ghost predicate Valid()
      reads this, buffer
    {
      && buffer.Length == CAPACITY && location <= CAPACITY
      && Concat(flushed) + buffer[..location] == fed
      && (forall i :: 0 <= i < |flushed| ==> Due(flushed[i]))
      && '\n' !in buffer[..location]
    }

    constructor ()
      ensures Valid() && fed == "" && fresh(buffer)
    {
      buffer := new char[CAPACITY](_ => '\0');
      location := 0;
      fed := "";
      flushed := [];
    }

    /** Only the last chunk of a call may have room left, and then nothing stays
        behind in the buffer. */
    ghost predicate Greedy(from: nat)
      reads this
    {
      forall i :: from <= i < |flushed| && |flushed[i]| < CAPACITY ==> i == |flushed| - 1 && location == 0
    }

    method Write(b: string) returns (n: nat)
      requires Valid()
      modifies this, buffer
      ensures Valid() && n == |b| && fed == old(fed) + b
      ensures |old(flushed)| <= |flushed| && flushed[..|old(flushed)|] == old(flushed)
      ensures Greedy(|old(flushed)|)
    {
      var rest := b;
      while |rest| > 0
        invariant Valid() && fed + rest == old(fed) + b
        invariant |old(flushed)| <= |flushed| && flushed[..|old(flushed)|] == old(flushed)
        invariant Greedy(|old(flushed)|)
        invariant rest != "" ==> forall i :: |old(flushed)| <= i < |flushed| ==> |flushed[i]| == CAPACITY
        decreases |rest|, location
      {
        rest := Step(rest);
      }
      return |b|;
    }

    /** One round: a full buffer takes nothing and is only flushed. */
    method Step(b: string) returns (rest: string)
      requires Valid() && b != ""
      modifies this, buffer
      ensures Valid() && fed + rest == old(fed) + b
      ensures |rest| < |b| || (rest == b && location < old(location))
      ensures rest != "" ==> flushed != old(flushed)
      ensures flushed == old(flushed)
              || (flushed != [] && flushed == old(flushed) + [flushed[|flushed| - 1]] && location == 0
                  && (rest != "" ==> |flushed[|flushed| - 1]| == CAPACITY))
    {
      var available := buffer.Length - location;
      var amount: nat := |b|;
      if amount > available { amount := available; }
      var taken := b[..amount];
      rest := b[amount..];
      CopyIn(taken);
      TakeStep(flushed, old(buffer[..location]), taken, rest, b, fed);
      location := location + amount;
      fed := fed + taken;
      var foundNl := FindNewline(location - amount);
      if foundNl || |rest| > 0 {
        Flush();
      }
    }

    method CopyIn(b: string)
      requires location + |b| <= buffer.Length
      modifies buffer
      ensures buffer[..location + |b|] == old(buffer[..location]) + b
      ensures buffer[location..location + |b|] == b
    {
      for i := 0 to |b|
        invariant buffer[..location + i] == old(buffer[..location]) + b[..i]
      {
        buffer[location + i] := b[i];
      }
      assert b[..|b|] == b;
      assert buffer[location..location + |b|] == buffer[..location + |b|][location..];
    }

    method FindNewline(from: nat) returns (found: bool)
      requires from <= location <= buffer.Length
      ensures found <==> '\n' in buffer[from..location]
    {
      var i := from;
      while i < location
        invariant from <= i <= location
        invariant '\n' !in buffer[from..i]
      {
        if buffer[i] == '\n' { return true; }
        i := i + 1;
      }
      return false;
    }

    /** Hands the buffer to the ring. */
    method Flush()
      requires buffer.Length == CAPACITY && location <= CAPACITY && Due(buffer[..location])
      requires Concat(flushed) + buffer[..location] == fed && forall i :: 0 <= i < |flushed| ==> Due(flushed[i])
      modifies this
      ensures Valid() && fed == old(fed) && location == 0
      ensures flushed == old(flushed) + [buffer[..old(location)]]
    {
      ghost var chunk := buffer[..location];
      flushed := flushed + [chunk];
      location := 0;
      assert flushed[..|flushed| - 1] == old(flushed);
      assert Concat(flushed) == Concat(old(flushed)) + chunk;
      assert buffer[..0] == "";
    }
  }

  lemma TakeStep(flushed: seq<string>, before: string, taken: string, rest: string, b: string, fed: string)
    requires Concat(flushed) + before == fed && b == taken + rest
    ensures Concat(flushed) + (before + taken) == fed + taken
    ensures fed + taken + rest == fed + b
  {}

  /** No flushed chunk is cut: all of its message fits in front of the NUL that
      ends a line, whatever the tag. */
  lemma NeverCut(tag: string, chunk: string)
    requires Due(chunk) && |tag| <= RingLog.MAX_TAG_LENGTH
    ensures var text := Trim(chunk, IsAsciiSpace);
            var m := RingLog.Message(tag, text);
            |m| < RingLog.MAX_LOG_LINE_LENGTH && RingLog.Rendered(tag, text) == m + RingLog.Nuls(RingLog.MAX_LOG_LINE_LENGTH - |m|)
            && ('\0' !in tag && '\0' !in text ==> RingLog.Shown(RingLog.Rendered(tag, text)) == m)
  {
    var text := Trim(chunk, IsAsciiSpace);
    TrimEnds(chunk, IsAsciiSpace);
    if '\0' !in tag && '\0' !in text { RingLog.ShownRendered(tag, text); }
  }
}
