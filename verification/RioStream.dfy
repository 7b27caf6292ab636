/** What buffered reading comes to, whatever pieces the kernel hands out: proxy/csapp.c:412-567. */
module RioStream {
  import opened Sequences

  const NEWLINE: bv8 := 10

  /**
   * What one call of `read` finds: some bytes, an interrupt, or another error; after the last entry comes end of file.
   */
  datatype Arrival = Data(bytes: seq<bv8>) | Interrupted | Failed

  /**
   * What one call of `write` finds: room for one byte and some more, an interrupt, or another error; after the last
   * entry always room.
   */
  datatype Room = TakesUpTo(more: nat) | Busy | Broken

  ghost function Breaks(rooms: seq<Room>): nat {
    if rooms == [] then 0 else (if rooms[0].Broken? then 1 else 0) + Breaks(rooms[1..])
  }

  ghost predicate Sensible(script: seq<Arrival>) {
    forall i | 0 <= i < |script| && script[i].Data? :: |script[i].bytes| > 0
  }

  /** All bytes that will still arrive. */
  ghost function Stream(script: seq<Arrival>): seq<bv8> {
    if script == [] then [] else (if script[0].Data? then script[0].bytes else []) + Stream(script[1..])
  }

  ghost function Failures(script: seq<Arrival>): nat {
    if script == [] then 0 else (if script[0].Failed? then 1 else 0) + Failures(script[1..])
  }

  /** The script after one `read` of at most `n` bytes. */
  function AfterRead(script: seq<Arrival>, n: nat): seq<Arrival> {
    if script == [] then []
    else if script[0].Data? && n < |script[0].bytes| then [Data(script[0].bytes[n..])] + script[1..]
    else script[1..]
  }

  /** The bytes that `read` hands over. */
  function Handed(script: seq<Arrival>, n: nat): seq<bv8> {
    if script == [] || !script[0].Data? then []
    else if n < |script[0].bytes| then script[0].bytes[..n] else script[0].bytes
  }

  lemma FirstArrival(a: Arrival, rest: seq<Arrival>)
    ensures Stream([a] + rest) == (if a.Data? then a.bytes else []) + Stream(rest)
    ensures Failures([a] + rest) == (if a.Failed? then 1 else 0) + Failures(rest)
    ensures Sensible([a] + rest) <==> Sensible(rest) && (a.Data? ==> |a.bytes| > 0)
  {
    var s := [a] + rest;
    assert s[1..] == rest && s[0] == a;
    assert forall i | 0 <= i < |rest| :: s[i + 1] == rest[i];
  }

  /** Reading takes a prefix of the stream. */
  lemma ReadTakes(script: seq<Arrival>, n: nat)
    requires Sensible(script) && n > 0
    ensures Sensible(AfterRead(script, n)) && |Handed(script, n)| <= n
    ensures Stream(script) == Handed(script, n) + Stream(AfterRead(script, n))
    ensures Failures(AfterRead(script, n)) + (if script != [] && script[0].Failed? then 1 else 0) == Failures(script)
  {
    if script != [] {
      assert script == [script[0]] + script[1..];
      ReadOne(script[0], script[1..], n);
    }
  }

  lemma ReadOne(first: Arrival, rest: seq<Arrival>, n: nat)
    requires Sensible([first] + rest) && n > 0
    ensures var s := [first] + rest;
            && Sensible(AfterRead(s, n)) && |Handed(s, n)| <= n
            && Stream(s) == Handed(s, n) + Stream(AfterRead(s, n))
            && Failures(AfterRead(s, n)) + (if first.Failed? then 1 else 0) == Failures(s)
  {
    FirstArrival(first, rest);
    assert ([first] + rest)[1..] == rest;
    if first.Data? && n < |first.bytes| {
      FirstArrival(Data(first.bytes[n..]), rest);
      CutInTwo(first.bytes, n, Stream(rest));
    }
  }

  lemma CutInTwo(b: seq<bv8>, n: nat, rest: seq<bv8>)
    requires n <= |b|
    ensures b[..n] + (b[n..] + rest) == b + rest
  {
  }

  /** The length of the next line: up to the newline, the limit or the end. */
  ghost function LineLength(s: seq<bv8>, from: nat, limit: nat): (k: nat)
    requires from <= |s|
    ensures k <= limit && from + k <= |s|
    decreases limit
  {
    if limit == 0 || from == |s| then 0
    else if s[from] == NEWLINE then 1
    else 1 + LineLength(s, from + 1, limit - 1)
  }

  /** A line ends at its first newline, or has none and ends at the limit or at the end of the stream. */
  lemma {:induction false} LineEnds(s: seq<bv8>, from: nat, limit: nat)
    requires from <= |s|
    ensures var k := LineLength(s, from, limit);
            && (forall i | from <= i < from + k - 1 :: s[i] != NEWLINE)
            && (k == limit || from + k == |s| || (k > 0 && s[from + k - 1] == NEWLINE))
    decreases limit
  {
    if limit > 0 && from < |s| && s[from] != NEWLINE {
      LineEnds(s, from + 1, limit - 1);
    }
  }

  datatype Call = ReadN(n: nat) | ReadLine(maxlen: nat)

  /** How many bytes a call returns; only the stream matters. */
  ghost function Length(s: seq<bv8>, c: Call): (k: nat)
    ensures k <= |s|
  {
    match c
    case ReadN(n) => if n < |s| then n else |s|
    case ReadLine(maxlen) => LineLength(s, 0, if maxlen == 0 then 0 else maxlen - 1)
  }

  /**
   * `r` is the next line of the stream: it has no newline before its last byte, and it ends at a newline, at the limit
   * or at the end of the stream.
   */
  ghost predicate IsLine(s: seq<bv8>, r: seq<bv8>, limit: nat) {
    && |r| <= limit && (forall i | 0 <= i < |r| - 1 :: r[i] != NEWLINE)
    && (|r| == limit || |r| == |s| || (r != [] && r[|r| - 1] == NEWLINE))
  }

  /** `r` is what the source promises of a call on the stream `s`: all it asks for, unless the stream ends before. */
  ghost predicate Answers(s: seq<bv8>, c: Call, r: seq<bv8>) {
    && r <= s
    && match c
       case ReadN(n) => |r| == n || |r| == |s| < n
       case ReadLine(maxlen) => IsLine(s, r, if maxlen == 0 then 0 else maxlen - 1)
  }

  lemma LengthAnswers(s: seq<bv8>, c: Call)
    ensures Answers(s, c, s[..Length(s, c)])
  {
    if c.ReadLine? {
      LineEnds(s, 0, if c.maxlen == 0 then 0 else c.maxlen - 1);
    }
  }

  /** No other bytes would do. */
  lemma AnswersUnique(s: seq<bv8>, c: Call, r: seq<bv8>, t: seq<bv8>)
    requires Answers(s, c, r) && Answers(s, c, t)
    ensures r == t
  {
    assert r == s[..|r|] && t == s[..|t|];
    assert forall i | 0 <= i < |r| && i < |t| :: r[i] == t[i];
    assert |r| == |t|;
  }

  /** Every result is the answer to its call on what the results before it have left. */
  ghost predicate AllAnswer(s: seq<bv8>, calls: seq<Call>, results: seq<seq<bv8>>)
    decreases |calls|
  {
    if calls == [] then results == []
    else
      && results != [] && Answers(s, calls[0], results[0])
      && AllAnswer(s[|results[0]|..], calls[1..], results[1..])
  }

  /** What a mix of calls returns, one after the other. */
  ghost function Returned(s: seq<bv8>, calls: seq<Call>): seq<seq<bv8>>
    decreases |calls|
  {
    if calls == [] then [] else var k := Length(s, calls[0]); [s[..k]] + Returned(s[k..], calls[1..])
  }

  ghost function Left(s: seq<bv8>, calls: seq<Call>): seq<bv8>
    decreases |calls|
  {
    if calls == [] then s else Left(s[Length(s, calls[0])..], calls[1..])
  }

  /** Whatever is called, the results are consecutive pieces of the stream: nothing is lost and nothing comes twice. */
  lemma {:induction false} PiecesJoin(s: seq<bv8>, calls: seq<Call>)
    ensures Joined(Returned(s, calls)) + Left(s, calls) == s
    decreases |calls|
  {
    if calls != [] {
      var k := Length(s, calls[0]);
      PiecesJoin(s[k..], calls[1..]);
      var rest := Returned(s[k..], calls[1..]);
      assert ([s[..k]] + rest)[1..] == rest;
      assert s == s[..k] + s[k..];
    }
  }

  lemma {:induction false} ReturnedAnswers(s: seq<bv8>, calls: seq<Call>)
    ensures AllAnswer(s, calls, Returned(s, calls))
    decreases |calls|
  {
    if calls != [] {
      var k := Length(s, calls[0]);
      LengthAnswers(s, calls[0]);
      ReturnedAnswers(s[k..], calls[1..]);
      assert Returned(s, calls)[1..] == Returned(s[k..], calls[1..]);
    }
  }

  /** One call more returns what the calls before it have left. */
  lemma {:induction false} OneMoreCall(s: seq<bv8>, calls: seq<Call>, c: Call)
    ensures var t := Left(s, calls);
            && Returned(s, calls + [c]) == Returned(s, calls) + [t[..Length(t, c)]]
            && Left(s, calls + [c]) == t[Length(t, c)..]
    decreases |calls|
  {
    var all := calls + [c];
    if calls == [] {
      assert all[0] == c && all[1..] == [];
    } else {
      var k := Length(s, calls[0]);
      assert all[0] == calls[0] && all[1..] == calls[1..] + [c];
      OneMoreCall(s[k..], calls[1..], c);
    }
  }
}
