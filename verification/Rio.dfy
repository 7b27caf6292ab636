/** Buffered input and robust output in place: proxy/csapp.c:446-567. */
module Rio {
  import opened RioStream
  import opened Sequences

  const RIO_BUFSIZE: nat := 8192

  /** A descriptor to read from. */
  class Source {
    var script: seq<Arrival>

    constructor (script: seq<Arrival>)
      ensures this.script == script
    {
      this.script := script;
    }

    /** `read`: the number of bytes put at `at`, 0 at the end of file, or -1. */
    method Read(dst: array<bv8>, at: nat, n: nat) returns (nread: int, interrupted: bool)
      requires Sensible(script) && n > 0 && at + n <= dst.Length
      modifies this, dst
      ensures script == AfterRead(old(script), n)
      ensures interrupted == (old(script) != [] && old(script)[0].Interrupted?)
      ensures nread == if old(script) != [] && !old(script)[0].Data? then -1 else |Handed(old(script), n)|
      ensures nread >= 0 ==> at + nread <= dst.Length && dst[at..at + nread] == Handed(old(script), n)
      ensures dst[..at] == old(dst[..at])
    {
      var bytes := Handed(script, n);
      assert |bytes| <= n;
      interrupted := script != [] && script[0].Interrupted?;
      nread := if script != [] && !script[0].Data? then -1 else |bytes|;
      script := AfterRead(script, n);
      var i := 0;
      while i < |bytes|
        invariant script == AfterRead(old(script), n)
        invariant 0 <= i <= |bytes| <= n && dst[..at] == old(dst[..at])
        invariant forall j | 0 <= j < i :: dst[at + j] == bytes[j]
      {
        dst[at + i] := bytes[i];
        i := i + 1;
      }
    }
  }

  /** A `rio_t`. */
  class Buffer {
    const source: Source
    const buf: array<bv8>
    var cnt: int
    var bufptr: nat

    ghost predicate Valid()
      reads this, source, buf
    {
      && buf.Length == RIO_BUFSIZE && Sensible(source.script)
      && bufptr <= buf.Length && cnt <= buf.Length - bufptr
    }

    /** The bytes that are still to come: what the buffer holds, then what will arrive. */
    ghost function Remaining(): seq<bv8>
      requires Valid()
      reads this, source, buf
    {
      (if cnt > 0 then buf[bufptr..bufptr + cnt] else []) + Stream(source.script)
    }

    /** `rio_readinitb`. */
    constructor (source: Source)
      requires Sensible(source.script)
      ensures Valid() && Remaining() == Stream(source.script) && this.source == source && fresh(buf)
    {
      this.source := source;
      buf := new bv8[RIO_BUFSIZE](_ => 0);
      cnt, bufptr := 0, 0;
    }

    /** The refill loop of `rio_read`; `rc` is 1 when the buffer has bytes, 0 at the end of file, -1 for an error. */
    method Refill() returns (rc: int)
      requires Valid()
      modifies this, source, buf
      ensures Valid() && Remaining() == old(Remaining()) && -1 <= rc <= 1
      ensures rc == 1 ==> cnt > 0
      ensures rc == 0 ==> Remaining() == []
      ensures Failures(source.script) + (if rc == -1 then 1 else 0) == Failures(old(source.script))
    {
      while cnt <= 0
        invariant Valid() && Remaining() == old(Remaining()) && Failures(source.script) == Failures(old(source.script))
        decreases if cnt > 0 then 0 else |source.script| + 1
      {
        ReadTakes(source.script, RIO_BUFSIZE);
        var interrupted;
        cnt, interrupted := source.Read(buf, 0, RIO_BUFSIZE);
        if cnt < 0 {
          if !interrupted {
            return -1;
          }
        } else if cnt == 0 {
          return 0;
        } else {
          bufptr := 0;
        }
      }
      rc := 1;
    }

    /** `rio_read`: at most `n` bytes at `at`, at least one if there is any. */
    method ReadSome(usr: array<bv8>, at: nat, n: nat) returns (rc: int)
      requires Valid() && n > 0 && at + n <= usr.Length && usr != buf
      modifies this, source, buf, usr
      ensures Valid() && -1 <= rc <= n && usr[..at] == old(usr[..at])
      ensures rc > 0 ==>
              rc <= |old(Remaining())| && usr[at..at + rc] == old(Remaining())[..rc]
              && Remaining() == old(Remaining())[rc..]
      ensures 0 < rc < n ==> cnt == 0
      ensures rc == 0 ==> old(Remaining()) == [] && Remaining() == []
      ensures rc == -1 ==> Remaining() == old(Remaining())
      ensures Failures(source.script) + (if rc == -1 then 1 else 0) == Failures(old(source.script))
    {
      rc := Refill();
      if rc <= 0 {
        return;
      }
      var count := n;
      if cnt < n {
        count := cnt;
      }
      TakeOut(usr, at, count);
      rc := count;
    }

    /** The copy at the end of `rio_read`, of bytes that the buffer has. */
    method TakeOut(usr: array<bv8>, at: nat, count: nat)
      requires Valid() && 0 < count <= cnt && at + count <= usr.Length && usr != buf
      modifies this, usr
      ensures Valid() && usr[..at] == old(usr[..at]) && count <= |old(Remaining())|
      ensures usr[at..at + count] == old(Remaining())[..count] && Remaining() == old(Remaining())[count..]
      ensures cnt == old(cnt) - count
    {
      ghost var unread, rest := buf[bufptr..bufptr + cnt], Stream(source.script);
      CopyOut(usr, at, count);
      assert unread[..count] == buf[bufptr..bufptr + count];
      bufptr := bufptr + count;
      cnt := cnt - count;
      assert unread[count..] == buf[bufptr..bufptr + cnt];
      assert (unread + rest)[..count] == unread[..count];
      assert (unread + rest)[count..] == unread[count..] + rest;
    }

    /** `memcpy` from the internal buffer. */
    method CopyOut(usr: array<bv8>, at: nat, count: nat)
      requires bufptr + count <= buf.Length && at + count <= usr.Length && usr != buf
      modifies usr
      ensures usr[at..at + count] == buf[bufptr..bufptr + count] && usr[..at] == old(usr[..at])
    {
      var i := 0;
      while i < count
        invariant 0 <= i <= count && usr[..at] == old(usr[..at]) && usr[at..at + i] == buf[bufptr..bufptr + i]
      {
        usr[at + i] := buf[bufptr + i];
        assert usr[at..at + (i + 1)] == usr[at..at + i] + [buf[bufptr + i]];
        assert buf[bufptr..bufptr + (i + 1)] == buf[bufptr..bufptr + i] + [buf[bufptr + i]];
        i := i + 1;
      }
    }

    /** One round of `rio_readnb`'s loop: the next bytes go to `at`. */
    method NextPiece(usr: array<bv8>, at: nat, n: nat, ghost all: seq<bv8>) returns (got: int)
      requires Valid() && n > 0 && at + n <= usr.Length && usr != buf && Taken(all, usr[..], Remaining(), at)
      modifies this, source, buf, usr
      ensures Valid() && -1 <= got <= n
      ensures got > 0 ==> Taken(all, usr[..], Remaining(), at + got)
      ensures got == 0 ==> at == |all| && Taken(all, usr[..], Remaining(), at)
      ensures Failures(source.script) + (if got == -1 then 1 else 0) == Failures(old(source.script))
    {
      ghost var before := usr[..at];
      assert usr[..][..at] == before;
      got := ReadSome(usr, at, n);
      if got >= 0 {
        Forward(all, at, got);
        assert usr[..][..at + got] == before + usr[at..at + got];
      }
    }

    /** `rio_readnb`: the next `n` bytes, or all that are left; -1 exactly when `read` has failed. */
    method ReadN(usr: array<bv8>, n: nat) returns (rc: int)
      requires Valid() && n <= usr.Length && usr != buf
      modifies this, source, buf, usr
      ensures Valid() && rc >= -1
      ensures rc >= 0 ==>
              rc == Length(old(Remaining()), Call.ReadN(n)) <= usr.Length
              && usr[..rc] == old(Remaining())[..rc]
      ensures rc >= 0 ==> rc == n || rc == |old(Remaining())| < n
      ensures rc >= 0 ==> Remaining() == old(Remaining())[rc..]
      ensures Failures(source.script) + (if rc == -1 then 1 else 0) == Failures(old(source.script))
    {
      ghost var all := Remaining();
      var left: nat, at: nat := n, 0;
      while left > 0
        invariant Valid() && at + left == n && Taken(all, usr[..], Remaining(), at)
        invariant Failures(source.script) == Failures(old(source.script))
        decreases left
      {
        var nread := NextPiece(usr, at, left, all);
        if nread < 0 {
          return -1;
        }
        if nread == 0 {
          break;
        }
        left := left - nread;
        at := at + nread;
      }
      rc := n - left;
      assert usr[..rc] == usr[..][..rc];
    }

    /** One byte for `rio_readlineb`. */
    method ReadByte() returns (rc: int, c: bv8)
      requires Valid()
      modifies this, source, buf
      ensures Valid() && -1 <= rc <= 1
      ensures rc == 1 ==> old(Remaining()) != [] && c == old(Remaining())[0] && Remaining() == old(Remaining())[1..]
      ensures rc == 0 ==> old(Remaining()) == [] && Remaining() == []
      ensures Failures(source.script) + (if rc == -1 then 1 else 0) == Failures(old(source.script))
    {
      var one := new bv8[1];
      rc := ReadSome(one, 0, 1);
      c := one[0];
      assert rc == 1 ==> c == one[0..1][0];
    }

    /** One round of `rio_readlineb`'s loop: the next byte goes to `at`. */
    method NextOfLine(usr: array<bv8>, at: nat, ghost all: seq<bv8>) returns (got: int, c: bv8)
      requires Valid() && at < usr.Length && usr != buf && Taken(all, usr[..], Remaining(), at)
      modifies this, source, buf, usr
      ensures Valid() && -1 <= got <= 1
      ensures got == 1 ==> at < |all| && c == all[at] && Taken(all, usr[..], Remaining(), at + 1)
      ensures got == 0 ==> at == |all| && Taken(all, usr[..], Remaining(), at)
      ensures Failures(source.script) + (if got == -1 then 1 else 0) == Failures(old(source.script))
    {
      ghost var before := usr[..][..at];
      got, c := ReadByte();
      if got == 1 {
        Forward(all, at, 1);
        usr[at] := c;
        assert usr[..][..at + 1] == before + [c];
      }
    }

    /**
     * The loop of `rio_readlineb`: the bytes of the line, counted; `more` is false when it met the end of file at once.
     */
    method CollectLine(usr: array<bv8>, maxlen: nat, ghost all: seq<bv8>, ghost limit: nat)
      returns (rc: int, more: bool)
      requires Valid() && maxlen <= usr.Length && usr != buf
      requires all == Remaining() && limit == if maxlen == 0 then 0 else maxlen - 1
      modifies this, source, buf, usr
      ensures Valid() && rc >= -1 && (more <==> rc > 0 || (rc == 0 && maxlen <= 1))
      ensures rc >= 0 ==> rc == LineLength(all, 0, limit) && Taken(all, usr[..], Remaining(), rc)
      ensures Failures(source.script) + (if rc == -1 then 1 else 0) == Failures(old(source.script))
    {
      var at: nat := 0;
      var n := 1;
      while n < maxlen
        invariant Valid() && n == at + 1 && at <= limit && Taken(all, usr[..], Remaining(), at)
        invariant GoesOn(all, at, limit)
        invariant Failures(source.script) == Failures(old(source.script))
        decreases maxlen - n
      {
        LineStep(all, at, limit);
        var got, c := NextOfLine(usr, at, all);
        if got < 0 {
          return -1, false;
        }
        if got == 0 {
          return at, n > 1;
        }
        at := at + 1;
        n := n + 1;
        if c == NEWLINE {
          return at, true;
        }
      }
      rc, more := at, true;
    }

    /**
     * `rio_readlineb`: the next line, cut at `maxlen - 1` bytes; a terminating zero follows unless nothing was left.
     */
    method ReadLine(usr: array<bv8>, maxlen: nat) returns (rc: int)
      requires Valid() && maxlen <= usr.Length && usr.Length > 0 && usr != buf
      modifies this, source, buf, usr
      ensures Valid() && rc >= -1
      ensures rc >= 0 ==>
              rc == Length(old(Remaining()), Call.ReadLine(maxlen)) < usr.Length
              && usr[..rc] == old(Remaining())[..rc]
      ensures rc >= 0 ==> IsLine(old(Remaining()), usr[..rc], if maxlen == 0 then 0 else maxlen - 1)
      ensures rc >= 0 ==> Remaining() == old(Remaining())[rc..]
      ensures rc > 0 || (rc == 0 && maxlen <= 1) ==> usr[rc] == 0
      ensures Failures(source.script) + (if rc == -1 then 1 else 0) == Failures(old(source.script))
    {
      var more;
      ghost var all, limit := Remaining(), if maxlen == 0 then 0 else maxlen - 1;
      rc, more := CollectLine(usr, maxlen, all, limit);
      if rc >= 0 {
        assert usr[..rc] == usr[..][..rc];
      }
      if more {
        ghost var line := usr[..rc];
        usr[rc] := 0;
        assert usr[..rc] == line;
      }
      if rc >= 0 {
        LengthAnswers(all, Call.ReadLine(maxlen));
      }
    }
  }

  /** One call by a program that brings its own buffer; `ok` is false when `read` has failed. */
  method MakeCall(b: Buffer, c: Call) returns (ok: bool, result: seq<bv8>)
    requires b.Valid()
    modifies b, b.source, b.buf
    ensures b.Valid()
    ensures ok ==> var s, k := old(b.Remaining()), Length(old(b.Remaining()), c);
            result == s[..k] && b.Remaining() == s[k..] && Answers(s, c, result)
    ensures Failures(b.source.script) + (if ok then 0 else 1) == Failures(old(b.source.script))
  {
    LengthAnswers(b.Remaining(), c);
    var rc: int;
    var usr: array<bv8>;
    match c {
      case ReadN(n) =>
        usr := new bv8[n];
        rc := b.ReadN(usr, n);
      case ReadLine(maxlen) =>
        usr := new bv8[if maxlen == 0 then 1 else maxlen];
        rc := b.ReadLine(usr, maxlen);
    }
    ok := rc >= 0;
    result := if ok then usr[..rc] else [];
  }

  /**
   * A program that mixes the calls, up to the first that fails: it gets consecutive pieces of the stream, and every
   * byte stays in place.
   */
  method MakeCalls(b: Buffer, calls: seq<Call>) returns (results: seq<seq<bv8>>, ok: bool)
    requires b.Valid()
    modifies b, b.source, b.buf
    ensures b.Valid() && |results| <= |calls| && results == Returned(old(b.Remaining()), calls[..|results|])
    ensures AllAnswer(old(b.Remaining()), calls[..|results|], results)
    ensures ok <==> Failures(b.source.script) == Failures(old(b.source.script))
    ensures ok ==> |results| == |calls| && b.Remaining() == Left(old(b.Remaining()), calls)
    ensures ok ==> Joined(results) + b.Remaining() == old(b.Remaining())
    ensures Failures(old(b.source.script)) == 0 ==> ok
  {
    ghost var all := b.Remaining();
    results, ok := [], true;
    for i := 0 to |calls|
      invariant b.Valid() && ok && |results| == i
      invariant results == Returned(all, calls[..i]) && b.Remaining() == Left(all, calls[..i])
      invariant Failures(b.source.script) == Failures(old(b.source.script))
    {
      var result;
      ok, result := MakeCall(b, calls[i]);
      if !ok {
        ReturnedAnswers(all, calls[..i]);
        return;
      }
      OneMoreCall(all, calls[..i], calls[i]);
      assert calls[..i + 1] == calls[..i] + [calls[i]];
      results := results + [result];
    }
    assert calls[..|calls|] == calls;
    ReturnedAnswers(all, calls);
    PiecesJoin(all, calls);
  }

  /** The first `k` bytes of `all` have been put at the start of `usr`, and `rest` is still to come. */
  ghost predicate Taken(all: seq<bv8>, usr: seq<bv8>, rest: seq<bv8>, k: nat) {
    k <= |all| && k <= |usr| && usr[..k] == all[..k] && rest == all[k..]
  }

  /** A descriptor to write to. */
  class Sink {
    var rooms: seq<Room>
    var written: seq<bv8>

    constructor (rooms: seq<Room>)
      ensures this.rooms == rooms && written == []
    {
      this.rooms, written := rooms, [];
    }

    /** `write`: the number of bytes taken, or -1. */
    method Write(src: array<bv8>, at: nat, n: nat) returns (nwritten: int, interrupted: bool)
      requires n > 0 && at + n <= src.Length
      modifies this
      ensures rooms == if old(rooms) == [] then [] else old(rooms)[1..]
      ensures interrupted == (old(rooms) != [] && old(rooms)[0].Busy?)
      ensures nwritten <= 0 <==> old(rooms) != [] && !old(rooms)[0].TakesUpTo?
      ensures nwritten <= n && written == if nwritten <= 0 then old(written) else old(written) + src[at..at + nwritten]
    {
      var room := if rooms == [] then TakesUpTo(n) else rooms[0];
      rooms := if rooms == [] then [] else rooms[1..];
      interrupted := room.Busy?;
      if room.TakesUpTo? {
        nwritten := if room.more + 1 < n then room.more + 1 else n;
        written := written + src[at..at + nwritten];
      } else {
        nwritten := -1;
      }
    }
  }

  /** `rio_writen`: all `n` bytes are written in order; -1 exactly when `write` has failed, after a part of them. */
  method WriteN(sink: Sink, src: array<bv8>, n: nat) returns (rc: int)
    requires n <= src.Length
    modifies sink
    ensures rc == n || rc == -1
    ensures rc == n ==> sink.written == old(sink.written) + src[..n]
    ensures rc == -1 ==> exists k :: 0 <= k < n && sink.written == old(sink.written) + src[..k]
    ensures Breaks(sink.rooms) + (if rc == -1 then 1 else 0) == Breaks(old(sink.rooms))
  {
    var left: nat, at: nat := n, 0;
    ghost var before := sink.written;
    assert src[..0] == [];
    while left > 0
      invariant at + left == n && sink.written == before + src[..at] && Breaks(sink.rooms) == Breaks(old(sink.rooms))
      decreases left, |sink.rooms|
    {
      ghost var rooms := sink.rooms;
      var nwritten, interrupted := sink.Write(src, at, left);
      if nwritten <= 0 {
        if !interrupted {
          assert at < n && sink.written == before + src[..at];
          return -1;
        }
        nwritten := 0;
      }
      assert src[..at + nwritten] == src[..at] + src[at..at + nwritten];
      left := left - nwritten;
      at := at + nwritten;
    }
    rc := n;
  }

  /** The line goes on after its first `at` bytes, or ends there at the limit or at the end of the stream. */
  ghost predicate GoesOn(s: seq<bv8>, at: nat, limit: nat) {
    at <= |s| && at <= limit && LineLength(s, 0, limit) == at + LineLength(s, at, limit - at)
  }

  lemma LineStep(s: seq<bv8>, at: nat, limit: nat)
    requires GoesOn(s, at, limit) && at < limit
    ensures at == |s| ==> LineLength(s, 0, limit) == at
    ensures at < |s| && s[at] == NEWLINE ==> LineLength(s, 0, limit) == at + 1
    ensures at < |s| && s[at] != NEWLINE ==> GoesOn(s, at + 1, limit)
  {
  }

  /** Going on by `k` bytes. */
  lemma Forward(all: seq<bv8>, at: nat, k: nat)
    requires at + k <= |all|
    ensures all[..at + k] == all[..at] + all[at..][..k] && all[at..][k..] == all[at + k..]
    ensures k == 1 ==> all[at..][..k] == [all[at]] && all[at..][0] == all[at]
  {
  }
}
