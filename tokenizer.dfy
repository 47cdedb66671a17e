/** The streaming tokenizer: a fixed buffer, a read cursor `bufp` and a
    fill end `bufe` over a byte source. Each operation consumes a prefix of
    `Remaining()`, the bytes not yet consumed, and its contract says which
    prefix (through the functions of Scanning) and what it wrote. */
module JsonTokenizer {
  import opened Lexicon
  import opened Streams
  import opened Scanning
  import opened Extraction

  /** The buffer size `New` uses. */
  const DefaultSize: nat := 64

  class Tokenizer {
    var src: Source
    const buf: array<byte>
    var bufp: nat
    var bufe: nat

    /** The cursor invariant `0 <= bufp <= bufe <= len(buf)`, over a buffer
        that holds at least one byte. */
    ghost predicate Valid()
      reads this
    {
      bufp <= bufe <= buf.Length && 0 < buf.Length
    }

    /** The unread bytes already in the buffer. */
    ghost function Buffered(): seq<byte>
      reads this, buf
      requires Valid()
    {
      buf[bufp..bufe]
    }

    /** Every byte not yet consumed: the buffered ones, then the source's. */
    ghost function Remaining(): seq<byte>
      reads this, buf
      requires Valid()
    {
      buf[bufp..bufe] + src.pending
    }

    constructor NewWithSize(source: Source, size: nat)
      requires 0 < size
      ensures Valid() && fresh(buf) && buf.Length == size
      ensures src == source && bufp == 0 && bufe == 0 && Remaining() == source.pending
    {
      src := source;
      buf := new byte[size];
      bufp, bufe := 0, 0;
    }

    constructor New(source: Source)
      ensures Valid() && fresh(buf) && buf.Length == DefaultSize
      ensures src == source && bufp == 0 && bufe == 0 && Remaining() == source.pending
    {
      src := source;
      buf := new byte[DefaultSize];
      bufp, bufe := 0, 0;
    }

    /** Rebinds the tokenizer to `source`, keeping the same buffer. */
    method Reset(source: Source)
      requires Valid()
      modifies this
      ensures Valid() && src == source && bufp == 0 && bufe == 0
      ensures Remaining() == source.pending
    {
      bufp := 0;
      bufe := 0;
      src := source;
    }

    /** Discards the buffered bytes and reads the next chunk into the
        buffer, or reports what the source reports at its end. */
    method Refill() returns (err: Option<Error>)
      requires Valid()
      modifies this, buf
      ensures Valid() && bufp == 0 && src.broken == old(src.broken)
      ensures Remaining() == old(src.pending)
      ensures old(src.pending) == [] ==> err == Some(src.EndErr()) && bufe == 0 && src == old(src)
      ensures old(src.pending) != [] ==>
        err == None && bufe == old(src).ReadSize(buf.Length) && src == old(src).After(bufe)
    {
      bufp := 0;
      if src.pending == [] {
        bufe := 0;
        err := Some(src.EndErr());
      } else {
        var k := src.ReadSize(buf.Length);
        forall i | 0 <= i < k {
          buf[i] := src.pending[i];
        }
        bufe := k;
        assert buf[0..bufe] == src.pending[..k];
        src := src.After(k);
        err := None;
      }
    }

    /** Skips whitespace, refilling as needed, and leaves the cursor on the
        first other byte, which it returns. */
    method Peek() returns (c: byte, err: Option<Error>)
      requires Valid()
      modifies this, buf
      ensures Valid() && src.broken == old(src.broken)
      ensures Peeked(old(Remaining()), old(src.EndErr()), c, err, Remaining()) == true
      ensures err.None? ==> bufp < bufe && buf[bufp] == c
    {
      ghost var s, end := Remaining(), src.EndErr();
      ghost var done: nat := 0;
      var e: Option<Error> := None;
      while true
        invariant Valid() && src.broken == old(src.broken) && src.EndErr() == end
        invariant Skipping(s, done, Remaining()) == true
        invariant e.Some? ==> e == Some(src.EndErr()) && bufe == 0 && src.pending == []
        decreases |src.pending|, if e.None? then 1 else 0
      {
        ghost var rest := src.pending;
        var found, d := SkipBuffered(s, done);
        if found {
          return d, None;
        }
        if e.Some? {
          SkipEnd(s, done, src.EndErr());
          return 0, e;
        }
        done := done + bufe - bufp;
        e := Refill();
        assert Remaining() == rest;
      }
    }

    /** The buffer-level part of Peek: moves the cursor over the whitespace
        at the front of the buffer when a byte that is not whitespace
        follows it there (`found`), and leaves it in place otherwise. `s`
        is the stream Peek started on, of which `done` bytes were passed. */
    method SkipBuffered(ghost s: seq<byte>, ghost done: nat) returns (found: bool, c: byte)
      requires Valid() && Skipping(s, done, Remaining())
      modifies this
      ensures Valid() && src == old(src) && bufe == old(bufe)
      ensures var b := old(Buffered()); var k := SkipWs(b);
        (found <==> k < |b|) && bufp == old(bufp) + (if found then k else 0)
      ensures found ==> Peeked(s, src.EndErr(), c, None, Remaining()) == true && buf[bufp] == c
      ensures !found ==> Skipping(s, done + bufe - bufp, src.pending) == true
    {
      ghost var b := buf[bufp..bufe];
      var i := bufp;
      while i < bufe && IsWs(buf[i])
        invariant bufp <= i <= bufe && forall j :: 0 <= j < i - bufp ==> IsWs(b[j])
      {
        i := i + 1;
      }
      SkipWsIs(b, i - bufp);
      found := i < bufe;
      c := 0;
      if found {
        SkipStops(s, done, b, src.pending, src.EndErr());
        bufp := i;
        c := buf[i];
        assert Buffered() == b[i - old(bufp)..];
      } else {
        SkipPasses(s, done, b, src.pending);
      }
    }

    /** Returns the next token. Structural tokens are consumed; for a string
        or a number the cursor is left on its first byte; `true`, `false`
        and `null` are matched in full. */
    method Token() returns (tok: TokType, err: Option<Error>)
      requires Valid()
      modifies this, buf
      ensures Valid() && src.broken == old(src.broken)
      ensures Tokenized(old(Remaining()), old(src.EndErr()), tok, err, Remaining()) == true
      ensures err.Some? && err.value.InvalidJson? ==> err.value.rest == Buffered()
      ensures err.None? && (tok == TokString || tok == TokNumber) ==> bufp < bufe
    {
      ghost var s, end := Remaining(), src.EndErr();
      var c;
      c, err := Peek();
      ghost var p := Remaining();
      if err.Some? {
        LexEndPath(s, end, c, err, p);
        return TokNull, err;
      }
      var t := TokLookup(c);
      if t == TokNull {
        tok, err := ReadLiteral(s, end, c);
        return tok, err;
      }
      if IsPunctuation(t) {
        Consume();
      }
      LexOneBytePath(s, end, c, p, Remaining());
      return t, None;
    }

    /** Consumes the byte at the cursor. */
    method Consume()
      requires Valid() && bufp < bufe
      modifies this
      ensures Valid() && src == old(src) && bufe == old(bufe) && bufp == old(bufp) + 1
      ensures Remaining() == old(Remaining())[1..]
    {
      SliceTail(buf, bufp, bufe);
      DropOne(buf[bufp..bufe], src.pending);
      bufp := bufp + 1;
    }

    /** Token's branch for a lead byte `toklookup` does not map: a `t`,
        `f` or `n` starts the matching literal, any other byte is invalid
        JSON and is reported with the buffered bytes from it on. */
    method ReadLiteral(ghost s: seq<byte>, ghost end: Error, c: byte) returns (tok: TokType, err: Option<Error>)
      requires Valid() && end == src.EndErr() && TokLookup(c) == TokNull
      requires Peeked(s, end, c, None, Remaining()) && bufp < bufe && buf[bufp] == c
      modifies this, buf
      ensures Valid() && src.broken == old(src.broken)
      ensures Tokenized(s, end, tok, err, Remaining()) == true
      ensures tok.TokTrue? || tok.TokFalse? || tok.TokNull?
      ensures err.Some? && err.value.InvalidJson? ==> err.value.rest == Buffered()
    {
      ghost var p := Remaining();
      var w: seq<byte>;
      if c == 't' as byte {
        tok, w := TokTrue, TrueWord;
      } else if c == 'f' as byte {
        tok, w := TokFalse, FalseWord;
      } else if c == 'n' as byte {
        tok, w := TokNull, NullWord;
      } else {
        LexUnmappedPath(s, end, c, p, buf[bufp..bufe]);
        return TokNull, Some(InvalidJson(buf[bufp..bufe]));
      }
      err := ReadWord(w);
      LexLiteralPath(s, end, c, p, w, tok, err, Remaining());
    }

    /** Matches the literal `w` byte by byte, refilling when the buffer runs
        out, and stops at the first byte that differs. */
    method ReadWord(w: seq<byte>) returns (err: Option<Error>)
      requires Valid()
      modifies this, buf
      ensures Valid() && src.broken == old(src.broken)
      ensures WordRead(old(Remaining()), w, old(src.EndErr()), err, Remaining()) == true
    {
      ghost var s := Remaining();
      for i := 0 to |w|
        invariant Valid() && src.broken == old(src.broken)
        invariant i <= |s| && Remaining() == s[i..] && i <= WordMatch(s, w)
      {
        err := MatchByte(s, w, i);
        if err.Some? {
          return err;
        }
      }
      WordReadAt(s, w, src.EndErr(), |w|);
      return None;
    }

    /** One pass of ReadWord's loop: refills the buffer if it is used up,
        then compares the byte at the cursor with `w[i]` and consumes it
        when they agree. An error ends ReadWord with what it returns. */
    method MatchByte(ghost s: seq<byte>, w: seq<byte>, i: nat) returns (err: Option<Error>)
      requires Valid() && i < |w| && i <= |s| && Remaining() == s[i..] && i <= WordMatch(s, w)
      modifies this, buf
      ensures Valid() && src.broken == old(src.broken)
      ensures err.Some? ==> WordRead(s, w, src.EndErr(), err, Remaining()) == true
      ensures err.None? ==> i < |s| && Remaining() == s[i + 1..] && i + 1 <= WordMatch(s, w)
    {
      var e := Fill();
      if e.Some? {
        WordReadAt(s, w, src.EndErr(), i);
        if e == Some(EOF) {
          return Some(ExpectedGotEOF(w));
        }
        return e;
      }
      ghost var b := buf[bufp..bufe];
      SliceTail(buf, bufp, bufe);
      WordStep(s, w, i, b, src.pending);
      if buf[bufp] != w[i] {
        WordReadAt(s, w, src.EndErr(), i);
        return Some(ExpectedGot(w, buf[bufp], i));
      }
      bufp := bufp + 1;
      err := None;
    }

    /** ReadWord's refill step: refills the buffer when the cursor has
        reached its end, so that a byte is buffered unless the input is
        used up, in which case the source's end is reported. */
    method Fill() returns (err: Option<Error>)
      requires Valid()
      modifies this, buf
      ensures Valid() && src.broken == old(src.broken) && Remaining() == old(Remaining())
      ensures err.None? ==> bufp < bufe
      ensures err.Some? ==> Remaining() == [] && err == Some(src.EndErr())
    {
      err := None;
      if bufe == bufp {
        assert Remaining() == src.pending;
        err := Refill();
      }
    }

    /** Writes the run of number bytes at the cursor to `into`, refilling
        as needed, and leaves the cursor on the first byte after the run.
        Reaching the end of the input ends the number without an error.
        `out` is the sink afterwards. */
    method ReadNumber(into: Sink) returns (n: nat, err: Option<Error>, out: Sink)
      requires Valid()
      modifies this, buf
      ensures Valid() && src.broken == old(src.broken)
      ensures Extracted(old(Remaining()), NumRun(old(Remaining())), 0, src.broken, into, n, err, out, Remaining())
    {
      ghost var s := Remaining();
      n, out, err := 0, into, None;
      var stop := false;
      while !stop
        invariant Valid() && src.broken == old(src.broken)
        invariant !stop ==> NumberSoFar(s, into, n, out, Remaining())
        invariant stop ==> Extracted(s, NumRun(s), 0, src.broken, into, n, err, out, Remaining())
        decreases if stop then 0 else |src.pending| + 1
      {
        n, err, out, stop := NumberRound(s, into, n, out);
      }
    }

    /** One pass of ReadNumber's loop over the buffered bytes `b`, the
        first `n` bytes of the number `s` being already written to `out`:
        writes the run of number bytes that starts `b`. When the run ends
        inside `b`, or the write fails, ReadNumber returns (`stop`), the
        cursor moved to the end of the run unless the write failed; when it
        fills `b`, the buffer is refilled, and a refill that finds the end
        of the input stops too, its EOF reported as success. */
    method NumberRound(ghost s: seq<byte>, ghost into: Sink, n: nat, out: Sink)
      returns (n': nat, err: Option<Error>, out': Sink, stop: bool)
      requires Valid() && NumberSoFar(s, into, n, out, Remaining())
      modifies this, buf
      ensures Valid() && src.broken == old(src.broken)
      ensures stop ==> Extracted(s, NumRun(s), 0, src.broken, into, n', err, out', Remaining()) == true
      ensures !stop ==> NumberSoFar(s, into, n', out', Remaining()) == true
                        && |src.pending| < old(|src.pending|)
    {
      ghost var b, rest := Buffered(), src.pending;
      var w, ended, e := NumberChunk(out);
      n', out' := n + w.count, w.sink;
      stop := ended || w.err.Some? || e.Some?;
      err := if ended || w.err.Some? then w.err else if e == Some(EOF) then None else e;
      NumberOutcome(s, src.broken, into, n, out, b, rest, w, ended, e, src.EndErr(), Remaining(), n', out', stop, err);
    }

    /** The scan of NumberChunk: the length of the run of number bytes at
        the cursor, up to the end of the buffer. */
    method FindRunEnd() returns (m: nat)
      requires Valid()
      ensures m == NumRun(Buffered()) && m <= bufe - bufp
    {
      ghost var b := buf[bufp..bufe];
      m := 0;
      while m < bufe - bufp && IsNumByte(buf[bufp + m])
        invariant m <= bufe - bufp && forall j :: 0 <= j < m ==> IsNumByte(b[j])
      {
        m := m + 1;
      }
      NumRunIs(b, m);
    }

    /** The buffer-level part of a NumberRound: writes the run of number
        bytes at the cursor, up to the end of the buffer, to `out`. When
        the run ends inside the buffer (`ended`) the cursor moves to its
        end, unless the write failed; when it fills the buffer and the
        write succeeded, the buffer is refilled and `err` is what the
        refill reported. */
    method NumberChunk(out: Sink) returns (w: Written, ended: bool, err: Option<Error>)
      requires Valid()
      modifies this, buf
      ensures Valid() && src.broken == old(src.broken)
      ensures var b := old(Buffered()); var m := NumRun(b);
        w == out.Write(b[..m]) && (ended <==> m < |b|)
        && (w.err.Some? ==> err == None && Remaining() == old(Remaining()))
        && (w.err.None? && ended ==> err == None && Remaining() == b[m..] + old(src.pending))
        && (w.err.None? && !ended ==>
              Remaining() == old(src.pending)
              && (err.Some? ==> old(src.pending) == [] && err == Some(src.EndErr()))
              && (err.None? ==> |src.pending| < |old(src.pending)|))
    {
      ghost var b := buf[bufp..bufe];
      var m := FindRunEnd();
      var i := bufp + m;
      SubSlice(buf, bufp, i, bufe);
      w := out.Write(buf[bufp..i]);
      assert w == out.Write(b[..m]);
      ended := i < bufe;
      err := None;
      if w.err.None? {
        if ended {
          bufp := i;
          assert buf[bufp..bufe] == b[m..];
        } else {
          err := Refill();
        }
      }
    }

    /** Skips the opening quote, then writes every byte up to the first
        quote not immediately preceded by a backslash to `into`, refilling
        as needed, and consumes that closing quote. Reaching the end of the
        input ends the string without an error. `out` is the sink
        afterwards. */
    method ReadString(into: Sink) returns (n: nat, err: Option<Error>, out: Sink)
      requires Valid() && bufp < bufe
      modifies this, buf
      ensures Valid() && src.broken == old(src.broken)
      ensures Extracted(old(Remaining())[1..], CloseAt(old(Remaining())[1..], 0), 1, src.broken,
                        into, n, err, out, Remaining())
    {
      ghost var b := Buffered();
      DropFront(old(Remaining()), 0, b, src.pending);
      bufp := bufp + 1;
      assert Buffered() == b[1..];
      ghost var s := Remaining();
      n, out, err := 0, into, None;
      var prev: byte := 0;
      var stop := false;
      while !stop
        invariant Valid() && src.broken == old(src.broken)
        invariant !stop ==> StringSoFar(s, into, n, prev, out, Remaining())
        invariant stop ==> Extracted(s, CloseAt(s, 0), 1, src.broken, into, n, err, out, Remaining())
        decreases if stop then 0 else |src.pending| + 1
      {
        n, err, out, prev, stop := StringRound(s, into, n, out, prev);
      }
    }

    /** One pass of ReadString's loop over the buffered bytes `b`, the
        first `n` bytes of the string `s` being already written to `out`
        and `prev` being the byte before `b`: writes what precedes the
        closing quote in `b`, or all of `b`. When the quote is in `b`, the
        cursor moves past it and ReadString returns (`stop`); it also
        returns when the write fails; otherwise the buffer is refilled, and
        a refill that finds the end of the input stops too, its EOF
        reported as success. `prev'` is the byte before the new buffer. */
    method StringRound(ghost s: seq<byte>, ghost into: Sink, n: nat, out: Sink, prev: byte)
      returns (n': nat, err: Option<Error>, out': Sink, prev': byte, stop: bool)
      requires Valid() && StringSoFar(s, into, n, prev, out, Remaining())
      modifies this, buf
      ensures Valid() && src.broken == old(src.broken)
      ensures stop ==> Extracted(s, CloseAt(s, 0), 1, src.broken, into, n', err, out', Remaining()) == true
      ensures !stop ==> StringSoFar(s, into, n', prev', out', Remaining()) == true
                        && |src.pending| < old(|src.pending|)
    {
      ghost var b, rest := Buffered(), src.pending;
      var w, last, ended, e := StringChunk(prev, out);
      n', out', prev' := n + w.count, w.sink, last;
      stop := ended || w.err.Some? || e.Some?;
      err := if ended || w.err.Some? then w.err else if e == Some(EOF) then None else e;
      StringOutcome(s, src.broken, into, n, out, prev, b, rest, w, last, ended, e, src.EndErr(), Remaining(), n', out', stop, err);
    }

    /** The scan of StringChunk: the offset from the cursor of the first
        buffered byte that closes the string, `prev` being the byte before
        the buffered ones, and the byte before that offset. */
    method FindClose(prev: byte) returns (m: nat, last: byte)
      requires Valid()
      ensures m == CloseAt(Buffered(), prev) && m <= bufe - bufp
      ensures last == if m == 0 then prev else Buffered()[m - 1]
    {
      ghost var b := buf[bufp..bufe];
      m, last := 0, prev;
      while m < bufe - bufp && !(buf[bufp + m] == QUOTE && last != BACKSLASH)
        invariant m <= bufe - bufp && forall j :: 0 <= j < m ==> !Closes(b, prev, j)
        invariant last == if m == 0 then prev else b[m - 1]
      {
        last := buf[bufp + m];
        m := m + 1;
      }
      CloseAtIs(b, prev, m);
    }

    /** The buffer-level part of a StringRound: scans the buffered bytes
        for the closing quote, `prev` being the byte before them, and
        writes what precedes it to `out`; `last` is the byte before the
        stop. When the quote is in the buffer (`ended`) the cursor moves
        past it, even after a failed write; otherwise, unless the write
        failed, the buffer is refilled and `err` is what the refill
        reported. */
    method StringChunk(prev: byte, out: Sink) returns (w: Written, last: byte, ended: bool, err: Option<Error>)
      requires Valid()
      modifies this, buf
      ensures Valid() && src.broken == old(src.broken)
      ensures var b := old(Buffered()); var m := CloseAt(b, prev);
        w == out.Write(b[..m]) && (last == if m == 0 then prev else b[m - 1]) && (ended <==> m < |b|)
        && (ended ==> err == None && Remaining() == b[m + 1..] + old(src.pending))
        && (!ended && w.err.Some? ==> err == None && Remaining() == old(Remaining()))
        && (!ended && w.err.None? ==>
              Remaining() == old(src.pending)
              && (err.Some? ==> old(src.pending) == [] && err == Some(src.EndErr()))
              && (err.None? ==> |src.pending| < |old(src.pending)|))
    {
      ghost var b := buf[bufp..bufe];
      var i;
      i, last := FindClose(prev);
      SubSlice(buf, bufp, bufp + i, bufe);
      w := out.Write(buf[bufp..bufp + i]);
      assert w == out.Write(b[..i]);
      ended := i < bufe - bufp;
      err := None;
      if ended {
        bufp := bufp + i + 1;
        assert buf[bufp..bufe] == b[i + 1..];
      } else if w.err.None? {
        err := Refill();
      }
    }
  }
}
