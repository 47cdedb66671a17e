/** Facts about the stream that the tokenizer's loops establish one
    buffer at a time, and what the extractors promise. */
module Extraction {
  import opened Lexicon
  import opened Streams
  import opened Scanning

  /** `after` is what is left of `s` once at most `n` of its bytes were
      consumed. */
  predicate ConsumedAtMost(s: seq<byte>, after: seq<byte>, n: nat) {
    |after| <= |s| && after == s[|s| - |after|..] && |s| - |after| <= n
  }

  /** What an extractor promises on the stream `s` whose payload is
      `s[..len]`, followed by `delim` terminator bytes (the closing quote of
      a string; none for a number), when it writes to the sink `into`.
      When the sink has room for the payload, it was appended whole, `n`
      counts it and the stream resumes after the terminator; a payload
      running to the end of the input is not an error unless the source's
      end is a read failure. Otherwise the sink took what it had room for,
      `n` counts exactly that, the write failure is returned, and the
      stream resumes at most `n` bytes in, or after the terminator. */
  predicate Extracted(s: seq<byte>, len: nat, delim: nat, broken: bool, into: Sink,
                      n: nat, err: Option<Error>, out: Sink, after: seq<byte>)
  {
    match into.room
    case Unbounded => Delivered(s, len, delim, broken, into, n, err, out, after)
    case Bounded(left) =>
      if len <= left then Delivered(s, len, delim, broken, into, n, err, out, after)
      else Refused(s, len, delim, left, into, n, err, out, after)
  }

  /** The sink had room for the whole payload. */
  predicate Delivered(s: seq<byte>, len: nat, delim: nat, broken: bool, into: Sink,
                      n: nat, err: Option<Error>, out: Sink, after: seq<byte>)
  {
    len <= |s| && delim <= 1 && into.room.Fits(len)
    && n == len && out == Sink(into.data + s[..len], into.room.Take(len))
    && if len < |s| then
         after == s[len + delim..] && err == None
       else
         after == [] && err == (if broken then Some(ReadFailure) else None)
  }

  /** The sink had room for only `left` bytes of the payload. */
  predicate Refused(s: seq<byte>, len: nat, delim: nat, left: nat, into: Sink,
                    n: nat, err: Option<Error>, out: Sink, after: seq<byte>)
  {
    len <= |s| && delim <= 1
    && n == left < len && out == Sink(into.data + s[..n], Bounded(0)) && err == Some(WriteFailure)
    && (ConsumedAtMost(s, after, n) || (0 < delim && len < |s| && after == s[len + delim..]))
  }

  /** Peek's progress over `s`: the `done` bytes passed are whitespace
      and `r` is the rest of `s`. */
  predicate Skipping(s: seq<byte>, done: nat, r: seq<byte>) {
    done <= |s| && s[done..] == r && done + SkipWs(r) == SkipWs(s)
  }

  /** One buffer's worth of Peek, `b` being buffered and `rest` still
      unread, when the whitespace ends inside `b`: Peek returns the byte
      it ends on. */
  lemma {:induction false} SkipStops(s: seq<byte>, done: nat, b: seq<byte>, rest: seq<byte>, end: Error)
    requires Skipping(s, done, b + rest) && SkipWs(b) < |b|
    ensures Peeked(s, end, b[SkipWs(b)], None, b[SkipWs(b)..] + rest) == true
  {
    SkipWsAppend(b, rest);
    SliceAt(s, done, b, rest, SkipWs(b));
  }

  /** The same when all of `b` is whitespace: the skip goes on into `rest`. */
  lemma {:induction false} SkipPasses(s: seq<byte>, done: nat, b: seq<byte>, rest: seq<byte>)
    requires Skipping(s, done, b + rest) && SkipWs(b) == |b|
    ensures Skipping(s, done + |b|, rest) == true
  {
    SkipWsAppend(b, rest);
    SliceAt(s, done, b, rest, |b|);
    assert b[|b|..] + rest == rest;
  }

  /** Peek ran out of input: everything it passed was whitespace. */
  lemma {:induction false} SkipEnd(s: seq<byte>, done: nat, end: Error)
    requires Skipping(s, done, [])
    ensures Peeked(s, end, 0, Some(end), []) == true
  {
  }

  /** Consuming the first byte of `b + rest`. */
  lemma {:induction false} DropOne(b: seq<byte>, rest: seq<byte>)
    requires b != []
    ensures (b + rest)[1..] == b[1..] + rest
  {
  }

  /** Cutting `b`, the front of `s[done..]`, at `k` cuts `s` at `done + k`. */
  lemma {:induction false} SliceAt(s: seq<byte>, done: nat, b: seq<byte>, rest: seq<byte>, k: nat)
    requires done <= |s| && s[done..] == b + rest && k <= |b|
    ensures done + k <= |s| && s[done + k..] == b[k..] + rest
    ensures k < |b| ==> s[done + k] == b[k]
  {
    assert s[done + k..] == (b + rest)[k..];
    if k < |b| {
      assert s[done + k] == (b + rest)[k];
    }
  }

  /** Consuming the first buffered byte consumes the next byte of `s`. */
  lemma {:induction false} DropFront(s: seq<byte>, i: nat, b: seq<byte>, rest: seq<byte>)
    requires i <= |s| && s[i..] == b + rest && b != []
    ensures i < |s| && s[i] == b[0] && s[i + 1..] == b[1..] + rest
  {
    assert s[i] == s[i..][0];
    assert s[i + 1..] == s[i..][1..];
  }

  /** One byte of ReadWord: the first buffered byte `b[0]`, the next byte
      of `s`, either extends the match of `w` or ends it. */
  lemma {:induction false} WordStep(s: seq<byte>, w: seq<byte>, i: nat, b: seq<byte>, rest: seq<byte>)
    requires i <= |s| && s[i..] == b + rest && b != [] && i < |w| && i <= WordMatch(s, w)
    ensures s[i + 1..] == b[1..] + rest
    ensures b[0] == w[i] ==> i + 1 <= WordMatch(s, w)
    ensures b[0] != w[i] ==> WordMatch(s, w) == i && s[i] == b[0]
  {
    DropFront(s, i, b, rest);
    WordMatchNext(s, w, i);
  }

  /** Splitting `s` where the buffered part `b` of `s[done..]` is cut at `z`. */
  lemma {:induction false} Split(d: seq<byte>, s: seq<byte>, done: nat, b: seq<byte>, rest: seq<byte>, z: nat)
    requires done <= |s| && s[done..] == b + rest && z <= |b|
    ensures done + z <= |s| && d + s[..done] + b[..z] == d + s[..done + z]
    ensures s[done + z..] == b[z..] + rest
  {
    assert s[..done + z] == s[..done] + s[done..][..z];
    assert s[done + z..] == s[done..][z..];
  }

  // ----- The extractors' exits, stated on the stream ------------------------

  /** One round of an extractor: `b`, the buffered part of `s[done..]`, is
      followed by `rest`, and `w` is the write of the first `m` bytes of
      `b` to the sink that holds the first `done` bytes of the payload. */
  predicate Round(s: seq<byte>, into: Sink, done: nat, b: seq<byte>, rest: seq<byte>, m: nat, w: Written) {
    done <= |s| && s[done..] == b + rest && m <= |b| && into.room.Fits(done)
    && w == Sink(into.data + s[..done], into.room.Take(done)).Write(b[..m])
  }

  /** The payload ends `m` bytes into `b`; the cursor moves past the
      terminator, even after a failed write when there is one. */
  lemma {:induction false} ExitAt(s: seq<byte>, len: nat, delim: nat, broken: bool, into: Sink,
               done: nat, b: seq<byte>, rest: seq<byte>, m: nat, w: Written,
               n: nat, err: Option<Error>, out: Sink, after: seq<byte>)
    requires Round(s, into, done, b, rest, m, w) && m + delim < |b| + 1 && m < |b| && delim <= 1
    requires len == done + m && (w.err.Some? ==> 0 < delim)
    requires n == done + w.count && err == w.err && out == w.sink && after == b[m + delim..] + rest
    ensures Extracted(s, len, delim, broken, into, n, err, out, after)
  {
    TakeMore(into.room, done, m);
    Split(into.data, s, done, b, rest, w.count);
    Split(into.data, s, done, b, rest, m + delim);
    assert b[..m][..w.count] == b[..w.count];
  }

  /** A write of part of the payload failed; the cursor stays at the
      start of `b`. */
  lemma {:induction false} ExitWriteFailed(s: seq<byte>, len: nat, delim: nat, broken: bool, into: Sink,
                        done: nat, b: seq<byte>, rest: seq<byte>, m: nat, w: Written,
                        n: nat, err: Option<Error>, out: Sink, after: seq<byte>)
    requires Round(s, into, done, b, rest, m, w) && done + m <= len <= |s| && delim <= 1
    requires w.err.Some? && n == done + w.count && err == w.err && out == w.sink && after == b + rest
    ensures Extracted(s, len, delim, broken, into, n, err, out, after)
  {
    TakeMore(into.room, done, m);
    Split(into.data, s, done, b, rest, w.count);
    assert b[..m][..w.count] == b[..w.count];
    assert s[done..] == s[|s| - |after|..];
  }

  /** The whole of `b` was written and accepted. */
  lemma {:induction false} WroteAll(s: seq<byte>, into: Sink, done: nat, b: seq<byte>, rest: seq<byte>, w: Written,
                 n: nat, out: Sink)
    requires Round(s, into, done, b, rest, |b|, w)
    requires w.err.None? && n == done + w.count && out == w.sink
    ensures n == done + |b| && n <= |s| && s[n..] == rest
    ensures into.room.Fits(n) && out == Sink(into.data + s[..n], into.room.Take(n))
  {
    TakeMore(into.room, done, |b|);
    Split(into.data, s, done, b, rest, |b|);
    assert b[..|b|] == b;
  }

  /** The first `n` payload bytes of `s` are copied: the sink `out` holds
      them after what `into` held, and `r`, the rest of the stream,
      follows them. */
  predicate Copied(s: seq<byte>, into: Sink, n: nat, out: Sink, r: seq<byte>) {
    n <= |s| && r == s[n..] && into.room.Fits(n) && out == Sink(into.data + s[..n], into.room.Take(n))
  }

  /** ReadNumber's progress: the first `n` bytes of the number at the
      front of `s` are written, and what is left of the number is the
      number run at the front of `r`, the rest of `s`. */
  predicate NumberSoFar(s: seq<byte>, into: Sink, n: nat, out: Sink, r: seq<byte>) {
    Copied(s, into, n, out, r) && n + NumRun(r) == NumRun(s)
  }

  /** ReadString's progress: the first `n` bytes of the string payload of
      `s` are written, and what is left of it is what precedes the closing
      quote in `r`, the rest of `s`, whose previous byte is `prev`. */
  predicate StringSoFar(s: seq<byte>, into: Sink, n: nat, prev: byte, out: Sink, r: seq<byte>) {
    Copied(s, into, n, out, r) && n + CloseAt(r, prev) == CloseAt(s, 0)
  }

  /** One round of the number copy: the run of number bytes that starts
      the buffered bytes `b` is written to `out`. */
  lemma {:induction false} NumberStep(s: seq<byte>, broken: bool, into: Sink, n: nat, out: Sink,
                   b: seq<byte>, rest: seq<byte>, m: nat, w: Written)
    requires NumberSoFar(s, into, n, out, b + rest)
    requires m == NumRun(b) && w == out.Write(b[..m])
    ensures w.err.Some? ==>
      Extracted(s, NumRun(s), 0, broken, into, n + w.count, w.err, w.sink, b + rest) == true
    ensures w.err.None? && m < |b| ==>
      Extracted(s, NumRun(s), 0, broken, into, n + w.count, None, w.sink, b[m..] + rest) == true
    ensures w.err.None? && m == |b| ==>
      NumberSoFar(s, into, n + w.count, w.sink, rest) == true
  {
    NumRunAppend(b, rest);
    assert Round(s, into, n, b, rest, m, w);
    if w.err.Some? {
      ExitWriteFailed(s, NumRun(s), 0, broken, into, n, b, rest, m, w, n + w.count, w.err, w.sink, b + rest);
    } else if m < |b| {
      ExitAt(s, NumRun(s), 0, broken, into, n, b, rest, m, w, n + w.count, w.err, w.sink, b[m..] + rest);
    } else {
      WroteAll(s, into, n, b, rest, w, n + w.count, w.sink);
    }
  }

  /** One round of the string copy: the buffered bytes `b` are scanned
      for the closing quote from the byte `prev` before them, and what
      precedes it is written to `out`. */
  lemma {:induction false} StringStep(s: seq<byte>, broken: bool, into: Sink, n: nat, prev: byte, out: Sink,
                   b: seq<byte>, rest: seq<byte>, m: nat, last: byte, w: Written)
    requires StringSoFar(s, into, n, prev, out, b + rest)
    requires m == CloseAt(b, prev) && last == (if m == 0 then prev else b[m - 1]) && w == out.Write(b[..m])
    ensures m < |b| ==>
      Extracted(s, CloseAt(s, 0), 1, broken, into, n + w.count, w.err, w.sink, b[m + 1..] + rest) == true
    ensures m == |b| && w.err.Some? ==>
      Extracted(s, CloseAt(s, 0), 1, broken, into, n + w.count, w.err, w.sink, b + rest) == true
    ensures m == |b| && w.err.None? ==>
      StringSoFar(s, into, n + w.count, last, w.sink, rest) == true
  {
    CloseAtAppend(b, rest, prev);
    assert Round(s, into, n, b, rest, m, w);
    if m < |b| {
      ExitAt(s, CloseAt(s, 0), 1, broken, into, n, b, rest, m, w, n + w.count, w.err, w.sink, b[m + 1..] + rest);
    } else if w.err.Some? {
      ExitWriteFailed(s, CloseAt(s, 0), 1, broken, into, n, b, rest, m, w, n + w.count, w.err, w.sink, b + rest);
    } else {
      WroteAll(s, into, n, b, rest, w, n + w.count, w.sink);
    }
  }

  /** The payload ran to the end of the input, all of it written. */
  lemma {:induction false} ExitEnd(s: seq<byte>, len: nat, delim: nat, broken: bool, into: Sink,
                n: nat, err: Option<Error>, out: Sink)
    requires n == len == |s| && delim <= 1
    requires into.room.Fits(n) && out == Sink(into.data + s[..n], into.room.Take(n))
    requires err == if broken then Some(ReadFailure) else None
    ensures Extracted(s, len, delim, broken, into, n, err, out, [])
  {
  }

  /** What one round of ReadNumber achieves, from what its buffer-level
      part reports. The round stops when the run ends in the buffer, the
      write fails or the refill finds the end of the input, an EOF then
      counting as success. The parameters stand for:
      - `s`, `broken`, `into`: the stream ReadNumber started on, whether
        its source fails at the end, and the sink it was given;
      - `n`, `out`: NumberRound's inputs, the count and sink so far;
      - `b`, `rest`: `Buffered()` and `src.pending` before NumberChunk;
      - `w`, `ended`, `e`: NumberChunk's results (the write of the run at
        the front of `b`, whether the run ended in `b`, what a refill
        reported);
      - `endErr`: `src.EndErr()`; `after`: `Remaining()` after NumberChunk;
      - `n'`, `out'`, `stop`, `err`: NumberRound's results. */
  lemma {:induction false} NumberOutcome(s: seq<byte>, broken: bool, into: Sink, n: nat, out: Sink,
                      b: seq<byte>, rest: seq<byte>, w: Written, ended: bool, e: Option<Error>,
                      endErr: Error, after: seq<byte>, n': nat, out': Sink, stop: bool, err: Option<Error>)
    requires NumberSoFar(s, into, n, out, b + rest)
    requires endErr == if broken then ReadFailure else EOF
    requires var m := NumRun(b);
      w == out.Write(b[..m]) && (ended <==> m < |b|)
      && (w.err.Some? ==> e == None && after == b + rest)
      && (w.err.None? && ended ==> e == None && after == b[m..] + rest)
      && (w.err.None? && !ended ==> after == rest && (e.Some? ==> rest == [] && e == Some(endErr)))
    requires n' == n + w.count && out' == w.sink && (stop <==> ended || w.err.Some? || e.Some?)
    requires err == if ended || w.err.Some? then w.err else if e == Some(EOF) then None else e
    ensures stop ==> Extracted(s, NumRun(s), 0, broken, into, n', err, out', after) == true
    ensures !stop ==> NumberSoFar(s, into, n', out', after) == true
  {
    NumberStep(s, broken, into, n, out, b, rest, NumRun(b), w);
    if !ended && w.err.None? && e.Some? {
      ExitEnd(s, NumRun(s), 0, broken, into, n', err, out');
    }
  }

  /** What one round of ReadString achieves, from what its buffer-level
      part reports. The round stops when the closing quote is in the
      buffer, the write fails or the refill finds the end of the input, an
      EOF then counting as success. The parameters stand for:
      - `s`, `broken`, `into`: the stream after the opening quote, whether
        its source fails at the end, and the sink ReadString was given;
      - `n`, `out`, `prev`: StringRound's inputs, the count and sink so far
        and the byte before the buffered ones;
      - `b`, `rest`: `Buffered()` and `src.pending` before StringChunk;
      - `w`, `last`, `ended`, `e`: StringChunk's results (the write of
        what precedes the quote in `b`, the byte before the stop, whether
        the quote is in `b`, what a refill reported);
      - `endErr`: `src.EndErr()`; `after`: `Remaining()` after StringChunk;
      - `n'`, `out'`, `stop`, `err`: StringRound's results (its `prev'`
        is `last`). */
  lemma {:induction false} StringOutcome(s: seq<byte>, broken: bool, into: Sink, n: nat, out: Sink, prev: byte,
                      b: seq<byte>, rest: seq<byte>, w: Written, last: byte, ended: bool, e: Option<Error>,
                      endErr: Error, after: seq<byte>, n': nat, out': Sink, stop: bool, err: Option<Error>)
    requires StringSoFar(s, into, n, prev, out, b + rest)
    requires endErr == if broken then ReadFailure else EOF
    requires var m := CloseAt(b, prev);
      w == out.Write(b[..m]) && (last == if m == 0 then prev else b[m - 1]) && (ended <==> m < |b|)
      && (ended ==> e == None && after == b[m + 1..] + rest)
      && (!ended && w.err.Some? ==> e == None && after == b + rest)
      && (!ended && w.err.None? ==> after == rest && (e.Some? ==> rest == [] && e == Some(endErr)))
    requires n' == n + w.count && out' == w.sink && (stop <==> ended || w.err.Some? || e.Some?)
    requires err == if ended || w.err.Some? then w.err else if e == Some(EOF) then None else e
    ensures stop ==> Extracted(s, CloseAt(s, 0), 1, broken, into, n', err, out', after) == true
    ensures !stop ==> StringSoFar(s, into, n', last, out', after) == true
  {
    StringStep(s, broken, into, n, prev, out, b, rest, CloseAt(b, prev), last, w);
    if !ended && w.err.None? && e.Some? {
      ExitEnd(s, CloseAt(s, 0), 1, broken, into, n', err, out');
    }
  }

  /** A slice of an array that ends early is a prefix of the longer slice. */
  lemma {:induction false} SubSlice(a: array<byte>, lo: nat, i: nat, hi: nat)
    requires lo <= i <= hi <= a.Length
    ensures a[lo..i] == a[lo..hi][..i - lo]
  {
  }

  /** Dropping the first byte of an array slice. */
  lemma {:induction false} SliceTail(a: array<byte>, lo: nat, hi: nat)
    requires lo < hi <= a.Length
    ensures a[lo] == a[lo..hi][0] && a[lo + 1..hi] == a[lo..hi][1..]
  {
  }
}
