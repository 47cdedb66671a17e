/** What the tokenizer does, stated on the stream of bytes it has not yet
    consumed, independently of how that stream is split across buffer
    refills. The methods of JsonTokenizer.Tokenizer are proved against
    these functions.

    Contracts here and in the modules that use them compare predicates
    such as `Peeked` or `Tokenized` with `true`: written that way the
    verifier keeps the predicate folded where the contract is assumed and
    unfolds it only where a proof needs its definition. */
module Scanning {
  import opened Lexicon

  /** The length of the whitespace run at the front of `s`: the bytes
      `peek` skips. SkipWsSpan and SkipWsIs characterise it. */
  function SkipWs(s: seq<byte>): (k: nat)
    ensures k <= |s|
  {
    if s == [] || !IsWs(s[0]) then 0 else 1 + SkipWs(s[1..])
  }

  /** Every byte `SkipWs` skips is whitespace. */
  lemma {:induction false} SkipWsSpan(s: seq<byte>)
    ensures forall i :: 0 <= i < SkipWs(s) ==> IsWs(s[i])
    ensures SkipWs(s) < |s| ==> !IsWs(s[SkipWs(s)])
  {
    if s != [] && IsWs(s[0]) {
      SkipWsSpan(s[1..]);
      forall i | 1 <= i < SkipWs(s) ensures IsWs(s[i]) {
        assert s[i] == s[1..][i - 1];
      }
    }
  }

  /** A whitespace run followed by a non-whitespace byte, or by nothing,
      is what `SkipWs` skips. */
  lemma {:induction false} SkipWsIs(s: seq<byte>, k: nat)
    requires k <= |s| && forall j :: 0 <= j < k ==> IsWs(s[j])
    requires k < |s| ==> !IsWs(s[k])
    ensures SkipWs(s) == k
  {
    if 0 < k {
      assert IsWs(s[0]);
      forall j | 0 <= j < k - 1 ensures IsWs(s[1..][j]) {
        assert s[1..][j] == s[j + 1];
      }
      if k < |s| {
        assert s[1..][k - 1] == s[k];
      }
      SkipWsIs(s[1..], k - 1);
    }
  }

  /** `peek` on the stream `s`: the first byte that is not whitespace is
      returned and left unconsumed, the whitespace before it consumed;
      when there is none, everything is consumed and the source's `end`
      is returned. */
  predicate Peeked(s: seq<byte>, end: Error, c: byte, err: Option<Error>, after: seq<byte>) {
    var k := SkipWs(s);
    if k < |s| then err == None && c == s[k] && after == s[k..]
    else err == Some(end) && after == []
  }

  /** Where the whitespace run of a stream split in two ends does not
      depend on the split: a run that ends inside `b` ends there, and one
      that fills `b` goes on into `rest`. */
  lemma {:induction false} SkipWsAppend(b: seq<byte>, rest: seq<byte>)
    ensures SkipWs(b + rest) == if SkipWs(b) < |b| then SkipWs(b) else |b| + SkipWs(rest)
  {
    if b == [] {
      assert b + rest == rest;
    } else {
      assert (b + rest)[0] == b[0];
      if IsWs(b[0]) {
        assert (b + rest)[1..] == b[1..] + rest;
        SkipWsAppend(b[1..], rest);
      }
    }
  }

  /** The length of the maximal run of number bytes at the front of `s`:
      the payload `ReadNumber` writes. NumRunSpan and NumRunIs
      characterise it. */
  function NumRun(s: seq<byte>): (k: nat)
    ensures k <= |s|
  {
    if s == [] || !IsNumByte(s[0]) then 0 else 1 + NumRun(s[1..])
  }

  /** Every byte of the run is a number byte. */
  lemma {:induction false} NumRunSpan(s: seq<byte>)
    ensures forall i :: 0 <= i < NumRun(s) ==> IsNumByte(s[i])
    ensures NumRun(s) < |s| ==> !IsNumByte(s[NumRun(s)])
  {
    if s != [] && IsNumByte(s[0]) {
      NumRunSpan(s[1..]);
      forall i | 1 <= i < NumRun(s) ensures IsNumByte(s[i]) {
        assert s[i] == s[1..][i - 1];
      }
    }
  }

  /** A run of number bytes followed by another byte, or by nothing, is
      the run `NumRun` measures. */
  lemma {:induction false} NumRunIs(s: seq<byte>, k: nat)
    requires k <= |s| && forall j :: 0 <= j < k ==> IsNumByte(s[j])
    requires k < |s| ==> !IsNumByte(s[k])
    ensures NumRun(s) == k
  {
    if 0 < k {
      assert IsNumByte(s[0]);
      forall j | 0 <= j < k - 1 ensures IsNumByte(s[1..][j]) {
        assert s[1..][j] == s[j + 1];
      }
      if k < |s| {
        assert s[1..][k - 1] == s[k];
      }
      NumRunIs(s[1..], k - 1);
    }
  }

  /** Where the run of number bytes of a stream split in two ends does
      not depend on the split. */
  lemma {:induction false} NumRunAppend(b: seq<byte>, rest: seq<byte>)
    ensures NumRun(b + rest) == if NumRun(b) < |b| then NumRun(b) else |b| + NumRun(rest)
  {
    if b == [] {
      assert b + rest == rest;
    } else {
      assert (b + rest)[0] == b[0];
      if IsNumByte(b[0]) {
        assert (b + rest)[1..] == b[1..] + rest;
        NumRunAppend(b[1..], rest);
      }
    }
  }

  /** Whether the byte at `i` ends a string: a quote whose immediately
      preceding byte is not a backslash. `prev` stands for the byte before
      `s[0]`. */
  predicate Closes(s: seq<byte>, prev: byte, i: nat)
    requires i < |s|
  {
    s[i] == QUOTE && (if i == 0 then prev else s[i - 1]) != BACKSLASH
  }

  /** The index of the first byte of `s` that ends a string, or `|s|` when
      none does: `ReadString` writes `s[..CloseAt(s, 0)]`. Only the single
      previous byte is consulted, so the quote in `\\"` does not close.
      CloseAtSpan and CloseAtIs characterise it. */
  function CloseAt(s: seq<byte>, prev: byte): (k: nat)
    ensures k <= |s|
  {
    if s == [] then 0
    else if s[0] == QUOTE && prev != BACKSLASH then 0
    else 1 + CloseAt(s[1..], s[0])
  }

  /** No byte before the one `CloseAt` finds ends the string. */
  lemma {:induction false} CloseAtSpan(s: seq<byte>, prev: byte)
    ensures forall i :: 0 <= i < CloseAt(s, prev) ==> !Closes(s, prev, i)
    ensures CloseAt(s, prev) < |s| ==> Closes(s, prev, CloseAt(s, prev))
  {
    if s != [] && !(s[0] == QUOTE && prev != BACKSLASH) {
      CloseAtSpan(s[1..], s[0]);
      forall i | 1 <= i < CloseAt(s, prev) ensures !Closes(s, prev, i) {
        assert !Closes(s[1..], s[0], i - 1);
        assert s[i] == s[1..][i - 1];
        assert s[i - 1] == if i == 1 then s[0] else s[1..][i - 2];
      }
    }
  }

  /** The first byte that ends the string is the one `CloseAt` finds. */
  lemma {:induction false} CloseAtIs(s: seq<byte>, prev: byte, k: nat)
    requires k <= |s| && forall j :: 0 <= j < k ==> !Closes(s, prev, j)
    requires k < |s| ==> Closes(s, prev, k)
    ensures CloseAt(s, prev) == k
  {
    if 0 < k {
      assert !Closes(s, prev, 0);
      forall j | 0 <= j < k - 1 ensures !Closes(s[1..], s[0], j) {
        assert !Closes(s, prev, j + 1);
        assert s[1..][j] == s[j + 1];
        assert j > 0 ==> s[1..][j - 1] == s[j];
      }
      if k < |s| {
        assert Closes(s, prev, k);
        assert s[1..][k - 1] == s[k];
        assert k > 1 ==> s[1..][k - 2] == s[k - 1];
      }
      CloseAtIs(s[1..], s[0], k - 1);
    }
  }

  /** Where the string of a stream split in two closes does not depend on
      the split, once the scan of `rest` starts from the last byte of `b`. */
  lemma {:induction false} CloseAtAppend(b: seq<byte>, rest: seq<byte>, prev: byte)
    ensures CloseAt(b + rest, prev) ==
      if CloseAt(b, prev) < |b| then CloseAt(b, prev)
      else |b| + CloseAt(rest, if b == [] then prev else b[|b| - 1])
  {
    if b == [] {
      assert b + rest == rest;
    } else {
      assert (b + rest)[0] == b[0];
      if !(b[0] == QUOTE && prev != BACKSLASH) {
        assert (b + rest)[1..] == b[1..] + rest;
        CloseAtAppend(b[1..], rest, b[0]);
        if 1 < |b| {
          assert b[1..][|b| - 2] == b[|b| - 1];
        }
      }
    }
  }

  /** How many leading bytes of `s` agree with the literal `w`, stopping at
      the first disagreement or where one of them ends. WordMatchSpan and
      WordMatchIs characterise it. */
  function WordMatch(s: seq<byte>, w: seq<byte>): (i: nat)
    ensures i <= |w| && i <= |s|
  {
    if w == [] || s == [] || s[0] != w[0] then 0 else 1 + WordMatch(s[1..], w[1..])
  }

  /** The matched bytes agree. */
  lemma {:induction false} WordMatchSpan(s: seq<byte>, w: seq<byte>)
    ensures forall j :: 0 <= j < WordMatch(s, w) ==> s[j] == w[j]
    ensures WordMatch(s, w) < |w| && WordMatch(s, w) < |s| ==> s[WordMatch(s, w)] != w[WordMatch(s, w)]
  {
    if w != [] && s != [] && s[0] == w[0] {
      WordMatchSpan(s[1..], w[1..]);
      forall j | 1 <= j < WordMatch(s, w) ensures s[j] == w[j] {
        assert s[j] == s[1..][j - 1] && w[j] == w[1..][j - 1];
      }
    }
  }

  /** A common prefix ending at a disagreement, or where one of the two
      ends, is what `WordMatch` measures. */
  lemma {:induction false} WordMatchIs(s: seq<byte>, w: seq<byte>, i: nat)
    requires i <= |s| && i <= |w| && forall j :: 0 <= j < i ==> s[j] == w[j]
    requires i < |w| && i < |s| ==> s[i] != w[i]
    ensures WordMatch(s, w) == i
  {
    if 0 < i {
      assert s[0] == w[0];
      forall j | 0 <= j < i - 1 ensures s[1..][j] == w[1..][j] {
        assert s[1..][j] == s[j + 1] && w[1..][j] == w[j + 1];
      }
      if i < |w| && i < |s| {
        assert s[1..][i - 1] == s[i] && w[1..][i - 1] == w[i];
      }
      WordMatchIs(s[1..], w[1..], i - 1);
    }
  }

  /** Matching one more byte: with the first `i` bytes matched, the match
      stops at `i` exactly when the next bytes differ. */
  lemma {:induction false} WordMatchNext(s: seq<byte>, w: seq<byte>, i: nat)
    requires i <= WordMatch(s, w) && i < |s| && i < |w|
    ensures WordMatch(s, w) == i <==> s[i] != w[i]
  {
    WordMatchSpan(s, w);
  }

  /** The outcome of one call of `Token`: the token returned, the error
      returned, and how many bytes of the stream it consumed. */
  datatype Lexed = Lexed(tok: TokType, err: Option<Error>, used: nat)

  /** `readWord(w)` on the stream `s`: the error it returns and how many
      bytes it consumed. `end` is what the source reports once it has no
      more bytes. */
  function ReadWordSpec(s: seq<byte>, w: seq<byte>, end: Error): (r: (Option<Error>, nat))
    ensures r.1 <= |s|
  {
    var i := WordMatch(s, w);
    if i == |w| then (None, i)
    else if i == |s| then (Some(if end == EOF then ExpectedGotEOF(w) else end), i)
    else (Some(ExpectedGot(w, s[i], i)), i)
  }

  /** `readWord(w)` took the stream `s` to `after`, returning `err`. */
  predicate WordRead(s: seq<byte>, w: seq<byte>, end: Error, err: Option<Error>, after: seq<byte>) {
    var r := ReadWordSpec(s, w, end);
    err == r.0 && after == s[r.1..]
  }

  /** Where `readWord` stops: the first `i` bytes matched, and then the
      literal is complete, the input ended, or the next byte differs. */
  lemma {:induction false} WordReadAt(s: seq<byte>, w: seq<byte>, end: Error, i: nat)
    requires i <= WordMatch(s, w) && i <= |s| && i <= |w|
    ensures i == |w| ==> WordRead(s, w, end, None, s[i..])
    ensures i < |w| && i == |s| ==>
      WordRead(s, w, end, Some(if end == EOF then ExpectedGotEOF(w) else end), s[i..])
    ensures i < |w| && i < |s| && s[i] != w[i] ==> WordRead(s, w, end, Some(ExpectedGot(w, s[i], i)), s[i..])
  {
    if i < |w| && i < |s| {
      WordMatchNext(s, w, i);
    }
  }

  /** What `Token` does with the first byte that is not whitespace. */
  datatype Lead =
    | Structural(t: TokType)            // consumed at once
    | Payload(t: TokType)               // left for an extractor
    | Literal(w: seq<byte>, t: TokType) // matched by readWord
    | Unmapped                          // an invalid-byte error

  function LeadOf(c: byte): Lead {
    var t := TokLookup(c);
    if t == TokNull then
      if c == 't' as byte then Literal(TrueWord, TokTrue)
      else if c == 'f' as byte then Literal(FalseWord, TokFalse)
      else if c == 'n' as byte then Literal(NullWord, TokNull)
      else Unmapped
    else if IsPunctuation(t) then Structural(t)
    else Payload(t)
  }

  /** `Token` on the stream `s`. For an unmapped lead byte the error carries
      the whole rest of the stream; the tokenizer reports the buffered
      part of it (see `Reports`). */
  function Lex(s: seq<byte>, end: Error): (o: Lexed)
    ensures o.used <= |s|
  {
    var k := SkipWs(s);
    if k == |s| then Lexed(TokNull, Some(end), k)
    else
      match LeadOf(s[k])
      case Structural(t) => Lexed(t, None, k + 1)
      case Payload(t) => Lexed(t, None, k)
      case Literal(w, t) => LexWord(s, k, w, t, end)
      case Unmapped => Lexed(TokNull, Some(InvalidJson(s[k..])), k)
  }

  /** `Token` took the stream `s` to `after`, returning `tok` and `err`,
      as `Lex` describes. */
  predicate Tokenized(s: seq<byte>, end: Error, tok: TokType, err: Option<Error>, after: seq<byte>) {
    var o := Lex(s, end);
    tok == o.tok && Reports(err, o.err) && after == s[o.used..]
  }

  // The four ways `Token` goes, each from what `peek` left behind: the
  // lead byte `c` and the stream `p` starting with it.

  lemma {:induction false} LexEndPath(s: seq<byte>, end: Error, c: byte, err: Option<Error>, p: seq<byte>)
    requires end == EOF || end == ReadFailure
    requires Peeked(s, end, c, err, p) && err.Some?
    ensures Tokenized(s, end, TokNull, err, p) == true
  {
    assert s[|s|..] == [];
  }

  lemma {:induction false} LexLiteralPath(s: seq<byte>, end: Error, c: byte, p: seq<byte>,
                                          w: seq<byte>, tok: TokType, err: Option<Error>, after: seq<byte>)
    requires end == EOF || end == ReadFailure
    requires Peeked(s, end, c, None, p) && LeadOf(c) == Literal(w, tok) && WordRead(p, w, end, err, after)
    ensures Tokenized(s, end, tok, err, after) == true
    ensures !(err.Some? && err.value.InvalidJson?)
  {
    var k := SkipWs(s);
    var r := ReadWordSpec(s[k..], w, end);
    assert s[k..][r.1..] == s[k + r.1..];
  }

  lemma {:induction false} LexOneBytePath(s: seq<byte>, end: Error, c: byte, p: seq<byte>, after: seq<byte>)
    requires Peeked(s, end, c, None, p) && (LeadOf(c).Structural? || LeadOf(c).Payload?)
    requires after == if LeadOf(c).Structural? then p[1..] else p
    ensures Tokenized(s, end, LeadOf(c).t, None, after) == true
  {
    var k := SkipWs(s);
    assert s[k..][1..] == s[k + 1..];
  }

  lemma {:induction false} LexUnmappedPath(s: seq<byte>, end: Error, c: byte, p: seq<byte>, rest: seq<byte>)
    requires Peeked(s, end, c, None, p) && LeadOf(c).Unmapped?
    requires 0 < |rest| && rest <= p
    ensures Tokenized(s, end, TokNull, Some(InvalidJson(rest)), p) == true
  {
  }

  /** The literal `w` matched at offset `k`; the token is returned even
      when the match fails. */
  function LexWord(s: seq<byte>, k: nat, w: seq<byte>, tok: TokType, end: Error): (o: Lexed)
    requires k <= |s|
    ensures o.used <= |s|
  {
    var r := ReadWordSpec(s[k..], w, end);
    Lexed(tok, r.0, k + r.1)
  }

  /** The error `actual` is the one `spec` describes, except that an
      invalid-byte error may carry only a non-empty prefix of the rest. */
  predicate Reports(actual: Option<Error>, spec: Option<Error>) {
    if spec.Some? && spec.value.InvalidJson? then
      actual.Some? && actual.value.InvalidJson?
      && 0 < |actual.value.rest| && actual.value.rest <= spec.value.rest
    else actual == spec
  }

  // ----- Properties of Lex ---------------------------------------------------

  /** Whitespace in front of a token changes nothing but the count of
      consumed bytes. */
  lemma {:induction false} LexAfterWhitespace(ws: seq<byte>, rest: seq<byte>, end: Error)
    requires forall i :: 0 <= i < |ws| ==> IsWs(ws[i])
    requires rest != [] && !IsWs(rest[0])
    ensures var o := Lex(rest, end); Lex(ws + rest, end) == o.(used := |ws| + o.used)
  {
    var s := ws + rest;
    assert s[|ws|] == rest[0];
    forall i | 0 <= i < |ws| ensures IsWs(s[i]) {
      assert s[i] == ws[i];
    }
    SkipWsIs(s, |ws|);
    assert s[|ws|..] == rest;
  }

  /** `Token` reports end of input exactly when nothing but whitespace is
      left, and then it has consumed all of it, so the next call reports
      end of input again. */
  lemma {:induction false} LexEndOfInput(s: seq<byte>)
    ensures Lex(s, EOF).err == Some(EOF) <==> forall i :: 0 <= i < |s| ==> IsWs(s[i])
    ensures Lex(s, EOF).err == Some(EOF) ==> Lex(s, EOF).used == |s| && Lex([], EOF).err == Some(EOF)
  {
    var k := SkipWs(s);
    SkipWsSpan(s);
    if k < |s| {
      assert !IsWs(s[k]);
      var c := s[k];
      TablesAgree(c);
      if TokLookup(c) == TokNull && (c == 't' as byte || c == 'f' as byte || c == 'n' as byte) {
        var w := if c == 't' as byte then TrueWord else if c == 'f' as byte then FalseWord else NullWord;
        var i := WordMatch(s[k..], w);
        assert s[k..][0] == w[0];
        assert i > 0;
      }
    }
  }

  /** Structural bytes are consumed at once; a quote or a number's lead
      byte is left for the extractor; any other unmapped byte other than
      `t`, `f`, `n` is an invalid-byte error that consumes nothing. */
  lemma {:induction false} LexClassifies(c: byte, rest: seq<byte>, end: Error)
    requires !IsWs(c)
    ensures IsPunctuation(TokLookup(c)) ==> Lex([c] + rest, end) == Lexed(TokLookup(c), None, 1)
    ensures c == QUOTE ==> Lex([c] + rest, end) == Lexed(TokString, None, 0)
    ensures c == '-' as byte || '0' as byte <= c <= '9' as byte ==>
              Lex([c] + rest, end) == Lexed(TokNumber, None, 0)
    ensures TokLookup(c) == TokNull && c != 't' as byte && c != 'f' as byte && c != 'n' as byte ==>
              Lex([c] + rest, end) == Lexed(TokNull, Some(InvalidJson([c] + rest)), 0)
  {
    assert SkipWs([c] + rest) == 0;
  }

  /** A complete literal is consumed in full with no error, whatever
      follows it. */
  lemma {:induction false} LexLiteral(w: seq<byte>, tok: TokType, rest: seq<byte>, end: Error)
    requires (w, tok) in [(TrueWord, TokTrue), (FalseWord, TokFalse), (NullWord, TokNull)]
    ensures Lex(w + rest, end) == Lexed(tok, None, |w|)
  {
    var s := w + rest;
    assert s[0] == w[0];
    assert SkipWs(s) == 0;
    assert s[0..] == s;
    WordMatchIs(s, w, |w|);
  }

  /** A literal cut short by the end of input reports "expected w got EOF"
      and consumes what there was. */
  lemma {:induction false} LexTruncatedLiteral(w: seq<byte>, tok: TokType, k: nat)
    requires (w, tok) in [(TrueWord, TokTrue), (FalseWord, TokFalse), (NullWord, TokNull)]
    requires 0 < k < |w|
    ensures Lex(w[..k], EOF) == Lexed(tok, Some(ExpectedGotEOF(w)), k)
  {
    var s := w[..k];
    assert s[0] == w[0];
    assert SkipWs(s) == 0;
    assert s[0..] == s;
    WordMatchIs(s, w, k);
  }

  /** After `Token` announced a number, the extractor writes at least the
      lead byte; after it announced a string, the cursor is on the quote. */
  lemma {:induction false} LexPayloadLead(s: seq<byte>, end: Error)
    ensures var o := Lex(s, end);
      o.tok == TokNumber && o.err == None ==> o.used < |s| && NumRun(s[o.used..]) >= 1
    ensures var o := Lex(s, end);
      o.tok == TokString && o.err == None ==> o.used < |s| && s[o.used] == QUOTE
  {
    var k := SkipWs(s);
    if k < |s| {
      TablesAgree(s[k]);
    }
  }

  // ----- Properties of the extractors' payloads -------------------------------

  /** A number followed by a non-number byte, or by nothing, is extracted
      exactly. */
  lemma {:induction false} NumberRoundTrip(num: seq<byte>, rest: seq<byte>)
    requires forall i :: 0 <= i < |num| ==> IsNumByte(num[i])
    requires rest == [] || !IsNumByte(rest[0])
    ensures NumRun(num + rest) == |num|
  {
    NumRunIs(num + rest, |num|);
  }

  /** A payload without a closing quote of its own and not ending in a
      backslash, put between quotes, is extracted exactly. */
  lemma {:induction false} StringRoundTrip(p: seq<byte>, prev: byte, rest: seq<byte>)
    requires CloseAt(p, prev) == |p|
    requires (if p == [] then prev else p[|p| - 1]) != BACKSLASH
    ensures CloseAt(p + [QUOTE] + rest, prev) == |p|
  {
    var s := p + [QUOTE] + rest;
    CloseAtSpan(p, prev);
    forall j | 0 <= j < |p| ensures !Closes(s, prev, j) {
      assert !Closes(p, prev, j) && s[j] == p[j] && (0 < j ==> s[j - 1] == p[j - 1]);
    }
    assert 0 < |p| ==> s[|p| - 1] == p[|p| - 1];
    CloseAtIs(s, prev, |p|);
  }

  /** A quote right after a backslash never ends the string, even when that
      backslash is itself escaped, as in `\\"`: only the one byte before
      the quote is consulted. */
  lemma {:induction false} QuoteAfterBackslash(p: seq<byte>, rest: seq<byte>)
    requires p != [] && p[|p| - 1] == BACKSLASH && CloseAt(p, 0) == |p|
    ensures CloseAt(p + [QUOTE] + rest, 0) > |p|
  {
    CloseAtAppend(p, [QUOTE] + rest, 0);
    assert p + [QUOTE] + rest == p + ([QUOTE] + rest);
  }
}
