/** The tokenizer's two ends: the byte source it pulls from and the sinks
    the extractors write payloads into. */
module Streams {
  import opened Lexicon

  /** A positive read size. */
  type Pos = x: nat | 0 < x witness 1

  function Min(a: nat, b: nat): nat {
    if a < b then a else b
  }

  /** A byte source: the bytes it will still deliver, how many of them
      each of its next reads chooses to deliver, and whether, once the
      bytes are used up, its reads fail instead of reporting EOF. A read
      never delivers more than the buffer it fills holds, and a read with
      no size left delivers as much as fits. */
  datatype Source = Source(pending: seq<byte>, sizes: seq<Pos>, broken: bool) {

    /** What a read returns once the bytes are used up. */
    function EndErr(): Error {
      if broken then ReadFailure else EOF
    }

    /** How many bytes a read into a buffer of `len` bytes delivers. */
    function ReadSize(len: nat): (k: nat)
      requires 0 < len && pending != []
      ensures 0 < k <= len && k <= |pending|
      ensures sizes != [] && sizes[0] <= Min(len, |pending|) ==> k == sizes[0]
    {
      var want := if sizes == [] then len else Min(sizes[0], len);
      Min(want, |pending|)
    }

    /** The source after a read that delivered its first `k` bytes. */
    function After(k: nat): (r: Source)
      requires k <= |pending|
      ensures r.pending == pending[k..] && r.broken == broken
    {
      Source(pending[k..], if sizes == [] then [] else sizes[1..], broken)
    }
  }

  /** How many more bytes a sink accepts before its writes fail. */
  datatype Room = Unbounded | Bounded(left: nat) {

    predicate Fits(len: nat) {
      Unbounded? || len <= left
    }

    /** The room left after `len` more bytes were accepted. */
    function Take(len: nat): (r: Room)
      requires Fits(len)
      ensures r.Unbounded? <==> Unbounded?
      ensures Bounded? ==> r.left + len == left
    {
      if Unbounded? then Unbounded else Bounded(left - len)
    }
  }

  /** Accepting `a` bytes and then `b` more is accepting `a + b` at once,
      so a sequence of writes fails exactly when their total does not fit. */
  lemma TakeMore(room: Room, a: nat, b: nat)
    requires room.Fits(a)
    ensures room.Take(a).Fits(b) <==> room.Fits(a + b)
    ensures room.Take(a).Fits(b) ==> room.Take(a).Take(b) == room.Take(a + b)
    ensures room.Bounded? ==> room.left == a + room.Take(a).left
  {
  }

  /** An output stream: the bytes it holds and how many more it accepts. */
  datatype Sink = Sink(data: seq<byte>, room: Room) {

    /** A write of `p`. When `p` fits the room it is accepted whole;
        otherwise the part that fits is accepted and the write fails, as an
        io.Writer returning a short count with an error does. */
    function Write(p: seq<byte>): (w: Written)
      ensures w.count <= |p| && w.sink.data == data + p[..w.count]
      ensures w.err == None <==> room.Fits(|p|)
      ensures w.err == None ==> w.count == |p| && w.sink.room == room.Take(|p|)
      ensures w.err != None ==>
        w.err == Some(WriteFailure) && w.count == room.left && w.sink.room == Bounded(0)
    {
      if room.Fits(|p|) then Written(Sink(data + p, room.Take(|p|)), |p|, None)
      else Written(Sink(data + p[..room.left], Bounded(0)), room.left, Some(WriteFailure))
    }
  }

  /** The outcome of a write: the sink afterwards, how many bytes it
      accepted, and its error. */
  datatype Written = Written(sink: Sink, count: nat, err: Option<Error>)
}
