/** rst_flush (src/rst_write.c): write the used part of the arena to the trace file,
    retrying partial writes, then empty the arena. */
module Flush {
  import opened Bytes
  import opened Arena

  /** What one call of write(2) returned: a byte count, or -1. */
  datatype WriteReply = Wrote(n: nat) | WriteError

  /** The replies the operating system gives to the successive write calls of one flush,
      when `remaining` bytes are still to be written: every call either fails, or writes at
      most `remaining` bytes, and the replies last until the loop stops. A call that writes
      nothing while bytes remain is retried, as the C loop does. */
  predicate Honest(rs: seq<WriteReply>, remaining: nat)
    decreases |rs|
  {
    && |rs| > 0
    && match rs[0]
       case WriteError => true
       case Wrote(k) => k <= remaining && (k == remaining || Honest(rs[1..], remaining - k))
  }

  /** Every write succeeds until all `remaining` bytes are out. */
  predicate Completes(rs: seq<WriteReply>, remaining: nat)
    requires Honest(rs, remaining)
    decreases |rs|
  {
    match rs[0]
    case WriteError => false
    case Wrote(k) => k == remaining || Completes(rs[1..], remaining - k)
  }

  /** How many bytes reach the file. */
  function Written(rs: seq<WriteReply>, remaining: nat): (w: nat)
    requires Honest(rs, remaining)
    ensures w <= remaining
    ensures Completes(rs, remaining) ==> w == remaining
    ensures !Completes(rs, remaining) && remaining > 0 ==> w < remaining
    decreases |rs|
  {
    match rs[0]
    case WriteError => 0
    case Wrote(k) => if k == remaining then k else k + Written(rs[1..], remaining - k)
  }

  /** rst_flush as a function: the arena is emptied, the file gains the written prefix of
      the used bytes, and a failure is reported when not all of them were written. */
  function FlushBuffer(b: Buffer, rs: seq<WriteReply>): (r: Buffer)
    requires b.Wf() && Honest(rs, b.cursor)
    ensures r.Wf()
    ensures r.cursor == 0
    ensures r.bytes == b.bytes && r.t0 == b.t0 && r.writeFirstHour == b.writeFirstHour
    ensures r.id1 == b.id1 && r.id2 == b.id2
    ensures Completes(rs, b.cursor) ==> r.file == Stream(b) && r.log == b.log
    ensures !Completes(rs, b.cursor) ==> r.log == b.log + [WriteFailed]
  {
    var w := Written(rs, b.cursor);
    b.(cursor := 0,
       file := b.file + b.bytes[..w],
       log := if Completes(rs, b.cursor) then b.log else b.log + [WriteFailed])
  }

  /** Whatever the replies, the file gains a prefix of the used bytes, and a shorter one
      when a write failed. */
  lemma FlushWritesPrefix(b: Buffer, rs: seq<WriteReply>)
    requires b.Wf() && Honest(rs, b.cursor)
    ensures exists w :: 0 <= w <= b.cursor && FlushBuffer(b, rs).file == b.file + b.bytes[..w]
    ensures !Completes(rs, b.cursor) && b.cursor > 0 ==> |FlushBuffer(b, rs).file| < |Stream(b)|
  {
    var w := Written(rs, b.cursor);
    assert FlushBuffer(b, rs).file == b.file + b.bytes[..w];
  }

  /** A flush, complete or not, leaves the file a prefix of the stream. */
  lemma PrefixOfStream(b: Buffer, rs: seq<WriteReply>)
    requires b.Wf() && Honest(rs, b.cursor)
    ensures FlushBuffer(b, rs).file <= Stream(b)
  {
    FlushWritesPrefix(b, rs);
    var w :| 0 <= w <= b.cursor && FlushBuffer(b, rs).file == b.file + b.bytes[..w];
    assert Stream(b)[..|b.file| + w] == b.file + b.bytes[..w];
  }

  /** A complete flush leaves the emitted stream as it was, only moved to the file. */
  lemma FlushKeepsStream(b: Buffer, rs: seq<WriteReply>)
    requires b.Wf() && Honest(rs, b.cursor)
    requires Completes(rs, b.cursor)
    ensures Stream(FlushBuffer(b, rs)) == Stream(b)
  {
    var r := FlushBuffer(b, rs);
    assert r.bytes[..0] == [];
  }

  /** rst_flush as the C code runs it: the write loop, then the report and the reset. */
  method FlushLoop(b: Buffer, rs: seq<WriteReply>) returns (r: Buffer)
    requires b.Wf() && Honest(rs, b.cursor)
    ensures r == FlushBuffer(b, rs)
  {
    var a, file := WriteLoop(b, rs);
    var failed := a != b.cursor;
    r := b.(cursor := 0, file := file, log := if failed then b.log + [WriteFailed] else b.log);
  }

  /** The do-while loop of rst_flush. `a` is its size_t counter: a failed write returns -1,
      which `a += n` adds modulo 2^64, so `a != nbytes` afterwards signals the failure even
      when nothing was left to write. `done` counts the bytes that reached the file. */
  method WriteLoop(b: Buffer, rs: seq<WriteReply>) returns (a: nat, file: seq<byte>)
    requires b.Wf() && Honest(rs, b.cursor)
    ensures file == b.file + b.bytes[..Written(rs, b.cursor)]
    ensures a == b.cursor <==> Completes(rs, b.cursor)
  {
    var nbytes := b.cursor;
    a := 0;
    var done := 0;
    var replies := rs;
    while true
      invariant a == done <= nbytes
      invariant |replies| <= |rs|
      invariant |replies| < |rs| ==> a < nbytes
      invariant Honest(replies, nbytes - a)
      invariant Written(rs, nbytes) == a + Written(replies, nbytes - a)
      invariant Completes(rs, nbytes) == Completes(replies, nbytes - a)
      decreases |replies|
    {
      match replies[0]
      case WriteError =>
        a := (a + (Two64 - 1)) % Two64;
        assert a == Two64 - 1 || a < nbytes;
        break;
      case Wrote(k) =>
        WroteStep(replies, nbytes - a);
        a := a + k;
        done := done + k;
        replies := replies[1..];
        if !(a < nbytes) {
          break;
        }
    }
    file := b.file + b.bytes[..done];
  }

  /** One successful write of k bytes: what the remaining replies still promise. */
  lemma WroteStep(rs: seq<WriteReply>, remaining: nat)
    requires Honest(rs, remaining) && rs[0].Wrote?
    ensures rs[0].n <= remaining
    ensures rs[0].n < remaining ==> Honest(rs[1..], remaining - rs[0].n)
    ensures rs[0].n < remaining ==> Written(rs, remaining) == rs[0].n + Written(rs[1..], remaining - rs[0].n)
    ensures rs[0].n < remaining ==> Completes(rs, remaining) == Completes(rs[1..], remaining - rs[0].n)
    ensures rs[0].n == remaining ==> Written(rs, remaining) == remaining && Completes(rs, remaining)
  {
  }
}
