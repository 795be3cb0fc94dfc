/** Setting a buffer up and tearing it down: __rst_init and rst_destroy_buffer
    (src/rst_write.c), with the trace file's name. */
module Lifecycle {
  import opened Options
  import opened Bytes
  import opened Rastro
  import opened Arena
  import opened Flush
  import opened Event

  /** What getenv("RST_BUFFER_SIZE") followed by sscanf("%zu") produced. `Parsed` holds the
      size_t that sscanf stored: a negative number arrives already wrapped modulo 2^64. */
  datatype EnvSize = Unset | Unparsable | Parsed(n: nat)

  /** The arena capacity the environment selects. */
  function BufferSize(env: EnvSize): nat
  {
    match env
    case Parsed(n) => n
    case _ => DefaultBufferSize
  }

  /** The arena after malloc and bzero. */
  function Zeros(n: nat): (r: seq<byte>)
    ensures |r| == n
  {
    seq(n, _ => 0)
  }

  /** The reset part of __rst_init: record the ids, raise the first-hour flag, size and
      clear the arena and empty it. Nothing is buffered, so the stream is what the file
      already held. */
  function Reset(b: Buffer, id1: nat, id2: nat, env: EnvSize): (r: Buffer)
    ensures r.id1 == id1 && r.id2 == id2 && r.writeFirstHour
    ensures |r.bytes| == BufferSize(env) && forall i :: 0 <= i < |r.bytes| ==> r.bytes[i] == 0
    ensures r.cursor == 0 && Stream(r) == b.file
    ensures r.t0 == b.t0 && r.file == b.file
    ensures r.log == b.log + (if env.Unparsable? then [BadBufferSize] else [])
  {
    var size := BufferSize(env);
    var log := if env.Unparsable? then b.log + [BadBufferSize] else b.log;
    var r := b.(id1 := id1, id2 := id2, writeFirstHour := true, bytes := Zeros(size), cursor := 0, log := log);
    assert r.bytes[..0] == [];
    r
  }

  /** The outcome of __rst_init: the buffer behind the pointer, if there was one, and what
      was printed on stderr when there was none. */
  datatype InitResult = InitResult(buffer: Option<Buffer>, stderr: seq<Diag>)

  /** __rst_init. The clock reading `time` and resolution `res` stand for the stamping and
      resolution callbacks, `opens` says whether open(2) succeeds on a path, and `hostname`
      is what gethostname returned. A NULL pointer only prints a message; an unopenable
      file leaves the buffer reset but without t0 and without a record; otherwise t0 is
      zeroed and the INIT record is written, which the first-hour flag makes a
      resynchronised one. The file is opened under the whole `TraceFileName`, as if `fname`
      held FnameCapacity bytes: the declared `fname[30]` overflows for longer ids (see
      FnameOverflow and FnameFits). */
  function Init(ptr: Option<Buffer>, m: Macros, id1: nat, id2: nat, env: EnvSize,
                opens: seq<char> -> bool, hostname: seq<byte>,
                time: nat, res: nat, rs: seq<WriteReply>): (r: InitResult)
    requires NoNul(hostname)
    requires ValidMacros(m)
    requires id1 < Two64 && id2 < Two64
    requires m.maxEventSize <= BufferSize(env) < Two63
    requires time < Two64 && 0 < res < Two64
    requires LlsSize(true, |hostname|) <= m.maxEventSize
    requires Honest(rs, LlsSize(true, |hostname|))
    ensures ptr.None? <==> r.buffer.None?
    ensures r.stderr == if ptr.None? then [InvalidPointer] else []
    ensures r.buffer.Some? ==>
              && r.buffer.value.id1 == id1 && r.buffer.value.id2 == id2
              && |r.buffer.value.bytes| == BufferSize(env)
    ensures ptr.Some? && !opens(TraceFileName(id1, id2)) ==>
              && r.buffer.value.cursor == 0 && r.buffer.value.writeFirstHour
              && r.buffer.value.t0 == ptr.value.t0 && r.buffer.value.file == ptr.value.file
              && r.buffer.value.log == ptr.value.log
                 + (if env.Unparsable? then [BadBufferSize] else []) + [OpenFailed]
    ensures ptr.Some? && opens(TraceFileName(id1, id2)) ==>
              && Valid(r.buffer.value, m)
              && !r.buffer.value.writeFirstHour
              && r.buffer.value.t0 == time / res
  {
    match ptr
    case None => InitResult(None, [InvalidPointer])
    case Some(b) =>
      var b1 := Reset(b, id1, id2, env);
      FnameFits(id1, id2);
      if !opens(TraceFileName(id1, id2)) then
        InitResult(Some(b1.(log := b1.log + [OpenFailed])), [])
      else
        var b2 := b1.(file := [], t0 := 0);
        ResyncRule(0, true, time, res);
        InitResult(Some(EventLls(b2, m, EventInit, id1, id2, hostname, time, res, rs)), [])
  }

  /** The INIT record: its header, a resynchronisation to the clock reading's second, and
      the sub-second ticks as delta. */
  function InitBlock(time: nat, res: nat): TimeBlock
    requires 0 < res
  {
    TimeBlock(Header(EventInit, LlsSignature), Some(Sync(time / res, res)), time % res)
  }

  /** After a successful init the trace holds exactly one record, the resynchronised INIT
      record with the two ids and the host name, followed by zero padding from the cleared
      arena; a reader gets the ids and the name back. */
  lemma InitRecord(ptr: Option<Buffer>, m: Macros, id1: nat, id2: nat, env: EnvSize,
                   opens: seq<char> -> bool, hostname: seq<byte>,
                   time: nat, res: nat, rs: seq<WriteReply>)
    requires ValidMacros(m)
    requires id1 < Two64 && id2 < Two64
    requires m.maxEventSize <= BufferSize(env) < Two63
    requires time < Two64 && 0 < res < Two64
    requires LlsSize(true, |hostname|) <= m.maxEventSize
    requires Honest(rs, LlsSize(true, |hostname|))
    requires Completes(rs, LlsSize(true, |hostname|))
    requires NoNul(hostname)
    requires ptr.Some? && opens(TraceFileName(id1, id2))
    ensures var s := Stream(Init(ptr, m, id1, id2, env, opens, hostname, time, res, rs).buffer.value);
            && s == LlsBytes(InitBlock(time, res), id1, id2, hostname, m.timeSetBit) + InitPadding(|hostname|)
            && |s| == LlsSize(true, |hostname|)
            && ParseLls(s, m.timeSetBit) == Some(LlsRecord(InitBlock(time, res), id1, id2, hostname))
  {
    var b2 := Reset(ptr.value, id1, id2, env).(file := [], t0 := 0);
    FreshRecord(b2, m, id1, id2, hostname, time, res, rs);
    HeaderAvoidsTimeSet(m, EventInit, LlsSignature);
    ParseLlsBytes(InitBlock(time, res), id1, id2, hostname, m.timeSetBit, InitPadding(|hostname|));
  }

  /** The padding after a string of n bytes in a cleared arena. */
  function InitPadding(n: nat): seq<byte>
  {
    Zeros(Align4(n + 1) - (n + 1))
  }

  /** The INIT record written into an empty, cleared arena with an empty file. */
  lemma FreshRecord(b: Buffer, m: Macros, id1: nat, id2: nat, hostname: seq<byte>,
                    time: nat, res: nat, rs: seq<WriteReply>)
    requires NoNul(hostname)
    requires Valid(b, m) && b.cursor == 0 && b.file == [] && b.t0 == 0 && b.writeFirstHour
    requires forall i :: 0 <= i < |b.bytes| ==> b.bytes[i] == 0
    requires time < Two64 && 0 < res < Two64
    requires LlsSize(true, |hostname|) <= m.maxEventSize
    requires Honest(rs, LlsSize(true, |hostname|))
    requires Completes(rs, LlsSize(true, |hostname|))
    ensures StampOf(0, true, time, res).resync
    ensures Stream(EventLls(b, m, EventInit, id1, id2, hostname, time, res, rs))
            == LlsBytes(InitBlock(time, res), id1, id2, hostname, m.timeSetBit) + InitPadding(|hostname|)
  {
    ResyncRule(0, true, time, res);
    DeltaBounds(0, true, time, res);
    var st := StampOf(0, true, time, res);
    assert BlockOf(Header(EventInit, LlsSignature), st, res) == InitBlock(time, res);
    EventLlsStream(b, m, EventInit, id1, id2, hostname, time, res, rs);
    assert Stream(b) == [] by {
      assert b.bytes[..0] == [];
    }
    ClearedPadding(b, |hostname|);
  }

  /** In a cleared arena the padding after the INIT record's string is zeros. */
  lemma ClearedPadding(b: Buffer, n: nat)
    requires b.cursor == 0 && LlsSize(true, n) <= |b.bytes|
    requires forall i :: 0 <= i < |b.bytes| ==> b.bytes[i] == 0
    ensures LlsPadding(b, true, n) == InitPadding(n)
  {
    var lo, hi := ResyncBlockSize + 16 + n + 1, LlsSize(true, n);
    assert LlsPadding(b, true, n) == b.bytes[lo..hi];
    assert |b.bytes[lo..hi]| == |InitPadding(n)|;
  }

  /** The INIT header carries the INIT type and the (u64, u64, string) signature. */
  lemma InitHeader()
    ensures Header(EventInit, LlsSignature) / 0x4_0000 == EventInit
    ensures Header(EventInit, LlsSignature) % 0x4_0000 == LlsSignature
  {
    HeaderFields(EventInit, LlsSignature);
    ReservedTypes();
  }

  /** rst_destroy_buffer: a STOP record, then a flush; a NULL pointer does nothing. Freeing
      the arena and closing the file are not modelled. `rs` answers the writes of a flush
      the STOP record itself may trigger, `final` those of the closing flush. */
  function Destroy(ptr: Option<Buffer>, m: Macros, time: nat, res: nat,
                   rs: seq<WriteReply>, final: seq<WriteReply>): (r: Option<Buffer>)
    requires ptr.Some? ==> DestroyReady(ptr.value, m, time, res, rs, final)
    ensures ptr.None? <==> r.None?
    ensures r.Some? ==> r.value.cursor == 0 && r.value.id1 == ptr.value.id1 && r.value.id2 == ptr.value.id2
    ensures r.Some? ==> !r.value.writeFirstHour
  {
    match ptr
    case None => None
    case Some(b) => Some(FlushBuffer(EventPtr(b, m, EventStop, time, res, rs), final))
  }

  /** What the record and the flush of rst_destroy_buffer need. */
  predicate DestroyReady(b: Buffer, m: Macros, time: nat, res: nat,
                         rs: seq<WriteReply>, final: seq<WriteReply>)
  {
    && Valid(b, m)
    && time < Two64 && 0 < res < Two64
    && Honest(rs, b.cursor + BlockSize(StampOf(b.t0, b.writeFirstHour, time, res).resync))
    && Honest(final, EventPtr(b, m, EventStop, time, res, rs).cursor)
  }

  /** The STOP record rst_destroy_buffer writes. */
  function StopBlock(b: Buffer, time: nat, res: nat): TimeBlock
    requires time < Two64 && 0 < res
  {
    BlockOf(Header(EventStop, EmptySignature), StampOf(b.t0, b.writeFirstHour, time, res), res)
  }

  /** When every write succeeds, the file ends up with everything emitted before, then the
      STOP record and nothing after it; a reader finds the STOP type in that last record. */
  lemma DestroyStopLast(b: Buffer, m: Macros, time: nat, res: nat,
                        rs: seq<WriteReply>, final: seq<WriteReply>)
    requires DestroyReady(b, m, time, res, rs, final)
    requires Completes(rs, b.cursor + BlockSize(StampOf(b.t0, b.writeFirstHour, time, res).resync))
    requires Completes(final, EventPtr(b, m, EventStop, time, res, rs).cursor)
    ensures var stop := EncodeBlock(StopBlock(b, time, res), m.timeSetBit);
            && Destroy(Some(b), m, time, res, rs, final).value.file == Stream(b) + stop
            && ParseBlock(stop, m.timeSetBit) == Some((StopBlock(b, time, res), |stop|))
            && StopBlock(b, time, res).header / 0x4_0000 == EventStop
  {
    var k := m.timeSetBit;
    var b1 := EventPtr(b, m, EventStop, time, res, rs);
    EventPtrStream(b, m, EventStop, time, res, rs);
    var stop := EncodeBlock(StopBlock(b, time, res), k);
    HeaderAvoidsTimeSet(m, EventStop, EmptySignature);
    ParseEncodeBlock(StopBlock(b, time, res), k, []);
    assert stop + [] == stop;
    HeaderFields(EventStop, EmptySignature);
    ReservedTypes();
  }

  /** Whatever the replies, tearing down leaves the file holding a prefix of everything
      emitted before, followed by the STOP record. */
  lemma DestroyWritesPrefix(b: Buffer, m: Macros, time: nat, res: nat,
                            rs: seq<WriteReply>, final: seq<WriteReply>)
    requires DestroyReady(b, m, time, res, rs, final)
    ensures Destroy(Some(b), m, time, res, rs, final).value.file
            <= Stream(b) + EncodeBlock(StopBlock(b, time, res), m.timeSetBit)
  {
    var b1 := EventPtr(b, m, EventStop, time, res, rs);
    PrefixOfStream(b1, final);
    EventPtrPrefix(b, m, EventStop, time, res, rs);
  }

  // The trace file's name.

  /** `%" PRIu64 "`: the decimal digits of n, most significant first. */
  function Decimal(n: nat): (s: seq<char>)
    ensures 1 <= |s|
    ensures forall i :: 0 <= i < |s| ==> '0' <= s[i] <= '9'
    ensures n > 0 ==> s[0] != '0'
    decreases n
  {
    if n < 10 then [Digit(n)] else Decimal(n / 10) + [Digit(n % 10)]
  }

  function Digit(d: nat): (c: char)
    requires d < 10
    ensures '0' <= c <= '9'
  {
    ('0' as int + d) as char
  }

  /** The number a string of decimal digits denotes. */
  function DecimalValue(s: seq<char>): nat
    requires forall i :: 0 <= i < |s| ==> '0' <= s[i] <= '9'
  {
    if |s| == 0 then 0 else 10 * DecimalValue(s[..|s| - 1]) + (s[|s| - 1] as int - '0' as int)
  }

  /** Reading the digits back gives the number. */
  lemma {:induction false} DecimalRoundTrip(n: nat)
    ensures DecimalValue(Decimal(n)) == n
    decreases n
  {
    var s := Decimal(n);
    if n >= 10 {
      DecimalRoundTrip(n / 10);
      assert s[..|s| - 1] == Decimal(n / 10);
    }
  }

  function Pow10(k: nat): (r: nat)
    ensures r >= 1
  {
    if k == 0 then 1 else 10 * Pow10(k - 1)
  }

  /** n has at most k digits exactly when it is below 10^k. */
  lemma {:induction false} DecimalLength(n: nat, k: nat)
    requires k >= 1
    ensures |Decimal(n)| <= k <==> n < Pow10(k)
    decreases n
  {
    if n >= 10 {
      if k == 1 {
        assert |Decimal(n)| == |Decimal(n / 10)| + 1;
      } else {
        DecimalLength(n / 10, k - 1);
      }
    } else if k > 1 {
      Pow10Mono(k);
    }
  }

  lemma {:induction false} Pow10Mono(k: nat)
    requires k >= 1
    ensures Pow10(k) >= 10
    decreases k
  {
    if k > 1 {
      Pow10Mono(k - 1);
    }
  }

  lemma {:induction false} Pow10Add(a: nat, b: nat)
    ensures Pow10(a + b) == Pow10(a) * Pow10(b)
    decreases a
  {
    if a > 0 {
      Pow10Add(a - 1, b);
      assert Pow10(a + b) == 10 * Pow10(a - 1 + b);
    }
  }

  lemma Pow10Values()
    ensures Pow10(9) == 1_000_000_000
    ensures Pow10(19) == 10_000_000_000_000_000_000
    ensures Pow10(20) == 100_000_000_000_000_000_000
  {
    assert Pow10(5) == 100_000;
    assert Pow10(4) == 10_000;
    Pow10Add(5, 4);
    Pow10Add(5, 5);
    Pow10Add(10, 9);
    Pow10Add(10, 10);
  }

  /** A 64-bit id has at most 20 decimal digits, and 2^64 - 1 has exactly 20. */
  lemma U64Digits(n: nat)
    requires n < Two64
    ensures |Decimal(n)| <= 20
    ensures n == Two64 - 1 ==> |Decimal(n)| == 20
  {
    Pow10Values();
    DecimalLength(n, 20);
    DecimalLength(n, 19);
  }

  /** "rastro-<id1>-<id2>.rst". */
  function TraceFileName(id1: nat, id2: nat): (name: seq<char>)
    ensures |name| == |Decimal(id1)| + |Decimal(id2)| + 12
  {
    "rastro-" + Decimal(id1) + "-" + Decimal(id2) + ".rst"
  }

  /** The size of the fname array __rst_init declares. */
  const FnameDeclared: nat := 30

  /** sprintf into fname stays inside the array: the name and its NUL fit. */
  predicate FitsDeclared(id1: nat, id2: nat)
  {
    |TraceFileName(id1, id2)| + 1 <= FnameDeclared
  }

  /** The name fits in the declared array exactly when the two ids have at most 17 decimal
      digits between them. */
  lemma FitsDeclaredIff(id1: nat, id2: nat)
    ensures FitsDeclared(id1, id2) <==> |Decimal(id1)| + |Decimal(id2)| <= 17
  {
  }

  /** Two ten-digit ids, or the largest ones, overflow the declared array; the largest need
      53 bytes. */
  lemma FnameOverflow()
    ensures !FitsDeclared(1_000_000_000, 1_000_000_000)
    ensures !FitsDeclared(Two64 - 1, Two64 - 1)
    ensures |TraceFileName(Two64 - 1, Two64 - 1)| + 1 == FnameCapacity
  {
    DecimalLength(1_000_000_000, 9);
    Pow10Values();
    U64Digits(Two64 - 1);
  }

  /** An array large enough for any pair of 64-bit ids: "rastro-", 20 digits, "-", 20
      digits, ".rst" and the NUL. */
  const FnameCapacity: nat := 53

  /** Every pair of 64-bit ids gives a name that, with its NUL, fits in FnameCapacity bytes. */
  lemma FnameFits(id1: nat, id2: nat)
    requires id1 < Two64 && id2 < Two64
    ensures |TraceFileName(id1, id2)| + 1 <= FnameCapacity
  {
    U64Digits(id1);
    U64Digits(id2);
  }
}
