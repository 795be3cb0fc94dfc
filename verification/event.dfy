/** Laying out one record: rst_startevent, rst_endevent, rst_event_ptr and rst_event_lls_ptr
    (src/rst_write.c). */
module Event {
  import opened Options
  import opened Bytes
  import opened Bits
  import opened Rastro
  import opened Arena
  import opened Flush

  /** Two macros of the private header whose values this model does not fix:
      RST_TIME_SET, the header bit announcing a resynchronisation block, given here by its
      bit position, and RST_MAX_EVENT_SIZE, the largest record the writer is meant to
      produce. */
  datatype Macros = Macros(timeSetBit: nat, maxEventSize: nat)

  /** Signature bits of the empty event and of the (u64, u64, string) event. */
  const EmptySignature: nat := 0x2_0000
  const LlsSignature: nat := 0x2_4410

  /** Header bytes, reference second and resolution, then the delta. */
  const ResyncBlockSize: nat := 28
  /** Header bytes, then the delta. */
  const PlainBlockSize: nat := 12

  /** What the writer assumes of the private macros: RST_TIME_SET is a single bit in the
      18 low bits, below the type, that neither built-in signature uses, and the resynchronised empty event
      fits within RST_MAX_EVENT_SIZE. */
  predicate ValidMacros(m: Macros)
  {
    && m.timeSetBit < 18
    && !Bit(EmptySignature, m.timeSetBit)
    && !Bit(LlsSignature, m.timeSetBit)
    && ResyncBlockSize <= m.maxEventSize < Two63
  }

  /** The state between records: the cursor is 4-aligned and at least RST_MAX_EVENT_SIZE
      bytes of the arena are free. */
  predicate Valid(b: Buffer, m: Macros)
  {
    && b.Wf()
    && ValidMacros(m)
    && b.cursor % 4 == 0
    && b.cursor + m.maxEventSize <= |b.bytes|
  }

  /** `type << 18` in a 32-bit word: the 14 low bits of the type, moved up. */
  function ShiftType(t: nat): nat
  {
    MaskType(t) * 0x4_0000
  }

  /** ShiftType is the 32-bit shift: the type's bits above 14 fall off the word. */
  lemma ShiftTypeIsShift(t: nat)
    ensures ShiftType(t) == (t * 0x4_0000) % Two32
    ensures ShiftType(t) < Two32
  {
    var q := t / 0x4000;
    var r := t % 0x4000;
    assert t == q * 0x4000 + r;
    assert t * 0x4_0000 == q * Two32 + r * 0x4_0000;
    DivModUnique(t * 0x4_0000, Two32, q, r * 0x4_0000);
  }

  /** The header word `type << 18 | sig`. The shifted type has its 18 low bits clear and the
      signature fits in them, so the OR is a sum. */
  function Header(t: nat, sig: nat): nat
    requires sig < 0x4_0000
  {
    ShiftType(t) + sig
  }

  /** The type survives in bits 18-31, cut to 14 bits, and the signature in bits 0-17. */
  lemma HeaderFields(t: nat, sig: nat)
    requires sig < 0x4_0000
    ensures Header(t, sig) < Two32
    ensures Header(t, sig) / 0x4_0000 == MaskType(t)
    ensures Header(t, sig) % 0x4_0000 == sig
  {
    DivModUnique(Header(t, sig), 0x4_0000, MaskType(t), sig);
  }

  lemma HeaderExamples()
    ensures Header(0, EmptySignature) == 0x2_0000
    ensures Header(0, LlsSignature) == 0x2_4410
    ensures Header(EventInit, LlsSignature) == 0xfffe_4410
    ensures Header(EventStop, EmptySignature) == 0xfffa_0000
  {
    ReservedTypes();
  }

  /** RST_TIME_SET sits at bit 16 or below: bit 17 belongs to both built-in signatures. */
  lemma TimeSetLow(m: Macros)
    requires ValidMacros(m)
    ensures m.timeSetBit <= 16
  {
    Pow2Values();
    assert Bit(EmptySignature, 17);
  }

  /** The built-in events never carry the resync bit of their own, and setting it keeps the
      header within 32 bits. */
  lemma HeaderAvoidsTimeSet(m: Macros, t: nat, sig: nat)
    requires ValidMacros(m)
    requires sig == EmptySignature || sig == LlsSignature
    ensures !Bit(Header(t, sig), m.timeSetBit)
    ensures SetBit(Header(t, sig), m.timeSetBit) < Two32
  {
    var k := m.timeSetBit;
    TimeSetLow(m);
    var p := Pow2(k + 1);
    var q := Pow2(17 - k);
    Pow2Split(k);
    MulAssoc(MaskType(t), q, p);
    MulNat(MaskType(t), q);
    assert Header(t, sig) == (MaskType(t) * q) * p + sig;
    BitOfHighPlusLow(MaskType(t) * q, sig, k);
    HeaderSetBound(t, sig, k);
  }

  lemma HeaderSetBound(t: nat, sig: nat, k: nat)
    requires sig < 0x3_0000 && k <= 16
    ensures SetBit(Header(t, sig), k) < Two32
  {
    Pow2Values();
    Pow2Mono(k, 16);
  }

  lemma Pow2Split(k: nat)
    requires k <= 17
    ensures Pow2(17 - k) * Pow2(k + 1) == 0x4_0000
  {
    Pow2Values();
    Pow2Sum(17 - k, k + 1, 18);
  }

  lemma MulAssoc(a: nat, b: nat, c: nat)
    ensures a * (b * c) == (a * b) * c
  {
  }

  /** The time fields of one record, as rst_startevent computes them. */
  datatype Stamp = Stamp(resync: bool, sec: nat, delta: nat)

  /** _rst_timestamping: seconds and sub-second ticks fused into one 64-bit count. */
  function Stamping(sec: nat, precision: nat, res: nat): nat
  {
    (sec * res + precision) % Two64
  }

  /** The stamping part of rst_startevent: split the clock reading into seconds and ticks,
      then decide on a resynchronisation and compute the delta. */
  function StampOf(t0: nat, firstHour: bool, time: nat, res: nat): (st: Stamp)
    requires time < Two64 && 0 < res
    ensures st.sec == time / res && st.sec <= time
    ensures st.delta < Two64
  {
    DivAtMost(time, res);
    StampSplit(t0, firstHour, time / res, time - (time / res) * res, res)
  }

  /** Decide on a resynchronisation and compute the stored delta, in unsigned 64-bit
      arithmetic: `sec - t0` wraps when the clock went back before t0. */
  function StampSplit(t0: nat, firstHour: bool, sec: nat, precision: nat, res: nat): (st: Stamp)
    ensures st.sec == sec
    ensures st.delta < Two64
  {
    var deltasec := (sec - t0) % Two64;
    if deltasec > 3600 || firstHour then
      Stamp(true, sec, (0 * res + precision) % Two64)
    else
      Stamp(false, sec, (deltasec * res + precision) % Two64)
  }

  lemma DivAtMost(a: nat, d: nat)
    requires d > 0
    ensures a / d <= a
  {
    var q := a / d;
    assert a == q * d + a % d;
    MulSign(q, d);
    assert q >= 0;
    MulNat(q, d - 1);
    assert q * d == q + q * (d - 1);
  }

  lemma MulNat(x: nat, y: nat)
    ensures x * y >= 0
  {
  }

  /** Splitting a clock reading into seconds and ticks and fusing them again gives it back. */
  lemma SplitStamping(time: nat, res: nat)
    requires time < Two64 && 0 < res
    ensures time - (time / res) * res == time % res
    ensures Stamping(time / res, time % res, res) == time
  {
    SplitTicks(time, res);
    Wrap64(time);
  }

  /** Conversely, a reading _rst_timestamping fuses from a second and fewer than `res`
      ticks splits back into them, as rst_startevent splits it. */
  lemma StampingSplits(sec: nat, precision: nat, res: nat)
    requires precision < res
    requires sec * res + precision < Two64
    ensures Stamping(sec, precision, res) / res == sec
    ensures Stamping(sec, precision, res) % res == precision
  {
    Wrap64(sec * res + precision);
    DivModUnique(sec * res + precision, res, sec, precision);
  }

  /** Seconds and ticks of a clock reading. */
  lemma SplitTicks(time: nat, res: nat)
    requires 0 < res
    ensures 0 <= time - (time / res) * res < res
    ensures time % res == time - (time / res) * res
  {
  }

  lemma Wrap64(x: int)
    requires 0 <= x < Two64
    ensures x % Two64 == x
  {
  }

  /** A resynchronisation happens exactly on the first record, or when the clock is more
      than an hour past t0, or when it went back before t0 by less than 2^64 - 3600 seconds:
      `sec - t0` is unsigned, so a clock that went back slightly wraps to a huge delta. When
      t0 is at least an hour below 2^64, the rule reads "went back, or more than an hour on". */
  lemma ResyncRule(t0: nat, firstHour: bool, time: nat, res: nat)
    requires time < Two64 && 0 < res
    requires t0 < Two64
    ensures StampOf(t0, firstHour, time, res).resync <==>
      firstHour || time / res > t0 + 3600 || (time / res < t0 && t0 - time / res < Two64 - 3600)
    ensures t0 + 3600 < Two64 ==>
      (StampOf(t0, firstHour, time, res).resync <==> firstHour || time / res < t0 || time / res > t0 + 3600)
  {
    DivAtMost(time, res);
    ResyncSplit(t0, firstHour, time / res, time - (time / res) * res, res);
  }

  lemma ResyncSplit(t0: nat, firstHour: bool, sec: nat, precision: nat, res: nat)
    requires sec < Two64 && t0 < Two64
    ensures StampSplit(t0, firstHour, sec, precision, res).resync <==>
      firstHour || sec > t0 + 3600 || (sec < t0 && t0 - sec < Two64 - 3600)
  {
    if sec >= t0 {
      Wrap64(sec - t0);
    } else {
      DivModUnique(sec - t0, Two64, -1, Two64 + sec - t0);
    }
  }

  /** Near the top of the 64-bit range the unsigned delta wraps: second 0 read against
      t0 = 2^64 - 1 gives `sec - t0` = 1, so the clock went back without a resynchronisation. */
  lemma ResyncWraps()
    ensures !StampOf(Two64 - 1, false, 0, 1).resync
  {
    ResyncRule(Two64 - 1, false, 0, 1);
  }

  /** The reader's reconstruction: the reference second in force after the record, times the
      resolution, plus the stored delta, is the clock reading. */
  lemma StampRoundTrip(t0: nat, firstHour: bool, time: nat, res: nat)
    requires time < Two64 && 0 < res
    requires t0 + 3600 < Two64
    ensures var st := StampOf(t0, firstHour, time, res);
            (if st.resync then st.sec else t0) * res + st.delta == time
  {
    SplitTicks(time, res);
    DivAtMost(time, res);
    SplitRoundTrip(t0, firstHour, time / res, time - (time / res) * res, res);
  }

  /** The delta is the sub-second part after a resynchronisation and stays below an hour
      and a second otherwise. */
  lemma DeltaBounds(t0: nat, firstHour: bool, time: nat, res: nat)
    requires time < Two64 && 0 < res
    requires t0 + 3600 < Two64
    ensures var st := StampOf(t0, firstHour, time, res);
            && (st.resync ==> st.delta == time % res)
            && (!st.resync ==> st.delta < 3601 * res)
  {
    SplitTicks(time, res);
    DivAtMost(time, res);
    SplitRoundTrip(t0, firstHour, time / res, time - (time / res) * res, res);
  }

  /** StampRoundTrip and DeltaBounds on a clock reading already split into seconds and ticks. */
  lemma SplitRoundTrip(t0: nat, firstHour: bool, sec: nat, precision: nat, res: nat)
    requires precision < res
    requires sec * res + precision < Two64
    requires t0 + 3600 < Two64
    ensures var st := StampSplit(t0, firstHour, sec, precision, res);
            && (if st.resync then sec else t0) * res + st.delta == sec * res + precision
            && (st.resync ==> st.delta == precision)
            && (!st.resync ==> st.delta < 3601 * res)
  {
    MulNat(sec, res);
    assert sec < Two64 by {
      MulSign(sec, res);
    }
    ResyncSplit(t0, firstHour, sec, precision, res);
    var st := StampSplit(t0, firstHour, sec, precision, res);
    if st.resync {
      Wrap64(precision);
    } else {
      PlainDelta(t0, sec, precision, res);
    }
  }

  /** Without a resynchronisation the delta counts ticks since t0, which is at most an hour
      and a second's worth, and no 64-bit wrap-around happens. */
  lemma PlainDelta(t0: nat, sec: nat, precision: nat, res: nat)
    requires t0 <= sec <= t0 + 3600
    requires precision < res
    requires sec * res + precision < Two64
    ensures ((sec - t0) % Two64 * res + precision) % Two64 + t0 * res == sec * res + precision
    ensures ((sec - t0) % Two64 * res + precision) % Two64 < 3601 * res
  {
    var d := sec - t0;
    Wrap64(d);
    assert d * res + t0 * res == sec * res;
    MulNat(t0, res);
    MulNat(d, res);
    Wrap64(d * res + precision);
    MulMono(d, 3600, res);
  }

  lemma MulMono(a: nat, b: nat, c: nat)
    requires a <= b
    ensures a * c <= b * c
  {
    MulNat(b - a, c);
    assert b * c == a * c + (b - a) * c;
  }

  function BlockSize(resync: bool): nat
  {
    if resync then ResyncBlockSize else PlainBlockSize
  }

  /** The reference second and resolution a resynchronisation block carries. */
  datatype Sync = Sync(sec: nat, res: nat)

  /** The leading part of every record: header word (without the resync bit), optional
      resync block, delta. */
  datatype TimeBlock = TimeBlock(header: nat, sync: Option<Sync>, delta: nat)

  function BlockOf(header: nat, st: Stamp, res: nat): TimeBlock
  {
    TimeBlock(header, if st.resync then Some(Sync(st.sec, res)) else None, st.delta)
  }

  /** The wire layout of a time block; `k` is the position of RST_TIME_SET. */
  function EncodeBlock(tb: TimeBlock, k: nat): (r: seq<byte>)
    ensures |r| == BlockSize(tb.sync.Some?)
  {
    match tb.sync
    case Some(sy) => LE(SetBit(tb.header, k), 4) + LE(sy.sec, 8) + LE(sy.res, 8) + LE(tb.delta, 8)
    case None => LE(tb.header, 4) + LE(tb.delta, 8)
  }

  /** Reading a time block back, as a reader of the trace would; also says how many bytes
      it took. */
  function ParseBlock(s: seq<byte>, k: nat): Option<(TimeBlock, nat)>
  {
    if |s| < 4 then None
    else
      var h := FromLE(s[..4]);
      if Bit(h, k) then
        if |s| < ResyncBlockSize then None
        else Some((TimeBlock(ClearBit(h, k), Some(Sync(FromLE(s[4..12]), FromLE(s[12..20]))), FromLE(s[20..28])),
                   ResyncBlockSize))
      else if |s| < PlainBlockSize then None
      else Some((TimeBlock(h, None, FromLE(s[4..12])), PlainBlockSize))
  }

  /** A time block whose header leaves the resync bit clear and whose numbers fit their fields. */
  predicate Encodable(tb: TimeBlock, k: nat)
  {
    && !Bit(tb.header, k)
    && SetBit(tb.header, k) < Two32
    && tb.delta < Two64
    && (tb.sync.Some? ==> tb.sync.value.sec < Two64 && tb.sync.value.res < Two64)
  }

  /** Decoding what was encoded gives the block back, whatever bytes follow it. */
  lemma ParseEncodeBlock(tb: TimeBlock, k: nat, rest: seq<byte>)
    requires Encodable(tb, k)
    ensures ParseBlock(EncodeBlock(tb, k) + rest, k) == Some((tb, BlockSize(tb.sync.Some?)))
  {
    var s := EncodeBlock(tb, k) + rest;
    if tb.sync.Some? {
      ResyncFields(tb, k, rest);
      SetThenClear(tb.header, k);
      ParseResyncOf(s, k, tb);
    } else {
      PlainFields(tb, k, rest);
      ParsePlainOf(s, k, tb);
    }
  }

  lemma ResyncFields(tb: TimeBlock, k: nat, rest: seq<byte>)
    requires Encodable(tb, k) && tb.sync.Some?
    ensures var s := EncodeBlock(tb, k) + rest;
      && |s| >= ResyncBlockSize
      && FromLE(s[..4]) == SetBit(tb.header, k)
      && FromLE(s[4..12]) == tb.sync.value.sec
      && FromLE(s[12..20]) == tb.sync.value.res
      && FromLE(s[20..28]) == tb.delta
  {
    Pow256Widths();
    var sy := tb.sync.value;
    var s := EncodeBlock(tb, k) + rest;
    assert s[..4] == LE(SetBit(tb.header, k), 4);
    assert s[4..12] == LE(sy.sec, 8);
    assert s[12..20] == LE(sy.res, 8);
    assert s[20..28] == LE(tb.delta, 8);
    FromLEOfLE(SetBit(tb.header, k), 4);
    FromLEOfLE(sy.sec, 8);
    FromLEOfLE(sy.res, 8);
    FromLEOfLE(tb.delta, 8);
  }

  lemma ParseResyncOf(s: seq<byte>, k: nat, tb: TimeBlock)
    requires tb.sync.Some?
    requires |s| >= ResyncBlockSize
    requires Bit(FromLE(s[..4]), k) && ClearBit(FromLE(s[..4]), k) == tb.header
    requires FromLE(s[4..12]) == tb.sync.value.sec
    requires FromLE(s[12..20]) == tb.sync.value.res
    requires FromLE(s[20..28]) == tb.delta
    ensures ParseBlock(s, k) == Some((tb, ResyncBlockSize))
  {
  }

  lemma PlainFields(tb: TimeBlock, k: nat, rest: seq<byte>)
    requires Encodable(tb, k) && tb.sync.None?
    ensures var s := EncodeBlock(tb, k) + rest;
      && |s| >= PlainBlockSize
      && FromLE(s[..4]) == tb.header
      && FromLE(s[4..12]) == tb.delta
  {
    Pow256Widths();
    var s := EncodeBlock(tb, k) + rest;
    assert s[..4] == LE(tb.header, 4);
    assert s[4..12] == LE(tb.delta, 8);
    assert tb.header <= SetBit(tb.header, k);
    FromLEOfLE(tb.header, 4);
    FromLEOfLE(tb.delta, 8);
  }

  lemma ParsePlainOf(s: seq<byte>, k: nat, tb: TimeBlock)
    requires tb.sync.None?
    requires |s| >= PlainBlockSize
    requires !Bit(FromLE(s[..4]), k) && FromLE(s[..4]) == tb.header
    requires FromLE(s[4..12]) == tb.delta
    ensures ParseBlock(s, k) == Some((tb, PlainBlockSize))
  {
  }

  lemma EncodeResync(tb: TimeBlock, k: nat)
    requires tb.sync.Some?
    ensures EncodeBlock(tb, k) ==
      LE(SetBit(tb.header, k), 4) + LE(tb.sync.value.sec, 8) + LE(tb.sync.value.res, 8) + LE(tb.delta, 8)
  {
  }

  lemma EncodePlain(tb: TimeBlock, k: nat)
    requires tb.sync.None?
    ensures EncodeBlock(tb, k) == LE(tb.header, 4) + LE(tb.delta, 8)
  {
  }

  /** The resynchronising branch of rst_startevent: header with the resync bit, reference
      second, resolution, delta. */
  function PutResyncBlock(b: Buffer, tb: TimeBlock, k: nat): (r: Buffer)
    requires tb.sync.Some?
    requires b.cursor + ResyncBlockSize <= |b.bytes|
    ensures r == b.(bytes := r.bytes, cursor := r.cursor)
    ensures Grows(b, r, EncodeBlock(tb, k))
  {
    var x1 := LE(SetBit(tb.header, k), 4);
    var x2 := LE(tb.sync.value.sec, 8);
    var x3 := LE(tb.sync.value.res, 8);
    var x4 := LE(tb.delta, 8);
    var b2 := Put(b, U32, SetBit(tb.header, k));
    var b3 := Put(b2, U64, tb.sync.value.sec);
    var b4 := Put(b3, U64, tb.sync.value.res);
    var r := Put(b4, U64, tb.delta);
    GrowsChain(b, b2, b3, x1, x2);
    GrowsChain(b, b3, b4, x1 + x2, x3);
    GrowsChain(b, b4, r, x1 + x2 + x3, x4);
    EncodeResync(tb, k);
    r
  }

  /** The other branch: header, then delta. */
  function PutPlainBlock(b: Buffer, tb: TimeBlock, k: nat): (r: Buffer)
    requires tb.sync.None?
    requires b.cursor + PlainBlockSize <= |b.bytes|
    ensures r == b.(bytes := r.bytes, cursor := r.cursor)
    ensures Grows(b, r, EncodeBlock(tb, k))
  {
    var b2 := Put(b, U32, tb.header);
    var r := Put(b2, U64, tb.delta);
    GrowsChain(b, b2, r, LE(tb.header, 4), LE(tb.delta, 8));
    EncodePlain(tb, k);
    r
  }

  /** Write a stamped time block at the cursor: with a resynchronisation, the reference
      second becomes t0 and the first-hour flag is cleared. */
  function WriteBlock(b: Buffer, k: nat, header: nat, st: Stamp, res: nat): (r: Buffer)
    requires b.cursor + BlockSize(st.resync) <= |b.bytes|
    ensures r == b.(bytes := r.bytes, cursor := r.cursor, t0 := r.t0, writeFirstHour := r.writeFirstHour)
    ensures r.t0 == (if st.resync then st.sec else b.t0)
    ensures r.writeFirstHour == (b.writeFirstHour && !st.resync)
    ensures r.cursor == b.cursor + BlockSize(st.resync) && |r.bytes| == |b.bytes|
  {
    var tb := BlockOf(header, st, res);
    if st.resync then
      PutResyncBlock(b.(t0 := st.sec, writeFirstHour := false), tb, k)
    else
      PutPlainBlock(b, tb, k)
  }

  /** The emitted stream gains the encoded block and the arena past it is untouched. */
  lemma WriteBlockGrows(b: Buffer, k: nat, header: nat, st: Stamp, res: nat)
    requires b.cursor + BlockSize(st.resync) <= |b.bytes|
    ensures Grows(b, WriteBlock(b, k, header, st, res), EncodeBlock(BlockOf(header, st, res), k))
  {
    var tb := BlockOf(header, st, res);
    if st.resync {
      var b1 := b.(t0 := st.sec, writeFirstHour := false);
      assert Stream(b1) == Stream(b);
      var r := PutResyncBlock(b1, tb, k);
    }
  }

  /** rst_startevent: stamp the clock reading `time` (ticks of resolution `res`) and write
      the header, the resync block when one is due, and the delta. The first-hour flag only
      matters for the record it forces to resynchronise. */
  function StartEvent(b: Buffer, m: Macros, header: nat, time: nat, res: nat): (r: Buffer)
    requires b.Wf()
    requires time < Two64 && 0 < res < Two64
    requires b.cursor + BlockSize(StampOf(b.t0, b.writeFirstHour, time, res).resync) <= |b.bytes|
    ensures r == b.(bytes := r.bytes, cursor := r.cursor, t0 := r.t0, writeFirstHour := false)
    ensures r.Wf()
    ensures r.t0 == if StampOf(b.t0, b.writeFirstHour, time, res).resync then time / res else b.t0
    ensures r.cursor == b.cursor + BlockSize(StampOf(b.t0, b.writeFirstHour, time, res).resync)
    ensures Grows(b, r, EncodeBlock(BlockOf(header, StampOf(b.t0, b.writeFirstHour, time, res), res), m.timeSetBit))
  {
    WriteBlockGrows(b, m.timeSetBit, header, StampOf(b.t0, b.writeFirstHour, time, res), res);
    WriteBlock(b, m.timeSetBit, header, StampOf(b.t0, b.writeFirstHour, time, res), res)
  }

  /** rst_endevent: realign the cursor, then flush if fewer than RST_MAX_EVENT_SIZE bytes are
      left. The limit is computed as size_t, so it wraps when the arena is smaller than
      RST_MAX_EVENT_SIZE. */
  function EndEvent(b: Buffer, m: Macros, rs: seq<WriteReply>): (r: Buffer)
    requires b.Wf() && m.maxEventSize < Two64
    requires Align4(b.cursor) <= |b.bytes|
    requires Honest(rs, Align4(b.cursor))
    ensures r.Wf()
    ensures r.cursor % 4 == 0
    ensures m.maxEventSize <= |b.bytes| ==> r.cursor + m.maxEventSize <= |b.bytes|
    ensures r.bytes == b.bytes && r.t0 == b.t0 && r.writeFirstHour == b.writeFirstHour
    ensures r.id1 == b.id1 && r.id2 == b.id2
    ensures Align4(b.cursor) + m.maxEventSize <= |b.bytes| || |b.bytes| < m.maxEventSize ==>
              r == b.(cursor := Align4(b.cursor))
    ensures m.maxEventSize <= |b.bytes| < Align4(b.cursor) + m.maxEventSize ==>
              && r.cursor == 0
              && r.log == b.log + [BufferExceeded] + (if Completes(rs, Align4(b.cursor)) then [] else [WriteFailed])
              && (Completes(rs, Align4(b.cursor)) ==> r.file == b.file + b.bytes[..Align4(b.cursor)])
  {
    var a := Align4(b.cursor);
    FlushLimit(|b.bytes|, m.maxEventSize, a);
    if a > (|b.bytes| - m.maxEventSize) % Two64 then
      FlushBuffer(b.(cursor := a, log := b.log + [BufferExceeded]), rs)
    else
      b.(cursor := a)
  }

  /** The size_t test of rst_endevent: the count exceeds `size - max` exactly when the arena
      has room for a record of `max` bytes but fewer than `max` bytes are left after the
      count. When the arena is smaller than `max`, the difference wraps to a huge limit and
      the test never fires. */
  lemma FlushLimit(size: nat, max: nat, a: nat)
    requires a <= size < Two64 && max < Two64
    ensures a > (size - max) % Two64 <==> max <= size < a + max
  {
    if max <= size {
      Wrap64(size - max);
    } else {
      DivModUnique(size - max, Two64, -1, Two64 + size - max);
    }
  }

  /** Whether or not it flushes, rst_endevent adds the alignment padding to the emitted
      stream, provided a flush writes everything. */
  lemma EndEventStream(b: Buffer, m: Macros, rs: seq<WriteReply>)
    requires b.Wf() && m.maxEventSize < Two64
    requires Align4(b.cursor) <= |b.bytes|
    requires Honest(rs, Align4(b.cursor))
    requires Completes(rs, Align4(b.cursor))
    ensures Stream(EndEvent(b, m, rs)) == Stream(b) + b.bytes[b.cursor..Align4(b.cursor)]
  {
    var a := Align4(b.cursor);
    assert b.bytes[..a] == b.bytes[..b.cursor] + b.bytes[b.cursor..a];
    if a > (|b.bytes| - m.maxEventSize) % Two64 {
      FlushKeepsStream(b.(cursor := a, log := b.log + [BufferExceeded]), rs);
    }
  }

  /** Whatever the replies, rst_endevent leaves a stream that is a prefix of the old one
      followed by the alignment padding: a failed flush loses bytes but never invents any. */
  lemma EndEventPrefix(b: Buffer, m: Macros, rs: seq<WriteReply>)
    requires b.Wf() && m.maxEventSize < Two64
    requires Align4(b.cursor) <= |b.bytes|
    requires Honest(rs, Align4(b.cursor))
    ensures Stream(EndEvent(b, m, rs)) <= Stream(b) + b.bytes[b.cursor..Align4(b.cursor)]
  {
    var a := Align4(b.cursor);
    assert b.bytes[..a] == b.bytes[..b.cursor] + b.bytes[b.cursor..a];
    if a > (|b.bytes| - m.maxEventSize) % Two64 {
      var b1 := b.(cursor := a, log := b.log + [BufferExceeded]);
      PrefixOfStream(b1, rs);
      assert FlushBuffer(b1, rs).bytes[..0] == [];
    }
  }

  /** rst_event_ptr: rst_startevent with the header of an empty event, then rst_endevent. */
  function EventPtr(b: Buffer, m: Macros, t: nat, time: nat, res: nat, rs: seq<WriteReply>): (r: Buffer)
    requires Valid(b, m)
    requires time < Two64 && 0 < res < Two64
    requires Honest(rs, b.cursor + BlockSize(StampOf(b.t0, b.writeFirstHour, time, res).resync))
    ensures Valid(r, m)
    ensures r.id1 == b.id1 && r.id2 == b.id2 && |r.bytes| == |b.bytes|
    ensures !r.writeFirstHour
    ensures r.t0 == if StampOf(b.t0, b.writeFirstHour, time, res).resync then time / res else b.t0
  {
    var b1 := StartEvent(b, m, Header(t, EmptySignature), time, res);
    BlockKeepsAlignment(b.cursor, StampOf(b.t0, b.writeFirstHour, time, res).resync);
    EndEvent(b1, m, rs)
  }

  /** When the flush rst_endevent may trigger writes everything, the emitted stream gains
      exactly the encoded time block. */
  lemma EventPtrStream(b: Buffer, m: Macros, t: nat, time: nat, res: nat, rs: seq<WriteReply>)
    requires Valid(b, m)
    requires time < Two64 && 0 < res < Two64
    requires Honest(rs, b.cursor + BlockSize(StampOf(b.t0, b.writeFirstHour, time, res).resync))
    requires Completes(rs, b.cursor + BlockSize(StampOf(b.t0, b.writeFirstHour, time, res).resync))
    ensures Stream(EventPtr(b, m, t, time, res, rs))
            == Stream(b) + EncodeBlock(BlockOf(Header(t, EmptySignature), StampOf(b.t0, b.writeFirstHour, time, res), res), m.timeSetBit)
  {
    var st := StampOf(b.t0, b.writeFirstHour, time, res);
    var b1 := StartEvent(b, m, Header(t, EmptySignature), time, res);
    BlockKeepsAlignment(b.cursor, st.resync);
    RecordEnd(b, b1, m, rs, EncodeBlock(BlockOf(Header(t, EmptySignature), st, res), m.timeSetBit));
  }

  /** Whatever the replies, the trace after rst_event_ptr is a prefix of what was emitted
      before, followed by the record's time block. */
  lemma EventPtrPrefix(b: Buffer, m: Macros, t: nat, time: nat, res: nat, rs: seq<WriteReply>)
    requires Valid(b, m)
    requires time < Two64 && 0 < res < Two64
    requires Honest(rs, b.cursor + BlockSize(StampOf(b.t0, b.writeFirstHour, time, res).resync))
    ensures Stream(EventPtr(b, m, t, time, res, rs))
            <= Stream(b) + EncodeBlock(BlockOf(Header(t, EmptySignature), StampOf(b.t0, b.writeFirstHour, time, res), res), m.timeSetBit)
  {
    var st := StampOf(b.t0, b.writeFirstHour, time, res);
    var b1 := StartEvent(b, m, Header(t, EmptySignature), time, res);
    BlockKeepsAlignment(b.cursor, st.resync);
    AlignLeast(b1.cursor, b1.cursor);
    EndEventPrefix(b1, m, rs);
    assert b1.bytes[b1.cursor..b1.cursor] == [];
  }

  /** A whole (u64, u64, string) record keeps the cursor aligned. */
  lemma LlsKeepsAlignment(c: nat, resync: bool, n: nat)
    requires c % 4 == 0
    ensures Align4(c + LlsSize(resync, n)) == c + LlsSize(resync, n)
  {
    AlignLeast(c + LlsSize(resync, n), c + LlsSize(resync, n));
  }

  /** Time blocks are whole words, so the cursor stays aligned past one. */
  lemma BlockKeepsAlignment(c: nat, resync: bool)
    requires c % 4 == 0
    ensures Align4(c + BlockSize(resync)) == c + BlockSize(resync)
  {
    AlignLeast(c + BlockSize(resync), c + BlockSize(resync));
  }

  /** Past an aligned time block the cursor is aligned, and so is the end of the record. */
  lemma StartAligned(c: nat, c1: nat, resync: bool, n: nat)
    requires c % 4 == 0 && c1 == c + BlockSize(resync)
    ensures c1 % 4 == 0
    ensures c1 + 16 + Align4(n + 1) == c + LlsSize(resync, n)
    ensures Align4(c + LlsSize(resync, n)) == c + LlsSize(resync, n)
  {
    BlockKeepsAlignment(c, resync);
    LlsKeepsAlignment(c, resync, n);
  }

  /** Bytes of a (u64, u64, string) record with a block of `resync` kind and a string of
      length n, padding included. */
  function LlsSize(resync: bool, n: nat): nat
  {
    BlockSize(resync) + 16 + Align4(n + 1)
  }

  /** The two 64-bit fields of rst_event_lls_ptr. */
  function PutPair(b: Buffer, l0: nat, l1: nat): (r: Buffer)
    requires b.cursor + 16 <= |b.bytes|
    ensures r == b.(bytes := r.bytes, cursor := r.cursor)
    ensures Grows(b, r, LE(l0, 8) + LE(l1, 8))
  {
    var b2 := Put(b, U64, l0);
    var r := Put(b2, U64, l1);
    GrowsChain(b, b2, r, LE(l0, 8), LE(l1, 8));
    r
  }

  /** The fields of rst_event_lls_ptr after the time block: two 64-bit values, then the
      string with its NUL and the alignment padding, which keeps whatever bytes were there. */
  function PutLlsFields(b: Buffer, l0: nat, l1: nat, s0: seq<byte>): (r: Buffer)
    requires NoNul(s0)
    requires b.cursor % 4 == 0
    requires b.cursor + 16 + Align4(|s0| + 1) <= |b.bytes|
    ensures r == b.(bytes := r.bytes, cursor := r.cursor)
    ensures r.cursor == b.cursor + 16 + Align4(|s0| + 1)
    ensures Grows(b, r, (LE(l0, 8) + LE(l1, 8))
                        + ((s0 + [0]) + b.bytes[b.cursor + 16 + |s0| + 1..b.cursor + 16 + Align4(|s0| + 1)]))
  {
    var b3 := PutPair(b, l0, l1);
    AlignAt(b.cursor, b3.cursor, |s0|);
    var r := PutStr(b3, s0);
    FieldsGlue(b, b3, r, LE(l0, 8) + LE(l1, 8), s0);
    r
  }

  /** The pair, then the string whose padding PutStr reads from the arena after the pair:
      those bytes are the padding of the original arena. */
  lemma FieldsGlue(b: Buffer, b3: Buffer, r: Buffer, pair: seq<byte>, s0: seq<byte>)
    requires Grows(b, b3, pair) && |pair| == 16 && b.cursor % 4 == 0
    requires r.cursor == Align4(b3.cursor + |s0| + 1) <= |b3.bytes|
    requires Grows(b3, r, (s0 + [0]) + b3.bytes[b3.cursor + |s0| + 1..Align4(b3.cursor + |s0| + 1)])
    ensures r.cursor == b.cursor + 16 + Align4(|s0| + 1)
    ensures Grows(b, r, pair + ((s0 + [0]) + b.bytes[b.cursor + 16 + |s0| + 1..b.cursor + 16 + Align4(|s0| + 1)]))
  {
    AlignAt(b.cursor, b3.cursor, |s0|);
    GrowsKeeps(b, b3, pair, b3.cursor + |s0| + 1, r.cursor);
    GrowsChain(b, b3, r, pair, (s0 + [0]) + b3.bytes[b3.cursor + |s0| + 1..r.cursor]);
  }

  /** Past two 64-bit fields an aligned cursor is still aligned, so aligning the end of the
      string is aligning its length. */
  lemma AlignAt(c: nat, d: nat, n: nat)
    requires c % 4 == 0 && d == c + 16
    ensures Align4(d + n + 1) == d + Align4(n + 1)
    ensures d + n + 1 == c + 16 + n + 1
  {
    AlignOffset(d, n + 1);
  }

  /** The padding after the string of a (u64, u64, string) record at the cursor: the arena
      bytes between the string's NUL and the next multiple of 4. */
  function LlsPadding(b: Buffer, resync: bool, n: nat): seq<byte>
    requires b.cursor + LlsSize(resync, n) <= |b.bytes|
  {
    b.bytes[b.cursor + BlockSize(resync) + 16 + n + 1..b.cursor + LlsSize(resync, n)]
  }

  /** The record before rst_endevent: time block, fields, string and padding. */
  function LlsBody(b: Buffer, m: Macros, t: nat, l0: nat, l1: nat, s0: seq<byte>, st: Stamp, res: nat): (r: Buffer)
    requires NoNul(s0)
    requires b.cursor % 4 == 0 && b.cursor + LlsSize(st.resync, |s0|) <= |b.bytes|
    ensures r == b.(bytes := r.bytes, cursor := r.cursor, t0 := r.t0, writeFirstHour := r.writeFirstHour)
    ensures r.t0 == (if st.resync then st.sec else b.t0)
    ensures r.writeFirstHour == (b.writeFirstHour && !st.resync)
    ensures r.cursor == b.cursor + LlsSize(st.resync, |s0|) && |r.bytes| == |b.bytes|
    ensures r.cursor % 4 == 0
  {
    var b1 := WriteBlock(b, m.timeSetBit, Header(t, LlsSignature), st, res);
    BlockKeepsAlignment(b.cursor, st.resync);
    LlsKeepsAlignment(b.cursor, st.resync, |s0|);
    PutLlsFields(b1, l0, l1, s0)
  }

  /** The emitted stream gains the record and the padding bytes after its string, as they
      were in the arena. */
  lemma LlsBodyGrows(b: Buffer, m: Macros, t: nat, l0: nat, l1: nat, s0: seq<byte>, st: Stamp, res: nat)
    requires NoNul(s0)
    requires b.cursor % 4 == 0 && b.cursor + LlsSize(st.resync, |s0|) <= |b.bytes|
    ensures Grows(b, LlsBody(b, m, t, l0, l1, s0, st, res),
                  LlsBytes(BlockOf(Header(t, LlsSignature), st, res), l0, l1, s0, m.timeSetBit)
                  + LlsPadding(b, st.resync, |s0|))
  {
    var b1 := WriteBlock(b, m.timeSetBit, Header(t, LlsSignature), st, res);
    WriteBlockGrows(b, m.timeSetBit, Header(t, LlsSignature), st, res);
    BlockKeepsAlignment(b.cursor, st.resync);
    var r := PutLlsFields(b1, l0, l1, s0);
    LlsGlue(b, b1, r, EncodeBlock(BlockOf(Header(t, LlsSignature), st, res), m.timeSetBit), l0, l1, s0, st.resync);
  }

  /** The block, then the fields whose padding PutLlsFields reads from the arena after the
      block: those bytes are the padding of the original arena. */
  lemma LlsGlue(b: Buffer, b1: Buffer, r: Buffer, blk: seq<byte>, l0: nat, l1: nat, s0: seq<byte>, resync: bool)
    requires Grows(b, b1, blk) && b1.cursor == b.cursor + BlockSize(resync)
    requires b.cursor + LlsSize(resync, |s0|) <= |b.bytes|
    requires Grows(b1, r, (LE(l0, 8) + LE(l1, 8))
                          + ((s0 + [0]) + b1.bytes[b1.cursor + 16 + |s0| + 1..b1.cursor + 16 + Align4(|s0| + 1)]))
    ensures Grows(b, r, blk + (LE(l0, 8) + LE(l1, 8) + (s0 + [0])) + LlsPadding(b, resync, |s0|))
  {
    var e, f := b1.cursor + 16 + |s0| + 1, b1.cursor + 16 + Align4(|s0| + 1);
    GrowsPadded(b, b1, r, blk, LE(l0, 8) + LE(l1, 8), s0 + [0], e, f);
    assert LlsPadding(b, resync, |s0|) == b.bytes[e..f];
  }

  /** A block, then fields whose trailing padding is read from the arena: the padding bytes
      are those of the arena before the block was written. */
  lemma GrowsPadded(b: Buffer, b1: Buffer, r: Buffer, blk: seq<byte>, pair: seq<byte>, str: seq<byte>, e: nat, f: nat)
    requires Grows(b, b1, blk)
    requires b1.cursor <= e <= f <= |b1.bytes|
    requires Grows(b1, r, pair + (str + b1.bytes[e..f]))
    ensures Grows(b, r, blk + (pair + str) + b.bytes[e..f])
  {
    GrowsKeeps(b, b1, blk, e, f);
    GrowsChain(b, b1, r, blk, pair + (str + b.bytes[e..f]));
    LlsStream(blk, pair, str, b.bytes[e..f]);
  }

  lemma LlsStream(block: seq<byte>, pair: seq<byte>, str: seq<byte>, pad: seq<byte>)
    ensures block + (pair + (str + pad)) == block + (pair + str) + pad
  {
  }

  /** rst_event_lls_ptr once the clock has been read. */
  function LlsRecordAt(b: Buffer, m: Macros, t: nat, l0: nat, l1: nat, s0: seq<byte>,
                       st: Stamp, res: nat, rs: seq<WriteReply>): (r: Buffer)
    requires NoNul(s0)
    requires Valid(b, m) && st.sec < Two64 && (b.writeFirstHour ==> st.resync)
    requires LlsSize(st.resync, |s0|) <= m.maxEventSize
    requires Honest(rs, b.cursor + LlsSize(st.resync, |s0|))
    ensures Valid(r, m)
    ensures r.id1 == b.id1 && r.id2 == b.id2 && |r.bytes| == |b.bytes|
    ensures !r.writeFirstHour
    ensures r.t0 == if st.resync then st.sec else b.t0
  {
    var b4 := LlsBody(b, m, t, l0, l1, s0, st, res);
    LlsKeepsAlignment(b.cursor, st.resync, |s0|);
    EndEvent(b4, m, rs)
  }

  /** When the flush rst_endevent may trigger writes everything, the emitted stream gains
      the record and the padding bytes after its string, as they were in the arena. */
  lemma LlsRecordStream(b: Buffer, m: Macros, t: nat, l0: nat, l1: nat, s0: seq<byte>,
                        st: Stamp, res: nat, rs: seq<WriteReply>)
    requires NoNul(s0)
    requires Valid(b, m) && st.sec < Two64 && (b.writeFirstHour ==> st.resync)
    requires LlsSize(st.resync, |s0|) <= m.maxEventSize
    requires Honest(rs, b.cursor + LlsSize(st.resync, |s0|))
    requires Completes(rs, b.cursor + LlsSize(st.resync, |s0|))
    ensures Stream(LlsRecordAt(b, m, t, l0, l1, s0, st, res, rs))
            == Stream(b) + LlsBytes(BlockOf(Header(t, LlsSignature), st, res), l0, l1, s0, m.timeSetBit)
               + LlsPadding(b, st.resync, |s0|)
  {
    var b4 := LlsBody(b, m, t, l0, l1, s0, st, res);
    LlsBodyGrows(b, m, t, l0, l1, s0, st, res);
    RecordEnd(b, b4, m, rs, LlsBytes(BlockOf(Header(t, LlsSignature), st, res), l0, l1, s0, m.timeSetBit)
                            + LlsPadding(b, st.resync, |s0|));
  }

  /** A record that ends on an aligned cursor: rst_endevent adds nothing to the stream,
      provided a flush writes everything. */
  lemma RecordEnd(b: Buffer, b4: Buffer, m: Macros, rs: seq<WriteReply>, chunk: seq<byte>)
    requires b4.Wf() && m.maxEventSize < Two64 && b4.cursor % 4 == 0
    requires Honest(rs, b4.cursor) && Completes(rs, b4.cursor)
    requires Grows(b, b4, chunk)
    ensures AlignPtr(b4.cursor) == b4.cursor
    ensures Stream(EndEvent(b4, m, rs)) == Stream(b) + chunk
  {
    AlignLeast(b4.cursor, b4.cursor);
    EndEventStream(b4, m, rs);
    assert b4.bytes[b4.cursor..b4.cursor] == [];
  }

  /** rst_event_lls_ptr: rst_startevent with the (u64, u64, string) header, the two values
      and the string, then rst_endevent. */
  function EventLls(b: Buffer, m: Macros, t: nat, l0: nat, l1: nat, s0: seq<byte>,
                    time: nat, res: nat, rs: seq<WriteReply>): (r: Buffer)
    requires NoNul(s0)
    requires Valid(b, m)
    requires time < Two64 && 0 < res < Two64
    requires LlsSize(StampOf(b.t0, b.writeFirstHour, time, res).resync, |s0|) <= m.maxEventSize
    requires Honest(rs, b.cursor + LlsSize(StampOf(b.t0, b.writeFirstHour, time, res).resync, |s0|))
    ensures Valid(r, m)
    ensures r.id1 == b.id1 && r.id2 == b.id2 && |r.bytes| == |b.bytes|
    ensures !r.writeFirstHour
    ensures r.t0 == if StampOf(b.t0, b.writeFirstHour, time, res).resync then time / res else b.t0
  {
    var st := StampOf(b.t0, b.writeFirstHour, time, res);
    var b1 := StartEvent(b, m, Header(t, LlsSignature), time, res);
    StartAligned(b.cursor, b1.cursor, st.resync, |s0|);
    var b4 := PutLlsFields(b1, l0, l1, s0);
    EndEvent(b4, m, rs)
  }

  lemma EventLlsStream(b: Buffer, m: Macros, t: nat, l0: nat, l1: nat, s0: seq<byte>,
                       time: nat, res: nat, rs: seq<WriteReply>)
    requires NoNul(s0)
    requires Valid(b, m)
    requires time < Two64 && 0 < res < Two64
    requires LlsSize(StampOf(b.t0, b.writeFirstHour, time, res).resync, |s0|) <= m.maxEventSize
    requires Honest(rs, b.cursor + LlsSize(StampOf(b.t0, b.writeFirstHour, time, res).resync, |s0|))
    requires Completes(rs, b.cursor + LlsSize(StampOf(b.t0, b.writeFirstHour, time, res).resync, |s0|))
    ensures var st := StampOf(b.t0, b.writeFirstHour, time, res);
            Stream(EventLls(b, m, t, l0, l1, s0, time, res, rs))
            == Stream(b) + LlsBytes(BlockOf(Header(t, LlsSignature), st, res), l0, l1, s0, m.timeSetBit)
               + LlsPadding(b, st.resync, |s0|)
  {
    var st := StampOf(b.t0, b.writeFirstHour, time, res);
    EventLlsAt(b, m, t, l0, l1, s0, time, res, rs);
    LlsRecordStream(b, m, t, l0, l1, s0, st, res, rs);
  }

  /** rst_event_lls_ptr is the record laid out with the stamp of its clock reading. */
  lemma EventLlsAt(b: Buffer, m: Macros, t: nat, l0: nat, l1: nat, s0: seq<byte>,
                   time: nat, res: nat, rs: seq<WriteReply>)
    requires Valid(b, m)
    requires NoNul(s0)
    requires time < Two64 && 0 < res < Two64
    requires LlsSize(StampOf(b.t0, b.writeFirstHour, time, res).resync, |s0|) <= m.maxEventSize
    requires Honest(rs, b.cursor + LlsSize(StampOf(b.t0, b.writeFirstHour, time, res).resync, |s0|))
    ensures EventLls(b, m, t, l0, l1, s0, time, res, rs)
            == LlsRecordAt(b, m, t, l0, l1, s0, StampOf(b.t0, b.writeFirstHour, time, res), res, rs)
  {
    var st := StampOf(b.t0, b.writeFirstHour, time, res);
    BlockKeepsAlignment(b.cursor, st.resync);
    assert StartEvent(b, m, Header(t, LlsSignature), time, res)
           == WriteBlock(b, m.timeSetBit, Header(t, LlsSignature), st, res);
  }

  /** The bytes of a (u64, u64, string) record up to and including the string's NUL. */
  function LlsBytes(tb: TimeBlock, l0: nat, l1: nat, s0: seq<byte>, k: nat): seq<byte>
  {
    EncodeBlock(tb, k) + (LE(l0, 8) + LE(l1, 8) + (s0 + [0]))
  }

  /** The fields of a (u64, u64, string) record. */
  datatype LlsRecord = LlsRecord(block: TimeBlock, l0: nat, l1: nat, s0: seq<byte>)

  /** Reading a (u64, u64, string) record back: the time block, then the fields. */
  function ParseLls(s: seq<byte>, k: nat): Option<LlsRecord>
  {
    match ParseBlock(s, k)
    case None => None
    case Some((tb, n)) =>
      if |s| < n then None
      else match ParseLlsFields(s[n..])
        case None => None
        case Some((l0, l1, str)) => Some(LlsRecord(tb, l0, l1, str))
  }

  /** Two 64-bit values, then a C string. */
  function ParseLlsFields(s: seq<byte>): Option<(nat, nat, seq<byte>)>
  {
    if |s| < 16 then None
    else
      var t := s[8..];
      match ReadCString(t[8..])
      case None => None
      case Some(str) => Some((FromLE(s[..8]), FromLE(t[..8]), str))
  }

  /** The fields read back as written, whatever follows the string's NUL. */
  lemma ParseLlsFieldsOf(l0: nat, l1: nat, s0: seq<byte>, rest: seq<byte>)
    requires l0 < Two64 && l1 < Two64 && NoNul(s0)
    ensures ParseLlsFields(LE(l0, 8) + (LE(l1, 8) + ((s0 + [0]) + rest))) == Some((l0, l1, s0))
  {
    Pow256Widths();
    SplitAt(LE(l0, 8), LE(l1, 8) + ((s0 + [0]) + rest));
    SplitAt(LE(l1, 8), (s0 + [0]) + rest);
    FromLEOfLE(l0, 8);
    FromLEOfLE(l1, 8);
    CStringOfTerminated(s0, rest);
  }

  lemma SplitAt(x: seq<byte>, y: seq<byte>)
    ensures (x + y)[..|x|] == x && (x + y)[|x|..] == y
  {
  }

  /** A (u64, u64, string) record reads back as what was written, whatever padding follows. */
  lemma ParseLlsBytes(tb: TimeBlock, l0: nat, l1: nat, s0: seq<byte>, k: nat, rest: seq<byte>)
    requires Encodable(tb, k)
    requires l0 < Two64 && l1 < Two64 && NoNul(s0)
    ensures ParseLls(LlsBytes(tb, l0, l1, s0, k) + rest, k) == Some(LlsRecord(tb, l0, l1, s0))
  {
    var e := EncodeBlock(tb, k);
    var fields := LE(l0, 8) + (LE(l1, 8) + ((s0 + [0]) + rest));
    assert LlsBytes(tb, l0, l1, s0, k) + rest == e + fields;
    ParseEncodeBlock(tb, k, fields);
    SplitAt(e, fields);
    ParseLlsFieldsOf(l0, l1, s0, rest);
  }
}
