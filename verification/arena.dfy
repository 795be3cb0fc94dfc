/** The producer's write arena (rst_buffer_t) and the RST_PUT / RST_PUT_STR macros (include/rastro.h). */
module Arena {
  import opened Options
  import opened Bytes
  import opened Rastro

  /** Diagnostics the writer prints on stderr, kept as an abstract log. */
  datatype Diag =
    | InvalidPointer       // __rst_init on a NULL buffer
    | BadBufferSize        // RST_BUFFER_SIZE could not be parsed
    | OpenFailed           // the trace file could not be created
    | WriteFailed          // rst_flush could not write every used byte
    | BufferExceeded       // rst_endevent found the arena near capacity

  /** One producer's buffer.
      `bytes` is the malloc'ed arena (its length is rst_buffer_size), `cursor` is
      rst_buffer_ptr - rst_buffer (RST_BUF_COUNT), `t0` is the reference second of the
      last resynchronisation, `file` is everything written to the trace file so far
      and `log` is what was printed on stderr. The arena base is assumed 4-aligned
      (it comes from malloc), so alignment is a property of offsets. */
  datatype Buffer = Buffer(
    bytes: seq<byte>,
    cursor: nat,
    t0: nat,
    writeFirstHour: bool,
    id1: nat,
    id2: nat,
    file: seq<byte>,
    log: seq<Diag>)
  {
    /** The fields hold what their C types can hold and the cursor is inside the arena.
        RST_BUF_COUNT is a pointer difference, so the arena is smaller than 2^63 bytes. */
    predicate Wf()
    {
      && cursor <= |bytes| < Two63
      && t0 < Two64
      && id1 < Two64
      && id2 < Two64
    }
  }

  /** Everything this producer has emitted: what reached the file, then what is still buffered. */
  function Stream(b: Buffer): seq<byte>
    requires b.cursor <= |b.bytes|
  {
    b.file + b.bytes[..b.cursor]
  }

  /** A C string's characters: no NUL inside. */
  predicate NoNul(s: seq<byte>)
  {
    forall i :: 0 <= i < |s| ==> s[i] != 0
  }

  /** The arena with `chunk` copied over the bytes from position c on. */
  function Splice(bytes: seq<byte>, c: nat, chunk: seq<byte>): (r: seq<byte>)
    requires c + |chunk| <= |bytes|
    ensures |r| == |bytes|
  {
    bytes[..c] + chunk + bytes[c + |chunk|..]
  }

  /** The chunk lands at c; the bytes before and after it are kept. */
  lemma SpliceParts(bytes: seq<byte>, c: nat, chunk: seq<byte>)
    requires c + |chunk| <= |bytes|
    ensures Splice(bytes, c, chunk)[c..c + |chunk|] == chunk
    ensures Splice(bytes, c, chunk)[..c + |chunk|] == bytes[..c] + chunk
    ensures Splice(bytes, c, chunk)[c + |chunk|..] == bytes[c + |chunk|..]
    ensures forall i :: 0 <= i < |bytes| && !(c <= i < c + |chunk|) ==> Splice(bytes, c, chunk)[i] == bytes[i]
  {
    var r := Splice(bytes, c, chunk);
    assert r[..c + |chunk|] == bytes[..c] + chunk;
    assert r[c..c + |chunk|] == chunk;
    assert r[c + |chunk|..] == bytes[c + |chunk|..];
  }

  /** `r` is `b` after appending `chunk` to the emitted stream by writing it at the cursor:
      the cursor advances by its length and the arena past the new cursor is untouched. */
  predicate Grows(b: Buffer, r: Buffer, chunk: seq<byte>)
  {
    && b.cursor <= |b.bytes|
    && |r.bytes| == |b.bytes|
    && r.cursor == b.cursor + |chunk| <= |r.bytes|
    && r.bytes[r.cursor..] == b.bytes[r.cursor..]
    && Stream(r) == Stream(b) + chunk
  }

  /** Two successive writes append their chunks in order. */
  lemma GrowsChain(a: Buffer, b: Buffer, c: Buffer, x: seq<byte>, y: seq<byte>)
    requires Grows(a, b, x) && Grows(b, c, y)
    ensures Grows(a, c, x + y)
  {
    assert c.bytes[c.cursor..] == c.bytes[b.cursor..][c.cursor - b.cursor..];
    assert b.bytes[c.cursor..] == b.bytes[b.cursor..][c.cursor - b.cursor..];
    assert a.bytes[c.cursor..] == a.bytes[b.cursor..][c.cursor - b.cursor..];
  }

  /** Bytes past the cursor of the grown buffer are still the old ones. */
  lemma GrowsKeeps(b: Buffer, r: Buffer, chunk: seq<byte>, i: nat, j: nat)
    requires Grows(b, r, chunk)
    requires r.cursor <= i <= j <= |r.bytes|
    ensures r.bytes[i..j] == b.bytes[i..j]
  {
    assert r.bytes[i..j] == r.bytes[r.cursor..][i - r.cursor..j - r.cursor];
    assert b.bytes[i..j] == b.bytes[r.cursor..][i - r.cursor..j - r.cursor];
  }

  /** Copy `chunk` into the arena at the cursor and advance past it. */
  function PutBytes(b: Buffer, chunk: seq<byte>): (r: Buffer)
    requires b.cursor + |chunk| <= |b.bytes|
    ensures r == b.(bytes := r.bytes, cursor := r.cursor)
    ensures Grows(b, r, chunk)
    ensures r.bytes[b.cursor..r.cursor] == chunk
  {
    SpliceParts(b.bytes, b.cursor, chunk);
    b.(bytes := Splice(b.bytes, b.cursor, chunk), cursor := b.cursor + |chunk|)
  }

  /** RST_PUT: store `val` cast to the unsigned field type `t` at the cursor. The layout
      keeps only the low Width(t) bytes, which is the C cast's truncation. A float or double
      cast converts the value to IEEE bits instead, which this model does not cover. */
  function Put(b: Buffer, t: FieldType, val: nat): (r: Buffer)
    requires t != Str && t != Float && t != Double
    requires b.cursor + Width(t) <= |b.bytes|
    ensures r == b.(bytes := r.bytes, cursor := r.cursor)
    ensures Grows(b, r, LE(val, Width(t)))
  {
    PutBytes(b, LE(val, Width(t)))
  }

  /** The field reads back as the value cut to the field's width. */
  lemma PutReadsBack(b: Buffer, t: FieldType, val: nat)
    requires t != Str && t != Float && t != Double
    requires b.cursor + Width(t) <= |b.bytes|
    ensures FromLE(Put(b, t, val).bytes[b.cursor..b.cursor + Width(t)]) == val % Pow256(Width(t))
  {
    var w := Width(t);
    FromLEOfLE(val % Pow256(w), w);
    TruncateLE(val, w);
  }

  /** RST_PUT_STR: copy the C string `s` (its characters, without the terminating NUL) and
      then a NUL, and round the cursor up to a multiple of 4. The padding bytes are left as
      they were, so the stream gains them as they were. */
  function PutStr(b: Buffer, s: seq<byte>): (r: Buffer)
    requires NoNul(s)
    requires Align4(b.cursor + |s| + 1) <= |b.bytes|
    ensures r == b.(bytes := r.bytes, cursor := r.cursor)
    ensures r.cursor == Align4(b.cursor + |s| + 1)
    ensures Grows(b, r, (s + [0]) + b.bytes[b.cursor + |s| + 1..Align4(b.cursor + |s| + 1)])
  {
    PaddedStream(b.file, b.bytes, b.cursor, s);
    SpliceParts(b.bytes, b.cursor, s + [0]);
    b.(bytes := Splice(b.bytes, b.cursor, s + [0]), cursor := Align4(b.cursor + |s| + 1))
  }

  /** A reader finds the string at the old cursor, ended by its NUL. */
  lemma PutStrReadsBack(b: Buffer, s: seq<byte>)
    requires NoNul(s)
    requires Align4(b.cursor + |s| + 1) <= |b.bytes|
    ensures ReadCString(PutStr(b, s).bytes[b.cursor..]) == Some(s)
  {
    StringReadsBack(b.bytes, b.cursor, s);
  }

  /** Only the string and its NUL are written: the padding and everything else are kept. */
  lemma PutStrFrame(b: Buffer, s: seq<byte>)
    requires NoNul(s)
    requires Align4(b.cursor + |s| + 1) <= |b.bytes|
    ensures forall i :: 0 <= i < |b.bytes| && !(b.cursor <= i <= b.cursor + |s|) ==> PutStr(b, s).bytes[i] == b.bytes[i]
  {
    SpliceParts(b.bytes, b.cursor, s + [0]);
  }

  lemma StringReadsBack(bytes: seq<byte>, c: nat, s: seq<byte>)
    requires NoNul(s)
    requires c + |s| + 1 <= |bytes|
    ensures ReadCString(Splice(bytes, c, s + [0])[c..]) == Some(s)
  {
    var e := c + |s| + 1;
    var r := Splice(bytes, c, s + [0]);
    assert r[c..] == s + [0] + bytes[e..];
    CStringOfTerminated(s, bytes[e..]);
  }

  lemma PaddedStream(file: seq<byte>, bytes: seq<byte>, c: nat, s: seq<byte>)
    requires Align4(c + |s| + 1) <= |bytes|
    ensures file + Splice(bytes, c, s + [0])[..Align4(c + |s| + 1)]
            == file + bytes[..c] + (s + [0]) + bytes[c + |s| + 1..Align4(c + |s| + 1)]
  {
    var e := c + |s| + 1;
    var a := Align4(e);
    var r := Splice(bytes, c, s + [0]);
    SpliceParts(bytes, c, s + [0]);
    assert r[..a] == r[..e] + r[e..a];
    assert r[e..a] == r[e..][..a - e];
  }

  /** Reading a C string: the bytes before the first NUL, or nothing if no NUL follows. */
  function ReadCString(s: seq<byte>): (r: Option<seq<byte>>)
    ensures r.Some? ==> NoNul(r.value) && |r.value| < |s| && s[|r.value|] == 0
  {
    if |s| == 0 then None
    else if s[0] == 0 then Some([])
    else match ReadCString(s[1..])
      case None => None
      case Some(rest) => Some([s[0]] + rest)
  }

  /** Reading a string written with its NUL recovers the string, whatever follows. */
  lemma {:induction false} CStringOfTerminated(s: seq<byte>, tail: seq<byte>)
    requires NoNul(s)
    ensures ReadCString(s + [0] + tail) == Some(s)
    decreases |s|
  {
    var w := s + [0] + tail;
    if |s| > 0 {
      assert w[0] == s[0];
      assert w[1..] == s[1..] + [0] + tail;
      CStringOfTerminated(s[1..], tail);
      assert [s[0]] + s[1..] == s;
    } else {
      assert w[0] == 0;
    }
  }
}
