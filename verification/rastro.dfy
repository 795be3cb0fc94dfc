/** Constants, type letters and alignment of the public trace header (include/rastro.h). */
module Rastro {
  import opened Options
  import opened Bytes

  /** Arena capacity used when RST_BUFFER_SIZE is absent or unparsable, in bytes. */
  const DefaultBufferSize: nat := 102400

  const Microseconds: nat := 1000000
  const Nanoseconds: nat := 1000000000

  /** Ticks per second of the default clock: nanoseconds with clock_gettime, else microseconds. */
  function ClockResolution(haveClockGettime: bool): (r: nat)
    ensures r == Nanoseconds || r == Microseconds
    ensures r > 0
  {
    if haveClockGettime then Nanoseconds else Microseconds
  }

  /** The event type occupies the 14 bits that survive `type << 18` in a 32-bit header. */
  const EventTypeMask: nat := 0x3fff

  /** `x & RST_EVENT_TYPE_MASK` on a two's-complement int: the mask is 2^14 - 1, so the
      result is the Euclidean remainder modulo 2^14, negative x included. */
  function MaskType(x: int): (r: nat)
    ensures r <= EventTypeMask
  {
    x % 0x4000
  }

  /** The reserved INIT and STOP types: -1 and -2 cut down to the type mask. */
  const EventInit: nat := MaskType(-1)
  const EventStop: nat := MaskType(-2)

  /** INIT and STOP are the two largest types, distinct, and already within the mask. */
  lemma ReservedTypes()
    ensures EventInit == 0x3fff && EventStop == 0x3ffe
    ensures EventInit != EventStop
    ensures MaskType(EventInit) == EventInit && MaskType(EventStop) == EventStop
    ensures EventInit == EventTypeMask && EventStop + 1 == EventInit
  {
  }

  const MaxFieldsPerType: nat := 15
  const MaxStrLen: nat := 100

  /** The field types an event signature is made of. */
  datatype FieldType = U8 | U16 | U32 | U64 | Float | Double | Str

  /** The letter naming each field type in generated function names (LETTER_* and LETTER_*_QUOTE). */
  function Letter(t: FieldType): char
  {
    match t
    case U8 => 'c'
    case U16 => 'w'
    case U32 => 'i'
    case U64 => 'l'
    case Float => 'f'
    case Double => 'd'
    case Str => 's'
  }

  /** The field type a letter names, if any. */
  function TypeOfLetter(c: char): (r: Option<FieldType>)
    ensures r.Some? ==> Letter(r.value) == c
  {
    if c == 'c' then Some(U8)
    else if c == 'w' then Some(U16)
    else if c == 'i' then Some(U32)
    else if c == 'l' then Some(U64)
    else if c == 'f' then Some(Float)
    else if c == 'd' then Some(Double)
    else if c == 's' then Some(Str)
    else None
  }

  /** The seven letters are pairwise distinct, so each names exactly one type. */
  lemma LettersDistinct(t: FieldType, u: FieldType)
    ensures Letter(t) == Letter(u) <==> t == u
    ensures TypeOfLetter(Letter(t)) == Some(t)
  {
  }

  /** Byte width of a fixed-size field, sizeof of its C type on the host. */
  function Width(t: FieldType): (w: nat)
    requires t != Str
    ensures w == 1 || w == 2 || w == 4 || w == 8
  {
    match t
    case U8 => 1
    case U16 => 2
    case U32 => 4
    case U64 => 8
    case Float => 4
    case Double => 8
  }

  /** The letter string of a signature, as it appears in rst_event_<letters>_ptr. */
  function Letters(sig: seq<FieldType>): (r: string)
    ensures |r| == |sig|
  {
    if |sig| == 0 then [] else [Letter(sig[0])] + Letters(sig[1..])
  }

  /** Parsing a letter string back into a signature. */
  function ParseLetters(s: string): (r: Option<seq<FieldType>>)
    ensures r.Some? ==> |r.value| == |s|
  {
    if |s| == 0 then Some([])
    else match (TypeOfLetter(s[0]), ParseLetters(s[1..]))
      case (Some(t), Some(rest)) => Some([t] + rest)
      case _ => None
  }

  lemma {:induction false} ParseLettersOfLetters(sig: seq<FieldType>)
    ensures ParseLetters(Letters(sig)) == Some(sig)
    decreases |sig|
  {
    if |sig| > 0 {
      var s := Letters(sig);
      assert s[0] == Letter(sig[0]) && s[1..] == Letters(sig[1..]);
      LettersDistinct(sig[0], sig[0]);
      ParseLettersOfLetters(sig[1..]);
      assert [sig[0]] + sig[1..] == sig;
    }
  }

  /** A signature's letter string determines the signature. */
  lemma LettersInjective(sig1: seq<FieldType>, sig2: seq<FieldType>)
    requires Letters(sig1) == Letters(sig2)
    ensures sig1 == sig2
  {
    ParseLettersOfLetters(sig1);
    ParseLettersOfLetters(sig2);
  }

  /** How many fields of type `t` a signature has (one rst_counters_t entry). */
  function Count(sig: seq<FieldType>, t: FieldType): (n: nat)
    ensures n <= |sig|
  {
    if |sig| == 0 then 0 else (if sig[0] == t then 1 else 0) + Count(sig[1..], t)
  }

  /** The sum of the seven counters of rst_counters_t. */
  function CountAll(sig: seq<FieldType>): nat
  {
    Count(sig, U8) + Count(sig, U16) + Count(sig, U32) + Count(sig, U64)
    + Count(sig, Float) + Count(sig, Double) + Count(sig, Str)
  }

  /** The seven counters of a decoded event add up to its number of fields. */
  lemma {:induction false} CountersCoverSignature(sig: seq<FieldType>)
    ensures CountAll(sig) == |sig|
    decreases |sig|
  {
    if |sig| > 0 {
      CountersCoverSignature(sig[1..]);
    }
  }

  /** A decoded event (rst_event_t) holds at most 15 values of each type. */
  predicate FitsDecodedEvent(sig: seq<FieldType>)
  {
    forall t :: Count(sig, t) <= MaxFieldsPerType
  }

  /** A string fits a decoded event's 100-byte slot together with its terminating NUL. */
  predicate FitsStringSlot(s: seq<byte>)
  {
    |s| + 1 <= MaxStrLen
  }

  lemma DecodedEventBounds(sig: seq<FieldType>, s: seq<byte>)
    requires FitsDecodedEvent(sig)
    requires FitsStringSlot(s)
    ensures |sig| <= 7 * MaxFieldsPerType
    ensures |s| <= 99
  {
    CountersCoverSignature(sig);
    assert Count(sig, U8) <= 15 && Count(sig, U16) <= 15 && Count(sig, U32) <= 15;
    assert Count(sig, U64) <= 15 && Count(sig, Float) <= 15;
    assert Count(sig, Double) <= 15 && Count(sig, Str) <= 15;
  }

  /** ALIGN_PTR on an address: add 3 and clear the two low bits. */
  function AlignPtr(p: nat): (r: nat)
    ensures r % 4 == 0
    ensures p <= r < p + 4
  {
    (p + 3) - (p + 3) % 4
  }

  /** ALIGN_PTR on an offset into the arena. */
  function Align4(c: nat): (r: nat)
    ensures r % 4 == 0
    ensures c <= r < c + 4
  {
    AlignPtr(c)
  }

  /** ALIGN_PTR yields the least multiple of 4 not below its argument, and fixes aligned values. */
  lemma AlignLeast(p: nat, k: nat)
    requires k % 4 == 0 && p <= k
    ensures AlignPtr(p) <= k
    ensures p % 4 == 0 ==> AlignPtr(p) == p
  {
  }

  /** With a 4-aligned arena base, aligning the address is aligning the offset. */
  lemma AlignOffset(base: nat, c: nat)
    ensures base % 4 == 0 ==> Align4(base + c) == base + Align4(c)
  {
    if base % 4 == 0 {
      var q := base / 4;
      DivModUnique(base + c + 3, 4, q + (c + 3) / 4, (c + 3) % 4);
    }
  }
}
