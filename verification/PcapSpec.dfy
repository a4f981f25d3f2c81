/**
 * Capture files as byte strings: what a file contains, independently of any reader, and which byte strings contain
 * what. Both readers and the writer are proved against this module.
 */
module PcapSpec {
  import opened Ints
  import opened Wrappers
  import opened PacketTypes
  import opened Parser

  const MAGIC_MICROS: u32 := 0xA1B2_C3D4
  const MAGIC_NANOS: u32 := 0xA1B2_3C4D
  const GLOBAL_HEADER_LEN: nat := 24
  const RECORD_HEADER_LEN: nat := 16
  const MAX_RECORD_LEN: u32 := 262_144
  const MICROS_PER_SEC: u64 := 1_000_000
  const NANOS_PER_MICRO: u32 := 1_000

  /** How a file spells its words: byte order and the unit of the fractional timestamp. */
  datatype Layout = Layout(bigEndian: bool, nanos: bool)

  datatype Record = Record(ts: u64, wireLen: u32, data: bytes)
  datatype Stop = CleanEnd | TruncatedRecord | RecordTooLarge(len: u32)

  function Word(l: Layout, b: bytes, at: nat): u32
    requires at + 4 <= |b|
  {
    if l.bigEndian then Be32(b, at) else Le32(b, at)
  }

  /** Seconds and a fraction as microseconds; nanoseconds are rounded down. */
  function Stamp(l: Layout, sec: u32, frac: u32): u64 {
    sec * MICROS_PER_SEC + if l.nanos then frac / NANOS_PER_MICRO else frac
  }

  /** The layout a file's first four bytes announce. */
  function LayoutOf(b: bytes): Option<Layout>
    requires |b| >= 4
  {
    if Le32(b, 0) == MAGIC_MICROS then Some(Layout(false, false))
    else if Le32(b, 0) == MAGIC_NANOS then Some(Layout(false, true))
    else if Be32(b, 0) == MAGIC_MICROS then Some(Layout(true, false))
    else if Be32(b, 0) == MAGIC_NANOS then Some(Layout(true, true))
    else None
  }

  // ---------------------------------------------------------------- opening

  datatype OpenError = ShortHeader | BadMagic(magic: u32) | UnsupportedLinkType(raw: u32) | UnreadableHeader

  datatype Opened = Opened(layout: Layout, link: LinkType)

  function OpenFile(b: bytes): Result<Opened, OpenError> {
    if |b| < GLOBAL_HEADER_LEN then Err(ShortHeader)
    else
      match LayoutOf(b)
      case None => Err(BadMagic(Le32(b, 0)))
      case Some(layout) =>
        match LinkFromRaw(Word(layout, b, 20))
        case None => Err(UnsupportedLinkType(Word(layout, b, 20)))
        case Some(link) => Ok(Opened(layout, link))
  }

  // ---------------------------------------------------------------- reading

  datatype Next = Got(record: Record, rest: bytes) | Stopped(stop: Stop)

  function NextRecord(l: Layout, b: bytes): (n: Next)
    ensures n.Got? ==> |n.rest| < |b|
  {
    if b == [] then Stopped(CleanEnd)
    else if |b| < RECORD_HEADER_LEN then Stopped(TruncatedRecord)
    else
      var len := Word(l, b, 8);
      if len > MAX_RECORD_LEN then Stopped(RecordTooLarge(len))
      else if |b| < RECORD_HEADER_LEN + len then Stopped(TruncatedRecord)
      else Got(Record(Stamp(l, Word(l, b, 0), Word(l, b, 4)), Word(l, b, 12), b[RECORD_HEADER_LEN..RECORD_HEADER_LEN + len]),
               b[RECORD_HEADER_LEN + len..])
  }

  /** All records up to where reading stops, and why it stops. */
  function Contents(l: Layout, b: bytes): (seq<Record>, Stop)
    decreases |b|
  {
    match NextRecord(l, b)
    case Stopped(stop) => ([], stop)
    case Got(record, rest) =>
      var (records, stop) := Contents(l, rest);
      ([record] + records, stop)
  }

  lemma {:induction false} ContentsUnfold(l: Layout, b: bytes)
    ensures match NextRecord(l, b)
            case Stopped(stop) => Contents(l, b) == ([], stop)
            case Got(record, rest) => Contents(l, b) == ([record] + Contents(l, rest).0, Contents(l, rest).1)
  {
  }

  // ---------------------------------------------------------------- spelling

  /** A record as a file spells it: the data's length is not stored twice. */
  datatype Spelled = Spelled(sec: u32, frac: u32, wireLen: u32, data: bytes)

  function Spell(l: Layout, v: u32): (b: bytes)
    ensures |b| == 4 && Word(l, b, 0) == v
  {
    if l.bigEndian then ToBe32(v) else ToLe32(v)
  }

  function Encode(l: Layout, r: Spelled): (b: bytes)
    requires |r.data| < 0x1_0000_0000
    ensures |b| == RECORD_HEADER_LEN + |r.data|
  {
    Spell(l, r.sec) + Spell(l, r.frac) + Spell(l, |r.data|) + Spell(l, r.wireLen) + r.data
  }

  predicate Spellable(raws: seq<Spelled>) {
    forall i :: 0 <= i < |raws| ==> |raws[i].data| < 0x1_0000_0000
  }

  function EncodeAll(l: Layout, raws: seq<Spelled>): bytes
    requires Spellable(raws)
  {
    if raws == [] then [] else Encode(l, raws[0]) + EncodeAll(l, raws[1..])
  }

  predicate Fits(r: Spelled) {
    |r.data| <= 262_144
  }

  predicate AllFit(raws: seq<Spelled>) {
    forall i :: 0 <= i < |raws| ==> Fits(raws[i])
  }

  function Meaning(l: Layout, r: Spelled): Record {
    Record(Stamp(l, r.sec, r.frac), r.wireLen, r.data)
  }

  function Meanings(l: Layout, raws: seq<Spelled>): (records: seq<Record>)
    ensures |records| == |raws|
    ensures forall i :: 0 <= i < |raws| ==> records[i] == Meaning(l, raws[i])
  {
    seq(|raws|, i requires 0 <= i < |raws| => Meaning(l, raws[i]))
  }

  // ---------------------------------------------------------------- words

  lemma WordSlice(l: Layout, b: bytes, at: nat)
    requires at + 4 <= |b|
    ensures Word(l, b, at) == Word(l, b[at..at + 4], 0)
  {
  }

  lemma WordAt(l: Layout, before: bytes, word: bytes, after: bytes)
    requires |word| == 4
    ensures Word(l, before + word + after, |before|) == Word(l, word, 0)
  {
    hide Word;
    WordSlice(l, before + word + after, |before|);
    assert (before + word + after)[|before|..|before| + 4] == word;
  }

  lemma Parts(s: bytes, f: bytes, n: bytes, w: bytes, data: bytes, tail: bytes)
    requires |s| == |f| == |n| == |w| == 4
    ensures var b := s + f + n + w + data + tail;
            && b[0..4] == s && b[4..8] == f && b[8..12] == n && b[12..16] == w
            && b[16..16 + |data|] == data && b[16 + |data|..] == tail
  {
  }

  lemma HeaderWords(l: Layout, r: Spelled, tail: bytes)
    requires |r.data| < 0x1_0000_0000
    ensures var b := Encode(l, r) + tail;
            && Word(l, b, 0) == r.sec && Word(l, b, 4) == r.frac && Word(l, b, 8) == |r.data| && Word(l, b, 12) == r.wireLen
            && b[RECORD_HEADER_LEN..RECORD_HEADER_LEN + |r.data|] == r.data && b[RECORD_HEADER_LEN + |r.data|..] == tail
  {
    hide Word, Spell;
    var b := Encode(l, r) + tail;
    Parts(Spell(l, r.sec), Spell(l, r.frac), Spell(l, |r.data|), Spell(l, r.wireLen), r.data, tail);
    WordSlice(l, b, 0);
    WordSlice(l, b, 4);
    WordSlice(l, b, 8);
    WordSlice(l, b, 12);
  }

  // ---------------------------------------------------------------- what a byte string contains

  lemma {:induction false} NextOfEncoded(l: Layout, r: Spelled, tail: bytes)
    requires |r.data| < 0x1_0000_0000
    ensures NextRecord(l, Encode(l, r) + tail)
            == if Fits(r) then Got(Meaning(l, r), tail) else Stopped(RecordTooLarge(|r.data|))
  {
    hide Word, Encode;
    HeaderWords(l, r, tail);
  }

  /** A cut strictly inside a record loses exactly that record. */
  lemma NextOfCut(l: Layout, r: Spelled, cut: nat)
    requires Fits(r) && 0 < cut < RECORD_HEADER_LEN + |r.data|
    ensures NextRecord(l, Encode(l, r)[..cut]) == Stopped(TruncatedRecord)
  {
    var whole := Encode(l, r);
    if cut >= RECORD_HEADER_LEN {
      HeaderWords(l, r, []);
      assert whole + [] == whole;
      assert Word(l, whole[..cut], 8) == Word(l, whole, 8);
    }
  }

  /** Reading what was spelled gives the records back, and goes on with what follows. */
  lemma {:induction false} ContentsOfEncoded(l: Layout, raws: seq<Spelled>, tail: bytes)
    requires AllFit(raws)
    ensures Contents(l, EncodeAll(l, raws) + tail) == (Meanings(l, raws) + Contents(l, tail).0, Contents(l, tail).1)
  {
    hide Encode, NextRecord, Meaning;
    if raws == [] {
      assert EncodeAll(l, raws) + tail == tail;
      assert Meanings(l, raws) + Contents(l, tail).0 == Contents(l, tail).0;
    } else {
      var rest := EncodeAll(l, raws[1..]) + tail;
      assert EncodeAll(l, raws) + tail == Encode(l, raws[0]) + rest;
      NextOfEncoded(l, raws[0], rest);
      ContentsOfEncoded(l, raws[1..], tail);
      var records := Contents(l, tail).0;
      assert Meanings(l, raws) + records == [Meaning(l, raws[0])] + (Meanings(l, raws[1..]) + records);
    }
  }

  lemma WordRespells(l: Layout, b: bytes, at: nat)
    requires at + 4 <= |b|
    ensures Spell(l, Word(l, b, at)) == b[at..at + 4]
  {
    hide Be32, Le32, ToBe32, ToLe32;
    Respell32(b, at);
    RespellLe32(b, at);
  }

  lemma {:induction false} GotIsEncoded(l: Layout, b: bytes) returns (r: Spelled)
    requires NextRecord(l, b).Got?
    ensures Fits(r) && NextRecord(l, b).record == Meaning(l, r) && b == Encode(l, r) + NextRecord(l, b).rest
  {
    hide Word, Spell;
    var len := Word(l, b, 8);
    r := Spelled(Word(l, b, 0), Word(l, b, 4), Word(l, b, 12), b[RECORD_HEADER_LEN..RECORD_HEADER_LEN + len]);
    WordRespells(l, b, 0);
    WordRespells(l, b, 4);
    WordRespells(l, b, 8);
    WordRespells(l, b, 12);
  }

  lemma {:induction false} NothingEncoded(l: Layout)
    ensures EncodeAll(l, []) == []
  {
  }

  lemma {:induction false} EncodeAllCons(l: Layout, first: Spelled, others: seq<Spelled>)
    requires |first.data| < 0x1_0000_0000 && Spellable(others)
    ensures Spellable([first] + others) && EncodeAll(l, [first] + others) == Encode(l, first) + EncodeAll(l, others)
  {
    assert ([first] + others)[1..] == others;
  }

  /**
   * Every byte string is a spelling of the records read from it, followed by a remainder from which no record can be
   * read and which decides why reading stops. With `ContentsOfEncoded` this characterises `Contents`.
   */
  lemma {:induction false} ContentsDecompose(l: Layout, b: bytes) returns (raws: seq<Spelled>, tail: bytes)
    ensures AllFit(raws) && b == EncodeAll(l, raws) + tail
    ensures Contents(l, b) == (Meanings(l, raws), Contents(l, tail).1) && NextRecord(l, tail) == Stopped(Contents(l, b).1)
    decreases |b|
  {
    hide Encode, NextRecord, Meaning, EncodeAll, Contents;
    ContentsUnfold(l, b);
    match NextRecord(l, b) {
      case Stopped(stop) =>
        raws, tail := [], b;
        NothingEncoded(l);
        assert [] + b == b;
      case Got(record, rest) =>
        var first := GotIsEncoded(l, b);
        var others, left := ContentsDecompose(l, rest);
        raws, tail := [first] + others, left;
        EncodeAllCons(l, first, others);
        assert Meanings(l, raws) == [record] + Meanings(l, others);
        assert Encode(l, first) + EncodeAll(l, others) + tail == Encode(l, first) + (EncodeAll(l, others) + tail);
    }
  }

  // ---------------------------------------------------------------- what words, layouts and times are

  /** Four octets, the most significant first. */
  function Octets(a: byte, b: byte, c: byte, d: byte): int {
    a as int * 0x100_0000 + b as int * 0x1_0000 + c as int * 0x100 + d as int
  }

  lemma WordOctets(l: Layout, b: bytes, at: nat)
    requires at + 4 <= |b|
    ensures Word(l, b, at)
            == if l.bigEndian then Octets(b[at], b[at + 1], b[at + 2], b[at + 3]) else Octets(b[at + 3], b[at + 2], b[at + 1], b[at])
  {
  }

  /** How each layout announces itself. */
  function Announcement(l: Layout): bytes {
    match l
    case Layout(true, false) => [0xA1, 0xB2, 0xC3, 0xD4]
    case Layout(false, false) => [0xD4, 0xC3, 0xB2, 0xA1]
    case Layout(true, true) => [0xA1, 0xB2, 0x3C, 0x4D]
    case Layout(false, true) => [0x4D, 0x3C, 0xB2, 0xA1]
  }

  lemma TwoDigits(base: nat, x: nat, y: nat, x': nat, y': nat)
    requires base in {0x100, 0x1_0000} && y < base && y' < base
    ensures x * base + y == x' * base + y' <==> x == x' && y == y'
  {
    if base == 0x100 {
      assert (x * 0x100 + y) / 0x100 == x && (x' * 0x100 + y') / 0x100 == x';
    } else {
      assert (x * 0x1_0000 + y) / 0x1_0000 == x && (x' * 0x1_0000 + y') / 0x1_0000 == x';
    }
  }

  lemma OctetsDiffer(a: byte, b: byte, c: byte, d: byte, a': byte, b': byte, c': byte, d': byte)
    ensures Octets(a, b, c, d) == Octets(a', b', c', d') <==> a == a' && b == b' && c == c' && d == d'
  {
    var high, low := a as nat * 0x100 + b as nat, c as nat * 0x100 + d as nat;
    var high', low' := a' as nat * 0x100 + b' as nat, c' as nat * 0x100 + d' as nat;
    assert Octets(a, b, c, d) == high * 0x1_0000 + low && Octets(a', b', c', d') == high' * 0x1_0000 + low';
    hide Octets;
    TwoDigits(0x1_0000, high, low, high', low');
    TwoDigits(0x100, a as nat, b as nat, a' as nat, b' as nat);
    TwoDigits(0x100, c as nat, d as nat, c' as nat, d' as nat);
  }

  lemma MagicOctets(b: bytes)
    requires |b| >= 4
    ensures Be32(b, 0) == MAGIC_MICROS <==> b[..4] == Announcement(Layout(true, false))
    ensures Le32(b, 0) == MAGIC_MICROS <==> b[..4] == Announcement(Layout(false, false))
    ensures Be32(b, 0) == MAGIC_NANOS <==> b[..4] == Announcement(Layout(true, true))
    ensures Le32(b, 0) == MAGIC_NANOS <==> b[..4] == Announcement(Layout(false, true))
  {
    WordOctets(Layout(true, false), b, 0);
    WordOctets(Layout(false, false), b, 0);
    assert Octets(0xA1, 0xB2, 0xC3, 0xD4) == MAGIC_MICROS && Octets(0xA1, 0xB2, 0x3C, 0x4D) == MAGIC_NANOS;
    hide Be32, Le32, Octets;
    OctetsDiffer(b[0], b[1], b[2], b[3], 0xA1, 0xB2, 0xC3, 0xD4);
    OctetsDiffer(b[3], b[2], b[1], b[0], 0xA1, 0xB2, 0xC3, 0xD4);
    OctetsDiffer(b[0], b[1], b[2], b[3], 0xA1, 0xB2, 0x3C, 0x4D);
    OctetsDiffer(b[3], b[2], b[1], b[0], 0xA1, 0xB2, 0x3C, 0x4D);
  }

  /** A file has a layout exactly if it starts with that layout's four octets. */
  lemma LayoutIff(b: bytes, l: Layout)
    requires |b| >= 4
    ensures LayoutOf(b) == Some(l) <==> b[..4] == Announcement(l)
  {
    hide Be32, Le32;
    MagicOctets(b);
  }

  /**
   * The times of records in microseconds: the whole second plus the fraction, which a nanosecond file's is rounded down,
   * in either byte order.
   */
  lemma StampMeans(l: Layout, sec: u32, frac: u32)
    ensures l.nanos ==> 1_000 * Stamp(l, sec, frac) <= 1_000_000_000 * sec + frac < 1_000 * Stamp(l, sec, frac) + 1_000
    ensures !l.nanos ==> Stamp(l, sec, frac) == 1_000_000 * sec + frac
  {
  }

  lemma NanosSplit(t: nat)
    ensures t / 1_000_000_000 * 1_000_000 + t % 1_000_000_000 / 1_000 == t / 1_000
  {
    var s, f := t / 1_000_000_000, t % 1_000_000_000;
    assert t == 1_000 * (s * 1_000_000 + f / 1_000) + f % 1_000;
  }

  /**
   * A record spelled from a time in nanoseconds comes back with that time in whole microseconds, and one spelled from a
   * time in microseconds comes back with that time, whatever the byte order and the bytes behind it.
   */
  lemma {:induction false} TimeReturns(l: Layout, t: nat, wireLen: u32, data: bytes, tail: bytes)
    requires t / (if l.nanos then 1_000_000_000 else 1_000_000) < 0x1_0000_0000 && |data| <= 262_144
    ensures var unit := if l.nanos then 1_000_000_000 else 1_000_000;
            var micros := if l.nanos then t / 1_000 else t;
            && micros <= U64_MAX
            && NextRecord(l, Encode(l, Spelled(t / unit, t % unit, wireLen, data)) + tail)
               == Got(Record(micros, wireLen, data), tail)
  {
    hide Encode, NextRecord;
    var unit := if l.nanos then 1_000_000_000 else 1_000_000;
    NextOfEncoded(l, Spelled(t / unit, t % unit, wireLen, data), tail);
    StampMeans(l, t / unit, t % unit);
    NanosSplit(t);
  }

  /** A file opens exactly if it has the 24 octets of a header that starts with a known announcement and names a link type. */
  lemma OpenIff(b: bytes, l: Layout, link: LinkType)
    ensures OpenFile(b) == Ok(Opened(l, link)) <==>
            && |b| >= 24 && b[..4] == Announcement(l)
            && Word(l, b, 20) in (match link case NullLink => {0} case Ethernet => {1} case Raw => {12, 14, 101})
  {
    hide Word, Announcement;
    if |b| >= 24 {
      forall l': Layout
        ensures LayoutOf(b) == Some(l') <==> b[..4] == Announcement(l')
      {
        LayoutIff(b, l');
      }
    }
  }

  /** Why a file does not open. */
  lemma RefusedIff(b: bytes)
    ensures OpenFile(b) == Err(ShortHeader) <==> |b| < 24
    ensures OpenFile(b).Err? && OpenFile(b).error.BadMagic? <==> |b| >= 24 && forall l: Layout :: b[..4] != Announcement(l)
    ensures OpenFile(b).Err? && OpenFile(b).error.UnsupportedLinkType? ==>
              exists l: Layout :: |b| >= 24 && b[..4] == Announcement(l) && OpenFile(b).error.raw == Word(l, b, 20)
    ensures OpenFile(b).Err? && OpenFile(b).error.BadMagic? ==> OpenFile(b).error.magic == Word(Layout(false, false), b, 0)
  {
    hide Announcement, LinkFromRaw, Be32;
    if |b| >= 24 {
      forall l: Layout
        ensures LayoutOf(b) == Some(l) <==> b[..4] == Announcement(l)
      {
        LayoutIff(b, l);
      }
    }
  }

  // ---------------------------------------------------------------- cut files

  /** Where the first `k` records of a spelled list end. */
  function End(raws: seq<Spelled>, k: nat): nat
    requires k <= |raws|
  {
    if k == 0 then 0 else End(raws, k - 1) + 16 + |raws[k - 1].data|
  }

  lemma {:induction false} EncodeAllSnoc(l: Layout, raws: seq<Spelled>, last: Spelled)
    requires Spellable(raws) && |last.data| < 0x1_0000_0000
    ensures Spellable(raws + [last]) && EncodeAll(l, raws + [last]) == EncodeAll(l, raws) + Encode(l, last)
  {
    hide Encode;
    if raws == [] {
      assert [last][1..] == [];
      assert Encode(l, last) + [] == Encode(l, last) == EncodeAll(l, raws) + Encode(l, last);
      assert raws + [last] == [last];
    } else {
      assert (raws + [last])[1..] == raws[1..] + [last];
      EncodeAllSnoc(l, raws[1..], last);
      assert EncodeAll(l, raws + [last]) == Encode(l, raws[0]) + (EncodeAll(l, raws[1..]) + Encode(l, last));
    }
  }

  lemma {:induction false} EndIsLength(l: Layout, raws: seq<Spelled>, k: nat)
    requires Spellable(raws) && k <= |raws|
    ensures |EncodeAll(l, raws[..k])| == End(raws, k)
  {
    hide Encode;
    if k == 0 {
    } else {
      EndIsLength(l, raws, k - 1);
      assert raws[..k] == raws[..k - 1] + [raws[k - 1]];
      EncodeAllSnoc(l, raws[..k - 1], raws[k - 1]);
    }
  }

  lemma {:induction false} EncodeAllSplit(l: Layout, raws: seq<Spelled>, k: nat)
    requires Spellable(raws) && k < |raws|
    ensures EncodeAll(l, raws) == EncodeAll(l, raws[..k]) + (Encode(l, raws[k]) + EncodeAll(l, raws[k + 1..]))
  {
    hide Encode;
    if k == 0 {
      assert raws[..k] == [];
    } else {
      EncodeAllSplit(l, raws[1..], k - 1);
      assert raws[1..][..k - 1] == raws[..k][1..] && raws[1..][k..] == raws[k + 1..];
      assert EncodeAll(l, raws[..k]) == Encode(l, raws[0]) + EncodeAll(l, raws[..k][1..]);
    }
  }

  /**
   * Reading a file cut at any byte gives exactly the records wholly before the cut, and tells a cut on a record
   * boundary from a cut inside a record.
   */
  lemma {:induction false} ContentsOfCut(l: Layout, raws: seq<Spelled>, k: nat, cut: nat)
    requires AllFit(raws) && k <= |raws| && End(raws, k) <= cut <= |EncodeAll(l, raws)|
    requires k < |raws| ==> cut < End(raws, k + 1)
    ensures Contents(l, EncodeAll(l, raws)[..cut])
            == (Meanings(l, raws)[..k], if cut == End(raws, k) then CleanEnd else TruncatedRecord)
  {
    hide Encode, NextRecord, Meaning, Contents, EncodeAll;
    var tail := CutTail(l, raws, k, cut);
    NothingLeft(l);
    ContentsUnfold(l, tail);
    ContentsOfEncoded(l, raws[..k], tail);
    assert Meanings(l, raws[..k]) + [] == Meanings(l, raws)[..k];
  }

  /** What a cut leaves of the record it falls into. */
  lemma {:induction false} CutTail(l: Layout, raws: seq<Spelled>, k: nat, cut: nat) returns (tail: bytes)
    requires AllFit(raws) && k <= |raws| && End(raws, k) <= cut <= |EncodeAll(l, raws)|
    requires k < |raws| ==> cut < End(raws, k + 1)
    ensures EncodeAll(l, raws)[..cut] == EncodeAll(l, raws[..k]) + tail
    ensures NextRecord(l, tail) == Stopped(if cut == End(raws, k) then CleanEnd else TruncatedRecord)
  {
    hide Encode, NextRecord, EncodeAll;
    EndIsLength(l, raws, k);
    NothingLeft(l);
    tail := [];
    if k < |raws| {
      EncodeAllSplit(l, raws, k);
      var n := cut - End(raws, k);
      tail := Encode(l, raws[k])[..n];
      if n > 0 {
        NextOfCut(l, raws[k], n);
      }
    } else {
      assert raws[..k] == raws;
    }
  }

  lemma NothingLeft(l: Layout)
    ensures NextRecord(l, []) == Stopped(CleanEnd)
  {
  }

  /** An oversize record stops the reader, so a file is read back whole exactly when no record is oversize. */
  lemma {:induction false} WholeFileIff(l: Layout, raws: seq<Spelled>)
    requires Spellable(raws)
    ensures Contents(l, EncodeAll(l, raws)) == (Meanings(l, raws), CleanEnd) <==> AllFit(raws)
  {
    hide Encode, NextRecord, Meaning;
    if AllFit(raws) {
      NothingLeft(l);
      ContentsOfEncoded(l, raws, []);
      assert EncodeAll(l, raws) + [] == EncodeAll(l, raws) && Meanings(l, raws) + [] == Meanings(l, raws);
    } else {
      var k := FirstOversize(raws);
      EncodeAllSplit(l, raws, k);
      var tail := EncodeAll(l, raws[k + 1..]);
      NextOfEncoded(l, raws[k], tail);
      ContentsOfEncoded(l, raws[..k], Encode(l, raws[k]) + tail);
    }
  }

  lemma {:induction false} FirstOversize(raws: seq<Spelled>) returns (k: nat)
    requires !AllFit(raws)
    ensures k < |raws| && !Fits(raws[k]) && AllFit(raws[..k])
  {
    k := 0;
    while Fits(raws[k])
      invariant k < |raws| && AllFit(raws[..k]) && exists i :: k <= i < |raws| && !Fits(raws[i])
      decreases |raws| - k
    {
      k := k + 1;
    }
  }
}
