/** The capture file reader and writer of the core (`core/src/pcap.rs`). */
module PcapFiles {
  import opened Ints
  import opened Wrappers
  import opened PacketTypes
  import opened Parser
  import opened PcapSpec

  // ---------------------------------------------------------------- the byte source

  datatype ReadResult = Count(n: nat) | Interrupted | Failed

  /**
   * A reader that delivers `data` in pieces of its own choosing: each read takes the next of `splits`, where 0 stands
   * for an interruption, and once these are used up it delivers all it can. After the last byte it reports the end or,
   * if `broken`, an error.
   */
  class Source {
    const data: bytes
    const broken: bool
    var pos: nat
    var splits: seq<nat>

    ghost predicate Valid()
      reads this
    {
      pos <= |data|
    }

    ghost function Rest(): bytes
      reads this
      requires Valid()
    {
      data[pos..]
    }

    constructor (data: bytes, broken: bool, splits: seq<nat>)
      ensures Valid() && Rest() == data && this.data == data && this.broken == broken
    {
      this.data, this.broken, this.splits := data, broken, splits;
      pos := 0;
    }

    /** Reads into `buf` from `filled` on, as much or as little as the source likes. */
    method Read(buf: array<byte>, filled: nat) returns (r: ReadResult)
      requires Valid() && filled < buf.Length
      modifies this, buf
      ensures Valid()
      ensures r.Count? ==> && filled + r.n <= buf.Length && pos == old(pos) + r.n
                           && buf[..filled + r.n] == old(buf[..filled]) + data[old(pos)..pos]
                           && (r.n == 0 <==> old(pos) == |data|) && |splits| <= |old(splits)|
                           && (r.n == 0 ==> !broken)
      ensures !r.Count? ==> pos == old(pos) && buf[..] == old(buf[..])
      ensures r.Interrupted? ==> |splits| < |old(splits)|
      ensures r.Failed? ==> broken && pos == |data|
    {
      var wanted := buf.Length - filled;
      if splits != [] {
        wanted := Min(wanted, splits[0]);
        splits := splits[1..];
        if wanted == 0 {
          return Interrupted;
        }
      }
      if pos == |data| && broken {
        return Failed;
      }
      var n := Min(wanted, |data| - pos);
      Deliver(buf, filled, n);
      pos := pos + n;
      r := Count(n);
    }

    /** Copies the next `n` bytes. */
    method Deliver(buf: array<byte>, filled: nat, n: nat)
      requires pos + n <= |data| && filled + n <= buf.Length
      modifies buf
      ensures buf[..filled + n] == old(buf[..filled]) + data[pos..pos + n]
    {
      for i := 0 to n
        invariant buf[..filled + i] == old(buf[..filled]) + data[pos..pos + i]
      {
        ghost var done := buf[..filled + i];
        buf[filled + i] := data[pos + i];
        assert buf[..filled + i + 1] == done + [data[pos + i]];
        assert data[pos..pos + i + 1] == data[pos..pos + i] + [data[pos + i]];
      }
    }
  }

  // ---------------------------------------------------------------- filling a buffer

  datatype ReadOutcome = Full | Partial | AtEof | IoError

  /** What filling a buffer of `len` bytes from `rest` comes to, however the source splits its reads. */
  function Filling(rest: bytes, broken: bool, len: nat): ReadOutcome {
    if |rest| >= len then Full else if broken then IoError else if rest == [] then AtEof else Partial
  }

  method ReadFullOrEof(reader: Source, buf: array<byte>) returns (o: ReadOutcome)
    requires reader.Valid()
    modifies reader, buf
    ensures reader.Valid()
    ensures o == Filling(old(reader.Rest()), reader.broken, buf.Length)
    ensures o == Full ==> old(reader.Rest()) == buf[..] + reader.Rest()
  {
    var filled: nat := 0;
    while filled < buf.Length
      invariant reader.Valid() && filled <= buf.Length && reader.pos == old(reader.pos) + filled
      invariant buf[..filled] == reader.data[old(reader.pos)..reader.pos]
      decreases buf.Length - filled + |reader.splits|
    {
      ghost var from, before := reader.pos, buf[..];
      assert buf[..filled] == before[..filled];
      var r := reader.Read(buf, filled);
      match r {
        case Count(n) =>
          if n == 0 {
            return if filled == 0 then AtEof else Partial;
          }
          filled := filled + n;
          assert reader.data[old(reader.pos)..from] + reader.data[from..reader.pos] == reader.data[old(reader.pos)..reader.pos];
        case Interrupted =>
          assert buf[..filled] == buf[..][..filled];
        case Failed =>
          return IoError;
      }
    }
    assert buf[..] == buf[..filled];
    o := Full;
  }

  // ---------------------------------------------------------------- words

  /** `u32::swap_bytes`. */
  function SwapBytes(v: u32): u32 {
    Be32(ToLe32(v), 0)
  }

  function ReadU32(b: bytes, at: nat, swapped: bool): u32
    requires at + 4 <= |b|
  {
    if swapped then SwapBytes(Le32(b, at)) else Le32(b, at)
  }

  /** Swapping the bytes of a little-endian word reads it in big-endian order. */
  lemma {:induction false} ReadU32IsWord(l: Layout, b: bytes, at: nat)
    requires at + 4 <= |b|
    ensures SwapBytes(Le32(b, at)) == Be32(b, at)
    ensures ReadU32(b, at, l.bigEndian) == Word(l, b, at)
  {
    WordRespells(Layout(false, false), b, at);
    assert ToLe32(Le32(b, at)) == b[at..at + 4];
  }

  lemma PrefixWord(l: Layout, whole: bytes, prefix: bytes, at: nat)
    requires at + 4 <= |prefix| && prefix <= whole
    ensures Word(l, whole, at) == Word(l, prefix, at) == ReadU32(prefix, at, l.bigEndian)
  {
    ReadU32IsWord(l, prefix, at);
    assert whole[at] == prefix[at] && whole[at + 1] == prefix[at + 1] && whole[at + 2] == prefix[at + 2] && whole[at + 3] == prefix[at + 3];
  }

  /** The file header's words as `Open` reads them. */
  lemma FileHeaderWords(whole: bytes, header: bytes)
    requires |header| == GLOBAL_HEADER_LEN && header <= whole
    ensures Le32(whole, 0) == Le32(header, 0) && Be32(whole, 0) == SwapBytes(Le32(header, 0))
    ensures forall l: Layout :: Word(l, whole, 20) == ReadU32(header, 20, l.bigEndian)
  {
    hide Be32, Le32, SwapBytes;
    PrefixWord(Layout(false, false), whole, header, 0);
    PrefixWord(Layout(true, false), whole, header, 0);
    ReadU32IsWord(Layout(true, false), header, 0);
    forall l: Layout
      ensures Word(l, whole, 20) == ReadU32(header, 20, l.bigEndian)
    {
      PrefixWord(l, whole, header, 20);
    }
  }

  /** A record header's words as `NextRecord` reads them. */
  lemma RecordHeaderWords(l: Layout, whole: bytes, header: bytes)
    requires |header| == RECORD_HEADER_LEN && header <= whole
    ensures ReadU32(header, 0, l.bigEndian) == Word(l, whole, 0) && ReadU32(header, 4, l.bigEndian) == Word(l, whole, 4)
    ensures ReadU32(header, 8, l.bigEndian) == Word(l, whole, 8) && ReadU32(header, 12, l.bigEndian) == Word(l, whole, 12)
  {
    hide Word, ReadU32;
    PrefixWord(l, whole, header, 0);
    PrefixWord(l, whole, header, 4);
    PrefixWord(l, whole, header, 8);
    PrefixWord(l, whole, header, 12);
  }

  lemma NextIsGot(l: Layout, whole: bytes, header: bytes, data: bytes, rest: bytes)
    requires |header| == RECORD_HEADER_LEN && whole == header + (data + rest)
    requires Word(l, whole, 8) == |data| <= MAX_RECORD_LEN
    ensures PcapSpec.NextRecord(l, whole) == Got(Record(Stamp(l, Word(l, whole, 0), Word(l, whole, 4)), Word(l, whole, 12), data), rest)
  {
    hide Word, Stamp;
  }

  // ---------------------------------------------------------------- the reader

  datatype PcapError = Io | Stop(stop: PcapSpec.Stop)

  class PcapReader {
    const inner: Source
    const link: LinkType
    const swapped: bool
    const nanos: bool

    ghost function Layout(): PcapSpec.Layout {
      PcapSpec.Layout(swapped, nanos)
    }

    constructor Over(inner: Source, link: LinkType, swapped: bool, nanos: bool)
      ensures this.inner == inner && this.link == link && this.swapped == swapped && this.nanos == nanos
    {
      this.inner, this.link, this.swapped, this.nanos := inner, link, swapped, nanos;
    }

    /** Reads the file header; a file is opened exactly when `OpenFile` says so, for the same reason. */
    static method Open(inner: Source) returns (r: Result<PcapReader, OpenError>)
      requires inner.Valid()
      modifies inner
      ensures inner.Valid()
      ensures var rest := old(inner.Rest());
              if |rest| < GLOBAL_HEADER_LEN && inner.broken then r == Err(UnreadableHeader)
              else match OpenFile(rest)
                   case Err(e) => r == Err(e)
                   case Ok(found) =>
                     r.Ok? && fresh(r.value) && r.value.inner == inner && r.value.Layout() == found.layout
                     && r.value.link == found.link && inner.Rest() == rest[GLOBAL_HEADER_LEN..]
    {
      hide Be32, Le32, Word, SwapBytes, ReadU32, LinkFromRaw;
      var buf := new byte[GLOBAL_HEADER_LEN];
      var o := ReadFullOrEof(inner, buf);
      if o != Full {
        return Err(if o == IoError then UnreadableHeader else ShortHeader);
      }
      var header := buf[..];
      FileHeaderWords(old(inner.Rest()), header);
      var rawMagic := Le32(header, 0);
      var swapped, nanos;
      if rawMagic == MAGIC_MICROS {
        swapped, nanos := false, false;
      } else if rawMagic == MAGIC_NANOS {
        swapped, nanos := false, true;
      } else if SwapBytes(rawMagic) == MAGIC_MICROS {
        swapped, nanos := true, false;
      } else if SwapBytes(rawMagic) == MAGIC_NANOS {
        swapped, nanos := true, true;
      } else {
        return Err(BadMagic(rawMagic));
      }
      var rawLink := ReadU32(header, 20, swapped);
      assert rawLink == Word(PcapSpec.Layout(swapped, nanos), old(inner.Rest()), 20);
      var link := LinkFromRaw(rawLink);
      if link.None? {
        return Err(UnsupportedLinkType(rawLink));
      }
      var reader := new PcapReader.Over(inner, link.value, swapped, nanos);
      r := Ok(reader);
    }

    /** Reads one record, or finds out why there is none. */
    method NextRecord() returns (r: Result<Option<Record>, PcapError>)
      requires inner.Valid()
      modifies inner
      ensures inner.Valid()
      ensures match PcapSpec.NextRecord(Layout(), old(inner.Rest()))
              case Got(record, rest) => r == Ok(Some(record)) && inner.Rest() == rest
              case Stopped(stop) => r == (if inner.broken && !stop.RecordTooLarge? then Err(Io)
                                          else if stop.CleanEnd? then Ok(None) else Err(Stop(stop)))
    {
      hide Word, ReadU32;
      var buf := new byte[RECORD_HEADER_LEN];
      var o := ReadFullOrEof(inner, buf);
      match o {
        case IoError => return Err(Io);
        case AtEof => return Ok(None);
        case Partial => return Err(Stop(TruncatedRecord));
        case Full =>
      }
      ghost var whole := old(inner.Rest());
      var header := buf[..];
      RecordHeaderWords(Layout(), whole, header);
      var sec, frac := ReadU32(header, 0, swapped), ReadU32(header, 4, swapped);
      var capLen, wireLen := ReadU32(header, 8, swapped), ReadU32(header, 12, swapped);
      if capLen > MAX_RECORD_LEN {
        return Err(Stop(RecordTooLarge(capLen)));
      }
      ghost var rest := inner.Rest();
      assert |whole| == RECORD_HEADER_LEN + |rest|;
      var data := new byte[capLen];
      o := ReadFullOrEof(inner, data);
      if o != Full {
        return Err(if o == IoError then Io else Stop(TruncatedRecord));
      }
      NextIsGot(Layout(), whole, header, data[..], inner.Rest());
      var micros := if nanos then frac / NANOS_PER_MICRO else frac;
      r := Ok(Some(Record(sec * MICROS_PER_SEC + micros, wireLen, data[..])));
    }

    /** The replay loop of the command line tool: reads records until one cannot be read. */
    method ReadAll() returns (records: seq<Record>, error: Option<PcapError>)
      requires inner.Valid()
      modifies inner
      ensures var (all, stop) := Contents(Layout(), old(inner.Rest()));
              && records == all
              && error == if inner.broken && !stop.RecordTooLarge? then Some(Io)
                          else if stop.CleanEnd? then None else Some(Stop(stop))
    {
      hide PcapSpec.NextRecord;
      records, error := [], None;
      ghost var (all, stop) := Contents(Layout(), inner.Rest());
      while true
        invariant inner.Valid()
        invariant all == records + Contents(Layout(), inner.Rest()).0 && stop == Contents(Layout(), inner.Rest()).1
        decreases |inner.Rest()|
      {
        ghost var left := inner.Rest();
        var next := NextRecord();
        if next.Err? {
          assert records + [] == records;
          return records, Some(next.error);
        }
        if next.value.None? {
          assert records + [] == records;
          return;
        }
        assert records + ([next.value.value] + Contents(Layout(), inner.Rest()).0)
               == records + [next.value.value] + Contents(Layout(), inner.Rest()).0;
        records := records + [next.value.value];
      }
    }
  }

  // ---------------------------------------------------------------- the writer

  const VERSION_MAJOR: u16 := 2
  const VERSION_MINOR: u16 := 4
  const WRITTEN: PcapSpec.Layout := PcapSpec.Layout(false, false)

  function LinkNumber(link: LinkType): (n: u32)
    ensures LinkFromRaw(n) == Some(link)
  {
    match link
    case NullLink => 0
    case Ethernet => 1
    case Raw => 101
  }

  function FileHeader(link: LinkType, snaplen: u32): (b: bytes)
    ensures |b| == GLOBAL_HEADER_LEN
  {
    ToLe32(MAGIC_MICROS) + ToLe16(VERSION_MAJOR) + ToLe16(VERSION_MINOR) + ToLe32(0) + ToLe32(0) + ToLe32(snaplen)
    + ToLe32(LinkNumber(link))
  }

  datatype WriteError = DataTooLarge | TimestampPast2106

  predicate Writable(ts: u64, data: bytes) {
    |data| < 0x1_0000_0000 && ts / MICROS_PER_SEC < 0x1_0000_0000
  }

  function AsWritten(ts: u64, data: bytes): Spelled
    requires Writable(ts, data)
  {
    Spelled(ts / MICROS_PER_SEC, ts % MICROS_PER_SEC, |data|, data)
  }

  lemma WrittenMeaning(ts: u64, data: bytes)
    requires Writable(ts, data)
    ensures Meaning(WRITTEN, AsWritten(ts, data)) == Record(ts, |data|, data)
  {
  }

  datatype Write = Write(ts: u64, data: bytes)

  predicate AllWritable(writes: seq<Write>) {
    forall i :: 0 <= i < |writes| ==> Writable(writes[i].ts, writes[i].data)
  }

  function SpelledWrites(writes: seq<Write>): (raws: seq<Spelled>)
    requires AllWritable(writes)
    ensures |raws| == |writes| && Spellable(raws)
    ensures forall i :: 0 <= i < |writes| ==> raws[i] == AsWritten(writes[i].ts, writes[i].data)
  {
    seq(|writes|, i requires 0 <= i < |writes| => AsWritten(writes[i].ts, writes[i].data))
  }

  lemma SpelledSnoc(writes: seq<Write>, i: nat)
    requires i < |writes| && AllWritable(writes[..i]) && Writable(writes[i].ts, writes[i].data)
    ensures AllWritable(writes[..i + 1])
    ensures SpelledWrites(writes[..i + 1]) == SpelledWrites(writes[..i]) + [AsWritten(writes[i].ts, writes[i].data)]
  {
    hide Writable, AsWritten;
    assert writes[..i + 1] == writes[..i] + [writes[i]];
  }

  lemma JoinParts(out: bytes, ts: u64, data: bytes)
    requires Writable(ts, data)
    ensures var sec, usec, len := ToLe32(ts / MICROS_PER_SEC), ToLe32(ts % MICROS_PER_SEC), ToLe32(|data|);
            out + sec + usec + len + len + data == out + Encode(WRITTEN, AsWritten(ts, data))
  {
    hide ToLe32;
  }

  class PcapWriter {
    var out: bytes
    /** The records written so far. */
    ghost var written: seq<Spelled>
    ghost const start: bytes

    ghost predicate Valid()
      reads this
    {
      Spellable(written) && out == start + EncodeAll(WRITTEN, written)
    }

    constructor (link: LinkType, snaplen: u32)
      ensures Valid() && written == [] && start == FileHeader(link, snaplen)
    {
      out := FileHeader(link, snaplen);
      written, start := [], FileHeader(link, snaplen);
      new;
      assert out + [] == out;
    }

    /** Appends one record, or leaves the file as it is. */
    method WriteRecord(ts: u64, data: bytes) returns (error: Option<WriteError>)
      requires Valid()
      modifies this
      ensures Valid()
      ensures error.None? <==> Writable(ts, data)
      ensures written == if error.None? then old(written) + [AsWritten(ts, data)] else old(written)
    {
      hide EncodeAll, Encode, ToLe32;
      if |data| >= 0x1_0000_0000 {
        return Some(DataTooLarge);
      }
      if ts / MICROS_PER_SEC >= 0x1_0000_0000 {
        return Some(TimestampPast2106);
      }
      var len: u32, sec: u32, usec: u32 := |data|, ts / MICROS_PER_SEC, ts % MICROS_PER_SEC;
      EncodeAllSnoc(WRITTEN, written, AsWritten(ts, data));
      out := out + ToLe32(sec);
      out := out + ToLe32(usec);
      out := out + ToLe32(len);
      out := out + ToLe32(len);
      out := out + data;
      JoinParts(old(out), ts, data);
      assert start + EncodeAll(WRITTEN, old(written)) + Encode(WRITTEN, AsWritten(ts, data))
             == start + (EncodeAll(WRITTEN, old(written)) + Encode(WRITTEN, AsWritten(ts, data)));
      written := written + [AsWritten(ts, data)];
      error := None;
    }

    /** Writes a whole run of records, stopping at the first that cannot be written. */
    method WriteAll(writes: seq<Write>) returns (error: Option<WriteError>)
      requires Valid() && written == []
      modifies this
      ensures Valid()
      ensures error.None? <==> AllWritable(writes)
      ensures error.None? ==> out == start + EncodeAll(WRITTEN, SpelledWrites(writes))
    {
      hide EncodeAll, Writable, AsWritten;
      for i := 0 to |writes|
        invariant Valid() && AllWritable(writes[..i])
        invariant written == SpelledWrites(writes[..i])
      {
        error := WriteRecord(writes[i].ts, writes[i].data);
        if error.Some? {
          return;
        }
        SpelledSnoc(writes, i);
      }
      assert writes[..|writes|] == writes;
      error := None;
    }
  }

  // ---------------------------------------------------------------- written files

  /** The file that writing these records makes. */
  function FileOf(link: LinkType, snaplen: u32, writes: seq<Write>): bytes
    requires AllWritable(writes)
  {
    FileHeader(link, snaplen) + EncodeAll(WRITTEN, SpelledWrites(writes))
  }

  function RecordsOf(writes: seq<Write>): (records: seq<Record>)
    requires AllWritable(writes)
    ensures |records| == |writes|
    ensures forall i :: 0 <= i < |writes| ==> records[i] == Record(writes[i].ts, |writes[i].data|, writes[i].data)
  {
    seq(|writes|, i requires 0 <= i < |writes| => Record(writes[i].ts, |writes[i].data|, writes[i].data))
  }

  /** What a reader makes of a whole file: the link type, the records, and why it stopped. */
  function ReadFile(b: bytes): Result<(LinkType, seq<Record>, PcapSpec.Stop), OpenError> {
    match OpenFile(b)
    case Err(e) => Err(e)
    case Ok(found) =>
      var (records, stop) := Contents(found.layout, b[GLOBAL_HEADER_LEN..]);
      Ok((found.link, records, stop))
  }

  /** A written file begins with these octets: little-endian microseconds, version 2.4, no time zone, snap length, link. */
  lemma HeaderOctets(link: LinkType, snaplen: u32)
    ensures FileHeader(link, snaplen)
            == [0xD4, 0xC3, 0xB2, 0xA1, 2, 0, 4, 0, 0, 0, 0, 0, 0, 0, 0, 0] + ToLe32(snaplen)
               + [match link case NullLink => 0 case Ethernet => 1 case Raw => 101, 0, 0, 0]
  {
  }

  lemma HeaderOpens(link: LinkType, snaplen: u32, rest: bytes)
    ensures OpenFile(FileHeader(link, snaplen) + rest) == Ok(Opened(WRITTEN, link))
  {
    var head := ToLe32(MAGIC_MICROS) + ToLe16(VERSION_MAJOR) + ToLe16(VERSION_MINOR) + ToLe32(0) + ToLe32(0) + ToLe32(snaplen);
    var b := FileHeader(link, snaplen) + rest;
    WordAt(WRITTEN, [], ToLe32(MAGIC_MICROS), b[4..]);
    assert b == [] + ToLe32(MAGIC_MICROS) + b[4..];
    WordAt(WRITTEN, head, ToLe32(LinkNumber(link)), rest);
    assert b == head + ToLe32(LinkNumber(link)) + rest;
  }

  /** Writing then reading is the identity exactly when no record exceeds what readers accept. */
  lemma {:induction false} FileRoundTripIff(link: LinkType, snaplen: u32, writes: seq<Write>)
    requires AllWritable(writes)
    ensures ReadFile(FileOf(link, snaplen, writes)) == Ok((link, RecordsOf(writes), CleanEnd))
            <==> forall i :: 0 <= i < |writes| ==> |writes[i].data| <= 262_144
  {
    hide EncodeAll, Contents, OpenFile, FileHeader, Encode;
    var raws := SpelledWrites(writes);
    WrittenMeanings(writes);
    HeaderOpens(link, snaplen, EncodeAll(WRITTEN, raws));
    assert FileOf(link, snaplen, writes)[GLOBAL_HEADER_LEN..] == EncodeAll(WRITTEN, raws);
    WholeFileIff(WRITTEN, raws);
    assert AllFit(raws) <==> forall i :: 0 <= i < |writes| ==> |writes[i].data| <= 262_144 by {
      assert forall i :: 0 <= i < |writes| ==> raws[i].data == writes[i].data;
    }
  }

  lemma WrittenMeanings(writes: seq<Write>)
    requires AllWritable(writes)
    ensures Meanings(WRITTEN, SpelledWrites(writes)) == RecordsOf(writes)
  {
    forall i | 0 <= i < |writes|
      ensures Meanings(WRITTEN, SpelledWrites(writes))[i] == RecordsOf(writes)[i]
    {
      WrittenMeaning(writes[i].ts, writes[i].data);
    }
  }

  /** Where the `k`-th record of a written file starts. */
  function Boundary(writes: seq<Write>, k: nat): nat
    requires k <= |writes|
  {
    if k == 0 then 24 else Boundary(writes, k - 1) + 16 + |writes[k - 1].data|
  }

  lemma {:induction false} BoundaryIsEnd(writes: seq<Write>, k: nat)
    requires AllWritable(writes) && k <= |writes|
    ensures Boundary(writes, k) == GLOBAL_HEADER_LEN + End(SpelledWrites(writes), k)
  {
    if k == 0 {
    } else {
      BoundaryIsEnd(writes, k - 1);
    }
  }

  /**
   * A file cut at any byte at or after the header reads as the records wholly before the cut, followed by the end of
   * the file if the cut is on a record boundary and by a truncation error otherwise.
   */
  lemma {:induction false} CutFileReads(link: LinkType, snaplen: u32, writes: seq<Write>, k: nat, cut: nat)
    requires AllWritable(writes) && forall i :: 0 <= i < |writes| ==> |writes[i].data| <= 262_144
    requires k <= |writes| && Boundary(writes, k) <= cut <= |FileOf(link, snaplen, writes)|
    requires k < |writes| ==> cut < Boundary(writes, k + 1)
    ensures ReadFile(FileOf(link, snaplen, writes)[..cut])
            == Ok((link, RecordsOf(writes)[..k], if cut == Boundary(writes, k) then CleanEnd else TruncatedRecord))
  {
    hide EncodeAll, Contents, OpenFile, FileHeader, Encode, End;
    var raws := SpelledWrites(writes);
    var body := EncodeAll(WRITTEN, raws);
    BoundaryIsEnd(writes, k);
    if k < |writes| {
      BoundaryIsEnd(writes, k + 1);
    }
    var n := cut - GLOBAL_HEADER_LEN;
    assert FileOf(link, snaplen, writes)[..cut] == FileHeader(link, snaplen) + body[..n];
    HeaderOpens(link, snaplen, body[..n]);
    assert (FileHeader(link, snaplen) + body[..n])[GLOBAL_HEADER_LEN..] == body[..n];
    ContentsOfCut(WRITTEN, raws, k, n);
    WrittenMeanings(writes);
  }

  /** Every cut at or after the header falls after some number of whole records. */
  lemma {:induction false} CutHasBoundary(writes: seq<Write>, cut: nat) returns (k: nat)
    requires GLOBAL_HEADER_LEN <= cut
    ensures k <= |writes| && Boundary(writes, k) <= cut && (k < |writes| ==> cut < Boundary(writes, k + 1))
  {
    k := 0;
    while k < |writes| && Boundary(writes, k + 1) <= cut
      invariant k <= |writes| && Boundary(writes, k) <= cut
    {
      k := k + 1;
    }
  }
}
