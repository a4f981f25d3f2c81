/** The C replay loop (`sniffer-c/src/pcap_replay.c`), and its agreement with the core's own reader. */
module PcapReplay {
  import opened Ints
  import opened Wrappers
  import opened PacketTypes
  import opened Parser
  import opened PcapSpec
  import opened PcapFiles

  const REPLAY_MAX_RECORD: nat := 262_144

  // ---------------------------------------------------------------- stdio

  /** A file opened for reading; `broken` files fail after their last byte instead of ending. */
  class File {
    const data: bytes
    const broken: bool
    var pos: nat
    var eof: bool
    var err: bool

    ghost predicate Valid()
      reads this
    {
      pos <= |data| && !(eof && broken) && (err ==> broken && pos == |data|)
    }

    ghost function Rest(): bytes
      reads this
      requires Valid()
    {
      data[pos..]
    }

    constructor (data: bytes, broken: bool)
      ensures Valid() && Rest() == data && this.data == data && this.broken == broken && !err
    {
      this.data, this.broken := data, broken;
      pos, eof, err := 0, false, false;
    }

    /** Copies the next `n` bytes to the start of the buffer. */
    method Copy(buf: array<byte>, n: nat)
      requires pos + n <= |data| && n <= buf.Length
      modifies buf
      ensures buf[..n] == data[pos..pos + n]
    {
      for i := 0 to n
        invariant buf[..i] == data[pos..pos + i]
      {
        ghost var done := buf[..i];
        buf[i] := data[pos + i];
        assert buf[..i + 1] == done + [data[pos + i]];
        assert data[pos..pos + i + 1] == data[pos..pos + i] + [data[pos + i]];
      }
    }

    /** `fread(buf, 1, n, file)`: as many of `n` bytes as there are, noting why if there are fewer. */
    method Fread(buf: array<byte>, n: nat) returns (got: nat)
      requires Valid() && n <= buf.Length
      modifies this, buf
      ensures Valid() && got == Min(n, |old(Rest())|)
      ensures old(Rest()) == buf[..got] + Rest()
      ensures if got < n then eof == !broken && err == broken else eof == old(eof) && err == old(err)
    {
      got := Min(n, |data| - pos);
      Copy(buf, got);
      assert data[pos..] == data[pos..pos + got] + data[pos + got..];
      pos := pos + got;
      if got < n {
        eof, err := !broken, broken;
      }
    }
  }

  // ---------------------------------------------------------------- words

  /** Byte swapping by shifts and masks; each `|` joins bits that do not overlap, so it is a sum. */
  function Swap32(v: u32): u32 {
    v / 0x100_0000 + v / 0x100 / 0x100 % 0x100 * 0x100 + v / 0x100 % 0x100 * 0x1_0000 + v % 0x100 * 0x100_0000
  }

  function ReadLe32(p: bytes, at: nat): u32
    requires at + 4 <= |p|
  {
    p[at] as int + p[at + 1] as int * 0x100 + p[at + 2] as int * 0x1_0000 + p[at + 3] as int * 0x100_0000
  }

  function Field32(p: bytes, at: nat, swapped: bool): u32
    requires at + 4 <= |p|
  {
    if swapped then Swap32(ReadLe32(p, at)) else ReadLe32(p, at)
  }

  lemma SwapDigits(a: byte, b: byte, c: byte, d: byte)
    ensures Swap32(a + b * 0x100 + c * 0x1_0000 + d * 0x100_0000) == d + c * 0x100 + b * 0x1_0000 + a * 0x100_0000
  {
    var v := a + b * 0x100 + c * 0x1_0000 + d * 0x100_0000;
    assert v / 0x100 == b + c * 0x100 + d * 0x1_0000;
    assert v / 0x100 / 0x100 == c + d * 0x100;
    assert v / 0x100_0000 == d;
  }

  /** The C swap reads a little-endian word in big-endian order, as the Rust one does. */
  lemma Field32IsWord(l: Layout, p: bytes, at: nat)
    requires at + 4 <= |p|
    ensures Field32(p, at, l.bigEndian) == Word(l, p, at)
    ensures Swap32(ReadLe32(p, at)) == Be32(p, at) && ReadLe32(p, at) == Le32(p, at)
  {
    hide Swap32;
    SwapDigits(p[at], p[at + 1], p[at + 2], p[at + 3]);
  }

  lemma PrefixField(l: Layout, whole: bytes, prefix: bytes, at: nat)
    requires at + 4 <= |prefix| && prefix <= whole
    ensures Word(l, whole, at) == Field32(prefix, at, l.bigEndian)
  {
    hide Field32, Word, ReadU32;
    Field32IsWord(l, prefix, at);
    PrefixWord(l, whole, prefix, at);
  }

  lemma RecordFields(l: Layout, whole: bytes, rec: bytes)
    requires |rec| == RECORD_HEADER_LEN && rec <= whole
    ensures Field32(rec, 0, l.bigEndian) == Word(l, whole, 0) && Field32(rec, 4, l.bigEndian) == Word(l, whole, 4)
    ensures Field32(rec, 8, l.bigEndian) == Word(l, whole, 8) && Field32(rec, 12, l.bigEndian) == Word(l, whole, 12)
  {
    hide Field32, Word;
    PrefixField(l, whole, rec, 0);
    PrefixField(l, whole, rec, 4);
    PrefixField(l, whole, rec, 8);
    PrefixField(l, whole, rec, 12);
  }

  lemma HeaderFields(whole: bytes, header: bytes)
    requires |header| == GLOBAL_HEADER_LEN && header <= whole
    ensures ReadLe32(header, 0) == Le32(whole, 0) && Swap32(ReadLe32(header, 0)) == Be32(whole, 0)
    ensures forall l: Layout :: Field32(header, 20, l.bigEndian) == Word(l, whole, 20)
  {
    hide Swap32, ReadLe32;
    PrefixField(Layout(false, false), whole, header, 0);
    PrefixField(Layout(true, false), whole, header, 0);
    forall l: Layout
      ensures Field32(header, 20, l.bigEndian) == Word(l, whole, 20)
    {
      PrefixField(l, whole, header, 20);
    }
  }

  // ---------------------------------------------------------------- the sniffer

  datatype Reason = ShortFile | NoMagic | HeaderCut | TooLarge(len: u32) | DataCut
  datatype Status = OK | FormatError(why: Reason) | ReadError

  /** What a record-level failure means for a file that ends rather than fails. */
  function StopOf(status: Status): Option<Stop> {
    match status
    case OK => Some(CleanEnd)
    case ReadError => None
    case FormatError(why) =>
      match why
      case HeaderCut => Some(TruncatedRecord)
      case DataCut => Some(TruncatedRecord)
      case TooLarge(len) => Some(RecordTooLarge(len))
      case ShortFile => None
      case NoMagic => None
  }

  /** The conversion of a 32-bit word to `int`. */
  function ToInt(v: u32): (i: int)
    ensures -0x8000_0000 <= i < 0x8000_0000
  {
    if v < 0x8000_0000 then v else v - 0x1_0000_0000
  }

  class Sniffer {
    const file: File
    const buf: array<byte>
    var swapped: bool
    var nanos: bool
    var linkType: int
    /** The frames handed to the callback. */
    var delivered: seq<Record>

    ghost predicate Valid()
      reads this, file
    {
      file.Valid() && buf.Length == REPLAY_MAX_RECORD && !file.err
    }

    constructor (data: bytes, broken: bool)
      ensures Valid() && fresh(file) && fresh(buf) && file.Rest() == data && file.broken == broken && delivered == []
    {
      file := new File(data, broken);
      buf := new byte[REPLAY_MAX_RECORD];
      swapped, nanos, linkType, delivered := false, false, 0, [];
    }

    /** Recognises the four magic numbers. */
    method ParseMagic(magic: u32) returns (status: Status)
      modifies this`swapped, this`nanos
      ensures var be := Swap32(magic);
              if magic == MAGIC_MICROS || magic == MAGIC_NANOS then status == OK && !swapped && nanos == (magic == MAGIC_NANOS)
              else if be == MAGIC_MICROS || be == MAGIC_NANOS then status == OK && swapped && nanos == (be == MAGIC_NANOS)
              else status == FormatError(NoMagic)
    {
      var m := magic;
      if magic == MAGIC_MICROS || magic == MAGIC_NANOS {
        swapped := false;
      } else if Swap32(magic) == MAGIC_MICROS || Swap32(magic) == MAGIC_NANOS {
        swapped := true;
        m := Swap32(magic);
      } else {
        return FormatError(NoMagic);
      }
      nanos := m == MAGIC_NANOS;
      status := OK;
    }

    /** Reads the file header; any link type is accepted here. */
    method ReplayOpen() returns (status: Status)
      requires Valid()
      modifies this, file
      ensures delivered == old(delivered)
      ensures var rest := old(file.Rest());
              if |rest| < GLOBAL_HEADER_LEN then status == FormatError(ShortFile)
              else match LayoutOf(rest)
                   case None => status == FormatError(NoMagic)
                   case Some(l) => status == OK && Valid() && Layout(swapped, nanos) == l && linkType == ToInt(Word(l, rest, 20))
                                   && file.Rest() == rest[GLOBAL_HEADER_LEN..]
    {
      hide Le32, Be32, ReadLe32, Swap32, Field32, Word;
      var header := new byte[GLOBAL_HEADER_LEN];
      var got := file.Fread(header, GLOBAL_HEADER_LEN);
      if got != GLOBAL_HEADER_LEN {
        return FormatError(ShortFile);
      }
      assert header[..got] == header[..];
      HeaderFields(old(file.Rest()), header[..]);
      status := ParseMagic(ReadLe32(header[..], 0));
      if status != OK {
        return;
      }
      assert LayoutOf(old(file.Rest())) == Some(Layout(swapped, nanos));
      assert Layout(swapped, nanos).bigEndian == swapped;
      linkType := ToInt(Field32(header[..], 20, swapped));
    }

    /**
     * Delivers records until the file ends, a record cannot be read, or `maxFrames` (unless 0) were delivered. A read
     * error is always reported as a truncated record: no path of the loop ends in `ReadError`.
     */
    method ReplayLoop(maxFrames: nat) returns (status: Status)
      requires Valid() && delivered == []
      modifies this`delivered, file, buf
      ensures var (all, stop) := Contents(Layout(swapped, nanos), old(file.Rest()));
              if 0 < maxFrames <= |all| then status == OK && delivered == all[..maxFrames]
              else && delivered == all
                   && StopOf(status) == Some(if file.broken && stop.CleanEnd? then TruncatedRecord else stop)
      ensures status != ReadError
    {
      hide PcapSpec.NextRecord, Contents;
      ghost var l := Layout(swapped, nanos);
      ghost var (all, stop) := Contents(l, file.Rest());
      while true
        invariant Valid() && (maxFrames > 0 ==> |delivered| < maxFrames)
        invariant all == delivered + Contents(l, file.Rest()).0 && stop == Contents(l, file.Rest()).1
        decreases |file.Rest()|
      {
        assert delivered + [] == delivered;
        ContentsUnfold(l, file.Rest());
        var more, ended := ReplayRecord();
        if !more {
          status := ended;
          if status != OK {
            return;
          }
          break;
        }
        assert delivered[..|delivered| - 1] + ([delivered[|delivered| - 1]] + Contents(l, file.Rest()).0)
               == delivered + Contents(l, file.Rest()).0;
        if maxFrames > 0 && |delivered| >= maxFrames {
          break;
        }
      }
      if file.err {
        return ReadError;
      }
      status := OK;
    }

    /** One round of the loop: delivers the next record or says how the file ended. */
    method ReplayRecord() returns (more: bool, status: Status)
      requires Valid()
      modifies this`delivered, file, buf
      ensures file.Valid() && buf.Length == REPLAY_MAX_RECORD
      ensures match PcapSpec.NextRecord(Layout(swapped, nanos), old(file.Rest()))
              case Got(record, rest) => more && Valid() && delivered == old(delivered) + [record] && file.Rest() == rest
              case Stopped(stop) =>
                && !more && delivered == old(delivered)
                && StopOf(status) == Some(if file.broken && stop.CleanEnd? then TruncatedRecord else stop)
                && (status == OK ==> !file.err)
    {
      hide Word, Field32;
      ghost var l := Layout(swapped, nanos);
      ghost var whole := file.Rest();
      var rec := new byte[RECORD_HEADER_LEN];
      var got := file.Fread(rec, RECORD_HEADER_LEN);
      if got == 0 && file.eof {
        return false, OK;
      }
      if got != RECORD_HEADER_LEN {
        return false, FormatError(HeaderCut);
      }
      var header := rec[..];
      assert rec[..got] == header;
      RecordFields(l, whole, header);
      assert l.bigEndian == swapped;
      var caplen, len := Field32(header, 8, swapped), Field32(header, 12, swapped);
      if caplen > REPLAY_MAX_RECORD {
        return false, FormatError(TooLarge(caplen));
      }
      got := file.Fread(buf, caplen);
      if got != caplen {
        return false, FormatError(DataCut);
      }
      NextIsGot(l, whole, header, buf[..caplen], file.Rest());
      var frac := Field32(header, 4, swapped);
      var ts: u64 := Field32(header, 0, swapped) * MICROS_PER_SEC + if nanos then frac / NANOS_PER_MICRO else frac;
      delivered := delivered + [Record(ts, len, buf[..caplen])];
      more, status := true, OK;
    }
  }

  // ---------------------------------------------------------------- agreement

  /** What a replay comes to: which link type, which records, and how it ended. */
  datatype Replay<E> = Rejected | Replayed(link: LinkType, records: seq<Record>, end: E)

  /** The link type that installing a sniffer accepts; a negative number becomes an unsupported one. */
  function InstalledLink(linkType: int): Option<LinkType> {
    if 0 <= linkType < 0x1_0000_0000 then LinkFromRaw(linkType) else LinkFromRaw(0xFFFF_FFFF)
  }

  lemma InstalledLinkIsRaw(v: u32)
    ensures InstalledLink(ToInt(v)) == LinkFromRaw(v)
  {
  }

  function RustStop(end: Option<PcapError>): Option<Stop> {
    if end.None? then Some(CleanEnd) else if end.value.Io? then None else Some(end.value.stop)
  }

  method ReplayInRust(data: bytes, broken: bool, splits: seq<nat>) returns (r: Replay<Option<PcapError>>)
    ensures match ReadFile(data)
            case Err(_) => r.Rejected?
            case Ok((link, records, stop)) =>
              r == Replayed(link, records, if broken && !stop.RecordTooLarge? then Some(Io)
                                           else if stop.CleanEnd? then None else Some(PcapError.Stop(stop)))
  {
    hide Contents, LayoutOf, Word, LinkFromRaw;
    var source := new Source(data, broken, splits);
    var reader := PcapReader.Open(source);
    if reader.Err? {
      return Rejected;
    }
    var records, error := reader.value.ReadAll();
    r := Replayed(reader.value.link, records, error);
  }

  method ReplayInC(data: bytes, broken: bool) returns (r: Replay<Status>)
    ensures match ReadFile(data)
            case Err(_) => r.Rejected?
            case Ok((link, records, stop)) =>
              && r.Replayed? && r.link == link && r.records == records && r.end != ReadError
              && StopOf(r.end) == Some(if broken && stop.CleanEnd? then TruncatedRecord else stop)
  {
    hide Contents, LayoutOf, Word, LinkFromRaw;
    var s := new Sniffer(data, broken);
    var status := s.ReplayOpen();
    if status != OK {
      return Rejected;
    }
    InstalledLinkIsRaw(Word(Layout(s.swapped, s.nanos), data, 20));
    var link := InstalledLink(s.linkType);
    if link.None? {
      return Rejected;
    }
    status := s.ReplayLoop(0);
    r := Replayed(link.value, s.delivered, status);
  }

  /**
   * The two independent readers agree on every byte string, however the Rust source splits its reads: they accept the
   * same files, with the same link type, read the same records, and stop for the same reason. Only when the file
   * itself fails do they differ: Rust reports the read error, C a truncated record.
   */
  method ReplayBoth(data: bytes, broken: bool, splits: seq<nat>)
    returns (rust: Replay<Option<PcapError>>, c: Replay<Status>)
    ensures rust.Rejected? <==> c.Rejected?
    ensures rust.Replayed? ==> rust.link == c.link && rust.records == c.records
    ensures rust.Replayed? && !broken ==> RustStop(rust.end) == StopOf(c.end) && StopOf(c.end).Some?
    ensures rust.Replayed? && broken ==>
              if rust.end == Some(Io) then StopOf(c.end) == Some(TruncatedRecord)
              else RustStop(rust.end) == StopOf(c.end) && RustStop(rust.end).value.RecordTooLarge?
  {
    rust := ReplayInRust(data, broken, splits);
    c := ReplayInC(data, broken);
  }
}
