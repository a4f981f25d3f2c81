/** Decoded packets and parse errors (`error.rs` and the type declarations of `packet/`). */
module PacketTypes {
  import opened Ints
  import opened Wrappers

  datatype Layer = LinkLayer | Ipv4Layer | Ipv6Layer | TcpLayer | UdpLayer | IcmpLayer | DnsLayer

  datatype Reason =
    | TooManyVlanTags
    | UnknownIpVersion
    | NotVersion4
    | HeaderBelow20
    | TotalBelowHeader
    | NotVersion6
    | TooManyExtensionHeaders
    | DataOffsetBelow5
    | LengthBelowHeader
    | NameTooLong
    | PointerLoop
    | ReservedLabel

  datatype ParseError =
    | Truncated(layer: Layer, needed: nat, available: nat)
    | Malformed(layer: Layer, reason: Reason)

  datatype LinkType = NullLink | Ethernet | Raw

  /** An address is its family and its octets read as one big-endian number. */
  datatype IpAddr = V4(v4: u32) | V6(v6: u128)

  datatype IpHeader = IpHeader(
    src: IpAddr,
    dst: IpAddr,
    proto: byte,
    ttl: byte,
    moreFragments: bool,
    fragmentOffset: u16
  ) {
    predicate IsFragment() {
      moreFragments || fragmentOffset != 0
    }
  }

  datatype TcpHeader = TcpHeader(srcPort: u16, dstPort: u16, seqNo: u32, ackNo: u32, flags: byte, window: u16) {
    /** SYN set and ACK clear. */
    predicate IsSynOnly() {
      flags / 0x02 % 2 == 1 && flags / 0x10 % 2 == 0
    }
  }

  datatype UdpHeader = UdpHeader(srcPort: u16, dstPort: u16, length: u16)
  datatype IcmpHeader = IcmpHeader(icmpType: byte, code: byte, v6: bool)

  datatype Transport =
    | NoTransport
    | Tcp(tcp: TcpHeader)
    | Udp(udp: UdpHeader)
    | Icmp(icmp: IcmpHeader)
    | LaterFragment
    | Other(proto: byte)
  {
    function Ports(): (u16, u16) {
      match this
      case Tcp(h) => (h.srcPort, h.dstPort)
      case Udp(h) => (h.srcPort, h.dstPort)
      case _ => (0, 0)
    }
  }

  datatype DnsQuestion = DnsQuestion(name: bytes, qtype: u16)

  datatype DnsInfo = DnsInfo(
    id: u16,
    isResponse: bool,
    opcode: byte,
    rcode: byte,
    questionCount: u16,
    answerCount: u16,
    question: Option<DnsQuestion>
  )

  datatype App = NoApp | Dns(info: DnsInfo) | DnsError(error: ParseError)

  datatype Packet = Packet(
    ts: u64,
    wireLen: u32,
    ethertype: Option<u16>,
    ip: Option<IpHeader>,
    transport: Transport,
    app: App
  )

  datatype Frame = Frame(ts: u64, wireLen: u32, data: bytes)
}
