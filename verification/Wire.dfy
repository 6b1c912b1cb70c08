/** The Trojan request and UDP framing with their SOCKS5 address forms (src/proto.rs; address
    types as in section 5 of RFC 1928). Indexing past the end of the input, which aborts the
    program, is an outcome of its own. */
module Wire {
  import opened Options

  type byte = b: int | 0 <= b < 256
  type word16 = w: int | 0 <= w < 0x1_0000
  type Octets4 = s: seq<byte> | |s| == 4 witness [0, 0, 0, 0]
  type Segments8 = s: seq<word16> | |s| == 8 witness [0, 0, 0, 0, 0, 0, 0, 0]

  const CONNECT: byte := 1
  const PING: byte := 2
  const UDP_ASSOCIATE: byte := 3
  const MAX_PACKET_SIZE: nat := 1480
  /** A name of 255 bytes with its count and a port. */
  const MAX_ADDRESS_SIZE: nat := 258
  const MAX_FRAME_SIZE: nat := MAX_ADDRESS_SIZE + MAX_PACKET_SIZE + 5
  const IPV4: byte := 1
  const DOMAIN: byte := 3
  const IPV6: byte := 4
  const CR: byte := 13
  const LF: byte := 10

  datatype Ip = V4(octets: Octets4) | V6(segments: Segments8)

  datatype SocketAddr =
    | Addr4(octets: Octets4, port: word16)
    | Addr6(segments: Segments8, port: word16, flow: nat, scope: nat)
  {
    /** What the wire format can carry: everything but flow label and scope. */
    function OnWire(): SocketAddr {
      if Addr6? then Addr6(segments, port, 0, 0) else this
    }
  }

  datatype Sock5Address = Socket(addr: SocketAddr) | Domain(name: seq<byte>, port: word16) | NoAddress

  /** The configured password check, and the text functions of the standard library. */
  datatype Env = Env(
    passLen: nat,
    checkPass: seq<byte> -> bool,
    mentionsHttp: seq<byte> -> bool,
    parseIp: seq<byte> -> Option<Ip>)

  /** The high byte comes first. */
  function ToU16(b: seq<byte>): (w: word16)
    requires |b| >= 2
  {
    (b[0] as int) * 256 + b[1] as int
  }

  function PutU16(w: word16): (b: seq<byte>)
    ensures |b| == 2 && ToU16(b) == w
  {
    [w / 256, w % 256]
  }

  function SocketAddrNew(ip: Ip, port: word16): SocketAddr {
    match ip
    case V4(octets) => Addr4(octets, port)
    case V6(segments) => Addr6(segments, port, 0, 0)
  }

  /** A name that is the text of an IP address stands for that address. */
  function HostAddress(env: Env, name: seq<byte>, port: word16): Sock5Address {
    match env.parseIp(name)
    case Some(ip) => Socket(SocketAddrNew(ip, port))
    case None => Domain(name, port)
  }

  // ---------- parsing ----------

  datatype AddressParse =
    | Address(size: nat, address: Sock5Address)
    | AddressInvalid
    | AddressContinue
    | AddressPanic

  function ParseAddress(env: Env, atyp: byte, b: seq<byte>): (r: AddressParse)
    ensures r.Address? ==> 3 <= r.size <= |b| && r.size <= MAX_ADDRESS_SIZE
    ensures r.AddressPanic? <==> atyp == DOMAIN && b == []
    ensures r.AddressContinue? ==> |b| < MAX_ADDRESS_SIZE
  {
    if atyp == IPV4 then
      if |b| < 6 then AddressContinue
      else Address(6, Socket(Addr4(b[..4], ToU16(b[4..]))))
    else if atyp == DOMAIN then
      if |b| == 0 then AddressPanic
      else
        var length: nat := b[0];
        if |b| < length + 3 then AddressContinue
        else
          Address(length + 3, HostAddress(env, b[1..length + 1], ToU16(b[length + 1..])))
    else if atyp == IPV6 then
      if |b| < 18 then AddressContinue
      else
        var segments := [ToU16(b), ToU16(b[2..]), ToU16(b[4..]), ToU16(b[6..]),
                         ToU16(b[8..]), ToU16(b[10..]), ToU16(b[12..]), ToU16(b[14..])];
        Address(18, Socket(Addr6(segments, ToU16(b[16..]), 0, 0)))
    else AddressInvalid
  }

  datatype UdpParse =
    | Packet(address: Sock5Address, offset: nat, length: nat, payload: seq<byte>)
    | UdpInvalid
    | UdpContinued
    | UdpPanic

  /** `UdpAssociate::parse`; `payload` starts with the datagram and runs to the end of the input. */
  function ParseUdp(env: Env, buffer: seq<byte>): (r: UdpParse)
    ensures r.Packet? ==>
      && 8 <= r.offset <= |buffer| && r.length <= MAX_PACKET_SIZE
      && r.length <= |r.payload| && r.payload[r.length..] == buffer[r.offset..]
    ensures r.UdpPanic? <==> buffer == [DOMAIN]
    ensures r.UdpContinued? ==> |buffer| < MAX_FRAME_SIZE
  {
    if |buffer| < 1 then UdpContinued
    else
      match ParseAddress(env, buffer[0], buffer[1..])
      case AddressInvalid => UdpInvalid
      case AddressContinue => UdpContinued
      case AddressPanic => UdpPanic
      case Address(size, address) =>
        var b := buffer[1 + size..];
        if |b| < 4 then UdpContinued
        else
          var length: nat := ToU16(b);
          if length > MAX_PACKET_SIZE then UdpInvalid
          else if |b| < length + 4 then UdpContinued
          else if b[2] != CR || b[3] != LF then UdpInvalid
          else Packet(address, 1 + size + 4 + length, length, b[4..])
  }

  datatype RequestParse =
    | Request(command: byte, address: Sock5Address, payload: seq<byte>, offset: nat)
    | InvalidProtocol
    | PassThrough
    | Continue
    | RequestPanic

  /** `TrojanRequest::parse`. */
  function ParseRequest(env: Env, buffer: seq<byte>): (r: RequestParse)
    ensures r.Request? ==>
      && r.command in {CONNECT, PING, UDP_ASSOCIATE}
      && r.offset <= |buffer| && r.payload == buffer[r.offset..]
    ensures r.Continue? ==> |buffer| < env.passLen + 4 + MAX_ADDRESS_SIZE
  {
    if |buffer| < env.passLen then
      if env.mentionsHttp(buffer) then PassThrough else Continue
    else if !env.checkPass(buffer[..env.passLen]) then PassThrough
    else
      var r := ParseCommand(env, buffer[env.passLen..]);
      if r.Request? then r.(offset := env.passLen + r.offset) else r
  }

  /** The part after the password. */
  function ParseCommand(env: Env, b: seq<byte>): (r: RequestParse)
    ensures r.Request? ==>
      && r.command in {CONNECT, PING, UDP_ASSOCIATE}
      && r.offset <= |b| && r.payload == b[r.offset..]
    ensures r.Continue? ==> |b| < 4 + MAX_ADDRESS_SIZE
  {
    if |b| < 2 then Continue
    else if b[0] != CR || b[1] != LF then InvalidProtocol
    else if |b| < 5 then Continue
    else if b[2] != CONNECT && b[2] != UDP_ASSOCIATE && b[2] != PING then InvalidProtocol
    else
      match ParseAddress(env, b[3], b[4..])
      case AddressInvalid => InvalidProtocol
      case AddressContinue => Continue
      case AddressPanic => RequestPanic
      case Address(size, address) =>
        var t := b[4 + size..];
        if |t| == 0 then RequestPanic
        else if t[0] != CR then InvalidProtocol
        else if |t| == 1 then RequestPanic
        else if t[1] != LF then InvalidProtocol
        else Request(b[2], address, t[2..], 6 + size)
  }

  // ---------- generating ----------

  /** Each word with its high byte first. */
  function BigEndian(words: seq<word16>): (b: seq<byte>)
    ensures |b| == 2 * |words|
  {
    seq(2 * |words|, i requires 0 <= i < 2 * |words| => PutU16(words[i / 2])[i % 2])
  }

  lemma WordAt(words: seq<word16>, b: seq<byte>, i: nat)
    requires i < |words| && 2 * |words| <= |b|
    requires b[2 * i] == BigEndian(words)[2 * i] && b[2 * i + 1] == BigEndian(words)[2 * i + 1]
    ensures ToU16(b[2 * i..]) == words[i]
  {
    assert b[2 * i..][0] == b[2 * i] && b[2 * i..][1] == b[2 * i + 1];
  }

  /** Words read from bytes are written back as the same bytes. */
  lemma WordsBack(words: seq<word16>, b: seq<byte>)
    requires |b| == 2 * |words| && forall i :: 0 <= i < |words| ==> words[i] == ToU16(b[2 * i..])
    ensures BigEndian(words) == b
  {
    forall j | 0 <= j < |b| ensures BigEndian(words)[j] == b[j] {
      var i := j / 2;
      assert b[2 * i..][0] == b[2 * i] && b[2 * i..][1] == b[2 * i + 1];
    }
  }

  function AddressBytes(addr: SocketAddr): (b: seq<byte>)
    ensures |b| == if addr.Addr4? then 7 else 19
  {
    match addr
    case Addr4(octets, port) => [IPV4] + octets + PutU16(port)
    case Addr6(segments, port, _, _) => [IPV6] + BigEndian(segments) + PutU16(port)
  }

  function UdpHeader(addr: SocketAddr, length: word16): seq<byte> {
    AddressBytes(addr) + PutU16(length) + [CR, LF]
  }

  function RequestBytes(pass: seq<byte>, command: byte, addr: SocketAddr): seq<byte> {
    pass + [CR, LF, command] + AddressBytes(addr) + [CR, LF]
  }

  /** A growable buffer; the `generate` functions append to it in place. */
  class BytesMut {
    var bytes: seq<byte>

    constructor ()
      ensures bytes == []
    {
      bytes := [];
    }

    method PutU8(b: byte)
      modifies this
      ensures bytes == old(bytes) + [b]
    {
      bytes := bytes + [b];
    }

    method ExtendFromSlice(b: seq<byte>)
      modifies this
      ensures bytes == old(bytes) + b
    {
      bytes := bytes + b;
    }
  }

  /** `Sock5Address::generate`. */
  method GenerateAddress(buffer: BytesMut, addr: SocketAddr)
    modifies buffer
    ensures buffer.bytes == old(buffer.bytes) + AddressBytes(addr)
  {
    hide BigEndian, PutU16;
    match addr {
      case Addr4(octets, _) =>
        buffer.PutU8(IPV4);
        buffer.ExtendFromSlice(octets);
      case Addr6(s, _, _, _) =>
        buffer.PutU8(IPV6);
        buffer.ExtendFromSlice(BigEndian(s));
    }
    buffer.ExtendFromSlice(PutU16(addr.port));
  }

  /** `UdpAssociate::generate`. */
  method GenerateUdp(buffer: BytesMut, addr: SocketAddr, length: word16)
    modifies buffer
    ensures buffer.bytes == old(buffer.bytes) + UdpHeader(addr, length)
  {
    GenerateAddress(buffer, addr);
    buffer.ExtendFromSlice(PutU16(length));
    buffer.PutU8(CR);
    buffer.PutU8(LF);
  }

  /** `TrojanRequest::generate`. */
  method GenerateRequest(buffer: BytesMut, pass: seq<byte>, command: byte, addr: SocketAddr)
    modifies buffer
    ensures buffer.bytes == old(buffer.bytes) + RequestBytes(pass, command, addr)
  {
    hide AddressBytes;
    buffer.ExtendFromSlice(pass);
    buffer.PutU8(CR);
    buffer.PutU8(LF);
    buffer.PutU8(command);
    GenerateAddress(buffer, addr);
    buffer.PutU8(CR);
    buffer.PutU8(LF);
  }

  // ---------- round trips ----------

  lemma PortFirst(port: word16, rest: seq<byte>)
    ensures ToU16(PutU16(port) + rest) == port
  {
  }

  lemma Parses6(env: Env, s: Segments8, port: word16, b: seq<byte>)
    requires |b| >= 18 && ToU16(b[16..]) == port
    requires forall i :: 0 <= i < 8 ==> ToU16(b[2 * i..]) == s[i]
    ensures ParseAddress(env, IPV6, b) == Address(18, Socket(Addr6(s, port, 0, 0)))
  {
    hide ToU16;
    assert ToU16(b[2 * 0..]) == s[0] && b[2 * 0..] == b;
    assert ToU16(b[2 * 1..]) == s[1] && ToU16(b[2 * 2..]) == s[2] && ToU16(b[2 * 3..]) == s[3];
    assert ToU16(b[2 * 4..]) == s[4] && ToU16(b[2 * 5..]) == s[5] && ToU16(b[2 * 6..]) == s[6];
    assert ToU16(b[2 * 7..]) == s[7];
    assert [s[0], s[1], s[2], s[3], s[4], s[5], s[6], s[7]] == s;
  }

  lemma RoundTrip6(env: Env, s: Segments8, port: word16, rest: seq<byte>)
    ensures ParseAddress(env, IPV6, BigEndian(s) + (PutU16(port) + rest)) == Address(18, Socket(Addr6(s, port, 0, 0)))
  {
    hide BigEndian, PutU16, ToU16, ParseAddress;
    var b := BigEndian(s) + (PutU16(port) + rest);
    forall i | 0 <= i < 8 ensures ToU16(b[2 * i..]) == s[i] { WordAt(s, b, i); }
    assert b[16..] == PutU16(port) + rest;
    PortFirst(port, rest);
    Parses6(env, s, port, b);
  }

  lemma RoundTrip4(env: Env, octets: Octets4, port: word16, rest: seq<byte>)
    ensures ParseAddress(env, IPV4, octets + (PutU16(port) + rest)) == Address(6, Socket(Addr4(octets, port)))
  {
    hide PutU16, ToU16;
    var b := octets + (PutU16(port) + rest);
    assert b[..4] == octets && b[4..] == PutU16(port) + rest;
    PortFirst(port, rest);
  }

  lemma AddressRoundTrip(env: Env, addr: SocketAddr, rest: seq<byte>)
    ensures var b := AddressBytes(addr) + rest;
            ParseAddress(env, b[0], b[1..]) == Address(|AddressBytes(addr)| - 1, Socket(addr.OnWire()))
  {
    hide BigEndian, PutU16, ToU16, ParseAddress;
    var b := (AddressBytes(addr) + rest)[1..];
    match addr
    case Addr4(octets, port) =>
      RoundTrip4(env, octets, port, rest);
      assert b == octets + (PutU16(port) + rest);
    case Addr6(s, port, _, _) =>
      RoundTrip6(env, s, port, rest);
      assert b == BigEndian(s) + (PutU16(port) + rest);
  }

  /** A generated datagram followed by anything parses back to its address, length and exact
      extent; lengths beyond the packet limit are rejected. */
  lemma UdpRoundTrip(env: Env, addr: SocketAddr, payload: seq<byte>, rest: seq<byte>)
    requires |payload| < 0x1_0000
    ensures var header := UdpHeader(addr, |payload|);
            ParseUdp(env, header + payload + rest) ==
              if |payload| <= MAX_PACKET_SIZE
              then Packet(Socket(addr.OnWire()), |header| + |payload|, |payload|, payload + rest)
              else UdpInvalid
  {
    hide AddressBytes, ParseAddress, PutU16;
    var header := UdpHeader(addr, |payload|);
    var a := AddressBytes(addr);
    var t := PutU16(|payload|) + [CR, LF] + (payload + rest);
    assert header + payload + rest == a + t;
    AddressRoundTrip(env, addr, t);
    assert (a + t)[1 + (|a| - 1)..] == t;
    assert ToU16(t) == ToU16(PutU16(|payload|)) && t[2] == CR && t[3] == LF;
    assert t[4..] == payload + rest;
  }

  /** A generated request followed by anything parses back to its command, address, header
      length and remainder. */
  lemma RequestRoundTrip(env: Env, pass: seq<byte>, command: byte, addr: SocketAddr, rest: seq<byte>)
    requires |pass| == env.passLen && env.checkPass(pass)
    requires command in {CONNECT, PING, UDP_ASSOCIATE}
    ensures var header := RequestBytes(pass, command, addr);
            ParseRequest(env, header + rest) == Request(command, Socket(addr.OnWire()), rest, |header|)
  {
    hide AddressBytes, ParseCommand;
    var b := [CR, LF, command] + AddressBytes(addr) + ([CR, LF] + rest);
    var buffer := RequestBytes(pass, command, addr) + rest;
    assert buffer == pass + b;
    assert buffer[..env.passLen] == pass && buffer[env.passLen..] == b;
    CommandRoundTrip(env, command, addr, rest);
  }

  lemma CommandRoundTrip(env: Env, command: byte, addr: SocketAddr, rest: seq<byte>)
    requires command in {CONNECT, PING, UDP_ASSOCIATE}
    ensures ParseCommand(env, [CR, LF, command] + AddressBytes(addr) + ([CR, LF] + rest)) ==
              Request(command, Socket(addr.OnWire()), rest, |AddressBytes(addr)| + 5)
  {
    hide AddressBytes, ParseAddress;
    var a, t := AddressBytes(addr), [CR, LF] + rest;
    var b := [CR, LF, command] + a + t;
    AddressRoundTrip(env, addr, t);
    assert b[3] == (a + t)[0] && b[4..] == (a + t)[1..];
    assert b[3 + |a|..] == t && t[2..] == rest;
  }

  // ---------- what a successful parse says about its input ----------

  /** What a name stands for: the address of which it is the text, or itself. */
  predicate IsHost(env: Env, name: seq<byte>, port: nat, address: Sock5Address) {
    match env.parseIp(name)
    case Some(V4(octets)) => address.Socket? && address.addr.Addr4? && address.addr.octets == octets && address.addr.port == port
    case Some(V6(segments)) =>
      && address.Socket? && address.addr.Addr6? && address.addr.segments == segments && address.addr.port == port
      && address.addr.flow == 0 && address.addr.scope == 0
    case None => address.Domain? && address.name == name && address.port == port
  }

  /** The wire form of an address, byte by byte, as in section 5 of RFC 1928: type 1 and four octets, type 4
      and eight big-endian segments, or type 3 and a counted name; then the port, high byte first. */
  predicate IsAddressField(env: Env, field: seq<byte>, address: Sock5Address) {
    && |field| >= 4
    && var n := |field|;
       var port := 256 * (field[n - 2] as int) + field[n - 1] as int;
       if field[0] == 1 then
         n == 7 && address.Socket? && address.addr.Addr4? && address.addr.octets == field[1..5] && address.addr.port == port
       else if field[0] == 4 then
         && n == 19 && address.Socket? && address.addr.Addr6?
         && (forall i :: 0 <= i < 8 ==> address.addr.segments[i] == 256 * (field[1 + 2 * i] as int) + field[2 + 2 * i] as int)
         && address.addr.port == port && address.addr.flow == 0 && address.addr.scope == 0
       else
         field[0] == 3 && field[1] == n - 4 && IsHost(env, field[2..n - 2], port, address)
  }

  /** A generated address has its wire form, with flow label and scope zeroed. */
  lemma GeneratedField(env: Env, addr: SocketAddr)
    ensures IsAddressField(env, AddressBytes(addr), Socket(addr.OnWire()))
  {
    var b := AddressBytes(addr);
    match addr
    case Addr4(octets, port) =>
      assert b[1..5] == octets;
    case Addr6(segments, port, _, _) =>
      forall i | 0 <= i < 8 ensures segments[i] == 256 * (b[1 + 2 * i] as int) + (b[2 + 2 * i] as int) {
        assert b[1 + 2 * i] == BigEndian(segments)[2 * i] && b[2 + 2 * i] == BigEndian(segments)[2 * i + 1];
      }
  }

  /** Two wire forms of one address are the same, unless one has the text of the address. */
  lemma FieldUnique(env: Env, field: seq<byte>, addr: SocketAddr)
    requires IsAddressField(env, field, Socket(addr)) && field[0] != 3
    ensures field == AddressBytes(addr) && addr.OnWire() == addr
  {
    if field[0] == 1 {
      assert field == [field[0]] + field[1..5] + [field[5], field[6]];
    } else {
      FieldUnique6(env, field, addr);
    }
  }

  lemma FieldUnique6(env: Env, field: seq<byte>, addr: SocketAddr)
    requires IsAddressField(env, field, Socket(addr)) && field[0] == 4
    ensures field == AddressBytes(addr)
  {
    var middle := field[1..17];
    forall i | 0 <= i < 8 ensures addr.segments[i] == ToU16(middle[2 * i..]) {
      assert middle[2 * i..][0] == field[1 + 2 * i] && middle[2 * i..][1] == field[2 + 2 * i];
    }
    hide BigEndian;
    WordsBack(addr.segments, middle);
    assert field[17..19] == PutU16(addr.port);
    assert field == [field[0]] + middle + field[17..19];
  }

  /** A generated header: the address, the length with its high byte first, and a line break. */
  lemma HeaderLayout(env: Env, addr: SocketAddr, length: word16)
    ensures var h := UdpHeader(addr, length);
            && |h| >= 8
            && var n := |h| - 4;
               && IsAddressField(env, h[..n], Socket(addr.OnWire()))
               && 256 * (h[n] as int) + h[n + 1] as int == length && h[n + 2] == 13 && h[n + 3] == 10
  {
    hide AddressBytes, IsAddressField;
    GeneratedField(env, addr);
    var h := UdpHeader(addr, length);
    assert h[..|h| - 4] == AddressBytes(addr);
  }

  /** A generated request: the password, a line break, the command, the address and a line break. */
  lemma RequestLayout(env: Env, pass: seq<byte>, command: byte, addr: SocketAddr)
    ensures var b, n := RequestBytes(pass, command, addr), |pass|;
            && |b| >= n + 9 && b[..n] == pass && b[n] == 13 && b[n + 1] == 10 && b[n + 2] == command
            && IsAddressField(env, b[n + 3..|b| - 2], Socket(addr.OnWire()))
            && b[|b| - 2] == 13 && b[|b| - 1] == 10
  {
    hide AddressBytes, IsAddressField;
    GeneratedField(env, addr);
    var b := RequestBytes(pass, command, addr);
    assert b[|pass| + 3..|b| - 2] == AddressBytes(addr);
  }

  lemma ParsedAddress6(env: Env, b: seq<byte>)
    requires |b| >= 18
    ensures var r := ParseAddress(env, IPV6, b);
            r.Address? && r.size == 18 && IsAddressField(env, [IPV6] + b[..18], r.address)
  {
    var addr := ParseAddress(env, IPV6, b).address.addr;
    var field := [IPV6] + b[..18];
    assert b[0..] == b;
    assert forall i :: 0 <= i < 8 ==> addr.segments[i] == ToU16(b[2 * i..]);
    forall i | 0 <= i < 8 ensures addr.segments[i] == 256 * (field[1 + 2 * i] as int) + (field[2 + 2 * i] as int) {
      assert field[1 + 2 * i] == b[2 * i] == b[2 * i..][0] && field[2 + 2 * i] == b[2 * i + 1] == b[2 * i..][1];
    }
  }

  /** The bytes an address was parsed from are its wire form. */
  lemma ParsedAddress(env: Env, atyp: byte, b: seq<byte>)
    requires ParseAddress(env, atyp, b).Address?
    ensures var r := ParseAddress(env, atyp, b); IsAddressField(env, [atyp] + b[..r.size], r.address)
  {
    var r := ParseAddress(env, atyp, b);
    var field := [atyp] + b[..r.size];
    if atyp == DOMAIN {
      var length: nat := b[0];
      assert field[2..|field| - 2] == b[1..length + 1];
      assert field[|field| - 2..] == b[..r.size][length + 1..];
      assert b[length + 1..][0] == field[|field| - 2] && b[length + 1..][1] == field[|field| - 1];
    } else if atyp == IPV4 {
      assert field[1..5] == b[..4];
      assert b[4..][0] == field[5] && b[4..][1] == field[6];
    } else {
      ParsedAddress6(env, b);
    }
  }

  /** Every wire form of an address parses to it, whatever follows. */
  lemma AddressFieldParses(env: Env, field: seq<byte>, address: Sock5Address, rest: seq<byte>)
    requires IsAddressField(env, field, address)
    ensures var b := field + rest;
            ParseAddress(env, b[0], b[1..]) == Address(|field| - 1, address)
  {
    if field[0] == 3 {
      var b := (field + rest)[1..];
      assert b[1..b[0] + 1] == field[2..|field| - 2];
      assert b[b[0] + 1..][0] == field[|field| - 2] && b[b[0] + 1..][1] == field[|field| - 1];
    } else {
      FieldUnique(env, field, address.addr);
      AddressRoundTrip(env, address.addr, rest);
    }
  }

  /** The first `offset` bytes are an address, a length, a line break and that many bytes. */
  predicate IsDatagramFrame(env: Env, buffer: seq<byte>, address: Sock5Address, offset: nat, length: nat) {
    && length <= 1480 && length + 5 <= offset <= |buffer|
    && var n := offset - length - 4;
       && IsAddressField(env, buffer[..n], address)
       && 256 * (buffer[n] as int) + buffer[n + 1] as int == length && buffer[n + 2] == 13 && buffer[n + 3] == 10
  }

  lemma HeadAndRest(b: seq<byte>, i: nat, n: nat)
    requires i + 1 + n <= |b|
    ensures [b[i]] + b[i + 1..][..n] == b[i..i + 1 + n]
  {
  }

  lemma ParsedPacket(env: Env, buffer: seq<byte>)
    requires ParseUdp(env, buffer).Packet?
    ensures var p := ParseUdp(env, buffer); IsDatagramFrame(env, buffer, p.address, p.offset, p.length)
  {
    hide ParseAddress, IsAddressField;
    ParsedAddress(env, buffer[0], buffer[1..]);
    var size := ParseAddress(env, buffer[0], buffer[1..]).size;
    HeadAndRest(buffer, 0, size);
  }

  lemma FrameParses(env: Env, buffer: seq<byte>, address: Sock5Address, offset: nat, length: nat)
    requires IsDatagramFrame(env, buffer, address, offset, length)
    ensures ParseUdp(env, buffer) == Packet(address, offset, length, buffer[offset - length..])
  {
    hide ParseAddress, IsAddressField;
    var n := offset - length - 4;
    AddressFieldParses(env, buffer[..n], address, buffer[n..]);
    assert buffer[..n] + buffer[n..] == buffer;
    assert buffer[n..][4..] == buffer[offset - length..];
  }

  /** `parse` answers `Packet` exactly for a framed datagram of at most 1480 bytes; what follows the
      header is its payload. */
  lemma PacketIff(env: Env, buffer: seq<byte>, address: Sock5Address, offset: nat, length: nat, payload: seq<byte>)
    ensures
      ParseUdp(env, buffer) == Packet(address, offset, length, payload)
      <==> IsDatagramFrame(env, buffer, address, offset, length) && payload == buffer[offset - length..]
  {
    hide ParseUdp, IsDatagramFrame;
    if ParseUdp(env, buffer).Packet? {
      var p := ParseUdp(env, buffer);
      ParsedPacket(env, buffer);
      FrameParses(env, buffer, p.address, p.offset, p.length);
    }
    if IsDatagramFrame(env, buffer, address, offset, length) {
      FrameParses(env, buffer, address, offset, length);
    }
  }

  /** The part of a request behind the password. */
  predicate IsCommand(env: Env, b: seq<byte>, command: byte, address: Sock5Address, offset: nat) {
    && 6 <= offset <= |b|
    && b[0] == 13 && b[1] == 10
    && b[2] == command && 1 <= command <= 3
    && IsAddressField(env, b[3..offset - 2], address)
    && b[offset - 2] == 13 && b[offset - 1] == 10
  }

  lemma ParsedCommand(env: Env, b: seq<byte>)
    requires ParseCommand(env, b).Request?
    ensures var p := ParseCommand(env, b); IsCommand(env, b, p.command, p.address, p.offset)
  {
    hide ParseAddress, IsAddressField;
    ParsedAddress(env, b[3], b[4..]);
    var size := ParseAddress(env, b[3], b[4..]).size;
    HeadAndRest(b, 3, size);
  }

  lemma CommandParses(env: Env, b: seq<byte>, command: byte, address: Sock5Address, offset: nat)
    requires IsCommand(env, b, command, address, offset)
    ensures ParseCommand(env, b) == Request(command, address, b[offset..], offset)
  {
    hide ParseAddress, IsAddressField;
    var field := b[3..offset - 2];
    AddressFieldParses(env, field, address, b[offset - 2..]);
    assert b[3..] == field + b[offset - 2..];
    assert b[4..] == b[3..][1..];
    assert b[offset - 2..][2..] == b[offset..];
  }

  /** A request at the front of `b`: an accepted password and a command behind it. */
  predicate IsRequestAt(env: Env, b: seq<byte>, command: byte, address: Sock5Address, offset: nat) {
    && env.passLen <= offset <= |b| && env.checkPass(b[..env.passLen])
    && IsCommand(env, b[env.passLen..], command, address, offset - env.passLen)
  }

  /** There is no request at the front of `b`. */
  ghost predicate NoRequest(env: Env, b: seq<byte>) {
    forall command, address, offset :: !IsRequestAt(env, b, command, address, offset)
  }

  /** `parse` answers with a request exactly for the password, a line break, a known command, an
      address and another line break; the rest is payload. */
  lemma RequestIff(env: Env, buffer: seq<byte>, command: byte, address: Sock5Address, payload: seq<byte>, offset: nat)
    ensures
      ParseRequest(env, buffer) == Request(command, address, payload, offset)
      <==>
      IsRequestAt(env, buffer, command, address, offset) && payload == buffer[offset..]
  {
    hide ParseCommand, IsCommand;
    if |buffer| >= env.passLen {
      var b := buffer[env.passLen..];
      if ParseCommand(env, b).Request? { ParsedCommand(env, b); }
      if env.passLen <= offset <= |buffer| && IsCommand(env, b, command, address, offset - env.passLen) {
        CommandParses(env, b, command, address, offset - env.passLen);
        assert b[offset - env.passLen..] == buffer[offset..];
      }
    }
  }

  // ---------- what the parsers say of anything else ----------

  /** How long the wire form at the front of `b` is. */
  function FieldSize(b: seq<byte>): nat
    requires b != [] && (b[0] == 3 ==> |b| >= 2)
  {
    if b[0] == 1 then 7 else if b[0] == 4 then 19 else if b[0] == 3 then 4 + b[1] as int else 0
  }

  /** The parser waits for more of a datagram exactly if the input is a beginning of one as far as the
      address type and the length go; with `PacketIff` and the panic on a lone type byte that leaves all
      other inputs to be rejected. */
  lemma UdpWaitsIff(env: Env, buffer: seq<byte>)
    ensures ParseUdp(env, buffer).UdpContinued? <==>
      || buffer == []
      || (&& buffer[0] in {1, 3, 4} && (buffer[0] == 3 ==> |buffer| >= 2)
          && var n := FieldSize(buffer);
             || |buffer| < n + 4
             || (var length := 256 * (buffer[n] as int) + buffer[n + 1] as int; length <= 1480 && |buffer| < n + 4 + length))
  {
    if buffer != [] && buffer[0] in {1, 3, 4} && (buffer[0] == 3 ==> |buffer| >= 2) && |buffer| >= FieldSize(buffer) {
      var n := FieldSize(buffer);
      assert buffer[1..][..n - 1] == buffer[1..n];
      assert |buffer| >= n + 4 ==> buffer[n..][0] == buffer[n] && buffer[n..][1] == buffer[n + 1];
    }
  }

  /** A first read is passed through if it is short and mentions HTTP or if its password is wrong; it is
      waited for if it is short and does not, or if what follows an accepted password is a beginning of
      a request as far as line break, command and address type go. With `RequestIff` and
      `RequestPanicIff` that leaves all others to be rejected. */
  lemma RequestOtherwise(env: Env, buffer: seq<byte>)
    ensures ParseRequest(env, buffer).PassThrough? <==>
      if |buffer| < env.passLen then env.mentionsHttp(buffer) else !env.checkPass(buffer[..env.passLen])
    ensures ParseRequest(env, buffer).Continue? <==>
      if |buffer| < env.passLen then !env.mentionsHttp(buffer)
      else env.checkPass(buffer[..env.passLen]) && CommandWaits(buffer[env.passLen..])
  {
  }

  predicate CommandWaits(b: seq<byte>) {
    || |b| < 2
    || (&& b[0] == 13 && b[1] == 10
        && (|b| < 5 || (1 <= b[2] <= 3 && b[3] in {1, 3, 4} && |b| - 3 < FieldSize(b[3..]))))
  }

  /** The parser finds the request if there is one, and nothing otherwise. */
  lemma ParseFindsRequest(env: Env, b: seq<byte>)
    ensures var p := ParseRequest(env, b);
            if p.Request? then IsRequestAt(env, b, p.command, p.address, p.offset) else NoRequest(env, b)
  {
    hide ParseRequest, IsRequestAt;
    var p := ParseRequest(env, b);
    if p.Request? {
      RequestIff(env, b, p.command, p.address, p.payload, p.offset);
    } else {
      forall command, address, offset: nat ensures !IsRequestAt(env, b, command, address, offset) {
        if IsRequestAt(env, b, command, address, offset) {
          RequestInside(env, b, command, address, offset);
          RequestIff(env, b, command, address, b[offset..], offset);
        }
      }
    }
  }

  lemma RequestInside(env: Env, b: seq<byte>, command: byte, address: Sock5Address, offset: nat)
    requires IsRequestAt(env, b, command, address, offset)
    ensures offset <= |b|
  {
  }

  lemma CommandStable(env: Env, b: seq<byte>, more: seq<byte>, command: byte, address: Sock5Address, offset: nat)
    requires IsCommand(env, b, command, address, offset)
    ensures IsCommand(env, b + more, command, address, offset)
  {
    hide IsAddressField;
    assert (b + more)[3..offset - 2] == b[3..offset - 2];
  }

  /** A parsed request does not change when more bytes arrive behind it. */
  lemma RequestStable(env: Env, b: seq<byte>, more: seq<byte>)
    requires ParseRequest(env, b).Request?
    ensures var r := ParseRequest(env, b);
            ParseRequest(env, b + more) == r.(payload := r.payload + more)
  {
    hide ParseRequest, IsCommand;
    var r, n := ParseRequest(env, b), env.passLen;
    RequestIff(env, b, r.command, r.address, r.payload, r.offset);
    RequestIff(env, b + more, r.command, r.address, r.payload + more, r.offset);
    CommandStable(env, b[n..], more, r.command, r.address, r.offset - n);
    assert (b + more)[..n] == b[..n] && (b + more)[n..] == b[n..] + more;
    assert (b + more)[r.offset..] == b[r.offset..] + more;
  }

  /** Some address has this wire form. */
  ghost predicate IsSomeAddress(env: Env, field: seq<byte>) {
    exists address :: IsAddressField(env, field, address)
  }

  /** A request that ends where the parser does not expect it to: right behind the address, or
      between the two bytes of the line break that follows it. */
  ghost predicate IsCutCommand(env: Env, b: seq<byte>) {
    && |b| >= 4
    && b[0] == 13 && b[1] == 10 && 1 <= b[2] <= 3
    && (IsSomeAddress(env, b[3..]) || (b[|b| - 1] == 13 && IsSomeAddress(env, b[3..|b| - 1])))
  }

  ghost predicate IsCutRequest(env: Env, buffer: seq<byte>) {
    && env.passLen <= |buffer| && env.checkPass(buffer[..env.passLen])
    && IsCutCommand(env, buffer[env.passLen..])
  }

  lemma PanicMeansCut(env: Env, b: seq<byte>)
    requires ParseCommand(env, b).RequestPanic?
    ensures IsCutCommand(env, b)
  {
    hide IsAddressField, ParseAddress;
    var p := ParseAddress(env, b[3], b[4..]);
    ParsedAddress(env, b[3], b[4..]);
    HeadAndRest(b, 3, p.size);
    var n := 4 + p.size;
    assert IsAddressField(env, b[3..n], p.address);
    if n == |b| {
      assert b[3..n] == b[3..];
    } else {
      assert n == |b| - 1 && IsSomeAddress(env, b[3..|b| - 1]);
    }
  }

  /** An address at the front of `b[3..]` decides how far the parser gets. */
  lemma FieldDecides(env: Env, b: seq<byte>, n: nat)
    requires 3 <= n <= |b| && IsSomeAddress(env, b[3..n])
    ensures |b| >= 4 && var p := ParseAddress(env, b[3], b[4..]); p.Address? && 4 + p.size == n
  {
    hide ParseAddress;
    var address :| IsAddressField(env, b[3..n], address);
    AddressFieldParses(env, b[3..n], address, b[n..]);
    assert b[3..] == b[3..n] + b[n..];
    assert b[4..] == b[3..][1..];
  }

  lemma CutMeansPanic(env: Env, b: seq<byte>)
    requires IsCutCommand(env, b)
    ensures ParseCommand(env, b).RequestPanic?
  {
    hide IsSomeAddress, ParseAddress;
    if IsSomeAddress(env, b[3..]) {
      assert b[3..|b|] == b[3..];
      FieldDecides(env, b, |b|);
    } else {
      FieldDecides(env, b, |b| - 1);
    }
  }

  lemma LoneTypeByte(env: Env)
    ensures ParseUdp(env, [DOMAIN]).UdpPanic?
  {
  }

  /** The parser indexes past the end exactly on a cut request. */
  lemma RequestPanicIff(env: Env, buffer: seq<byte>)
    ensures ParseRequest(env, buffer).RequestPanic? <==> IsCutRequest(env, buffer)
  {
    hide ParseCommand, IsCutCommand;
    if |buffer| >= env.passLen {
      var b := buffer[env.passLen..];
      if ParseCommand(env, b).RequestPanic? { PanicMeansCut(env, b); }
      if IsCutCommand(env, b) { CutMeansPanic(env, b); }
    }
  }

  /** The address at the front of a generated command is parsed only once it is complete, and ends
      where it should. */
  lemma FieldEnds(env: Env, addr: SocketAddr, b: seq<byte>, whole: seq<byte>, n: nat)
    requires |whole| >= 3 && whole[3..] == AddressBytes(addr) + [CR, LF]
    requires b <= whole && 3 <= n <= |b| && IsSomeAddress(env, b[3..n])
    ensures n == 3 + |AddressBytes(addr)|
  {
    hide AddressBytes, ParseAddress, IsSomeAddress;
    var a := AddressBytes(addr);
    FieldDecides(env, b, n);
    var missing := whole[|b|..];
    assert whole == b + missing;
    assert whole[4..] == b[4..] + missing && whole[4..] == (a + [CR, LF])[1..];
    assert b[3] == whole[3] == (a + [CR, LF])[0];
    AddressStable(env, b[3], b[4..], missing);
    AddressRoundTrip(env, addr, [CR, LF]);
  }

  /** A beginning of a generated request is a cut request exactly if the line break at its end is
      missing or half missing. */
  lemma CutIff(env: Env, pass: seq<byte>, command: byte, addr: SocketAddr, first: seq<byte>)
    requires |pass| == env.passLen && env.checkPass(pass) && command in {CONNECT, PING, UDP_ASSOCIATE}
    requires first <= RequestBytes(pass, command, addr)
    ensures IsCutRequest(env, first) <==> |RequestBytes(pass, command, addr)| - 2 <= |first| < |RequestBytes(pass, command, addr)|
  {
    hide AddressBytes, IsSomeAddress, IsAddressField;
    var request, a := RequestBytes(pass, command, addr), AddressBytes(addr);
    var whole := [CR, LF, command] + a + [CR, LF];
    assert request == pass + whole && whole[3..] == a + [CR, LF];
    if |first| >= env.passLen {
      var b := first[env.passLen..];
      assert first[..env.passLen] == pass && b <= whole by {
        assert first == request[..|first|];
        assert request[env.passLen..] == whole;
        assert b == whole[..|b|];
      }
      CutCommandIff(env, command, addr, b, whole);
    }
  }

  lemma CutCommandIff(env: Env, command: byte, addr: SocketAddr, b: seq<byte>, whole: seq<byte>)
    requires command in {CONNECT, PING, UDP_ASSOCIATE}
    requires whole == [CR, LF, command] + AddressBytes(addr) + [CR, LF] && b <= whole
    ensures IsCutCommand(env, b) <==> |whole| - 2 <= |b| < |whole|
  {
    hide AddressBytes, IsSomeAddress, IsAddressField;
    var a := AddressBytes(addr);
    assert whole[3..] == a + [CR, LF] && |whole| == |a| + 5;
    assert forall i :: 0 <= i < |b| ==> b[i] == whole[i];
    if |b| == |a| + 3 || |b| == |a| + 4 {
      GeneratedField(env, addr);
      SomeAddress(env, a, Socket(addr.OnWire()));
      assert whole[3..3 + |a|] == a;
      assert b[3..3 + |a|] == a;
      assert |b| == |a| + 3 ==> b[3..] == a;
    }
    if IsCutCommand(env, b) {
      if IsSomeAddress(env, b[3..]) {
        assert b[3..|b|] == b[3..];
        FieldEnds(env, addr, b, whole, |b|);
      } else {
        FieldEnds(env, addr, b, whole, |b| - 1);
      }
    }
  }

  lemma SomeAddress(env: Env, field: seq<byte>, address: Sock5Address)
    requires IsAddressField(env, field, address)
    ensures IsSomeAddress(env, field)
  {
  }

  // ---------- what more input can change ----------

  lemma AddressStable(env: Env, atyp: byte, b: seq<byte>, more: seq<byte>)
    requires var r := ParseAddress(env, atyp, b); r.Address? || r.AddressInvalid?
    ensures ParseAddress(env, atyp, b + more) == ParseAddress(env, atyp, b)
  {
    var c := b + more;
    var r := ParseAddress(env, atyp, b);
    if r.Address? {
      if atyp == IPV4 {
        assert c[..4] == b[..4] && c[4..][..2] == b[4..][..2];
        assert ToU16(c[4..]) == ToU16(b[4..]);
      } else if atyp == DOMAIN {
        var length := b[0];
        assert c[1..length + 1] == b[1..length + 1];
        assert ToU16(c[length + 1..]) == ToU16(b[length + 1..]);
      } else {
        assert forall i :: 0 <= i <= 16 ==> ToU16(c[i..]) == ToU16(b[i..]);
        assert ToU16(c) == ToU16(b);
      }
    }
  }

  lemma FrameStable(env: Env, b: seq<byte>, more: seq<byte>, address: Sock5Address, offset: nat, length: nat)
    requires IsDatagramFrame(env, b, address, offset, length)
    ensures IsDatagramFrame(env, b + more, address, offset, length)
  {
    hide IsAddressField;
    var n := offset - length - 4;
    assert (b + more)[..n] == b[..n];
  }

  lemma InvalidStable(env: Env, b: seq<byte>, more: seq<byte>)
    requires ParseUdp(env, b).UdpInvalid?
    ensures ParseUdp(env, b + more).UdpInvalid?
  {
    hide ParseAddress;
    var c := b + more;
    assert c[0] == b[0] && c[1..] == b[1..] + more;
    var r := ParseAddress(env, b[0], b[1..]);
    AddressStable(env, b[0], b[1..], more);
    if r.Address? {
      var t := b[1 + r.size..];
      assert c[1 + r.size..] == t + more;
      assert |t| >= 4 && ToU16(t + more) == ToU16(t);
    }
  }

  /** A parsed datagram or a rejection does not change when more bytes arrive behind it. */
  lemma UdpStable(env: Env, b: seq<byte>, more: seq<byte>)
    requires ParseUdp(env, b).Packet? || ParseUdp(env, b).UdpInvalid?
    ensures var r := ParseUdp(env, b);
            ParseUdp(env, b + more) == if r.Packet? then r.(payload := r.payload + more) else r
  {
    hide ParseUdp, IsDatagramFrame;
    var r := ParseUdp(env, b);
    if r.UdpInvalid? {
      InvalidStable(env, b, more);
    } else {
      ParsedPacket(env, b);
      PacketIff(env, b, r.address, r.offset, r.length, r.payload);
      FrameStable(env, b, more, r.address, r.offset, r.length);
      FrameFits(env, b, r.address, r.offset, r.length);
      assert (b + more)[r.offset - r.length..] == b[r.offset - r.length..] + more;
      PacketIff(env, b + more, r.address, r.offset, r.length, r.payload + more);
    }
  }

  lemma FrameFits(env: Env, b: seq<byte>, address: Sock5Address, offset: nat, length: nat)
    requires IsDatagramFrame(env, b, address, offset, length)
    ensures length <= offset <= |b|
  {
  }
}
