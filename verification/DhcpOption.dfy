/**
 The DHCP option: a code, and a value of the kind the code table gives it,
 with the wire form code, length, payload.
 */
module DhcpOptions {
  import opened Wrappers
  import opened Bytes
  import opened Enums

  datatype PacketError =
    | InsufficientBytes
    | BadCookie
    | UnexpectedEnd
    | MalformedPacket
    | MalformedOption
    | UnknownCode
    | BadPayload
    | NoDestination

  datatype ClientFqdn = ClientFqdn(flags: byte, domainName: seq<byte>)

  /** The value types of the option table. Strings are held as their bytes. */
  datatype Value =
    | NoValue
    | U8(u8: byte)
    | U16(u16: u16)
    | U32(u32: u32)
    | I32(i32: i32)
    | Text(text: seq<byte>)
    | Addr(addr: u32)
    | Addrs(addrs: seq<u32>)
    | AddrPairs(pairs: seq<(u32, u32)>)
    | U16s(u16s: seq<u16>)
    | Blob(blob: seq<byte>)
    | Msg(msg: MessageType)
    | Fqdn(fqdn: ClientFqdn)

  datatype Kind =
    | KNoValue | KU8 | KU16 | KU32 | KI32 | KText | KAddr | KAddrs | KAddrPairs | KU16s | KBlob | KMsg | KFqdn

  function KindOfValue(v: Value): Kind {
    match v
    case NoValue => KNoValue
    case U8(_) => KU8
    case U16(_) => KU16
    case U32(_) => KU32
    case I32(_) => KI32
    case Text(_) => KText
    case Addr(_) => KAddr
    case Addrs(_) => KAddrs
    case AddrPairs(_) => KAddrPairs
    case U16s(_) => KU16s
    case Blob(_) => KBlob
    case Msg(_) => KMsg
    case Fqdn(_) => KFqdn
  }

  const PAD: byte := 0
  const SUBNETMASK: byte := 1
  const ROUTER: byte := 3
  const DOMAINSERVER: byte := 6
  const DOMAINNAME: byte := 15
  const ADDRESSREQUEST: byte := 50
  const ADDRESSTIME: byte := 51
  const OVERLOAD: byte := 52
  const DHCPMSGTYPE: byte := 53
  const DHCPSERVERID: byte := 54
  const PARAMETERLIST: byte := 55
  const DHCPMAXMSGSIZE: byte := 57
  const CLIENTID: byte := 61
  const DOMAINSEARCH: byte := 119
  const END: byte := 255

  /** The code table: the kind of value each known code carries. */
  function KindOf(code: byte): Option<Kind> {
    match code
    case 0 | 255 => Some(KNoValue)
    case 19 | 20 | 23 | 27 | 29 | 30 | 31 | 34 | 36 | 37 | 39 | 46 | 52 => Some(KU8)
    case 13 | 22 | 26 | 57 => Some(KU16)
    case 24 | 35 | 38 | 51 | 58 | 59 => Some(KU32)
    case 2 => Some(KI32)
    case 12 | 14 | 15 | 17 | 18 | 40 | 47 | 56 | 60 | 64 | 66 | 67 => Some(KText)
    case 1 | 16 | 28 | 32 | 50 | 54 => Some(KAddr)
    case 3 | 4 | 5 | 6 | 7 | 8 | 9 | 10 | 11 => Some(KAddrs)
    case 41 | 42 | 44 | 45 | 48 | 49 | 65 | 68 | 69 | 70 | 71 | 72 | 73 | 74 | 75 | 76 => Some(KAddrs)
    case 21 | 33 => Some(KAddrPairs)
    case 25 => Some(KU16s)
    case 43 | 55 | 61 | 80 | 82 | 119 => Some(KBlob)
    case 53 => Some(KMsg)
    case 81 => Some(KFqdn)
    case _ => None
  }

  /** The table by kind: numbers of 8, 16 and 32 bits, texts, addresses, lists, bytes, message type, FQDN. */
  lemma OptionTable(code: byte)
    ensures KindOf(code) ==
      if code in {0, 255} then Some(KNoValue)
      else if code in {19, 20, 23, 27, 29, 30, 31, 34, 36, 37, 39, 46, 52} then Some(KU8)
      else if code in {13, 22, 26, 57} then Some(KU16)
      else if code in {24, 35, 38, 51, 58, 59} then Some(KU32)
      else if code == 2 then Some(KI32)
      else if code in {12, 14, 15, 17, 18, 40, 47, 56, 60, 64, 66, 67} then Some(KText)
      else if code in {1, 16, 28, 32, 50, 54} then Some(KAddr)
      else if 3 <= code <= 11 || code in {41, 42, 44, 45, 48, 49, 65} || 68 <= code <= 76 then Some(KAddrs)
      else if code in {21, 33} then Some(KAddrPairs)
      else if code == 25 then Some(KU16s)
      else if code in {43, 55, 61, 80, 82, 119} then Some(KBlob)
      else if code == 53 then Some(KMsg)
      else if code == 81 then Some(KFqdn)
      else None
  {
  }

  datatype DhcpOption = DhcpOption(code: byte, value: Value)

  /** The option is one the enum can hold: its value has the kind of its code. */
  predicate Typed(o: DhcpOption) {
    KindOf(o.code) == Some(KindOfValue(o.value))
  }

  // ---- List values ----

  function EncodeAddrs(ips: seq<u32>): (b: seq<byte>)
    ensures |b| == 4 * |ips|
  {
    if ips == [] then [] else U32ToBe(ips[0]) + EncodeAddrs(ips[1..])
  }

  function DecodeAddrs(b: seq<byte>): seq<u32> {
    if |b| < 4 then [] else [U32FromBe(b[..4])] + DecodeAddrs(b[4..])
  }

  function EncodePairs(ps: seq<(u32, u32)>): (b: seq<byte>)
    ensures |b| == 8 * |ps|
  {
    if ps == [] then [] else U32ToBe(ps[0].0) + U32ToBe(ps[0].1) + EncodePairs(ps[1..])
  }

  function DecodePairs(b: seq<byte>): seq<(u32, u32)> {
    if |b| < 8 then [] else [(U32FromBe(b[..4]), U32FromBe(b[4..8]))] + DecodePairs(b[8..])
  }

  function EncodeU16s(ns: seq<u16>): (b: seq<byte>)
    ensures |b| == 2 * |ns|
  {
    if ns == [] then [] else U16ToBe(ns[0]) + EncodeU16s(ns[1..])
  }

  function DecodeU16s(b: seq<byte>): seq<u16> {
    if |b| < 2 then [] else [U16FromBe(b[..2])] + DecodeU16s(b[2..])
  }

  lemma {:induction false} AddrsRoundTrip(ips: seq<u32>)
    ensures DecodeAddrs(EncodeAddrs(ips)) == ips
  {
    if ips == [] {
    } else {
      var b := EncodeAddrs(ips);
      assert b[..4] == U32ToBe(ips[0]) && b[4..] == EncodeAddrs(ips[1..]);
      U32RoundTrip(ips[0]);
      AddrsRoundTrip(ips[1..]);
    }
  }

  lemma {:induction false} PairsRoundTrip(ps: seq<(u32, u32)>)
    ensures DecodePairs(EncodePairs(ps)) == ps
  {
    if ps == [] {
    } else {
      var b := EncodePairs(ps);
      assert b[..4] == U32ToBe(ps[0].0) && b[4..8] == U32ToBe(ps[0].1) && b[8..] == EncodePairs(ps[1..]);
      U32RoundTrip(ps[0].0);
      U32RoundTrip(ps[0].1);
      PairsRoundTrip(ps[1..]);
    }
  }

  lemma {:induction false} U16sRoundTrip(ns: seq<u16>)
    ensures DecodeU16s(EncodeU16s(ns)) == ns
  {
    if ns == [] {
    } else {
      var b := EncodeU16s(ns);
      assert b[..2] == U16ToBe(ns[0]) && b[2..] == EncodeU16s(ns[1..]);
      U16RoundTrip(ns[0]);
      U16sRoundTrip(ns[1..]);
    }
  }

  lemma {:induction false} ListLengths(b: seq<byte>)
    ensures |DecodeAddrs(b)| == |b| / 4
    ensures |DecodePairs(b)| == |b| / 8
    ensures |DecodeU16s(b)| == |b| / 2
  {
    if |b| >= 2 { ListLengths(b[2..]); }
    if |b| >= 4 { ListLengths(b[4..]); }
    if |b| >= 8 { ListLengths(b[8..]); }
  }

  /** The chunk loop of the address list decoder. */
  method DecodeAddrsLoop(bytes: seq<byte>) returns (res: seq<u32>)
    ensures res == DecodeAddrs(bytes)
  {
    res := [];
    var i := 0;
    while i + 4 <= |bytes|
      invariant 0 <= i <= |bytes|
      invariant res + DecodeAddrs(bytes[i..]) == DecodeAddrs(bytes)
    {
      assert bytes[i..][..4] == bytes[i..i + 4] && bytes[i..][4..] == bytes[i + 4..];
      res := res + [U32FromBe(bytes[i..i + 4])];
      i := i + 4;
    }
  }

  /** The offset loop of the address pair list decoder. */
  method DecodePairsLoop(bytes: seq<byte>) returns (res: seq<(u32, u32)>)
    ensures res == DecodePairs(bytes)
  {
    res := [];
    var offset := 0;
    while true
      invariant 0 <= offset <= |bytes|
      invariant res + DecodePairs(bytes[offset..]) == DecodePairs(bytes)
      decreases |bytes| - offset
    {
      var addrEnd := offset + 4;
      var maskEnd := addrEnd + 4;
      if maskEnd > |bytes| {
        break;
      }
      var rest := bytes[offset..];
      assert rest[..4] == bytes[offset..addrEnd] && rest[4..8] == bytes[addrEnd..maskEnd];
      assert rest[8..] == bytes[maskEnd..];
      res := res + [(U32FromBe(bytes[offset..addrEnd]), U32FromBe(bytes[addrEnd..maskEnd]))];
      offset := offset + 8;
    }
  }

  /** The chunk loop of the 16-bit list decoder. */
  method DecodeU16sLoop(bytes: seq<byte>) returns (res: seq<u16>)
    ensures res == DecodeU16s(bytes)
  {
    res := [];
    var i := 0;
    while i + 2 <= |bytes|
      invariant 0 <= i <= |bytes|
      invariant res + DecodeU16s(bytes[i..]) == DecodeU16s(bytes)
    {
      assert bytes[i..][..2] == bytes[i..i + 2] && bytes[i..][2..] == bytes[i + 2..];
      res := res + [U16FromBe(bytes[i..i + 2])];
      i := i + 2;
    }
  }

  // ---- Strings ----

  predicate IsAscii(s: seq<byte>) {
    forall i :: 0 <= i < |s| ==> s[i] < 0x80
  }

  predicate EndsWithNul(s: seq<byte>) {
    |s| > 0 && s[|s| - 1] == 0
  }

  function TrimNuls(s: seq<byte>): (t: seq<byte>)
    ensures |t| <= |s| && t == s[..|t|] && !EndsWithNul(t) && forall i :: |t| <= i < |s| ==> s[i] == 0
    ensures t == s <==> !EndsWithNul(s)
  {
    if EndsWithNul(s) then TrimNuls(s[..|s| - 1]) else s
  }

  // ---- Values ----

  function Encode(v: Value): seq<byte> {
    match v
    case NoValue => []
    case U8(n) => [n]
    case U16(n) => U16ToBe(n)
    case U32(n) => U32ToBe(n)
    case I32(n) => I32ToBe(n)
    case Text(t) => t
    case Addr(ip) => U32ToBe(ip)
    case Addrs(ips) => EncodeAddrs(ips)
    case AddrPairs(ps) => EncodePairs(ps)
    case U16s(ns) => EncodeU16s(ns)
    case Blob(b) => b
    case Msg(m) => [MessageTypeToByte(m)]
    case Fqdn(f) => [f.flags, 255, 255] + f.domainName
  }

  function Decode(k: Kind, b: seq<byte>): Result<Value, PacketError> {
    match k
    case KNoValue => Ok(NoValue)
    case KU8 => if |b| == 1 then Ok(U8(b[0])) else Err(BadPayload)
    case KU16 => if |b| == 2 then Ok(U16(U16FromBe(b))) else Err(BadPayload)
    case KU32 => if |b| == 4 then Ok(U32(U32FromBe(b))) else Err(BadPayload)
    case KI32 => if |b| == 4 then Ok(I32(I32FromBe(b))) else Err(BadPayload)
    case KText => if IsAscii(b) then Ok(Text(TrimNuls(b))) else Err(BadPayload)
    case KAddr => if |b| == 4 then Ok(Addr(U32FromBe(b))) else Err(BadPayload)
    case KAddrs => if |b| % 4 == 0 then Ok(Addrs(DecodeAddrs(b))) else Err(BadPayload)
    case KAddrPairs => if |b| % 8 == 0 then Ok(AddrPairs(DecodePairs(b))) else Err(BadPayload)
    case KU16s => if |b| % 2 == 0 then Ok(U16s(DecodeU16s(b))) else Err(BadPayload)
    case KBlob => Ok(Blob(b))
    case KMsg =>
      if |b| == 1 && !MessageTypeFromByte(b[0]).UnknownMessage? then Ok(Msg(MessageTypeFromByte(b[0])))
      else Err(BadPayload)
    case KFqdn => if |b| >= 4 then Ok(Fqdn(ClientFqdn(b[0], b[3..]))) else Err(BadPayload)
  }

  // ---- Options ----

  function New(code: byte, data: seq<byte>): Result<DhcpOption, PacketError> {
    match KindOf(code)
    case None => Err(UnknownCode)
    case Some(k) =>
      match Decode(k, data)
      case Ok(v) => Ok(DhcpOption(code, v))
      case Err(e) => Err(e)
  }

  /** The length byte is the payload length cast to eight bits. */
  function ToNetwork(o: DhcpOption): (b: seq<byte>)
    ensures |b| > 0
  {
    if o.value.NoValue? then [o.code]
    else [o.code, |Encode(o.value)| % 0x100] + Encode(o.value)
  }

  function FromNetwork(data: seq<byte>): Result<DhcpOption, PacketError> {
    if |data| < 1 then Err(MalformedOption)
    else if data[0] in {PAD, END} then New(data[0], [])
    else if |data| < 2 then Err(MalformedOption)
    else if |data| < 2 + data[1] as int then Err(MalformedOption)
    else New(data[0], data[2..2 + data[1] as int])
  }

  /** The values the wire can carry unchanged. */
  predicate EncodableValue(v: Value) {
    match v
    case Text(t) => IsAscii(t) && !EndsWithNul(t)
    case Msg(m) => !m.UnknownMessage?
    case Fqdn(f) => f.domainName != []
    case _ => true
  }

  predicate WellFormed(o: DhcpOption) {
    Typed(o) && |Encode(o.value)| <= 255 && EncodableValue(o.value)
  }

  lemma {:induction false} AddrsBytes(ips: seq<u32>, i: nat)
    requires i < |ips|
    ensures WordAt(EncodeAddrs(ips), 4 * i) == ips[i]
  {
    var tail := EncodeAddrs(ips[1..]);
    NetworkOrder(0, ips[0], 0);
    assert EncodeAddrs(ips) == U32ToBe(ips[0]) + tail;
    if i == 0 {
    } else {
      AddrsBytes(ips[1..], i - 1);
      ShiftedWord(U32ToBe(ips[0]), tail, 4 * (i - 1));
    }
  }

  lemma ShiftedWord(head: seq<byte>, tail: seq<byte>, i: nat)
    requires i + 4 <= |tail|
    ensures WordAt(head + tail, |head| + i) == WordAt(tail, i)
  {
  }

  lemma FirstWord(head: seq<byte>, tail: seq<byte>, i: nat)
    requires i + 4 <= |head|
    ensures WordAt(head + tail, i) == WordAt(head, i)
  {
  }

  lemma {:induction false} PairsBytes(ps: seq<(u32, u32)>, i: nat)
    requires i < |ps|
    ensures WordAt(EncodePairs(ps), 8 * i) == ps[i].0 && WordAt(EncodePairs(ps), 8 * i + 4) == ps[i].1
  {
    var head, tail := U32ToBe(ps[0].0) + U32ToBe(ps[0].1), EncodePairs(ps[1..]);
    NetworkOrder(0, ps[0].0, 0);
    NetworkOrder(0, ps[0].1, 0);
    assert EncodePairs(ps) == head + tail;
    if i == 0 {
      FirstWord(head, tail, 0);
      FirstWord(head, tail, 4);
      FirstWord(U32ToBe(ps[0].0), U32ToBe(ps[0].1), 0);
      ShiftedWord(U32ToBe(ps[0].0), U32ToBe(ps[0].1), 0);
    } else {
      PairsBytes(ps[1..], i - 1);
      ShiftedWord(head, tail, 8 * (i - 1));
      ShiftedWord(head, tail, 8 * (i - 1) + 4);
    }
  }

  lemma {:induction false} U16sBytes(ns: seq<u16>, i: nat)
    requires i < |ns|
    ensures HalfAt(EncodeU16s(ns), 2 * i) == ns[i]
  {
    var head, tail := U16ToBe(ns[0]), EncodeU16s(ns[1..]);
    NetworkOrder(ns[0], 0, 0);
    assert EncodeU16s(ns) == head + tail;
    if i == 0 {
    } else {
      U16sBytes(ns[1..], i - 1);
    }
  }

  /** The payload says the value, in the bytes of RFC 2132: numbers and addresses most significant byte first. */
  predicate Payload(v: Value, b: seq<byte>) {
    match v
    case NoValue => b == []
    case U8(n) => b == [n]
    case U16(n) => |b| == 2 && HalfAt(b, 0) == n
    case U32(n) => |b| == 4 && WordAt(b, 0) == n
    case I32(n) => |b| == 4 && WordAt(b, 0) == if n < 0 then n + 4294967296 else n
    case Text(t) => b == t
    case Addr(ip) => |b| == 4 && WordAt(b, 0) == ip
    case Addrs(ips) => |b| == 4 * |ips| && forall i :: 0 <= i < |ips| ==> WordAt(b, 4 * i) == ips[i]
    case AddrPairs(ps) =>
      |b| == 8 * |ps| && forall i :: 0 <= i < |ps| ==> WordAt(b, 8 * i) == ps[i].0 && WordAt(b, 8 * i + 4) == ps[i].1
    case U16s(ns) => |b| == 2 * |ns| && forall i :: 0 <= i < |ns| ==> HalfAt(b, 2 * i) == ns[i]
    case Blob(c) => b == c
    case Msg(m) => b == [MessageTypeToByte(m)]
    case Fqdn(f) => |b| == 3 + |f.domainName| && b[0] == f.flags && b[1] == 255 && b[2] == 255 && b[3..] == f.domainName
  }

  /** What is written for a value is its payload, whatever the value. */
  lemma EncodedPayload(v: Value)
    ensures Payload(v, Encode(v))
  {
    hide EncodeAddrs, EncodePairs, EncodeU16s, WordAt, HalfAt, U16ToBe, U32ToBe, I32ToBe;
    match v {
      case U16(n) => NetworkOrder(n, 0, 0);
      case U32(n) => NetworkOrder(0, n, 0);
      case I32(n) => NetworkOrder(0, 0, n);
      case Addr(ip) => NetworkOrder(0, ip, 0);
      case Addrs(ips) =>
        forall i | 0 <= i < |ips| ensures WordAt(Encode(v), 4 * i) == ips[i] {
          AddrsBytes(ips, i);
        }
      case AddrPairs(ps) =>
        forall i | 0 <= i < |ps|
          ensures WordAt(Encode(v), 8 * i) == ps[i].0 && WordAt(Encode(v), 8 * i + 4) == ps[i].1
        {
          PairsBytes(ps, i);
        }
      case U16s(ns) =>
        forall i | 0 <= i < |ns| ensures HalfAt(Encode(v), 2 * i) == ns[i] {
          U16sBytes(ns, i);
        }
      case _ =>
    }
  }

  /** Which payloads each kind of value accepts. */
  predicate Acceptable(k: Kind, b: seq<byte>) {
    match k
    case KNoValue => true
    case KU8 => |b| == 1
    case KU16 => |b| == 2
    case KU32 => |b| == 4
    case KI32 => |b| == 4
    case KText => forall i :: 0 <= i < |b| ==> b[i] < 128
    case KAddr => |b| == 4
    case KAddrs => |b| % 4 == 0
    case KAddrPairs => |b| % 8 == 0
    case KU16s => |b| % 2 == 0
    case KBlob => true
    case KMsg => |b| == 1 && 1 <= b[0] <= 8
    case KFqdn => |b| >= 4
  }

  /** The value read from a payload is the one it says, but for trailing NULs of a text and two unused FQDN bytes. */
  predicate ReadAs(b: seq<byte>, v: Value) {
    match v
    case NoValue => true
    case Text(t) => t <= b && (t != [] ==> t[|t| - 1] != 0) && forall i :: |t| <= i < |b| ==> b[i] == 0
    case Fqdn(f) => |b| >= 4 && f == ClientFqdn(b[0], b[3..])
    case _ => Payload(v, b)
  }

  /** A payload is accepted exactly when its kind allows it, and then read as the value it says. */
  lemma DecodedPayload(k: Kind, b: seq<byte>)
    ensures Decode(k, b).Ok? <==> Acceptable(k, b)
    ensures Decode(k, b).Ok? ==> KindOfValue(Decode(k, b).value) == k && ReadAs(b, Decode(k, b).value)
  {
    hide DecodeAddrs, DecodePairs, DecodeU16s, WordAt, HalfAt, U16FromBe, U32FromBe, I32FromBe;
    NetworkOrderRead(b);
    ListLengths(b);
    match k {
      case KI32 => SignedRead(b);
      case KAddrs => AddrsRead(b);
      case KAddrPairs => PairsRead(b);
      case KU16s => U16sRead(b);
      case KMsg => SmallTypes(b);
      case _ =>
    }
  }

  lemma SmallTypes(b: seq<byte>)
    ensures |b| == 1 ==>
      (!MessageTypeFromByte(b[0]).UnknownMessage? <==> 1 <= b[0] <= 8)
       && [MessageTypeToByte(MessageTypeFromByte(b[0]))] == b
  {
  }

  lemma SignedRead(b: seq<byte>)
    ensures |b| == 4 ==> WordAt(b, 0) == if I32FromBe(b) < 0 then I32FromBe(b) + 4294967296 else I32FromBe(b)
  {
    NetworkOrderRead(b);
  }

  lemma {:induction false} AddrsRead(b: seq<byte>)
    ensures |DecodeAddrs(b)| == |b| / 4
    ensures forall i :: 0 <= i < |b| / 4 ==> WordAt(b, 4 * i) == DecodeAddrs(b)[i]
  {
    hide WordAt, U32FromBe;
    if |b| < 4 {
    } else {
      AddrsRead(b[4..]);
      NetworkOrderRead(b[..4]);
      assert b == b[..4] + b[4..];
      FirstWord(b[..4], b[4..], 0);
      forall i | 0 < i < |b| / 4 ensures WordAt(b, 4 * i) == DecodeAddrs(b)[i] {
        ShiftedWord(b[..4], b[4..], 4 * (i - 1));
        assert WordAt(b[4..], 4 * (i - 1)) == DecodeAddrs(b[4..])[i - 1];
      }
    }
  }

  lemma {:induction false} PairsRead(b: seq<byte>)
    ensures |DecodePairs(b)| == |b| / 8
    ensures forall i :: 0 <= i < |b| / 8 ==>
      WordAt(b, 8 * i) == DecodePairs(b)[i].0 && WordAt(b, 8 * i + 4) == DecodePairs(b)[i].1
  {
    hide WordAt, U32FromBe;
    if |b| < 8 {
    } else {
      PairsRead(b[8..]);
      NetworkOrderRead(b[..4]);
      NetworkOrderRead(b[4..8]);
      assert b == b[..4] + b[4..] && b == b[..8] + b[8..] && b[4..] == b[4..8] + b[8..];
      FirstWord(b[..4], b[4..], 0);
      ShiftedWord(b[..4], b[4..], 0);
      FirstWord(b[4..8], b[8..], 0);
      forall i | 0 < i < |b| / 8
        ensures WordAt(b, 8 * i) == DecodePairs(b)[i].0 && WordAt(b, 8 * i + 4) == DecodePairs(b)[i].1
      {
        ShiftedWord(b[..8], b[8..], 8 * (i - 1));
        ShiftedWord(b[..8], b[8..], 8 * (i - 1) + 4);
        assert WordAt(b[8..], 8 * (i - 1)) == DecodePairs(b[8..])[i - 1].0;
        assert WordAt(b[8..], 8 * (i - 1) + 4) == DecodePairs(b[8..])[i - 1].1;
      }
    }
  }

  lemma {:induction false} U16sRead(b: seq<byte>)
    ensures |DecodeU16s(b)| == |b| / 2
    ensures forall i :: 0 <= i < |b| / 2 ==> HalfAt(b, 2 * i) == DecodeU16s(b)[i]
  {
    if |b| < 2 {
    } else {
      U16sRead(b[2..]);
      NetworkOrderRead(b[..2]);
      forall i | 0 < i < |b| / 2 ensures HalfAt(b, 2 * i) == DecodeU16s(b)[i] {
        assert HalfAt(b[2..], 2 * (i - 1)) == DecodeU16s(b[2..])[i - 1];
        assert b[2..][2 * (i - 1)] == b[2 * i] && b[2..][2 * (i - 1) + 1] == b[2 * i + 1];
      }
    }
  }

  predicate Scalar(v: Value) {
    v.U8? || v.U16? || v.U32? || v.I32? || v.Addr? || v.Msg?
  }

  lemma ScalarRoundTrip(v: Value)
    requires Scalar(v)
    ensures Decode(KindOfValue(v), Encode(v)) == Ok(v) <==> EncodableValue(v)
  {
    match v {
      case U16(n) => U16RoundTrip(n);
      case U32(n) => U32RoundTrip(n);
      case I32(n) => I32RoundTrip(n);
      case Addr(ip) => U32RoundTrip(ip);
      case _ =>
    }
  }

  lemma AddrsValue(ips: seq<u32>)
    ensures Decode(KAddrs, Encode(Addrs(ips))) == Ok(Addrs(ips))
  {
    hide EncodeAddrs, DecodeAddrs;
    AddrsRoundTrip(ips);
  }

  lemma PairsValue(pairs: seq<(u32, u32)>)
    ensures Decode(KAddrPairs, Encode(AddrPairs(pairs))) == Ok(AddrPairs(pairs))
  {
    hide EncodePairs, DecodePairs;
    PairsRoundTrip(pairs);
  }

  lemma U16sValue(ns: seq<u16>)
    ensures Decode(KU16s, Encode(U16s(ns))) == Ok(U16s(ns))
  {
    hide EncodeU16s, DecodeU16s;
    U16sRoundTrip(ns);
  }

  lemma ListRoundTrip(v: Value)
    requires v.Addrs? || v.AddrPairs? || v.U16s?
    ensures Decode(KindOfValue(v), Encode(v)) == Ok(v)
  {
    hide Encode, Decode;
    match v {
      case Addrs(ips) => AddrsValue(ips);
      case AddrPairs(ps) => PairsValue(ps);
      case U16s(ns) => U16sValue(ns);
      case _ =>
    }
  }

  /** Value codec: decoding an encoded value gives it back exactly when it is encodable. */
  lemma ValueRoundTrip(v: Value)
    ensures Decode(KindOfValue(v), Encode(v)) == Ok(v) <==> EncodableValue(v)
  {
    hide EncodeAddrs, DecodeAddrs, EncodePairs, DecodePairs, EncodeU16s, DecodeU16s;
    if Scalar(v) {
      ScalarRoundTrip(v);
    } else if v.Addrs? || v.AddrPairs? || v.U16s? {
      ListRoundTrip(v);
    } else if v.Fqdn? {
      assert Encode(v)[3..] == v.fqdn.domainName;
    }
  }

  /** Normalisation: whatever decodes is encodable and encodes to no more bytes. */
  lemma ValueNormalises(k: Kind, b: seq<byte>)
    requires Decode(k, b).Ok?
    ensures var v := Decode(k, b).value;
      KindOfValue(v) == k && EncodableValue(v) && |Encode(v)| <= |b|
  {
    hide EncodeAddrs, DecodeAddrs, EncodePairs, DecodePairs, EncodeU16s, DecodeU16s, U32FromBe, U16FromBe, I32FromBe;
    ListLengths(b);
  }

  lemma OptionNormalises(code: byte, data: seq<byte>)
    requires |data| <= 255 && New(code, data).Ok?
    ensures var o := New(code, data).value;
      o.code == code && WellFormed(o) && |Encode(o.value)| <= |data| && New(code, Encode(o.value)) == Ok(o)
  {
    hide EncodeAddrs, DecodeAddrs, EncodePairs, DecodePairs, EncodeU16s, DecodeU16s;
    var k := KindOf(code).value;
    ValueNormalises(k, data);
    ValueRoundTrip(New(code, data).value.value);
  }

  lemma NewOfEncoded(o: DhcpOption)
    requires WellFormed(o)
    ensures New(o.code, Encode(o.value)) == Ok(o)
  {
    hide EncodeAddrs, DecodeAddrs, EncodePairs, DecodePairs, EncodeU16s, DecodeU16s;
    ValueRoundTrip(o.value);
  }

  /**
   Option codec: reading back a written option gives it exactly when its
   payload fits the length byte and its value is encodable.
   */
  lemma OptionRoundTrip(o: DhcpOption)
    requires Typed(o)
    ensures FromNetwork(ToNetwork(o)) == Ok(o) <==> WellFormed(o)
  {
    hide Encode, Decode, New, ToNetwork, FromNetwork, EncodableValue;
    if o.value.NoValue? {
      SingleOctet(o);
    } else {
      var payload := Encode(o.value);
      var n := |payload| % 0x100;
      ReadWritten(o);
      if |payload| <= 255 {
        assert payload[..n] == payload;
        NewOfValue(o);
        ValueRoundTrip(o.value);
      } else if New(o.code, payload[..n]).Ok? {
        OptionNormalises(o.code, payload[..n]);
      }
    }
  }

  /** Pad and End stand for themselves. */
  lemma SingleOctet(o: DhcpOption)
    requires Typed(o) && o.value.NoValue?
    ensures FromNetwork(ToNetwork(o)) == Ok(o) && WellFormed(o)
  {
  }

  /** What is read of a written option: its code with as much of the payload as the length byte says. */
  lemma ReadWritten(o: DhcpOption)
    requires Typed(o) && !o.value.NoValue?
    ensures FromNetwork(ToNetwork(o)) == New(o.code, Encode(o.value)[..|Encode(o.value)| % 0x100])
  {
    hide Encode, New;
    var payload, data := Encode(o.value), ToNetwork(o);
    var n := |payload| % 0x100;
    assert data[2..2 + n] == payload[..n];
  }

  lemma NewOfValue(o: DhcpOption)
    requires Typed(o)
    ensures New(o.code, Encode(o.value)) == Ok(o) <==> Decode(KindOfValue(o.value), Encode(o.value)) == Ok(o.value)
  {
    hide Encode, Decode, KindOf, KindOfValue;
  }
}
