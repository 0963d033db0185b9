/**
 The DHCP packet: the fixed 240-byte header of section 2 of RFC 2131 with its
 magic cookie, followed by the options area.
 */
module Packet {
  import opened Wrappers
  import opened Bytes
  import opened Enums
  import opened DhcpOptions
  import opened OptionArea
  import opened Overload

  const COOKIE: seq<byte> := [99, 130, 83, 99]
  const DHCP_HEADER_LEN: nat := 240
  const MIN_MAX_MESSAGE_LEN: nat := 576

  type Bytes4 = s: seq<byte> | |s| == 4 witness Zeros(4)
  type Bytes16 = s: seq<byte> | |s| == 16 witness Zeros(16)
  type Bytes64 = s: seq<byte> | |s| == 64 witness Zeros(64)
  type Bytes128 = s: seq<byte> | |s| == 128 witness Zeros(128)

  datatype DhcpPacket = DhcpPacket(
    op: DhcpOperation,
    htype: HardwareType,
    hlen: byte,
    hops: byte,
    xid: u32,
    secs: u16,
    flags: u16,
    ciaddr: u32,
    yiaddr: u32,
    siaddr: u32,
    giaddr: u32,
    chaddr: Bytes16,
    sname: Bytes64,
    file: Bytes128,
    cookie: Bytes4,
    options: Options,
    maxClientMessageSize: Option<u16>,
    receivedByBroadcast: bool)

  // ---- Reading ----

  /** The header fields, as they stand in the first 240 bytes. */
  function HeaderFields(raw: seq<byte>, broadcast: bool): DhcpPacket
    requires |raw| >= DHCP_HEADER_LEN
  {
    DhcpPacket(
      OperationFromByte(raw[0]), HardwareFromByte(raw[1]), raw[2], raw[3],
      U32FromBe(raw[4..8]), U16FromBe(raw[8..10]), U16FromBe(raw[10..12]),
      U32FromBe(raw[12..16]), U32FromBe(raw[16..20]), U32FromBe(raw[20..24]), U32FromBe(raw[24..28]),
      raw[28..44], raw[44..108], raw[108..236], raw[236..240],
      [], None, broadcast)
  }

  function DecodePacket(raw: seq<byte>, broadcast: bool): Result<DhcpPacket, PacketError> {
    if |raw| < DHCP_HEADER_LEN then Err(InsufficientBytes)
    else
      var packet := HeaderFields(raw, broadcast);
      if packet.cookie != COOKIE then Err(BadCookie)
      else
        match OptionArea.FromNetwork(raw[240..])
        case Ok(options) => Ok(packet.(options := options))
        case Err(e) => Err(e)
  }

  method FromNetwork(raw: seq<byte>, broadcast: bool) returns (r: Result<DhcpPacket, PacketError>)
    ensures r == DecodePacket(raw, broadcast)
  {
    if |raw| < 240 {
      return Err(InsufficientBytes);
    }
    var packet := HeaderFields(raw, broadcast);
    if packet.cookie != COOKIE {
      return Err(BadCookie);
    }
    if |raw| > 240 {
      var options := FromNetworkLoop(raw[240..]);
      if options.Err? {
        return Err(options.error);
      }
      packet := packet.(options := options.value);
    }
    return Ok(packet);
  }

  // ---- Writing ----

  function HeaderBytes(p: DhcpPacket, sname: Bytes64, file: Bytes128): (h: seq<byte>)
    ensures |h| == DHCP_HEADER_LEN
  {
    [OperationToByte(p.op), HardwareToByte(p.htype), p.hlen, p.hops]
    + U32ToBe(p.xid) + U16ToBe(p.secs) + U16ToBe(p.flags)
    + U32ToBe(p.ciaddr) + U32ToBe(p.yiaddr) + U32ToBe(p.siaddr) + U32ToBe(p.giaddr)
    + p.chaddr + sname + file + COOKIE
  }

  /** The header layout of section 2 of RFC 2131, field by field. */
  lemma HeaderSlices(p: DhcpPacket, sname: Bytes64, file: Bytes128, rest: seq<byte>)
    ensures var raw := HeaderBytes(p, sname, file) + rest;
      && raw[0] == OperationToByte(p.op) && raw[1] == HardwareToByte(p.htype) && raw[2] == p.hlen && raw[3] == p.hops
      && raw[4..8] == U32ToBe(p.xid) && raw[8..10] == U16ToBe(p.secs) && raw[10..12] == U16ToBe(p.flags)
      && raw[12..16] == U32ToBe(p.ciaddr) && raw[16..20] == U32ToBe(p.yiaddr)
      && raw[20..24] == U32ToBe(p.siaddr) && raw[24..28] == U32ToBe(p.giaddr)
      && raw[28..44] == p.chaddr && raw[44..108] == sname && raw[108..236] == file && raw[236..240] == COOKIE
      && raw[240..] == rest
  {
    hide U32ToBe, U16ToBe, OperationToByte, HardwareToByte;
  }

  /** The three areas of the wire image before padding. */
  datatype Image = Image(options: seq<byte>, file: Bytes128, sname: Bytes64)

  function Max(a: nat, b: nat): nat {
    if a > b then a else b
  }

  function LimitsOf(p: DhcpPacket, max: u16): Limits {
    Limits(Max(max, MIN_MAX_MESSAGE_LEN) - DHCP_HEADER_LEN, p.file[0] == 0, p.sname[0] == 0)
  }

  function ImageOf(p: DhcpPacket): Image {
    match p.maxClientMessageSize
    case None => Image(OptionArea.ToNetwork(p.options), p.file, p.sname)
    case Some(max) =>
      var l := LimitsOf(p, max);
      PackedSizes(p.options, l);
      var packing := Pack(p.options, l);
      Image(OptionArea.ToNetwork(MainOptions(packing)),
            Overlay(p.file, FieldBytes(packing.file)),
            Overlay(p.sname, FieldBytes(packing.sname)))
  }

  /** BOOTP clients expect 64 bytes of options, cookie included: 300 bytes in all. */
  function Padded(options: seq<byte>): seq<byte> {
    if |options| < 60 then options + Zeros(60 - |options|) else options
  }

  function EncodePacket(p: DhcpPacket): seq<byte> {
    HeaderBytes(p, ImageOf(p).sname, ImageOf(p).file) + Padded(ImageOf(p).options)
  }

  method ToNetwork(p: DhcpPacket) returns (data: seq<byte>)
    ensures data == EncodePacket(p)
  {
    hide Pack, OptionArea.ToNetwork, HeaderBytes;
    var options: seq<byte>;
    var file, sname := p.file, p.sname;
    match p.maxClientMessageSize {
      case Some(max) =>
        var maxOptionsLen := Max(max, MIN_MAX_MESSAGE_LEN) - DHCP_HEADER_LEN;
        PackedSizes(p.options, LimitsOf(p, max));
        var optionsData, fileData, snameData :=
          ToNetworkOverflow(p.options, maxOptionsLen, file[0] == 0, sname[0] == 0);
        options := optionsData;
        if fileData.Some? {
          file := fileData.value + file[|fileData.value|..];
        }
        if snameData.Some? {
          sname := snameData.value + sname[|snameData.value|..];
        }
      case None =>
        options := ToNetworkLoop(p.options);
    }
    data := HeaderBytes(p, sname, file);
    if |options| < 60 {
      options := options + Zeros(60 - |options|);
    }
    data := data + options;
  }

  // ---- Theorems ----

  lemma HeaderRoundTrip(p: DhcpPacket, sname: Bytes64, file: Bytes128, rest: seq<byte>, broadcast: bool)
    ensures var raw := HeaderBytes(p, sname, file) + rest;
      && raw[240..] == rest && raw[44..108] == sname && raw[108..236] == file
      && HeaderFields(raw, broadcast) ==
         p.(op := OperationFromByte(OperationToByte(p.op)), htype := HardwareFromByte(HardwareToByte(p.htype)),
            sname := sname, file := file, cookie := COOKIE,
            options := [], maxClientMessageSize := None, receivedByBroadcast := broadcast)
  {
    hide HeaderBytes;
    HeaderSlices(p, sname, file, rest);
    U32RoundTrip(p.xid);
    U16RoundTrip(p.secs);
    U16RoundTrip(p.flags);
    U32RoundTrip(p.ciaddr);
    U32RoundTrip(p.yiaddr);
    U32RoundTrip(p.siaddr);
    U32RoundTrip(p.giaddr);
  }

  lemma PaddedExtends(options: seq<byte>) returns (tail: seq<byte>)
    ensures Padded(options) == options + tail
  {
    tail := if |options| < 60 then Zeros(60 - |options|) else [];
  }

  /** A packet the wire can carry unchanged. */
  predicate WellFormedPacket(p: DhcpPacket) {
    CanonicalOperation(p.op) && CanonicalHardware(p.htype) && p.cookie == COOKIE && AllCarried(p.options)
  }

  /** All options go to the options area: there is no limit, or the packer keeps to the plain serialisation. */
  predicate PlainImage(p: DhcpPacket) {
    match p.maxClientMessageSize
    case None => true
    case Some(max) => p.options == [] || Size(p.options) + RESERVED_BYTES <= LimitsOf(p, max).max
  }

  /** The options in the options area of the wire image. */
  function AreaOptions(p: DhcpPacket): Options {
    match p.maxClientMessageSize
    case None => p.options
    case Some(max) => MainOptions(Pack(p.options, LimitsOf(p, max)))
  }

  lemma PlainImageAreas(p: DhcpPacket)
    requires PlainImage(p)
    ensures ImageOf(p) == Image(OptionArea.ToNetwork(p.options), p.file, p.sname) && AreaOptions(p) == p.options
  {
    hide EncodeAll;
    match p.maxClientMessageSize {
      case Some(max) =>
        if p.options != [] {
          AllInMain(p.options, LimitsOf(p, max));
        }
        assert p.options + [] == p.options;
      case None =>
    }
  }

  lemma {:induction false} EncodeAllFirst(options: Options)
    requires options != []
    ensures EncodeAll(options) != [] && EncodeAll(options)[0] == options[0].code
  {
    hide Encode;
    if |options| == 1 {
      assert options[..0] == [];
    } else {
      EncodeAllFirst(options[..|options| - 1]);
    }
  }

  /** A field that is used ceases to start with the zero that made it free. */
  lemma UsedFieldChanges(options: Options, field: seq<byte>)
    requires options != [] && AllCarried(options) && |OptionArea.ToNetwork(options)| <= |field|
    ensures Overlay(field, FieldBytes(options))[0] != 0
  {
    EncodeAllFirst(options);
    assert Carried(options[0]);
  }

  /** An image that shows the packet's own options and fields is the plain one. */
  lemma PlainImageOnly(p: DhcpPacket)
    requires AllCarried(p.options)
    requires AreaOptions(p) == p.options && ImageOf(p).file == p.file && ImageOf(p).sname == p.sname
    ensures PlainImage(p)
  {
    hide Pack, EncodeAll, Carried, Overlay, FieldBytes;
    match p.maxClientMessageSize {
      case Some(max) =>
        var l := LimitsOf(p, max);
        var packing := Pack(p.options, l);
        PackKeeps(p.options, l, o => Carried(o));
        PackSizes(p.options, l);
        PackedFields(p.options, l);
        if packing.file != [] {
          UsedFieldChanges(packing.file, p.file);
        }
        if packing.sname != [] {
          UsedFieldChanges(packing.sname, p.sname);
        }
        assert packing.main + [] == packing.main;
      case None =>
    }
  }

  lemma AreaCarried(p: DhcpPacket)
    requires AllCarried(p.options)
    ensures AllCarried(AreaOptions(p)) && ImageOf(p).options == OptionArea.ToNetwork(AreaOptions(p))
  {
    hide Pack, EncodeAll, Carried, Overlay, FieldBytes;
    match p.maxClientMessageSize {
      case Some(max) =>
        PackKeeps(p.options, LimitsOf(p, max), o => Carried(o));
        MainCarried(Pack(p.options, LimitsOf(p, max)));
      case None =>
    }
  }

  /**
   Packet round trip: a packet reads back identical from its own bytes, but for
   the size limit, which is not on the wire, exactly when it is well-formed and
   its options fit the options area of that limit.
   */
  lemma PacketRoundTrip(p: DhcpPacket)
    ensures DecodePacket(EncodePacket(p), p.receivedByBroadcast) == Ok(p.(maxClientMessageSize := None))
       <==> WellFormedPacket(p) && PlainImage(p)
  {
    hide HeaderBytes, HeaderFields, OptionArea.ToNetwork, OptionArea.FromNetwork, AllCarried, OperationFromByte,
      OperationToByte, HardwareFromByte, HardwareToByte, CanonicalOperation, CanonicalHardware, Padded, ImageOf,
      PlainImage;
    var image := ImageOf(p);
    var tail := PaddedExtends(image.options);
    HeaderRoundTrip(p, image.sname, image.file, Padded(image.options), p.receivedByBroadcast);
    OperationBytes(p.op, 0);
    HardwareBytes(p.htype, 0);
    if WellFormedPacket(p) && PlainImage(p) {
      PlainImageAreas(p);
      ParseWritten(p.options, tail);
    }
    if DecodePacket(EncodePacket(p), p.receivedByBroadcast) == Ok(p.(maxClientMessageSize := None)) {
      ParsedAreCarried(image.options + tail);
      AreaCarried(p);
      ParseWritten(AreaOptions(p), tail);
      PlainImageOnly(p);
    }
  }

  /** Whatever the server accepts is well-formed, and carries no size limit yet. */
  lemma DecodedIsWellFormed(raw: seq<byte>, broadcast: bool)
    requires DecodePacket(raw, broadcast).Ok?
    ensures var p := DecodePacket(raw, broadcast).value;
      WellFormedPacket(p) && p.maxClientMessageSize == None && p.receivedByBroadcast == broadcast
  {
    hide OptionArea.FromNetwork, AllCarried, OperationFromByte, HardwareFromByte;
    ParsedAreCarried(raw[240..]);
    OperationBytes(BootRequest, raw[0]);
    HardwareBytes(Ethernet, raw[1]);
  }

  /**
   Wire stability: re-encoding an accepted packet and decoding it again gives
   the identical packet, whatever padding, unknown options or unnormalised
   payloads the first bytes held.
   */
  lemma DecodeEncodeStable(raw: seq<byte>, broadcast: bool)
    requires DecodePacket(raw, broadcast).Ok?
    ensures DecodePacket(EncodePacket(DecodePacket(raw, broadcast).value), broadcast) == DecodePacket(raw, broadcast)
  {
    hide DecodePacket, EncodePacket, WellFormedPacket;
    DecodedIsWellFormed(raw, broadcast);
    PacketRoundTrip(DecodePacket(raw, broadcast).value);
  }

  /** Size bounds on every encoded packet. */
  lemma EncodedSize(p: DhcpPacket)
    ensures |EncodePacket(p)| >= 300
    ensures p.maxClientMessageSize.Some? ==>
      |EncodePacket(p)| <= if p.maxClientMessageSize.value > 576 then p.maxClientMessageSize.value else 576
  {
    hide HeaderBytes, Pack, OptionArea.ToNetwork;
    if p.maxClientMessageSize.Some? {
      PackedSizes(p.options, LimitsOf(p, p.maxClientMessageSize.value));
    }
  }

  // ---- The layout, in numbers ----

  /** The header of section 2 of RFC 2131, byte by byte: 240 bytes with the cookie, numbers in network order. */
  predicate HeaderSays(raw: seq<byte>, p: DhcpPacket) {
    && |raw| >= 240
    && raw[0] == OperationToByte(p.op) && raw[1] == HardwareToByte(p.htype) && raw[2] == p.hlen && raw[3] == p.hops
    && WordAt(raw, 4) == p.xid && HalfAt(raw, 8) == p.secs && HalfAt(raw, 10) == p.flags
    && WordAt(raw, 12) == p.ciaddr && WordAt(raw, 16) == p.yiaddr
    && WordAt(raw, 20) == p.siaddr && WordAt(raw, 24) == p.giaddr
    && raw[28..44] == p.chaddr && raw[44..108] == p.sname && raw[108..236] == p.file
    && raw[236..240] == [99, 130, 83, 99]
  }

  /** A slice of two or four bytes is the number at its place. */
  lemma NumberIn(raw: seq<byte>, i: nat, n: u16, w: u32)
    ensures i + 2 <= |raw| && raw[i..i + 2] == U16ToBe(n) ==> HalfAt(raw, i) == n
    ensures i + 4 <= |raw| && raw[i..i + 4] == U32ToBe(w) ==> WordAt(raw, i) == w
  {
    NetworkOrder(n, w, 0);
    if i + 2 <= |raw| && raw[i..i + 2] == U16ToBe(n) {
      assert raw[i] == raw[i..i + 2][0] && raw[i + 1] == raw[i..i + 2][1];
    }
    if i + 4 <= |raw| && raw[i..i + 4] == U32ToBe(w) {
      var b := raw[i..i + 4];
      assert raw[i] == b[0] && raw[i + 1] == b[1] && raw[i + 2] == b[2] && raw[i + 3] == b[3];
    }
  }

  lemma NumberOf(raw: seq<byte>, i: nat)
    ensures i + 2 <= |raw| ==> U16FromBe(raw[i..i + 2]) == HalfAt(raw, i)
    ensures i + 4 <= |raw| ==> U32FromBe(raw[i..i + 4]) == WordAt(raw, i)
  {
    if i + 2 <= |raw| {
      NetworkOrderRead(raw[i..i + 2]);
    }
    if i + 4 <= |raw| {
      NetworkOrderRead(raw[i..i + 4]);
    }
  }

  lemma HeaderWritten(p: DhcpPacket, sname: Bytes64, file: Bytes128, rest: seq<byte>)
    ensures HeaderSays(HeaderBytes(p, sname, file) + rest, p.(sname := sname, file := file))
  {
    hide HeaderBytes, WordAt, HalfAt, U16ToBe, U32ToBe, OperationToByte, HardwareToByte;
    var raw := HeaderBytes(p, sname, file) + rest;
    HeaderSlices(p, sname, file, rest);
    NumberIn(raw, 4, 0, p.xid);
    NumberIn(raw, 8, p.secs, 0);
    NumberIn(raw, 10, p.flags, 0);
    NumberIn(raw, 12, 0, p.ciaddr);
    NumberIn(raw, 16, 0, p.yiaddr);
    NumberIn(raw, 20, 0, p.siaddr);
    NumberIn(raw, 24, 0, p.giaddr);
  }

  /**
   What is written, to the last byte: the header, with option bytes laid over the
   fields that carry them, the options area, and zeros up to 300 bytes in all.
   */
  lemma EncodedLayout(p: DhcpPacket)
    ensures var raw, area := EncodePacket(p), ImageOf(p).options;
      && HeaderSays(raw, p.(sname := ImageOf(p).sname, file := ImageOf(p).file))
      && |raw| == (if 240 + |area| < 300 then 300 else 240 + |area|) && raw[240..240 + |area|] == area
      && forall i :: 240 + |area| <= i < |raw| ==> raw[i] == 0
  {
    hide HeaderBytes, HeaderSays, ImageOf;
    HeaderWritten(p, ImageOf(p).sname, ImageOf(p).file, Padded(ImageOf(p).options));
    var raw, area := EncodePacket(p), ImageOf(p).options;
    assert raw[240..] == Padded(area);
    assert forall i :: 240 <= i < |raw| ==> raw[i] == Padded(area)[i - 240];
  }

  /** A field of the image: its own bytes, or options with an End and then its own bytes. */
  predicate FieldShows(field: seq<byte>, options: Options, image: seq<byte>) {
    if options == [] then image == field
    else
      var area := EncodeAll(options) + [255];
      |area| <= |field| == |image| && image[..|area|] == area && image[|area|..] == field[|area|..]
  }

  /** The three areas: without a size limit the plain ones, else those of first fit within the larger of it and 576. */
  lemma ImageAreas(p: DhcpPacket)
    ensures p.maxClientMessageSize == None ==>
      ImageOf(p) == Image(EncodeAll(p.options) + [255], p.file, p.sname)
    ensures p.maxClientMessageSize.Some? ==>
      var max := p.maxClientMessageSize.value;
      var l := Limits((if max > 576 then max else 576) - 240, p.file[0] == 0, p.sname[0] == 0);
      var packing := Pack(p.options, l);
      && ImageOf(p).options == EncodeAll(MainOptions(packing)) + [255]
      && FieldShows(p.file, packing.file, ImageOf(p).file) && FieldShows(p.sname, packing.sname, ImageOf(p).sname)
  {
    hide Pack, EncodeAll, MainOptions;
    match p.maxClientMessageSize {
      case Some(max) => PackedSizes(p.options, LimitsOf(p, max));
      case None =>
    }
  }

  /** What is read of an accepted datagram: the header, byte by byte, and the options of its area. */
  lemma DecodedLayout(raw: seq<byte>, broadcast: bool)
    requires DecodePacket(raw, broadcast).Ok?
    ensures var p := DecodePacket(raw, broadcast).value;
      && HeaderSays(raw, p) && p.receivedByBroadcast == broadcast && p.maxClientMessageSize == None
      && (|raw| > 240 ==> OptionArea.FromNetwork(raw[240..]) == Ok(p.options)) && (|raw| == 240 ==> p.options == [])
  {
    hide WordAt, HalfAt, U16FromBe, U32FromBe, OptionArea.Parse;
    NumberOf(raw, 4);
    NumberOf(raw, 8);
    NumberOf(raw, 10);
    NumberOf(raw, 12);
    NumberOf(raw, 16);
    NumberOf(raw, 20);
    NumberOf(raw, 24);
    OperationBytes(BootRequest, raw[0]);
    HardwareBytes(Ethernet, raw[1]);
  }

  /** A datagram is accepted exactly when it holds the header, the cookie, and no options or a framed area. */
  lemma AcceptedExactly(raw: seq<byte>, broadcast: bool)
    ensures DecodePacket(raw, broadcast).Ok? <==>
      && |raw| >= 240 && raw[236..240] == [99, 130, 83, 99]
      && (|raw| == 240 || exists items: seq<Item>, rest: seq<byte> :: raw[240..] == Frame(items) + [255] + rest)
    ensures DecodePacket(raw, broadcast) == Err(InsufficientBytes) <== |raw| < 240
    ensures DecodePacket(raw, broadcast) == Err(BadCookie) <== |raw| >= 240 && raw[236..240] != [99, 130, 83, 99]
  {
    hide OptionArea.Parse, Frame, U16FromBe, U32FromBe, OperationFromByte, HardwareFromByte;
    if |raw| > 240 {
      AcceptsExactlyFramed(raw[240..]);
    }
  }

  // ---- The client ----

  /** An overload-aware client: the header, and the options of all areas in order. */
  function ClientRead(raw: seq<byte>): Result<DhcpPacket, PacketError> {
    if |raw| < DHCP_HEADER_LEN then Err(InsufficientBytes)
    else if raw[236..240] != COOKIE then Err(BadCookie)
    else
      match ReadOverloaded(raw[240..], raw[108..236], raw[44..108])
      case Ok(options) => Ok(HeaderFields(raw, false).(options := options))
      case Err(e) => Err(e)
  }

  /** The options that reach the client. */
  function Delivered(p: DhcpPacket): Options {
    match p.maxClientMessageSize
    case None => p.options
    case Some(max) =>
      var packing := Pack(p.options, LimitsOf(p, max));
      MainOptions(packing) + packing.file + packing.sname
  }

  /** A packet whose delivered options the client can read: those sent are carried, and Overload says where they are. */
  predicate Readable(p: DhcpPacket) {
    && CanonicalOperation(p.op) && CanonicalHardware(p.htype) && p.cookie == COOKIE
    && match p.maxClientMessageSize
       case None => AllCarried(p.options) && OverloadBits(p.options) % 4 == 0
       case Some(max) => Deliverable(Pack(p.options, LimitsOf(p, max)))
  }

  lemma WellFormedIsReadable(p: DhcpPacket)
    requires WellFormedPacket(p) && NoOverload(p.options)
    ensures Readable(p)
  {
    hide AllCarried, Pack, Deliverable;
    match p.maxClientMessageSize {
      case Some(max) => PackedDeliverable(p.options, LimitsOf(p, max));
      case None =>
        GetAppended(p.options, [], OVERLOAD);
        assert p.options + [] == p.options;
    }
  }

  lemma DeliveredIsRead(p: DhcpPacket, tail: seq<byte>)
    requires Readable(p)
    ensures ReadOverloaded(ImageOf(p).options + tail, ImageOf(p).file, ImageOf(p).sname) == Ok(Delivered(p))
  {
    hide AllCarried, Pack, MainOptions, OptionArea.ToNetwork, OptionArea.FromNetwork, Deliverable, OverloadBits;
    match p.maxClientMessageSize {
      case Some(max) =>
        hide ReadOverloaded;
        DeliverableReadsBack(p.options, LimitsOf(p, max), tail, p.file, p.sname);
      case None =>
        ParseWritten(p.options, tail);
        assert p.options + [] == p.options;
        assert p.options + [] + [] == p.options;
    }
  }

  /** What the client reads from an encoded packet: its header fields and the delivered options. */
  lemma ClientReadsEncoded(p: DhcpPacket)
    requires Readable(p)
    ensures ClientRead(EncodePacket(p)) ==
      Ok(p.(sname := ImageOf(p).sname, file := ImageOf(p).file,
            options := Delivered(p), maxClientMessageSize := None, receivedByBroadcast := false))
  {
    hide HeaderBytes, HeaderFields, ImageOf, Delivered, ReadOverloaded, Deliverable, AllCarried, OverloadBits,
      OperationFromByte, OperationToByte, HardwareFromByte, HardwareToByte, Padded;
    var image := ImageOf(p);
    var tail := PaddedExtends(image.options);
    HeaderRoundTrip(p, image.sname, image.file, Padded(image.options), false);
    HeaderSlices(p, image.sname, image.file, Padded(image.options));
    DeliveredIsRead(p, tail);
    OperationBytes(p.op, 0);
    HardwareBytes(p.htype, 0);
  }
}
