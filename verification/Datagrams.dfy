/** Two datagrams and a search list, byte by byte. */
module Datagrams {
  import opened Wrappers
  import opened Bytes
  import opened Enums
  import opened DhcpOptions
  import opened OptionArea
  import opened Packet
  import opened DomainNames

  // ---- Reading ----

  /** Op, htype, hlen, hops; xid; secs and flags; addresses; chaddr; sname and file; cookie. */
  function DiscoverHeader(): seq<byte> {
    [1, 1, 6, 0] + [18, 52, 86, 120] + [0, 4, 128, 0] + Zeros(16) + [2, 0, 0, 0, 0, 7] + Zeros(10) + Zeros(192)
    + [99, 130, 83, 99]
  }

  /** A discover with a size limit of 1500 that asks for 3 and 15; a pad; an unknown option; the end; more bytes. */
  function DiscoverOptions(): seq<byte> {
    [53, 1, 1] + [57, 2, 5, 220] + [55, 2, 3, 15] + [0] + [224, 1, 9] + [255] + [1, 2, 3]
  }

  function DiscoverPacket(): DhcpPacket {
    DhcpPacket(BootRequest, Ethernet, 6, 0, 305419896, 4, 32768, 0, 0, 0, 0, [2, 0, 0, 0, 0, 7] + Zeros(10), Zeros(64),
               Zeros(128), [99, 130, 83, 99],
               [DhcpOption(53, Msg(Discover)), DhcpOption(57, U16(1500)), DhcpOption(55, Blob([3, 15]))], None, true)
  }

  lemma GoodAppend(items: seq<Item>, item: Item)
    ensures Good(items + [item]) == Good(items) + Decoded(item)
    ensures Frame(items + [item]) == Frame(items) + ItemBytes(item)
  {
    hide Decoded, ItemBytes, Frame;
    assert (items + [item])[..|items|] == items;
    FrameAppend(items, item);
  }

  lemma ElementsDecoded()
    ensures Decoded(Tlv(53, [1])) == [DhcpOption(53, Msg(Discover))]
    ensures Decoded(Tlv(57, [5, 220])) == [DhcpOption(57, U16(1500))]
    ensures Decoded(Tlv(55, [3, 15])) == [DhcpOption(55, Blob([3, 15]))]
    ensures Decoded(Filler) == [] && Decoded(Tlv(224, [9])) == []
  {
    hide KindOf, U16FromBe, Decode;
    OptionTable(53);
    OptionTable(57);
    OptionTable(55);
    OptionTable(224);
    ValuesDecoded();
  }

  lemma ValuesDecoded()
    ensures Decode(KMsg, [1]) == Ok(Msg(Discover)) && Decode(KU16, [5, 220]) == Ok(U16(1500))
    ensures Decode(KBlob, [3, 15]) == Ok(Blob([3, 15]))
  {
    hide U16FromBe;
    NetworkOrderRead([5, 220]);
  }

  lemma NothingFramed()
    ensures Good([]) == [] && Frame([]) == []
  {
  }

  lemma OptionsRead()
    ensures OptionArea.FromNetwork(DiscoverOptions()) == Ok(DiscoverPacket().options)
  {
    hide Good, Frame, Decoded, New;
    var items: seq<Item> := [];
    NothingFramed();
    ElementsDecoded();
    GoodAppend(items, Tlv(53, [1]));
    items := items + [Tlv(53, [1])];
    GoodAppend(items, Tlv(57, [5, 220]));
    items := items + [Tlv(57, [5, 220])];
    GoodAppend(items, Tlv(55, [3, 15]));
    items := items + [Tlv(55, [3, 15])];
    GoodAppend(items, Filler);
    items := items + [Filler];
    GoodAppend(items, Tlv(224, [9]));
    items := items + [Tlv(224, [9])];
    ParseFramed(items, [1, 2, 3]);
    assert Frame(items) + [255] + [1, 2, 3] == DiscoverOptions();
    assert Good(items) == DiscoverPacket().options;
  }

  /** A discover as it comes from the network: pads, unknown options and bytes after the end leave no trace. */
  lemma DiscoverRead()
    ensures DecodePacket(DiscoverHeader() + DiscoverOptions(), true) == Ok(DiscoverPacket())
  {
    hide OptionArea.FromNetwork, WordAt, HalfAt;
    var raw := DiscoverHeader() + DiscoverOptions();
    assert |DiscoverHeader()| == 240 && raw[240..] == DiscoverOptions();
    OptionsRead();
    HeaderRead(raw);
  }

  lemma HeaderRead(raw: seq<byte>)
    requires |raw| >= 240 && raw[..240] == DiscoverHeader()
    ensures HeaderFields(raw, true) == DiscoverPacket().(options := [])
  {
    hide U32FromBe, U16FromBe, DiscoverHeader;
    var h := raw[..240];
    HeaderWords(h);
    assert raw[4..8] == h[4..8] && raw[8..10] == h[8..10] && raw[10..12] == h[10..12] && raw[12..16] == h[12..16];
    assert raw[16..20] == h[16..20] && raw[20..24] == h[20..24] && raw[24..28] == h[24..28] && raw[28..44] == h[28..44];
    assert raw[44..108] == h[44..108] && raw[108..236] == h[108..236] && raw[236..240] == h[236..240];
    assert raw[0] == h[0] && raw[1] == h[1] && raw[2] == h[2] && raw[3] == h[3];
    NumbersRead();
  }

  lemma HeaderWords(h: seq<byte>)
    requires h == DiscoverHeader()
    ensures |h| == 240 && h[0] == 1 && h[1] == 1 && h[2] == 6 && h[3] == 0
    ensures h[4..8] == [18, 52, 86, 120] && h[8..10] == [0, 4] && h[10..12] == [128, 0]
    ensures h[12..16] == h[16..20] == h[20..24] == h[24..28] == Zeros(4)
    ensures h[28..44] == [2, 0, 0, 0, 0, 7] + Zeros(10) && h[44..108] == Zeros(64) && h[108..236] == Zeros(128)
    ensures h[236..240] == [99, 130, 83, 99]
  {
    assert h[44..108] == Zeros(64);
    assert h[108..236] == Zeros(128);
  }

  lemma NumbersRead()
    ensures U32FromBe([18, 52, 86, 120]) == 305419896 && U16FromBe([0, 4]) == 4 && U16FromBe([128, 0]) == 32768
    ensures U32FromBe(Zeros(4)) == 0
  {
    NetworkOrderRead([18, 52, 86, 120]);
    NetworkOrderRead([0, 4]);
    NetworkOrderRead([128, 0]);
    NetworkOrderRead(Zeros(4));
  }

  // ---- Writing ----

  /** An offer of 192.168.0.10 by 192.168.0.1 with a router and a name, for a client without a size limit. */
  function OfferPacket(): DhcpPacket {
    DhcpPacket(BootReply, Ethernet, 6, 0, 305419896, 0, 32768, 0, 3232235530, 0, 0, [2, 0, 0, 0, 0, 7] + Zeros(10),
               Zeros(64), Zeros(128), [99, 130, 83, 99],
               [DhcpOption(53, Msg(Offer)), DhcpOption(54, Addr(3232235521)), DhcpOption(51, U32(3600)),
                DhcpOption(3, Addrs([3232235521]))], None, true)
  }

  function OfferBytes(): seq<byte> {
    [2, 1, 6, 0] + [18, 52, 86, 120] + [0, 0, 128, 0] + [0, 0, 0, 0] + [192, 168, 0, 10] + Zeros(8)
    + [2, 0, 0, 0, 0, 7] + Zeros(10) + Zeros(192) + [99, 130, 83, 99]
    + [53, 1, 2] + [54, 4, 192, 168, 0, 1] + [51, 4, 0, 0, 14, 16] + [3, 4, 192, 168, 0, 1] + [255] + Zeros(38)
  }

  lemma WordsWritten()
    ensures U32ToBe(305419896) == [18, 52, 86, 120] && U32ToBe(0) == [0, 0, 0, 0]
    ensures U32ToBe(3232235530) == [192, 168, 0, 10] && U32ToBe(3232235521) == [192, 168, 0, 1]
    ensures U32ToBe(3600) == [0, 0, 14, 16] && U16ToBe(0) == [0, 0] && U16ToBe(32768) == [128, 0]
  {
  }

  lemma EachWritten()
    ensures DhcpOptions.ToNetwork(DhcpOption(53, Msg(Offer))) == [53, 1, 2]
    ensures DhcpOptions.ToNetwork(DhcpOption(54, Addr(3232235521))) == [54, 4, 192, 168, 0, 1]
    ensures DhcpOptions.ToNetwork(DhcpOption(51, U32(3600))) == [51, 4, 0, 0, 14, 16]
    ensures DhcpOptions.ToNetwork(DhcpOption(3, Addrs([3232235521]))) == [3, 4, 192, 168, 0, 1]
  {
    hide U32ToBe;
    WordsWritten();
    assert EncodeAddrs([3232235521]) == U32ToBe(3232235521) + EncodeAddrs([]);
  }

  lemma AlsoWritten(before: seq<DhcpOption>, o: DhcpOption)
    ensures EncodeAll(before + [o]) == EncodeAll(before) + DhcpOptions.ToNetwork(o)
  {
    hide DhcpOptions.ToNetwork;
    assert (before + [o])[..|before|] == before;
  }

  lemma OptionsWritten()
    ensures EncodeAll(OfferPacket().options)
         == [53, 1, 2] + [54, 4, 192, 168, 0, 1] + [51, 4, 0, 0, 14, 16] + [3, 4, 192, 168, 0, 1]
  {
    hide DhcpOptions.ToNetwork, EncodeAll;
    EachWritten();
    NothingWritten();
    var options: seq<DhcpOption> := [];
    AlsoWritten(options, DhcpOption(53, Msg(Offer)));
    options := options + [DhcpOption(53, Msg(Offer))];
    AlsoWritten(options, DhcpOption(54, Addr(3232235521)));
    options := options + [DhcpOption(54, Addr(3232235521))];
    AlsoWritten(options, DhcpOption(51, U32(3600)));
    options := options + [DhcpOption(51, U32(3600))];
    AlsoWritten(options, DhcpOption(3, Addrs([3232235521])));
    assert options + [DhcpOption(3, Addrs([3232235521]))] == OfferPacket().options;
  }

  lemma NothingWritten()
    ensures EncodeAll([]) == []
  {
  }

  /** The offer as it goes to the network, zeros to 300 bytes included. */
  lemma OfferWritten()
    ensures EncodePacket(OfferPacket()) == OfferBytes() && |OfferBytes()| == 300
  {
    hide EncodeAll, U32ToBe, U16ToBe;
    WordsWritten();
    OptionsWritten();
    var area := EncodeAll(OfferPacket().options) + [255];
    assert |area| == 22 && Padded(area) == area + Zeros(38);
    HeaderWritten(OfferPacket());
  }

  lemma HeaderWritten(p: DhcpPacket)
    requires p == OfferPacket()
    ensures HeaderBytes(p, Zeros(64), Zeros(128)) == OfferBytes()[..240]
  {
    hide U32ToBe, U16ToBe;
    WordsWritten();
    assert Zeros(64) + Zeros(128) == Zeros(192) && U32ToBe(0) + U32ToBe(0) == Zeros(8);
  }

  // ---- A search list ----

  /** "a.b" and "c.b" as section 4.1.4 of RFC 1035 compresses them: the second name ends by pointing into the first. */
  lemma SearchListWritten()
    ensures Compress([[97, 46, 98], [99, 46, 98]]).bytes == [1, 97, 1, 98, 0] + [1, 99, 192, 2]
  {
    FirstNameWritten();
    var first: Name, second: Name := [97, 46, 98], [99, 46, 98];
    assert [first, second][..1] == [first];
    SecondNameWritten(Compress([first]).table);
  }

  lemma SecondNameWritten(table: map<Name, nat>)
    requires table == map[[97, 46, 98] := 0, [98] := 2]
    ensures Emit(table, [99, 46, 98], 5).bytes == [1, 99, 192, 2]
  {
    assert Part([99, 46, 98]) == [99] && Rest([99, 46, 98]) == [98];
    assert Emit(table, [98], 7).bytes == [192, 2];
  }

  lemma FirstNameWritten()
    ensures var c := Compress([[97, 46, 98]]);
      c.bytes == [1, 97, 1, 98, 0] && c.table == map[[97, 46, 98] := 0, [98] := 2]
  {
    var names: seq<Name> := [[97, 46, 98]];
    assert names[..0] == [];
    assert Part([97, 46, 98]) == [97] && Rest([97, 46, 98]) == [98] && Part([98]) == [98] && !HasRest([98]);
  }
}
