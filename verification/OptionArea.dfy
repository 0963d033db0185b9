/**
 An option area: options one after the other, single-octet pads between them,
 closed by End. The parser walks a cursor over it and drops what it cannot decode.

 The specification has two layers, framing and decoding; the cursor loop does
 both at once and is proved equal to their composition.
 */
module OptionArea {
  import opened Wrappers
  import opened Bytes
  import opened DhcpOptions

  type Options = seq<DhcpOption>

  // ---- Framing ----

  datatype RawItem = Filler | Tlv(code: byte, payload: seq<byte>)

  /** One element of an area before End. */
  type Item = i: RawItem | i.Tlv? ==> i.code !in {PAD, END} && |i.payload| <= 255 witness Filler

  function ItemBytes(i: Item): (b: seq<byte>)
    ensures |b| > 0
  {
    match i
    case Filler => [PAD]
    case Tlv(code, payload) => [code, |payload|] + payload
  }

  function Frame(items: seq<Item>): seq<byte>
  {
    if items == [] then [] else ItemBytes(items[0]) + Frame(items[1..])
  }

  function PrependItems(items: seq<Item>, rest: Result<seq<Item>, PacketError>): Result<seq<Item>, PacketError> {
    match rest
    case Ok(more) => Ok(items + more)
    case Err(e) => Err(e)
  }

  /** The elements up to the first End; bytes after it are not looked at. */
  function Deframe(raw: seq<byte>): Result<seq<Item>, PacketError> {
    if raw == [] then Err(UnexpectedEnd)
    else if raw[0] == END then Ok([])
    else if raw[0] == PAD then PrependItems([Filler], Deframe(raw[1..]))
    else if |raw| < 2 then Err(UnexpectedEnd)
    else
      var end := 2 + raw[1] as int;
      if end > |raw| then Err(MalformedPacket)
      else PrependItems([Tlv(raw[0], raw[2..end])], Deframe(raw[end..]))
  }

  lemma DeframeStep(i: Item, tail: seq<byte>)
    ensures Deframe(ItemBytes(i) + tail) == PrependItems([i], Deframe(tail))
  {
    var raw := ItemBytes(i) + tail;
    match i {
      case Filler => assert raw[1..] == tail;
      case Tlv(code, payload) => assert raw[2..2 + |payload|] == payload && raw[2 + |payload|..] == tail;
    }
  }

  lemma {:induction false} DeframeFramed(items: seq<Item>, rest: seq<byte>)
    ensures Deframe(Frame(items) + [END] + rest) == Ok(items)
  {
    hide ItemBytes;
    if items == [] {
    } else {
      hide Deframe;
      var tail := Frame(items[1..]) + [END] + rest;
      assert Frame(items) + [END] + rest == ItemBytes(items[0]) + tail;
      DeframeStep(items[0], tail);
      DeframeFramed(items[1..], rest);
      assert items == [items[0]] + items[1..];
    }
  }

  /** The first element of an area that has one, and what follows it. */
  lemma DeframedFirst(raw: seq<byte>) returns (n: nat)
    requires Deframe(raw).Ok? && raw[0] != END
    ensures var items := Deframe(raw).value;
      && items != [] && 0 < n <= |raw| && raw[..n] == ItemBytes(items[0]) && Deframe(raw[n..]) == Ok(items[1..])
  {
    n := if raw[0] == PAD then 1 else 2 + raw[1] as int;
    var items := Deframe(raw).value;
    assert items == [items[0]] + Deframe(raw[n..]).value;
    assert items[1..] == Deframe(raw[n..]).value;
  }

  lemma DeframeEnd(raw: seq<byte>)
    requires Deframe(raw).Ok?
    ensures raw != [] && (raw[0] == END ==> Deframe(raw) == Ok([]))
  {
  }

  lemma {:induction false} DeframedIsFramed(raw: seq<byte>) returns (rest: seq<byte>)
    requires Deframe(raw).Ok?
    ensures var items := Deframe(raw).value;
      raw == Frame(items) + [END] + rest
  {
    hide Deframe, ItemBytes;
    DeframeEnd(raw);
    if raw[0] == END {
      rest := raw[1..];
    } else {
      var items := Deframe(raw).value;
      var n := DeframedFirst(raw);
      var head, tail := ItemBytes(items[0]), Frame(items[1..]);
      rest := DeframedIsFramed(raw[n..]);
      assert raw == head + raw[n..] == head + (tail + [END] + rest) == (head + tail) + [END] + rest;
    }
  }

  // ---- Decoding ----

  /** The option an element carries, if it carries one. */
  function Decoded(i: Item): Options {
    if i.Tlv? && New(i.code, i.payload).Ok? then [New(i.code, i.payload).value] else []
  }

  function Good(items: seq<Item>): Options {
    if items == [] then [] else Good(items[..|items| - 1]) + Decoded(items[|items| - 1])
  }

  function Parse(raw: seq<byte>): Result<Options, PacketError> {
    match Deframe(raw)
    case Ok(items) => Ok(Good(items))
    case Err(e) => Err(e)
  }

  function FromNetwork(raw: seq<byte>): Result<Options, PacketError> {
    if raw == [] then Ok([]) else Parse(raw)
  }

  /** One turn of the cursor. */
  lemma DeframeTurn(here: seq<byte>)
    ensures here == [] ==> Deframe(here) == Err(UnexpectedEnd)
    ensures here != [] && here[0] == END ==> Deframe(here) == Ok([])
    ensures here != [] && here[0] == PAD ==> Deframe(here) == PrependItems([Filler], Deframe(here[1..]))
    ensures here != [] && here[0] !in {PAD, END} ==>
      Deframe(here) ==
        if |here| < 2 then Err(UnexpectedEnd)
        else if 2 + here[1] as int > |here| then Err(MalformedPacket)
        else PrependItems([Tlv(here[0], here[2..2 + here[1] as int])], Deframe(here[2 + here[1] as int..]))
  {
  }

  method FromNetworkLoop(raw: seq<byte>) returns (r: Result<Options, PacketError>)
    ensures r == FromNetwork(raw)
  {
    hide New, Good, Deframe;
    if raw == [] {
      return Ok([]);
    }
    var pos := 0;
    var options: Options := [];
    ghost var items: seq<Item> := [];
    EmptyArea();
    assert raw[0..] == raw && (Deframe(raw).Ok? ==> items + Deframe(raw).value == Deframe(raw).value);
    while true
      invariant 0 <= pos <= |raw|
      invariant PrependItems(items, Deframe(raw[pos..])) == Deframe(raw)
      invariant options == Good(items)
      decreases |raw| - pos
    {
      ghost var here := raw[pos..];
      DeframeTurn(here);
      if pos == |raw| {
        return Err(UnexpectedEnd);
      }
      var code := raw[pos];
      if code == END {
        assert items + [] == items;
        return Ok(options);
      }
      ghost var item := Filler;
      if code == PAD {
        assert here[1..] == raw[pos + 1..];
        pos := pos + 1;
      } else {
        if pos + 1 == |raw| {
          return Err(UnexpectedEnd);
        }
        var start := pos + 2;
        var end := start + raw[pos + 1] as int;
        if end > |raw| {
          return Err(MalformedPacket);
        }
        assert here[2..end - pos] == raw[start..end] && here[end - pos..] == raw[end..];
        item := Tlv(code, raw[start..end]);
        pos := end;
        options := PushDecoded(options, code, raw[start..end]);
      }
      items := Consume(items, item, raw, here, pos);
    }
  }

  /** An option that does not decode is dropped and the cursor stays aligned. */
  method PushDecoded(options: Options, code: byte, data: seq<byte>) returns (more: Options)
    requires code !in {PAD, END} && |data| <= 255
    ensures more == options + Decoded(Tlv(code, data))
  {
    more := options;
    var option := New(code, data);
    if option.Ok? {
      more := more + [option.value];
    }
  }

  /** Moving one element from the unread bytes to the read ones keeps the total. */
  lemma Consume(items: seq<Item>, item: Item, raw: seq<byte>, here: seq<byte>, pos: nat) returns (now: seq<Item>)
    requires pos <= |raw|
    requires PrependItems(items, Deframe(here)) == Deframe(raw)
    requires Deframe(here) == PrependItems([item], Deframe(raw[pos..]))
    ensures now == items + [item] && Good(now) == Good(items) + Decoded(item)
    ensures PrependItems(now, Deframe(raw[pos..])) == Deframe(raw)
  {
    now := items + [item];
    assert now[..|items|] == items;
    if Deframe(raw[pos..]).Ok? {
      assert now + Deframe(raw[pos..]).value == items + ([item] + Deframe(raw[pos..]).value);
    }
  }

  /**
   Alignment: over any pads, unknown codes, undecodable payloads and good
   options the parser returns exactly the good options, whatever follows End.
   */
  lemma {:induction false} ParseFramed(items: seq<Item>, rest: seq<byte>)
    ensures Parse(Frame(items) + [END] + rest) == Ok(Good(items))
  {
    DeframeFramed(items, rest);
  }

  /** A non-empty area is accepted exactly when its framing reaches an End. */
  lemma AcceptsExactlyFramed(raw: seq<byte>)
    requires raw != []
    ensures FromNetwork(raw).Ok? <==>
      exists items: seq<Item>, rest: seq<byte> :: raw == Frame(items) + [255] + rest
  {
    if FromNetwork(raw).Ok? {
      var rest := DeframedIsFramed(raw);
    }
    if items: seq<Item>, rest: seq<byte> :| raw == Frame(items) + [END] + rest {
      ParseFramed(items, rest);
    }
  }

  /** What is left when an area breaks off: nothing, a code without length, or less payload than the length says. */
  predicate CutShort(tail: seq<byte>) {
    tail != [] ==> tail[0] !in {0, 255} && (|tail| >= 2 ==> |tail| < 2 + tail[1] as int)
  }

  /** The area breaks off after these elements; the error tells whether a length was still there. */
  predicate BreaksOff(raw: seq<byte>, items: seq<Item>, tail: seq<byte>, e: PacketError) {
    raw == Frame(items) + tail && CutShort(tail) && e == if |tail| < 2 then UnexpectedEnd else MalformedPacket
  }

  lemma {:induction false} DeframeCut(items: seq<Item>, tail: seq<byte>)
    requires CutShort(tail)
    ensures Deframe(Frame(items) + tail) == Err(if |tail| < 2 then UnexpectedEnd else MalformedPacket)
  {
    hide ItemBytes;
    if items == [] {
      assert Frame(items) + tail == tail;
    } else {
      hide Deframe;
      var more := Frame(items[1..]) + tail;
      assert Frame(items) + tail == ItemBytes(items[0]) + more;
      DeframeStep(items[0], more);
      DeframeCut(items[1..], tail);
    }
  }

  /** The elements read before an area breaks off, and what is left. */
  lemma {:induction false} WhereCut(raw: seq<byte>) returns (items: seq<Item>, tail: seq<byte>)
    requires Deframe(raw).Err?
    ensures raw == Frame(items) + tail && CutShort(tail)
    decreases |raw|
  {
    hide Deframe;
    DeframeTurn(raw);
    items, tail := [], raw;
    if raw != [] && (raw[0] == PAD || (|raw| >= 2 && 2 + raw[1] as int <= |raw|)) {
      var n := if raw[0] == PAD then 1 else 2 + raw[1] as int;
      var item := if raw[0] == PAD then Filler else Tlv(raw[0], raw[2..n]);
      assert raw == ItemBytes(item) + raw[n..];
      var rest;
      rest, tail := WhereCut(raw[n..]);
      items := [item] + rest;
      assert items[1..] == rest;
    }
  }

  /** A non-empty area is refused exactly when its elements break off before an End. */
  lemma RejectedExactly(raw: seq<byte>, e: PacketError)
    requires raw != []
    ensures FromNetwork(raw) == Err(e) <==> exists items: seq<Item>, tail: seq<byte> :: BreaksOff(raw, items, tail, e)
  {
    hide Deframe, CutShort, Frame;
    if FromNetwork(raw) == Err(e) {
      var items, tail := WhereCut(raw);
      DeframeCut(items, tail);
      assert BreaksOff(raw, items, tail, e);
    }
    if items: seq<Item>, tail: seq<byte> :| BreaksOff(raw, items, tail, e) {
      DeframeCut(items, tail);
    }
  }

  // ---- Writing ----

  function EncodeAll(options: Options): seq<byte> {
    if options == [] then [] else EncodeAll(options[..|options| - 1]) + DhcpOptions.ToNetwork(options[|options| - 1])
  }

  function ToNetwork(options: Options): seq<byte> {
    EncodeAll(options) + [END]
  }

  method ToNetworkLoop(options: Options) returns (bytes: seq<byte>)
    ensures bytes == ToNetwork(options)
  {
    bytes := [];
    for i := 0 to |options|
      invariant bytes == EncodeAll(options[..i])
    {
      assert options[..i + 1][..i] == options[..i];
      bytes := bytes + DhcpOptions.ToNetwork(options[i]);
    }
    assert options[..|options|] == options;
    bytes := bytes + [END];
  }

  /** An option an area can carry: well-formed and not a single-octet one. */
  predicate Carried(o: DhcpOption) {
    WellFormed(o) && o.code !in {PAD, END}
  }

  predicate AllCarried(options: Options) {
    forall i :: 0 <= i < |options| ==> Carried(options[i])
  }

  lemma DecodedIsCarried(i: Item)
    ensures AllCarried(Decoded(i))
  {
    if Decoded(i) != [] {
      OptionNormalises(i.code, i.payload);
    }
  }

  lemma {:induction false} GoodAreCarried(items: seq<Item>)
    ensures AllCarried(Good(items))
  {
    if items == [] {
    } else {
      GoodAreCarried(items[..|items| - 1]);
      DecodedIsCarried(items[|items| - 1]);
    }
  }

  lemma ParsedAreCarried(raw: seq<byte>)
    requires FromNetwork(raw).Ok?
    ensures AllCarried(FromNetwork(raw).value)
  {
    if raw != [] {
      var rest := DeframedIsFramed(raw);
      GoodAreCarried(Deframe(raw).value);
    }
  }

  function ItemOf(o: DhcpOption): Item
    requires Carried(o)
  {
    Tlv(o.code, Encode(o.value))
  }

  lemma CarriedHasValue(o: DhcpOption)
    requires Carried(o)
    ensures !o.value.NoValue? && |Encode(o.value)| <= 255
  {
    hide Encode;
  }

  lemma {:induction false} ItemOfCarried(o: DhcpOption)
    requires Carried(o)
    ensures ItemBytes(ItemOf(o)) == DhcpOptions.ToNetwork(o) && Decoded(ItemOf(o)) == [o]
  {
    hide Encode, New, KindOf, EncodableValue;
    CarriedHasValue(o);
    NewOfEncoded(o);
  }

  lemma {:induction false} FrameAppend(items: seq<Item>, last: Item)
    ensures Frame(items + [last]) == Frame(items) + ItemBytes(last)
  {
    hide ItemBytes;
    var all := items + [last];
    if items == [] {
      assert all == [last] && all[1..] == [];
    } else {
      var head, tail := ItemBytes(items[0]), Frame(items[1..]);
      FrameAppend(items[1..], last);
      assert all[0] == items[0] && all[1..] == items[1..] + [last];
      assert head + (tail + ItemBytes(last)) == (head + tail) + ItemBytes(last);
    }
  }

  lemma AppendCarried(items: seq<Item>, options: Options, o: DhcpOption)
    requires Carried(o) && Frame(items) == EncodeAll(options) && Good(items) == options
    ensures var more := items + [ItemOf(o)];
      Frame(more) == EncodeAll(options + [o]) && Good(more) == options + [o]
  {
    ItemOfCarried(o);
    FrameAppend(items, ItemOf(o));
    assert (items + [ItemOf(o)])[..|items|] == items;
    assert (options + [o])[..|options|] == options;
  }

  lemma EmptyArea()
    ensures Frame([]) == [] && Good([]) == [] && EncodeAll([]) == []
  {
  }

  lemma {:induction false} CarriedAsItems(options: Options) returns (items: seq<Item>)
    requires AllCarried(options)
    ensures Frame(items) == EncodeAll(options) && Good(items) == options
  {
    hide Carried, Frame, Good, EncodeAll, DhcpOptions.ToNetwork;
    if options == [] {
      items := [];
      EmptyArea();
    } else {
      var n := |options| - 1;
      var init := CarriedAsItems(options[..n]);
      AppendCarried(init, options[..n], options[n]);
      items := init + [ItemOf(options[n])];
      assert options == options[..n] + [options[n]];
    }
  }

  /** A written area reads back as its options, whatever bytes follow it. */
  lemma ParseWritten(options: Options, rest: seq<byte>)
    requires AllCarried(options)
    ensures FromNetwork(ToNetwork(options) + rest) == Ok(options)
  {
    var items := CarriedAsItems(options);
    ParseFramed(items, rest);
  }

  /** Area codec: a written list reads back exactly when every option is carried. */
  lemma AreaRoundTrip(options: Options, rest: seq<byte>)
    ensures FromNetwork(ToNetwork(options) + rest) == Ok(options) <==> AllCarried(options)
  {
    if AllCarried(options) {
      ParseWritten(options, rest);
    }
    if FromNetwork(ToNetwork(options) + rest).Ok? {
      ParsedAreCarried(ToNetwork(options) + rest);
    }
  }

  /** A written option: code, length of the payload modulo 256, payload; Pad and End are their code alone. */
  lemma OptionBytes(o: DhcpOption)
    requires Typed(o)
    ensures var b := DhcpOptions.ToNetwork(o);
      if o.code in {0, 255} then b == [o.code]
      else
         |b| == 2 + |Encode(o.value)|
         && b[0] == o.code && b[1] == |Encode(o.value)| % 256 && b[2..] == Encode(o.value)
  {
  }

  /** The bytes of a list: those of its first option, then those of the rest. */
  lemma {:induction false} EncodedInOrder(options: Options)
    requires options != []
    ensures EncodeAll(options) == DhcpOptions.ToNetwork(options[0]) + EncodeAll(options[1..])
  {
    hide DhcpOptions.ToNetwork;
    var n := |options| - 1;
    if n == 0 {
      assert options[..0] == [] && options[1..] == [];
    } else {
      EncodedInOrder(options[..n]);
      assert options[..n][1..] == options[1..][..n - 1] && options[1..][n - 1] == options[n];
      var a, b := DhcpOptions.ToNetwork(options[0]), EncodeAll(options[1..][..n - 1]);
      var c := DhcpOptions.ToNetwork(options[n]);
      assert (a + b) + c == a + (b + c);
    }
  }

  /** A pad is the octet 0; any other element its code, its length and its payload. */
  lemma ElementBytes(i: Item)
    ensures i == Filler ==> ItemBytes(i) == [0]
    ensures i.Tlv? ==> ItemBytes(i) == [i.code, |i.payload|] + i.payload && i.code !in {0, 255}
  {
  }

  // ---- Lookup ----

  /** The first option with the given code. */
  function GetOption(options: Options, code: byte): Option<DhcpOption> {
    if options == [] then None
    else if options[0].code == code then Some(options[0])
    else GetOption(options[1..], code)
  }

  /** The lookup finds the first option of the code, if there is one. */
  lemma {:induction false} FirstFound(options: Options, code: byte)
    ensures match GetOption(options, code)
      case Some(o) => exists i :: 0 <= i < |options| && o == options[i] && o.code == code
                        && forall j :: 0 <= j < i ==> options[j].code != code
      case None => forall i :: 0 <= i < |options| ==> options[i].code != code
  {
    if options == [] || options[0].code == code {
    } else {
      FirstFound(options[1..], code);
      match GetOption(options, code) {
        case Some(o) =>
          var rest := options[1..];
          var i :| 0 <= i < |rest| && o == rest[i] && forall j :: 0 <= j < i ==> rest[j].code != code;
          assert o == options[i + 1];
          assert forall j :: 0 < j < i + 1 ==> options[j] == options[1..][j - 1];
        case None =>
          assert forall j :: 0 < j < |options| ==> options[j] == options[1..][j - 1];
      }
    }
  }
}
