/**
 Option overload (section 9.3 of RFC 2132): options that do not fit the size the
 client asked for move to the unused `file` and `sname` header fields, first fit.
 */
module Overload {
  import opened Wrappers
  import opened Bytes
  import opened DhcpOptions
  import opened OptionArea

  const RESERVED_BYTES: nat := 4
  const FILE_BYTES: nat := 128
  const SNAME_BYTES: nat := 64

  /** Which fields may carry options, and how long the options area may be. */
  datatype Limits = Limits(max: nat, useFile: bool, useSname: bool)

  /** Where the options went; each list is in the order of the input. */
  datatype Packing = Packing(main: Options, file: Options, sname: Options, dropped: Options)

  function Size(options: Options): nat {
    |EncodeAll(options)|
  }

  predicate FitsMain(l: Limits, p: Packing, o: DhcpOption) {
    Size(p.main) + |DhcpOptions.ToNetwork(o)| + RESERVED_BYTES <= l.max
  }

  predicate FitsFile(l: Limits, p: Packing, o: DhcpOption) {
    l.useFile && Size(p.file) + 1 + |DhcpOptions.ToNetwork(o)| <= FILE_BYTES
  }

  predicate FitsSname(l: Limits, p: Packing, o: DhcpOption) {
    l.useSname && Size(p.sname) + 1 + |DhcpOptions.ToNetwork(o)| <= SNAME_BYTES
  }

  datatype Bin = InMain | InFile | InSname | Dropped

  /** The first place with room left. */
  function Choose(l: Limits, p: Packing, o: DhcpOption): Bin {
    if FitsMain(l, p, o) then InMain
    else if FitsFile(l, p, o) then InFile
    else if FitsSname(l, p, o) then InSname
    else Dropped
  }

  function Put(p: Packing, o: DhcpOption, b: Bin): Packing {
    match b
    case InMain => p.(main := p.main + [o])
    case InFile => p.(file := p.file + [o])
    case InSname => p.(sname := p.sname + [o])
    case Dropped => p.(dropped := p.dropped + [o])
  }

  /** First fit over the whole list. */
  function Pack(options: Options, l: Limits): Packing {
    if options == [] then Packing([], [], [], [])
    else
      var p, o := Pack(options[..|options| - 1], l), options[|options| - 1];
      Put(p, o, Choose(l, p, o))
  }

  /** Bit 1 of option 52 says `file` carries options, bit 2 says `sname` does. */
  function OverloadValue(p: Packing): byte {
    (if p.file != [] then 1 else 0) + (if p.sname != [] then 2 else 0)
  }

  function OverloadOption(p: Packing): Options {
    if p.file == [] && p.sname == [] then [] else [DhcpOption(OVERLOAD, U8(OverloadValue(p)))]
  }

  /** The options written to the options area: those placed there, then Overload if a field is used. */
  function MainOptions(p: Packing): Options {
    p.main + OverloadOption(p)
  }

  function FieldBytes(options: Options): Option<seq<byte>> {
    if options == [] then None else Some(OptionArea.ToNetwork(options))
  }

  lemma EncodeAllAppend(options: Options, o: DhcpOption)
    ensures EncodeAll(options + [o]) == EncodeAll(options) + DhcpOptions.ToNetwork(o)
  {
    assert (options + [o])[..|options|] == options;
  }

  lemma EncodeAllEmpty(options: Options)
    ensures EncodeAll(options) == [] <==> options == []
  {
  }

  lemma PackStep(options: Options, l: Limits, i: nat)
    requires i < |options|
    ensures var p := Pack(options[..i], l);
      Pack(options[..i + 1], l) == Put(p, options[i], Choose(l, p, options[i]))
  {
    assert options[..i + 1][..i] == options[..i];
  }

  method ToNetworkOverflow(options: Options, max: nat, useFile: bool, useSname: bool)
    returns (bytes: seq<byte>, file: Option<seq<byte>>, sname: Option<seq<byte>>)
    ensures var p := Pack(options, Limits(max, useFile, useSname));
      && bytes == OptionArea.ToNetwork(MainOptions(p))
      && file == FieldBytes(p.file)
      && sname == FieldBytes(p.sname)
  {
    hide DhcpOptions.ToNetwork, EncodeAll;
    ghost var l := Limits(max, useFile, useSname);
    ghost var p := Packing([], [], [], []);
    bytes := [];
    var fileBytes: seq<byte> := [];
    var snameBytes: seq<byte> := [];
    EncodeAllEmpty([]);
    for i := 0 to |options|
      invariant p == Pack(options[..i], l)
      invariant bytes == EncodeAll(p.main) && fileBytes == EncodeAll(p.file) && snameBytes == EncodeAll(p.sname)
    {
      var optBytes := DhcpOptions.ToNetwork(options[i]);
      PackStep(options, l, i);
      ghost var before := p;
      p := Put(p, options[i], Choose(l, p, options[i]));
      if |bytes| + |optBytes| + RESERVED_BYTES <= max {
        EncodeAllAppend(before.main, options[i]);
        bytes := bytes + optBytes;
        continue;
      }
      if useFile && |fileBytes| + 1 + |optBytes| <= FILE_BYTES {
        EncodeAllAppend(before.file, options[i]);
        fileBytes := fileBytes + optBytes;
        continue;
      }
      if useSname && |snameBytes| + 1 + |optBytes| <= SNAME_BYTES {
        EncodeAllAppend(before.sname, options[i]);
        snameBytes := snameBytes + optBytes;
        continue;
      }
    }
    assert options[..|options|] == options;
    EncodeAllEmpty(p.file);
    EncodeAllEmpty(p.sname);
    var overloadVal: byte := 0;
    file, sname := None, None;
    if fileBytes != [] {
      file := Some(fileBytes + [END]);
      overloadVal := overloadVal + 1;
    }
    if snameBytes != [] {
      sname := Some(snameBytes + [END]);
      overloadVal := overloadVal + 2;
    }
    assert p.main + [] == p.main;
    if overloadVal > 0 {
      var o := DhcpOption(OVERLOAD, U8(overloadVal));
      EncodeAllAppend(p.main, o);
      bytes := bytes + DhcpOptions.ToNetwork(o);
    }
    bytes := bytes + [END];
  }

  // ---- Conservation ----

  /** The options a list of choices sends to one bin, in their order. */
  function Pick(options: Options, bins: seq<Bin>, b: Bin): Options
    requires |bins| == |options|
  {
    if options == [] then []
    else
      var n := |options| - 1;
      Pick(options[..n], bins[..n], b) + if bins[n] == b then [options[n]] else []
  }

  predicate Splits(options: Options, bins: seq<Bin>, p: Packing) {
    && |bins| == |options|
    && p == Packing(Pick(options, bins, InMain), Pick(options, bins, InFile),
                    Pick(options, bins, InSname), Pick(options, bins, Dropped))
  }

  lemma PickLast(options: Options, bins: seq<Bin>, o: DhcpOption, b: Bin, into: Bin)
    requires |bins| == |options|
    ensures Pick(options + [o], bins + [b], into) == Pick(options, bins, into) + if b == into then [o] else []
  {
    assert (options + [o])[..|options|] == options && (bins + [b])[..|options|] == bins;
  }

  lemma SplitsLast(options: Options, bins: seq<Bin>, p: Packing, o: DhcpOption, b: Bin)
    requires Splits(options, bins, p)
    ensures Splits(options + [o], bins + [b], Put(p, o, b))
  {
    PickLast(options, bins, o, b, InMain);
    PickLast(options, bins, o, b, InFile);
    PickLast(options, bins, o, b, InSname);
    PickLast(options, bins, o, b, Dropped);
  }

  function Total(p: Packing): multiset<DhcpOption> {
    multiset(p.main) + multiset(p.file) + multiset(p.sname) + multiset(p.dropped)
  }

  lemma EmptySplits()
    ensures Splits([], [], Packing([], [], [], [])) && Total(Packing([], [], [], [])) == multiset([])
  {
  }

  lemma PutTotal(p: Packing, o: DhcpOption, b: Bin)
    ensures Total(Put(p, o, b)) == Total(p) + multiset{o}
  {
  }

  /**
   Every option goes to exactly one place: the four lists are order-preserving
   selections of the input by one choice per option, and nothing is lost or added.
   */
  lemma {:induction false} PackPartitions(options: Options, l: Limits) returns (bins: seq<Bin>)
    ensures Splits(options, bins, Pack(options, l))
    ensures Total(Pack(options, l)) == multiset(options)
  {
    hide Choose, Splits, Put, Total;
    if options == [] {
      bins := [];
      EmptySplits();
    } else {
      var n := |options| - 1;
      var init, o, p := options[..n], options[n], Pack(options[..n], l);
      var before := PackPartitions(init, l);
      assert options == init + [o];
      SplitsLast(init, before, p, o, Choose(l, p, o));
      PutTotal(p, o, Choose(l, p, o));
      bins := before + [Choose(l, p, o)];
    }
  }

  /** A property of every option holds of those in every place. */
  predicate AllPacked(p: Packing, prop: DhcpOption -> bool) {
    && (forall i :: 0 <= i < |p.main| ==> prop(p.main[i]))
    && (forall i :: 0 <= i < |p.file| ==> prop(p.file[i]))
    && (forall i :: 0 <= i < |p.sname| ==> prop(p.sname[i]))
  }

  lemma {:induction false} PackKeeps(options: Options, l: Limits, prop: DhcpOption -> bool)
    requires forall i :: 0 <= i < |options| ==> prop(options[i])
    ensures AllPacked(Pack(options, l), prop)
  {
    hide Choose;
    if options == [] {
    } else {
      PackKeeps(options[..|options| - 1], l, prop);
    }
  }

  /** What a client reads from an area that may carry options. */
  function ReadField(used: bool, field: seq<byte>): Result<Options, PacketError> {
    if used then OptionArea.FromNetwork(field) else Ok([])
  }

  /** What option 52 says: bit 1 for `file`, bit 2 for `sname`. */
  function OverloadBits(options: Options): byte {
    match GetOption(options, OVERLOAD)
    case Some(DhcpOption(_, U8(v))) => v
    case _ => 0
  }

  /**
   The overload-aware client of section 4.1 of RFC 2131: the options area first,
   then `file`, then `sname`, the last two only if option 52 says so.
   */
  function ReadOverloaded(main: seq<byte>, file: seq<byte>, sname: seq<byte>): Result<Options, PacketError> {
    match OptionArea.FromNetwork(main)
    case Err(e) => Err(e)
    case Ok(options) =>
      var bits := OverloadBits(options);
      match (ReadField(bits % 2 == 1, file), ReadField(bits / 2 % 2 == 1, sname))
      case (Ok(inFile), Ok(inSname)) => Ok(options + inFile + inSname)
      case (Err(e), _) => Err(e)
      case (_, Err(e)) => Err(e)
  }

  predicate NoOverload(options: Options) {
    forall i :: 0 <= i < |options| ==> options[i].code != OVERLOAD
  }

  lemma {:induction false} GetAppended(options: Options, last: Options, code: byte)
    requires forall i :: 0 <= i < |options| ==> options[i].code != code
    ensures GetOption(options + last, code) == GetOption(last, code)
  {
    if options == [] {
      assert options + last == last;
    } else {
      assert (options + last)[1..] == options[1..] + last;
      GetAppended(options[1..], last, code);
    }
  }

  // ---- Sizes ----

  lemma {:induction false} PackSizes(options: Options, l: Limits)
    ensures var p := Pack(options, l);
      && (p.main == [] || Size(p.main) + RESERVED_BYTES <= l.max)
      && (p.file == [] || (l.useFile && Size(p.file) + 1 <= FILE_BYTES))
      && (p.sname == [] || (l.useSname && Size(p.sname) + 1 <= SNAME_BYTES))
  {
    hide DhcpOptions.ToNetwork, EncodeAll;
    if options == [] {
    } else {
      var n := |options| - 1;
      var o, p := options[n], Pack(options[..n], l);
      PackSizes(options[..n], l);
      EncodeAllAppend(p.main, o);
      EncodeAllAppend(p.file, o);
      EncodeAllAppend(p.sname, o);
    }
  }

  /**
   Size bounds: the options area stays within the limit (its 4 reserved bytes
   hold Overload and End), and the field copies within their fields.
   */
  lemma PackedSizes(options: Options, l: Limits)
    ensures var p := Pack(options, l);
      && |OptionArea.ToNetwork(MainOptions(p))| <= (if l.max < 4 then 4 else l.max)
      && (FieldBytes(p.file).Some? ==> l.useFile && |FieldBytes(p.file).value| <= 128)
      && (FieldBytes(p.sname).Some? ==> l.useSname && |FieldBytes(p.sname).value| <= 64)
  {
    hide Pack;
    PackSizes(options, l);
    var p := Pack(options, l);
    EncodeAllAppend(p.main, DhcpOption(OVERLOAD, U8(OverloadValue(p))));
    assert p.main + [] == p.main;
  }

  // ---- The client's view ----

  /** Copying a field's bytes over the start of the header field they go to. */
  function Overlay(field: seq<byte>, data: Option<seq<byte>>): (r: seq<byte>)
    requires data.Some? ==> |data.value| <= |field|
    ensures |r| == |field|
  {
    if data.Some? then data.value + field[|data.value|..] else field
  }

  lemma ReadOverlay(options: Options, field: seq<byte>)
    requires AllCarried(options)
    requires options != [] ==> |OptionArea.ToNetwork(options)| <= |field|
    ensures ReadField(options != [], Overlay(field, FieldBytes(options))) == Ok(options)
  {
    if options != [] {
      ParseWritten(options, field[|OptionArea.ToNetwork(options)|..]);
    }
  }

  lemma PackedBits(p: Packing)
    requires NoOverload(p.main)
    ensures OverloadBits(MainOptions(p)) == OverloadValue(p)
  {
    GetAppended(p.main, OverloadOption(p), OVERLOAD);
  }

  /** The options that are sent can be carried, and the first option 52 among them names the fields in use. */
  predicate Deliverable(p: Packing) {
    && AllCarried(p.main) && AllCarried(p.file) && AllCarried(p.sname)
    && OverloadBits(MainOptions(p)) % 4 == OverloadValue(p)
  }

  /** Options that can be carried, with no Overload among them, are deliverable at any limits. */
  lemma PackedDeliverable(options: Options, l: Limits)
    requires AllCarried(options) && NoOverload(options)
    ensures Deliverable(Pack(options, l))
  {
    hide Pack;
    var p := Pack(options, l);
    PackKeeps(options, l, o => Carried(o) && o.code != OVERLOAD);
    PackedBits(p);
  }

  lemma MainCarried(p: Packing)
    ensures AllCarried(MainOptions(p)) <==> AllCarried(p.main)
  {
    var all := MainOptions(p);
    assert forall i :: 0 <= i < |p.main| ==> all[i] == p.main[i];
    assert OverloadOption(p) != [] ==> Carried(OverloadOption(p)[0]);
  }

  /** The client reads the options placed in the three areas, each in list order, and the Overload option. */
  predicate ReadsBack(p: Packing, tail: seq<byte>, fileField: seq<byte>, snameField: seq<byte>) {
    && (FieldBytes(p.file).Some? ==> |FieldBytes(p.file).value| <= |fileField|)
    && (FieldBytes(p.sname).Some? ==> |FieldBytes(p.sname).value| <= |snameField|)
    && ReadOverloaded(OptionArea.ToNetwork(MainOptions(p)) + tail,
                      Overlay(fileField, FieldBytes(p.file)),
                      Overlay(snameField, FieldBytes(p.sname)))
       == Ok(MainOptions(p) + p.file + p.sname)
  }

  lemma DeliverableReadsBack(options: Options, l: Limits, tail: seq<byte>, fileField: seq<byte>, snameField: seq<byte>)
    requires Deliverable(Pack(options, l)) && |fileField| == FILE_BYTES && |snameField| == SNAME_BYTES
    ensures ReadsBack(Pack(options, l), tail, fileField, snameField)
  {
    hide Carried, Pack, OptionArea.FromNetwork, OptionArea.ToNetwork, MainOptions, AllCarried, OverloadBits;
    var p := Pack(options, l);
    PackedSizes(options, l);
    MainCarried(p);
    ParseWritten(MainOptions(p), tail);
    ReadOverlay(p.file, fileField);
    ReadOverlay(p.sname, snameField);
  }

  lemma {:induction false} ZerosReadNothing(n: nat)
    requires n > 0
    ensures OptionArea.FromNetwork(Zeros(n)).Err?
  {
    if n == 1 {
      assert Zeros(1)[1..] == [];
    } else {
      ZerosReadNothing(n - 1);
      assert Zeros(n)[1..] == Zeros(n - 1);
    }
  }

  lemma SplitCarried(a: Options, b: Options, c: Options)
    ensures AllCarried(a + b + c) <==> AllCarried(a) && AllCarried(b) && AllCarried(c)
  {
    hide Carried;
    var all := a + b + c;
    assert forall i :: 0 <= i < |a| ==> all[i] == a[i];
    assert forall i :: 0 <= i < |b| ==> all[|a| + i] == b[i];
    assert forall i :: 0 <= i < |c| ==> all[|a| + |b| + i] == c[i];
  }

  /** Whatever the client reads can be carried. */
  lemma OverloadedAreCarried(main: seq<byte>, file: seq<byte>, sname: seq<byte>)
    requires ReadOverloaded(main, file, sname).Ok?
    ensures AllCarried(ReadOverloaded(main, file, sname).value)
  {
    hide OptionArea.FromNetwork, Carried, OverloadBits, AllCarried;
    var options := OptionArea.FromNetwork(main).value;
    var bits := OverloadBits(options);
    ParsedAreCarried(main);
    FieldCarried(bits % 2 == 1, file);
    FieldCarried(bits / 2 % 2 == 1, sname);
    SplitCarried(options, ReadField(bits % 2 == 1, file).value, ReadField(bits / 2 % 2 == 1, sname).value);
  }

  lemma FieldCarried(used: bool, field: seq<byte>)
    requires ReadField(used, field).Ok?
    ensures AllCarried(ReadField(used, field).value)
  {
    if used {
      ParsedAreCarried(field);
    }
  }

  /** With a zeroed field, the client reads it as the packer left it exactly when it looks at it if it holds options. */
  lemma ZeroFieldRead(used: bool, options: Options, n: nat)
    requires AllCarried(options) && n > 0 && (options != [] ==> |OptionArea.ToNetwork(options)| <= n)
    ensures ReadField(options != [], Overlay(Zeros(n), FieldBytes(options))) == Ok(options)
    ensures var read := ReadField(used, Overlay(Zeros(n), FieldBytes(options)));
      read.Ok? ==> |read.value| <= |options| && (read.value == options <==> (used <==> options != []))
  {
    hide Carried, OptionArea.FromNetwork, OptionArea.ToNetwork;
    ReadOverlay(options, Zeros(n));
    ZerosReadNothing(n);
  }

  /** If the client reads everything back from zeroed fields, the packing was deliverable. */
  lemma ReadsBackDeliverable(options: Options, l: Limits, tail: seq<byte>)
    requires ReadsBack(Pack(options, l), tail, Zeros(FILE_BYTES), Zeros(SNAME_BYTES))
    ensures Deliverable(Pack(options, l))
  {
    hide Carried, Pack, OptionArea.FromNetwork, OptionArea.ToNetwork, MainOptions, AllCarried, OverloadBits,
      FieldBytes, Overlay;
    var p := Pack(options, l);
    var main := OptionArea.ToNetwork(MainOptions(p)) + tail;
    var file, sname := Overlay(Zeros(FILE_BYTES), FieldBytes(p.file)), Overlay(Zeros(SNAME_BYTES), FieldBytes(p.sname));
    PackedFields(options, l);
    OverloadedAreCarried(main, file, sname);
    SplitCarried(MainOptions(p), p.file, p.sname);
    MainCarried(p);
    ParseWritten(MainOptions(p), tail);
    var bits := OverloadBits(MainOptions(p));
    ZeroFieldRead(bits % 2 == 1, p.file, FILE_BYTES);
    ZeroFieldRead(bits / 2 % 2 == 1, p.sname, SNAME_BYTES);
    var inFile, inSname := ReadField(bits % 2 == 1, file).value, ReadField(bits / 2 % 2 == 1, sname).value;
    SameParts(MainOptions(p), inFile, inSname, p.file, p.sname);
  }

  lemma PackedFields(options: Options, l: Limits)
    ensures var p := Pack(options, l);
      && (p.file != [] ==> |OptionArea.ToNetwork(p.file)| <= FILE_BYTES)
      && (p.sname != [] ==> |OptionArea.ToNetwork(p.sname)| <= SNAME_BYTES)
  {
    hide Pack;
    PackedSizes(options, l);
  }

  lemma SameParts(main: Options, a: Options, b: Options, c: Options, d: Options)
    requires main + a + b == main + c + d && |a| <= |c| && |b| <= |d|
    ensures a == c && b == d
  {
    assert (main + a + b)[|main|..] == a + b && (main + c + d)[|main|..] == c + d;
    assert (a + b)[..|a|] == a && (c + d)[..|c|] == c && (a + b)[|a|..] == b && (c + d)[|c|..] == d;
  }

  /**
   Overload conservation: whatever the header fields held, the client reads back
   the options placed in the three areas, each area in list order, and nothing
   else but the Overload option, exactly when the packing is deliverable.
   */
  lemma OverloadRoundTrip(options: Options, l: Limits, tail: seq<byte>)
    ensures Deliverable(Pack(options, l)) <==>
      forall fileField: seq<byte>, snameField: seq<byte> :: |fileField| == FILE_BYTES && |snameField| == SNAME_BYTES ==>
        ReadsBack(Pack(options, l), tail, fileField, snameField)
  {
    hide Deliverable, ReadsBack, Pack;
    var p := Pack(options, l);
    if Deliverable(p) {
      forall fileField: seq<byte>, snameField: seq<byte> | |fileField| == FILE_BYTES && |snameField| == SNAME_BYTES
        ensures ReadsBack(p, tail, fileField, snameField)
      {
        DeliverableReadsBack(options, l, tail, fileField, snameField);
      }
    }
    if ReadsBack(p, tail, Zeros(FILE_BYTES), Zeros(SNAME_BYTES)) {
      ReadsBackDeliverable(options, l, tail);
    }
  }

  // ---- First fit, in numbers ----

  function Width(o: DhcpOption): nat {
    |DhcpOptions.ToNetwork(o)|
  }

  /** The bytes of the options that a list of choices has sent to a bin. */
  function Filled(options: Options, bins: seq<Bin>, b: Bin): nat
    requires |bins| == |options|
  {
    if options == [] then 0
    else
      var n := |options| - 1;
      Filled(options[..n], bins[..n], b) + if bins[n] == b then Width(options[n]) else 0
  }

  /**
   The choice for option `i`: the options area if 4 bytes stay free there, else
   `file` with room for its End in 128 bytes, else `sname` with room in 64, else none.
   */
  predicate FirstFitAt(options: Options, l: Limits, bins: seq<Bin>, i: nat)
    requires |bins| == |options| && i < |options|
  {
    var o, before, chosen := Width(options[i]), options[..i], bins[..i];
    var main := Filled(before, chosen, InMain) + o + 4 <= l.max;
    var file := l.useFile && Filled(before, chosen, InFile) + 1 + o <= 128;
    var sname := l.useSname && Filled(before, chosen, InSname) + 1 + o <= 64;
    && (bins[i] == InMain <==> main)
    && (bins[i] == InFile <==> !main && file)
    && (bins[i] == InSname <==> !main && !file && sname)
  }

  lemma {:induction false} FilledIsSize(options: Options, bins: seq<Bin>, b: Bin)
    requires |bins| == |options|
    ensures Filled(options, bins, b) == Size(Pick(options, bins, b))
  {
    hide EncodeAll, Width, DhcpOptions.ToNetwork;
    if options == [] {
      EncodeAllEmpty([]);
    } else {
      var n := |options| - 1;
      FilledIsSize(options[..n], bins[..n], b);
      var rest := Pick(options[..n], bins[..n], b);
      EncodeAllAppend(rest, options[n]);
      WidthIs(options[n]);
      assert rest + [] == rest;
    }
  }

  lemma WidthIs(o: DhcpOption)
    ensures Width(o) == |DhcpOptions.ToNetwork(o)|
  {
  }

  lemma FirstFitLast(options: Options, l: Limits, bins: seq<Bin>, p: Packing, o: DhcpOption)
    requires Splits(options, bins, p)
    ensures FirstFitAt(options + [o], l, bins + [Choose(l, p, o)], |options|)
  {
    hide Size, Filled, Pick;
    FilledIsSize(options, bins, InMain);
    FilledIsSize(options, bins, InFile);
    FilledIsSize(options, bins, InSname);
    var all, chosen := options + [o], bins + [Choose(l, p, o)];
    assert all[..|options|] == options && chosen[..|options|] == bins && all[|options|] == o;
  }

  /** Earlier choices do not depend on later options. */
  lemma FirstFitPrefix(options: Options, l: Limits, bins: seq<Bin>, o: DhcpOption, b: Bin, i: nat)
    requires |bins| == |options| && i < |options| && FirstFitAt(options, l, bins, i)
    ensures FirstFitAt(options + [o], l, bins + [b], i)
  {
    hide Filled;
    assert (options + [o])[..i] == options[..i] && (bins + [b])[..i] == bins[..i];
  }

  /**
   First fit: the four lists are the selections of the input by one choice per
   option, and the choices are those of first fit, in numbers; nothing else
   satisfies that.
   */
  lemma {:induction false} PackFirstFit(options: Options, l: Limits) returns (bins: seq<Bin>)
    ensures Splits(options, bins, Pack(options, l))
    ensures forall i :: 0 <= i < |options| ==> FirstFitAt(options, l, bins, i)
  {
    hide Choose, Splits, Put, FirstFitAt;
    if options == [] {
      bins := [];
      EmptySplits();
    } else {
      var n := |options| - 1;
      var init, o, p := options[..n], options[n], Pack(options[..n], l);
      var before := PackFirstFit(init, l);
      var b := Choose(l, p, o);
      assert options == init + [o];
      SplitsLast(init, before, p, o, b);
      FirstFitLast(init, l, before, p, o);
      bins := before + [b];
      SplitsLength(init, before, p);
      forall i | 0 <= i < |options|
        ensures FirstFitAt(options, l, bins, i)
      {
        if i < n {
          FirstFitPrefix(init, l, before, o, b, i);
        }
      }
    }
  }

  /** The packing is the one of first fit. */
  ghost predicate FirstFit(options: Options, l: Limits, p: Packing) {
    exists bins: seq<Bin> ::
      Splits(options, bins, p) && forall i :: 0 <= i < |options| ==> FirstFitAt(options, l, bins, i)
  }

  lemma PackIsFirstFit(options: Options, l: Limits)
    ensures FirstFit(options, l, Pack(options, l))
  {
    hide Pack, Splits, FirstFitAt;
    var bins := PackFirstFit(options, l);
  }

  lemma SplitsLength(options: Options, bins: seq<Bin>, p: Packing)
    requires Splits(options, bins, p)
    ensures |bins| == |options|
  {
    hide Pick;
  }

  /** The choices of first fit are determined: two lists of them are equal. */
  lemma {:induction false} FirstFitUnique(options: Options, l: Limits, a: seq<Bin>, b: seq<Bin>, k: nat)
    requires |a| == |options| && |b| == |options| && k <= |options|
    requires forall i :: 0 <= i < |options| ==> FirstFitAt(options, l, a, i) && FirstFitAt(options, l, b, i)
    ensures a[..k] == b[..k]
  {
    hide Filled, Width;
    if k == 0 {
    } else {
      FirstFitUnique(options, l, a, b, k - 1);
      assert FirstFitAt(options, l, a, k - 1) && FirstFitAt(options, l, b, k - 1);
      assert a[k - 1] == b[k - 1];
      assert a[..k] == a[..k - 1] + [a[k - 1]] && b[..k] == b[..k - 1] + [b[k - 1]];
    }
  }

  /** There is one packing of first fit. */
  lemma FirstFitIsPack(options: Options, l: Limits, p: Packing)
    requires FirstFit(options, l, p)
    ensures p == Pack(options, l)
  {
    hide Pack, FirstFitAt, Pick;
    var a :| Splits(options, a, p) && forall i :: 0 <= i < |options| ==> FirstFitAt(options, l, a, i);
    var b := PackFirstFit(options, l);
    FirstFitUnique(options, l, a, b, |options|);
    assert a[..|options|] == a && b[..|options|] == b;
  }

  // ---- Nothing is moved or dropped without need ----

  /** No option of the list fits what is left of an area of that size, `reserve` bytes kept back. */
  predicate NoneFits(used: nat, reserve: nat, room: nat, options: Options) {
    forall i :: 0 <= i < |options| ==> used + reserve + Width(options[i]) > room
  }

  /**
   Maximality, in numbers: an option outside the options area does not fit what is
   left of it in the final layout with 4 bytes kept back, and one that also missed
   a usable field does not fit what is left of its 128 or 64 bytes with an End.
   */
  predicate Maximal(p: Packing, l: Limits) {
    var main, file, sname := |EncodeAll(p.main)|, |EncodeAll(p.file)|, |EncodeAll(p.sname)|;
    && NoneFits(main, 4, l.max, p.file) && NoneFits(main, 4, l.max, p.sname) && NoneFits(main, 4, l.max, p.dropped)
    && (l.useFile ==> NoneFits(file, 1, 128, p.sname) && NoneFits(file, 1, 128, p.dropped))
    && (l.useSname ==> NoneFits(sname, 1, 64, p.dropped))
    && (!l.useFile ==> p.file == []) && (!l.useSname ==> p.sname == [])
  }

  /** Places only fill up. */
  lemma PutFills(p: Packing, o: DhcpOption, b: Bin)
    ensures var q := Put(p, o, b);
      && |EncodeAll(p.main)| <= |EncodeAll(q.main)| && |EncodeAll(p.file)| <= |EncodeAll(q.file)|
      && |EncodeAll(p.sname)| <= |EncodeAll(q.sname)|
  {
    hide DhcpOptions.ToNetwork, EncodeAll;
    EncodeAllAppend(p.main, o);
    EncodeAllAppend(p.file, o);
    EncodeAllAppend(p.sname, o);
  }

  lemma PutMaximal(p: Packing, l: Limits, o: DhcpOption)
    requires Maximal(p, l)
    ensures Maximal(Put(p, o, Choose(l, p, o)), l)
  {
    hide DhcpOptions.ToNetwork, EncodeAll;
    PutFills(p, o, Choose(l, p, o));
  }

  lemma {:induction false} PackMaximal(options: Options, l: Limits)
    ensures Maximal(Pack(options, l), l)
  {
    hide Choose, Put;
    if options == [] {
    } else {
      hide Maximal;
      var n := |options| - 1;
      PackMaximal(options[..n], l);
      PutMaximal(Pack(options[..n], l), l, options[n]);
    }
  }

  lemma {:induction false} AllInMain(options: Options, l: Limits)
    requires Size(options) + RESERVED_BYTES <= l.max
    ensures Pack(options, l) == Packing(options, [], [], [])
  {
    hide DhcpOptions.ToNetwork, EncodeAll;
    if options == [] {
    } else {
      var n := |options| - 1;
      var init, o := options[..n], options[n];
      assert options == init + [o];
      EncodeAllAppend(init, o);
      AllInMain(init, l);
      assert FitsMain(l, Packing(init, [], [], []), o);
    }
  }

  /**
   Refinement: the packer gives exactly the plain serialisation with no field
   data when the options and the 4 reserved bytes fit the limit, and only then.
   */
  lemma PackerRefinesPlain(options: Options, l: Limits)
    ensures var p := Pack(options, l);
      (OptionArea.ToNetwork(MainOptions(p)) == OptionArea.ToNetwork(options)
       && FieldBytes(p.file) == None && FieldBytes(p.sname) == None)
      <==> options == [] || Size(options) + RESERVED_BYTES <= l.max
  {
    hide EncodeAll;
    var p := Pack(options, l);
    assert p.main + [] == p.main;
    if options != [] && Size(options) + RESERVED_BYTES <= l.max {
      AllInMain(options, l);
    } else if options != [] {
      PackSizes(options, l);
      EncodeAllEmpty(options);
      EncodeAllEmpty([]);
    }
  }

  /**
   The reserve costs: a list that would fit the limit plainly, with its End, but
   not with all 4 bytes, is split or shortened.
   */
  lemma ReserveSplits(options: Options, l: Limits)
    requires options != [] && Size(options) + 1 <= l.max < Size(options) + RESERVED_BYTES
    ensures |OptionArea.ToNetwork(options)| <= l.max
    ensures var p := Pack(options, l); p.file != [] || p.sname != [] || p.dropped != []
  {
    hide Pack;
    var p := Pack(options, l);
    if p.file == [] && p.sname == [] && p.dropped == [] {
      var bins := PackPartitions(options, l);
      AllPicked(options, bins);
      PackSizes(options, l);
    }
  }

  lemma {:induction false} AllPicked(options: Options, bins: seq<Bin>)
    requires |bins| == |options|
    requires Pick(options, bins, InFile) == [] && Pick(options, bins, InSname) == []
    requires Pick(options, bins, Dropped) == []
    ensures Pick(options, bins, InMain) == options
  {
    if options == [] {
    } else {
      var n := |options| - 1;
      AllPicked(options[..n], bins[..n]);
      assert options == options[..n] + [options[n]];
    }
  }

  /** Two options of 333 bytes in all, at the smallest limit there is: the second moves to `file`. */
  lemma ReserveSplitsTwo()
    ensures var a := DhcpOption(CLIENTID, Blob(seq(255, _ => 0)));
      var b := DhcpOption(PARAMETERLIST, Blob(seq(74, _ => 0)));
      && Size([a, b]) + 1 <= 336 < Size([a, b]) + RESERVED_BYTES
      && Pack([a, b], Limits(336, true, true)) == Packing([a], [b], [], [])
  {
    hide Size, FitsMain, FitsFile;
    var a, b := DhcpOption(CLIENTID, Blob(seq(255, _ => 0))), DhcpOption(PARAMETERLIST, Blob(seq(74, _ => 0)));
    var l := Limits(336, true, true);
    BlobSizes(a, b);
    var none, one := Packing([], [], [], []), Packing([a], [], [], []);
    FirstFits(l, a, b);
    assert [a, b][..1] == [a] && [a][..0] == [];
    assert Pack([], l) == none;
    assert Pack([a], l) == Put(none, a, Choose(l, none, a)) == one;
  }

  lemma BlobSizes(a: DhcpOption, b: DhcpOption)
    requires a.value.Blob? && |a.value.blob| == 255 && b.value.Blob? && |b.value.blob| == 74
    ensures |DhcpOptions.ToNetwork(a)| == 257 && |DhcpOptions.ToNetwork(b)| == 76
    ensures Size([]) == 0 && Size([a]) == 257 && Size([a, b]) == 333
  {
    hide EncodeAll, DhcpOptions.ToNetwork;
    TlvSize(a);
    TlvSize(b);
    EncodeAllEmpty([]);
    EncodeAllAppend([], a);
    EncodeAllAppend([a], b);
    assert [] + [a] == [a] && [a] + [b] == [a, b];
  }

  lemma TlvSize(o: DhcpOption)
    requires o.value.Blob?
    ensures |DhcpOptions.ToNetwork(o)| == 2 + |o.value.blob|
  {
  }

  lemma FirstFits(l: Limits, a: DhcpOption, b: DhcpOption)
    requires l == Limits(336, true, true) && Size([]) == 0 && Size([a]) == 257
    requires |DhcpOptions.ToNetwork(a)| == 257 && |DhcpOptions.ToNetwork(b)| == 76
    ensures FitsMain(l, Packing([], [], [], []), a)
    ensures !FitsMain(l, Packing([a], [], [], []), b) && FitsFile(l, Packing([a], [], [], []), b)
  {
    hide Size, DhcpOptions.ToNetwork;
  }
}
