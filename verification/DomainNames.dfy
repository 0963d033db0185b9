/**
 Compression of a list of domain names (section 4.1.4 of RFC 1035), used for the
 domain search option (section 2 of RFC 3397).
 Names are the bytes of their dotted text; "." is the root.
 */
module DomainNames {
  import opened Wrappers
  import opened Bytes

  type Name = seq<byte>

  const DOT: byte := 46
  const ROOT: Name := [DOT]
  const POINTER_LIMIT: nat := 0x4000

  // ---- Dotted text ----

  function FirstDot(name: Name): (i: nat)
    ensures i <= |name|
  {
    if name == [] || name[0] == DOT then 0 else 1 + FirstDot(name[1..])
  }

  function Part(name: Name): Name {
    name[..FirstDot(name)]
  }

  predicate HasRest(name: Name) {
    FirstDot(name) < |name|
  }

  function Rest(name: Name): (rest: Name)
    requires HasRest(name)
    ensures |rest| < |name|
  {
    name[FirstDot(name) + 1..]
  }

  /** Dot-joined labels of 1 to 63 bytes, with no trailing dot. */
  predicate DottedLabels(name: Name)
    decreases |name|
  {
    1 <= |Part(name)| <= 63 && (HasRest(name) ==> DottedLabels(Rest(name)))
  }

  lemma RootIsNotDotted()
    ensures !DottedLabels(ROOT)
  {
  }

  predicate WellFormedName(name: Name) {
    name == ROOT || DottedLabels(name)
  }

  predicate WellFormedNames(names: seq<Name>) {
    forall i :: 0 <= i < |names| ==> WellFormedName(names[i])
  }

  function Labels(name: Name): seq<Name>
    decreases |name|
  {
    if name == ROOT then []
    else [Part(name)] + if HasRest(name) then Labels(Rest(name)) else []
  }

  function AllLabels(names: seq<Name>): seq<seq<Name>> {
    if names == [] then [] else AllLabels(names[..|names| - 1]) + [Labels(names[|names| - 1])]
  }

  // ---- The decoder of section 4.1.4 of RFC 1035 ----

  datatype Read = Read(labels: seq<Name>, next: nat)

  /**
   One name at `pos`: labels up to a zero octet or a pointer. A pointer must go
   to a prior occurrence: before `limit`, where the text being read begins.
   */
  function ReadName(buf: seq<byte>, pos: nat, limit: nat): (r: Option<Read>)
    ensures r.Some? ==> pos < r.value.next <= |buf|
    decreases limit, |buf| - pos
  {
    if pos >= |buf| then None
    else
      var b := buf[pos] as int;
      if b == 0 then Some(Read([], pos + 1))
      else if b < 64 then
        if pos + 1 + b > |buf| then None
        else
          match ReadName(buf, pos + 1 + b, limit)
          case None => None
          case Some(r) => Some(Read([buf[pos + 1..pos + 1 + b]] + r.labels, r.next))
      else if b >= 192 then
        if pos + 2 > |buf| then None
        else
          var target := (b - 192) * 256 + buf[pos + 1] as int;
          if target >= limit then None
          else
            match ReadName(buf, target, target)
            case None => None
            case Some(r) => Some(Read(r.labels, pos + 2))
      else None
  }

  /** The names from `pos` to the end of the buffer. */
  function ReadNames(buf: seq<byte>, pos: nat): Option<seq<seq<Name>>>
    requires pos <= |buf|
    decreases |buf| - pos
  {
    if pos == |buf| then Some([])
    else
      match ReadName(buf, pos, pos)
      case None => None
      case Some(r) =>
        match ReadNames(buf, r.next)
        case None => None
        case Some(more) => Some([r.labels] + more)
  }

  // ---- The compressor ----

  /** The bytes written for one name, and the suffix offsets they add. */
  datatype Emission = Emission(bytes: seq<byte>, added: map<Name, nat>)

  /** Two bytes: the offset with its top two bits set. */
  function Pointer(offset: nat): seq<byte> {
    [192 + offset / 256 % 64, offset % 256]
  }

  function Emit(table: map<Name, nat>, name: Name, at: nat): Emission
    decreases |name|
  {
    if name == ROOT then Emission([0], map[])
    else if name in table then Emission(Pointer(table[name]), map[])
    else
      var head := [|Part(name)| % 256] + Part(name);
      var e := if HasRest(name) then Emit(table, Rest(name), at + |head|) else Emission([0], map[]);
      Emission(head + e.bytes, map[name := at] + e.added)
  }

  /** What follows the first label of a name that is neither the root nor in the table. */
  function AfterLabel(table: map<Name, nat>, name: Name, at: nat): Emission {
    if HasRest(name) then Emit(table, Rest(name), at + 1 + |Part(name)|) else Emission([0], map[])
  }

  /** One turn of the inner loop. */
  lemma EmitTurn(table: map<Name, nat>, name: Name, at: nat)
    ensures name == ROOT ==> Emit(table, name, at) == Emission([0], map[])
    ensures name != ROOT && name in table ==> Emit(table, name, at) == Emission(Pointer(table[name]), map[])
    ensures name != ROOT && name !in table ==>
      var e := AfterLabel(table, name, at);
      Emit(table, name, at) == Emission([|Part(name)| % 256] + Part(name) + e.bytes, map[name := at] + e.added)
  {
    hide FirstDot, Part, HasRest, Rest;
  }

  datatype Compressed = Compressed(bytes: seq<byte>, table: map<Name, nat>)

  function Compress(names: seq<Name>): Compressed {
    if names == [] then Compressed([], map[])
    else
      var c := Compress(names[..|names| - 1]);
      var e := Emit(c.table, names[|names| - 1], |c.bytes|);
      Compressed(c.bytes + e.bytes, c.table + e.added)
  }

  /** Every label of the name has a length that fits a byte. */
  predicate ShortLabels(name: Name)
    decreases |name|
  {
    |Part(name)| <= 255 && (HasRest(name) ==> ShortLabels(Rest(name)))
  }

  /** The offset used for the name, if one is, is below the limit. */
  predicate OffsetBelow(table: map<Name, nat>, name: Name, limit: nat)
    decreases |name|
  {
    if name == ROOT then true
    else if name in table then table[name] < limit
    else HasRest(name) ==> OffsetBelow(table, Rest(name), limit)
  }

  predicate OffsetsBelow(names: seq<Name>, limit: nat) {
    forall i :: 0 <= i < |names| ==> OffsetBelow(Compress(names[..i]).table, names[i], limit)
  }

  /** The two conversions that would panic stay in range: label lengths and offsets. */
  predicate Compressible(names: seq<Name>) {
    (forall i :: 0 <= i < |names| ==> ShortLabels(names[i])) && OffsetsBelow(names, 0x1_0000)
  }

  /** What is written so far and what is still to write make up the whole emission. */
  predicate Progress(whole: seq<byte>, all: map<Name, nat>, bytes: seq<byte>, added: map<Name, nat>, rest: Emission) {
    bytes + rest.bytes == whole && added + rest.added == all
  }

  lemma WriteLabel(whole: seq<byte>, all: map<Name, nat>, bytes: seq<byte>, added: map<Name, nat>,
                   head: seq<byte>, name: Name, rest: Emission)
    requires Progress(whole, all, bytes, added, Emission(head + rest.bytes, map[name := |bytes|] + rest.added))
    ensures Progress(whole, all, bytes + head, added[name := |bytes|], rest)
  {
    assert bytes + (head + rest.bytes) == (bytes + head) + rest.bytes;
    assert added + (map[name := |bytes|] + rest.added) == added[name := |bytes|] + rest.added;
  }

  lemma WriteLast(whole: seq<byte>, all: map<Name, nat>, bytes: seq<byte>, added: map<Name, nat>, last: seq<byte>)
    requires Progress(whole, all, bytes, added, Emission(last, map[]))
    ensures bytes + last == whole && added == all
  {
    assert added + map[] == added;
  }

  lemma StartName(start: seq<byte>, all: Emission)
    ensures Progress(start + all.bytes, all.added, start, map[], all)
  {
    assert map[] + all.added == all.added;
  }

  lemma PointerBytes(offset: nat)
    ensures Pointer(offset) == [192 + offset / 256 % 64, offset % 256]
  {
  }

  /** The inner loop: one name after what is already written. */
  method CompressName(name0: Name, start: seq<byte>, partOffsets: map<Name, nat>)
    returns (compressed: seq<byte>, newPartOffsets: map<Name, nat>)
    requires ShortLabels(name0) && OffsetBelow(partOffsets, name0, 0x1_0000)
    ensures var e := Emit(partOffsets, name0, |start|);
      compressed == start + e.bytes && newPartOffsets == e.added
  {
    hide Progress, Part, HasRest, Emit, Pointer, FirstDot, Rest;
    var name := name0;
    compressed := start;
    newPartOffsets := map[];
    ghost var all := Emit(partOffsets, name0, |start|);
    ghost var whole := start + all.bytes;
    StartName(start, all);
    while true
      invariant ShortLabels(name) && OffsetBelow(partOffsets, name, 0x1_0000)
      invariant Progress(whole, all.added, compressed, newPartOffsets, Emit(partOffsets, name, |compressed|))
      decreases |name|
    {
      EmitTurn(partOffsets, name, |compressed|);
      if name == ROOT {
        WriteLast(whole, all.added, compressed, newPartOffsets, [0]);
        compressed := compressed + [0];
        return;
      }
      if name in partOffsets {
        var offset: u16 := partOffsets[name];
        WriteLast(whole, all.added, compressed, newPartOffsets, Pointer(offset));
        PointerBytes(offset);
        compressed := compressed + [192 + offset / 256 % 64, offset % 256];
        return;
      }
      var thisName, part := name, Part(name);
      var len: byte := |part|;
      var finishedName := !HasRest(name);
      ghost var head := [len] + part;
      ghost var rest := AfterLabel(partOffsets, name, |compressed|);
      WriteLabel(whole, all.added, compressed, newPartOffsets, head, name, rest);
      newPartOffsets := newPartOffsets[thisName := |compressed|];
      ghost var before := compressed;
      compressed := compressed + [len];
      if len > 0 {
        compressed := compressed + part;
      }
      assert compressed == before + head;
      if finishedName {
        WriteLast(whole, all.added, compressed, newPartOffsets, [0]);
        compressed := compressed + [0];
        return;
      }
      name := Rest(name);
    }
  }

  method DomainNameListCompression(names: seq<Name>) returns (compressed: seq<byte>)
    requires Compressible(names)
    ensures compressed == Compress(names).bytes
  {
    hide FirstDot, Part, HasRest, Rest;
    compressed := [];
    var partOffsets: map<Name, nat> := map[];
    for i := 0 to |names|
      invariant Compress(names[..i]) == Compressed(compressed, partOffsets)
    {
      assert names[..i + 1][..i] == names[..i];
      var newPartOffsets;
      compressed, newPartOffsets := CompressName(names[i], compressed, partOffsets);
      partOffsets := partOffsets + newPartOffsets;
    }
    assert names[..|names|] == names;
  }

  // ---- Offsets stay below the length of the output ----

  lemma {:induction false} EmitOffsets(table: map<Name, nat>, name: Name, at: nat)
    ensures var e := Emit(table, name, at);
      |e.bytes| > 0 && forall n :: n in e.added ==> e.added[n] < at + |e.bytes|
    decreases |name|
  {
    hide FirstDot, Part, HasRest, Rest;
    if name == ROOT || name in table || !HasRest(name) {
    } else {
      EmitOffsets(table, Rest(name), at + 1 + |Part(name)|);
    }
  }

  lemma {:induction false} TableBelowLength(names: seq<Name>)
    ensures forall n :: n in Compress(names).table ==> Compress(names).table[n] < |Compress(names).bytes|
  {
    hide Emit, FirstDot, Part, HasRest, Rest;
    if names == [] {
    } else {
      var n := |names| - 1;
      TableBelowLength(names[..n]);
      EmitOffsets(Compress(names[..n]).table, names[n], |Compress(names[..n]).bytes|);
    }
  }

  /** Compressing the first names of a list gives a prefix of the bytes. */
  lemma {:induction false} PrefixStable(names: seq<Name>, k: nat)
    requires k <= |names|
    ensures Compress(names[..k]).bytes <= Compress(names).bytes
  {
    hide Emit, FirstDot, Part, HasRest, Rest;
    if k == |names| {
      assert names[..k] == names;
    } else {
      PrefixStable(names[..|names| - 1], k);
      assert names[..|names| - 1][..k] == names[..k];
    }
  }

  // ---- Reading back ----

  lemma {:induction false} ReadWithin(buf: seq<byte>, pos: nat, limit: nat, wider: nat)
    requires ReadName(buf, pos, limit).Some? && limit <= wider
    ensures ReadName(buf, pos, wider) == ReadName(buf, pos, limit)
    decreases |buf| - pos
  {
    hide FirstDot, Part, HasRest, Rest;
    var b := buf[pos] as int;
    if b == 0 || b >= 64 {
    } else {
      ReadWithin(buf, pos + 1 + b, limit, wider);
    }
  }

  /** Names read one after the other, if both parts can be read. */
  function Then(first: Option<seq<seq<Name>>>, rest: Option<seq<seq<Name>>>): Option<seq<seq<Name>>> {
    match (first, rest)
    case (Some(a), Some(b)) => Some(a + b)
    case _ => None
  }

  /**
   A label in front of what is read after it: it joins the first name, or if it
   is empty, ends one and stands for the root.
   */
  function Prefixed(part: Name, run: Option<seq<seq<Name>>>): (prefixed: Option<seq<seq<Name>>>)
    ensures prefixed.Some? <==> run.Some?
    ensures prefixed.Some? ==> prefixed.value != []
  {
    match run
    case None => None
    case Some(heard) =>
      if part == [] || heard == [] then Some([if part == [] then [] else [part]] + heard)
      else Some([[part] + heard[0]] + heard[1..])
  }

  /** The name at `pos`, its pointers going below `limit`, and the names from its end to the end of the buffer. */
  function ReadFrom(buf: seq<byte>, pos: nat, limit: nat): Option<seq<seq<Name>>> {
    match ReadName(buf, pos, limit)
    case None => None
    case Some(r) => Then(Some([r.labels]), ReadNames(buf, r.next))
  }

  lemma NamesFrom(buf: seq<byte>, pos: nat)
    requires pos < |buf|
    ensures ReadNames(buf, pos) == ReadFrom(buf, pos, pos)
  {
    hide ReadName;
  }

  lemma FromLabel(buf: seq<byte>, pos: nat, limit: nat, part: Name)
    requires 1 <= |part| <= 63 && pos + 1 + |part| <= |buf|
    requires buf[pos] == |part| && buf[pos + 1..pos + 1 + |part|] == part
    ensures ReadFrom(buf, pos, limit) == Prefixed(part, ReadFrom(buf, pos + 1 + |part|, limit))
    ensures ReadName(buf, pos + 1 + |part|, limit).Some? ==>
      var r := ReadName(buf, pos + 1 + |part|, limit).value;
      ReadName(buf, pos, limit) == Some(Read([part] + r.labels, r.next))
  {
    hide ReadNames;
  }

  lemma FromZero(buf: seq<byte>, pos: nat, limit: nat)
    requires pos < |buf| && buf[pos] == 0
    ensures ReadName(buf, pos, limit) == Some(Read([], pos + 1))
    ensures ReadFrom(buf, pos, limit) == Then(Some([[]]), ReadNames(buf, pos + 1))
  {
    hide ReadNames;
  }

  /** A length of 64 to 191 is neither one of a label nor the start of a pointer. */
  lemma FromLongLabel(buf: seq<byte>, pos: nat, limit: nat)
    requires pos < |buf| && 64 <= buf[pos] < 192
    ensures ReadName(buf, pos, limit) == None && ReadFrom(buf, pos, limit) == None
  {
  }

  /** The bits of a pointer hold its offset modulo 2^14. */
  function Target(offset: nat): nat {
    offset % POINTER_LIMIT
  }

  lemma FromPointer(buf: seq<byte>, pos: nat, limit: nat, offset: nat)
    requires pos + 2 <= |buf| && buf[pos..pos + 2] == Pointer(offset) && Target(offset) < limit
    ensures var read := ReadName(buf, Target(offset), Target(offset));
      && ReadName(buf, pos, limit) == (if read.Some? then Some(Read(read.value.labels, pos + 2)) else None)
      && ReadFrom(buf, pos, limit) ==
         if read.Some? then Then(Some([read.value.labels]), ReadNames(buf, pos + 2)) else None
  {
    hide ReadNames;
    var b, c := buf[pos], buf[pos + 1];
    assert buf[pos..pos + 2][0] == b && buf[pos..pos + 2][1] == c;
    TargetBits(offset);
  }

  lemma Remainder(n: nat, quotient: nat, rest: nat)
    requires n == POINTER_LIMIT * quotient + rest && rest < POINTER_LIMIT
    ensures Target(n) == rest
  {
  }

  lemma TargetBits(offset: nat)
    ensures offset / 256 % 64 * 256 + offset % 256 == Target(offset)
  {
    hide Target;
    var high, low := offset / 256, offset % 256;
    var top, bits := high / 64, high % 64;
    assert offset == 256 * high + low && high == 64 * top + bits;
    Remainder(offset, top, 256 * bits + low);
  }

  /** The bytes stand in the buffer at that place. */
  predicate StandsAt(buf: seq<byte>, pos: nat, bytes: seq<byte>) {
    pos + |bytes| <= |buf| && buf[pos..pos + |bytes|] == bytes
  }

  lemma StandsSplit(buf: seq<byte>, pos: nat, a: seq<byte>, b: seq<byte>)
    requires StandsAt(buf, pos, a + b)
    ensures StandsAt(buf, pos, a) && StandsAt(buf, pos + |a|, b)
  {
    assert buf[pos..pos + |a + b|][..|a|] == a && buf[pos..pos + |a + b|][|a|..] == b;
  }

  lemma StandsLabel(buf: seq<byte>, pos: nat, part: Name)
    requires |part| <= 255 && StandsAt(buf, pos, [|part|] + part)
    ensures pos + 1 + |part| <= |buf| && buf[pos] == |part| && buf[pos + 1..pos + 1 + |part|] == part
  {
    var head: seq<byte> := [|part|] + part;
    assert buf[pos..pos + |head|][0] == |part| && buf[pos..pos + |head|][1..] == part;
  }

  // ---- What is read, whatever the names ----

  /** Every label has fewer than 192 bytes, so that its length byte is not taken for a pointer. */
  predicate NoLabelIsPointer(name: Name)
    decreases |name|
  {
    |Part(name)| < 192 && (HasRest(name) ==> NoLabelIsPointer(Rest(name)))
  }

  /**
   The names a reader finds in the bytes written for one name, with `buf` all that
   is written in the end: a label of more than 63 bytes cannot be read, an empty
   one ends a name, and a pointer is looked up at its offset modulo 2^14.
   */
  function HeardIn(buf: seq<byte>, table: map<Name, nat>, name: Name): (heard: Option<seq<seq<Name>>>)
    ensures heard.Some? ==> heard.value != []
    decreases |name|
  {
    if name == ROOT then Some([[]])
    else if name in table then
      match ReadName(buf, Target(table[name]), Target(table[name]))
      case None => None
      case Some(r) => Some([r.labels])
    else if |Part(name)| > 63 then None
    else Prefixed(Part(name), if HasRest(name) then HeardIn(buf, table, Rest(name)) else Some([[]]))
  }

  /** What a reader finds from the name `i` of the list on. */
  function HeardFrom(buf: seq<byte>, names: seq<Name>, i: nat): Option<seq<seq<Name>>>
    requires i <= |names|
    decreases |names| - i
  {
    if i == |names| then Some([])
    else Then(HeardIn(buf, Compress(names[..i]).table, names[i]), HeardFrom(buf, names, i + 1))
  }

  lemma PrefixedThen(part: Name, first: Option<seq<seq<Name>>>, rest: Option<seq<seq<Name>>>)
    requires first.Some? ==> first.value != []
    ensures Prefixed(part, Then(first, rest)) == Then(Prefixed(part, first), rest)
  {
    if first.Some? && rest.Some? {
      var a, b := first.value, rest.value;
      assert (a + b)[0] == a[0] && (a + b)[1..] == a[1..] + b;
      assert [[part] + a[0]] + (a[1..] + b) == ([[part] + a[0]] + a[1..]) + b;
      assert [[]] + (a + b) == ([[]] + a) + b;
    }
  }

  /** The name read at the place agrees with the names heard there, and so does all that is read from it on. */
  predicate HeardAt(buf: seq<byte>, pos: nat, limit: nat, heard: Option<seq<seq<Name>>>, end: nat)
    requires end <= |buf|
  {
    && ReadFrom(buf, pos, limit) == Then(heard, ReadNames(buf, end))
    && (heard.Some? && heard.value != [] ==>
          ReadName(buf, pos, limit).Some? && ReadName(buf, pos, limit).value.labels == heard.value[0])
  }

  lemma HeardLabel(buf: seq<byte>, pos: nat, limit: nat, part: Name, heard: Option<seq<seq<Name>>>, end: nat)
    requires |part| <= 63 && StandsAt(buf, pos, [|part|] + part) && pos + 1 + |part| < |buf| && limit <= pos
    requires end <= |buf| && (heard.Some? ==> heard.value != [])
    requires HeardAt(buf, pos + 1 + |part|, if part == [] then pos + 1 else limit, heard, end)
    ensures HeardAt(buf, pos, limit, Prefixed(part, heard), end)
  {
    hide ReadName, ReadNames, ReadFrom, Then, Prefixed;
    StandsLabel(buf, pos, part);
    var rest := ReadNames(buf, end);
    PrefixedThen(part, heard, rest);
    if part == [] {
      FromZero(buf, pos, limit);
      NamesFrom(buf, pos + 1);
      EmptyPrefixed(heard);
      EmptyPrefixed(ReadNames(buf, pos + 1));
    } else {
      FromLabel(buf, pos, limit, part);
      FirstPrefixed(part, heard);
    }
  }

  lemma EmptyPrefixed(heard: Option<seq<seq<Name>>>)
    ensures Prefixed([], heard) == Then(Some([[]]), heard)
    ensures heard.Some? ==> Prefixed([], heard).value[0] == []
  {
  }

  lemma FirstPrefixed(part: Name, heard: Option<seq<seq<Name>>>)
    requires part != [] && (heard.Some? ==> heard.value != [])
    ensures heard.Some? ==> Prefixed(part, heard).value[0] == [part] + heard.value[0]
  {
  }

  /** The bytes of a name, wherever they stand, read as the names heard, if the table's offsets go before them. */
  lemma {:induction false} EmitHeard(buf: seq<byte>, base: nat, pos: nat, limit: nat, table: map<Name, nat>, name: Name)
    requires NoLabelIsPointer(name) && base <= limit <= pos && forall n :: n in table ==> table[n] < base
    requires StandsAt(buf, pos, Emit(table, name, pos).bytes)
    ensures HeardAt(buf, pos, limit, HeardIn(buf, table, name), pos + |Emit(table, name, pos).bytes|)
    decreases |name|
  {
    hide FirstDot, Part, HasRest, Rest, Emit, ReadName, ReadNames, StandsAt, HeardAt, Pointer, Prefixed;
    EmitTurn(table, name, pos);
    if name == ROOT {
      HeardZero(buf, pos, limit);
    } else if name in table {
      PointerBytes(table[name]);
      HeardPointer(buf, pos, limit, table[name]);
    } else {
      var part := Part(name);
      var head: seq<byte> := [|part|] + part;
      var rest := AfterLabel(table, name, pos);
      StandsSplit(buf, pos, head, rest.bytes);
      if |part| > 63 {
        HeardLong(buf, pos, limit, part, pos + |head + rest.bytes|);
      } else {
        var next := if part == [] then pos + 1 else limit;
        if HasRest(name) {
          EmitOffsets(table, Rest(name), pos + |head|);
          EmitHeard(buf, base, pos + |head|, next, table, Rest(name));
        } else {
          HeardZero(buf, pos + |head|, next);
        }
        StandsIn(buf, pos + |head|, rest.bytes);
        HeardLabel(buf, pos, limit, part, if HasRest(name) then HeardIn(buf, table, Rest(name)) else Some([[]]),
                   pos + |head| + |rest.bytes|);
      }
    }
  }

  lemma StandsIn(buf: seq<byte>, pos: nat, bytes: seq<byte>)
    requires StandsAt(buf, pos, bytes) && bytes != []
    ensures pos < |buf|
  {
  }

  lemma HeardZero(buf: seq<byte>, pos: nat, limit: nat)
    requires StandsAt(buf, pos, [0])
    ensures HeardAt(buf, pos, limit, Some([[]]), pos + 1)
  {
    hide ReadName, ReadNames, ReadFrom;
    assert buf[pos..pos + 1][0] == 0;
    FromZero(buf, pos, limit);
  }

  lemma HeardLong(buf: seq<byte>, pos: nat, limit: nat, part: Name, end: nat)
    requires 63 < |part| < 192 && StandsAt(buf, pos, [|part|] + part) && end <= |buf|
    ensures HeardAt(buf, pos, limit, None, end)
  {
    hide ReadName, ReadNames, ReadFrom;
    StandsLabel(buf, pos, part);
    FromLongLabel(buf, pos, limit);
  }

  lemma HeardPointer(buf: seq<byte>, pos: nat, limit: nat, offset: nat)
    requires StandsAt(buf, pos, Pointer(offset)) && offset < limit
    ensures var read := ReadName(buf, Target(offset), Target(offset));
      HeardAt(buf, pos, limit, if read.Some? then Some([read.value.labels]) else None, pos + 2)
  {
    hide ReadName, ReadNames, ReadFrom;
    FromPointer(buf, pos, limit, offset);
  }

  lemma EmitsAt(names: seq<Name>, i: nat)
    requires i < |names|
    ensures var c := Compress(names[..i]);
      var e := Emit(c.table, names[i], |c.bytes|);
      && StandsAt(Compress(names).bytes, |c.bytes|, e.bytes) && e.bytes != []
      && Compress(names[..i + 1]) == Compressed(c.bytes + e.bytes, c.table + e.added)
      && (forall n :: n in c.table ==> c.table[n] < |c.bytes|)
  {
    hide Emit;
    var c := Compress(names[..i]);
    assert names[..i + 1][..i] == names[..i];
    PrefixStable(names, i + 1);
    EmitOffsets(c.table, names[i], |c.bytes|);
    TableBelowLength(names[..i]);
  }

  predicate NoLabelsArePointers(names: seq<Name>) {
    forall i :: 0 <= i < |names| ==> NoLabelIsPointer(names[i])
  }

  lemma {:induction false} HeardRead(names: seq<Name>, i: nat)
    requires NoLabelsArePointers(names) && i <= |names|
    ensures |Compress(names[..i]).bytes| <= |Compress(names).bytes|
    ensures ReadNames(Compress(names).bytes, |Compress(names[..i]).bytes|) == HeardFrom(Compress(names).bytes, names, i)
    decreases |names| - i
  {
    hide Compress, Emit, ReadName, ReadNames, HeardIn, NoLabelIsPointer, StandsAt, ReadFrom;
    var buf := Compress(names).bytes;
    if i == |names| {
      assert names[..i] == names;
      NoneRead(buf);
    } else {
      var c := Compress(names[..i]);
      EmitsAt(names, i);
      EmitHeard(buf, |c.bytes|, |c.bytes|, |c.bytes|, c.table, names[i]);
      StandsIn(buf, |c.bytes|, Emit(c.table, names[i], |c.bytes|).bytes);
      NamesFrom(buf, |c.bytes|);
      HeardRead(names, i + 1);
    }
  }

  lemma NoneRead(buf: seq<byte>)
    ensures ReadNames(buf, |buf|) == Some([])
  {
  }

  /**
   What the decoder reads from any list whose labels have fewer than 192 bytes:
   name by name, a label of more than 63 bytes makes the whole unreadable, an
   empty one ends a name, and each pointer stands for what is read at its offset
   modulo 2^14.
   */
  lemma CompressedHeard(names: seq<Name>)
    requires NoLabelsArePointers(names)
    ensures ReadNames(Compress(names).bytes, 0) == HeardFrom(Compress(names).bytes, names, 0)
  {
    hide Emit, ReadName, ReadNames, HeardIn, HeardFrom, NoLabelIsPointer;
    HeardRead(names, 0);
    assert names[..0] == [];
  }

  // ---- What is read while the offsets fit a pointer ----

  /** The labels up to the first empty one. */
  function FirstGroup(name: Name): seq<Name>
    decreases |name|
  {
    if Part(name) == [] then []
    else [Part(name)] + if HasRest(name) then FirstGroup(Rest(name)) else []
  }

  /** The names heard in one name if every recorded suffix reads as its first group. */
  function Heard(table: map<Name, nat>, name: Name): (heard: seq<seq<Name>>)
    ensures heard != [] && heard[0] == FirstGroup(name)
    decreases |name|
  {
    if name == ROOT then [[]]
    else if name in table then [FirstGroup(name)]
    else
      var rest := if HasRest(name) then Heard(table, Rest(name)) else [[]];
      if Part(name) == [] then [[]] + rest else [[Part(name)] + rest[0]] + rest[1..]
  }

  /** What a reader finds in the bytes of the whole list. */
  function HeardAll(names: seq<Name>): seq<seq<Name>> {
    if names == [] then []
    else HeardAll(names[..|names| - 1]) + Heard(Compress(names[..|names| - 1]).table, names[|names| - 1])
  }

  /** Every label has at most 63 bytes, so that its length byte is one; labels may be empty. */
  predicate SmallLabels(name: Name)
    decreases |name|
  {
    |Part(name)| <= 63 && (HasRest(name) ==> SmallLabels(Rest(name)))
  }

  predicate AllSmall(names: seq<Name>) {
    forall i :: 0 <= i < |names| ==> SmallLabels(names[i])
  }

  lemma {:induction false} SmallIsNoPointer(name: Name)
    requires SmallLabels(name)
    ensures NoLabelIsPointer(name)
    decreases |name|
  {
    hide FirstDot, Part, HasRest, Rest;
    if !HasRest(name) {
    } else {
      SmallIsNoPointer(Rest(name));
    }
  }

  /** What the decoder reads at a recorded offset: the suffix, as far as it is one name. */
  predicate Recorded(buf: seq<byte>, name: Name, offset: nat) {
    && offset < |buf|
    && ReadName(buf, offset, offset).Some?
    && ReadName(buf, offset, offset).value.labels == FirstGroup(name)
  }

  predicate TableRecorded(buf: seq<byte>, table: map<Name, nat>) {
    forall n :: n in table ==> Recorded(buf, n, table[n])
  }

  /** With short labels and every offset used below 2^14, what is looked up is what was recorded. */
  lemma {:induction false} RecordedHeard(buf: seq<byte>, table: map<Name, nat>, name: Name)
    requires SmallLabels(name) && TableRecorded(buf, table) && OffsetBelow(table, name, POINTER_LIMIT)
    ensures HeardIn(buf, table, name) == Some(Heard(table, name))
    decreases |name|
  {
    hide FirstDot, Part, HasRest, Rest, ReadName, FirstGroup;
    if name == ROOT || name in table || !HasRest(name) {
    } else {
      RecordedHeard(buf, table, Rest(name));
    }
  }

  /** Every suffix an emission records reads as its first group. */
  lemma {:induction false} EmitRecorded(buf: seq<byte>, base: nat, pos: nat, table: map<Name, nat>, name: Name)
    requires SmallLabels(name) && TableRecorded(buf, table) && OffsetBelow(table, name, POINTER_LIMIT)
    requires base <= pos && forall n :: n in table ==> table[n] < base
    requires StandsAt(buf, pos, Emit(table, name, pos).bytes)
    ensures TableRecorded(buf, Emit(table, name, pos).added)
    decreases |name|
  {
    hide FirstDot, Part, HasRest, Rest, Emit, ReadName, ReadFrom, ReadNames, FirstGroup, StandsAt, Heard, HeardIn;
    EmitTurn(table, name, pos);
    if name == ROOT || name in table {
    } else {
      var head: seq<byte> := [|Part(name)|] + Part(name);
      SmallIsNoPointer(name);
      EmitHeard(buf, base, pos, pos, table, name);
      RecordedHeard(buf, table, name);
      EmitOffsets(table, name, pos);
      StandsIn(buf, pos, Emit(table, name, pos).bytes);
      StandsSplit(buf, pos, head, AfterLabel(table, name, pos).bytes);
      if HasRest(name) {
        EmitRecorded(buf, base, pos + |head|, table, Rest(name));
      }
    }
  }

  lemma OffsetsBelowPrefix(names: seq<Name>, n: nat, limit: nat)
    requires OffsetsBelow(names, limit) && n <= |names|
    ensures OffsetsBelow(names[..n], limit)
  {
    hide OffsetBelow, Compress, FirstDot, Part, HasRest, Rest;
    forall i | 0 <= i < n
      ensures OffsetBelow(Compress(names[..n][..i]).table, names[..n][i], limit)
    {
      assert names[..n][..i] == names[..i];
    }
  }

  /** The offsets recorded by the first names of a list decode to their suffixes in the final buffer. */
  lemma {:induction false} PrefixRecorded(names: seq<Name>, k: nat)
    requires k <= |names| && AllSmall(names[..k]) && OffsetsBelow(names[..k], POINTER_LIMIT)
    ensures TableRecorded(Compress(names).bytes, Compress(names[..k]).table)
  {
    hide Compress, Emit, Recorded, SmallLabels, OffsetBelow, StandsAt;
    if k == 0 {
      assert names[..0] == [];
      NothingCompressed();
    } else {
      var c := Compress(names[..k - 1]);
      assert names[..k][..k - 1] == names[..k - 1] && names[..k][k - 1] == names[k - 1];
      OffsetsBelowPrefix(names[..k], k - 1, POINTER_LIMIT);
      PrefixRecorded(names, k - 1);
      EmitsAt(names, k - 1);
      EmitRecorded(Compress(names).bytes, |c.bytes|, |c.bytes|, c.table, names[k - 1]);
    }
  }

  lemma NothingCompressed()
    ensures Compress([]) == Compressed([], map[])
  {
  }

  /** The first names of a list are heard as they are in a list of their own, if their offsets fit a pointer. */
  lemma {:induction false} HeardSplit(names: seq<Name>, k: nat)
    requires k <= |names| && AllSmall(names[..k]) && OffsetsBelow(names[..k], POINTER_LIMIT)
    ensures HeardFrom(Compress(names).bytes, names, 0)
         == Then(Some(HeardAll(names[..k])), HeardFrom(Compress(names).bytes, names, k))
  {
    hide Compress, Emit, Heard, HeardIn, SmallLabels, OffsetBelow, TableRecorded, HeardFrom;
    var buf := Compress(names).bytes;
    if k == 0 {
      assert names[..0] == [];
      if HeardFrom(buf, names, 0).Some? {
        assert [] + HeardFrom(buf, names, 0).value == HeardFrom(buf, names, 0).value;
      }
    } else {
      var n := k - 1;
      assert names[..k][..n] == names[..n] && names[..k][n] == names[n];
      OffsetsBelowPrefix(names[..k], n, POINTER_LIMIT);
      HeardSplit(names, n);
      PrefixRecorded(names, n);
      RecordedHeard(buf, Compress(names[..n]).table, names[n]);
      HeardTurn(buf, names, n);
      ThenAppend(HeardAll(names[..n]), Heard(Compress(names[..n]).table, names[n]), HeardFrom(buf, names, k));
    }
  }

  lemma HeardTurn(buf: seq<byte>, names: seq<Name>, i: nat)
    requires i < |names|
    ensures HeardFrom(buf, names, i) ==
      Then(HeardIn(buf, Compress(names[..i]).table, names[i]), HeardFrom(buf, names, i + 1))
  {
    hide Compress, HeardIn;
  }

  lemma NothingFrom(buf: seq<byte>, names: seq<Name>)
    ensures HeardFrom(buf, names, |names|) == Some([])
  {
  }

  lemma ThenAppend(a: seq<seq<Name>>, b: seq<seq<Name>>, rest: Option<seq<seq<Name>>>)
    ensures Then(Some(a), Then(Some(b), rest)) == Then(Some(a + b), rest)
  {
    if rest.Some? {
      assert a + (b + rest.value) == (a + b) + rest.value;
    }
  }

  /**
   With labels of at most 63 bytes and every offset used below 2^14, empty labels
   and trailing dots included, the decoder reads what the names alone determine,
   and every recorded offset decodes to its suffix in the final buffer.
   */
  lemma ShortListHeard(names: seq<Name>)
    requires AllSmall(names) && OffsetsBelow(names, POINTER_LIMIT)
    ensures ReadNames(Compress(names).bytes, 0) == Some(HeardAll(names))
    ensures TableRecorded(Compress(names).bytes, Compress(names).table)
  {
    hide Compress, Recorded, HeardIn, HeardAll, SmallLabels, NoLabelIsPointer, OffsetsBelow, ReadNames;
    assert names[..|names|] == names;
    forall i | 0 <= i < |names|
      ensures NoLabelIsPointer(names[i])
    {
      SmallIsNoPointer(names[i]);
    }
    CompressedHeard(names);
    HeardSplit(names, |names|);
    PrefixRecorded(names, |names|);
    assert HeardAll(names) + [] == HeardAll(names);
  }

  lemma {:induction false} DottedHeard(table: map<Name, nat>, name: Name)
    requires DottedLabels(name)
    ensures FirstGroup(name) == Labels(name) && Heard(table, name) == [Labels(name)] && SmallLabels(name)
    decreases |name|
  {
    hide Part, HasRest, Rest;
    RootIsNotDotted();
    if !HasRest(name) {
    } else {
      DottedHeard(table, Rest(name));
    }
  }

  lemma WellFormedHeard(table: map<Name, nat>, name: Name)
    requires WellFormedName(name)
    ensures Heard(table, name) == [Labels(name)] && SmallLabels(name)
  {
    if name == ROOT {
      assert Part(ROOT) == [] && HasRest(ROOT) && Rest(ROOT) == [];
    } else {
      DottedHeard(table, name);
    }
  }

  lemma {:induction false} AllWellFormedHeard(names: seq<Name>)
    requires WellFormedNames(names)
    ensures AllSmall(names) && HeardAll(names) == AllLabels(names)
  {
    hide WellFormedName, Heard, SmallLabels, Labels;
    if names == [] {
    } else {
      var n := |names| - 1;
      AllWellFormedHeard(names[..n]);
      WellFormedHeard(Compress(names[..n]).table, names[n]);
      assert forall i :: 0 <= i < n ==> names[i] == names[..n][i];
    }
  }

  /**
   Compression round trip: the decoder reads exactly the labels of the listed
   well-formed names, and every recorded offset decodes to its suffix in the
   final buffer.
   */
  lemma CompressedReads(names: seq<Name>)
    requires WellFormedNames(names) && OffsetsBelow(names, POINTER_LIMIT)
    ensures ReadNames(Compress(names).bytes, 0) == Some(AllLabels(names))
    ensures TableRecorded(Compress(names).bytes, Compress(names).table)
  {
    hide Compress, OffsetsBelow, WellFormedNames, TableRecorded;
    AllWellFormedHeard(names);
    ShortListHeard(names);
  }

  // ---- Text in, text out ----

  function Join(labels: seq<Name>): Name {
    if labels == [] then ROOT
    else if |labels| == 1 then labels[0]
    else labels[0] + [DOT] + Join(labels[1..])
  }

  predicate TextLabels(labels: seq<Name>) {
    forall i :: 0 <= i < |labels| ==> 1 <= |labels[i]| <= 63 && DOT !in labels[i]
  }

  /** The dotted text of each decoded name; a label that holds a dot has none. */
  function Texts(names: seq<seq<Name>>): Option<seq<Name>> {
    if names == [] then Some([])
    else if !TextLabels(names[0]) then None
    else
      match Texts(names[1..])
      case None => None
      case Some(more) => Some([Join(names[0])] + more)
  }

  function DecodeText(buf: seq<byte>): Option<seq<Name>> {
    match ReadNames(buf, 0)
    case None => None
    case Some(names) => Texts(names)
  }

  lemma {:induction false} FirstDotSplits(name: Name)
    ensures DOT !in Part(name)
    ensures HasRest(name) ==> name == Part(name) + [DOT] + Rest(name)
    ensures !HasRest(name) ==> name == Part(name)
  {
    if name == [] || name[0] == DOT {
    } else {
      FirstDotSplits(name[1..]);
      assert Part(name) == [name[0]] + Part(name[1..]);
    }
  }

  lemma {:induction false} PartOfJoined(part: Name, rest: Name)
    requires DOT !in part
    ensures Part(part + [DOT] + rest) == part && HasRest(part + [DOT] + rest) && Rest(part + [DOT] + rest) == rest
    ensures Part(part) == part && !HasRest(part)
  {
    var name := part + [DOT] + rest;
    if part == [] {
    } else {
      assert name[1..] == part[1..] + [DOT] + rest;
      PartOfJoined(part[1..], rest);
    }
  }

  lemma {:induction false} JoinLabels(name: Name)
    requires DottedLabels(name)
    ensures Labels(name) != [] && TextLabels(Labels(name)) && Join(Labels(name)) == name
    decreases |name|
  {
    hide FirstDot, Part, HasRest, Rest;
    FirstDotSplits(name);
    if !HasRest(name) {
    } else {
      JoinLabels(Rest(name));
      assert Labels(name)[1..] == Labels(Rest(name));
    }
  }

  lemma {:induction false} JoinIsWellFormed(labels: seq<Name>)
    requires TextLabels(labels)
    ensures WellFormedName(Join(labels))
    ensures labels != [] ==> DottedLabels(Join(labels))
  {
    hide FirstDot, Part, HasRest, Rest;
    if labels == [] {
    } else {
      PartOfJoined(labels[0], Join(labels[1..]));
      JoinIsWellFormed(labels[1..]);
    }
  }

  lemma {:induction false} TextsAreWellFormed(names: seq<seq<Name>>)
    requires Texts(names).Some?
    ensures WellFormedNames(Texts(names).value)
  {
    hide FirstDot, Part, HasRest, Rest;
    if names == [] {
    } else {
      JoinIsWellFormed(names[0]);
      TextsAreWellFormed(names[1..]);
    }
  }

  lemma {:induction false} TextsAppend(names: seq<seq<Name>>, labels: seq<Name>)
    requires Texts(names).Some? && TextLabels(labels)
    ensures Texts(names + [labels]) == Some(Texts(names).value + [Join(labels)])
  {
    hide FirstDot, Part, HasRest, Rest;
    var all := names + [labels];
    if names == [] {
      assert all == [labels] && all[1..] == [];
      assert [Join(labels)] + [] == [] + [Join(labels)];
    } else {
      assert all[0] == names[0] && all[1..] == names[1..] + [labels];
      TextsAppend(names[1..], labels);
      assert [Join(names[0])] + (Texts(names[1..]).value + [Join(labels)])
          == ([Join(names[0])] + Texts(names[1..]).value) + [Join(labels)];
    }
  }

  lemma TextOfName(name: Name)
    requires WellFormedName(name)
    ensures TextLabels(Labels(name)) && Join(Labels(name)) == name
  {
    if name != ROOT {
      JoinLabels(name);
    }
  }

  lemma NoTexts()
    ensures Texts([]) == Some([])
  {
  }

  lemma {:induction false} TextsOfLabels(names: seq<Name>)
    requires WellFormedNames(names)
    ensures Texts(AllLabels(names)) == Some(names)
  {
    hide FirstDot, Part, HasRest, Rest, DottedLabels, Texts, Join, TextLabels, Labels;
    if names == [] {
      assert AllLabels(names) == [];
      NoTexts();
    } else {
      var n := |names| - 1;
      TextsOfLabels(names[..n]);
      TextOfName(names[n]);
      TextsAppend(AllLabels(names[..n]), Labels(names[n]));
      assert names == names[..n] + [names[n]];
    }
  }

  /** The pointer a name is written with, if it is with one, is read as the labels it stands for. */
  predicate PointerRead(buf: seq<byte>, table: map<Name, nat>, name: Name)
    decreases |name|
  {
    if name == ROOT then true
    else if name in table then
      var read := ReadName(buf, Target(table[name]), Target(table[name]));
      read.Some? && read.value.labels == Labels(name)
    else HasRest(name) ==> PointerRead(buf, table, Rest(name))
  }

  predicate PointersRead(names: seq<Name>) {
    forall i :: 0 <= i < |names| ==> PointerRead(Compress(names).bytes, Compress(names[..i]).table, names[i])
  }

  lemma PrefixedOne(part: Name, heard: Option<seq<seq<Name>>>, labels: seq<Name>)
    requires part != [] && (heard.Some? ==> |heard.value| == 1)
    ensures Prefixed(part, heard).Some? ==> |Prefixed(part, heard).value| == 1
    ensures Prefixed(part, heard) == Some([[part] + labels]) <==> heard == Some([labels])
  {
    if heard.Some? {
      var first := heard.value[0];
      assert heard.value == [first] && heard.value[1..] == [];
      assert [[part] + first] + heard.value[1..] == [[part] + first];
      assert Prefixed(part, heard) == Some([[part] + first]);
      assert [[part] + first][0] == [part] + first && [[part] + labels][0] == [part] + labels;
      assert ([part] + first)[1..] == first && ([part] + labels)[1..] == labels;
      assert [first][0] == first && [labels][0] == labels;
    }
  }

  lemma {:induction false} DottedHeardIn(buf: seq<byte>, table: map<Name, nat>, name: Name)
    requires DottedLabels(name)
    ensures var heard := HeardIn(buf, table, name);
      && (heard.Some? ==> |heard.value| == 1)
      && (heard == Some([Labels(name)]) <==> PointerRead(buf, table, name))
    decreases |name|
  {
    hide Part, HasRest, Rest, ReadName;
    RootIsNotDotted();
    if name in table {
    } else if !HasRest(name) {
      PrefixedOne(Part(name), Some([[]]), []);
      assert [Part(name)] + [] == [Part(name)];
    } else {
      DottedHeardIn(buf, table, Rest(name));
      PrefixedOne(Part(name), HeardIn(buf, table, Rest(name)), Labels(Rest(name)));
    }
  }

  lemma WellFormedHeardIn(buf: seq<byte>, table: map<Name, nat>, name: Name)
    requires WellFormedName(name)
    ensures var heard := HeardIn(buf, table, name);
      && (heard.Some? ==> |heard.value| == 1)
      && (heard == Some([Labels(name)]) <==> PointerRead(buf, table, name))
  {
    if name == ROOT {
    } else {
      DottedHeardIn(buf, table, name);
    }
  }

  /** The names read are, one for each, what is heard in the names from `i` on. */
  predicate OneEach(buf: seq<byte>, names: seq<Name>, i: nat, read: seq<seq<Name>>)
    requires i <= |names|
  {
    && |read| == |names| - i
    && forall j :: i <= j < |names| ==> HeardIn(buf, Compress(names[..j]).table, names[j]) == Some([read[j - i]])
  }

  lemma {:induction false} HeardOneEach(buf: seq<byte>, names: seq<Name>, i: nat)
    requires WellFormedNames(names) && i <= |names|
    ensures HeardFrom(buf, names, i).Some? ==> OneEach(buf, names, i, HeardFrom(buf, names, i).value)
    ensures HeardFrom(buf, names, i).None? ==>
      exists j :: i <= j < |names| && HeardIn(buf, Compress(names[..j]).table, names[j]) == None
    decreases |names| - i
  {
    hide Compress, HeardIn, WellFormedName, PointerRead, HeardFrom;
    if i == |names| {
      assert HeardFrom(buf, names, i) == Some([]) by {
        NothingFrom(buf, names);
      }
    } else {
      var heard := HeardIn(buf, Compress(names[..i]).table, names[i]);
      WellFormedHeardIn(buf, Compress(names[..i]).table, names[i]);
      HeardOneEach(buf, names, i + 1);
      HeardTurn(buf, names, i);
      if heard.Some? && HeardFrom(buf, names, i + 1).Some? {
        var rest := HeardFrom(buf, names, i + 1).value;
        assert heard.value == [heard.value[0]];
        forall j | i <= j < |names|
          ensures HeardIn(buf, Compress(names[..j]).table, names[j]) == Some([(heard.value + rest)[j - i]])
        {
          assert j > i ==> (heard.value + rest)[j - i] == rest[j - (i + 1)];
        }
      }
    }
  }

  lemma {:induction false} AllLabelsAt(names: seq<Name>)
    ensures |AllLabels(names)| == |names|
    ensures forall j :: 0 <= j < |names| ==> AllLabels(names)[j] == Labels(names[j])
  {
    hide Labels;
    if names == [] {
    } else {
      AllLabelsAt(names[..|names| - 1]);
    }
  }

  lemma {:induction false} TextsAt(names: seq<seq<Name>>)
    requires Texts(names).Some?
    ensures |Texts(names).value| == |names|
    ensures forall j :: 0 <= j < |names| ==> TextLabels(names[j]) && Texts(names).value[j] == Join(names[j])
  {
    hide Join, TextLabels;
    if names == [] {
    } else {
      TextsAt(names[1..]);
    }
  }

  lemma {:induction false} LabelsOfJoin(labels: seq<Name>)
    requires TextLabels(labels)
    ensures Labels(Join(labels)) == labels
    ensures labels != [] ==> Join(labels) != ROOT
  {
    hide FirstDot, Part, HasRest, Rest;
    if labels == [] {
    } else {
      PartOfJoined(labels[0], Join(labels[1..]));
      LabelsOfJoin(labels[1..]);
      assert labels[0] != ROOT && labels == [labels[0]] + labels[1..];
      if |labels| > 1 {
        assert (labels[0] + [DOT] + Join(labels[1..]))[0] == labels[0][0];
      }
    }
  }

  lemma {:induction false} DottedIsNoPointer(name: Name)
    requires WellFormedName(name)
    ensures NoLabelIsPointer(name)
  {
    WellFormedHeard(map[], name);
    SmallIsNoPointer(name);
  }

  /**
   The decoder gives back the listed names exactly when each is "." or dot-joined
   labels of 1 to 63 bytes, and each pointer is read as the labels it stands for
   at the 14 bits of its offset that are written.
   */
  lemma TextRoundTrip(names: seq<Name>)
    requires Compressible(names)
    ensures DecodeText(Compress(names).bytes) == Some(names) <==> WellFormedNames(names) && PointersRead(names)
  {
    hide ReadName, Compress, HeardIn, HeardFrom, PointerRead, WellFormedName, Labels, Join, TextLabels, ReadNames,
      Texts, NoLabelIsPointer;
    var buf := Compress(names).bytes;
    if DecodeText(buf) == Some(names) {
      TextsAreWellFormed(ReadNames(buf, 0).value);
    }
    if WellFormedNames(names) {
      forall i | 0 <= i < |names|
        ensures NoLabelIsPointer(names[i])
      {
        DottedIsNoPointer(names[i]);
      }
      CompressedHeard(names);
      HeardOneEach(buf, names, 0);
      forall i | 0 <= i < |names|
        ensures PointerRead(buf, Compress(names[..i]).table, names[i])
           <==> HeardIn(buf, Compress(names[..i]).table, names[i]) == Some([Labels(names[i])])
      {
        WellFormedHeardIn(buf, Compress(names[..i]).table, names[i]);
      }
      if PointersRead(names) {
        AllLabelsAt(names);
        TextsOfLabels(names);
        assert HeardFrom(buf, names, 0).value == AllLabels(names);
      }
      if DecodeText(buf) == Some(names) {
        TextsAt(ReadNames(buf, 0).value);
        forall i | 0 <= i < |names|
          ensures PointerRead(buf, Compress(names[..i]).table, names[i])
        {
          LabelsOfJoin(ReadNames(buf, 0).value[i]);
        }
      }
    }
  }

  /** While every offset used is below 2^14, each pointer is read as the labels it stands for. */
  lemma ShortPointersRead(names: seq<Name>)
    requires WellFormedNames(names) && OffsetsBelow(names, POINTER_LIMIT)
    ensures PointersRead(names)
  {
    hide Compress, HeardIn, PointerRead, WellFormedName, Labels, OffsetBelow, Heard, TableRecorded, SmallLabels;
    AllWellFormedHeard(names);
    forall i | 0 <= i < |names|
      ensures PointerRead(Compress(names).bytes, Compress(names[..i]).table, names[i])
    {
      OffsetsBelowPrefix(names, i, POINTER_LIMIT);
      PrefixRecorded(names, i);
      RecordedHeard(Compress(names).bytes, Compress(names[..i]).table, names[i]);
      WellFormedHeard(Compress(names[..i]).table, names[i]);
      WellFormedHeardIn(Compress(names).bytes, Compress(names[..i]).table, names[i]);
    }
  }

  // ---- Lists that fit ----

  lemma {:induction false} OffsetBelowAll(table: map<Name, nat>, name: Name, limit: nat)
    requires forall n :: n in table ==> table[n] < limit
    ensures OffsetBelow(table, name, limit)
    decreases |name|
  {
    hide FirstDot, Part, HasRest, Rest;
    if name == ROOT || name in table || !HasRest(name) {
    } else {
      OffsetBelowAll(table, Rest(name), limit);
    }
  }

  /** Output that fits the limit uses no offset beyond it. */
  lemma ShortOutputFits(names: seq<Name>, limit: nat)
    requires |Compress(names).bytes| <= limit
    ensures OffsetsBelow(names, limit)
  {
    hide Compress, OffsetBelow, FirstDot, Part, HasRest, Rest;
    forall i | 0 <= i < |names|
      ensures OffsetBelow(Compress(names[..i]).table, names[i], limit)
    {
      PrefixStable(names, i);
      TableBelowLength(names[..i]);
      OffsetBelowAll(Compress(names[..i]).table, names[i], limit);
    }
  }

  lemma {:induction false} DottedIsShort(name: Name)
    requires DottedLabels(name)
    ensures ShortLabels(name)
    decreases |name|
  {
    hide FirstDot, Part, HasRest, Rest;
    if !HasRest(name) {
    } else {
      DottedIsShort(Rest(name));
    }
  }

  /** Well-formed names whose output fits the pointers never make the compressor panic. */
  lemma WellFormedCompressible(names: seq<Name>)
    requires WellFormedNames(names) && OffsetsBelow(names, POINTER_LIMIT)
    ensures Compressible(names)
  {
    hide Compress;
    forall i | 0 <= i < |names|
      ensures ShortLabels(names[i])
    {
      if names[i] != ROOT {
        DottedIsShort(names[i]);
      } else {
        assert Part(ROOT) == [] && Rest(ROOT) == [];
      }
    }
    forall i | 0 <= i < |names|
      ensures OffsetBelow(Compress(names[..i]).table, names[i], 0x1_0000)
    {
      OffsetBelowWider(Compress(names[..i]).table, names[i], POINTER_LIMIT, 0x1_0000);
    }
  }

  lemma {:induction false} OffsetBelowWider(table: map<Name, nat>, name: Name, limit: nat, wider: nat)
    requires OffsetBelow(table, name, limit) && limit <= wider
    ensures OffsetBelow(table, name, wider)
    decreases |name|
  {
    hide FirstDot, Part, HasRest, Rest;
    if name == ROOT || name in table || !HasRest(name) {
    } else {
      OffsetBelowWider(table, Rest(name), limit, wider);
    }
  }

  lemma CompressAppend(names: seq<Name>, name: Name)
    ensures var c := Compress(names);
      var e := Emit(c.table, name, |c.bytes|);
      Compress(names + [name]) == Compressed(c.bytes + e.bytes, c.table + e.added)
  {
    hide Emit;
    assert (names + [name])[..|names|] == names;
  }

  lemma CompressOne(name: Name)
    ensures Compress([name]).bytes == Emit(map[], name, 0).bytes
  {
    hide Emit;
    CompressAppend([], name);
    assert [] + [name] == [name] && [] + Emit(map[], name, 0).bytes == Emit(map[], name, 0).bytes;
  }
}
