/** How a client FQDN option (code 81) prints: the label loop of the wire format, and the plain text one. */
module Fqdns {
  import opened Bytes
  import opened DhcpOptions
  import opened DomainNames

  // ---- UTF-8 ----

  predicate Continuation(b: byte) {
    0x80 <= b <= 0xBF
  }

  /** Length of the well-formed character at the start of `s`, or 0. */
  function CharLength(s: seq<byte>): nat {
    if s == [] then 0
    else if s[0] < 0x80 then 1
    else if |s| >= 2 && 0xC2 <= s[0] <= 0xDF && Continuation(s[1]) then 2
    else if |s| >= 3 && 0xE0 <= s[0] <= 0xEF && Continuation(s[1]) && Continuation(s[2])
            && (s[0] == 0xE0 ==> s[1] >= 0xA0) && (s[0] == 0xED ==> s[1] <= 0x9F) then 3
    else if |s| >= 4 && 0xF0 <= s[0] <= 0xF4 && Continuation(s[1]) && Continuation(s[2]) && Continuation(s[3])
            && (s[0] == 0xF0 ==> s[1] >= 0x90) && (s[0] == 0xF4 ==> s[1] <= 0x8F) then 4
    else 0
  }

  predicate ValidUtf8(s: seq<byte>) {
    s == [] || (0 < CharLength(s) <= |s| && ValidUtf8(s[CharLength(s)..]))
  }

  /** The numbers of characters; those kept for UTF-16 are none. */
  type CodePoint = c: int | 0 <= c < 0x11_0000 && !(0xD800 <= c < 0xE000)

  /** The octets of a character (section 3 of RFC 3629). */
  function Octets(c: CodePoint): (s: seq<byte>)
    ensures |s| > 0
  {
    if c < 0x80 then [c]
    else if c < 0x800 then [0xC0 + c / 0x40, 0x80 + c % 0x40]
    else if c < 0x1_0000 then [0xE0 + c / 0x1000, 0x80 + c / 0x40 % 0x40, 0x80 + c % 0x40]
    else [0xF0 + c / 0x4_0000, 0x80 + c / 0x1000 % 0x40, 0x80 + c / 0x40 % 0x40, 0x80 + c % 0x40]
  }

  function AllOctets(cs: seq<CodePoint>): seq<byte> {
    if cs == [] then [] else Octets(cs[0]) + AllOctets(cs[1..])
  }

  /** The first two octets of a long character are in the ranges that rule out the other ways of writing it. */
  lemma LongRanges(c: CodePoint)
    ensures 0x800 <= c < 0x1_0000 ==>
      var a, b := c / 0x1000, c / 0x40 % 0x40;
      0 <= a < 16 && (a == 0 ==> b >= 0x20) && (a == 13 ==> b < 0x20)
    ensures 0x1_0000 <= c ==>
      var a, b := c / 0x4_0000, c / 0x1000 % 0x40;
      0 <= a < 5 && (a == 0 ==> b >= 0x10) && (a == 4 ==> b < 0x10)
  {
  }

  lemma OctetsLength(s: seq<byte>, c: CodePoint)
    requires s == Octets(c)
    ensures CharLength(s) == |s|
  {
    LongRanges(c);
  }

  /** What comes after a character has no part in it. */
  lemma LengthExtends(s: seq<byte>, rest: seq<byte>)
    requires CharLength(s) == |s| > 0
    ensures CharLength(s + rest) == |s|
  {
  }

  lemma CharWritten(c: CodePoint, rest: seq<byte>)
    ensures CharLength(Octets(c) + rest) == |Octets(c)|
  {
    hide CharLength, Octets;
    OctetsLength(Octets(c), c);
    LengthExtends(Octets(c), rest);
  }

  lemma OneRead(a: byte) returns (c: CodePoint)
    requires a < 0x80
    ensures Octets(c) == [a]
  {
    c := a;
  }

  lemma TwoRead(a: int, b: int) returns (c: CodePoint)
    requires 2 <= a < 32 && 0 <= b < 64
    ensures Octets(c) == [0xC0 + a, 0x80 + b]
  {
    c := a * 64 + b;
    assert c / 64 == a && c % 64 == b;
  }

  lemma ThreeRead(a: int, b: int, d: int) returns (c: CodePoint)
    requires 0 <= a < 16 && 0 <= b < 64 && 0 <= d < 64 && (a == 0 ==> b >= 32) && (a == 13 ==> b < 32)
    ensures Octets(c) == [0xE0 + a, 0x80 + b, 0x80 + d]
  {
    c := a * 4096 + b * 64 + d;
    assert c / 4096 == a && c / 64 == a * 64 + b && c % 64 == d;
  }

  lemma FourRead(a: int, b: int, d: int, e: int) returns (c: CodePoint)
    requires 0 <= a < 5 && 0 <= b < 64 && 0 <= d < 64 && 0 <= e < 64 && (a == 0 ==> b >= 16) && (a == 4 ==> b < 16)
    ensures Octets(c) == [0xF0 + a, 0x80 + b, 0x80 + d, 0x80 + e]
  {
    c := a * 262144 + b * 4096 + d * 64 + e;
    assert c / 262144 == a && c / 4096 == a * 64 + b && c / 64 == a * 4096 + b * 64 + d && c % 64 == e;
  }

  lemma CharRead(s: seq<byte>) returns (c: CodePoint)
    requires CharLength(s) > 0
    ensures CharLength(s) <= |s| && s[..CharLength(s)] == Octets(c)
  {
    hide Octets;
    match CharLength(s) {
      case 1 => c := OneRead(s[0]);
      case 2 => c := TwoRead(s[0] as int - 0xC0, s[1] as int - 0x80);
      case 3 => c := ThreeRead(s[0] as int - 0xE0, s[1] as int - 0x80, s[2] as int - 0x80);
      case _ => c := FourRead(s[0] as int - 0xF0, s[1] as int - 0x80, s[2] as int - 0x80, s[3] as int - 0x80);
    }
  }

  lemma {:induction false} TextRead(s: seq<byte>) returns (cs: seq<CodePoint>)
    requires ValidUtf8(s)
    ensures s == AllOctets(cs)
    decreases |s|
  {
    hide CharLength, Octets;
    cs := [];
    if s != [] {
      var c := CharRead(s);
      var rest := TextRead(s[CharLength(s)..]);
      cs := [c] + rest;
      assert cs[1..] == rest;
    }
  }

  lemma {:induction false} TextWritten(cs: seq<CodePoint>)
    ensures ValidUtf8(AllOctets(cs))
  {
    hide CharLength, Octets;
    if cs != [] {
      CharWritten(cs[0], AllOctets(cs[1..]));
      TextWritten(cs[1..]);
    }
  }

  /** The test accepts exactly the octets of characters, one after the other. */
  lemma Utf8Exact(s: seq<byte>)
    ensures ValidUtf8(s) <==> exists cs: seq<CodePoint> :: s == AllOctets(cs)
  {
    hide ValidUtf8;
    if ValidUtf8(s) {
      var cs := TextRead(s);
    }
    if cs: seq<CodePoint> :| s == AllOctets(cs) {
      TextWritten(cs);
    }
  }

  lemma CharBeforeDot(a: seq<byte>, b: seq<byte>)
    requires a != [] && CharLength(a + [DOT] + b) > 0
    ensures CharLength(a) == CharLength(a + [DOT] + b) <= |a|
  {
    var s := a + [DOT] + b;
    assert s[|a|] == DOT;
    assert forall i :: 0 <= i < |a| ==> s[i] == a[i];
  }

  /** A dot is never inside a character, so cutting a text at a dot keeps both sides valid. */
  lemma {:induction false} Utf8SplitsAtDot(a: seq<byte>, b: seq<byte>)
    requires ValidUtf8(a + [DOT] + b)
    ensures ValidUtf8(a) && ValidUtf8(b)
    decreases |a|
  {
    var s := a + [DOT] + b;
    if a == [] {
      assert s[1..] == b;
    } else {
      CharBeforeDot(a, b);
      var n := CharLength(s);
      assert s[n..] == a[n..] + [DOT] + b;
      Utf8SplitsAtDot(a[n..], b);
    }
  }

  // ---- Printing ----

  function DisplayLabels(d: seq<byte>, offset: nat): seq<byte>
    decreases |d| - offset
  {
    if offset >= |d| || d[offset] == 0 then []
    else
      var end := offset + 1 + d[offset] as int;
      if end > |d| || !ValidUtf8(d[offset + 1..end]) then []
      else d[offset + 1..end] + [DOT] + DisplayLabels(d, end)
  }

  function Display(f: ClientFqdn): seq<byte> {
    if f.flags / 4 % 2 == 1 then DisplayLabels(f.domainName, 0)
    else if ValidUtf8(f.domainName) then f.domainName
    else []
  }

  lemma DisplayStep(d: seq<byte>, offset: nat, part: seq<byte>)
    requires 1 <= |part| <= 255 && offset + 1 + |part| <= |d|
    requires d[offset] == |part| && d[offset + 1..offset + 1 + |part|] == part
    ensures DisplayLabels(d, offset) ==
      if ValidUtf8(part) then part + [DOT] + DisplayLabels(d, offset + 1 + |part|) else []
  {
    hide ValidUtf8;
  }

  /** The loop stays in bounds and ends on arbitrary bytes. */
  method Fmt(f: ClientFqdn) returns (out: seq<byte>)
    ensures out == Display(f)
  {
    hide ValidUtf8;
    out := [];
    if f.flags / 4 % 2 == 1 {
      var d, offset := f.domainName, 0;
      while offset < |d|
        invariant 0 <= offset <= |d|
        invariant out + DisplayLabels(d, offset) == DisplayLabels(d, 0)
      {
        ghost var start := offset;
        var partLen := d[offset] as int;
        if partLen == 0 {
          break;
        }
        offset := offset + 1;
        var partEnd := offset + partLen;
        if partEnd > |d| {
          return;
        }
        var part := d[offset..partEnd];
        DisplayStep(d, start, part);
        if !ValidUtf8(part) {
          return;
        }
        assert out + (part + [DOT] + DisplayLabels(d, partEnd)) == (out + part + [DOT]) + DisplayLabels(d, partEnd);
        out := out + part + [DOT];
        offset := partEnd;
      }
      return;
    }
    if ValidUtf8(f.domainName) {
      return f.domainName;
    }
  }

  lemma DisplayStops(d: seq<byte>, offset: nat)
    requires offset >= |d| || d[offset] == 0
    ensures DisplayLabels(d, offset) == []
  {
  }

  lemma HeadAt(pre: seq<byte>, head: seq<byte>, more: seq<byte>)
    requires head != []
    ensures (pre + head + more)[|pre|] == head[0]
    ensures (pre + head + more)[|pre| + 1..|pre| + |head|] == head[1..]
  {
  }

  lemma {:induction false} DisplayEmitted(pre: seq<byte>, name: Name)
    requires DottedLabels(name) && ValidUtf8(name)
    ensures DisplayLabels(pre + Emit(map[], name, |pre|).bytes, |pre|) == name + [DOT]
    decreases |name|
  {
    hide FirstDot, Part, HasRest, Rest, Emit, ValidUtf8, DisplayLabels;
    var part := Part(name);
    var head: seq<byte> := [|part|] + part;
    RootIsNotDotted();
    EmitTurn(map[], name, |pre|);
    FirstDotSplits(name);
    var more := AfterLabel(map[], name, |pre|).bytes;
    DisplayHead(pre, part, more);
    if HasRest(name) {
      Utf8SplitsAtDot(part, Rest(name));
      DisplayEmitted(pre + head, Rest(name));
      DotAfter(part, Rest(name));
    } else {
      DisplayEnd(pre + head);
      assert part + [DOT] + [] == name + [DOT];
    }
  }

  lemma DotAfter(part: seq<byte>, rest: seq<byte>)
    ensures part + [DOT] + (rest + [DOT]) == part + [DOT] + rest + [DOT]
  {
  }

  lemma DisplayEnd(pre: seq<byte>)
    ensures DisplayLabels(pre + [0], |pre|) == []
  {
    DisplayStops(pre + [0], |pre|);
  }

  /** The label at the end of `pre` prints with a dot, and then what follows it. */
  lemma DisplayHead(pre: seq<byte>, part: seq<byte>, more: seq<byte>)
    requires 1 <= |part| <= 255
    ensures var head := [|part|] + part;
      DisplayLabels(pre + (head + more), |pre|) ==
        if ValidUtf8(part) then part + [DOT] + DisplayLabels(pre + head + more, |pre + head|) else []
  {
    hide ValidUtf8, DisplayLabels;
    var head: seq<byte> := [|part|] + part;
    var d := pre + head + more;
    assert pre + (head + more) == d;
    HeadAt(pre, head, more);
    assert head[1..] == part;
    DisplayStep(d, |pre|, part);
  }

  /** Labels with their length bytes, one after the other. */
  function Framed(labels: seq<seq<byte>>): seq<byte>
    requires forall i :: 0 <= i < |labels| ==> |labels[i]| <= 255
  {
    if labels == [] then [] else [|labels[0]|] + labels[0] + Framed(labels[1..])
  }

  /** Each label with a dot after it. */
  function Dotted(labels: seq<seq<byte>>): seq<byte> {
    if labels == [] then [] else labels[0] + [DOT] + Dotted(labels[1..])
  }

  predicate Printable(labels: seq<seq<byte>>) {
    forall i :: 0 <= i < |labels| ==> 1 <= |labels[i]| <= 255 && ValidUtf8(labels[i])
  }

  /** Nothing more is printed: the end, a zero octet, a label cut short, or one that is not text. */
  predicate Stops(tail: seq<byte>) {
    tail == [] || tail[0] == 0 || 1 + tail[0] as int > |tail| || !ValidUtf8(tail[1..1 + tail[0] as int])
  }

  lemma ShiftedDisplay(head: seq<byte>, d: seq<byte>, offset: nat)
    ensures DisplayLabels(head + d, |head| + offset) == DisplayLabels(d, offset)
    decreases |d| - offset
  {
    hide ValidUtf8;
    if offset >= |d| || d[offset] == 0 {
    } else {
      var end := offset + 1 + d[offset] as int;
      if end <= |d| {
        assert (head + d)[|head| + offset + 1..|head| + end] == d[offset + 1..end];
        ShiftedDisplay(head, d, end);
      }
    }
  }

  /** What the label loop prints of any bytes: the labels up to where it stops, each with a dot. */
  lemma {:induction false} LabelsPrinted(d: seq<byte>) returns (labels: seq<seq<byte>>, tail: seq<byte>)
    ensures Printable(labels) && Stops(tail) && d == Framed(labels) + tail
    ensures DisplayLabels(d, 0) == Dotted(labels)
  {
    hide ValidUtf8, DisplayLabels, Framed, Dotted;
    if Stops(d) {
      labels, tail := [], d;
      NoLabels();
      NothingPrinted(d);
      assert [] + d == d;
    } else {
      var n := 1 + d[0] as int;
      var first := d[1..n];
      var rest;
      rest, tail := LabelsPrinted(d[n..]);
      labels := [first] + rest;
      assert d == d[..n] + d[n..] && d[..n] == [|first|] + first;
      ShiftedDisplay(d[..n], d[n..], 0);
      DisplayStep(d, 0, first);
      OneMoreLabel(first, rest, tail);
    }
  }

  lemma NoLabels()
    ensures Framed([]) == [] && Dotted([]) == []
  {
  }

  lemma NothingPrinted(d: seq<byte>)
    requires Stops(d)
    ensures DisplayLabels(d, 0) == []
  {
    hide ValidUtf8;
  }

  lemma OneMoreLabel(first: seq<byte>, rest: seq<seq<byte>>, tail: seq<byte>)
    requires |first| <= 255 && forall i :: 0 <= i < |rest| ==> |rest[i]| <= 255
    ensures Dotted([first] + rest) == first + [DOT] + Dotted(rest)
    ensures forall i :: 0 <= i < |[first] + rest| ==> |([first] + rest)[i]| <= 255
    ensures [|first|] + first + (Framed(rest) + tail) == Framed([first] + rest) + tail
  {
    assert ([first] + rest)[1..] == rest;
  }

  /** What is printed of any option: with bit 2 of the flags its labels, else its text if it is one. */
  lemma DisplayExact(f: ClientFqdn) returns (labels: seq<seq<byte>>, tail: seq<byte>)
    ensures Printable(labels) && Stops(tail) && f.domainName == Framed(labels) + tail
    ensures Display(f) ==
      if f.flags % 8 >= 4 then Dotted(labels) else if ValidUtf8(f.domainName) then f.domainName else []
  {
    hide ValidUtf8, Dotted, DisplayLabels;
    labels, tail := LabelsPrinted(f.domainName);
  }

  /** Printer against encoder: an encoded name prints as itself with a final dot. */
  lemma DisplayOfEncoded(name: Name, flags: byte)
    requires DottedLabels(name) && ValidUtf8(name) && flags / 4 % 2 == 1
    ensures Display(ClientFqdn(flags, Compress([name]).bytes)) == name + [DOT]
  {
    hide ValidUtf8, DottedLabels, Emit, Compress;
    CompressOne(name);
    DisplayEmitted([], name);
    assert [] + Emit(map[], name, 0).bytes == Emit(map[], name, 0).bytes;
  }
}
