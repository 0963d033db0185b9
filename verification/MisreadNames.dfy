/**
 Name lists the compressor takes but a reader gets back changed: names with a
 trailing dot, and lists too long for their pointers.
 */
module MisreadNames {
  import opened Wrappers
  import opened Bytes
  import opened DomainNames
  import opened SuffixSharing

  // ---- Trailing dots ----

  /** Ends in the empty label: the empty text, or a text that ends in one dot. */
  predicate EndsEmpty(name: Name) {
    name == [] || (|name| >= 2 && name[|name| - 1] == DOT && name[|name| - 2] != DOT)
  }

  lemma EndsEmptyShort()
    ensures EndsEmpty([]) && !EndsEmpty(ROOT)
  {
  }

  lemma EndsEmptyStep(name: Name)
    requires name != ROOT && name != []
    ensures EndsEmpty(name) <==> HasRest(name) && Rest(name) != ROOT && EndsEmpty(Rest(name))
  {
    hide Part, HasRest, Rest, FirstDot;
    FirstDotSplits(name);
    if HasRest(name) {
      var part, rest := Part(name), Rest(name);
      assert |name| == |part| + 1 + |rest| && forall i :: 0 <= i < |rest| ==> name[|part| + 1 + i] == rest[i];
      assert name[|part|] == DOT && (part != [] ==> name[|part| - 1] == part[|part| - 1]);
      assert rest == [] ==> name == part + [DOT];
    }
  }

  /** Emitting any name keeps the table suffix-closed and records the name. */
  lemma {:induction false} EmitClosed(table: map<Name, nat>, name: Name, at: nat)
    requires SuffixClosed(table)
    ensures var all := table + Emit(table, name, at).added;
      SuffixClosed(all) && (name != ROOT ==> name in all)
    decreases |name|
  {
    hide FirstDot, Part, HasRest, Rest, Emit;
    EmitTurn(table, name, at);
    if name == ROOT || name in table || !HasRest(name) {
    } else {
      EmitClosed(table, Rest(name), at + 1 + |Part(name)|);
    }
  }

  lemma {:induction false} ClosedHoldsEmpty(table: map<Name, nat>, name: Name)
    requires SuffixClosed(table) && name in table && name != ROOT && EndsEmpty(name)
    ensures [] in table
    decreases |name|
  {
    hide FirstDot, Part, HasRest, Rest, EndsEmpty;
    if name == [] {
    } else {
      EndsEmptyStep(name);
      ClosedHoldsEmpty(table, Rest(name));
    }
  }

  lemma {:induction false} EmitEmpty(table: map<Name, nat>, name: Name, at: nat)
    requires SuffixClosed(table)
    ensures [] in table + Emit(table, name, at).added <==> [] in table || EndsEmpty(name)
    decreases |name|
  {
    hide FirstDot, Part, HasRest, Rest, Emit, EndsEmpty;
    EmitTurn(table, name, at);
    if name == ROOT {
      EndsEmptyShort();
    } else if name in table {
      if EndsEmpty(name) {
        ClosedHoldsEmpty(table, name);
      }
    } else if name == [] {
      EndsEmptyShort();
    } else {
      EndsEmptyStep(name);
      if HasRest(name) {
        EmitEmpty(table, Rest(name), at + 1 + |Part(name)|);
        EmitTurn(table, Rest(name), at + 1 + |Part(name)|);
      }
    }
  }

  /** The empty suffix is recorded exactly once some name is empty or ends in one dot. */
  lemma {:induction false} EmptyRecorded(names: seq<Name>)
    ensures SuffixClosed(Compress(names).table)
    ensures [] in Compress(names).table <==> exists j :: 0 <= j < |names| && EndsEmpty(names[j])
  {
    hide Emit, EndsEmpty;
    if names == [] {
    } else {
      var n := |names| - 1;
      EmptyRecorded(names[..n]);
      EmitClosed(Compress(names[..n]).table, names[n], |Compress(names[..n]).bytes|);
      EmitEmpty(Compress(names[..n]).table, names[n], |Compress(names[..n]).bytes|);
      if j :| 0 <= j < |names| && EndsEmpty(names[j]) {
        assert j < n ==> EndsEmpty(names[..n][j]);
      }
    }
  }

  lemma {:induction false} TrailingGroup(name: Name)
    requires DottedLabels(name)
    ensures FirstGroup(name + [DOT]) == Labels(name) && SmallLabels(name + [DOT]) && name + [DOT] != ROOT
    ensures Part(name + [DOT]) == Part(name) && HasRest(name + [DOT])
    ensures Rest(name + [DOT]) == if HasRest(name) then Rest(name) + [DOT] else []
    decreases |name|
  {
    hide Part, HasRest, Rest, FirstDot;
    var after := if HasRest(name) then Rest(name) + [DOT] else [];
    RootIsNotDotted();
    FirstDotSplits(name);
    assert name + [DOT] == Part(name) + [DOT] + after;
    PartOfJoined(Part(name), after);
    if HasRest(name) {
      TrailingGroup(Rest(name));
    } else {
      PartOfJoined([], []);
    }
  }

  lemma {:induction false} TrailingHeard(table: map<Name, nat>, name: Name)
    requires DottedLabels(name) && SuffixClosed(table)
    ensures Heard(table, name + [DOT]) == if [] in table then [Labels(name)] else [Labels(name), []]
    decreases |name|
  {
    hide Part, HasRest, Rest, FirstDot;
    TrailingGroup(name);
    RootIsNotDotted();
    if name + [DOT] in table {
      assert EndsEmpty(name + [DOT]) by {
        DottedEnd(name);
      }
      ClosedHoldsEmpty(table, name + [DOT]);
    } else if HasRest(name) {
      TrailingHeard(table, Rest(name));
    } else {
      PartOfJoined([], []);
      assert Heard(table, []) == if [] in table then [[]] else [[], []];
    }
  }

  lemma {:induction false} DottedEnd(name: Name)
    requires DottedLabels(name)
    ensures name != [] && name[|name| - 1] != DOT
    decreases |name|
  {
    hide Part, HasRest, Rest, FirstDot;
    FirstDotSplits(name);
    if !HasRest(name) {
    } else {
      DottedEnd(Rest(name));
    }
  }

  /** Until the empty suffix is recorded, no suffix of a name with a trailing dot is, and the root follows the name. */
  lemma {:induction false} FirstTrailing(buf: seq<byte>, table: map<Name, nat>, name: Name)
    requires DottedLabels(name) && SuffixClosed(table) && [] !in table
    ensures HeardIn(buf, table, name + [DOT]) == Some([Labels(name), []])
    decreases |name|
  {
    hide Part, HasRest, Rest, FirstDot, FirstGroup, ReadName, EndsEmpty;
    TrailingGroup(name);
    RootIsNotDotted();
    TrailingEndsEmpty(name);
    if name + [DOT] in table {
      ClosedHoldsEmpty(table, name + [DOT]);
    }
    if HasRest(name) {
      FirstTrailing(buf, table, Rest(name));
      PrefixedTwo(Part(name), Labels(Rest(name)));
    } else {
      PartOfJoined([], []);
      EmptyHeard(buf, table);
      PrefixedTwo(Part(name), []);
      assert [Part(name)] + [] == [Part(name)];
    }
  }

  lemma EmptyHeard(buf: seq<byte>, table: map<Name, nat>)
    requires [] !in table
    ensures HeardIn(buf, table, []) == Some([[], []])
  {
    PartOfJoined([], []);
    var root: seq<seq<Name>> := [[]];
    assert root + root == [[], []];
  }

  lemma PrefixedTwo(part: Name, labels: seq<Name>)
    requires part != []
    ensures Prefixed(part, Some([labels, []])) == Some([[part] + labels, []])
  {
    var heard := [labels, []];
    assert heard[0] == labels && heard[1..] == [[]];
    assert [[part] + labels] + heard[1..] == [[part] + labels, []];
  }

  /** Once it is recorded, the name is closed by a pointer and nothing follows it. */
  lemma {:induction false} LaterTrailing(buf: seq<byte>, table: map<Name, nat>, name: Name)
    requires DottedLabels(name) && [] in table
    ensures var heard := HeardIn(buf, table, name + [DOT]); heard.Some? ==> |heard.value| == 1
    decreases |name|
  {
    hide Part, HasRest, Rest, FirstDot, FirstGroup, ReadName;
    TrailingGroup(name);
    RootIsNotDotted();
    if name + [DOT] in table {
    } else if HasRest(name) {
      LaterTrailing(buf, table, Rest(name));
      PrefixedOne(Part(name), HeardIn(buf, table, Rest(name) + [DOT]), []);
    } else {
      PrefixedOne(Part(name), HeardIn(buf, table, []), []);
    }
  }

  lemma TrailingEndsEmpty(name: Name)
    requires DottedLabels(name)
    ensures EndsEmpty(name + [DOT])
  {
    DottedEnd(name);
  }

  /**
   A trailing dot, anywhere in a list: what is read of the name is the name followed
   by the root if it is the first of the list to end in an empty label, and one name
   otherwise, the given one as long as the offsets used so far fit a pointer.
   */
  lemma TrailingDot(names: seq<Name>, i: nat, name: Name)
    requires NoLabelsArePointers(names)
    requires i < |names| && names[i] == name + [DOT] && DottedLabels(name)
    ensures var buf := Compress(names).bytes;
      var start, end := |Compress(names[..i]).bytes|, |Compress(names[..i + 1]).bytes|;
      var heard := HeardIn(buf, Compress(names[..i]).table, names[i]);
      && start <= end <= |buf| && ReadNames(buf, start) == Then(heard, ReadNames(buf, end))
      && if !exists j :: 0 <= j < i && EndsEmpty(names[j]) then heard == Some([Labels(name), []])
         else
           && (heard.Some? ==> |heard.value| == 1)
           && (AllSmall(names[..i]) && OffsetsBelow(names[..i + 1], POINTER_LIMIT) ==> heard == Some([Labels(name)]))
  {
    hide HeardIn, HeardFrom, Compress, OffsetBelow, SmallLabels, NoLabelIsPointer, EndsEmpty, Labels, DottedLabels,
      SuffixClosed, ReadNames, TableRecorded, Heard;
    var table := Compress(names[..i]).table;
    HeardRead(names, i);
    HeardRead(names, i + 1);
    HeardTurn(Compress(names).bytes, names, i);
    PrefixStable(names[..i + 1], i);
    assert names[..i + 1][..i] == names[..i];
    EmptyRecorded(names[..i]);
    if j :| 0 <= j < i && EndsEmpty(names[j]) {
      assert EndsEmpty(names[..i][j]);
      LaterTrailing(Compress(names).bytes, table, name);
      if AllSmall(names[..i]) && OffsetsBelow(names[..i + 1], POINTER_LIMIT) {
        OffsetsBelowPrefix(names[..i + 1], i, POINTER_LIMIT);
        PrefixRecorded(names, i);
        TrailingGroup(name);
        assert OffsetBelow(Compress(names[..i + 1][..i]).table, names[..i + 1][i], POINTER_LIMIT);
        RecordedHeard(Compress(names).bytes, table, names[i]);
        TrailingHeard(table, name);
      }
    } else {
      FirstTrailing(Compress(names).bytes, table, name);
    }
  }

  lemma HeardAppend(names: seq<Name>, name: Name)
    ensures HeardAll(names + [name]) == HeardAll(names) + Heard(Compress(names).table, name)
  {
    hide Heard, Compress;
    assert (names + [name])[..|names|] == names;
  }

  lemma NothingHeard()
    ensures HeardAll([]) == [] && Compress([]) == Compressed([], map[])
  {
  }

  /** Two names with trailing dots: the first brings a root with it, the second does not. */
  lemma TwoTrailingDots(first: Name, second: Name)
    requires DottedLabels(first) && DottedLabels(second)
    requires |Compress([first + [DOT], second + [DOT]]).bytes| <= POINTER_LIMIT
    ensures ReadNames(Compress([first + [DOT], second + [DOT]]).bytes, 0) == Some([Labels(first), [], Labels(second)])
  {
    hide *;
    var names := [first + [DOT], second + [DOT]];
    var one := [first + [DOT]];
    BothSmall(first, second);
    ShortOutputFits(names, POINTER_LIMIT);
    ShortListHeard(names);
    NothingHeard();
    FirstEndsEmpty(first);
    HeardAppend([], first + [DOT]);
    HeardAppend(one, second + [DOT]);
    assert [] + one == one && one + [second + [DOT]] == names;
    EmptyRecorded(one);
    NoneRecorded();
    TrailingHeard(map[], first);
    TrailingHeard(Compress(one).table, second);
    assert [Labels(first), []] + [Labels(second)] == [Labels(first), [], Labels(second)];
    assert [] + [Labels(first), []] == [Labels(first), []];
  }

  lemma NoneRecorded()
    ensures SuffixClosed(map[])
  {
  }

  lemma BothSmall(first: Name, second: Name)
    requires DottedLabels(first) && DottedLabels(second)
    ensures AllSmall([first + [DOT], second + [DOT]])
  {
    hide SmallLabels, FirstGroup, Labels;
    TrailingGroup(first);
    TrailingGroup(second);
  }

  lemma FirstEndsEmpty(first: Name)
    requires DottedLabels(first)
    ensures var one := [first + [DOT]]; exists j :: 0 <= j < |one| && EndsEmpty(one[j])
  {
    DottedEnd(first);
    assert EndsEmpty([first + [DOT]][0]);
  }

  // ---- Offsets that do not fit a pointer ----

  /** A name of one label. */
  predicate OneLabel(x: Name) {
    1 <= |x| <= 63 && DOT !in x
  }

  lemma OneLabelFacts(table: map<Name, nat>, x: Name, at: nat)
    requires OneLabel(x)
    ensures DottedLabels(x) && x != ROOT && Labels(x) == [x] && !HasRest(x) && (forall s :: SuffixOf(s, x) <==> s == x)
    ensures x !in table ==> Emit(table, x, at) == Emission([|x|] + x + [0], map[x := at])
    ensures x !in table ==> OffsetBelow(table, x, 0)
  {
    hide Emit, FirstDot, Part, HasRest, Rest;
    PartOfJoined(x, []);
    RootIsNotDotted();
    EmitTurn(table, x, at);
    assert map[x := at] + map[] == map[x := at];
    assert DottedLabels(x);
  }

  lemma OffsetsAppend(names: seq<Name>, name: Name, limit: nat)
    requires OffsetsBelow(names, limit) && OffsetBelow(Compress(names).table, name, limit)
    ensures OffsetsBelow(names + [name], limit)
  {
    hide Compress, OffsetBelow;
    var all := names + [name];
    forall i | 0 <= i < |all|
      ensures OffsetBelow(Compress(all[..i]).table, all[i], limit)
    {
      assert all[..i] == names[..i];
      assert i == |names| ==> names[..i] == names;
    }
  }

  /** A name that is not recorded is recorded where it is written. */
  lemma {:induction false} AddedNoLonger(table: map<Name, nat>, name: Name, at: nat)
    ensures forall n :: n in Emit(table, name, at).added ==> |n| <= |name|
    ensures name != ROOT && name !in table ==>
      name in Emit(table, name, at).added && Emit(table, name, at).added[name] == at
    decreases |name|
  {
    hide FirstDot, Part, HasRest, Rest, Emit;
    EmitTurn(table, name, at);
    if name == ROOT || name in table || !HasRest(name) {
    } else {
      AddedNoLonger(table, Rest(name), at + 1 + |Part(name)|);
    }
  }

  lemma {:induction false} SuffixIsDotted(s: Name, name: Name)
    requires DottedLabels(name) && SuffixOf(s, name)
    ensures DottedLabels(s)
    decreases |name|
  {
    hide FirstDot, Part, HasRest, Rest;
    if s == name {
    } else {
      SuffixIsDotted(s, Rest(name));
    }
  }

  lemma KeysAreDotted(names: seq<Name>, s: Name)
    requires WellFormedNames(names) && s in Compress(names).table
    ensures DottedLabels(s)
  {
    hide DottedLabels, SuffixOf, Compress;
    TableKeys(names);
    var i :| 0 <= i < |names| && names[i] != ROOT && SuffixOf(s, names[i]);
    SuffixIsDotted(s, names[i]);
  }

  /**
   Beyond the range of a pointer the round trip fails: a new name written at an
   offset past 2^14 and then pointed to reads back as the suffix that was recorded
   at the same offset modulo 2^14, which is another one.
   */
  lemma LateSuffixMisread(names: seq<Name>, x: Name, s: Name)
    requires WellFormedNames(names) && OffsetsBelow(names, POINTER_LIMIT) && DottedLabels(x)
    requires x !in Compress(names).table && OffsetBelow(Compress(names).table, x, POINTER_LIMIT)
    requires POINTER_LIMIT <= |Compress(names).bytes| < 0x1_0000
    requires s in Compress(names).table && Compress(names).table[s] == Target(|Compress(names).bytes|)
    ensures WellFormedNames(names + [x] + [x]) && Compressible(names + [x] + [x])
    ensures ReadNames(Compress(names + [x] + [x]).bytes, 0) == Some(AllLabels(names) + [Labels(x)] + [Labels(s)])
    ensures Labels(s) != Labels(x)
  {
    hide Emit, OffsetBelow, Compress, ReadNames, ReadName, DottedLabels, Labels, AllLabels, ShortLabels, HeardIn,
      HeardFrom, HeardAll, NoLabelIsPointer, SmallLabels, Target, FirstGroup, Heard;
    var c, one, all := Compress(names), names + [x], names + [x] + [x];
    RootIsNotDotted();
    AddedNoLonger(c.table, x, |c.bytes|);
    CompressAppend(names, x);
    OffsetsAppend(names, x, POINTER_LIMIT);
    LateCompressible(one, x);
    AllWellFormedHeard(one);
    LabelsAppend(names, x);
    assert all[..|one|] == one && all[..|names|] == names;
    forall i | 0 <= i < |all|
      ensures NoLabelIsPointer(all[i])
    {
      DottedIsNoPointer(all[i]);
    }
    CompressedHeard(all);
    HeardSplit(all, |one|);
    LastLookup(all, |names|, s);
    KeysAreDotted(names, s);
    DottedHeard(map[], s);
    HeardTurn(Compress(all).bytes, all, |one|);
    NothingFrom(Compress(all).bytes, all);
    JoinLabels(s);
    JoinLabels(x);
    LookedUp(Compress(all).bytes, Compress(one).table, x);
    assert [Labels(s)] + [] == [Labels(s)];
  }

  lemma LastLookup(all: seq<Name>, k: nat, s: Name)
    requires k <= |all| && WellFormedNames(all) && OffsetsBelow(all[..k], POINTER_LIMIT)
    requires s in Compress(all[..k]).table
    ensures var buf, at := Compress(all).bytes, Compress(all[..k]).table[s];
      ReadName(buf, at, at).Some? && ReadName(buf, at, at).value.labels == FirstGroup(s)
  {
    hide Compress, OffsetBelow, ReadName, FirstGroup, SmallLabels, WellFormedName;
    AllWellFormedHeard(all[..k]);
    PrefixRecorded(all, k);
  }

  lemma LookedUp(buf: seq<byte>, table: map<Name, nat>, x: Name)
    requires x in table && x != ROOT
    ensures var read := ReadName(buf, Target(table[x]), Target(table[x]));
      HeardIn(buf, table, x) == if read.Some? then Some([read.value.labels]) else None
  {
    hide ReadName;
  }

  lemma LabelsAppend(names: seq<Name>, name: Name)
    ensures AllLabels(names + [name]) == AllLabels(names) + [Labels(name)]
  {
    hide Labels;
    assert (names + [name])[..|names|] == names;
  }

  /** One more name that points past 2^14 does not make the compressor panic. */
  lemma LateCompressible(names: seq<Name>, x: Name)
    requires WellFormedNames(names) && OffsetsBelow(names, POINTER_LIMIT) && DottedLabels(x) && x != ROOT
    requires x in Compress(names).table && Compress(names).table[x] < 0x1_0000
    ensures Compressible(names + [x])
  {
    hide Compress, OffsetBelow, ShortLabels, DottedLabels;
    WellFormedCompressible(names);
    OffsetOfKnown(Compress(names).table, x);
    OffsetsAppend(names, x, 0x1_0000);
    DottedIsShort(x);
    assert forall i :: 0 <= i < |names| ==> (names + [x])[i] == names[i];
  }

  lemma OffsetOfKnown(table: map<Name, nat>, x: Name)
    requires x in table && table[x] < 0x1_0000
    ensures OffsetBelow(table, x, 0x1_0000)
  {
  }

  /** Names of one label of 62 bytes each, all different. */
  function Filler(i: nat): Name
    requires i < 256
  {
    [64 + i / 16, 64 + i % 16] + seq(60, _ => 97)
  }

  function Fillers(k: nat): seq<Name>
    requires k <= 256
  {
    if k == 0 then [] else Fillers(k - 1) + [Filler(k - 1)]
  }

  lemma FillerLabels(i: nat, j: nat)
    requires i < 256 && j < 256
    ensures OneLabel(Filler(i)) && |Filler(i)| == 62 && Filler(i) != [120]
    ensures Filler(i) == Filler(j) ==> i == j
  {
    assert Filler(i)[0] == 64 + i / 16 && Filler(i)[1] == 64 + i % 16;
    assert Filler(j)[0] == 64 + j / 16 && Filler(j)[1] == 64 + j % 16;
  }

  /** They fill 64 bytes each, and only they are recorded. */
  lemma {:induction false} FillersCompressed(k: nat)
    requires k <= 256
    ensures |Fillers(k)| == k && WellFormedNames(Fillers(k)) && OffsetsBelow(Fillers(k), POINTER_LIMIT)
    ensures |Compress(Fillers(k)).bytes| == 64 * k
    ensures forall s :: s in Compress(Fillers(k)).table ==> exists i :: 0 <= i < k && s == Filler(i)
    ensures var table := Compress(Fillers(k)).table;
      forall i :: 0 <= i < k ==> Filler(i) in table && table[Filler(i)] == 64 * i
  {
    hide Emit, OffsetBelow, Compress, DottedLabels, Filler, OneLabel, OffsetsBelow;
    if k == 0 {
      NothingHeard();
      NoOffsets();
    } else {
      var names, x := Fillers(k - 1), Filler(k - 1);
      FillersCompressed(k - 1);
      FillerLabels(k - 1, k - 1);
      var c := Compress(names);
      forall i | 0 <= i < k - 1
        ensures Filler(i) != x
      {
        FillerLabels(i, k - 1);
      }
      OneLabelFacts(c.table, x, |c.bytes|);
      CompressAppend(names, x);
      OffsetBelowWider(c.table, x, 0, POINTER_LIMIT);
      OffsetsAppend(names, x, POINTER_LIMIT);
    }
  }

  lemma NoOffsets()
    ensures OffsetsBelow([], POINTER_LIMIT)
  {
  }

  /** A list that is compressed without a panic but reads back with a wrong last name. */
  lemma MisreadList()
    ensures var names := Fillers(256) + [[120]] + [[120]];
      && WellFormedNames(names) && Compressible(names)
      && DecodeText(Compress(names).bytes) == Some(Fillers(256) + [[120]] + [Filler(0)])
  {
    hide Compress, Fillers, Filler, WellFormedNames, OffsetsBelow, OneLabel, Compressible, ReadNames, DecodeText,
      AllLabels, Labels, Texts, DottedLabels;
    var fillers, x := Fillers(256), [120];
    FillersCompressed(256);
    var table := Compress(fillers).table;
    NewLabel(table);
    OneLabelFacts(table, x, 0);
    OffsetBelowWider(table, x, 0, POINTER_LIMIT);
    assert Filler(0) in table && table[Filler(0)] == 0;
    LateSuffixMisread(fillers, x, Filler(0));
    FillerLabels(0, 0);
    var wrong := fillers + [x] + [Filler(0)];
    OneLabelFacts(map[], x, 0);
    OneLabelFacts(map[], Filler(0), 0);
    LabelsAppend(fillers, x);
    LabelsAppend(fillers + [x], Filler(0));
    AppendWellFormed(fillers, x);
    AppendWellFormed(fillers + [x], Filler(0));
    TextsOfLabels(wrong);
    DecodedTexts(Compress(fillers + [x] + [x]).bytes);
  }

  lemma NewLabel(table: map<Name, nat>)
    requires forall s :: s in table ==> exists i :: 0 <= i < 256 && s == Filler(i)
    ensures [120] !in table && OneLabel([120])
  {
    hide Filler;
    if [120] in table {
      var i :| 0 <= i < 256 && [120] == Filler(i);
      FillerLabels(i, i);
    }
  }

  lemma AppendWellFormed(names: seq<Name>, x: Name)
    requires WellFormedNames(names) && DottedLabels(x)
    ensures WellFormedNames(names + [x])
  {
    hide DottedLabels;
  }

  lemma DecodedTexts(buf: seq<byte>)
    requires ReadNames(buf, 0).Some?
    ensures DecodeText(buf) == Texts(ReadNames(buf, 0).value)
  {
    hide ReadNames, Texts;
  }
}
