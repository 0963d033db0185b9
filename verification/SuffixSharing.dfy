/**
 How well the compressor compresses: it replaces the longest suffix of a name that
 an earlier name ends in, and its output is never longer than the plain encoding.
 */
module SuffixSharing {
  import opened Wrappers
  import opened Bytes
  import opened DomainNames

  // ---- The longest shared suffix is replaced ----

  /** `s` is what is left of `name` after its first `k` labels. */
  function Suffix(name: Name, k: nat): Option<Name> {
    if k == 0 then Some(name) else if HasRest(name) then Suffix(Rest(name), k - 1) else None
  }

  predicate SuffixOf(s: Name, name: Name)
    decreases |name|
  {
    s == name || (HasRest(name) && SuffixOf(s, Rest(name)))
  }

  predicate SharedSuffix(s: Name, names: seq<Name>) {
    exists i :: 0 <= i < |names| && names[i] != ROOT && SuffixOf(s, names[i])
  }

  /** With a name, its suffixes are recorded too, but for the root, which never is. */
  predicate SuffixClosed(table: map<Name, nat>) {
    forall n :: n in table && HasRest(n) && Rest(n) != ROOT ==> Rest(n) in table
  }

  lemma {:induction false} ClosedHoldsSuffixes(table: map<Name, nat>, s: Name, name: Name)
    requires SuffixClosed(table) && name in table && DottedLabels(name) && SuffixOf(s, name)
    ensures s in table
    decreases |name|
  {
    hide FirstDot, Part, HasRest, Rest;
    if s == name {
    } else {
      RootIsNotDotted();
      ClosedHoldsSuffixes(table, s, Rest(name));
    }
  }

  /** A name adds exactly its own suffixes to the table, which stays suffix-closed. */
  lemma {:induction false} EmitKeys(table: map<Name, nat>, name: Name, at: nat)
    requires SuffixClosed(table) && DottedLabels(name)
    ensures var all := table + Emit(table, name, at).added;
      SuffixClosed(all) && name in all && forall s :: s in all <==> s in table || SuffixOf(s, name)
    decreases |name|
  {
    hide FirstDot, Part, HasRest, Rest, Emit;
    var all := table + Emit(table, name, at).added;
    RootIsNotDotted();
    EmitTurn(table, name, at);
    if name in table {
      forall s | SuffixOf(s, name) ensures s in table {
        ClosedHoldsSuffixes(table, s, name);
      }
    } else if HasRest(name) {
      EmitKeys(table, Rest(name), at + 1 + |Part(name)|);
    }
  }

  /** The table holds exactly the suffixes of the names compressed so far. */
  lemma {:induction false} TableKeys(names: seq<Name>)
    requires WellFormedNames(names)
    ensures SuffixClosed(Compress(names).table)
    ensures forall s :: s in Compress(names).table <==> SharedSuffix(s, names)
  {
    hide Emit, SuffixOf, FirstDot, Part, HasRest, Rest;
    if names == [] {
    } else {
      var n := |names| - 1;
      var c, name := Compress(names[..n]), names[n];
      TableKeys(names[..n]);
      if name == ROOT {
        EmitRoot(c.table, |c.bytes|);
      } else {
        EmitKeys(c.table, name, |c.bytes|);
      }
      forall s
        ensures SharedSuffix(s, names) <==> SharedSuffix(s, names[..n]) || (name != ROOT && SuffixOf(s, name))
      {
        SharedByLast(s, names);
      }
    }
  }

  lemma EmitRoot(table: map<Name, nat>, at: nat)
    ensures Emit(table, ROOT, at) == Emission([0], map[]) && table + map[] == table
  {
  }

  lemma SharedByLast(s: Name, names: seq<Name>)
    requires names != []
    ensures var n := |names| - 1;
      SharedSuffix(s, names) <==> SharedSuffix(s, names[..n]) || (names[n] != ROOT && SuffixOf(s, names[n]))
  {
    hide SuffixOf, FirstDot, Part, HasRest, Rest;
    var n := |names| - 1;
    if SharedSuffix(s, names[..n]) {
      var i :| 0 <= i < n && names[..n][i] != ROOT && SuffixOf(s, names[..n][i]);
      assert names[i] != ROOT && SuffixOf(s, names[i]);
    }
    if SharedSuffix(s, names) {
      var i :| 0 <= i < |names| && names[i] != ROOT && SuffixOf(s, names[i]);
      if i < n {
        assert names[..n][i] == names[i];
      }
    }
  }

  /** How many labels are written out before a pointer or the closing zero. */
  function Literals(table: map<Name, nat>, name: Name): nat
    decreases |name|
  {
    if name == ROOT || name in table then 0
    else 1 + if HasRest(name) then Literals(table, Rest(name)) else 0
  }

  function LabelBytes(labels: seq<Name>): seq<byte> {
    if labels == [] then [] else [|labels[0]| % 256] + labels[0] + LabelBytes(labels[1..])
  }

  lemma {:induction false} LiteralsAreNew(table: map<Name, nat>, name: Name)
    requires WellFormedName(name)
    ensures Literals(table, name) <= |Labels(name)|
    ensures forall j :: 0 <= j < Literals(table, name) ==> Suffix(name, j).Some? && Suffix(name, j).value !in table
    decreases |name|
  {
    hide FirstDot, Part, HasRest, Rest;
    if name == ROOT || name in table || !HasRest(name) {
    } else {
      LiteralsAreNew(table, Rest(name));
      forall j | 0 < j <= Literals(table, name)
        ensures Suffix(name, j) == Suffix(Rest(name), j - 1)
      {
      }
    }
  }

  lemma LabelBytesFirst(labels: seq<Name>, k: nat)
    requires 0 < k <= |labels|
    ensures LabelBytes(labels[..k]) == [|labels[0]| % 256] + labels[0] + LabelBytes(labels[1..][..k - 1])
  {
    assert labels[..k][0] == labels[0] && labels[..k][1..] == labels[1..][..k - 1];
  }

  /** What closes the bytes of a name: a pointer to its first suffix in the table, or the zero octet. */
  function Ending(table: map<Name, nat>, name: Name): seq<byte>
    decreases |name|
  {
    if name == ROOT then [0]
    else if name in table then Pointer(table[name])
    else if HasRest(name) then Ending(table, Rest(name))
    else [0]
  }

  lemma {:induction false} EndingIsFirstShared(table: map<Name, nat>, name: Name)
    requires WellFormedName(name)
    ensures var k := Literals(table, name);
      if k < |Labels(name)| then Suffix(name, k).Some? && Suffix(name, k).value in table
        && Ending(table, name) == Pointer(table[Suffix(name, k).value])
      else Ending(table, name) == [0]
    decreases |name|
  {
    hide Pointer, FirstDot, Part, HasRest, Rest;
    if name == ROOT || name in table || !HasRest(name) {
    } else {
      EndingIsFirstShared(table, Rest(name));
      assert Suffix(name, Literals(table, name)) == Suffix(Rest(name), Literals(table, Rest(name)));
    }
  }

  /** Literal labels up to the first suffix in the table, then the ending. */
  lemma {:induction false} EmitShape(table: map<Name, nat>, name: Name, at: nat)
    requires WellFormedName(name)
    ensures Literals(table, name) <= |Labels(name)|
    ensures Emit(table, name, at).bytes == LabelBytes(Labels(name)[..Literals(table, name)]) + Ending(table, name)
    decreases |name|
  {
    hide Pointer, Emit, LabelBytes, Part, FirstDot, HasRest, Rest;
    var k := Literals(table, name);
    EmitTurn(table, name, at);
    NoLabelBytes();
    if name == ROOT || name in table {
    } else {
      var head: seq<byte> := [|Part(name)| % 256] + Part(name);
      if HasRest(name) {
        EmitShape(table, Rest(name), at + |head|);
        assert Labels(name)[1..] == Labels(Rest(name));
        var more := LabelBytes(Labels(Rest(name))[..k - 1]);
        assert head + (more + Ending(table, name)) == (head + more) + Ending(table, name);
      }
      LabelBytesFirst(Labels(name), k);
    }
  }

  lemma NoLabelBytes()
    ensures LabelBytes([]) == []
  {
  }

  /**
   Suffix-optimal: each name is written as its leading labels and a pointer to
   the longest of its suffixes that some earlier name ends in, at an offset
   before the name; without such a suffix all labels and a zero octet are written.
   */
  lemma SuffixOptimal(names: seq<Name>, i: nat)
    requires i < |names| && WellFormedNames(names)
    ensures var c, name := Compress(names[..i]), names[i];
      var k := Literals(c.table, name);
      && k <= |Labels(name)|
      && (forall j :: 0 <= j < k ==> Suffix(name, j).Some? && !SharedSuffix(Suffix(name, j).value, names[..i]))
      && (k < |Labels(name)| ==>
            Suffix(name, k).Some? && SharedSuffix(Suffix(name, k).value, names[..i])
            && Suffix(name, k).value in c.table && c.table[Suffix(name, k).value] < |c.bytes|)
      && Compress(names[..i + 1]).bytes == c.bytes + (LabelBytes(Labels(name)[..k])
           + if k < |Labels(name)| then Pointer(c.table[Suffix(name, k).value]) else [0])
  {
    hide Ending, Emit, Suffix, Labels, LabelBytes, SharedSuffix, Literals, Pointer, WellFormedName, FirstDot, Part,
      HasRest, Rest;
    var c := Compress(names[..i]);
    TableKeys(names[..i]);
    TableBelowLength(names[..i]);
    LiteralsAreNew(c.table, names[i]);
    EndingIsFirstShared(c.table, names[i]);
    EmitShape(c.table, names[i], |c.bytes|);
    assert names[..i + 1][..i] == names[..i];
  }

  // ---- Never longer than the plain encoding ----

  function Plain(name: Name): seq<byte> {
    LabelBytes(Labels(name)) + [0]
  }

  function PlainAll(names: seq<Name>): seq<byte> {
    if names == [] then [] else PlainAll(names[..|names| - 1]) + Plain(names[|names| - 1])
  }

  /** Some name of the list is shortened by a pointer. */
  predicate UsesPointer(names: seq<Name>) {
    exists i :: 0 <= i < |names| && Literals(Compress(names[..i]).table, names[i]) < |Labels(names[i])|
  }

  lemma {:induction false} LabelBytesSplit(labels: seq<Name>, k: nat)
    requires k <= |labels|
    ensures LabelBytes(labels) == LabelBytes(labels[..k]) + LabelBytes(labels[k..])
  {
    if k == 0 {
      assert labels[0..] == labels;
    } else {
      LabelBytesSplit(labels[1..], k - 1);
      assert labels[..k][0] == labels[0];
      assert labels[..k][1..] == labels[1..][..k - 1] && labels[1..][k - 1..] == labels[k..];
      var head: seq<byte> := [|labels[0]| % 256] + labels[0];
      assert head + (LabelBytes(labels[..k][1..]) + LabelBytes(labels[k..]))
          == (head + LabelBytes(labels[..k][1..])) + LabelBytes(labels[k..]);
    }
  }

  lemma EmitNoLonger(table: map<Name, nat>, name: Name, at: nat)
    requires WellFormedName(name)
    ensures |Emit(table, name, at).bytes| <= |Plain(name)|
    ensures |Emit(table, name, at).bytes| == |Plain(name)| <==> Literals(table, name) == |Labels(name)|
  {
    hide Emit, Literals, Ending, FirstDot, Part, HasRest, Rest;
    var k, labels := Literals(table, name), Labels(name);
    EmitShape(table, name, at);
    EndingIsFirstShared(table, name);
    LabelBytesSplit(labels, k);
    if k < |labels| {
      JoinLabels(name);
      assert LabelBytes(labels[k..]) == [|labels[k]| % 256] + labels[k] + LabelBytes(labels[k..][1..]);
    } else {
      assert labels[..k] == labels && labels[k..] == [];
    }
  }

  /** Compressed output is never longer than the plain encoding, and shorter exactly when a pointer is used. */
  lemma {:induction false} NeverLonger(names: seq<Name>)
    requires WellFormedNames(names)
    ensures |Compress(names).bytes| <= |PlainAll(names)|
    ensures |Compress(names).bytes| < |PlainAll(names)| <==> UsesPointer(names)
  {
    hide Emit, Literals, Labels, Plain, WellFormedName, FirstDot, Part, HasRest, Rest;
    if names == [] {
    } else {
      var n := |names| - 1;
      var c := Compress(names[..n]);
      NeverLonger(names[..n]);
      EmitNoLonger(c.table, names[n], |c.bytes|);
      EmitShape(c.table, names[n], |c.bytes|);
      UsesPointerByLast(names);
    }
  }

  lemma UsesPointerByLast(names: seq<Name>)
    requires names != []
    ensures var n := |names| - 1;
      UsesPointer(names) <==>
        UsesPointer(names[..n]) || Literals(Compress(names[..n]).table, names[n]) < |Labels(names[n])|
  {
    hide Literals, Labels, Compress, FirstDot, Part, HasRest, Rest;
    var n := |names| - 1;
    forall i | 0 <= i < n
      ensures names[..n][..i] == names[..i] && names[..n][i] == names[i]
    {
    }
    if UsesPointer(names[..n]) {
      var i :| 0 <= i < n && Literals(Compress(names[..n][..i]).table, names[..n][i]) < |Labels(names[..n][i])|;
      assert Literals(Compress(names[..i]).table, names[i]) < |Labels(names[i])|;
    }
    if UsesPointer(names) {
      var i :| 0 <= i < |names| && Literals(Compress(names[..i]).table, names[i]) < |Labels(names[i])|;
      if i < n {
        assert Literals(Compress(names[..n][..i]).table, names[..n][i]) < |Labels(names[..n][i])|;
      }
    }
  }
}
