/** Label sets and their binary form (lfm.c, lfm_binary_parser.c): a name and labels, written
    as NUL-separated strings. */
module LfmBinary {
  import opened Basics
  import opened Bytes
  import opened ItemOrder

  datatype Label = Label(key: seq<Byte>, value: seq<Byte>)

  /** A missing name is a NULL pointer in C. */
  datatype Lfm = Lfm(name: Option<seq<Byte>>, labels: seq<Label>)

  function NameOf(lfm: Lfm): seq<Byte> { if lfm.name.None? then [] else lfm.name.value }

  /** Equal, a NULL name counting as an empty one. */
  predicate SameLfm(a: Lfm, b: Lfm) { NameOf(a) == NameOf(b) && a.labels == b.labels }

  /** All parts are C strings. */
  ghost predicate CStrings(lfm: Lfm)
  {
    0 !in NameOf(lfm) && forall i :: 0 <= i < |lfm.labels| ==> 0 !in lfm.labels[i].key && 0 !in lfm.labels[i].value
  }

  // ----- lfm_sort_labels -----

  ghost predicate SortedKeys(ls: seq<Label>)
  {
    forall i, j :: 0 <= i < j < |ls| ==> LexCmp(ls[i].key, ls[j].key) <= 0
  }

  ghost predicate StrictKeys(ls: seq<Label>)
  {
    forall i, j :: 0 <= i < j < |ls| ==> LexCmp(ls[i].key, ls[j].key) < 0
  }

  function InsertLabel(x: Label, ls: seq<Label>): (r: seq<Label>)
    ensures multiset(r) == multiset(ls) + multiset{x}
  {
    if ls == [] || LexCmp(x.key, ls[0].key) <= 0 then [x] + ls
    else
      assert ls == [ls[0]] + ls[1..];
      [ls[0]] + InsertLabel(x, ls[1..])
  }

  /** One of the orders qsort may leave: sorted by key, the same labels. */
  function SortLabels(ls: seq<Label>): (r: seq<Label>)
    ensures multiset(r) == multiset(ls)
  {
    if ls == [] then []
    else
      assert ls == [ls[0]] + ls[1..];
      InsertLabel(ls[0], SortLabels(ls[1..]))
  }

  lemma {:induction false} InsertSorted(x: Label, ls: seq<Label>)
    requires SortedKeys(ls)
    ensures SortedKeys(InsertLabel(x, ls))
  {
    var r := InsertLabel(x, ls);
    if ls == [] {
    } else if LexCmp(x.key, ls[0].key) <= 0 {
      forall j | 0 <= j < |ls| ensures LexCmp(x.key, ls[j].key) <= 0 {
        if j > 0 { LexTransitive(x.key, ls[0].key, ls[j].key); }
      }
    } else {
      var t := InsertLabel(x, ls[1..]);
      InsertSorted(x, ls[1..]);
      LexAntisymmetric(x.key, ls[0].key);
      forall j | 0 <= j < |t| ensures LexCmp(ls[0].key, t[j].key) <= 0 {
        assert t[j] in multiset(t);
        assert t[j] == x || t[j] in ls[1..];
        LexAntisymmetric(ls[0].key, x.key);
      }
    }
  }

  lemma {:induction false} SortLabelsSorts(ls: seq<Label>)
    ensures SortedKeys(SortLabels(ls))
  {
    if ls != [] {
      SortLabelsSorts(ls[1..]);
      InsertSorted(ls[0], SortLabels(ls[1..]));
    }
  }

  /** Strictly sorted labels are left as they are. */
  lemma {:induction false} SortedAlready(ls: seq<Label>)
    requires StrictKeys(ls)
    ensures SortLabels(ls) == ls
  {
    if ls != [] {
      SortedAlready(ls[1..]);
      assert ls == [ls[0]] + ls[1..];
    }
  }

  // ----- the binary form -----

  /** A label is written as NUL, key, NUL, value. */
  function OneLabel(l: Label): seq<Byte> { [0] + l.key + [0] + l.value }

  function LabelBytes(ls: seq<Label>): seq<Byte>
  {
    if ls == [] then [] else OneLabel(ls[0]) + LabelBytes(ls[1..])
  }

  function EncodedBinary(lfm: Lfm): seq<Byte> { NameOf(lfm) + LabelBytes(lfm.labels) }

  /** memcpy to a place in the buffer. */
  method Put(buf: array<Byte>, pos: nat, bytes: seq<Byte>)
    requires pos + |bytes| <= buf.Length
    modifies buf
    ensures buf[..pos + |bytes|] == old(buf[..pos]) + bytes
  {
    forall i | 0 <= i < |bytes| { buf[pos + i] := bytes[i]; }
    assert buf[..pos] == old(buf[..pos]);
  }

  /** The bytes the first loop of encode_binary_lfm counts. */
  function LabelRoom(ls: seq<Label>): nat
  {
    if ls == [] then 0 else 2 + |ls[0].key| + |ls[0].value| + LabelRoom(ls[1..])
  }

  lemma {:induction false} LabelBytesConcat(a: seq<Label>, b: seq<Label>)
    ensures LabelBytes(a + b) == LabelBytes(a) + LabelBytes(b)
  {
    hide OneLabel;
    if a == [] {
      assert a + b == b;
    } else {
      assert (a + b)[0] == a[0] && (a + b)[1..] == a[1..] + b;
      LabelBytesConcat(a[1..], b);
    }
  }

  lemma {:induction false} LabelBytesRoom(ls: seq<Label>)
    ensures |LabelBytes(ls)| == LabelRoom(ls)
  {
    if ls != [] { LabelBytesRoom(ls[1..]); }
  }

  lemma LabelBytesAt(ls: seq<Label>, i: nat)
    requires i < |ls|
    ensures LabelBytes(ls[..i + 1]) == LabelBytes(ls[..i]) + OneLabel(ls[i])
    ensures |LabelBytes(ls[..i + 1])| <= |LabelBytes(ls)|
  {
    LabelBytesConcat(ls[..i], [ls[i]]);
    LabelBytesConcat(ls[..i + 1], ls[i + 1..]);
    assert ls[..i + 1] == ls[..i] + [ls[i]] && ls == ls[..i + 1] + ls[i + 1..];
    assert LabelBytes([ls[i]]) == OneLabel(ls[i]) + LabelBytes([]);
    hide OneLabel;
  }

  /** encode_binary_lfm: the buffer it sized beforehand is filled exactly. */
  method EncodeBinary(lfm: Lfm) returns (buf: array<Byte>)
    ensures fresh(buf) && buf[..] == EncodedBinary(lfm)
  {
    hide LabelBytes, LabelRoom, OneLabel;
    var ls := lfm.labels;
    LabelBytesRoom(ls);
    var m := |NameOf(lfm)| + LabelRoom(ls);
    buf := new Byte[m];
    var t := 0;
    if lfm.name.Some? {
      Put(buf, 0, lfm.name.value);
      t := |lfm.name.value|;
    }
    NoLabelBytes(ls[..0]);
    ghost var text := NameOf(lfm);
    assert buf[..t] == text;
    var i := 0;
    while i < |ls|
      invariant 0 <= i <= |ls| && t == |text| <= m && text == NameOf(lfm) + LabelBytes(ls[..i])
      invariant buf[..t] == text
    {
      LabelBytesAt(ls, i);
      text := text + OneLabel(ls[i]);
      OneLabelRoom(ls[i]);
      t := PutLabel(buf, t, ls[i]);
      i := i + 1;
    }
    assert ls[..i] == ls;
    assert buf[..m] == buf[..];
  }

  lemma OneLabelRoom(l: Label)
    ensures |OneLabel(l)| == 2 + |l.key| + |l.value|
  {
  }

  lemma NoLabelBytes(ls: seq<Label>)
    requires ls == []
    ensures LabelBytes(ls) == []
  {
  }

  method PutLabel(buf: array<Byte>, pos: nat, l: Label) returns (t: nat)
    requires pos + 2 + |l.key| + |l.value| <= buf.Length
    modifies buf
    ensures t == pos + 2 + |l.key| + |l.value| && buf[..t] == old(buf[..pos]) + OneLabel(l)
  {
    t := pos;
    Put(buf, t, [0]);
    t := t + 1;
    Put(buf, t, l.key);
    t := t + |l.key|;
    Put(buf, t, [0]);
    t := t + 1;
    Put(buf, t, l.value);
    t := t + |l.value|;
  }

  // ----- parsing -----

  /** The NUL-terminated parts of a string; the last one needs no terminator. */
  function Parts(s: seq<Byte>): seq<seq<Byte>>
    decreases |s|
  {
    if s == [] then []
    else
      var l := |CString(s)|;
      [CString(s)] + (if l + 1 <= |s| then Parts(s[l + 1..]) else [])
  }

  /** What parse_binary_lfm has gathered: the name, finished labels, and a key still without
      its value. */
  datatype Draft = Draft(name: Option<seq<Byte>>, labels: seq<Label>, key: Option<seq<Byte>>)

  function TakePart(d: Draft, t: seq<Byte>): Draft
  {
    if d.name.None? then d.(name := Some(t))
    else if d.key.None? then d.(key := Some(t))
    else Draft(d.name, d.labels + [Label(d.key.value, t)], None)
  }

  function Folded(parts: seq<seq<Byte>>): Draft
  {
    if parts == [] then Draft(None, [], None) else TakePart(Folded(parts[..|parts| - 1]), parts[|parts| - 1])
  }

  function ParsedBinary(s: seq<Byte>): Option<Lfm>
  {
    var d := Folded(Parts(s));
    if d.key.Some? then None else Some(Lfm(d.name, SortLabels(d.labels)))
  }

  /** maxstrlen */
  method MaxStrLen(s: seq<Byte>, from: nat) returns (l: nat)
    requires from <= |s|
    ensures l == |CString(s[from..])| && from + l <= |s| && s[from..from + l] == CString(s[from..])
  {
    hide CString;
    l := 0;
    ghost var want := CString(s[from..]);
    assert s[from..from] == [];
    while from + l < |s| && s[from + l] != 0
      invariant from + l <= |s| && want == s[from..from + l] + CString(s[from + l..])
    {
      CStringAt(s, from + l);
      assert s[from..from + l + 1] == s[from..from + l] + [s[from + l]];
      l := l + 1;
    }
    CStringAt(s, from + l);
    assert want == s[from..from + l];
  }

  lemma CStringAt(s: seq<Byte>, i: nat)
    requires i <= |s|
    ensures CString(s[i..]) == if i == |s| || s[i] == 0 then [] else [s[i]] + CString(s[i + 1..])
  {
    assert i < |s| ==> s[i..][1..] == s[i + 1..];
  }

  /** parse_binary_lfm */
  method ParseBinary(s: seq<Byte>) returns (r: Option<Lfm>)
    ensures r == ParsedBinary(s)
  {
    hide CString, SortLabels, Parts, Folded;
    var pos, i := 0, 0;
    var name, key: Option<seq<Byte>> := None, None;
    var labels: seq<Label> := [];
    ghost var done: seq<seq<Byte>> := [];
    assert s[0..] == s;
    NothingFolded();
    while pos < |s|
      invariant Parts(s) == done + if pos < |s| then Parts(s[pos..]) else []
      invariant Draft(name, labels, key) == Folded(done)
      invariant (i == 0 <==> name.None?) && (key.Some? <==> i > 0 && i % 2 == 0)
      decreases |s| - pos
    {
      var l := MaxStrLen(s, pos);
      var t := s[pos..pos + l];
      NextPart(s, pos);
      FoldStep(done, t);
      if i == 0 {
        name := Some(t);
      } else if i % 2 == 1 {
        key := Some(t);
      } else {
        labels := labels + [Label(key.value, t)];
        key := None;
      }
      done := done + [t];
      pos := pos + l + 1;
      i := i + 1;
    }
    assert Parts(s) == done;
    if key.Some? { return None; }
    r := Some(Lfm(name, SortLabels(labels)));
  }

  lemma NothingFolded()
    ensures Parts([]) == [] && Folded([]) == Draft(None, [], None) && SortLabels([]) == []
  {
  }

  lemma NextPart(s: seq<Byte>, pos: nat)
    requires pos < |s|
    ensures var l := |CString(s[pos..])|;
      Parts(s[pos..]) == [CString(s[pos..])] + if pos + l + 1 < |s| then Parts(s[pos + l + 1..]) else []
  {
    var l := |CString(s[pos..])|;
    assert pos + l + 1 <= |s| ==> s[pos..][l + 1..] == s[pos + l + 1..];
    NothingFolded();
  }

  lemma FoldStep(done: seq<seq<Byte>>, t: seq<Byte>)
    ensures Folded(done + [t]) == TakePart(Folded(done), t)
  {
    assert (done + [t])[..|done|] == done;
  }

  // ----- the round trip -----

  /** Parts separated by NULs. */
  function Joined(parts: seq<seq<Byte>>): seq<Byte>
    requires parts != []
  {
    if |parts| == 1 then parts[0] else parts[0] + [0] + Joined(parts[1..])
  }

  /** Keys and values in turn. */
  function Flat(ls: seq<Label>): seq<seq<Byte>>
  {
    if ls == [] then [] else Flat(ls[..|ls| - 1]) + [ls[|ls| - 1].key, ls[|ls| - 1].value]
  }

  lemma {:induction false} CStringPrefix(p: seq<Byte>, rest: seq<Byte>)
    requires 0 !in p && (rest == [] || rest[0] == 0)
    ensures CString(p + rest) == p
  {
    if p != [] {
      CStringPrefix(p[1..], rest);
      assert (p + rest)[1..] == p[1..] + rest && p == [p[0]] + p[1..];
    } else {
      assert p + rest == rest;
    }
  }

  /** Splitting joined parts gives them back, save an empty last one. */
  lemma {:induction false} PartsJoined(parts: seq<seq<Byte>>)
    requires parts != [] && forall i :: 0 <= i < |parts| ==> 0 !in parts[i]
    ensures Parts(Joined(parts)) == if parts[|parts| - 1] != [] then parts else parts[..|parts| - 1]
  {
    hide CString, Parts;
    var p, s := parts[0], Joined(parts);
    if |parts| == 1 {
      CStringPrefix(p, []);
      assert p + [] == p;
      OnePart(p);
    } else {
      var j := Joined(parts[1..]);
      PartsJoined(parts[1..]);
      CStringPrefix(p, [0] + j);
      assert s == p + ([0] + j);
      PartsStep(s, p, j);
      assert parts == [p] + parts[1..];
    }
  }

  lemma OnePart(p: seq<Byte>)
    requires CString(p) == p
    ensures Parts(p) == if p == [] then [] else [p]
  {
    hide CString;
  }

  lemma PartsStep(s: seq<Byte>, p: seq<Byte>, j: seq<Byte>)
    requires s == p + ([0] + j) && CString(s) == p
    ensures Parts(s) == [p] + Parts(j)
  {
    hide CString;
    assert s[|p| + 1..] == j;
  }

  lemma {:induction false} JoinedAppend(a: seq<seq<Byte>>, b: seq<seq<Byte>>)
    requires a != [] && b != []
    ensures Joined(a + b) == Joined(a) + [0] + Joined(b)
  {
    if |a| == 1 {
      assert (a + b)[1..] == b;
    } else {
      assert (a + b)[1..] == a[1..] + b;
      JoinedAppend(a[1..], b);
    }
  }

  lemma {:induction false} EncodedJoins(name: seq<Byte>, ls: seq<Label>)
    ensures name + LabelBytes(ls) == Joined([name] + Flat(ls))
    decreases |ls|
  {
    hide OneLabel, LabelBytes, Joined, Flat;
    if ls == [] {
      FlatLast(ls);
      assert [name] + Flat(ls) == [name];
      JoinedOne(name);
      NoLabelBytes(ls);
    } else {
      var n := |ls| - 1;
      var (k, v) := (ls[n].key, ls[n].value);
      EncodedJoins(name, ls[..n]);
      LabelBytesAt(ls, n);
      assert ls[..n + 1] == ls;
      var f := [name] + Flat(ls[..n]);
      JoinedLabel(f, ls[n]);
      FlatLast(ls);
      assert [name] + Flat(ls) == f + [k, v];
      assert name + LabelBytes(ls) == (name + LabelBytes(ls[..n])) + OneLabel(ls[n]);
    }
  }

  lemma JoinedOne(name: seq<Byte>)
    ensures Joined([name]) == name
  {
  }

  lemma FlatLast(ls: seq<Label>)
    ensures ls == [] ==> Flat(ls) == []
    ensures ls != [] ==> Flat(ls) == Flat(ls[..|ls| - 1]) + [ls[|ls| - 1].key, ls[|ls| - 1].value]
  {
  }

  lemma JoinedLabel(f: seq<seq<Byte>>, l: Label)
    requires f != []
    ensures Joined(f + [l.key, l.value]) == Joined(f) + OneLabel(l)
  {
    JoinedAppend(f, [l.key, l.value]);
    assert [l.key, l.value][1..] == [l.value];
    assert Joined([l.key, l.value]) == l.key + [0] + l.value;
    assert OneLabel(l) == [0] + (l.key + [0] + l.value);
  }

  lemma {:induction false} FlatPairs(name: seq<Byte>, ls: seq<Label>)
    ensures Folded([name] + Flat(ls)) == Draft(Some(name), ls, None)
    ensures ls != [] ==> Folded([name] + Flat(ls)[..|Flat(ls)| - 1]).key.Some?
    decreases |ls|
  {
    hide Folded;
    NothingFolded();
    if ls == [] {
      FoldStep([], name);
      assert [name] + Flat(ls) == [] + [name];
    } else {
      var n := |ls| - 1;
      var f, k, v := [name] + Flat(ls[..n]), ls[n].key, ls[n].value;
      FlatPairs(name, ls[..n]);
      FoldStep(f, k);
      FoldStep(f + [k], v);
      assert [name] + Flat(ls) == f + [k] + [v];
      assert [name] + Flat(ls)[..|Flat(ls)| - 1] == f + [k];
      assert ls == ls[..n] + [Label(k, v)];
    }
  }

  lemma {:induction false} FlatParts(ls: seq<Label>)
    requires forall i :: 0 <= i < |ls| ==> 0 !in ls[i].key && 0 !in ls[i].value
    ensures |Flat(ls)| == 2 * |ls| && forall i :: 0 <= i < |Flat(ls)| ==> 0 !in Flat(ls)[i]
    ensures ls != [] ==> Flat(ls)[|Flat(ls)| - 1] == ls[|ls| - 1].value
    decreases |ls|
  {
    if ls != [] { FlatParts(ls[..|ls| - 1]); }
  }

  /** A label set as the parsers return it: labels sorted, a NULL name read as an empty one. */
  predicate ReadsAs(r: Lfm, lfm: Lfm) { NameOf(r) == NameOf(lfm) && r.labels == SortLabels(lfm.labels) }

  /** With strictly sorted keys that is the label set itself. */
  lemma ReadsAsItself(r: Lfm, lfm: Lfm)
    requires StrictKeys(lfm.labels)
    ensures ReadsAs(r, lfm) <==> SameLfm(r, lfm)
  {
    SortedAlready(lfm.labels);
  }

  /** Parsing what was encoded gives the label set back, sorted, exactly when it does not end in
      a label with an empty value; with such a label the parser refuses its own encoding. */
  lemma BinaryRoundTrip(lfm: Lfm)
    requires CStrings(lfm)
    ensures var r := ParsedBinary(EncodedBinary(lfm));
      && ((r.Some? && ReadsAs(r.value, lfm)) <==> (lfm.labels == [] || lfm.labels[|lfm.labels| - 1].value != []))
      && (r.None? <==> lfm.labels != [] && lfm.labels[|lfm.labels| - 1].value == [])
  {
    hide Parts, Joined, Folded, SortLabels, LabelBytes, Flat;
    var ls, name := lfm.labels, NameOf(lfm);
    var f := Flat(ls);
    var parts := [name] + f;
    EncodedJoins(name, ls);
    FlatParts(ls);
    PartsJoined(parts);
    FlatPairs(name, ls);
    NothingFolded();
    if ls != [] {
      assert parts[..|parts| - 1] == [name] + f[..|f| - 1];
    } else {
      assert parts[..0] == [];
    }
  }

  // ----- what else the parser accepts -----

  /** With a terminator behind it, every encoding is read back. */
  lemma TerminatedReads(lfm: Lfm)
    requires CStrings(lfm)
    ensures var r := ParsedBinary(EncodedBinary(lfm) + [0]); r.Some? && ReadsAs(r.value, lfm)
  {
    hide Parts, Joined, Folded, SortLabels, LabelBytes, Flat;
    var ls, name := lfm.labels, NameOf(lfm);
    var parts, none := [name] + Flat(ls), [[]];
    EncodedJoins(name, ls);
    FlatParts(ls);
    JoinedAppend(parts, none);
    JoinedOne([]);
    PartsJoined(parts + none);
    assert (parts + none)[..|parts|] == parts;
    assert Joined(parts + none) == EncodedBinary(lfm) + [0] + [] == EncodedBinary(lfm) + [0];
    FlatPairs(name, ls);
  }

  lemma {:induction false} CStringExact(s: seq<Byte>)
    ensures var l := |CString(s)|; l <= |s| && CString(s) == s[..l] && 0 !in CString(s) && (l < |s| ==> s[l] == 0)
  {
    if s != [] && s[0] != 0 {
      CStringExact(s[1..]);
      assert CString(s) == [s[0]] + CString(s[1..]);
      assert s == [s[0]] + s[1..];
    }
  }

  /** Joining the parts of a string gives it back, but for a NUL at its end. */
  lemma {:induction false} JoinedParts(s: seq<Byte>)
    requires s != []
    ensures Parts(s) != [] && forall i :: 0 <= i < |Parts(s)| ==> 0 !in Parts(s)[i]
    ensures s == Joined(Parts(s)) || s == Joined(Parts(s)) + [0]
    decreases |s|
  {
    hide CString;
    CStringExact(s);
    var p := CString(s);
    assert s[0..] == s;
    NextPart(s, 0);
    if |p| + 1 < |s| {
      var rest := s[|p| + 1..];
      JoinedParts(rest);
      assert s == p + [0] + rest;
      assert Parts(s)[1..] == Parts(rest);
    } else {
      assert Parts(s) == [p];
      if |p| < |s| { assert s == p + [0]; } else { assert s == p; }
    }
  }

  /** The parts a draft was gathered from. */
  lemma {:induction false} FoldedParts(parts: seq<seq<Byte>>)
    requires parts != []
    ensures var d := Folded(parts);
      d.name.Some? && parts == [d.name.value] + Flat(d.labels) + (if d.key.Some? then [d.key.value] else [])
    decreases |parts|
  {
    hide Flat, Folded;
    var init, t := parts[..|parts| - 1], parts[|parts| - 1];
    assert parts == init + [t];
    NothingFolded();
    FoldStep(init, t);
    var d := Folded(parts);
    FlatLast(d.labels);
    if init == [] {
      assert d == Draft(Some(t), [], None);
    } else {
      FoldedParts(init);
      var e := Folded(init);
      if e.key.Some? {
        assert d.labels == e.labels + [Label(e.key.value, t)] && d.labels[..|d.labels| - 1] == e.labels;
      }
    }
  }

  /** Whatever the parser accepts is the encoding of the label set it returns, with or without a
      terminator; the empty string stands for no name and no labels. */
  lemma BinarySound(s: seq<Byte>) returns (lfm: Lfm)
    requires ParsedBinary(s).Some?
    ensures CStrings(lfm) && ReadsAs(ParsedBinary(s).value, lfm)
    ensures s == EncodedBinary(lfm) || s == EncodedBinary(lfm) + [0]
  {
    hide Parts, Joined, Folded, SortLabels, LabelBytes, Flat;
    NothingFolded();
    if s == [] {
      lfm := Lfm(None, []);
      NoLabelBytes([]);
    } else {
      var parts := Parts(s);
      var d := Folded(parts);
      JoinedParts(s);
      FoldedParts(parts);
      lfm := Lfm(d.name, d.labels);
      assert parts == [d.name.value] + Flat(d.labels);
      EncodedJoins(d.name.value, d.labels);
      assert 0 !in parts[0];
      FlatFrom(d.labels, parts);
    }
  }

  lemma FlatFrom(ls: seq<Label>, parts: seq<seq<Byte>>)
    requires parts != [] && parts[1..] == Flat(ls) && forall i :: 0 <= i < |parts| ==> 0 !in parts[i]
    ensures forall i :: 0 <= i < |ls| ==> 0 !in ls[i].key && 0 !in ls[i].value
  {
    forall i | 0 <= i < |ls| ensures 0 !in ls[i].key && 0 !in ls[i].value {
      FlatAt(ls, i);
      assert parts[2 * i + 1] == Flat(ls)[2 * i] && parts[2 * i + 2] == Flat(ls)[2 * i + 1];
    }
  }

  lemma {:induction false} FlatAt(ls: seq<Label>, i: nat)
    requires i < |ls|
    ensures |Flat(ls)| == 2 * |ls| && Flat(ls)[2 * i] == ls[i].key && Flat(ls)[2 * i + 1] == ls[i].value
    decreases |ls|
  {
    var init := ls[..|ls| - 1];
    FlatSize(init);
    if i < |init| { FlatAt(init, i); }
  }

  lemma {:induction false} FlatSize(ls: seq<Label>)
    ensures |Flat(ls)| == 2 * |ls|
    decreases |ls|
  {
    if ls != [] { FlatSize(ls[..|ls| - 1]); }
  }
}
