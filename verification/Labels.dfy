/** Labels inside a stored key (storage.c:377-397, 1262-1307): get_key_value, which fills the
    label indices, and extra_matchers_match, which filters lookups; and what they mean for a
    key that is an encoded label set. */
module Labels {
  import opened Basics
  import opened Bytes
  import opened ItemOrder
  import opened LfmBinary

  // ----- get_key_value -----

  /** From part i on: the part after the first odd one equal to the key. */
  function ValueFrom(parts: seq<seq<Byte>>, i: nat, key: seq<Byte>): Option<seq<Byte>>
    decreases |parts| - i
  {
    if i >= |parts| then None
    else if i % 2 == 1 && parts[i] == key then (if i + 1 < |parts| then Some(parts[i + 1]) else None)
    else ValueFrom(parts, i + 1, key)
  }

  function ValueIn(lfm: seq<Byte>, key: seq<Byte>): Option<seq<Byte>> { ValueFrom(Parts(lfm), 0, key) }

  /** get_key_value */
  method GetKeyValue(lfm: seq<Byte>, key: seq<Byte>) returns (r: Option<seq<Byte>>)
    ensures r == ValueIn(lfm, key)
  {
    hide Parts, CString, ValueFrom, ValueIn;
    var pos, i, found := 0, 0, false;
    ghost var all := Parts(lfm);
    ghost var want := ValueFrom(all, 0, key);
    ValueInParts(lfm, key);
    assert lfm[0..] == lfm && all[0..] == all;
    NothingFolded();
    while pos < |lfm|
      invariant i <= |all| && all[i..] == if pos < |lfm| then Parts(lfm[pos..]) else []
      invariant want == if found then (if i < |all| then Some(all[i]) else None) else ValueFrom(all, i, key)
      decreases |lfm| - pos
    {
      var l := MaxStrLen(lfm, pos);
      var part := lfm[pos..pos + l];
      NextPart(lfm, pos);
      TailParts(all, i, part);
      ValueStep(all, i, key);
      if found {
        return Some(part);
      }
      if i % 2 == 1 {
        if part == key {
          found := true;
        }
      }
      pos := pos + l + 1;
      i := i + 1;
    }
    ValueStep(all, i, key);
    r := None;
  }

  lemma TailParts(all: seq<seq<Byte>>, i: nat, part: seq<Byte>)
    requires i <= |all| && all[i..] != [] && all[i..][0] == part
    ensures i < |all| && all[i] == part && all[i + 1..] == all[i..][1..]
  {
  }

  lemma ValueInParts(lfm: seq<Byte>, key: seq<Byte>)
    ensures ValueIn(lfm, key) == ValueFrom(Parts(lfm), 0, key)
  {
  }

  lemma ValueStep(parts: seq<seq<Byte>>, i: nat, key: seq<Byte>)
    ensures i >= |parts| ==> ValueFrom(parts, i, key) == None
    ensures i < |parts| ==>
      (ValueFrom(parts, i, key)
       == if i % 2 == 1 && parts[i] == key then (if i + 1 < |parts| then Some(parts[i + 1]) else None)
          else ValueFrom(parts, i + 1, key))
  {
  }

  /** The value of the first label with this key. */
  function FirstLabel(ls: seq<Label>, key: seq<Byte>): Option<seq<Byte>>
  {
    if ls == [] then None else if ls[0].key == key then Some(ls[0].value) else FirstLabel(ls[1..], key)
  }

  /** Searching the parts of a label set is searching its labels. */
  lemma {:induction false} ValueOfFlat(name: seq<Byte>, ls: seq<Label>, j: nat, key: seq<Byte>, parts: seq<seq<Byte>>)
    requires j <= |ls| && parts == [name] + Flat(ls)
    ensures ValueFrom(parts, 2 * j + 1, key) == FirstLabel(ls[j..], key)
    decreases |ls| - j
  {
    FlatSize(ls);
    if j < |ls| {
      hide Flat;
      FlatAt(ls, j);
      assert parts[2 * j + 1] == ls[j].key && parts[2 * j + 2] == ls[j].value;
      ValueOfFlat(name, ls, j + 1, key, parts);
      assert ls[j..][1..] == ls[j + 1..];
      assert ValueFrom(parts, 2 * j + 2, key) == ValueFrom(parts, 2 * j + 3, key);
    }
  }

  /** The same when the last value is missing from the parts: that label is not found. */
  lemma {:induction false} ValueOfCutFlat(name: seq<Byte>, ls: seq<Label>, j: nat, key: seq<Byte>, parts: seq<seq<Byte>>)
    requires ls != [] && j < |ls| && parts == [name] + Flat(ls)[..|Flat(ls)| - 1]
    ensures ValueFrom(parts, 2 * j + 1, key) == FirstLabel(ls[j..|ls| - 1], key)
    decreases |ls| - j
  {
    FlatSize(ls);
    hide Flat;
    FlatAt(ls, j);
    assert parts[2 * j + 1] == ls[j].key;
    if j < |ls| - 1 {
      assert parts[2 * j + 2] == ls[j].value;
      ValueOfCutFlat(name, ls, j + 1, key, parts);
      assert ls[j..|ls| - 1][1..] == ls[j + 1..|ls| - 1];
      assert ValueFrom(parts, 2 * j + 2, key) == ValueFrom(parts, 2 * j + 3, key);
    } else {
      assert ls[j..|ls| - 1] == [];
    }
  }

  /** The labels an encoding can be searched for: all, but for a last one without a value. */
  function Searchable(ls: seq<Label>): seq<Label>
  {
    if ls != [] && ls[|ls| - 1].value == [] then ls[..|ls| - 1] else ls
  }

  /** What a label index holds for the encoding of a label set: the value of its first label
      with that key, a last label with an empty value not counting. */
  lemma LabelIndexed(lfm: Lfm, key: seq<Byte>)
    requires CStrings(lfm)
    ensures ValueIn(EncodedBinary(lfm), key) == FirstLabel(Searchable(lfm.labels), key)
  {
    hide Parts, Joined, Flat, LabelBytes, CStrings;
    var ls, name := lfm.labels, NameOf(lfm);
    var f := Flat(ls);
    var parts := [name] + f;
    EncodedJoins(name, ls);
    PartsNulFree(lfm);
    FlatSize(ls);
    PartsJoined(parts);
    var cut := Parts(EncodedBinary(lfm));
    assert ls[0..] == ls;
    if ls != [] {
      FlatAt(ls, |ls| - 1);
      assert parts[|parts| - 1] == ls[|ls| - 1].value;
      if ls[|ls| - 1].value == [] {
        assert cut == [name] + f[..|f| - 1] && ls[0..|ls| - 1] == ls[..|ls| - 1];
        ValueOfCutFlat(name, ls, 0, key, cut);
      } else {
        ValueOfFlat(name, ls, 0, key, cut);
      }
      assert ValueFrom(cut, 0, key) == ValueFrom(cut, 1, key);
    } else {
      assert |cut| <= 1 && ValueFrom(cut, 1, key) == None;
    }
  }

  lemma PartsNulFree(lfm: Lfm)
    requires CStrings(lfm)
    ensures var parts := [NameOf(lfm)] + Flat(lfm.labels); forall i :: 0 <= i < |parts| ==> 0 !in parts[i]
  {
    FlatParts(lfm.labels);
  }

  // ----- extra_matchers_match -----

  /** memmem: the needle occurs in the bytes. */
  function Contains(hay: seq<Byte>, needle: seq<Byte>): bool
  {
    |needle| <= |hay| && (hay[..|needle|] == needle || (hay != [] && Contains(hay[1..], needle)))
  }

  /** "__name__" */
  const NAME_LABEL: seq<Byte> := [95, 95, 110, 97, 109, 101, 95, 95]

  /** One matcher: the name is compared whole; any other label is looked for as the bytes of
      key, NUL, value, NUL in the stored key and its terminator. */
  predicate Matches(key: seq<Byte>, m: Label)
  {
    if m.key == NAME_LABEL then CString(key) == m.value
    else Contains(key + [0], m.key + [0] + m.value + [0])
  }

  predicate MatchesAll(key: seq<Byte>, ms: seq<Label>) { forall i :: 0 <= i < |ms| ==> Matches(key, ms[i]) }

  /** Matchers as a request carries them: key, NUL, value, NUL. */
  function MatcherBytes(ms: seq<Label>): seq<Byte>
  {
    if ms == [] then [] else ms[0].key + [0] + ms[0].value + [0] + MatcherBytes(ms[1..])
  }

  predicate NulFree(m: Label) { 0 !in m.key && 0 !in m.value }

  /** extra_matchers_match: the walk over the packed matchers tests each of them. */
  method ExtraMatchersMatch(key: seq<Byte>, packed: seq<Byte>, num: nat, ghost ms: seq<Label>) returns (r: bool)
    requires |ms| == num && MatcherBytes(ms) <= packed && forall i :: 0 <= i < |ms| ==> NulFree(ms[i])
    ensures r == MatchesAll(key, ms)
    ensures r <==> forall i :: 0 <= i < |ms| ==> Matches(key, ms[i])
  {
    hide CString, Contains, MatcherBytes, NulFree;
    var p, i := 0, 0;
    assert ms[0..] == ms && packed[0..] == packed;
    while i < num
      invariant 0 <= i <= num && 0 <= p <= |packed| && MatcherBytes(ms[i..]) <= packed[p..]
      invariant forall j :: 0 <= j < i ==> Matches(key, ms[j])
    {
      FirstMatcher(packed, p, ms[i..]);
      var keyLen := MaxStrLen(packed, p);
      var val := p + keyLen + 1;
      var valLen := MaxStrLen(packed, val);
      var next := val + valLen + 1;
      var matchKey, matchVal := packed[p..p + keyLen], packed[val..val + valLen];
      assert matchKey == ms[i].key && matchVal == ms[i].value;
      if matchKey == NAME_LABEL {
        if CString(key) != matchVal { return false; }
      } else if !Contains(key + [0], packed[p..next]) {
        return false;
      }
      assert ms[i..][1..] == ms[i + 1..];
      p, i := next, i + 1;
    }
    r := true;
  }

  /** The two strings at the cursor are those of the next matcher. */
  lemma FirstMatcher(packed: seq<Byte>, p: nat, ms: seq<Label>)
    requires p <= |packed| && ms != [] && NulFree(ms[0]) && MatcherBytes(ms) <= packed[p..]
    ensures var m := ms[0]; var val := p + |m.key| + 1; var next := val + |m.value| + 1;
      && next <= |packed| && CString(packed[p..]) == m.key && CString(packed[val..]) == m.value
      && packed[p..next] == m.key + [0] + m.value + [0] && MatcherBytes(ms[1..]) <= packed[next..]
  {
    hide CString, MatcherBytes, NulFree;
    var m, rest := ms[0], packed[p..];
    var val := p + |m.key| + 1;
    var next := val + |m.value| + 1;
    var head, later := m.key + [0] + m.value + [0], MatcherBytes(ms[1..]);
    assert MatcherBytes(ms) == head + later by { MatcherBytesFirst(ms); }
    assert packed[p..next] == rest[..|head|] && rest[..|head|] == head;
    assert packed[next..] == rest[|head|..] && later <= rest[|head|..];
    assert rest == head + rest[|head|..];
    TwoStrings(m, rest[|head|..]);
    assert packed[val..] == rest[|m.key| + 1..];
  }

  lemma MatcherBytesFirst(ms: seq<Label>)
    requires ms != []
    ensures MatcherBytes(ms) == ms[0].key + [0] + ms[0].value + [0] + MatcherBytes(ms[1..])
  {
  }

  lemma TwoStrings(m: Label, later: seq<Byte>)
    requires NulFree(m)
    ensures var s := m.key + [0] + m.value + [0] + later; CString(s) == m.key && CString(s[|m.key| + 1..]) == m.value
  {
    hide CString;
    var s := m.key + [0] + m.value + [0] + later;
    assert s == m.key + ([0] + m.value + [0] + later);
    CStringPrefix(m.key, [0] + m.value + [0] + later);
    assert s[|m.key| + 1..] == m.value + ([0] + later);
    CStringPrefix(m.value, [0] + later);
  }

  /** Every part with its terminator. */
  function Terminated(parts: seq<seq<Byte>>): seq<Byte>
  {
    if parts == [] then [] else parts[0] + [0] + Terminated(parts[1..])
  }

  lemma {:induction false} JoinedTerminated(parts: seq<seq<Byte>>)
    requires parts != []
    ensures Joined(parts) + [0] == Terminated(parts)
  {
    if |parts| > 1 {
      JoinedTerminated(parts[1..]);
      assert Joined(parts) + [0] == parts[0] + [0] + (Joined(parts[1..]) + [0]);
    } else {
      assert parts[1..] == [];
    }
  }

  predicate EndsWith(s: seq<Byte>, k: seq<Byte>) { |k| <= |s| && s[|s| - |k|..] == k }

  /** Some part ends in k and the next one is v. */
  predicate PairIn(parts: seq<seq<Byte>>, k: seq<Byte>, v: seq<Byte>)
  {
    |parts| >= 2 && ((EndsWith(parts[0], k) && parts[1] == v) || PairIn(parts[1..], k, v))
  }

  lemma {:induction false} ContainsSkips(a: seq<Byte>, b: seq<Byte>, needle: seq<Byte>)
    requires Contains(b, needle)
    ensures Contains(a + b, needle)
  {
    if a == [] {
      assert a + b == b;
    } else {
      assert (a + b)[1..] == a[1..] + b;
      ContainsSkips(a[1..], b, needle);
    }
  }

  /** A match that starts inside the first part ends that part with k and makes v the next. */
  lemma FirstPartMatch(p: seq<Byte>, rest: seq<Byte>, k: seq<Byte>, v: seq<Byte>)
    requires 0 !in p && 0 !in k && k + [0] + v + [0] <= p + [0] + rest
    ensures p == k && v + [0] <= rest
  {
    var needle, hay := k + [0] + v + [0], p + [0] + rest;
    assert forall i :: 0 <= i < |p| ==> hay[i] == p[i] && p[i] in p;
    assert forall i :: 0 <= i < |k| ==> hay[i] == k[i] && k[i] in k;
    assert hay[|p|] == 0 && hay[|k|] == needle[|k|] == 0;
    assert |k| == |p|;
    assert needle[|k| + 1..] == v + [0] && hay[|p| + 1..] == rest;
    assert needle == hay[..|needle|];
    assert forall i :: 0 <= i < |v| + 1 ==> rest[i] == hay[|p| + 1 + i] == needle[|k| + 1 + i];
  }

  lemma NextPartIs(q: seq<Byte>, rest: seq<Byte>, v: seq<Byte>)
    requires 0 !in q && 0 !in v
    ensures v + [0] <= q + [0] + rest <==> v == q
  {
    var hay := q + [0] + rest;
    if v + [0] <= hay {
      assert forall i :: 0 <= i < |q| ==> hay[i] == q[i] && q[i] in q;
      assert forall i :: 0 <= i < |v| ==> hay[i] == v[i] && v[i] in v;
      assert hay[|v|] == (v + [0])[|v|] == 0 && hay[|q|] == 0;
      assert |v| == |q|;
      assert v == hay[..|v|] == q;
    }
  }

  /** Looking through the suffixes of the first part, then through the rest. */
  lemma {:induction false} ContainsFrom(p: seq<Byte>, parts: seq<seq<Byte>>, k: seq<Byte>, v: seq<Byte>)
    requires 0 !in p && 0 !in k && 0 !in v && forall i :: 0 <= i < |parts| ==> 0 !in parts[i]
    ensures Contains(p + [0] + Terminated(parts), k + [0] + v + [0]) <==>
      (parts != [] && EndsWith(p, k) && parts[0] == v) || Contains(Terminated(parts), k + [0] + v + [0])
    decreases |p|
  {
    hide Terminated;
    var needle, t := k + [0] + v + [0], Terminated(parts);
    var hay := p + [0] + t;
    StartMatch(p, parts, k, v);
    if p == [] {
      assert hay[1..] == t;
      assert EndsWith(p, k) <==> k == [];
    } else {
      assert 0 !in p[1..] && hay[1..] == p[1..] + [0] + t;
      ContainsFrom(p[1..], parts, k, v);
      assert EndsWith(p, k) <==> p == k || EndsWith(p[1..], k) by { EndsStep(p, k); }
    }
    ShortHay(hay, needle);
  }

  lemma EndsStep(p: seq<Byte>, k: seq<Byte>)
    requires p != []
    ensures EndsWith(p, k) <==> p == k || EndsWith(p[1..], k)
  {
    if |k| == |p| {
      assert p[|p| - |k|..] == p;
    } else if |k| < |p| {
      assert p[1..][|p| - 1 - |k|..] == p[|p| - |k|..];
    }
  }

  lemma StartMatch(p: seq<Byte>, parts: seq<seq<Byte>>, k: seq<Byte>, v: seq<Byte>)
    requires 0 !in p && 0 !in k && 0 !in v && forall i :: 0 <= i < |parts| ==> 0 !in parts[i]
    ensures k + [0] + v + [0] <= p + [0] + Terminated(parts) <==> p == k && parts != [] && parts[0] == v
  {
    hide Terminated;
    var t := Terminated(parts);
    TerminatedHead(parts);
    if k + [0] + v + [0] <= p + [0] + t {
      FirstPartMatch(p, t, k, v);
      assert |t| > 0;
      NextPartIs(parts[0], Terminated(parts[1..]), v);
    }
    if p == k && parts != [] && parts[0] == v {
      StartsWith(k, v, Terminated(parts[1..]));
    }
  }

  lemma TerminatedHead(parts: seq<seq<Byte>>)
    ensures parts == [] ==> Terminated(parts) == []
    ensures parts != [] ==> Terminated(parts) == parts[0] + [0] + Terminated(parts[1..])
  {
  }

  lemma StartsWith(k: seq<Byte>, v: seq<Byte>, rest: seq<Byte>)
    ensures k + [0] + v + [0] <= k + [0] + (v + [0] + rest)
  {
    assert k + [0] + (v + [0] + rest) == k + [0] + v + [0] + rest;
  }

  lemma ShortHay(hay: seq<Byte>, needle: seq<Byte>)
    requires hay != []
    ensures Contains(hay, needle) <==> needle <= hay || Contains(hay[1..], needle)
  {
  }

  /** memmem in the terminated parts of a key finds exactly the pairs of neighbouring parts. */
  lemma {:induction false} ContainsPair(parts: seq<seq<Byte>>, k: seq<Byte>, v: seq<Byte>)
    requires 0 !in k && 0 !in v && forall i :: 0 <= i < |parts| ==> 0 !in parts[i]
    ensures Contains(Terminated(parts), k + [0] + v + [0]) <==> PairIn(parts, k, v)
  {
    if parts != [] {
      ContainsFrom(parts[0], parts[1..], k, v);
      ContainsPair(parts[1..], k, v);
    }
  }

  /** What a matcher means for the encoding of a label set: the name itself, or neighbouring
      parts of which the first ends in the matcher's key and the second is its value. */
  lemma MatcherMeaning(lfm: Lfm, m: Label)
    requires CStrings(lfm) && 0 !in m.key && 0 !in m.value
    ensures Matches(EncodedBinary(lfm), m) <==>
      if m.key == NAME_LABEL then NameOf(lfm) == m.value else PairIn([NameOf(lfm)] + Flat(lfm.labels), m.key, m.value)
  {
    hide Joined, Flat, Contains, PairIn, Terminated;
    var name, ls := NameOf(lfm), lfm.labels;
    var parts := [name] + Flat(ls);
    EncodedJoins(name, ls);
    PartsNulFree(lfm);
    JoinedTerminated(parts);
    ContainsPair(parts, m.key, m.value);
    assert ls != [] ==> LabelBytes(ls) == [0] + (ls[0].key + [0] + ls[0].value + LabelBytes(ls[1..]));
    CStringPrefix(name, LabelBytes(ls));
  }

  /** A matcher holds of a label set. */
  ghost predicate HoldsOf(lfm: Lfm, m: Label)
  {
    if m.key == NAME_LABEL then NameOf(lfm) == m.value else PairIn([NameOf(lfm)] + Flat(lfm.labels), m.key, m.value)
  }

  lemma AllMatchersMeaning(lfm: Lfm, ms: seq<Label>)
    requires CStrings(lfm) && forall i :: 0 <= i < |ms| ==> NulFree(ms[i])
    ensures MatchesAll(EncodedBinary(lfm), ms) <==> forall i :: 0 <= i < |ms| ==> HoldsOf(lfm, ms[i])
  {
    hide Matches, CStrings;
    forall i | 0 <= i < |ms| ensures Matches(EncodedBinary(lfm), ms[i]) <==> HoldsOf(lfm, ms[i]) {
      MatcherMeaning(lfm, ms[i]);
    }
  }

  /** The name in front of an encoding. */
  lemma NameMeaning(lfm: Lfm, value: seq<Byte>)
    requires CStrings(lfm) && 0 !in value
    ensures CString(EncodedBinary(lfm)) == value <==> NameOf(lfm) == value
  {
    hide CString, PairIn, Flat;
    MatcherMeaning(lfm, Label(NAME_LABEL, value));
  }

  /** A label that is there matches. */
  lemma LabelMatches(lfm: Lfm, i: nat)
    requires CStrings(lfm) && i < |lfm.labels| && lfm.labels[i].key != NAME_LABEL
    ensures Matches(EncodedBinary(lfm), lfm.labels[i])
  {
    hide Matches, Flat;
    var parts, l := [NameOf(lfm)] + Flat(lfm.labels), lfm.labels[i];
    MatcherMeaning(lfm, l);
    FlatAt(lfm.labels, i);
    assert parts[2 * i + 1] == l.key && parts[2 * i + 2] == l.value;
    PairAt(parts, 2 * i + 1, l.key, l.value);
  }

  lemma {:induction false} PairAt(parts: seq<seq<Byte>>, i: nat, k: seq<Byte>, v: seq<Byte>)
    requires i + 1 < |parts| && EndsWith(parts[i], k) && parts[i + 1] == v
    ensures PairIn(parts, k, v)
  {
    if i > 0 { PairAt(parts[1..], i - 1, k, v); }
  }

  /** One that is not there may match too: `h` is found in `xh`. */
  lemma LooseMatch()
    ensures exists lfm: Lfm, m: Label ::
      CStrings(lfm) && m.key != NAME_LABEL && FirstLabel(lfm.labels, m.key) == None && Matches(EncodedBinary(lfm), m)
  {
    var l, m := Label([120, 104], [49]), Label([104], [49]);
    var lfm := Lfm(Some([97]), [l]);
    var parts := [NameOf(lfm)] + Flat(lfm.labels);
    MatcherMeaning(lfm, m);
    FlatAt(lfm.labels, 0);
    assert parts[1] == l.key && parts[2] == l.value && l.key[1..] == m.key;
    PairAt(parts, 1, m.key, m.value);
    assert lfm.labels[1..] == [];
    assert CStrings(lfm) && FirstLabel(lfm.labels, m.key) == None && Matches(EncodedBinary(lfm), m);
  }
}
