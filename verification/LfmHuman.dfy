/** The human form of a label set (lfm_human_parser.c): name{key="value",...}. */
module LfmHuman {
  import opened Basics
  import opened Bytes
  import opened ItemOrder
  import opened LfmBinary

  const SPACE: Byte := 32
  const QUOTE: Byte := 34
  const COMMA: Byte := 44
  const EQUAL: Byte := 61
  const AT: Byte := 64
  const BACKSLASH: Byte := 92
  const UNDERSCORE: Byte := 95
  const OPEN: Byte := 123
  const CLOSE: Byte := 125

  predicate IsAlpha(c: Byte) { 65 <= c <= 90 || 97 <= c <= 122 }

  predicate IsDigit(c: Byte) { 48 <= c <= 57 }

  predicate Leads(c: Byte) { IsAlpha(c) || c == UNDERSCORE }

  predicate Follows(c: Byte) { Leads(c) || IsDigit(c) }

  ghost predicate Identifier(s: seq<Byte>)
  {
    s != [] && Leads(s[0]) && forall i :: 0 <= i < |s| ==> Follows(s[i])
  }

  // ----- tokens -----

  datatype Token = End | Ident(lit: seq<Byte>) | Quoted(lit: seq<Byte>) | OpenBrace | CloseBrace | Comma | Equal | AtSign

  function IdentLength(s: seq<Byte>): (n: nat)
    ensures n <= |s| && forall i :: 0 <= i < n ==> Follows(s[i])
  {
    if s == [] || !Follows(s[0]) then 0 else 1 + IdentLength(s[1..])
  }

  /** The value of a quoted string and what follows it, given the text after the opening
      quote. A backslash takes the next byte literally. */
  function Unquoted(s: seq<Byte>): (r: Option<(seq<Byte>, seq<Byte>)>)
    ensures r.Some? ==> |r.value.1| < |s|
    decreases |s|
  {
    if s == [] then None
    else if s[0] == QUOTE then Some(([], s[1..]))
    else if s[0] == BACKSLASH then
      if |s| < 2 then None
      else
        var r := Unquoted(s[2..]);
        if r.None? then None else Some(([s[1]] + r.value.0, r.value.1))
    else
      var r := Unquoted(s[1..]);
      if r.None? then None else Some(([s[0]] + r.value.0, r.value.1))
  }

  function Trimmed(s: seq<Byte>): (r: seq<Byte>)
    ensures |r| <= |s| && (r != [] ==> r[0] != SPACE)
  {
    if s != [] && s[0] == SPACE then Trimmed(s[1..]) else s
  }

  function Punctuation(c: Byte): Option<Token>
  {
    if c == OPEN then Some(OpenBrace)
    else if c == CLOSE then Some(CloseBrace)
    else if c == COMMA then Some(Comma)
    else if c == EQUAL then Some(Equal)
    else if c == AT then Some(AtSign)
    else None
  }

  /** The next token and the text after it. Numbers, which no label set contains, are
      refused here. */
  function Scanned(text: seq<Byte>): (r: Option<(Token, seq<Byte>)>)
    ensures r.Some? ==> |r.value.1| <= |text| && (r.value.0 != End ==> |r.value.1| < |text|)
  {
    var s := Trimmed(text);
    if s == [] then Some((End, []))
    else if Leads(s[0]) then
      var n := IdentLength(s);
      assert n > 0;
      Some((Ident(s[..n]), s[n..]))
    else if s[0] == QUOTE then
      var q := Unquoted(s[1..]);
      if q.None? then None else Some((Quoted(q.value.0), q.value.1))
    else
      var p := Punctuation(s[0]);
      if p.None? then None else Some((p.value, s[1..]))
  }

  // ----- the grammar -----

  /** One turn of the label loop: an error, the closing brace, or a label and whether a
      comma follows it. */
  datatype Turn = Bad | Closed(rest: seq<Byte>) | Found(item: Label, more: bool, rest: seq<Byte>)

  function TurnAt(s: seq<Byte>): (t: Turn)
    ensures t.Found? ==> |t.rest| < |s|
  {
    var a := Scanned(s);
    if a.None? then Bad
    else if a.value.0 == CloseBrace then Closed(a.value.1)
    else if !a.value.0.Ident? then Bad
    else
      var b := Scanned(a.value.1);
      if b.None? || b.value.0 != Equal then Bad
      else
        var c := Scanned(b.value.1);
        if c.None? || !c.value.0.Quoted? then Bad
        else
          var d := Scanned(c.value.1);
          if d.None? then Bad
          else if d.value.0 == CloseBrace then Found(Label(a.value.0.lit, c.value.0.lit), false, d.value.1)
          else if d.value.0 == Comma then Found(Label(a.value.0.lit, c.value.0.lit), true, d.value.1)
          else Bad
  }

  /** The labels up to the closing brace, unsorted, and the text after it. */
  function LabelsAt(s: seq<Byte>): Option<(seq<Label>, seq<Byte>)>
    decreases |s|
  {
    match TurnAt(s)
    case Bad => None
    case Closed(rest) => Some(([], rest))
    case Found(item, more, rest) =>
      if !more then Some(([item], rest))
      else
        var r := LabelsAt(rest);
        if r.None? then None else Some(([item] + r.value.0, r.value.1))
  }

  /** parse_human_lfm_helper: the label set and the text after it. */
  function ParsedHuman(s: seq<Byte>): Option<(Lfm, seq<Byte>)>
  {
    var a := Scanned(s);
    if a.None? then None
    else if a.value.0 == OpenBrace then Finished([], LabelsAt(a.value.1))
    else if a.value.0.Ident? then
      var b := Scanned(a.value.1);
      if b.None? then None
      else if b.value.0 == OpenBrace then Finished(a.value.0.lit, LabelsAt(b.value.1))
      else if b.value.0 == End then Some((Lfm(Some(a.value.0.lit), []), b.value.1))
      else None
    else None
  }

  function Finished(name: seq<Byte>, r: Option<(seq<Label>, seq<Byte>)>): Option<(Lfm, seq<Byte>)>
  {
    if r.None? then None else Some((Lfm(Some(name), SortLabels(r.value.0)), r.value.1))
  }

  // ----- printing -----

  function LabelText(l: Label): seq<Byte> { l.key + [EQUAL, QUOTE] + l.value + [QUOTE] }

  function LabelsText(ls: seq<Label>): seq<Byte>
    requires ls != []
  {
    LabelText(ls[0]) + if |ls| == 1 then [CLOSE] else [COMMA] + LabelsText(ls[1..])
  }

  /** encode_human_lfm: values are not escaped. */
  function EncodedHuman(lfm: Lfm): seq<Byte>
  {
    NameOf(lfm) + if lfm.labels == [] then [] else [OPEN] + LabelsText(lfm.labels)
  }

  /** What the printer can print so that the parser reads it back. */
  ghost predicate Plain(value: seq<Byte>) { QUOTE !in value && BACKSLASH !in value }

  ghost predicate PrintableLabels(ls: seq<Label>)
  {
    forall i :: 0 <= i < |ls| ==> Identifier(ls[i].key) && Plain(ls[i].value)
  }

  ghost predicate Printable(lfm: Lfm)
  {
    && (Identifier(NameOf(lfm)) || (NameOf(lfm) == [] && lfm.labels != []))
    && PrintableLabels(lfm.labels)
  }

  // ----- printed text reads back -----

  lemma {:induction false} IdentStops(k: seq<Byte>, rest: seq<Byte>)
    requires forall i :: 0 <= i < |k| ==> Follows(k[i])
    requires rest != [] ==> !Follows(rest[0])
    ensures IdentLength(k + rest) == |k|
  {
    if k == [] {
      assert k + rest == rest;
    } else {
      assert (k + rest)[1..] == k[1..] + rest;
      IdentStops(k[1..], rest);
    }
  }

  lemma ScanIdentifier(k: seq<Byte>, rest: seq<Byte>)
    requires Identifier(k) && (rest != [] ==> !Follows(rest[0]))
    ensures Scanned(k + rest) == Some((Ident(k), rest))
  {
    IdentStops(k, rest);
    assert Trimmed(k + rest) == k + rest;
    assert (k + rest)[..|k|] == k && (k + rest)[|k|..] == rest;
  }

  lemma ScanPunctuation(c: Byte, rest: seq<Byte>)
    requires Punctuation(c).Some?
    ensures Scanned([c] + rest) == Some((Punctuation(c).value, rest))
  {
    assert Trimmed([c] + rest) == [c] + rest && ([c] + rest)[1..] == rest;
  }

  lemma {:induction false} UnquotePlain(v: seq<Byte>, rest: seq<Byte>)
    requires Plain(v)
    ensures Unquoted(v + [QUOTE] + rest) == Some((v, rest))
  {
    var s := v + [QUOTE] + rest;
    if v == [] {
      assert s == [QUOTE] + rest && s[1..] == rest;
    } else {
      assert v[0] in v && s[0] == v[0] && s[1..] == v[1..] + [QUOTE] + rest;
      assert Plain(v[1..]);
      UnquotePlain(v[1..], rest);
      assert v == [v[0]] + v[1..];
    }
  }

  lemma ScanQuoted(v: seq<Byte>, rest: seq<Byte>)
    requires Plain(v)
    ensures Scanned([QUOTE] + v + [QUOTE] + rest) == Some((Quoted(v), rest))
  {
    hide Unquoted;
    var s := [QUOTE] + v + [QUOTE] + rest;
    UnquotePlain(v, rest);
    assert Trimmed(s) == s && s[1..] == v + [QUOTE] + rest;
  }

  lemma TurnReads(l: Label, sep: Byte, rest: seq<Byte>)
    requires Identifier(l.key) && Plain(l.value) && (sep == COMMA || sep == CLOSE)
    ensures TurnAt(LabelText(l) + [sep] + rest) == Found(l, sep == COMMA, rest)
  {
    hide Scanned, Plain, Identifier;
    var s := LabelText(l) + [sep] + rest;
    var s3 := [sep] + rest;
    var s2 := [QUOTE] + l.value + [QUOTE] + s3;
    var s1 := [EQUAL] + s2;
    assert s == l.key + s1;
    ScanIdentifier(l.key, s1);
    ScanPunctuation(EQUAL, s2);
    ScanQuoted(l.value, s3);
    ScanPunctuation(sep, rest);
  }

  lemma {:induction false} LabelsRead(ls: seq<Label>, rest: seq<Byte>)
    requires ls != [] && PrintableLabels(ls)
    ensures LabelsAt(LabelsText(ls) + rest) == Some((ls, rest))
  {
    hide TurnAt, LabelText, Identifier, Plain;
    var s := LabelsText(ls) + rest;
    if |ls| == 1 {
      TurnReads(ls[0], CLOSE, rest);
      assert s == LabelText(ls[0]) + [CLOSE] + rest && ls == [ls[0]];
    } else {
      var tail := LabelsText(ls[1..]) + rest;
      LabelsRead(ls[1..], rest);
      TurnReads(ls[0], COMMA, tail);
      assert s == LabelText(ls[0]) + [COMMA] + tail;
      assert ls == [ls[0]] + ls[1..];
    }
  }

  /** Printable label sets come back; without labels the text must end there. */
  lemma PrintedReads(lfm: Lfm, rest: seq<Byte>)
    requires Printable(lfm) && (lfm.labels == [] ==> rest == [])
    ensures ParsedHuman(EncodedHuman(lfm) + rest) == Some((Lfm(Some(NameOf(lfm)), SortLabels(lfm.labels)), rest))
  {
    hide Scanned, LabelsAt, LabelsText, Identifier, PrintableLabels, SortLabels;
    var name, ls, s := NameOf(lfm), lfm.labels, EncodedHuman(lfm) + rest;
    NothingFolded();
    if ls == [] {
      ScanIdentifier(name, []);
      assert s == name + [];
      ScanEnd();
    } else {
      var body := LabelsText(ls) + rest;
      LabelsRead(ls, rest);
      ScanPunctuation(OPEN, body);
      assert s == name + ([OPEN] + body);
      if name == [] {
        assert s == [OPEN] + body;
      } else {
        ScanIdentifier(name, [OPEN] + body);
      }
    }
  }

  lemma ScanEnd()
    ensures Scanned([]) == Some((End, []))
  {
  }

  // ----- nothing else reads back -----

  /** The bytes of a value that the parser only yields for an escape. */
  function Specials(v: seq<Byte>): nat
  {
    if v == [] then 0 else (if v[0] == QUOTE || v[0] == BACKSLASH then 1 else 0) + Specials(v[1..])
  }

  lemma {:induction false} NoSpecials(v: seq<Byte>)
    ensures Specials(v) == 0 <==> Plain(v)
  {
    if v != [] {
      NoSpecials(v[1..]);
      assert v == [v[0]] + v[1..];
    }
  }

  /** The least text that reads as these labels, separators included. */
  function TextSize(ls: seq<Label>): nat
  {
    if ls == [] then 0 else |ls[0].key| + |ls[0].value| + 4 + Specials(ls[0].value) + TextSize(ls[1..])
  }

  function TotalSpecials(ls: seq<Label>): nat
  {
    if ls == [] then 0 else Specials(ls[0].value) + TotalSpecials(ls[1..])
  }

  lemma {:induction false} UnquoteUses(s: seq<Byte>)
    ensures var r := Unquoted(s); r.Some? ==> |s| >= |r.value.0| + 1 + Specials(r.value.0) + |r.value.1|
    decreases |s|
  {
    if s != [] && s[0] != QUOTE {
      if s[0] == BACKSLASH {
        if |s| >= 2 {
          UnquoteUses(s[2..]);
          var r := Unquoted(s[2..]);
          if r.Some? { assert ([s[1]] + r.value.0)[1..] == r.value.0; }
        }
      } else {
        UnquoteUses(s[1..]);
        var r := Unquoted(s[1..]);
        if r.Some? { assert ([s[0]] + r.value.0)[1..] == r.value.0; }
      }
    }
  }

  lemma ScanUses(s: seq<Byte>)
    ensures var r := Scanned(s); r.Some? ==>
      && (r.value.0.Ident? ==> Identifier(r.value.0.lit) && |s| >= |r.value.0.lit| + |r.value.1|)
      && (r.value.0.Quoted? ==> |s| >= |r.value.0.lit| + 2 + Specials(r.value.0.lit) + |r.value.1|)
  {
    hide Unquoted, Specials;
    var t := Trimmed(s);
    if t != [] && t[0] == QUOTE { UnquoteUses(t[1..]); }
  }

  lemma TurnUses(s: seq<Byte>)
    ensures var t := TurnAt(s); t.Found? ==>
      Identifier(t.item.key) && |s| >= |t.item.key| + |t.item.value| + 4 + Specials(t.item.value) + |t.rest|
  {
    hide Scanned, Specials, Identifier;
    ScanUses(s);
    var a := Scanned(s);
    if a.Some? {
      var b := Scanned(a.value.1);
      if b.Some? { ScanUses(b.value.1); }
    }
  }

  lemma {:induction false} LabelsUse(s: seq<Byte>)
    ensures var r := LabelsAt(s); r.Some? ==>
      && |s| >= TextSize(r.value.0) + |r.value.1|
      && forall i :: 0 <= i < |r.value.0| ==> Identifier(r.value.0[i].key)
    decreases |s|
  {
    hide TurnAt, Identifier, Specials;
    TurnUses(s);
    match TurnAt(s)
    case Bad =>
    case Closed(rest) => ClosedUses(s);
    case Found(item, more, rest) =>
      if more {
        LabelsUse(rest);
        var r := LabelsAt(rest);
        if r.Some? { assert ([item] + r.value.0)[1..] == r.value.0; }
      } else {
        assert TextSize([item]) == |item.key| + |item.value| + 4 + Specials(item.value);
      }
  }

  lemma ClosedUses(s: seq<Byte>)
    ensures TurnAt(s).Closed? ==> |TurnAt(s).rest| <= |s|
  {
    hide Scanned;
  }

  lemma {:induction false} InsertSize(x: Label, ls: seq<Label>)
    ensures TextSize(InsertLabel(x, ls)) == TextSize([x]) + TextSize(ls)
  {
    hide Specials, LexCmp;
    if ls == [] || LexCmp(x.key, ls[0].key) <= 0 {
      assert ([x] + ls)[1..] == ls;
    } else {
      InsertSize(x, ls[1..]);
      var r := InsertLabel(x, ls[1..]);
      assert ([ls[0]] + r)[1..] == r;
    }
  }

  lemma {:induction false} SortSize(ls: seq<Label>)
    ensures TextSize(SortLabels(ls)) == TextSize(ls)
  {
    hide Specials;
    if ls != [] {
      SortSize(ls[1..]);
      InsertSize(ls[0], SortLabels(ls[1..]));
    }
  }

  lemma SortMembers(ls: seq<Label>, x: Label)
    ensures x in SortLabels(ls) <==> x in ls
  {
    hide SortLabels;
    assert x in SortLabels(ls) <==> x in multiset(SortLabels(ls));
    assert x in ls <==> x in multiset(ls);
  }

  /** Whatever the parser accepts has identifiers for keys and took at least so much text. */
  lemma ParseUses(s: seq<Byte>)
    ensures var r := ParsedHuman(s); r.Some? ==>
      var lfm := r.value.0;
      && |s| >= |NameOf(lfm)| + (if lfm.labels == [] then 0 else 1 + TextSize(lfm.labels))
      && (forall i :: 0 <= i < |lfm.labels| ==> Identifier(lfm.labels[i].key))
      && (Identifier(NameOf(lfm)) || NameOf(lfm) == [])
  {
    hide Scanned, Identifier, TextSize, SortLabels, LabelsAt;
    var a := Scanned(s);
    ScanUses(s);
    if a.Some? && a.value.0.Ident? {
      var b := Scanned(a.value.1);
      if b.Some? { FinishUses(a.value.0.lit, b.value.1); }
    } else if a.Some? {
      FinishUses([], a.value.1);
    }
  }

  lemma FinishUses(name: seq<Byte>, s: seq<Byte>)
    ensures var r := Finished(name, LabelsAt(s)); r.Some? ==>
      && NameOf(r.value.0) == name && |s| >= TextSize(r.value.0.labels)
      && (forall i :: 0 <= i < |r.value.0.labels| ==> Identifier(r.value.0.labels[i].key))
  {
    hide Identifier, TextSize, SortLabels, LabelsAt;
    LabelsUse(s);
    var r := LabelsAt(s);
    if r.Some? {
      var ls := r.value.0;
      SortSize(ls);
      var sorted := SortLabels(ls);
      forall i | 0 <= i < |sorted| ensures Identifier(sorted[i].key) {
        SortMembers(ls, sorted[i]);
      }
    }
  }

  lemma {:induction false} PrintedSize(ls: seq<Label>)
    requires ls != []
    ensures |LabelsText(ls)| + TotalSpecials(ls) == TextSize(ls)
  {
    hide Specials;
    if |ls| > 1 { PrintedSize(ls[1..]); }
    else { assert ls[1..] == []; }
  }

  /** No text that reads as a label set is shorter than its printing. */
  lemma PrintedShortest(lfm: Lfm, s: seq<Byte>)
    requires ParsedHuman(s).Some? && ReadsAs(ParsedHuman(s).value.0, lfm)
    ensures |EncodedHuman(lfm)| <= |s|
  {
    hide ParsedHuman, Identifier, TextSize, LabelsText, TotalSpecials, SortLabels;
    ParseUses(s);
    SortSize(lfm.labels);
    if lfm.labels != [] {
      assert SortLabels(lfm.labels) != [] by { SortMembers(lfm.labels, lfm.labels[0]); }
      PrintedSize(lfm.labels);
    }
  }

  lemma {:induction false} AllPlain(ls: seq<Label>)
    requires TotalSpecials(ls) == 0
    ensures forall i :: 0 <= i < |ls| ==> Plain(ls[i].value)
  {
    if ls != [] {
      NoSpecials(ls[0].value);
      AllPlain(ls[1..]);
      assert ls == [ls[0]] + ls[1..];
    }
  }

  /** Printing then parsing gives a label set back, sorted, if and only if its keys are
      identifiers, its name is one too or is empty before at least one label, and no value
      contains a quote or a backslash. */
  lemma HumanRoundTrip(lfm: Lfm)
    requires CStrings(lfm)
    ensures var r := ParsedHuman(EncodedHuman(lfm));
      (r.Some? && ReadsAs(r.value.0, lfm)) <==> Printable(lfm)
  {
    hide ParsedHuman, Identifier, Plain, TextSize, LabelsText, TotalSpecials, SortLabels;
    var s, r := EncodedHuman(lfm), ParsedHuman(EncodedHuman(lfm));
    if Printable(lfm) {
      PrintedReads(lfm, []);
      assert s + [] == s;
    }
    if r.Some? && ReadsAs(r.value.0, lfm) {
      ParseUses(s);
      SortSize(lfm.labels);
      if lfm.labels != [] {
        assert SortLabels(lfm.labels) != [] by { SortMembers(lfm.labels, lfm.labels[0]); }
        PrintedSize(lfm.labels);
        AllPlain(lfm.labels);
        forall i | 0 <= i < |lfm.labels| ensures Identifier(lfm.labels[i].key) {
          SortMembers(lfm.labels, lfm.labels[i]);
        }
      } else {
        NothingFolded();
        EmptyText();
      }
    }
  }

  lemma EmptyText()
    ensures ParsedHuman([]).None?
  {
  }
}
