/** Exactly which texts the parser of the human form accepts (lfm_human_parser.c:46-399), and what it
    makes of them: texts written with any spaces between tokens and any choice of escapes. */
module LfmGrammar {
  import opened Basics
  import opened Bytes
  import opened ItemOrder
  import opened LfmBinary
  import opened LfmHuman

  // ----- how a text may be written -----

  function Spaces(n: nat): (s: seq<Byte>)
    ensures |s| == n && forall i :: 0 <= i < n ==> s[i] == SPACE
  {
    seq(n, i => SPACE)
  }

  /** One byte of a value, written as it is or behind a backslash. */
  datatype Glyph = Glyph(c: Byte, escaped: bool)

  /** Quotes and backslashes need the backslash; other bytes may have one. */
  ghost predicate GlyphsOk(gs: seq<Glyph>)
  {
    forall i :: 0 <= i < |gs| && !gs[i].escaped ==> gs[i].c != QUOTE && gs[i].c != BACKSLASH
  }

  function RawText(gs: seq<Glyph>): seq<Byte>
  {
    if gs == [] then [] else (if gs[0].escaped then [BACKSLASH, gs[0].c] else [gs[0].c]) + RawText(gs[1..])
  }

  function ValueText(gs: seq<Glyph>): (v: seq<Byte>)
    ensures |v| == |gs| && forall i :: 0 <= i < |v| ==> v[i] == gs[i].c
  {
    seq(|gs|, i requires 0 <= i < |gs| => gs[i].c)
  }

  /** A label with spaces before its key, around the equal sign and after its value. */
  datatype Laid = Laid(key: seq<Byte>, glyphs: seq<Glyph>, a: nat, b: nat, c: nat, d: nat)

  ghost predicate LaidOk(x: Laid) { Identifier(x.key) && GlyphsOk(x.glyphs) }

  function LaidLabel(x: Laid): Label { Label(x.key, ValueText(x.glyphs)) }

  function LaidText(x: Laid): seq<Byte>
  {
    Spaces(x.a) + x.key + Spaces(x.b) + [EQUAL] + Spaces(x.c) + [QUOTE] + RawText(x.glyphs) + [QUOTE] + Spaces(x.d)
  }

  function LaidLabels(xs: seq<Laid>): (ls: seq<Label>)
  {
    if xs == [] then [] else [LaidLabel(xs[0])] + LaidLabels(xs[1..])
  }

  /** Labels up to the closing brace; an open list has a comma behind its last label. */
  function ListText(xs: seq<Laid>, open: bool, last: nat): seq<Byte>
  {
    if xs == [] then Spaces(last) + [CLOSE]
    else LaidText(xs[0]) + if |xs| == 1 && !open then [CLOSE] else [COMMA] + ListText(xs[1..], open, last)
  }

  datatype Layout =
    | NameOnly(name: seq<Byte>, before: nat, after: nat)
    | Braced(name: seq<Byte>, before: nat, after: nat, labels: seq<Laid>, open: bool, last: nat)

  function LayoutText(l: Layout): seq<Byte>
  {
    Spaces(l.before) + l.name + Spaces(l.after) + if l.NameOnly? then [] else [OPEN] + ListText(l.labels, l.open, l.last)
  }

  function LayoutLfm(l: Layout): Lfm
  {
    Lfm(Some(l.name), if l.NameOnly? then [] else SortLabels(LaidLabels(l.labels)))
  }

  /** A name alone is an identifier and ends the text; before a brace it may be missing. */
  ghost predicate LayoutOk(l: Layout, rest: seq<Byte>)
  {
    match l
    case NameOnly(name, _, _) => Identifier(name) && rest == []
    case Braced(name, _, _, xs, _, _) => (Identifier(name) || name == []) && forall i :: 0 <= i < |xs| ==> LaidOk(xs[i])
  }

  // ----- every such text is read -----

  /** Spaces before a token make no difference. */
  lemma {:induction false} ScanSpaces(n: nat, s: seq<Byte>)
    ensures Scanned(Spaces(n) + s) == Scanned(s)
  {
    hide IdentLength, Unquoted;
    if n == 0 {
      assert Spaces(0) + s == s;
    } else {
      ScanSpaces(n - 1, s);
      assert (Spaces(n) + s)[1..] == Spaces(n - 1) + s;
    }
  }

  lemma {:induction false} GlyphsRead(gs: seq<Glyph>, rest: seq<Byte>)
    requires GlyphsOk(gs)
    ensures Unquoted(RawText(gs) + [QUOTE] + rest) == Some((ValueText(gs), rest))
  {
    var s := RawText(gs) + [QUOTE] + rest;
    if gs == [] {
      assert s == [QUOTE] + rest && s[1..] == rest && ValueText(gs) == [];
    } else {
      var tail := RawText(gs[1..]) + [QUOTE] + rest;
      assert GlyphsOk(gs[1..]);
      GlyphsRead(gs[1..], rest);
      assert ValueText(gs) == [gs[0].c] + ValueText(gs[1..]);
      if gs[0].escaped {
        assert s == [BACKSLASH, gs[0].c] + tail && s[2..] == tail;
      } else {
        assert s == [gs[0].c] + tail && s[1..] == tail;
      }
    }
  }

  lemma ScanGlyphs(gs: seq<Glyph>, rest: seq<Byte>)
    requires GlyphsOk(gs)
    ensures Scanned([QUOTE] + RawText(gs) + [QUOTE] + rest) == Some((Quoted(ValueText(gs)), rest))
  {
    hide Unquoted, RawText;
    var s := [QUOTE] + RawText(gs) + [QUOTE] + rest;
    GlyphsRead(gs, rest);
    assert Trimmed(s) == s && s[1..] == RawText(gs) + [QUOTE] + rest;
  }

  /** An identifier, spaces and something that does not go on with it. */
  lemma ScanName(k: seq<Byte>, n: nat, rest: seq<Byte>)
    requires Identifier(k) && (rest != [] ==> !Follows(rest[0]))
    ensures Scanned(k + (Spaces(n) + rest)) == Some((Ident(k), Spaces(n) + rest))
  {
    hide Scanned, Identifier;
    assert n > 0 ==> (Spaces(n) + rest)[0] == SPACE;
    assert n == 0 ==> Spaces(n) + rest == rest;
    ScanIdentifier(k, Spaces(n) + rest);
  }

  lemma LaidTurn(x: Laid, sep: Byte, rest: seq<Byte>)
    requires LaidOk(x) && (sep == COMMA || sep == CLOSE)
    ensures TurnAt(LaidText(x) + [sep] + rest) == Found(LaidLabel(x), sep == COMMA, rest)
  {
    hide Scanned, Identifier, GlyphsOk, RawText;
    var s4 := [sep] + rest;
    var s3 := [QUOTE] + RawText(x.glyphs) + [QUOTE] + (Spaces(x.d) + s4);
    var s2 := [EQUAL] + (Spaces(x.c) + s3);
    var s1 := x.key + (Spaces(x.b) + s2);
    assert LaidText(x) + [sep] + rest == Spaces(x.a) + s1;
    ScanSpaces(x.a, s1);
    ScanName(x.key, x.b, s2);
    ScanSpaces(x.b, s2);
    ScanPunctuation(EQUAL, Spaces(x.c) + s3);
    ScanSpaces(x.c, s3);
    ScanGlyphs(x.glyphs, Spaces(x.d) + s4);
    ScanSpaces(x.d, s4);
    ScanPunctuation(sep, rest);
  }

  lemma {:induction false} ListReads(xs: seq<Laid>, open: bool, last: nat, rest: seq<Byte>)
    requires forall i :: 0 <= i < |xs| ==> LaidOk(xs[i])
    ensures LabelsAt(ListText(xs, open, last) + rest) == Some((LaidLabels(xs), rest))
  {
    hide TurnAt, LaidOk, LaidText, LaidLabel;
    var s := ListText(xs, open, last) + rest;
    if xs == [] {
      CloseTurn(last, rest);
      assert s == Spaces(last) + [CLOSE] + rest;
    } else if |xs| == 1 && !open {
      LaidTurn(xs[0], CLOSE, rest);
      assert s == LaidText(xs[0]) + [CLOSE] + rest;
      assert xs[1..] == [] && LaidLabels(xs) == [LaidLabel(xs[0])] + [] == [LaidLabel(xs[0])];
    } else {
      var tail := ListText(xs[1..], open, last) + rest;
      ListReads(xs[1..], open, last, rest);
      LaidTurn(xs[0], COMMA, tail);
      assert s == LaidText(xs[0]) + [COMMA] + tail;
    }
  }

  lemma CloseTurn(last: nat, rest: seq<Byte>)
    ensures TurnAt(Spaces(last) + [CLOSE] + rest) == Closed(rest)
  {
    hide Scanned;
    ScanSpaces(last, [CLOSE] + rest);
    assert Spaces(last) + [CLOSE] + rest == Spaces(last) + ([CLOSE] + rest);
    ScanPunctuation(CLOSE, rest);
  }

  /** Whatever the spaces and escapes, the text reads as the label set. */
  lemma LayoutReads(l: Layout, rest: seq<Byte>)
    requires LayoutOk(l, rest)
    ensures ParsedHuman(LayoutText(l) + rest) == Some((LayoutLfm(l), rest))
  {
    hide Scanned, LabelsAt, ListText, Identifier, LaidOk, SortLabels, LaidLabels;
    var s := LayoutText(l) + rest;
    match l
    case NameOnly(name, before, after) =>
      assert s == Spaces(before) + (name + (Spaces(after) + []));
      ScanSpaces(before, name + (Spaces(after) + []));
      ScanName(name, after, []);
      ScanSpaces(after, []);
      ScanEnd();
    case Braced(name, before, after, xs, open, last) =>
      var body := ListText(xs, open, last) + rest;
      var braced := [OPEN] + body;
      ListReads(xs, open, last, rest);
      ScanPunctuation(OPEN, body);
      ScanSpaces(after, braced);
      assert s == Spaces(before) + (name + (Spaces(after) + braced));
      ScanSpaces(before, name + (Spaces(after) + braced));
      if name == [] {
        assert name + (Spaces(after) + braced) == Spaces(after) + braced;
      } else {
        ScanName(name, after, braced);
      }
  }

  // ----- nothing else is -----

  lemma {:induction false} TrimLaid(s: seq<Byte>) returns (n: nat)
    ensures s == Spaces(n) + Trimmed(s)
  {
    if s != [] && s[0] == SPACE {
      n := TrimLaid(s[1..]);
      assert s == [SPACE] + s[1..] && Spaces(n + 1) == [SPACE] + Spaces(n);
      n := n + 1;
    } else {
      n := 0;
    }
  }

  /** The text a token other than a value is read from. */
  function TokenText(tok: Token): seq<Byte>
    requires !tok.Quoted?
  {
    match tok
    case End => []
    case Ident(lit) => lit
    case OpenBrace => [OPEN]
    case CloseBrace => [CLOSE]
    case Comma => [COMMA]
    case Equal => [EQUAL]
    case AtSign => [AT]
  }

  lemma ScanLaid(s: seq<Byte>) returns (n: nat)
    requires Scanned(s).Some? && !Scanned(s).value.0.Quoted?
    ensures var (tok, rest) := Scanned(s).value;
      && s == Spaces(n) + TokenText(tok) + rest && (tok.Ident? ==> Identifier(tok.lit)) && (tok == End ==> rest == [])
  {
    hide IdentLength, Unquoted;
    n := TrimLaid(s);
    var t := Trimmed(s);
    var (tok, rest) := Scanned(s).value;
    assert t == TokenText(tok) + rest;
    ScanUses(s);
  }

  lemma {:induction false} GlyphsOf(s: seq<Byte>) returns (gs: seq<Glyph>)
    requires Unquoted(s).Some?
    ensures var (v, rest) := Unquoted(s).value; GlyphsOk(gs) && ValueText(gs) == v && s == RawText(gs) + [QUOTE] + rest
    decreases |s|
  {
    hide Unquoted, RawText, GlyphsOk;
    UnquoteFirst(s);
    if s[0] == QUOTE {
      gs := [];
      NoGlyphs();
      assert s == [] + [QUOTE] + s[1..];
    } else {
      var g := if s[0] == BACKSLASH then Glyph(s[1], true) else Glyph(s[0], false);
      var head, more := if g.escaped then s[..2] else s[..1], if g.escaped then s[2..] else s[1..];
      var tail := GlyphsOf(more);
      gs := [g] + tail;
      GlyphsGrow(g, tail);
      assert s == head + more && head == if g.escaped then [BACKSLASH, g.c] else [g.c];
      assert s == (head + RawText(tail)) + [QUOTE] + Unquoted(s).value.1;
    }
  }

  lemma UnquoteFirst(s: seq<Byte>)
    requires Unquoted(s).Some?
    ensures s != [] && (s[0] == QUOTE ==> Unquoted(s).value == ([], s[1..])) && (s[0] == BACKSLASH ==> |s| >= 2)
    ensures s[0] != QUOTE ==>
      var r := Unquoted(if s[0] == BACKSLASH then s[2..] else s[1..]);
      r.Some? && Unquoted(s).value == ([if s[0] == BACKSLASH then s[1] else s[0]] + r.value.0, r.value.1)
  {
  }

  lemma NoGlyphs()
    ensures RawText([]) == [] && ValueText([]) == [] && GlyphsOk([])
  {
  }

  lemma GlyphsGrow(g: Glyph, tail: seq<Glyph>)
    ensures RawText([g] + tail) == (if g.escaped then [BACKSLASH, g.c] else [g.c]) + RawText(tail)
    ensures ValueText([g] + tail) == [g.c] + ValueText(tail)
    ensures GlyphsOk(tail) && (!g.escaped ==> g.c != QUOTE && g.c != BACKSLASH) ==> GlyphsOk([g] + tail)
  {
    assert ([g] + tail)[1..] == tail;
  }

  lemma QuotedLaid(s: seq<Byte>) returns (n: nat, gs: seq<Glyph>)
    requires Scanned(s).Some? && Scanned(s).value.0.Quoted?
    ensures var (tok, rest) := Scanned(s).value;
      GlyphsOk(gs) && ValueText(gs) == tok.lit && s == Spaces(n) + [QUOTE] + RawText(gs) + [QUOTE] + rest
  {
    hide IdentLength, Unquoted, RawText;
    n := TrimLaid(s);
    var t := Trimmed(s);
    gs := GlyphsOf(t[1..]);
    assert t == [QUOTE] + t[1..];
  }

  lemma TurnLaid(s: seq<Byte>) returns (x: Laid)
    requires TurnAt(s).Found?
    ensures var t := TurnAt(s);
      LaidOk(x) && LaidLabel(x) == t.item && s == LaidText(x) + [if t.more then COMMA else CLOSE] + t.rest
  {
    hide Scanned, Identifier, GlyphsOk, RawText;
    var t := TurnAt(s);
    var a := ScanLaid(s);
    var (k, s1) := Scanned(s).value;
    var b := ScanLaid(s1);
    var (_, s2) := Scanned(s1).value;
    var c, gs := QuotedLaid(s2);
    var (_, s3) := Scanned(s2).value;
    var d := ScanLaid(s3);
    x := Laid(k.lit, gs, a, b, c, d);
    assert s3 == Spaces(d) + [if t.more then COMMA else CLOSE] + t.rest;
    LaidJoins(x, s, s1, s2, s3, [if t.more then COMMA else CLOSE], t.rest);
  }

  lemma LaidJoins(x: Laid, s: seq<Byte>, s1: seq<Byte>, s2: seq<Byte>, s3: seq<Byte>, sep: seq<Byte>, rest: seq<Byte>)
    requires s == Spaces(x.a) + x.key + s1 && s1 == Spaces(x.b) + [EQUAL] + s2
    requires s2 == Spaces(x.c) + [QUOTE] + RawText(x.glyphs) + [QUOTE] + s3 && s3 == Spaces(x.d) + sep + rest
    ensures s == LaidText(x) + sep + rest
  {
    hide RawText;
  }

  lemma {:induction false} ListLaid(s: seq<Byte>) returns (xs: seq<Laid>, open: bool, last: nat)
    requires LabelsAt(s).Some?
    ensures var (ls, rest) := LabelsAt(s).value;
      && (forall i :: 0 <= i < |xs| ==> LaidOk(xs[i])) && LaidLabels(xs) == ls && s == ListText(xs, open, last) + rest
      && (xs == [] ==> open)
    decreases |s|
  {
    hide TurnAt, LaidOk, LaidText, LaidLabel;
    match TurnAt(s)
    case Closed(rest) =>
      last := ClosedLaid(s);
      xs, open := [], true;
      assert s == (Spaces(last) + [CLOSE]) + rest;
    case Found(item, more, rest) =>
      var x := TurnLaid(s);
      if !more {
        xs, open, last := [x], false, 0;
        assert xs[1..] == [];
        assert s == (LaidText(x) + [CLOSE]) + rest;
      } else {
        var ys;
        ys, open, last := ListLaid(rest);
        xs := [x] + ys;
        assert xs[1..] == ys;
        assert s == (LaidText(x) + ([COMMA] + ListText(ys, open, last))) + LabelsAt(s).value.1;
      }
  }

  lemma ClosedLaid(s: seq<Byte>) returns (n: nat)
    requires TurnAt(s).Closed?
    ensures s == Spaces(n) + [CLOSE] + TurnAt(s).rest
  {
    hide Scanned;
    n := ScanLaid(s);
  }

  lemma ParsedLaid(s: seq<Byte>) returns (l: Layout)
    requires ParsedHuman(s).Some?
    ensures var (lfm, rest) := ParsedHuman(s).value; LayoutOk(l, rest) && LayoutLfm(l) == lfm && s == LayoutText(l) + rest
  {
    hide Scanned, LabelsAt, ListText, Identifier, LaidOk, SortLabels, LaidLabels;
    var before := ScanLaid(s);
    var (a, s1) := Scanned(s).value;
    if a == OpenBrace {
      var xs, open, last := ListLaid(s1);
      l := Braced([], before, 0, xs, open, last);
      BracedJoins(l, s, [OPEN] + s1, s1, LabelsAt(s1).value.1);
    } else {
      var after := ScanLaid(s1);
      var (b, s2) := Scanned(s1).value;
      if b == End {
        l := NameOnly(a.lit, before, after);
        assert s == LayoutText(l) + [];
      } else {
        var xs, open, last := ListLaid(s2);
        l := Braced(a.lit, before, after, xs, open, last);
        BracedJoins(l, s, s1, s2, LabelsAt(s2).value.1);
      }
    }
  }

  lemma BracedJoins(l: Layout, s: seq<Byte>, s1: seq<Byte>, s2: seq<Byte>, rest: seq<Byte>)
    requires l.Braced? && s == Spaces(l.before) + l.name + s1 && s1 == Spaces(l.after) + [OPEN] + s2
    requires s2 == ListText(l.labels, l.open, l.last) + rest
    ensures s == LayoutText(l) + rest
  {
    hide ListText;
  }

  /** The parser accepts a text exactly when it is written so, and reads the label set it was written
      for. */
  lemma ParseExact(s: seq<Byte>, lfm: Lfm, rest: seq<Byte>)
    ensures ParsedHuman(s) == Some((lfm, rest)) <==> exists l: Layout :: WrittenAs(l, s, lfm, rest)
  {
    hide ParsedHuman, LayoutOk, LayoutText, LayoutLfm;
    if ParsedHuman(s) == Some((lfm, rest)) {
      var l := ParsedLaid(s);
      assert WrittenAs(l, s, lfm, rest);
    }
    if exists l: Layout :: WrittenAs(l, s, lfm, rest) {
      var l: Layout :| WrittenAs(l, s, lfm, rest);
      LayoutReads(l, rest);
    }
  }

  ghost predicate WrittenAs(l: Layout, s: seq<Byte>, lfm: Lfm, rest: seq<Byte>)
  {
    LayoutOk(l, rest) && s == LayoutText(l) + rest && LayoutLfm(l) == lfm
  }

  /** `cpu{host="a", dc="b"}`: the space is skipped, and the labels come back sorted by key. */
  lemma SpacedExample()
    ensures ParsedHuman([99, 112, 117, 123, 104, 111, 115, 116, 61, 34, 97, 34, 44, 32, 100, 99, 61, 34, 98, 34, 125])
         == Some((Lfm(Some([99, 112, 117]), [Label([100, 99], [98]), Label([104, 111, 115, 116], [97])]), []))
  {
    hide ParsedHuman, LayoutText, SortLabels, LaidLabels, LexCmp;
    ExampleText();
    LayoutReads(EXAMPLE, []);
    assert LayoutText(EXAMPLE) + [] == LayoutText(EXAMPLE);
    assert LexCmp(HOST.key, DC.key) > 0 by { ExampleOrder(); }
    TwoSorted(HOST, DC);
    OneGlyph(97);
    OneGlyph(98);
  }

  const HOST: Laid := Laid([104, 111, 115, 116], [Glyph(97, false)], 0, 0, 0, 0)
  const DC: Laid := Laid([100, 99], [Glyph(98, false)], 1, 0, 0, 0)
  const EXAMPLE: Layout := Braced([99, 112, 117], 0, 0, [HOST, DC], false, 0)

  lemma ExampleOrder()
    ensures LexCmp(HOST.key, DC.key) > 0
  {
  }

  lemma ExampleLabels()
    ensures LaidText(HOST) == [104, 111, 115, 116, 61, 34, 97, 34] && LaidText(DC) == [32, 100, 99, 61, 34, 98, 34]
  {
    hide RawText;
    assert Spaces(0) == [] && Spaces(1) == [SPACE];
    OneGlyph(97);
    OneGlyph(98);
  }

  lemma ExampleText()
    ensures LayoutText(EXAMPLE)
         == [99, 112, 117, 123, 104, 111, 115, 116, 61, 34, 97, 34, 44, 32, 100, 99, 61, 34, 98, 34, 125]
  {
    hide LaidText;
    ExampleLabels();
    assert Spaces(0) == [];
    assert [HOST, DC][1..] == [DC];
    assert ListText([DC], false, 0) == LaidText(DC) + [CLOSE];
    assert ListText([HOST, DC], false, 0) == LaidText(HOST) + ([COMMA] + ListText([DC], false, 0));
  }

  lemma OneGlyph(c: Byte)
    ensures RawText([Glyph(c, false)]) == [c] && ValueText([Glyph(c, false)]) == [c]
  {
    assert [Glyph(c, false)][1..] == [];
  }

  lemma TwoSorted(x: Laid, y: Laid)
    requires LexCmp(x.key, y.key) > 0
    ensures SortLabels(LaidLabels([x, y])) == [LaidLabel(y), LaidLabel(x)]
  {
    hide LexCmp;
    var a, b := LaidLabel(x), LaidLabel(y);
    assert [x, y][1..] == [y] && [y][1..] == [];
    assert LaidLabels([y]) == [b] && LaidLabels([x, y]) == [a, b];
    assert [a, b][1..] == [b] && [b][1..] == [];
    assert SortLabels([b]) == [b];
    assert InsertLabel(a, [b]) == [b] + InsertLabel(a, []);
  }
}
