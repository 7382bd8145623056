/** The scanner, parser and printer of the human form as they run: a cursor moved over the
    text, and a buffer filled piece by piece (lfm_human_parser.c). */
module LfmText {
  import opened Basics
  import opened Bytes
  import opened LfmBinary
  import opened LfmHuman

  /** scanIdent */
  method ScanIdent(s: seq<Byte>, pos: nat) returns (lit: seq<Byte>, pos': nat)
    requires pos < |s| && Leads(s[pos])
    ensures pos' == pos + IdentLength(s[pos..]) <= |s| && lit == s[pos..pos']
  {
    var i := 1;
    assert s[pos..][1..] == s[pos + 1..];
    while pos + i < |s| && Follows(s[pos + i])
      invariant pos + i <= |s| && IdentLength(s[pos..]) == i + IdentLength(s[pos + i..])
    {
      assert s[pos + i..][1..] == s[pos + i + 1..];
      i := i + 1;
    }
    lit, pos' := s[pos..pos + i], pos + i;
  }

  /** A quoted string of which t has been read already. */
  function Resumed(t: seq<Byte>, r: Option<(seq<Byte>, seq<Byte>)>): Option<(seq<Byte>, seq<Byte>)>
  {
    if r.None? then None else Some((t + r.value.0, r.value.1))
  }

  lemma UnquoteStep(s: seq<Byte>, i: nat, t: seq<Byte>)
    requires i < |s| && s[i] != QUOTE
    ensures s[i] != BACKSLASH ==> Resumed(t, Unquoted(s[i..])) == Resumed(t + [s[i]], Unquoted(s[i + 1..]))
    ensures s[i] == BACKSLASH && i + 1 < |s| ==>
      Resumed(t, Unquoted(s[i..])) == Resumed(t + [s[i + 1]], Unquoted(s[i + 2..]))
    ensures s[i] == BACKSLASH && i + 1 == |s| ==> Unquoted(s[i..]).None?
  {
    assert s[i..][1..] == s[i + 1..];
    if s[i] == BACKSLASH {
      if i + 1 < |s| {
        assert s[i..][2..] == s[i + 2..];
        var r := Unquoted(s[i + 2..]);
        assert r.Some? ==> t + ([s[i + 1]] + r.value.0) == t + [s[i + 1]] + r.value.0;
      }
    } else {
      var r := Unquoted(s[i + 1..]);
      assert r.Some? ==> t + ([s[i]] + r.value.0) == t + [s[i]] + r.value.0;
    }
  }

  /** scanQuotedString */
  method ScanQuotedString(s: seq<Byte>, pos: nat) returns (lit: Option<seq<Byte>>, pos': nat)
    requires pos < |s| && s[pos] == QUOTE
    ensures pos' <= |s|
    ensures Unquoted(s[pos + 1..]) == if lit.None? then None else Some((lit.value, s[pos'..]))
  {
    hide Unquoted;
    var i, t: seq<Byte> := pos + 1, [];
    ghost var want := Unquoted(s[pos + 1..]);
    assert want.Some? ==> [] + want.value.0 == want.value.0;
    while true
      invariant i <= |s| && want == Resumed(t, Unquoted(s[i..]))
      decreases |s| - i
    {
      if i == |s| {
        UnquoteEnds(s, i);
        return None, pos;
      }
      if s[i] == QUOTE {
        UnquoteEnds(s, i);
        assert t + [] == t;
        return Some(t), i + 1;
      }
      UnquoteStep(s, i, t);
      if s[i] == BACKSLASH {
        if i + 1 == |s| { return None, pos; }
        t := t + [s[i + 1]];
        i := i + 2;
      } else {
        t := t + [s[i]];
        i := i + 1;
      }
    }
  }

  lemma UnquoteEnds(s: seq<Byte>, i: nat)
    requires i <= |s|
    ensures i == |s| ==> Unquoted(s[i..]).None?
    ensures i < |s| && s[i] == QUOTE ==> Unquoted(s[i..]) == Some(([], s[i + 1..]))
  {
    assert i < |s| ==> s[i..][1..] == s[i + 1..];
  }

  /** scan, on text without numbers */
  method Scan(s: seq<Byte>, start: nat) returns (tok: Option<Token>, pos: nat)
    requires start <= |s|
    ensures start <= pos <= |s| && (tok.Some? && tok.value != End ==> start < pos)
    ensures Scanned(s[start..]) == if tok.None? then None else Some((tok.value, s[pos..]))
  {
    hide Unquoted, IdentLength;
    pos := start;
    while pos < |s| && s[pos] == SPACE
      invariant start <= pos <= |s| && Trimmed(s[start..]) == Trimmed(s[pos..])
    {
      assert s[pos..][1..] == s[pos + 1..];
      pos := pos + 1;
    }
    ghost var t := s[pos..];
    assert Trimmed(s[start..]) == t;
    if pos == |s| { return Some(End), pos; }
    var c := s[pos];
    assert t[1..] == s[pos + 1..];
    if Leads(c) {
      var lit, end := ScanIdent(s, pos);
      IdentTakes(t);
      assert t[..end - pos] == lit && t[end - pos..] == s[end..];
      return Some(Ident(lit)), end;
    }
    if c == QUOTE {
      var lit, end := ScanQuotedString(s, pos);
      if lit.None? { return None, pos; }
      assert |s[end..]| < |s[pos + 1..]|;
      return Some(Quoted(lit.value)), end;
    }
    tok := Punctuation(c);
    if tok.Some? { pos := pos + 1; }
  }

  lemma IdentTakes(t: seq<Byte>)
    requires t != [] && Leads(t[0])
    ensures IdentLength(t) > 0
  {
  }

  /** The label loop of parse_human_lfm_helper, from the first key on. */
  method ParseLabels(s: seq<Byte>, start: nat) returns (r: Option<seq<Label>>, pos: nat)
    requires start <= |s|
    ensures start <= pos <= |s|
    ensures LabelsAt(s[start..]) == if r.None? then None else Some((r.value, s[pos..]))
  {
    hide Scanned, LabelsAt;
    pos := start;
    var labels: seq<Label> := [];
    ghost var want := LabelsAt(s[start..]);
    assert want.Some? ==> [] + want.value.0 == want.value.0;
    while true
      invariant start <= pos <= |s|
      invariant var rest := LabelsAt(s[pos..]);
        want == if rest.None? then None else Some((labels + rest.value.0, rest.value.1))
      decreases |s| - pos
    {
      LabelsTurn(s[pos..], labels);
      var t, key, val, more;
      more, t, key, val, pos := ParseTurn(s, pos);
      if !more {
        return if t then Some(if key.Some? then labels + [Label(key.value, val)] else labels) else None, pos;
      }
      labels := labels + [Label(key.value, val)];
    }
  }

  /** What one turn means for the labels as a whole. */
  lemma LabelsTurn(s: seq<Byte>, labels: seq<Label>)
    ensures var all, t := LabelsAt(s), TurnAt(s);
      && (t.Bad? ==> all.None?)
      && (t.Closed? ==> all.Some? && all.value.1 == t.rest && labels + all.value.0 == labels)
      && (t.Found? && !t.more ==> all == Some(([t.item], t.rest)))
      && (t.Found? && t.more ==> var rest := LabelsAt(t.rest);
            if rest.None? then all.None?
            else all.Some? && labels + all.value.0 == labels + [t.item] + rest.value.0 && all.value.1 == rest.value.1)
  {
  }

  /** One key="value" and the separator after it. */
  method ParseTurn(s: seq<Byte>, start: nat)
      returns (more: bool, ok: bool, key: Option<seq<Byte>>, val: seq<Byte>, pos: nat)
    requires start <= |s|
    ensures start <= pos <= |s| && (more ==> ok && key.Some? && start < pos)
    ensures TurnAt(s[start..]) ==
      if !ok then Bad else if key.None? then Closed(s[pos..]) else Found(Label(key.value, val), more, s[pos..])
  {
    hide Scanned;
    more, ok, key, val := false, false, None, [];
    var tok;
    tok, pos := Scan(s, start);
    if tok.None? { return; }
    if tok.value == CloseBrace { ok := true; return; }
    if !tok.value.Ident? { return; }
    var k := tok.value.lit;
    tok, pos := Scan(s, pos);
    if tok.None? || tok.value != Equal { return; }
    tok, pos := Scan(s, pos);
    if tok.None? || !tok.value.Quoted? { return; }
    val := tok.value.lit;
    tok, pos := Scan(s, pos);
    if tok.None? { return; }
    if tok.value == CloseBrace || tok.value == Comma {
      ok, key, more := true, Some(k), tok.value == Comma;
    }
  }

  /** parse_human_lfm_helper */
  method ParseHuman(s: seq<Byte>) returns (r: Option<Lfm>, pos: nat)
    ensures pos <= |s|
    ensures ParsedHuman(s) == if r.None? then None else Some((r.value, s[pos..]))
  {
    hide Scanned, LabelsAt, SortLabels;
    assert s[0..] == s;
    r := None;
    var tok;
    tok, pos := Scan(s, 0);
    if tok.None? || !(tok.value.Ident? || tok.value == OpenBrace) { return; }
    var name: seq<Byte> := [];
    if tok.value.Ident? {
      name := tok.value.lit;
      tok, pos := Scan(s, pos);
      if tok.None? { return; }
      if tok.value == End { return Some(Lfm(Some(name), [])), pos; }
      if tok.value != OpenBrace { return; }
    }
    var labels;
    labels, pos := ParseLabels(s, pos);
    if labels.Some? { r := Some(Lfm(Some(name), SortLabels(labels.value))); }
  }

  // ----- the printer -----

  /** Labels, the first one led by this byte and the others by a comma. */
  function Items(lead: Byte, ls: seq<Label>): seq<Byte>
    decreases ls
  {
    if ls == [] then [] else [lead] + LabelText(ls[0]) + Items(COMMA, ls[1..])
  }

  lemma {:induction false} ItemsClose(lead: Byte, ls: seq<Label>)
    requires ls != []
    ensures [lead] + LabelsText(ls) == Items(lead, ls) + [CLOSE]
    decreases ls
  {
    hide LabelText;
    if |ls| > 1 {
      ItemsClose(COMMA, ls[1..]);
    } else {
      assert ls[1..] == [];
    }
  }

  lemma {:induction false} ItemsNext(lead: Byte, ls: seq<Label>, x: Label)
    ensures Items(lead, ls + [x]) == Items(lead, ls) + [if ls == [] then lead else COMMA] + LabelText(x)
    decreases ls
  {
    hide LabelText;
    if ls == [] {
      assert ls + [x] == [x] && [x][1..] == [];
    } else {
      assert (ls + [x])[1..] == ls[1..] + [x];
      ItemsNext(COMMA, ls[1..], x);
    }
  }

  /** The room the first loop of encode_human_lfm counts for the labels. */
  function Room(ls: seq<Label>): nat
  {
    if ls == [] then 0 else 10 + |ls[0].key| + |ls[0].value| + Room(ls[1..])
  }

  lemma {:induction false} RoomNext(ls: seq<Label>, i: nat)
    requires i < |ls|
    ensures Room(ls[..i + 1]) == Room(ls[..i]) + 10 + |ls[i].key| + |ls[i].value|
    ensures Room(ls[..i + 1]) <= Room(ls)
  {
    if i == 0 {
      assert ls[..1] == [ls[0]] && [ls[0]][1..] == [] && ls[..0] == [];
    } else {
      RoomNext(ls[1..], i - 1);
      assert ls[..i + 1][1..] == ls[1..][..i] && ls[..i][1..] == ls[1..][..i - 1];
    }
  }

  /** sprintf at the end of the text: the bytes and a terminator. */
  method Append(buf: array<Byte>, t: nat, bytes: seq<Byte>) returns (t': nat)
    requires t + |bytes| < buf.Length
    modifies buf
    ensures t' == t + |bytes| && buf[..t'] == old(buf[..t]) + bytes && buf[t'] == 0
  {
    Put(buf, t, bytes);
    t' := t + |bytes|;
    buf[t'] := 0;
  }

  /** encode_human_lfm: the terminated text, inside the buffer sized beforehand. */
  method EncodeHuman(lfm: Lfm) returns (buf: array<Byte>, n: nat)
    ensures fresh(buf) && n < buf.Length && buf[..n] == EncodedHuman(lfm) && buf[n] == 0
  {
    hide LabelText, LabelsText, Room, Items;
    var name, ls := NameOf(lfm), lfm.labels;
    var m := |name| + Room(ls) + 1;
    buf := new Byte[m];
    buf[0] := 0;
    n := Append(buf, 0, name);
    assert buf[..n] == name;
    if |ls| > 0 {
      var i := 0;
      NoItems(ls);
      while i < |ls|
        invariant 0 <= i <= |ls| && n < m && buf[..n] == name + Items(OPEN, ls[..i])
        invariant n <= |name| + Room(ls[..i]) && (i > 0 ==> n < |name| + Room(ls[..i])) && Room(ls[..i]) <= Room(ls)
      {
        RoomNext(ls, i);
        ItemsNext(OPEN, ls[..i], ls[i]);
        assert ls[..i + 1] == ls[..i] + [ls[i]];
        LabelSize(ls[i]);
        n := Append(buf, n, [if i == 0 then OPEN else COMMA]);
        n := Append(buf, n, LabelText(ls[i]));
        i := i + 1;
      }
      assert ls[..i] == ls;
      ItemsClose(OPEN, ls);
      n := Append(buf, n, [CLOSE]);
    }
  }

  lemma NoItems(ls: seq<Label>)
    ensures Items(OPEN, ls[..0]) == [] && Room(ls[..0]) == 0
  {
  }

  lemma LabelSize(l: Label)
    ensures |LabelText(l)| == |l.key| + |l.value| + 3
  {
  }
}
