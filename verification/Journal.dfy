/** The one-record redo journal of disk_storage.c (the scratch file) under the repository's
    own fault model: the process dies after any number of bytes of any write. */
module Journal {
  import opened Basics
  import opened Bytes

  datatype Disk = Disk(main: File, scratch: File)

  datatype Target = Main | Scratch
  datatype Write = Write(file: Target, pos: nat, data: seq<Byte>)

  const VERSION: nat := 1560537772
  const INVALID: nat := U64_MAX

  function Apply(d: Disk, w: Write): Disk
  {
    match w.file
    case Main => d.(main := Overlay(d.main, w.pos, w.data))
    case Scratch => d.(scratch := Overlay(d.scratch, w.pos, w.data))
  }

  function Run(d: Disk, ws: seq<Write>): Disk
    decreases |ws|
  {
    if ws == [] then d else Run(Apply(d, ws[0]), ws[1..])
  }

  /** The first k bytes of a write. */
  function Torn(w: Write, k: nat): Write
    requires k <= |w.data|
  {
    w.(data := w.data[..k])
  }

  /** d' is the disk after dying somewhere in the writes ws. */
  ghost predicate Crashed(d: Disk, ws: seq<Write>, d': Disk)
    decreases |ws|
  {
    ws != [] && ((exists k :: 0 <= k <= |ws[0].data| && d' == Apply(d, Torn(ws[0], k)))
                 || Crashed(Apply(d, ws[0]), ws[1..], d'))
  }

  // ----- the journal's writes -----

  /** disk_storage_get_checksum: the complement of the offset. */
  function Checksum(offset: nat): nat
    requires offset <= U64_MAX
  {
    U64_MAX - offset
  }

  function HeaderBytes(h0: nat, h1: nat): (bs: seq<Byte>)
    ensures |bs| == 16
  {
    Le(h0, 8) + Le(h1, 8)
  }

  /** disk_storage_write_scratch */
  function ScratchWrites(offset: nat, buf: seq<Byte>): seq<Write>
    requires offset <= U64_MAX
  {
    [Write(Scratch, 8, Repeat(255, 16)),
     Write(Scratch, 24, Le(|buf|, 8)),
     Write(Scratch, 32, buf),
     Write(Scratch, 8, HeaderBytes(offset, Checksum(offset)))]
  }

  /** A journaled write of buf at offset. */
  function BlockWrites(offset: nat, buf: seq<Byte>): seq<Write>
    requires offset <= U64_MAX
  {
    ScratchWrites(offset, buf) + [Write(Main, offset, buf)]
  }

  // ----- recovery -----

  datatype Record = Record(offset: nat, buf: seq<Byte>)

  predicate VersionOk(s: File)
  {
    8 <= |s| && FromLe(Slice(s, 0, 8)) == VERSION
  }

  /** The record disk_storage_recover_scratch replays, if it finds one. */
  function Parse(s: File): (r: Option<Record>)
  {
    if !VersionOk(s) || |s| < 24 then None
    else
      var h0 := FromLe(Slice(s, 8, 8));
      var h1 := FromLe(Slice(s, 16, 8));
      if h0 >= INVALID || |s| < 32 then None
      else
        var n := FromLe(Slice(s, 24, 8));
        if |s| < 32 + n || h1 != Checksum(h0) then None
        else Some(Record(h0, Slice(s, 32, n)))
  }

  /** disk_storage_recover_scratch as the writes it makes. An empty scratch file is given
      its version; a rejected one is left as it is. */
  function RecoveryWrites(d: Disk): seq<Write>
  {
    if |d.scratch| == 0 then [Write(Scratch, 0, Le(VERSION, 8))]
    else match Parse(d.scratch)
      case None => []
      case Some(r) => [Write(Main, r.offset, r.buf), Write(Scratch, 8, Repeat(255, 16))]
  }

  /** The main file once recovery has run to its end. */
  function Effective(d: Disk): File
  {
    Run(d, RecoveryWrites(d)).main
  }

  // ----- which torn headers can be accepted -----

  /** The header words are accepted as a record. */
  ghost predicate Accepts(h0: seq<Byte>, h1: seq<Byte>)
    requires |h0| == |h1| == 8
  {
    && (exists i :: 0 <= i < 8 && h0[i] != 255)
    && (forall i :: 0 <= i < 8 ==> h1[i] == 255 - h0[i])
  }

  /** h0 with its first j bytes overwritten by the invalid mark. */
  function Marked(h0: seq<Byte>, j: nat): (r: seq<Byte>)
    requires |h0| == 8 && j <= 8
    ensures |r| == 8 && forall i :: 0 <= i < 8 ==> r[i] == if i < j then 255 else h0[i]
  {
    seq(8, i requires 0 <= i < 8 => if i < j then 255 else h0[i])
  }

  /** Neither this header nor any header left by a torn invalidation of it is accepted. */
  ghost predicate QuietHeader(h0: seq<Byte>, h1: seq<Byte>)
    requires |h0| == |h1| == 8
  {
    forall j :: 0 <= j <= 8 ==> !Accepts(Marked(h0, j), h1)
  }

  ghost predicate Quiet(s: File)
  {
    VersionOk(s) && (24 <= |s| ==> QuietHeader(Slice(s, 8, 8), Slice(s, 16, 8)))
  }

  /** The scratch file holds the complete record r. */
  ghost predicate HoldsRecord(s: File, r: Record)
  {
    && 0 < r.offset < INVALID && |r.buf| <= U64_MAX
    && VersionOk(s) && 32 + |r.buf| <= |s|
    && Slice(s, 8, 8) == Le(r.offset, 8) && Slice(s, 16, 8) == Le(Checksum(r.offset), 8)
    && Slice(s, 24, 8) == Le(|r.buf|, 8) && Slice(s, 32, |r.buf|) == r.buf
  }

  /** A record that lies inside the main file. */
  ghost predicate Fits(main: File, r: Record)
  {
    r.offset + |r.buf| <= |main|
  }

  /** What holds at every moment, crashes included: no record, or one complete record that
      fits the main file. */
  ghost predicate Recoverable(d: Disk)
  {
    Quiet(d.scratch) || (exists r :: HoldsRecord(d.scratch, r) && Fits(d.main, r))
  }

  /** What holds between operations: a record left in the journal is already in place, so
      that replaying it is a no-op. */
  ghost predicate Settled(d: Disk)
  {
    Quiet(d.scratch) ||
    (exists r :: HoldsRecord(d.scratch, r) && Fits(d.main, r) && Slice(d.main, r.offset, |r.buf|) == r.buf)
  }

  lemma LeBytes(v: nat)
    requires v <= U64_MAX
    ensures FromLe(Le(v, 8)) == v
    ensures v < INVALID <==> exists i :: 0 <= i < 8 && Le(v, 8)[i] != 255
  {
    hide Le, FromLe, Pow256;
    Pow256Eight();
    LeRoundTrip(v, 8);
    AllOnes();
    if forall i :: 0 <= i < 8 ==> Le(v, 8)[i] == 255 {
      assert Le(v, 8) == Repeat(255, 8);
    }
    if v == INVALID {
      assert Le(v, 8) == Repeat(255, 8) by { FromLeRoundTrip(Repeat(255, 8)); }
    }
  }

  lemma AllOnes()
    ensures FromLe(Repeat(255, 8)) == INVALID
  {
    Pow256Eight();
    OnesBytes(8);
  }

  lemma {:induction false} OnesBytes(n: nat)
    ensures FromLe(Repeat(255, n)) == Pow256(n) - 1
  {
    if n > 0 {
      OnesBytes(n - 1);
      assert Repeat(255, n)[1..] == Repeat(255, n - 1);
    }
  }

  lemma {:induction false} ZeroBytes(n: nat)
    ensures Le(0, n) == Repeat(0, n)
  {
    if n > 0 { ZeroBytes(n - 1); }
  }

  /** Acceptance by the numbers the code compares is acceptance byte by byte. */
  lemma AcceptsByBytes(h0: seq<Byte>, h1: seq<Byte>)
    requires |h0| == |h1| == 8
    ensures FromLe(h0) <= U64_MAX
    ensures Accepts(h0, h1) <==> FromLe(h0) < INVALID && FromLe(h1) == Checksum(FromLe(h0))
  {
    hide Le, FromLe, Pow256;
    Pow256Eight();
    FromLeBound(h0);
    FromLeBound(h1);
    FromLeRoundTrip(h0);
    FromLeRoundTrip(h1);
    var v := FromLe(h0);
    LeBytes(v);
    ComplementBytes(v, 8);
    LeRoundTrip(Checksum(v), 8);
    if forall i :: 0 <= i < 8 ==> h1[i] == 255 - h0[i] {
      assert h1 == Le(Checksum(v), 8);
    }
  }

  lemma QuietParsesNone(s: File)
    requires Quiet(s)
    ensures Parse(s) == None
  {
    if 24 <= |s| {
      hide FromLe;
      var h0, h1 := Slice(s, 8, 8), Slice(s, 16, 8);
      AcceptsByBytes(h0, h1);
      assert Marked(h0, 0) == h0;
    }
  }

  lemma RecordParses(s: File, r: Record)
    requires HoldsRecord(s, r)
    ensures Parse(s) == Some(r)
  {
    hide FromLe, Le;
    LeBytes(r.offset);
    LeBytes(Checksum(r.offset));
    LeBytes(|r.buf|);
  }

  lemma EffectiveQuiet(d: Disk)
    requires Quiet(d.scratch)
    ensures Effective(d) == d.main && RecoveryWrites(d) == []
  {
    QuietParsesNone(d.scratch);
  }

  lemma RunTwo(d: Disk, w1: Write, w2: Write)
    ensures Run(d, [w1, w2]) == Apply(Apply(d, w1), w2)
  {
    hide Apply;
    assert [w1, w2][1..] == [w2] && [w2][1..] == [];
    assert Run(Apply(d, w1), [w2]) == Run(Apply(Apply(d, w1), w2), []);
  }

  lemma EffectiveRecord(d: Disk, r: Record)
    requires HoldsRecord(d.scratch, r)
    ensures RecoveryWrites(d) == [Write(Main, r.offset, r.buf), Write(Scratch, 8, Repeat(255, 16))]
    ensures Run(d, RecoveryWrites(d))
         == Disk(Overlay(d.main, r.offset, r.buf), Overlay(d.scratch, 8, Repeat(255, 16)))
    ensures Effective(d) == Overlay(d.main, r.offset, r.buf)
  {
    hide Overlay, Parse, VersionOk, HoldsRecord, Run;
    RecordParses(d.scratch, r);
    RecordVersion(d.scratch, r);
    RunTwo(d, Write(Main, r.offset, r.buf), Write(Scratch, 8, Repeat(255, 16)));
  }

  lemma RecordVersion(s: File, r: Record)
    requires HoldsRecord(s, r)
    ensures VersionOk(s) && |s| > 0
  {
  }

  /** Where a single write was cut. */
  lemma CutPoint(d: Disk, w: Write, d': Disk) returns (k: nat)
    requires Crashed(d, [w], d')
    ensures k <= |w.data| && d' == Apply(d, Torn(w, k))
  {
    hide Apply;
    assert [w][1..] == [];
    k :| 0 <= k <= |w.data| && d' == Apply(d, Torn(w, k));
  }

  // ----- torn writes of the scratch file -----

  lemma VersionKept(s: File, pos: nat, data: seq<Byte>)
    requires VersionOk(s) && 8 <= pos
    ensures VersionOk(Overlay(s, pos, data))
  {
    assert Slice(Overlay(s, pos, data), 0, 8) == Slice(s, 0, 8);
  }

  /** Any prefix of the invalidating write leaves a quiet scratch file, or leaves the
      record that was there untouched. */
  lemma TornInvalidation(s: File, k: nat)
    requires VersionOk(s) && k <= 16
    ensures var s' := Overlay(s, 8, Repeat(255, 16)[..k]);
      && (Quiet(s) ==> Quiet(s'))
      && (forall r :: HoldsRecord(s, r) ==> s' == s || Quiet(s'))
  {
    hide FromLe, Le;
    var s' := Overlay(s, 8, Repeat(255, 16)[..k]);
    VersionKept(s, 8, Repeat(255, 16)[..k]);
    if 24 <= |s'| {
      var g0, g1 := Slice(s', 8, 8), Slice(s', 16, 8);
      if 8 <= k {
        assert forall j :: 0 <= j <= 8 ==> forall i :: 0 <= i < 8 ==> Marked(g0, j)[i] == 255;
      } else {
        assert 24 <= |s|;
        var h0, h1 := Slice(s, 8, 8), Slice(s, 16, 8);
        assert g0 == Marked(h0, k) && g1 == h1;
        MarkTwice(h0, h1, k);
        forall r | HoldsRecord(s, r) ensures s' == s || Quiet(s') {
          RecordAccepts(s, r);
          MarkAccepted(h0, h1, k);
          if g0 == h0 {
            assert s' == s by { SameHeader(s, s', k); }
          }
        }
      }
    }
  }

  lemma SameHeader(s: File, s': File, k: nat)
    requires 24 <= |s| && k < 8 && s' == Overlay(s, 8, Repeat(255, 16)[..k])
    requires Slice(s', 8, 8) == Slice(s, 8, 8)
    ensures s' == s
  {
    forall i | 0 <= i < |s| ensures s'[i] == s[i] {
      if 8 <= i < 16 {
        assert Slice(s', 8, 8)[i - 8] == Slice(s, 8, 8)[i - 8];
      }
    }
  }

  lemma RecordAccepts(s: File, r: Record)
    requires HoldsRecord(s, r)
    ensures Accepts(Slice(s, 8, 8), Slice(s, 16, 8))
  {
    hide FromLe, Le;
    LeBytes(r.offset);
    LeBytes(Checksum(r.offset));
    AcceptsByBytes(Slice(s, 8, 8), Slice(s, 16, 8));
  }

  lemma MarkTwice(h0: seq<Byte>, h1: seq<Byte>, k: nat)
    requires |h0| == |h1| == 8 && k <= 8
    ensures QuietHeader(h0, h1) ==> QuietHeader(Marked(h0, k), h1)
  {
    if QuietHeader(h0, h1) {
      forall j | 0 <= j <= 8 ensures !Accepts(Marked(Marked(h0, k), j), h1) {
        assert Marked(Marked(h0, k), j) == Marked(h0, if j < k then k else j);
      }
    }
  }

  /** Marking an accepted header either changes nothing or makes it quiet. */
  lemma MarkAccepted(h0: seq<Byte>, h1: seq<Byte>, k: nat)
    requires |h0| == |h1| == 8 && k <= 8 && Accepts(h0, h1)
    ensures Marked(h0, k) == h0 || QuietHeader(Marked(h0, k), h1)
  {
    if Marked(h0, k) != h0 {
      var i :| 0 <= i < 8 && Marked(h0, k)[i] != h0[i];
      forall j | 0 <= j <= 8 ensures !Accepts(Marked(Marked(h0, k), j), h1) {
        assert Marked(Marked(h0, k), j)[i] == 255;
        assert h1[i] == 255 - h0[i];
      }
    }
  }

  /** A scratch file whose header is the invalid mark. */
  ghost predicate Invalidated(s: File)
  {
    VersionOk(s) && 24 <= |s| && forall i :: 8 <= i < 24 ==> s[i] == 255
  }

  lemma InvalidatedQuiet(s: File)
    requires Invalidated(s)
    ensures Quiet(s)
  {
    assert forall i :: 0 <= i < 8 ==> Slice(s, 8, 8)[i] == 255;
  }

  lemma BodyWriteKeeps(s: File, pos: nat, data: seq<Byte>)
    requires Invalidated(s) && 24 <= pos
    ensures Invalidated(Overlay(s, pos, data))
  {
    VersionKept(s, pos, data);
  }

  lemma FullInvalidation(s: File)
    requires VersionOk(s)
    ensures Invalidated(Overlay(s, 8, Repeat(255, 16)))
  {
    VersionKept(s, 8, Repeat(255, 16));
  }

  /** An invalidated scratch file with a complete body for the buffer buf. */
  ghost predicate BodyReady(s: File, buf: seq<Byte>)
  {
    && Invalidated(s) && |buf| <= U64_MAX && 32 + |buf| <= |s|
    && Slice(s, 24, 8) == Le(|buf|, 8) && Slice(s, 32, |buf|) == buf
  }

  /** Any prefix of the final header write is quiet, or is the complete record. */
  lemma TornHeader(s: File, offset: nat, buf: seq<Byte>, k: nat)
    requires BodyReady(s, buf) && 0 < offset < INVALID && k <= 16
    ensures var s' := Overlay(s, 8, HeaderBytes(offset, Checksum(offset))[..k]);
      && (Quiet(s') || HoldsRecord(s', Record(offset, buf)))
      && (k == 16 ==> HoldsRecord(s', Record(offset, buf)))
  {
    hide FromLe, Le, Pow256;
    var header := HeaderBytes(offset, Checksum(offset));
    var s' := Overlay(s, 8, header[..k]);
    VersionKept(s, 8, header[..k]);
    var a, c := Le(offset, 8), Le(Checksum(offset), 8);
    Pow256Eight();
    ComplementBytes(offset, 8);
    LeBytes(offset);
    NonZeroByte(offset);
    var g0, g1 := Slice(s', 8, 8), Slice(s', 16, 8);
    assert forall i :: 0 <= i < 8 ==> g0[i] == if i < k then a[i] else 255;
    assert forall i :: 0 <= i < 8 ==> g1[i] == if 8 + i < k then c[i] else 255;
    assert Slice(s', 24, 8) == Slice(s, 24, 8) && Slice(s', 32, |buf|) == Slice(s, 32, |buf|);
    if k < 8 {
      assert g0[7] == 255 && g1[7] == 255;
      assert forall j :: 0 <= j <= 8 ==> Marked(g0, j)[7] == 255;
    } else {
      assert g0 == a;
      if g1 == c {
      } else {
        assert k < 16;
        HeaderTail(a, c, g1, k - 8);
      }
    }
  }

  lemma NonZeroByte(v: nat)
    requires 0 < v <= U64_MAX
    ensures exists i :: 0 <= i < 8 && Le(v, 8)[i] != 0
  {
    Pow256Eight();
    LeRoundTrip(v, 8);
    ZeroBytes(8);
    LeRoundTrip(0, 8);
    hide Le, FromLe;
    assert Le(v, 8) != Repeat(0, 8);
  }

  /** A checksum of which only the first m bytes were written, over the invalid mark. */
  lemma HeaderTail(a: seq<Byte>, c: seq<Byte>, g1: seq<Byte>, m: nat)
    requires |a| == |c| == |g1| == 8 && m < 8
    requires forall i :: 0 <= i < 8 ==> c[i] == 255 - a[i]
    requires forall i :: 0 <= i < 8 ==> g1[i] == if i < m then c[i] else 255
    requires g1 != c
    ensures QuietHeader(a, g1)
  {
    var x :| 0 <= x < 8 && g1[x] != c[x];
    assert m <= x && a[x] != 0;
    forall j | 0 <= j <= 8 ensures !Accepts(Marked(a, j), g1) {
      assert g1[x] == 255;
      assert Marked(a, j)[x] != 0;
    }
  }

  // ----- crashes -----

  /** A disk that recovery will bring to `main`, now or after any further crashes. */
  ghost predicate Leads(d: Disk, main: File)
  {
    Recoverable(d) && Effective(d) == main
  }

  lemma QuietLeads(d: Disk)
    requires Quiet(d.scratch)
    ensures Leads(d, d.main)
  {
    EffectiveQuiet(d);
  }

  lemma RecordLeads(d: Disk, r: Record)
    requires HoldsRecord(d.scratch, r) && Fits(d.main, r)
    ensures Leads(d, Overlay(d.main, r.offset, r.buf))
  {
    EffectiveRecord(d, r);
  }

  lemma SettledLeads(d: Disk)
    requires Settled(d)
    ensures VersionOk(d.scratch) && Leads(d, d.main)
  {
    if Quiet(d.scratch) {
      QuietLeads(d);
    } else {
      var r :| HoldsRecord(d.scratch, r) && Fits(d.main, r) && Slice(d.main, r.offset, |r.buf|) == r.buf;
      RecordLeads(d, r);
      OverlayIdle(d.main, r.offset, r.buf);
    }
  }

  /** Dying inside the invalidating write of a settled disk. */
  lemma CrashInInvalidation(d: Disk, k: nat)
    requires Settled(d) && k <= 16
    ensures Leads(d.(scratch := Overlay(d.scratch, 8, Repeat(255, 16)[..k])), d.main)
  {
    hide Quiet, HoldsRecord, VersionOk, Overlay, Effective;
    SettledLeads(d);
    TornInvalidation(d.scratch, k);
    var d' := d.(scratch := Overlay(d.scratch, 8, Repeat(255, 16)[..k]));
    if Quiet(d'.scratch) {
      QuietLeads(d');
    } else {
      assert d' == d;
    }
  }

  lemma InvalidatedLeads(d: Disk)
    requires Invalidated(d.scratch)
    ensures Leads(d, d.main)
  {
    InvalidatedQuiet(d.scratch);
    QuietLeads(d);
  }

  /** Atomicity of one journaled write: dying anywhere in it leaves a disk that recovers to
      the old main file or to the new one. */
  lemma WriteAtomic(d: Disk, offset: nat, buf: seq<Byte>, d': Disk)
    requires Settled(d) && 0 < offset < INVALID && |buf| <= U64_MAX && offset + |buf| <= |d.main|
    requires Crashed(d, BlockWrites(offset, buf), d')
    ensures Leads(d', d.main) || Leads(d', Overlay(d.main, offset, buf))
  {
    hide Quiet, HoldsRecord, VersionOk, Overlay, Effective, Settled, Invalidated, Leads, HeaderBytes, Le, BodyReady;
    var w := BlockWrites(offset, buf);
    assert w[1..] == [w[1], w[2], w[3], w[4]];
    var d1 := Apply(d, w[0]);
    SettledLeads(d);
    FullInvalidation(d.scratch);
    if k :| 0 <= k <= |w[0].data| && d' == Apply(d, Torn(w[0], k)) {
      CrashInInvalidation(d, k);
    } else {
      WriteAtomicBody(d.main, d1, offset, buf, d');
    }
  }

  lemma WriteAtomicBody(main: File, d1: Disk, offset: nat, buf: seq<Byte>, d': Disk)
    requires d1.main == main && Invalidated(d1.scratch)
    requires 0 < offset < INVALID && |buf| <= U64_MAX && offset + |buf| <= |main|
    requires Crashed(d1, BlockWrites(offset, buf)[1..], d')
    ensures Leads(d', main) || Leads(d', Overlay(main, offset, buf))
  {
    hide Quiet, HoldsRecord, VersionOk, Overlay, Effective, Settled, Invalidated, Leads, HeaderBytes, Le, BodyReady;
    var w := BlockWrites(offset, buf);
    assert w[1..][0] == w[1] && w[1..][1..] == w[2..];
    assert w[2..][0] == w[2] && w[2..][1..] == w[3..];
    var d2 := Apply(d1, w[1]);
    var d3 := Apply(d2, w[2]);
    BodyWriteKeeps(d1.scratch, 24, Le(|buf|, 8));
    if k :| 0 <= k <= |w[1].data| && d' == Apply(d1, Torn(w[1], k)) {
      BodyWriteKeeps(d1.scratch, 24, w[1].data[..k]);
      InvalidatedLeads(d');
    } else if k :| 0 <= k <= |w[2].data| && d' == Apply(d2, Torn(w[2], k)) {
      BodyWriteKeeps(d2.scratch, 32, w[2].data[..k]);
      InvalidatedLeads(d');
    } else {
      BodyWritten(d1.scratch, buf);
      WriteAtomicEnd(main, d3, offset, buf, d');
    }
  }

  lemma BodyWritten(s: File, buf: seq<Byte>)
    requires Invalidated(s) && |buf| <= U64_MAX
    ensures BodyReady(Overlay(Overlay(s, 24, Le(|buf|, 8)), 32, buf), buf)
  {
    hide Le, Overlay;
    var s1 := Overlay(s, 24, Le(|buf|, 8));
    var s2 := Overlay(s1, 32, buf);
    BodyWriteKeeps(s, 24, Le(|buf|, 8));
    BodyWriteKeeps(s1, 32, buf);
    OverlayReads(s, 24, Le(|buf|, 8));
    OverlayReads(s1, 32, buf);
    OverlayMisses(s1, 32, buf, 24, 8);
  }

  lemma WriteAtomicEnd(main: File, d3: Disk, offset: nat, buf: seq<Byte>, d': Disk)
    requires d3.main == main && BodyReady(d3.scratch, buf)
    requires 0 < offset < INVALID && offset + |buf| <= |main|
    requires Crashed(d3, BlockWrites(offset, buf)[3..], d')
    ensures Leads(d', main) || Leads(d', Overlay(main, offset, buf))
  {
    hide Quiet, HoldsRecord, VersionOk, Overlay, Effective, Settled, Invalidated, Leads, HeaderBytes, Le, BodyReady;
    var w, r := BlockWrites(offset, buf), Record(offset, buf);
    assert w[3..] == [w[3], w[4]] && w[3..][1..] == [w[4]] && [w[4]][1..] == [];
    var d4 := Apply(d3, w[3]);
    TornHeader(d3.scratch, offset, buf, 16);
    assert w[3].data[..16] == w[3].data;
    if k :| 0 <= k <= |w[3].data| && d' == Apply(d3, Torn(w[3], k)) {
      TornHeader(d3.scratch, offset, buf, k);
      if Quiet(d'.scratch) {
        QuietLeads(d');
      } else {
        RecordLeads(d', r);
      }
    } else {
      var k := CutPoint(d4, w[4], d');
      OverlayResumes(main, offset, buf, k);
      RecordLeads(d', r);
    }
  }

  /** The disk after a journaled write that was not interrupted. */
  lemma WriteCompletes(d: Disk, offset: nat, buf: seq<Byte>)
    requires Settled(d) && 0 < offset < INVALID && |buf| <= U64_MAX && offset + |buf| <= |d.main|
    ensures var d' := Run(d, BlockWrites(offset, buf));
      d'.main == Overlay(d.main, offset, buf) && Settled(d')
  {
    hide Quiet, HoldsRecord, VersionOk, Overlay, Effective, Invalidated, HeaderBytes, Le, BodyReady, Run;
    var w, r := BlockWrites(offset, buf), Record(offset, buf);
    SettledLeads(d);
    FullInvalidation(d.scratch);
    BodyWritten(Apply(d, w[0]).scratch, buf);
    var d3 := Apply(Apply(Apply(d, w[0]), w[1]), w[2]);
    TornHeader(d3.scratch, offset, buf, 16);
    assert w[3].data[..16] == w[3].data;
    RunFive(d, w[0], w[1], w[2], w[3], w[4]);
    assert w == [w[0], w[1], w[2], w[3], w[4]];
    var d' := Run(d, w);
    InPlace(d.main, r);
    assert HoldsRecord(d'.scratch, r) && Fits(d'.main, r);
  }

  lemma RunFive(d: Disk, a: Write, b: Write, c: Write, e: Write, f: Write)
    ensures Run(d, [a, b, c, e, f]) == Apply(Apply(Apply(Apply(Apply(d, a), b), c), e), f)
  {
    hide Apply;
    assert [a, b, c, e, f][1..] == [b, c, e, f] && [b, c, e, f][1..] == [c, e, f] && [c, e, f][1..] == [e, f];
    var d3 := Apply(Apply(Apply(d, a), b), c);
    assert Run(d, [a, b, c, e, f]) == Run(Apply(d, a), [b, c, e, f]);
    assert Run(Apply(d, a), [b, c, e, f]) == Run(Apply(Apply(d, a), b), [c, e, f]);
    assert Run(Apply(Apply(d, a), b), [c, e, f]) == Run(d3, [e, f]);
    RunTwo(d3, e, f);
  }

  /** Dying anywhere in recovery does not change what recovery leads to. */
  lemma RecoveryAtomic(d: Disk, d': Disk)
    requires Recoverable(d) && Crashed(d, RecoveryWrites(d), d')
    ensures Leads(d', Effective(d))
  {
    hide Quiet, HoldsRecord, VersionOk, Overlay, Effective, Leads;
    if Quiet(d.scratch) {
      EffectiveQuiet(d);
    } else {
      var r :| HoldsRecord(d.scratch, r) && Fits(d.main, r);
      EffectiveRecord(d, r);
      var w1, w2 := Write(Main, r.offset, r.buf), Write(Scratch, 8, Repeat(255, 16));
      assert [w1, w2][1..] == [w2] && [w2][1..] == [];
      if k :| 0 <= k <= |w1.data| && d' == Apply(d, Torn(w1, k)) {
        OverlayResumes(d.main, r.offset, r.buf, k);
        RecordLeads(d', r);
      } else {
        var d1 := Apply(d, w1);
        var k := CutPoint(d1, w2, d');
        InPlace(d.main, r);
        CrashInInvalidation(d1, k);
      }
    }
  }

  lemma InPlace(main: File, r: Record)
    requires Fits(main, r)
    ensures var m := Overlay(main, r.offset, r.buf);
      Fits(m, r) && |m| == |main| && Slice(m, r.offset, |r.buf|) == r.buf
  {
  }

  /** Recovery run to its end settles the disk. */
  lemma RecoveryCompletes(d: Disk)
    requires Recoverable(d)
    ensures var d' := Run(d, RecoveryWrites(d)); d'.main == Effective(d) && Settled(d')
  {
    hide Quiet, HoldsRecord, VersionOk, Overlay, Invalidated;
    if Quiet(d.scratch) {
      EffectiveQuiet(d);
    } else {
      var r :| HoldsRecord(d.scratch, r) && Fits(d.main, r);
      EffectiveRecord(d, r);
      RecordVersion(d.scratch, r);
      FullInvalidation(d.scratch);
      InvalidatedQuiet(Overlay(d.scratch, 8, Repeat(255, 16)));
    }
  }

  /** Any number of interrupted recoveries. */
  ghost predicate CrashedRecoveries(ds: seq<Disk>)
  {
    ds != [] && forall i :: 0 <= i < |ds| - 1 ==> Crashed(ds[i], RecoveryWrites(ds[i]), ds[i + 1])
  }

  lemma {:induction false} RecoveriesAgree(ds: seq<Disk>, main: File)
    requires CrashedRecoveries(ds) && Leads(ds[0], main)
    ensures Leads(ds[|ds| - 1], main)
    decreases |ds|
  {
    if |ds| > 1 {
      RecoveryAtomic(ds[0], ds[1]);
      RecoveriesAgree(ds[1..], main);
    }
  }

  /** The whole story of a journaled write: it dies anywhere, recovery dies any number of
      times, and the re-open that gets through finds the old file or the new file. */
  lemma WriteSurvivesCrashes(d: Disk, offset: nat, buf: seq<Byte>, ds: seq<Disk>)
    requires Settled(d) && 0 < offset < INVALID && |buf| <= U64_MAX && offset + |buf| <= |d.main|
    requires CrashedRecoveries(ds) && Crashed(d, BlockWrites(offset, buf), ds[0])
    ensures var end := Run(ds[|ds| - 1], RecoveryWrites(ds[|ds| - 1]));
      Settled(end) && (end.main == d.main || end.main == Overlay(d.main, offset, buf))
  {
    hide Settled, Crashed, Overlay, BlockWrites;
    WriteAtomic(d, offset, buf, ds[0]);
    if Leads(ds[0], d.main) {
      RecoveriesAgree(ds, d.main);
    } else {
      RecoveriesAgree(ds, Overlay(d.main, offset, buf));
    }
    RecoveryCompletes(ds[|ds| - 1]);
  }
}
