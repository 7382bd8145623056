/** The buffered reader of a connection (structured_stream.c:92-139, 179-435) and the client's
    loop over a lookup answer (client.c:452-476). */
module Stream {
  import opened Basics
  import opened Bytes
  import opened Lookup

  datatype Status = Ok | Eof | TooSmall | Underrun | Other

  /** How one read() call behaves: it delivers at most this many bytes (and at least one),
      reports EAGAIN, or fails. */
  datatype Delivery = Chunk(most: nat) | Again | Fail

  // ----- reads on the plain byte stream -----

  /** The reads a caller may ask for: fixed width, bytes left in the buffer, a length-prefixed
      record left in the buffer, a record copied to a buffer of the caller, and one copied
      with a terminator. */
  datatype Ask = Fixed(n: nat) | InPlace(n: nat) | Prefixed | Copied(size: nat) | Text(size: nat)

  datatype Reply = Got(bytes: seq<Byte>) | Failed(status: Status)

  /** The next n bytes through a buffer of the given size; short is the error at the end. */
  function ServeBytes(stream: seq<Byte>, n: nat, size: nat, short: Status): (Reply, seq<Byte>)
  {
    if n > size then (Failed(TooSmall), stream)
    else if n > |stream| then (Failed(short), stream)
    else (Got(stream[..n]), stream[n..])
  }

  function ServeRecord(stream: seq<Byte>, size: nat): (Reply, seq<Byte>)
  {
    if 2 > size then (Failed(TooSmall), stream)
    else if 2 > |stream| then (Failed(Eof), stream)
    else
      var n := FromLe(stream[..2]);
      if n + 2 > size then (Failed(TooSmall), stream)
      else if n + 2 > |stream| then (Failed(Underrun), stream)
      else (Got(stream[2..2 + n]), stream[2 + n..])
  }

  /** A record for which the caller has room for at most this many bytes: a longer one is
      consumed all the same. */
  function ServeCopy(stream: seq<Byte>, room: int, size: nat): (Reply, seq<Byte>)
  {
    var (reply, rest) := ServeRecord(stream, size);
    if reply.Got? && |reply.bytes| > room then (Failed(TooSmall), rest) else (reply, rest)
  }

  /** One read on the plain byte stream, through a buffer of the given size. */
  function Serve(stream: seq<Byte>, ask: Ask, size: nat): (Reply, seq<Byte>)
  {
    match ask
    case Fixed(n) => ServeBytes(stream, n, size, Eof)
    case InPlace(n) => ServeBytes(stream, n, size, Underrun)
    case Prefixed => ServeRecord(stream, size)
    case Copied(room) => ServeCopy(stream, room, size)
    case Text(room) => ServeCopy(stream, room - 1, size)
  }

  function ServeAll(stream: seq<Byte>, asks: seq<Ask>, size: nat): seq<Reply>
  {
    if asks == [] then []
    else
      var (reply, rest) := Serve(stream, asks[0], size);
      [reply] + ServeAll(rest, asks[1..], size)
  }

  /** A failed read takes bytes from the stream exactly when a whole record is there that the
      buffer holds and the caller's does not; that record is lost. */
  lemma LossExact(stream: seq<Byte>, ask: Ask, size: nat)
    ensures var (reply, rest) := Serve(stream, ask, size);
      reply.Failed? && rest != stream <==>
      && (ask.Copied? || ask.Text?)
      && 2 <= |stream| && 2 + FromLe(stream[..2]) <= |stream| && 2 + FromLe(stream[..2]) <= size
      && FromLe(stream[..2]) + (if ask.Text? then 1 else 0) > ask.size
  {
    hide FromLe;
  }

  /** Three bytes sent to a caller with room for two: the reply is an error, and the next read
      starts behind them. */
  lemma RecordLost()
    ensures Serve([3, 0, 65, 66, 67, 9], Copied(2), 64) == (Failed(TooSmall), [9])
  {
    var s: seq<Byte> := [3, 0, 65, 66, 67, 9];
    assert s[..2] == [3, 0] && [3, 0][1..] == [0] && s[5..] == [9];
    assert FromLe(s[..2]) == 3;
  }

  /** The stream starts with this length-prefixed record. */
  ghost predicate IsRecord(stream: seq<Byte>, bytes: seq<Byte>, rest: seq<Byte>)
  {
    |bytes| < 0x1_0000 && stream == Le(|bytes|, 2) + bytes + rest
  }

  lemma RecordMade(prefix: seq<Byte>, bytes: seq<Byte>, rest: seq<Byte>)
    requires |prefix| == 2 && FromLe(prefix) == |bytes|
    ensures IsRecord(prefix + bytes + rest, bytes, rest)
  {
    FromLeBound(prefix);
    FromLeRoundTrip(prefix);
    assert Pow256(2) == 0x1_0000;
  }

  lemma PrefixRead(stream: seq<Byte>, bytes: seq<Byte>, rest: seq<Byte>, size: nat)
    requires IsRecord(stream, bytes, rest) && 2 + |bytes| <= size
    ensures ServeRecord(stream, size) == (Got(bytes), rest)
  {
    LeRoundTrip(|bytes|, 2);
    assert stream[..2] == Le(|bytes|, 2);
  }

  /** Fixed-width reads: the next n bytes, exactly when the buffer can hold and the stream has them. */
  lemma BytesExact(stream: seq<Byte>, n: nat, size: nat, short: Status)
    requires short != TooSmall
    ensures var (reply, rest) := ServeBytes(stream, n, size, short);
      && (reply.Got? <==> n <= size && n <= |stream|)
      && (reply.Got? ==> |reply.bytes| == n && reply.bytes + rest == stream)
      && (reply.Failed? ==> rest == stream && reply.status == if n > size then TooSmall else short)
  {
  }

  /** A record on the stream is copied whole, byte for byte, whenever the buffer can hold it and the
      caller has room for it, and the next read starts behind it. */
  lemma CopyRead(stream: seq<Byte>, bytes: seq<Byte>, rest: seq<Byte>, room: nat, size: nat)
    requires IsRecord(stream, bytes, rest) && 2 + |bytes| <= size
    ensures |bytes| <= room ==> Serve(stream, Copied(room), size) == (Got(bytes), rest)
    ensures |bytes| < room ==> Serve(stream, Text(room), size) == (Got(bytes), rest)
    ensures |bytes| > room ==> Serve(stream, Copied(room), size) == (Failed(TooSmall), rest)
    ensures |bytes| >= room ==> Serve(stream, Text(room), size) == (Failed(TooSmall), rest)
    ensures Serve(stream, Prefixed, size) == (Got(bytes), rest)
  {
    hide ServeRecord;
    PrefixRead(stream, bytes, rest, size);
  }

  /** And nothing else is ever returned: a reply is the record at the start of the stream. */
  lemma CopyExact(stream: seq<Byte>, ask: Ask, size: nat)
    requires ask.Copied? || ask.Text? || ask.Prefixed?
    ensures var (reply, rest) := Serve(stream, ask, size);
      reply.Got? <==>
        && 2 <= |stream| && 2 + FromLe(stream[..2]) <= |stream| && 2 + FromLe(stream[..2]) <= size
        && (ask.Copied? ==> FromLe(stream[..2]) <= ask.size) && (ask.Text? ==> FromLe(stream[..2]) < ask.size)
    ensures var (reply, rest) := Serve(stream, ask, size); reply.Got? ==> IsRecord(stream, reply.bytes, rest)
  {
    hide FromLe;
    var (reply, rest) := Serve(stream, ask, size);
    if reply.Got? {
      var n := FromLe(stream[..2]);
      RecordMade(stream[..2], stream[2..2 + n], stream[2 + n..]);
      assert stream == stream[..2] + stream[2..2 + n] + stream[2 + n..];
    }
  }

  lemma RecordErrors(stream: seq<Byte>, size: nat)
    ensures 2 > size ==> ServeRecord(stream, size) == (Failed(TooSmall), stream)
    ensures 2 <= size && 2 > |stream| ==> ServeRecord(stream, size) == (Failed(Eof), stream)
    ensures 2 <= size && 2 <= |stream| && FromLe(stream[..2]) + 2 > size ==> ServeRecord(stream, size) == (Failed(TooSmall), stream)
    ensures 2 <= size && 2 <= |stream| && FromLe(stream[..2]) + 2 <= size && FromLe(stream[..2]) + 2 > |stream| ==>
      ServeRecord(stream, size) == (Failed(Underrun), stream)
  {
    hide FromLe;
  }

  class Reader {
    const buf: array<Byte>
    var readI: nat
    var readN: nat
    /** What the descriptor has not delivered yet. */
    var unread: seq<Byte>
    /** How the coming read() calls behave; after them every call delivers all it can. */
    var plan: seq<Delivery>

    ghost predicate Valid()
      reads this
    {
      readI <= readN <= buf.Length
    }

    /** The bytes not consumed yet: buffered, then unread. */
    ghost function Ahead(): seq<Byte>
      requires Valid()
      reads this, buf
    {
      buf[readI..readN] + unread
    }

    ghost predicate Reliable()
      reads this
    {
      Fail !in plan
    }

    constructor (size: nat, stream: seq<Byte>, plan: seq<Delivery>)
      ensures Valid() && fresh(buf) && buf.Length == size && Ahead() == stream && this.plan == plan
    {
      buf := new Byte[size];
      readI, readN, unread, this.plan := 0, 0, stream, plan;
    }

    /** read( fd, &read_buf[ read_n ], max_space ), storing into the buffer */
    method Read(maxSpace: nat) returns (m: int)
      requires Valid() && 0 < maxSpace <= buf.Length - readN
      modifies this`unread, this`plan, buf
      ensures Valid() && -2 <= m <= maxSpace && m <= |old(unread)|
      ensures m == 0 <==> old(unread) == [] && (old(plan) == [] || old(plan)[0].Chunk?)
      ensures m > 0 ==> buf[readN..readN + m] + unread == old(unread)
      ensures m <= 0 ==> unread == old(unread)
      ensures buf[..readN] == old(buf[..readN])
      ensures plan == if old(plan) == [] then [] else old(plan)[1..]
      ensures m < 0 <==> old(plan) != [] && !old(plan)[0].Chunk?
      ensures m == -1 <==> old(plan) != [] && old(plan)[0].Again?
    {
      var d := if plan == [] then Chunk(|unread|) else plan[0];
      if plan != [] { plan := plan[1..]; }
      match d
      case Again => m := -1;
      case Fail => m := -2;
      case Chunk(most) =>
        var k := Min(Min(if most == 0 then 1 else most, maxSpace), |unread|);
        m := k;
        forall i | 0 <= i < k { buf[readN + i] := unread[i]; }
        assert buf[readN..readN + k] == unread[..k];
        unread := unread[k..];
    }

    /** structured_stream_ensure_read: the bytes ahead stay the same, however they arrive. */
    method EnsureRead(n: nat) returns (res: Status)
      requires Valid()
      modifies this`readI, this`readN, this`unread, this`plan, buf
      ensures Valid() && Ahead() == old(Ahead())
      ensures res == Ok ==> readN - readI >= n
      ensures res == TooSmall <==> n > buf.Length
      ensures res == Eof ==> |Ahead()| < n
      ensures res != Underrun && (old(Reliable()) ==> res != Other && Reliable())
    {
      var avail := readN - readI;
      if avail >= n { return Ok; }
      Compact();
      if n - readN > buf.Length - readN { return TooSmall; }
      res := Fill(n);
    }

    /** The memmove that makes room at the end of the buffer. */
    method Compact()
      requires Valid()
      modifies this`readI, this`readN, buf
      ensures Valid() && Ahead() == old(Ahead()) && readI == 0 && readN == old(readN - readI)
    {
      if readI > 0 {
        var avail := readN - readI;
        forall k | 0 <= k < avail { buf[k] := buf[readI + k]; }
        assert buf[..avail] == old(buf[readI..readN]);
        readN, readI := readN - readI, 0;
      }
    }

    /** The loop of structured_stream_ensure_read. */
    method Fill(n: nat) returns (res: Status)
      requires Valid() && readI == 0 && readN < n <= buf.Length
      modifies this`readN, this`unread, this`plan, buf
      ensures Valid() && Ahead() == old(Ahead())
      ensures res == Ok ==> readN >= n
      ensures res == Eof ==> |Ahead()| < n
      ensures res in {Ok, Eof, Other} && (old(Reliable()) ==> res != Other && Reliable())
    {
      var needed := n - readN;
      var maxSpace := buf.Length - readN;
      while true
        invariant Valid() && Ahead() == old(Ahead())
        invariant maxSpace == buf.Length - readN && readN + needed == n && 0 < needed <= maxSpace
        invariant old(Reliable()) ==> Reliable()
        decreases needed, |plan|
      {
        ghost var was, left := buf[..readN], unread;
        assert Ahead() == was + left;
        var m := Read(maxSpace);
        if m < 0 {
          if m == -1 { continue; }
          return Other;
        } else if m == 0 {
          return Eof;
        }
        assert buf[..readN + m] == was + buf[readN..readN + m];
        readN := readN + m;
        assert Ahead() == was + left;
        if m < needed {
          needed := needed - m;
          maxSpace := maxSpace - m;
        } else {
          return Ok;
        }
      }
    }

    /** The fixed-width reads and structured_stream_read_bytes: the next n bytes. */
    method ReadBytes(n: nat) returns (res: Status, bytes: seq<Byte>)
      requires Valid()
      modifies this`readI, this`readN, this`unread, this`plan, buf
      ensures Valid()
      ensures res == Ok ==> bytes + Ahead() == old(Ahead()) && |bytes| == n
      ensures res == Ok ==> readI >= n && buf[readI - n..readI] == bytes
      ensures res != Ok ==> Ahead() == old(Ahead()) && bytes == []
      ensures res == TooSmall <==> n > buf.Length
      ensures res == Eof ==> |Ahead()| < n
      ensures res != Underrun && (old(Reliable()) ==> res != Other && Reliable())
    {
      res := EnsureRead(n);
      bytes := [];
      if res != Ok { return; }
      bytes := buf[readI..readI + n];
      readI := readI + n;
    }

    /** Reading the length and rewinding, to treat the read as a peek. */
    method PeekLength() returns (res: Status, n: nat)
      requires Valid()
      modifies this`readI, this`readN, this`unread, this`plan, buf
      ensures Valid() && Ahead() == old(Ahead())
      ensures res == Ok ==> |Ahead()| >= 2 && n == FromLe(Ahead()[..2])
      ensures (res == TooSmall <==> 2 > buf.Length) && (res == Eof ==> |Ahead()| < 2)
      ensures res != Underrun && (old(Reliable()) ==> res != Other && Reliable())
    {
      hide FromLe;
      ghost var all := Ahead();
      n := 0;
      var prefix;
      res, prefix := ReadBytes(2);
      if res != Ok { return; }
      n := FromLe(prefix);
      assert all[..2] == prefix;
      readI := readI - 2;
      assert Ahead() == prefix + buf[readI + 2..readN] + unread;
    }

    /** structured_stream_read_uint16_prefixed_bytes_inplace: peek at the length, rewind, then
        make the whole record available. */
    method ReadPrefixedInPlace() returns (res: Status, start: nat, n: nat)
      requires Valid()
      modifies this`readI, this`readN, this`unread, this`plan, buf
      ensures Valid() && (res == Ok ==> start + n <= buf.Length)
      ensures res == Other ==> Ahead() == old(Ahead())
      ensures res != Other ==>
        (if res == Ok then Got(buf[start..start + n]) else Failed(res), Ahead()) == ServeRecord(old(Ahead()), buf.Length)
      ensures old(Reliable()) ==> res != Other && Reliable()
    {
      hide FromLe, Le, IsRecord, ServeRecord, Pow256;
      ghost var all := Ahead();
      start, n := 0, 0;
      RecordErrors(all, buf.Length);
      res, n := PeekLength();
      if res != Ok { return; }
      ghost var prefix := all[..2];
      res := EnsureRead(n + 2);
      if res == Eof { return Underrun, 0, n; }
      if res != Ok { return; }
      start := TakeRecord(n, prefix);
      PrefixRead(all, buf[start..start + n], Ahead(), buf.Length);
    }

    /** The record that is wholly in the buffer. */
    method TakeRecord(n: nat, ghost prefix: seq<Byte>) returns (start: nat)
      requires Valid() && readN - readI >= n + 2 && |prefix| == 2 && prefix <= Ahead() && FromLe(prefix) == n
      modifies this`readI
      ensures Valid() && start + n <= buf.Length && IsRecord(old(Ahead()), buf[start..start + n], Ahead())
    {
      hide FromLe, IsRecord;
      Advance(n, prefix);
      start := readI - n;
      RecordMade(prefix, buf[start..start + n], Ahead());
    }

    /** structured_stream_read_uint16_prefixed_bytes: a record longer than the caller's buffer
        is consumed and lost. */
    method ReadPrefixed(size: nat) returns (res: Status, bytes: seq<Byte>)
      requires Valid()
      modifies this`readI, this`readN, this`unread, this`plan, buf
      ensures Valid() && (res != Ok ==> bytes == [])
      ensures res == Other ==> Ahead() == old(Ahead())
      ensures res != Other ==>
        (if res == Ok then Got(bytes) else Failed(res), Ahead()) == ServeCopy(old(Ahead()), size, buf.Length)
      ensures res == Ok ==> |bytes| <= size && IsRecord(old(Ahead()), bytes, Ahead())
      ensures old(Reliable()) ==> res != Other && Reliable()
    {
      hide ServeRecord, IsRecord;
      CopyExact(Ahead(), Copied(size), buf.Length);
      var start, n;
      res, start, n := ReadPrefixedInPlace();
      bytes := [];
      if res != Ok { return; }
      if n > size { return TooSmall, []; }
      bytes := buf[start..start + n];
    }

    /** structured_stream_read_uint16_prefixed_string: as above, with a terminator behind the
        bytes, which needs room as well. */
    method ReadString(size: nat) returns (res: Status, bytes: seq<Byte>)
      requires Valid()
      modifies this`readI, this`readN, this`unread, this`plan, buf
      ensures Valid() && (res != Ok ==> bytes == [])
      ensures res == Ok ==> |bytes| < size && IsRecord(old(Ahead()), bytes, Ahead())
      ensures res == Other ==> Ahead() == old(Ahead())
      ensures res != Other ==>
        (if res == Ok then Got(bytes) else Failed(res), Ahead()) == ServeCopy(old(Ahead()), size - 1, buf.Length)
      ensures old(Reliable()) ==> res != Other && Reliable()
    {
      hide ServeRecord, IsRecord;
      CopyExact(Ahead(), Text(size), buf.Length);
      var start, n;
      res, start, n := ReadPrefixedInPlace();
      bytes := [];
      if res != Ok { return; }
      // size - 1 is unsigned, so the second test is what refuses an empty buffer
      if (size > 0 && n > size - 1) || size == 0 { return TooSmall, []; }
      bytes := buf[start..start + n];
    }

    /** Both fast-forwards over a record that is wholly in the buffer. */
    method Advance(n: nat, ghost prefix: seq<Byte>)
      requires Valid() && readN - readI >= n + 2 && |prefix| == 2 && prefix <= Ahead()
      modifies this`readI
      ensures Valid() && readI == old(readI) + n + 2
      ensures prefix + buf[readI - n..readI] + Ahead() == old(Ahead())
    {
      ghost var all := Ahead();
      readI := readI + 2;
      assert all == all[..2] + Ahead() && all[..2] == prefix;
      ghost var mid := Ahead();
      readI := readI + n;
      assert mid == buf[readI - n..readI] + Ahead();
    }
  }

  // ----- runs of reads -----

  /** One read of any kind: on a descriptor that does not fail it agrees with the plain byte
      stream; a failure of the descriptor consumes nothing. */
  method Handle(r: Reader, ask: Ask) returns (reply: Reply)
    requires r.Valid()
    modifies r, r.buf
    ensures r.Valid() && (reply == Failed(Other) ==> r.Ahead() == old(r.Ahead()))
    ensures reply != Failed(Other) ==> (reply, r.Ahead()) == Serve(old(r.Ahead()), ask, r.buf.Length)
    ensures old(r.Reliable()) ==> reply != Failed(Other) && r.Reliable()
  {
    hide ServeRecord;
    ghost var all := r.Ahead();
    var res, bytes, start, n := Ok, [], 0, 0;
    match ask {
      case Fixed(n) =>
        res, bytes := r.ReadBytes(n);
        assert res == Ok ==> all[..n] == bytes && all[n..] == r.Ahead();
      case InPlace(n) =>
        res, bytes := r.ReadBytes(n);
        assert res == Ok ==> all[..n] == bytes && all[n..] == r.Ahead();
        if res == Eof { res := Underrun; }
      case Prefixed =>
        res, start, n := r.ReadPrefixedInPlace();
        if res == Ok { bytes := r.buf[start..start + n]; }
      case Copied(size) => res, bytes := r.ReadPrefixed(size);
      case Text(size) => res, bytes := r.ReadString(size);
    }
    reply := if res == Ok then Got(bytes) else Failed(res);
  }

  /** A run of reads depends on the stream alone, not on how read() cuts it up. */
  method RunReads(r: Reader, asks: seq<Ask>) returns (replies: seq<Reply>)
    requires r.Valid() && r.Reliable()
    modifies r, r.buf
    ensures replies == ServeAll(old(r.Ahead()), asks, r.buf.Length) && |replies| == |asks|
  {
    hide Serve;
    replies := [];
    ghost var all := r.Ahead();
    for i := 0 to |asks|
      invariant r.Valid() && r.Reliable() && |replies| == i
      invariant ServeAll(all, asks, r.buf.Length) == replies + ServeAll(r.Ahead(), asks[i..], r.buf.Length)
    {
      assert asks[i..][1..] == asks[i + 1..];
      var reply := Handle(r, asks[i]);
      replies := replies + [reply];
    }
  }


  /** Records one after the other. */
  function Records(items: seq<seq<Byte>>): seq<Byte>
  {
    if items == [] then [] else Le(|items[0]|, 2) + items[0] + Records(items[1..])
  }

  /** Asking for as many records as there are gives each of them, in order, in any of the three ways. */
  lemma {:induction false} RecordsRead(items: seq<seq<Byte>>, asks: seq<Ask>, rest: seq<Byte>, size: nat)
    requires |asks| == |items| && forall i :: 0 <= i < |items| ==> |items[i]| < 0x1_0000 && 2 + |items[i]| <= size
    requires forall i :: 0 <= i < |items| ==> asks[i] == Prefixed || asks[i] == Copied(|items[i]|) || asks[i] == Text(|items[i]| + 1)
    ensures |ServeAll(Records(items) + rest, asks, size)| == |items|
    ensures forall i :: 0 <= i < |items| ==> ServeAll(Records(items) + rest, asks, size)[i] == Got(items[i])
  {
    hide Serve;
    if items != [] {
      var all, tail := Records(items) + rest, Records(items[1..]) + rest;
      assert all == Le(|items[0]|, 2) + items[0] + tail;
      assert IsRecord(all, items[0], tail);
      CopyRead(all, items[0], tail, |items[0]|, size);
      CopyRead(all, items[0], tail, |items[0]| + 1, size);
      RecordsRead(items[1..], asks[1..], rest, size);
      assert ServeAll(all, asks, size) == [Got(items[0])] + ServeAll(tail, asks[1..], size);
    }
  }

  // ----- the client reads an answer -----

  const MAX_BINARY_LFM_SIZE: nat := 1024

  /** Every key fits the client's slots and its read buffer. */
  ghost predicate Readable(keys: seq<seq<Byte>>, maxResults: nat, size: nat)
  {
    |keys| <= maxResults && forall i :: 0 <= i < |keys| ==> |keys[i]| < MAX_BINARY_LFM_SIZE && |keys[i]| + 2 <= size
  }

  /** The loop of menoetius_client_query: keys up to the empty one. It succeeds exactly when
      the stream holds a whole answer and every key of it can be held. */
  method ReadAnswer(r: Reader, maxResults: nat) returns (ok: bool, keys: seq<seq<Byte>>)
    requires r.Valid() && r.Reliable() && r.buf.Length >= 2
    modifies r, r.buf
    ensures var want := Unpacked(old(r.Ahead()));
      && (ok <==> want.Some? && Readable(want.value, maxResults, r.buf.Length))
      && (ok ==> keys == want.value)
  {
    hide Readable;
    ghost var want, size := Unpacked(r.Ahead()), r.buf.Length;
    keys := [];
    NoKeys(maxResults, size);
    assert want.Some? ==> [] + want.value == want.value;
    while true
      invariant r.Valid() && r.Reliable() && Readable(keys, maxResults, size)
      invariant var rest := Unpacked(r.Ahead());
        want == if rest.None? then None else Some(keys + rest.value)
      decreases |r.Ahead()|
    {
      ghost var all := r.Ahead();
      var reply := Handle(r, Prefixed);
      AnswerStep(all, reply, r.Ahead(), size);
      if reply.Failed? {
        NotReadable(want, keys, all, maxResults, size);
        return false, keys;
      }
      var key := reply.bytes;
      if key == [] {
        assert keys + [] == keys;
        return true, keys;
      }
      MoreKeys(want, keys, key, Unpacked(r.Ahead()), maxResults, size);
      if |keys| >= maxResults || |key| >= MAX_BINARY_LFM_SIZE {
        return false, keys;
      }
      keys := keys + [key];
    }
  }

  lemma NoKeys(maxResults: nat, size: nat)
    ensures Readable([], maxResults, size)
  {
  }

  /** What one read means for the answer as a whole. */
  lemma AnswerStep(all: seq<Byte>, reply: Reply, rest: seq<Byte>, size: nat)
    requires size >= 2 && (reply, rest) == Serve(all, Prefixed, size)
    ensures reply.Got? && reply.bytes == [] ==> Unpacked(all) == Some([])
    ensures reply.Got? && reply.bytes != [] ==> |rest| < |all| && |reply.bytes| + 2 <= size
    ensures reply.Got? && reply.bytes != [] ==>
      Unpacked(all) == if Unpacked(rest).None? then None else Some([reply.bytes] + Unpacked(rest).value)
    ensures reply.Failed? ==> Unpacked(all).None? || (Unpacked(all).value != [] && |Unpacked(all).value[0]| + 2 > size)
  {
    hide FromLe;
  }

  lemma NotReadable(want: Option<seq<seq<Byte>>>, keys: seq<seq<Byte>>, all: seq<Byte>, maxResults: nat, size: nat)
    requires want == if Unpacked(all).None? then None else Some(keys + Unpacked(all).value)
    requires Unpacked(all).None? || (Unpacked(all).value != [] && |Unpacked(all).value[0]| + 2 > size)
    ensures want.None? || !Readable(want.value, maxResults, size)
  {
    if want.Some? { assert |want.value[|keys|]| + 2 > size; }
  }

  lemma MoreKeys(want: Option<seq<seq<Byte>>>, keys: seq<seq<Byte>>, key: seq<Byte>, rest: Option<seq<seq<Byte>>>,
                 maxResults: nat, size: nat)
    requires Readable(keys, maxResults, size) && |key| + 2 <= size
    requires want == if rest.None? then None else Some(keys + ([key] + rest.value))
    ensures want == if rest.None? then None else Some(keys + [key] + rest.value)
    ensures |keys| >= maxResults || |key| >= MAX_BINARY_LFM_SIZE ==> want.None? || !Readable(want.value, maxResults, size)
    ensures |keys| < maxResults && |key| < MAX_BINARY_LFM_SIZE ==> Readable(keys + [key], maxResults, size)
  {
    if want.Some? { assert want.value == keys + [key] + rest.value && want.value[|keys|] == key; }
  }
}
