// The receive loop of an RPC session: a read buffer that is resized between reads, frames cut
// out of it, and the unfinished rest carried over into the next buffer.
module RpcReceiver {
  import opened Memory
  import opened RpcFrame

  const MIN_READ_BUF_SIZE: nat := 256

  function Min(a: nat, b: nat): nat {
    if a <= b then a else b
  }

  function Max(a: nat, b: nat): nat {
    if a >= b then a else b
  }

  // A message handed on for processing: a view into the buffer that it arrived in.
  datatype Slice = Slice(buf: array<Byte>, start: nat, headLen: nat, msgLen: nat)

  ghost predicate Shows(s: Slice, f: Frame)
    reads s.buf
  {
    f.Frame? && s.headLen <= s.msgLen && s.start + s.msgLen <= s.buf.Length
    && s.buf[s.start..s.start + s.headLen] == f.head
    && s.buf[s.start + s.headLen..s.start + s.msgLen] == f.body
  }

  ghost predicate Shown(posted: seq<Slice>, fs: seq<Frame>)
    reads set s | s in posted :: s.buf
  {
    |posted| == |fs| && forall i :: 0 <= i < |posted| ==> Shows(posted[i], fs[i])
  }

  // How many of the frames carry a message.
  ghost function Messages(fs: seq<Frame>): nat {
    if fs == [] then 0
    else
      var f := fs[|fs| - 1];
      Messages(fs[..|fs| - 1]) + if f.Frame? && |f.head| + |f.body| > 0 then 1 else 0
  }

  // For each of these, and nothing else, there is one slice, in the same order, with its bytes.
  ghost predicate HandedOn(posted: seq<Slice>, fs: seq<Frame>)
    reads set s | s in posted :: s.buf
  {
    && |posted| == Messages(fs)
    && (forall s :: s in posted ==> s.msgLen > 0)
    && forall i :: 0 <= i < |fs| && fs[i].Frame? && |fs[i].head| + |fs[i].body| > 0 ==> ShownAt(posted, fs, i)
  }

  // The slice of frame number i stands behind those of the frames before it.
  ghost predicate ShownAt(posted: seq<Slice>, fs: seq<Frame>, i: nat)
    requires i < |fs| && fs[i].Frame?
    reads set s | s in posted :: s.buf
  {
    var j, f := Messages(fs[..i]), fs[i];
    && j < |posted|
    && var s := posted[j];
       && s.headLen == |f.head| && s.msgLen == |f.head| + |f.body| && s.start + s.msgLen <= s.buf.Length
       && s.buf[s.start..s.start + s.msgLen] == f.head + f.body
  }

  lemma {:induction false} PayloadAt(fs: seq<Frame>, i: nat)
    requires i < |fs| && forall f :: f in fs ==> f.Frame?
    requires |fs[i].head| + |fs[i].body| > 0
    ensures Messages(fs[..i]) < |Payloads(fs)| && Payloads(fs)[Messages(fs[..i])] == fs[i]
    decreases |fs|
  {
    var n := |fs| - 1;
    PayloadCount(fs[..n]);
    if i == n {
      assert !Heartbeat(fs[n]);
    } else {
      assert fs[..n][..i] == fs[..i] && fs[..n][i] == fs[i];
      PayloadAt(fs[..n], i);
    }
  }

  lemma {:induction false} PayloadCount(fs: seq<Frame>)
    requires forall f :: f in fs ==> f.Frame?
    ensures |Payloads(fs)| == Messages(fs)
    ensures forall f :: f in Payloads(fs) ==> f.Frame? && |f.head| + |f.body| > 0
  {
    if fs != [] {
      PayloadCount(fs[..|fs| - 1]);
    }
  }

  lemma PayloadsHandedOn(posted: seq<Slice>, fs: seq<Frame>)
    requires Shown(posted, Payloads(fs)) && forall f :: f in fs ==> f.Frame?
    ensures HandedOn(posted, fs)
  {
    PayloadCount(fs);
    hide Payloads, Messages;
    forall s | s in posted
      ensures s.msgLen > 0
    {
      var j :| 0 <= j < |posted| && posted[j] == s;
      assert Shows(posted[j], Payloads(fs)[j]) && Payloads(fs)[j] in Payloads(fs);
      SliceHolds(s, Payloads(fs)[j]);
    }
    forall i | 0 <= i < |fs| && fs[i].Frame? && |fs[i].head| + |fs[i].body| > 0
      ensures ShownAt(posted, fs, i)
    {
      PayloadAt(fs, i);
      SliceHolds(posted[Messages(fs[..i])], fs[i]);
    }
  }

  lemma FramesHandedOn(posted: seq<Slice>, done: seq<Frame>, now: seq<Frame>)
    requires Shown(posted, Payloads(done + now)) && forall f :: f in now ==> f.Frame?
    ensures (forall f :: f in done ==> f.Frame?) ==> HandedOn(posted, done + now)
  {
    hide Shown, HandedOn, Payloads;
    if forall f :: f in done ==> f.Frame? {
      PayloadsHandedOn(posted, done + now);
    }
  }

  lemma SliceHolds(s: Slice, f: Frame)
    requires Shows(s, f)
    ensures s.headLen == |f.head| && s.msgLen == |f.head| + |f.body|
    ensures s.buf[s.start..s.start + s.msgLen] == f.head + f.body
  {
    var all := s.buf[s.start..s.start + s.msgLen];
    assert all == all[..s.headLen] + all[s.headLen..];
    assert all[..s.headLen] == s.buf[s.start..s.start + s.headLen];
    assert all[s.headLen..] == s.buf[s.start + s.headLen..s.start + s.msgLen];
  }

  class Receiver {
    const maxRecvSize: nat
    var readBufSize: nat
    var readBufOffset: nat
    var buf: array<Byte>
    var posted: seq<Slice>

    ghost predicate Valid()
      reads this
    {
      && HEAD_SIZE <= maxRecvSize < 0x8000_0000
      && HEAD_SIZE <= readBufSize <= Max(MIN_READ_BUF_SIZE, maxRecvSize)
      && buf.Length == readBufSize
    }

    // No message handed on lies in the buffer that is written next.
    ghost predicate Apart()
      reads this
    {
      forall s :: s in posted ==> s.buf != buf
    }

    // The frames done have been handed on, and the first n bytes of the buffer begin those to do.
    ghost predicate InStep(n: nat, done: seq<Frame>, todo: seq<Frame>)
      reads this, buf, set s | s in posted :: s.buf
    {
      && Valid() && n <= readBufSize
      && Shown(posted, Payloads(done))
      && Begins(buf[..n], todo)
      && forall f :: f in todo ==> WellFormed(f)
    }

    constructor (maxRecvSize: nat)
      requires HEAD_SIZE <= maxRecvSize < 0x8000_0000
      ensures this.maxRecvSize == maxRecvSize
      ensures Valid() && Apart() && readBufOffset == 0 && posted == [] && fresh(buf)
    {
      this.maxRecvSize := maxRecvSize;
      readBufSize := MIN_READ_BUF_SIZE;
      readBufOffset := 0;
      buf := new Byte[MIN_READ_BUF_SIZE];
      posted := [];
    }

    // How many more bytes a read waits for with n bytes in the buffer; 0 ends the read.
    function Wanted(n: nat): (w: nat)
      requires n <= readBufSize == buf.Length
      reads this, buf
      ensures n + w <= readBufSize
    {
      if n < HEAD_SIZE then readBufSize - n
      else if buf[0] != HEAD_BYTE_1 || buf[1] != HEAD_BYTE_2 then 0
      else if n < (HEAD_SIZE + ReadU32(buf[..n], 4)) % 0x1_0000_0000 then readBufSize - n
      else 0
    }

    // A read ends when the buffer is full, or its first frame is complete or seen to be none.
    lemma ReadEnds(n: nat, done: seq<Frame>, todo: seq<Frame>)
      requires InStep(n, done, todo)
      ensures Wanted(n) == 0 <==> n == readBufSize || (todo != [] && n >= Need(todo[0]))
      ensures Wanted(n) > 0 ==> Wanted(n) == readBufSize - n
    {
      if n >= HEAD_SIZE {
        HeaderSeen(buf[..n], todo);
        assert todo[0] in todo && WellFormed(todo[0]);
      }
    }

    // Some of the wanted bytes arrive.
    method Fill(n: nat, piece: seq<Byte>, ghost done: seq<Frame>, ghost todo: seq<Frame>)
      requires InStep(n, done, todo) && Apart() && |piece| <= Wanted(n)
      requires Begins(buf[..n] + piece, todo)
      modifies buf
      ensures InStep(n + |piece|, done, todo) && buf[..n + |piece|] == old(buf[..n]) + piece
    {
      for i := 0 to |piece|
        invariant buf[..n] == old(buf[..n]) && buf[n..n + i] == piece[..i]
        invariant Shown(posted, Payloads(done))
      {
        buf[n + i] := piece[i];
        assert buf[n..n + i + 1] == buf[n..n + i] + [buf[n + i]];
        assert piece[..i + 1] == piece[..i] + [piece[i]];
      }
      assert buf[..n + |piece|] == buf[..n] + buf[n..n + |piece|];
      assert piece[..|piece|] == piece;
    }

    // The buffer size for the next read, as far as the amount read decides it.
    function NextSize(n: nat): (size: nat)
      requires Valid() && n <= readBufSize
      reads this
      ensures HEAD_SIZE <= size <= Max(MIN_READ_BUF_SIZE, maxRecvSize)
    {
      if n < readBufSize / 2 then Max(MIN_READ_BUF_SIZE, readBufSize / 2)
      else if n >= readBufSize then Min(maxRecvSize, readBufSize * 2 % 0x1_0000_0000)
      else readBufSize
    }

    // Hands a message on.
    method Post(slice: Slice, ghost fs: seq<Frame>, ghost f: Frame)
      requires Shown(posted, fs) && Shows(slice, f)
      modifies this`posted
      ensures posted == old(posted) + [slice] && Shown(posted, fs + [f])
    {
      posted := posted + [slice];
    }

    // Looks at the frame that starts at pos and hands it on if it is complete.
    method CutOne(n: nat, pos: nat, ghost done: seq<Frame>, ghost todo: seq<Frame>) returns (cut: Cut)
      requires Valid() && pos <= n <= readBufSize && Begins(buf[pos..n], todo)
      requires Shown(posted, Payloads(done)) && forall f :: f in todo ==> WellFormed(f)
      modifies this`posted
      ensures cut == Stop ==> n - pos < HEAD_SIZE
      ensures cut != Stop ==> todo != [] && (cut == Invalid <==> todo[0].Junk?)
      ensures cut == TooLarge ==> Size(todo[0]) > maxRecvSize
      ensures cut.Partial? ==> n - pos < cut.need == Size(todo[0]) <= maxRecvSize
      ensures cut.Taken? ==> cut.size == Size(todo[0]) <= maxRecvSize && n - pos >= cut.size
      ensures !cut.Taken? ==> posted == old(posted)
      ensures old(posted) <= posted && forall s :: s in posted ==> s in old(posted) || s.buf == buf
      ensures Shown(posted, Payloads(if cut.Taken? then done + [todo[0]] else done))
    {
      hide EncodeAll, Encode, Payloads, Shows, Begins, GetUint16, GetUint32;
      var unhandled := n - pos;
      if unhandled < HEAD_SIZE {
        return Stop;
      }
      ghost var s := buf[pos..n];
      HeaderAt(buf, pos, n, todo);
      ghost var f := todo[0];
      if buf[pos] != HEAD_BYTE_1 || buf[pos + 1] != HEAD_BYTE_2 {
        return Invalid;
      }
      PayloadsGrow(done, f);
      var msgLen := GetUint32(buf, pos + 4);
      if msgLen == 0 {
        return Taken(HEAD_SIZE);
      }
      if (HEAD_SIZE + msgLen) % 0x1_0000_0000 > maxRecvSize {
        return TooLarge;
      }
      if unhandled < HEAD_SIZE + msgLen {
        return Partial(HEAD_SIZE + msgLen);
      }
      var slice := Slice(buf, pos + HEAD_SIZE, GetUint16(buf, pos + 2), msgLen);
      SliceShows(slice, s, todo);
      Post(slice, Payloads(done), f);
      return Taken(HEAD_SIZE + msgLen);
    }

    // Hands on the messages in the first n bytes. A message that is too large, or bytes that do
    // not start like one, end the session.
    method CutFrames(n: nat, ghost done0: seq<Frame>, ghost todo0: seq<Frame>)
        returns (failed: bool, pos: nat, size: nat, ghost now: seq<Frame>, ghost todo: seq<Frame>)
      requires InStep(n, done0, todo0)
      modifies this`posted
      ensures todo0 == now + todo && old(posted) <= posted
      ensures forall s :: s in posted ==> s in old(posted) || s.buf == buf
      ensures Shown(posted, Payloads(done0 + now))
      ensures (forall f :: f in done0 ==> f.Frame?) ==> HandedOn(posted, done0 + now)
      ensures forall f :: f in now ==> f.Frame? && Size(f) <= maxRecvSize
      ensures pos <= n && buf[..pos] == EncodeAll(now) && Begins(buf[pos..n], todo)
      ensures failed ==> todo != [] && (todo[0].Junk? || Size(todo[0]) > maxRecvSize)
      ensures !failed ==> todo == [] || n - pos < Need(todo[0])
      ensures !failed ==> n - pos < size && HEAD_SIZE <= size <= Max(MIN_READ_BUF_SIZE, maxRecvSize)
    {
      hide EncodeAll, Encode, Payloads, Shown, Begins, HandedOn;
      failed, pos, size := false, 0, NextSize(n);
      now, todo := [], todo0;
      NothingDone(done0);
      assert buf[0..n] == buf[..n] && buf[..0] == [];
      while true
        invariant pos <= n && size == NextSize(n) && !failed
        invariant todo0 == now + todo && old(posted) <= posted
        invariant forall s :: s in posted ==> s in old(posted) || s.buf == buf
        invariant Shown(posted, Payloads(done0 + now))
        invariant forall f :: f in now ==> f.Frame? && Size(f) <= maxRecvSize
        invariant buf[..pos] == EncodeAll(now) && Begins(buf[pos..n], todo)
        decreases n - pos
      {
        var cut := CutOne(n, pos, done0 + now, todo);
        match cut {
          case Stop =>
            break;
          case Invalid =>
            failed := true;
            break;
          case TooLarge =>
            failed := true;
            break;
          case Partial(need) =>
            size := Max(size, need);
            break;
          case Taken(frameSize) =>
            FrameTaken(buf[..], n, pos, done0, now, todo);
            pos := pos + frameSize;
            now, todo := now + [todo[0]], todo[1..];
        }
      }
      FramesHandedOn(posted, done0, now);
    }

    // The messages in the first n bytes are handed on, and the rest moves to a new buffer.
    method Handle(n: nat, ghost done0: seq<Frame>, ghost todo0: seq<Frame>)
        returns (failed: bool, ghost now: seq<Frame>, ghost todo: seq<Frame>)
      requires InStep(n, done0, todo0) && Apart()
      modifies this
      ensures todo0 == now + todo && old(posted) <= posted
      ensures Shown(posted, Payloads(done0 + now))
      ensures (forall f :: f in done0 ==> f.Frame?) ==> HandedOn(posted, done0 + now)
      ensures forall f :: f in now ==> f.Frame? && Size(f) <= maxRecvSize
      ensures failed ==> todo != [] && (todo[0].Junk? || Size(todo[0]) > maxRecvSize)
      ensures !failed ==> fresh(buf) && Apart() && InStep(readBufOffset, done0 + now, todo)
      ensures !failed ==> old(buf[..n]) == EncodeAll(now) + buf[..readBufOffset]
      ensures !failed ==> readBufOffset < readBufSize && (todo == [] || readBufOffset < Need(todo[0]))
    {
      hide EncodeAll, Encode, Payloads, Begins, Shown, Written, HandedOn;
      var pos, size;
      failed, pos, size, now, todo := CutFrames(n, done0, todo0);
      FramesHandedOn(posted, done0, now);
      if failed {
        return;
      }
      var last := buf;
      readBufOffset := n - pos;
      readBufSize := size;
      var next := new Byte[size];
      CopyFront(next, last[pos..n]);
      buf := next;
      assert last[..n] == last[..pos] + last[pos..n];
    }
  }

  // The front of a buffer.
  method CopyFront(buf: array<Byte>, data: seq<Byte>)
    requires |data| <= buf.Length
    modifies buf
    ensures buf[..|data|] == data
  {
    MemCpy(buf, 0, data);
    assert buf[..|data|] == buf[..][..|data|];
  }

  // What the loop makes of the bytes at its position.
  datatype Cut = Stop | Invalid | TooLarge | Partial(need: nat) | Taken(size: nat)

  function GetUint16(b: array<Byte>, i: nat): nat
    requires i + 2 <= b.Length
    reads b
  {
    ReadU16(b[i..i + 2], 0)
  }

  function GetUint32(b: array<Byte>, i: nat): nat
    requires i + 4 <= b.Length
    reads b
  {
    ReadU32(b[i..i + 4], 0)
  }

  // The fields of the header at pos, read from the buffer or from the bytes still to handle.
  lemma ReadAt(b: array<Byte>, pos: nat, n: nat)
    requires pos + HEAD_SIZE <= n <= b.Length
    ensures GetUint32(b, pos + 4) == ReadU32(b[pos..n], 4) && GetUint16(b, pos + 2) == ReadU16(b[pos..n], 2)
  {}

  // What the header at pos says about the frame that starts there.
  lemma HeaderAt(b: array<Byte>, pos: nat, n: nat, todo: seq<Frame>)
    requires pos + HEAD_SIZE <= n <= b.Length && Begins(b[pos..n], todo)
    requires forall f :: f in todo ==> WellFormed(f)
    ensures todo != [] && (todo[0].Frame? <==> b[pos] == HEAD_BYTE_1 && b[pos + 1] == HEAD_BYTE_2)
    ensures todo[0].Frame? ==>
              HEAD_SIZE + GetUint32(b, pos + 4) == Size(todo[0]) < 0x1_0000_0000 && GetUint16(b, pos + 2) == |todo[0].head|
  {
    hide Begins, ReadU16, ReadU32;
    var s := b[pos..n];
    HeaderSeen(s, todo);
    assert s[0] == b[pos] && s[1] == b[pos + 1];
    assert todo[0] in todo && WellFormed(todo[0]);
    ReadAt(b, pos, n);
  }

  lemma NothingDone(done: seq<Frame>)
    ensures EncodeAll([]) == [] && done + [] == done
  {}

  // One frame further in the stream and in the buffer.
  lemma FrameTaken(b: seq<Byte>, n: nat, pos: nat, done: seq<Frame>, now: seq<Frame>, todo: seq<Frame>)
    requires pos <= n <= |b| && Begins(b[pos..n], todo) && todo != [] && todo[0].Frame? && n - pos >= Size(todo[0])
    requires b[..pos] == EncodeAll(now)
    ensures b[..pos + Size(todo[0])] == EncodeAll(now + [todo[0]])
    ensures Begins(b[pos + Size(todo[0])..n], todo[1..])
    ensures now + todo == now + [todo[0]] + todo[1..]
    ensures done + (now + [todo[0]]) == done + now + [todo[0]]
  {
    var f := todo[0];
    var m := Size(f);
    FrameSeen(b[pos..n], todo);
    PrefixOfFirst(b[pos..n], todo, m);
    assert b[pos..n][m..] == b[pos + m..n];
    assert b[..pos + m] == b[..pos] + b[pos..n][..m];
    EncodeAllConcat(now, [f]);
    EncodeAllOne(f);
  }

  lemma EncodeAllOne(f: Frame)
    ensures EncodeAll([f]) == Encode(f) == Encode(f)[..Size(f)]
  {
    assert [f][1..] == [];
  }

  lemma SliceShows(slice: Slice, s: seq<Byte>, todo: seq<Frame>)
    requires Begins(s, todo) && todo != [] && todo[0].Frame? && |s| >= Size(todo[0])
    requires slice.start >= HEAD_SIZE && slice.start - HEAD_SIZE + |s| <= slice.buf.Length
    requires s == slice.buf[slice.start - HEAD_SIZE..slice.start - HEAD_SIZE + |s|]
    requires slice.headLen == |todo[0].head| && slice.msgLen == Size(todo[0]) - HEAD_SIZE
    ensures Shows(slice, todo[0])
  {
    hide Begins, Encode, EncodeAll;
    FrameSeen(s, todo);
    var f := todo[0];
    var all, at := slice.buf[..], slice.start - HEAD_SIZE;
    assert all[at..at + |s|] == s;
    Inner(all, at, at + |s|, HEAD_SIZE, HEAD_SIZE + |f.head|);
    Inner(all, at, at + |s|, HEAD_SIZE + |f.head|, Size(f));
  }

  // ---------------------------------------------------------------- whole runs

  function Concat(pieces: seq<seq<Byte>>): seq<Byte> {
    if pieces == [] then [] else pieces[0] + Concat(pieces[1..])
  }

  // What is left of the stream once the frames now are gone begins the frames after them.
  lemma BeginsAfter(window: seq<Byte>, rest: seq<Byte>, left: seq<Byte>, now: seq<Frame>, todo: seq<Frame>)
    requires Begins(window + rest, now + todo) && window == EncodeAll(now) + left
    ensures Begins(left + rest, todo)
  {
    hide EncodeAll;
    EncodeAllConcat(now, todo);
    PrefixBehind(EncodeAll(now), left, rest, EncodeAll(todo));
  }

  lemma PrefixBehind(p: seq<Byte>, left: seq<Byte>, rest: seq<Byte>, e: seq<Byte>)
    requires p + left + rest <= p + e
    ensures left + rest <= e
  {
    var s := p + left + rest;
    assert s == p + (left + rest);
    assert s[|p|..] == left + rest && (p + e)[|p|..] == e;
    assert s == (p + e)[..|s|];
    assert s[|p|..] == (p + e)[|p|..][..|s| - |p|];
  }

  lemma WindowMoves(before: seq<Frame>, cut: seq<Frame>, todo: seq<Frame>, window: seq<Byte>, left: seq<Byte>, ahead: seq<Byte>)
    requires Begins(window + ahead, cut + todo) && window == EncodeAll(cut) + left
    ensures EncodeAll(before) + window + ahead == EncodeAll(before + cut) + left + ahead
    ensures Begins(left + ahead, todo)
  {
    hide EncodeAll, Begins;
    BeginsAfter(window, ahead, left, cut, todo);
    EncodeAllConcat(before, cut);
    assert EncodeAll(before) + window == EncodeAll(before + cut) + left;
  }

  lemma BeginsPrefix(a: seq<Byte>, b: seq<Byte>, todo: seq<Frame>)
    requires Begins(a + b, todo)
    ensures Begins(a, todo)
  {
    assert a == (a + b)[..|a|];
  }

  // Handles what a read has brought; the bytes ahead are still to come.
  method HandleWindow(r: Receiver, n0: nat, ghost before: seq<Frame>, ghost todo0: seq<Frame>, ghost ahead: seq<Byte>)
      returns (failed: bool, n: nat, ghost now: seq<Frame>, ghost todo: seq<Frame>)
    requires r.InStep(n0, before, todo0) && r.Apart() && Begins(r.buf[..n0] + ahead, todo0)
    requires forall f :: f in before ==> f.Frame? && Size(f) <= r.maxRecvSize
    modifies r
    ensures now + todo == before + todo0 && Shown(r.posted, Payloads(now))
    ensures forall f :: f in now ==> f.Frame? && Size(f) <= r.maxRecvSize
    ensures failed ==> todo != [] && (todo[0].Junk? || Size(todo[0]) > r.maxRecvSize)
    ensures !failed ==> fresh(r.buf) && r.InStep(n, now, todo) && r.Apart() && r.Wanted(n) > 0
    ensures !failed ==> Begins(r.buf[..n] + ahead, todo)
    ensures !failed ==> EncodeAll(now) + r.buf[..n] + ahead == EncodeAll(before) + old(r.buf[..n0]) + ahead
  {
    hide EncodeAll, Encode, Payloads, Begins, Shown, HandedOn;
    ghost var window := r.buf[..n0];
    ghost var cut;
    failed, cut, todo := r.Handle(n0, before, todo0);
    now := before + cut;
    n := r.readBufOffset;
    assert before + (cut + todo) == now + todo;
    if failed {
      return;
    }
    WindowMoves(before, cut, todo, window, r.buf[..n], ahead);
    r.ReadEnds(n, now, todo);
  }

  // Everything a sender puts on the wire, in whatever pieces it arrives: when the receiver waits
  // for more, it has handed on exactly the messages that have arrived completely, in order, and
  // every one of them still shows what was sent. It fails only at a message that is too large, or
  // where something else stands that does not start like a frame.
  method Receive(r: Receiver, pieces: seq<seq<Byte>>, ghost fs: seq<Frame>)
      returns (failed: bool, n: nat, ghost now: seq<Frame>, ghost todo: seq<Frame>)
    requires r.Valid() && r.Apart() && r.readBufOffset == 0 && r.posted == []
    requires forall f :: f in fs && f.Frame? ==> |f.head| < 0x1_0000 && HEAD_SIZE + |f.head| + |f.body| < 0x1_0000_0000
    requires forall f :: f in fs && f.Junk? ==>
               |f.bytes| >= HEAD_SIZE && (f.bytes[0] != HEAD_BYTE_1 || f.bytes[1] != HEAD_BYTE_2)
    requires Concat(pieces) <= EncodeAll(fs)
    modifies r, r.buf
    ensures fs == now + todo && HandedOn(r.posted, now)
    ensures forall f :: f in now ==> f.Frame? && Size(f) <= r.maxRecvSize
    ensures failed ==> todo != [] && (todo[0].Junk? || Size(todo[0]) > r.maxRecvSize)
    ensures !failed ==> r.Valid() && n < r.readBufSize && Concat(pieces) == EncodeAll(now) + r.buf[..n]
    ensures !failed && todo != [] ==>
              n < if todo[0].Frame? then HEAD_SIZE + |todo[0].head| + |todo[0].body| else HEAD_SIZE
  {
    hide EncodeAll, Encode, Payloads, Begins, Shown, HandedOn, WellFormed, Need, Written;
    ghost var stream := Concat(pieces);
    var pending: seq<Byte>, rest: seq<seq<Byte>> := [], pieces;
    now, todo, n := [], fs, 0;
    failed := false;
    StartsEmpty(r, stream, fs);
    assert r.buf[..0] == [];
    while true
      invariant !failed && fs == now + todo && (r.buf == old(r.buf) || fresh(r.buf))
      invariant r.InStep(n, now, todo) && r.Apart()
      invariant forall f :: f in now ==> f.Frame? && Size(f) <= r.maxRecvSize
      invariant stream == EncodeAll(now) + r.buf[..n] + (pending + Concat(rest))
      invariant Begins(r.buf[..n] + (pending + Concat(rest)), todo)
      decreases |rest|, |pending|, r.Wanted(n) == 0
    {
      r.ReadEnds(n, now, todo);
      var wanted := r.Wanted(n);
      if wanted == 0 {
        failed, n, now, todo := HandleWindow(r, n, now, todo, pending + Concat(rest));
        if failed {
          PayloadsHandedOn(r.posted, now);
          return;
        }
      } else if pending == [] {
        if rest == [] {
          break;
        }
        assert pending + Concat(rest) == rest[0] + Concat(rest[1..]);
        pending, rest := rest[0], rest[1..];
      } else {
        var k := Min(wanted, |pending|);
        var piece := pending[..k];
        WindowGrows(now, todo, r.buf[..n], pending, k, Concat(rest));
        r.Fill(n, piece, now, todo);
        n := n + k;
        pending := pending[k..];
      }
    }
    PayloadsHandedOn(r.posted, now);
    if todo != [] {
      NeedOf(todo[0]);
    }
    assert pending + Concat(rest) == [];
    assert EncodeAll(now) + r.buf[..n] + [] == EncodeAll(now) + r.buf[..n];
  }

  lemma NeedOf(f: Frame)
    ensures Need(f) == if f.Frame? then HEAD_SIZE + |f.head| + |f.body| else HEAD_SIZE
  {}

  // The next k bytes move into the window.
  lemma WindowGrows(now: seq<Frame>, todo: seq<Frame>, window: seq<Byte>, pending: seq<Byte>, k: nat, rest: seq<Byte>)
    requires k <= |pending| && Begins(window + (pending + rest), todo)
    ensures Begins((window + pending[..k]) + (pending[k..] + rest), todo) && Begins(window + pending[..k], todo)
    ensures EncodeAll(now) + window + (pending + rest)
         == EncodeAll(now) + (window + pending[..k]) + (pending[k..] + rest)
  {
    hide EncodeAll, Begins;
    Regroup(EncodeAll(now), window, pending, k, rest);
    BeginsPrefix(window + pending[..k], pending[k..] + rest, todo);
  }

  lemma Regroup(head: seq<Byte>, window: seq<Byte>, pending: seq<Byte>, k: nat, rest: seq<Byte>)
    requires k <= |pending|
    ensures window + (pending + rest) == (window + pending[..k]) + (pending[k..] + rest)
    ensures head + window + (pending + rest) == head + (window + pending[..k]) + (pending[k..] + rest)
  {
    assert pending == pending[..k] + pending[k..];
  }

  lemma StartsEmpty(r: Receiver, stream: seq<Byte>, fs: seq<Frame>)
    requires r.Valid() && r.posted == [] && stream <= EncodeAll(fs)
    requires forall f :: f in fs && f.Frame? ==> |f.head| < 0x1_0000 && HEAD_SIZE + |f.head| + |f.body| < 0x1_0000_0000
    requires forall f :: f in fs && f.Junk? ==>
               |f.bytes| >= HEAD_SIZE && (f.bytes[0] != HEAD_BYTE_1 || f.bytes[1] != HEAD_BYTE_2)
    ensures r.InStep(0, [], fs) && [] + fs == fs
    ensures stream == EncodeAll([]) + r.buf[..0] + ([] + stream) && Begins(r.buf[..0] + ([] + stream), fs)
  {
    assert r.buf[..0] + ([] + stream) == stream;
  }
}
