// The wire format of the RPC: two magic bytes, the length of the head message, the length of
// head and body together, both lengths little-endian, then head and body.
module RpcFrame {
  import opened Digits

  type Byte = b: int | 0 <= b < 256

  const HEAD_SIZE: nat := 8
  const HEAD_BYTE_1: Byte := 89
  const HEAD_BYTE_2: Byte := 84

  // A frame, or bytes where a frame should be that do not start like one.
  datatype Frame = Frame(head: seq<Byte>, body: seq<Byte>) | Junk(bytes: seq<Byte>)

  // An empty frame is a heartbeat.
  predicate Heartbeat(f: Frame) {
    f.Frame? && |f.head| + |f.body| == 0
  }

  // The lengths fit the header.
  predicate WellFormed(f: Frame) {
    match f
    case Frame(head, body) => |head| < 0x1_0000 && HEAD_SIZE + |head| + |body| < 0x1_0000_0000
    case Junk(bytes) => |bytes| >= HEAD_SIZE && (bytes[0] != HEAD_BYTE_1 || bytes[1] != HEAD_BYTE_2)
  }

  function Size(f: Frame): nat {
    match f
    case Frame(head, body) => HEAD_SIZE + |head| + |body|
    case Junk(bytes) => |bytes|
  }

  // How many bytes of it a receiver has to see before it can act on it.
  function Need(f: Frame): nat {
    if f.Frame? then Size(f) else HEAD_SIZE
  }

  function U16(n: nat): (s: seq<Byte>)
    ensures |s| == 2
  {
    [n % 256, n / 256 % 256]
  }

  function U32(n: nat): (s: seq<Byte>)
    ensures |s| == 4
  {
    [n % 256, n / 256 % 256, n / 0x1_0000 % 256, n / 0x100_0000 % 256]
  }

  function ReadU16(s: seq<Byte>, i: nat): nat
    requires i + 2 <= |s|
  {
    (s[i] as nat) + 256 * (s[i + 1] as nat)
  }

  function ReadU32(s: seq<Byte>, i: nat): (n: nat)
    requires i + 4 <= |s|
    ensures n < 0x1_0000_0000
  {
    (s[i] as nat) + 256 * (s[i + 1] as nat) + 0x1_0000 * (s[i + 2] as nat) + 0x100_0000 * (s[i + 3] as nat)
  }

  lemma U16Reads(n: nat)
    requires n < 0x1_0000
    ensures ReadU16(U16(n), 0) == n
  {}

  lemma U32Reads(n: nat)
    requires n < 0x1_0000_0000
    ensures ReadU32(U32(n), 0) == n
  {
    var a := n / 256;
    var b := a / 256;
    var c := b / 256;
    assert n / 0x1_0000 == b && n / 0x100_0000 == c;
    assert c < 256;
  }

  // Both lengths are written with the lowest byte first.
  lemma LowestByteFirst(n: nat)
    ensures n < 0x1_0000 ==> Value(U16(n), 256) == n
    ensures n < 0x1_0000_0000 ==> Value(U32(n), 256) == n
  {
    ValueOfPair(U16(n));
    ValueOfPair(U32(n)[2..]);
    assert U32(n)[1..][1..] == U32(n)[2..];
    assert Value(U32(n), 256) == U32(n)[0] + 256 * Value(U32(n)[1..], 256);
    assert Value(U32(n)[1..], 256) == U32(n)[1] + 256 * Value(U32(n)[2..], 256);
    if n < 0x1_0000_0000 {
      U32Reads(n);
    }
    if n < 0x1_0000 {
      U16Reads(n);
    }
  }

  lemma ValueOfPair(s: seq<nat>)
    requires |s| == 2
    ensures Value(s, 256) == s[0] + 256 * s[1]
  {
    assert s[1..] == [s[1]];
    ValueOfOne(s[1], 256);
  }

  function Header(headLen: nat, msgLen: nat): (s: seq<Byte>)
    ensures |s| == HEAD_SIZE
  {
    [HEAD_BYTE_1, HEAD_BYTE_2] + U16(headLen) + U32(msgLen)
  }

  function Encode(f: Frame): (s: seq<Byte>)
    ensures |s| == Size(f)
  {
    match f
    case Frame(head, body) => Header(|head|, |head| + |body|) + (head + body)
    case Junk(bytes) => bytes
  }

  lemma ShortHeader(headLen: nat, msgLen: nat)
    requires headLen < 256 && msgLen < 256
    ensures Header(headLen, msgLen) == [89, 84, headLen, 0, msgLen, 0, 0, 0]
  {
    assert U16(headLen) == [headLen, 0];
    assert U32(msgLen) == [msgLen, 0, 0, 0];
  }

  // A request with one byte of head and two of body, one that is all head, and a heartbeat.
  lemma OnTheWire()
    ensures Encode(Frame([7], [8, 9])) == [89, 84, 1, 0, 3, 0, 0, 0, 7, 8, 9]
    ensures Encode(Frame([1], [])) == [89, 84, 1, 0, 1, 0, 0, 0, 1]
    ensures Encode(Frame([], [])) == [89, 84, 0, 0, 0, 0, 0, 0]
  {
    hide Header;
    ShortHeader(1, 3);
    ShortHeader(1, 1);
    ShortHeader(0, 0);
  }

  function EncodeAll(fs: seq<Frame>): seq<Byte> {
    if fs == [] then [] else Encode(fs[0]) + EncodeAll(fs[1..])
  }

  lemma {:induction false} EncodeAllConcat(a: seq<Frame>, b: seq<Frame>)
    ensures EncodeAll(a + b) == EncodeAll(a) + EncodeAll(b)
  {
    if a == [] {
      assert a + b == b;
    } else {
      assert (a + b)[1..] == a[1..] + b;
      EncodeAllConcat(a[1..], b);
    }
  }

  // What a receiver has to pass on: every frame that is no heartbeat, in order.
  function Payloads(fs: seq<Frame>): seq<Frame> {
    if fs == [] then []
    else if Heartbeat(fs[|fs| - 1]) then Payloads(fs[..|fs| - 1])
    else Payloads(fs[..|fs| - 1]) + [fs[|fs| - 1]]
  }

  lemma PayloadsGrow(fs: seq<Frame>, f: Frame)
    ensures Payloads(fs + [f]) == if Heartbeat(f) then Payloads(fs) else Payloads(fs) + [f]
  {
    assert (fs + [f])[..|fs|] == fs;
  }

  // ---------------------------------------------------------------- reading a prefix of frames

  // The lengths in the header of the frame that the bytes begin with.
  lemma HeaderReads(f: Frame, s: seq<Byte>)
    requires f.Frame? && |f.head| < 0x1_0000 && |f.head| + |f.body| < 0x1_0000_0000
    requires |s| >= HEAD_SIZE && s[..HEAD_SIZE] == Header(|f.head|, |f.head| + |f.body|)
    ensures s[0] == HEAD_BYTE_1 && s[1] == HEAD_BYTE_2
    ensures ReadU16(s, 2) == |f.head| && ReadU32(s, 4) == |f.head| + |f.body|
  {
    var h := Header(|f.head|, |f.head| + |f.body|);
    U16Reads(|f.head|);
    U32Reads(|f.head| + |f.body|);
    assert forall i :: 0 <= i < HEAD_SIZE ==> s[i] == h[i];
    hide U16, U32, Header;
    HeaderBytes(|f.head|, |f.head| + |f.body|);
  }

  lemma HeaderBytes(m: nat, n: nat)
    ensures Header(m, n)[0] == HEAD_BYTE_1 && Header(m, n)[1] == HEAD_BYTE_2
    ensures Header(m, n)[2] == U16(m)[0] && Header(m, n)[3] == U16(m)[1]
    ensures Header(m, n)[4] == U32(n)[0] && Header(m, n)[5] == U32(n)[1]
    ensures Header(m, n)[6] == U32(n)[2] && Header(m, n)[7] == U32(n)[3]
  {
    hide U16, U32;
  }

  // Bytes that begin like the stream of the frames todo.
  predicate Begins(s: seq<Byte>, todo: seq<Frame>) {
    s <= EncodeAll(todo)
  }

  lemma PrefixOfFirst(s: seq<Byte>, todo: seq<Frame>, n: nat)
    requires Begins(s, todo) && todo != [] && n <= |s| && n <= Size(todo[0])
    ensures s[..n] == Encode(todo[0])[..n]
  {
    var e := EncodeAll(todo);
    assert s == e[..|s|];
    assert forall i :: 0 <= i < n ==> s[i] == e[i] == Encode(todo[0])[i];
  }

  lemma HeaderSeen(s: seq<Byte>, todo: seq<Frame>)
    requires Begins(s, todo) && |s| >= HEAD_SIZE
    requires forall f :: f in todo ==> WellFormed(f)
    ensures todo != [] && (todo[0].Frame? <==> s[0] == HEAD_BYTE_1 && s[1] == HEAD_BYTE_2)
    ensures todo[0].Frame? ==> ReadU16(s, 2) == |todo[0].head| && ReadU32(s, 4) == |todo[0].head| + |todo[0].body|
  {
    var f := todo[0];
    assert f in todo && WellFormed(f);
    PrefixOfFirst(s, todo, HEAD_SIZE);
    if f.Frame? {
      assert Encode(f)[..HEAD_SIZE] == Header(|f.head|, |f.head| + |f.body|);
      hide Header, Encode, ReadU16, ReadU32;
      HeaderReads(f, s);
    } else {
      assert s[0] == s[..HEAD_SIZE][0] == f.bytes[0] && s[1] == s[..HEAD_SIZE][1] == f.bytes[1];
    }
  }

  lemma FrameSeen(s: seq<Byte>, todo: seq<Frame>)
    requires Begins(s, todo) && todo != [] && todo[0].Frame? && |s| >= Size(todo[0])
    ensures var f := todo[0]; var n := Size(f);
            s[HEAD_SIZE..HEAD_SIZE + |f.head|] == f.head && s[HEAD_SIZE + |f.head|..n] == f.body
            && Begins(s[n..], todo[1..])
  {
    var f := todo[0];
    var n := Size(f);
    PrefixOfFirst(s, todo, n);
    assert s[..n] == Encode(f);
    assert s[HEAD_SIZE..n] == s[..n][HEAD_SIZE..] == f.head + f.body;
    assert s[HEAD_SIZE..HEAD_SIZE + |f.head|] == s[HEAD_SIZE..n][..|f.head|];
    assert s[HEAD_SIZE + |f.head|..n] == s[HEAD_SIZE..n][|f.head|..];
    assert EncodeAll(todo)[n..] == EncodeAll(todo[1..]);
    assert s[n..] == EncodeAll(todo)[n..][..|s| - n];
  }
}
