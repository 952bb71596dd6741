// The sending side: an output stream over blocks of doubling size, and the encoder that writes
// a message through it and fills in the header afterwards.
module RpcEncoder {
  import opened Memory
  import opened RpcFrame

  const INIT_BLOCK_SIZE: nat := 256

  // The bytes of full blocks, one behind the other.
  ghost function Flat(bs: seq<array<Byte>>): seq<Byte>
    reads set b | b in bs
  {
    if bs == [] then [] else bs[0][..] + Flat(bs[1..])
  }

  lemma {:induction false} FlatPush(bs: seq<array<Byte>>, b: array<Byte>)
    ensures Flat(bs + [b]) == Flat(bs) + b[..]
  {
    if bs == [] {
      assert [] + [b] == [b] && [b][1..] == [];
    } else {
      assert (bs + [b])[1..] == bs[1..] + [b];
      FlatPush(bs[1..], b);
    }
  }

  ghost predicate Distinct(bs: seq<array<Byte>>) {
    forall i, j :: 0 <= i < j < |bs| ==> bs[i] != bs[j]
  }

  class OutputStream {
    var blocks: seq<array<Byte>>
    var blockSize: nat
    var used: nat
    var byteCount: nat

    ghost predicate Valid()
      reads this
    {
      && blocks != [] && Distinct(blocks)
      && Last().Length == blockSize > 0 && used <= blockSize
    }

    function Last(): array<Byte>
      requires blocks != []
      reads this
    {
      blocks[|blocks| - 1]
    }

    // What has been written: full blocks, and the used part of the last one.
    ghost function Contents(): seq<Byte>
      requires Valid()
      reads this, set b | b in blocks
    {
      Flat(blocks[..|blocks| - 1]) + Last()[..used]
    }

    // A new stream with room for a header, which is the first thing in it.
    constructor InitHead(headSize: nat)
      requires headSize < INIT_BLOCK_SIZE
      ensures Valid() && fresh(blocks[0]) && |blocks| == 1
      ensures |Contents()| == headSize == byteCount && blocks[0].Length >= headSize
    {
      var block := new Byte[INIT_BLOCK_SIZE];
      blocks := [block];
      blockSize := INIT_BLOCK_SIZE;
      used := headSize;
      byteCount := headSize;
    }

    // Offers the unused part of the last block, or a new block twice as large, and counts all
    // of it as written.
    method Next() returns (data: array<Byte>, start: nat, size: nat)
      requires Valid()
      modifies this
      ensures Valid() && data == Last() && used == blockSize == start + size && size > 0
      ensures byteCount == old(byteCount) + size
      ensures if old(used) < old(blockSize) then blocks == old(blocks)
              else blocks == old(blocks) + [data] && fresh(data) && data.Length == 2 * old(blockSize)
      ensures Flat(blocks[..|blocks| - 1]) + data[..start] == old(Contents())
    {
      if used == blockSize {
        blockSize := blockSize * 2;
        data := new Byte[blockSize];
        FlatPush(blocks[..|blocks| - 1], Last());
        assert blocks[..|blocks| - 1] + [Last()] == blocks;
        assert Last()[..] == Last()[..used];
        blocks := blocks + [data];
        assert blocks[..|blocks| - 1] == old(blocks);
        start, size := 0, blockSize;
        byteCount := byteCount + size;
        used := blockSize;
      } else {
        data, start, size := Last(), used, blockSize - used;
        byteCount := byteCount + size;
        used := blockSize;
      }
    }

    // Gives back the last count bytes.
    method BackUp(count: nat)
      requires Valid() && count <= used && count <= byteCount
      modifies this`used, this`byteCount
      ensures Valid() && used == old(used) - count && byteCount == old(byteCount) - count
    {
      used := used - count;
      byteCount := byteCount - count;
    }

    // Fills what Next offers with data, and gives back what is left over.
    method WriteSome(data: seq<Byte>) returns (m: nat)
      requires Valid() && data != [] && byteCount == |Contents()|
      modifies this, Last()
      ensures Valid() && 0 < m <= |data| && Contents() == old(Contents()) + data[..m]
      ensures old(blocks) <= blocks && (Last() == old(Last()) || fresh(Last()))
      ensures byteCount == |Contents()|
    {
      hide Flat;
      var block, start, size := Next();
      m := if |data| < size then |data| else size;
      ContentsOfNext(start);
      Fill(block, start, data[..m], size - m);
    }

    lemma ContentsOfNext(start: nat)
      requires Valid() && start < used == blockSize
      ensures |Contents()| == |Flat(blocks[..|blocks| - 1])| + blockSize
    {}

    // Copies data to where Next pointed, and gives back the rest.
    method Fill(block: array<Byte>, start: nat, data: seq<Byte>, rest: nat)
      requires Valid() && block == Last() && used == blockSize == start + |data| + rest && rest <= byteCount
      modifies this`used, this`byteCount, block
      ensures Valid() && blocks == old(blocks) && byteCount == old(byteCount) - rest
      ensures Contents() == old(Flat(blocks[..|blocks| - 1])) + old(block[..start]) + data
    {
      hide Flat;
      ghost var front := blocks[..|blocks| - 1];
      ghost var full := Flat(front);
      assert block !in front;
      CopyIn(block, start, data);
      assert Flat(front) == full;
      BackUp(rest);
      assert block[..start + |data|] == block[..start] + block[start..start + |data|];
    }

    // All of data, as a serialiser writes it: block by block, giving back only at the end.
    method Write(data: seq<Byte>)
      requires Valid() && byteCount == |Contents()|
      modifies this, Last()
      ensures Valid() && Contents() == old(Contents()) + data
      ensures old(blocks) <= blocks && (Last() == old(Last()) || fresh(Last()))
      ensures byteCount == |Contents()|
    {
      hide Flat, Contents;
      var pos := 0;
      assert data[..0] == [];
      while pos < |data|
        invariant pos <= |data| && Valid() && Contents() == old(Contents()) + data[..pos]
        invariant old(blocks) <= blocks && (Last() == old(Last()) || fresh(Last()))
        invariant byteCount == |Contents()|
      {
        var m := WriteSome(data[pos..]);
        assert data[..pos + m] == data[..pos] + data[pos..][..m];
        pos := pos + m;
      }
      assert data[..|data|] == data;
    }

    // The first n bytes of the contents lie in the first block.
    ghost predicate Room(n: nat)
      requires Valid()
      reads this
    {
      n <= blocks[0].Length && (|blocks| > 1 || n <= used)
    }

    // The contents behind those n bytes.
    ghost function Beyond(n: nat): seq<Byte>
      requires Valid() && Room(n)
      reads this, set b | b in blocks
    {
      if |blocks| == 1 then blocks[0][n..used]
      else blocks[0][n..] + Flat(blocks[1..|blocks| - 1]) + Last()[..used]
    }

    lemma RoomInContents(n: nat)
      requires Valid() && n <= |Contents()| && n <= blocks[0].Length
      ensures Room(n)
    {
      OneBlock();
    }

    lemma OneBlock()
      requires Valid()
      ensures |blocks| == 1 ==> Contents() == blocks[0][..used]
    {}

    lemma HeadAndBeyond(n: nat)
      requires Valid() && Room(n)
      ensures Contents() == blocks[0][..n] + Beyond(n)
    {
      OneBlock();
      var first := blocks[0][..];
      if |blocks| > 1 {
        var front := blocks[..|blocks| - 1];
        assert front[0] == blocks[0] && front[1..] == blocks[1..|blocks| - 1];
        Split(first, n, Flat(front[1..]), Last()[..used]);
        assert first[..n] == blocks[0][..n] && first[n..] == blocks[0][n..];
      } else {
        Split(first[..used], n, [], []);
        assert first[..used][..n] == blocks[0][..n] && first[..used][n..] == blocks[0][n..used];
      }
    }

    // Overwrites part of the first block; what lies behind it in the contents stays.
    method PatchFirst(i: nat, bytes: seq<Byte>, ghost n: nat)
      requires Valid() && Room(n) && i + |bytes| == n
      modifies blocks[0]
      ensures Valid() && Beyond(n) == old(Beyond(n))
      ensures blocks[0][..i] == old(blocks[0][..i]) && blocks[0][i..n] == bytes
    {
      hide Flat;
      hide Written;
      ghost var tail := blocks[0][n..];
      CopyIn(blocks[0], i, bytes);
      if |blocks| == 1 {
        assert blocks[0][n..used] == tail[..used - n];
        assert old(blocks[0][n..used]) == tail[..used - n];
      } else {
        ghost var inner := blocks[1..|blocks| - 1];
        assert blocks[0] !in inner && Last() != blocks[0];
        assert Flat(inner) == old(Flat(inner));
        assert Last()[..used] == old(Last()[..used]);
      }
    }

    // Overwrites part of the room kept for the header.
    method Patch(i: nat, bytes: seq<Byte>)
      requires Valid() && HEAD_SIZE <= blocks[0].Length && HEAD_SIZE <= |Contents()|
      requires i + |bytes| <= HEAD_SIZE
      modifies blocks[0]
      ensures Valid() && i + |bytes| <= |old(Contents())|
      ensures Contents() == old(Contents())[..i] + bytes + old(Contents())[i + |bytes|..]
    {
      hide Flat, Beyond, Contents;
      ghost var n := i + |bytes|;
      RoomInContents(HEAD_SIZE);
      HeadAndBeyond(n);
      ghost var head, beyond := blocks[0][..n], Beyond(n);
      PatchFirst(i, bytes, n);
      HeadAndBeyond(n);
      assert blocks[0][..n] == blocks[0][..i] + blocks[0][i..n];
      Replace(head, i, bytes, beyond);
      assert head[..i] == old(blocks[0][..i]);
    }
  }

  lemma Replace(head: seq<Byte>, i: nat, bytes: seq<Byte>, beyond: seq<Byte>)
    requires |head| == i + |bytes|
    ensures (head + beyond)[..i] == head[..i] && (head + beyond)[i + |bytes|..] == beyond
  {}

  lemma Split(a: seq<Byte>, n: nat, b: seq<Byte>, c: seq<Byte>)
    requires n <= |a|
    ensures a + b + c == a[..n] + (a[n..] + b + c) && a[n..] + [] + [] == a[n..] && a + [] + [] == a
  {
    assert a == a[..n] + a[n..];
  }

  // Copies data into the block from position start on.
  method CopyIn(block: array<Byte>, start: nat, data: seq<Byte>)
    requires start + |data| <= block.Length
    modifies block
    ensures block[..start] == old(block[..start]) && block[start..start + |data|] == data
    ensures block[start + |data|..] == old(block[start + |data|..])
  {
    hide Written;
    ghost var b := block[..];
    MemCpy(block, start, data);
    WrittenParts(b, start, data);
    assert block[..start] == block[..][..start] && block[start + |data|..] == block[..][start + |data|..];
    assert block[start..start + |data|] == block[..][start..start + |data|];
  }

  // A message as the client writes it: room for the header, the serialised head, its length,
  // the serialised body, the length of both.
  method EncodeMessage(head: seq<Byte>, body: seq<Byte>) returns (os: OutputStream)
    ensures fresh(os) && os.Valid() && os.Contents() == Encode(Frame(head, body))
    ensures os.byteCount == |os.Contents()|
  {
    hide Flat, U16, U32, Encode;
    ghost var gap;
    os, gap := EncodeHead(head);
    ghost var first, before := os.blocks[0], os.Contents();
    os.Write(body);
    assert os.blocks[0] == first;
    os.Patch(4, U32(os.byteCount - HEAD_SIZE));
    HeaderFilled(before, gap, head, body);
  }

  // The same up to the length of the head; gap is what stands where the last length will be.
  method EncodeHead(head: seq<Byte>) returns (os: OutputStream, ghost gap: seq<Byte>)
    ensures fresh(os) && os.Valid() && fresh(os.blocks[0]) && fresh(os.Last()) && os.blocks[0].Length >= HEAD_SIZE
    ensures |gap| == 4 && os.Contents() == HeadPart(gap, head) && os.byteCount == |os.Contents()|
  {
    hide Flat, U16;
    os := new OutputStream.InitHead(HEAD_SIZE);
    ghost var first, room := os.blocks[0], os.Contents();
    os.Patch(0, [HEAD_BYTE_1, HEAD_BYTE_2]);
    os.Write(head);
    assert os.blocks[0] == first;
    os.Patch(2, U16(os.byteCount - HEAD_SIZE));
    gap := room[4..];
    LengthFilled(room, head);
  }

  function HeadPart(gap: seq<Byte>, head: seq<Byte>): seq<Byte> {
    [HEAD_BYTE_1, HEAD_BYTE_2] + U16(|head|) + gap + head
  }

  // The first two patches, seen on the bytes.
  lemma LengthFilled(room: seq<Byte>, head: seq<Byte>)
    requires |room| == HEAD_SIZE
    ensures var a := room[..0] + [HEAD_BYTE_1, HEAD_BYTE_2] + room[2..] + head;
            a[..2] + U16(|head|) + a[4..] == HeadPart(room[4..], head)
  {
    hide U16;
    var a := room[..0] + [HEAD_BYTE_1, HEAD_BYTE_2] + room[2..] + head;
    assert a[..2] == [HEAD_BYTE_1, HEAD_BYTE_2];
    assert a[4..] == room[4..] + head;
  }

  // The last one.
  lemma HeaderFilled(before: seq<Byte>, gap: seq<Byte>, head: seq<Byte>, body: seq<Byte>)
    requires |gap| == 4 && before == HeadPart(gap, head)
    ensures var b := before + body;
            b[..4] + U32(|head| + |body|) + b[8..] == Encode(Frame(head, body))
  {
    hide U16, U32;
    var b := before + body;
    assert b[..4] == [HEAD_BYTE_1, HEAD_BYTE_2] + U16(|head|);
    assert b[8..] == head + body;
  }
}
