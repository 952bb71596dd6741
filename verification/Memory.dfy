// Writing into buffers, and parts of sequences.
module Memory {
  // A part of a part.
  lemma Inner<T>(s: seq<T>, a: nat, b: nat, i: nat, j: nat)
    requires a <= b <= |s| && i <= j <= b - a
    ensures s[a..b][i..j] == s[a + i..a + j]
  {
    var part, whole := s[a..b][i..j], s[a + i..a + j];
    assert |part| == |whole|;
    forall k | 0 <= k < |part|
      ensures part[k] == whole[k]
    {
      assert part[k] == s[a + (i + k)];
    }
  }

  lemma Whole<T>(s: seq<T>, a: nat)
    requires a <= |s|
    ensures s[a..|s|] == s[a..]
  {}

  // A part that lies within the first of two joined sequences.
  lemma InFirst<T>(s: seq<T>, t: seq<T>, i: nat, j: nat)
    requires i <= j <= |s|
    ensures (s + t)[i..j] == s[i..j]
  {
    var part, whole := (s + t)[i..j], s[i..j];
    assert |part| == |whole|;
    forall k | 0 <= k < |part|
      ensures part[k] == whole[k]
    {}
  }

  // The buffer with data written at position at.
  function Written<T>(b: seq<T>, at: nat, data: seq<T>): (r: seq<T>)
    requires at + |data| <= |b|
    ensures |r| == |b|
  {
    b[..at] + data + b[at + |data|..]
  }

  method MemCpy<T>(buf: array<T>, at: nat, data: seq<T>)
    requires at + |data| <= buf.Length
    modifies buf
    ensures buf[..] == Written(old(buf[..]), at, data)
  {
    ghost var b := buf[..];
    for i := 0 to |data|
      invariant buf[..] == Written(b, at, data[..i])
    {
      buf[at + i] := data[i];
      WriteOneMore(b, at, data, i);
    }
    assert data[..|data|] == data;
  }

  lemma WriteOneMore<T>(b: seq<T>, at: nat, data: seq<T>, i: nat)
    requires at + |data| <= |b| && i < |data|
    ensures Written(b, at, data[..i + 1]) == Written(b, at, data[..i])[at + i := data[i]]
  {}

  // What was written, and what stands before and behind it.
  lemma WrittenParts<T>(b: seq<T>, at: nat, data: seq<T>)
    requires at + |data| <= |b|
    ensures var r := Written(b, at, data);
            r[..at] == b[..at] && r[at..at + |data|] == data && r[at + |data|..] == b[at + |data|..]
  {}

  // The two ranges may overlap.
  method MemMove<T>(buf: array<T>, dst: nat, src: nat, len: nat)
    requires dst + len <= buf.Length && src + len <= buf.Length
    modifies buf
    ensures buf[..] == Written(old(buf[..]), dst, old(buf[..])[src..src + len])
  {
    var data := buf[src..src + len];
    assert data == buf[..][src..src + len];
    MemCpy(buf, dst, data);
  }
}
