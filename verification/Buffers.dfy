/** Copying into a caller's buffer, and counts that go through an int. */
module Buffers {
  function Int32(x: int): int { (x + 0x8000_0000) % 0x1_0000_0000 - 0x8000_0000 }

  lemma Int32Sum(x: int, y: int)
    ensures Int32(Int32(x) + y) == Int32(x + y)
  {
  }

  lemma Int32Zero()
    ensures Int32(0) == 0
  {
  }

  /** A buffer with data written over it from dest on. */
  function Over(buf: seq<bv8>, dest: nat, data: seq<bv8>): (r: seq<bv8>)
    ensures dest + |data| <= |buf| ==> |r| == |buf|
  {
    if dest + |data| <= |buf| then buf[..dest] + data + buf[dest + |data|..] else buf
  }

  lemma OverNothing(buf: seq<bv8>)
    ensures Over(buf, 0, []) == buf
  {
  }

  lemma OverOver(buf: seq<bv8>, a: seq<bv8>, b: seq<bv8>)
    requires |a| + |b| <= |buf|
    ensures Over(Over(buf, 0, a), |a|, b) == Over(buf, 0, a + b)
  {
  }

  lemma OverFront(buf: seq<bv8>, data: seq<bv8>)
    requires |data| <= |buf|
    ensures var r := Over(buf, 0, data); |r| == |buf| && r[..|data|] == data && r[|data|..] == buf[|data|..]
  {
  }

  /** Bytes land in the buffer from dest on. */
  method CopyIn(buf: array<bv8>, dest: nat, data: seq<bv8>)
    requires dest + |data| <= buf.Length
    modifies buf
    ensures buf[..] == Over(old(buf[..]), dest, data)
  {
    for i := 0 to |data|
      invariant forall k :: 0 <= k < buf.Length ==> buf[k] == if dest <= k < dest + i then data[k - dest] else old(buf[k])
    {
      buf[dest + i] := data[i];
    }
  }
}
