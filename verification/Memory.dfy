/** memcpy and memcpydw (common/mem.c) on one byte memory, overlapping areas included. */
module Memory {
  import opened CTypes

  predicate Clobbers(dst: nat, src: nat, count: nat) {
    src < dst < src + count
  }

  /** What an ascending byte copy brings to the destination: the source, or, where the destination starts inside the
      source, the bytes in front of the destination over and over. */
  function CopyOf(mem: seq<Byte>, dst: nat, src: nat, count: nat): (r: seq<Byte>)
    requires src + count <= |mem|
    ensures |r| == count
  {
    if Clobbers(dst, src, count) then
      seq(count, k requires 0 <= k < count => mem[src + Origin(k, dst - src)])
    else mem[src..src + count]
  }

  /** Unless the destination starts inside the source, the copy is the source; if it does, the bytes in front of the
      destination come first, and every further byte is the one as far before it as the destination is behind the
      source. */
  lemma CopyMeans(mem: seq<Byte>, dst: nat, src: nat, count: nat, k: nat)
    requires src + count <= |mem| && k < count
    ensures !(src < dst < src + count) ==> CopyOf(mem, dst, src, count) == mem[src..src + count]
    ensures src < dst < src + count ==>
              CopyOf(mem, dst, src, count)[k]
              == if k < dst - src then mem[src + k] else CopyOf(mem, dst, src, count)[k - (dst - src)]
  {
    hide Origin, CopyOf;
    PlainCopy(mem, dst, src, count);
    if src < dst < src + count {
      OriginBack(k, dst - src);
      ClobberedAt(mem, dst, src, count, k);
      if k >= dst - src {
        ClobberedAt(mem, dst, src, count, k - (dst - src));
      }
    }
  }

  lemma PlainCopy(mem: seq<Byte>, dst: nat, src: nat, count: nat)
    requires src + count <= |mem|
    ensures !(src < dst < src + count) ==> CopyOf(mem, dst, src, count) == mem[src..src + count]
  {
  }

  lemma ClobberedAt(mem: seq<Byte>, dst: nat, src: nat, count: nat, k: nat)
    requires src + count <= |mem| && k < count && src < dst < src + count
    ensures CopyOf(mem, dst, src, count)[k] == mem[src + Origin(k, dst - src)]
  {
    hide Origin;
  }

  lemma OriginBack(k: nat, d: nat)
    requires d > 0
    ensures Origin(k, d) == if k < d then k else Origin(k - d, d)
  {
  }

  /** The byte found at the source when byte i is copied. */
  lemma SourceByte(mem: seq<Byte>, dst: nat, src: nat, count: nat, i: nat)
    requires dst + count <= |mem| && src + count <= |mem| && i < count
    ensures Spliced(mem, dst, CopyOf(mem, dst, src, count), i)[src + i] == CopyOf(mem, dst, src, count)[i]
  {
    SpliceAt(mem, dst, CopyOf(mem, dst, src, count), i, src + i);
  }

  method Memcpy(mem: array<Byte>, dst: nat, src: nat, count: nat)
    requires dst + count <= mem.Length && src + count <= mem.Length
    modifies mem
    ensures mem[..] == old(mem[..dst]) + CopyOf(old(mem[..]), dst, src, count) + old(mem[dst + count..])
  {
    ghost var was := mem[..];
    ghost var copy := CopyOf(was, dst, src, count);
    SpliceWhole(was, dst, copy);
    hide Spliced, CopyOf;
    for i := 0 to count
      invariant mem[..] == Spliced(was, dst, copy, i)
    {
      ghost var now := mem[..];
      SourceByte(was, dst, src, count, i);
      SpliceNext(was, dst, copy, i);
      mem[dst + i] := mem[src + i];
      assert mem[..] == now[dst + i := copy[i]];
    }
  }

  /** Where byte k of a copy in steps of four comes from: a byte in front of the destination that was copied there by an
      earlier step, and so on, or the source itself, if the same step overwrites it after it was read. */
  function DwordOrigin(k: nat, d: nat): (r: nat)
    requires d > 0
    ensures r <= k
  {
    if k >= d && k % 4 < d then DwordOrigin(k - d, d) else k
  }

  /** What an ascending copy of double words brings to the destination. */
  function CopyOfDwords(mem: seq<Byte>, dst: nat, src: nat, count: nat): (r: seq<Byte>)
    requires src + 4 * count <= |mem|
    ensures |r| == 4 * count
  {
    if Clobbers(dst, src, 4 * count) then
      seq(4 * count, k requires 0 <= k < 4 * count => mem[src + DwordOrigin(k, dst - src)])
    else mem[src..src + 4 * count]
  }

  /** The two copies bring the same bytes to the destination. */
  ghost predicate SameCopy(mem: seq<Byte>, dst: nat, src: nat, count: nat)
    requires src + 4 * count <= |mem|
  {
    CopyOfDwords(mem, dst, src, count) == CopyOf(mem, dst, src, 4 * count)
  }

  /** memcpy and memcpydw have the same effect on every memory if and only if the destination does not start inside the
      first double word of the source. */
  lemma CopiesAgree(dst: nat, src: nat, count: nat)
    ensures (forall mem: seq<Byte> | src + 4 * count <= |mem| :: SameCopy(mem, dst, src, count))
            <==> count == 0 || !(src < dst < src + 4)
  {
    if count > 0 && src < dst < src + 4 {
      var mem := CopiesDiffer(dst, src, count);
      hide SameCopy;
    } else {
      forall mem: seq<Byte> | src + 4 * count <= |mem|
        ensures SameCopy(mem, dst, src, count)
      {
        CopiesSame(mem, dst, src, count);
      }
    }
  }

  lemma CopiesDiffer(dst: nat, src: nat, count: nat) returns (mem: seq<Byte>)
    requires count > 0 && src < dst < src + 4
    ensures src + 4 * count <= |mem| && !SameCopy(mem, dst, src, count)
  {
    var d := dst - src;
    mem := seq(src + 4 * count, i => if i == src then 1 else 0);
    assert Origin(d, d) == 0 && DwordOrigin(d, d) == d;
    assert CopyOf(mem, dst, src, 4 * count)[d] == 1 && CopyOfDwords(mem, dst, src, count)[d] == 0;
  }

  lemma CopiesSame(mem: seq<Byte>, dst: nat, src: nat, count: nat)
    requires src + 4 * count <= |mem| && (count == 0 || !(src < dst < src + 4))
    ensures SameCopy(mem, dst, src, count)
  {
    hide Origin, DwordOrigin;
    if Clobbers(dst, src, 4 * count) {
      hide CopyOf, CopyOfDwords;
      var a, b := CopyOfDwords(mem, dst, src, count), CopyOf(mem, dst, src, 4 * count);
      forall k | 0 <= k < 4 * count
        ensures a[k] == b[k]
      {
        SameOrigin(k, dst - src);
        ClobberedAt(mem, dst, src, 4 * count, k);
        DwordsClobberedAt(mem, dst, src, count, k);
      }
      assert a == b;
    }
  }

  lemma DwordsClobberedAt(mem: seq<Byte>, dst: nat, src: nat, count: nat, k: nat)
    requires src + 4 * count <= |mem| && k < 4 * count && src < dst < src + 4 * count
    ensures CopyOfDwords(mem, dst, src, count)[k] == mem[src + DwordOrigin(k, dst - src)]
  {
    assert Clobbers(dst, src, 4 * count);
    hide DwordOrigin, Clobbers;
  }

  lemma {:induction false} SameOrigin(k: nat, d: nat)
    requires d >= 4
    ensures DwordOrigin(k, d) == Origin(k, d)
  {
    if k >= d {
      SameOrigin(k - d, d);
    }
  }

  /** The same in steps of four bytes, each read as a whole before it is written. */
  method Memcpydw(mem: array<Byte>, dst: nat, src: nat, count: nat)
    requires dst + 4 * count <= mem.Length && src + 4 * count <= mem.Length
    modifies mem
    ensures mem[..] == old(mem[..dst]) + CopyOfDwords(old(mem[..]), dst, src, count) + old(mem[dst + 4 * count..])
  {
    ghost var was := mem[..];
    ghost var copy := CopyOfDwords(was, dst, src, count);
    SpliceWhole(was, dst, copy);
    hide Spliced, CopyOfDwords;
    for i := 0 to count
      invariant mem[..] == Spliced(was, dst, copy, 4 * i)
    {
      Aligned(i);
      CopyWord(mem, dst + 4 * i, src + 4 * i, was, dst, src, count, 4 * i);
    }
  }

  lemma Aligned(i: nat)
    ensures 4 * i % 4 == 0
  {
  }

  /** *d = *s for 32-bit pointers: four bytes are read, then four are written. */
  method CopyWord(mem: array<Byte>, d: nat, s: nat, ghost was: seq<Byte>, ghost dst: nat, ghost src: nat,
                  ghost count: nat, ghost j: nat)
    requires dst + 4 * count <= |was| && src + 4 * count <= |was| && j % 4 == 0 && j + 4 <= 4 * count
    requires d == dst + j && s == src + j
    requires mem[..] == Spliced(was, dst, CopyOfDwords(was, dst, src, count), j)
    modifies mem
    ensures mem[..] == Spliced(was, dst, CopyOfDwords(was, dst, src, count), j + 4)
  {
    ghost var copy := CopyOfDwords(was, dst, src, count);
    hide Spliced, CopyOfDwords;
    WordRead(was, dst, src, count, j);
    var word := mem[..][s..s + 4];
    for b := 0 to 4
      invariant mem[..] == Spliced(was, dst, copy, j + b)
    {
      ghost var now := mem[..];
      SpliceNext(was, dst, copy, j + b);
      mem[d + b] := word[b];
      assert word[b] == copy[j..j + 4][b] == copy[j + b];
      assert mem[..] == now[dst + (j + b) := copy[j + b]];
    }
  }

  /** The double word that is read after j bytes are copied. */
  lemma WordRead(mem: seq<Byte>, dst: nat, src: nat, count: nat, j: nat)
    requires dst + 4 * count <= |mem| && src + 4 * count <= |mem| && j % 4 == 0 && j + 4 <= 4 * count
    ensures var copy := CopyOfDwords(mem, dst, src, count);
            Spliced(mem, dst, copy, j)[src + j..src + j + 4] == copy[j..j + 4]
  {
    hide Spliced, CopyOfDwords;
    var copy := CopyOfDwords(mem, dst, src, count);
    var read, written := Spliced(mem, dst, copy, j)[src + j..src + j + 4], copy[j..j + 4];
    forall b | 0 <= b < 4
      ensures read[b] == written[b]
    {
      ByteRead(mem, dst, src, count, j, b);
    }
  }

  /** Byte b of it. */
  lemma ByteRead(mem: seq<Byte>, dst: nat, src: nat, count: nat, j: nat, b: nat)
    requires dst + 4 * count <= |mem| && src + 4 * count <= |mem|
    requires j % 4 == 0 && j + 4 <= 4 * count && b < 4
    ensures var copy := CopyOfDwords(mem, dst, src, count);
            Spliced(mem, dst, copy, j)[src + j + b] == copy[j + b]
  {
    hide Spliced;
    SpliceAt(mem, dst, CopyOfDwords(mem, dst, src, count), j, src + j + b);
    if Clobbers(dst, src, 4 * count) {
      OriginStep(j, b, dst - src);
      hide DwordOrigin;
    }
  }

  lemma OriginStep(j: nat, b: nat, d: nat)
    requires j % 4 == 0 && b < 4 && d > 0
    ensures DwordOrigin(j + b, d) == if j + b >= d && b < d then DwordOrigin(j + b - d, d) else j + b
  {
    assert (j + b) % 4 == b;
  }
}
