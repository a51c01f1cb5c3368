/** `memcpy`, `memset16` and `memset` of klibc/private/memory.c, on one flat byte memory. */
module MemoryOps {

  type byte = b: int | 0 <= b < 0x100
  type u16 = h: int | 0 <= h < 0x1_0000

  // ----- memcpy

  /** Copying byte by byte, upwards. */
  function CopyUp(mem: seq<byte>, dst: nat, src: nat, count: nat): (r: seq<byte>)
    requires dst + count <= |mem| && src + count <= |mem|
    ensures |r| == |mem|
    decreases count
  {
    if count == 0 then mem else CopyUp(mem[dst := mem[src]], dst + 1, src + 1, count - 1)
  }

  /** What a caller of `memcpy` wants: the destination holds the original source, and nothing else changed. */
  ghost predicate Copied(mem: seq<byte>, mem': seq<byte>, dst: nat, src: nat, count: nat)
    requires dst + count <= |mem| && src + count <= |mem|
  {
    |mem'| == |mem| && forall a | 0 <= a < |mem| :: mem'[a] == CopiedByte(mem, dst, src, count, a)
  }

  function CopiedByte(mem: seq<byte>, dst: nat, src: nat, count: nat, a: nat): byte
    requires src + count <= |mem| && a < |mem|
  {
    if dst <= a < dst + count then mem[src + (a - dst)] else mem[a]
  }

  /** One odd byte first, then two at a time: the same as byte by byte, however the ranges lie. */
  method Memcpy(mem: array<byte>, dst: nat, src: nat, count: nat)
    requires dst + count <= mem.Length && src + count <= mem.Length
    modifies mem
    ensures mem[..] == CopyUp(old(mem[..]), dst, src, count)
  {
    var d: nat, s: nat, n: nat := dst, src, count;
    ghost var goal := CopyUp(mem[..], dst, src, count);
    if n % 2 == 1 {
      CopyByte(mem[..], d, s, n);
      mem[d] := mem[s];
      d, s := d + 1, s + 1;
    }
    n := n / 2;
    while n > 0
      invariant d + 2 * n <= mem.Length && s + 2 * n <= mem.Length
      invariant CopyUp(mem[..], d, s, 2 * n) == goal
    {
      CopyByte(mem[..], d, s, 2 * n);
      mem[d] := mem[s];
      CopyByte(mem[..], d + 1, s + 1, 2 * n - 1);
      mem[d + 1] := mem[s + 1];
      d, s, n := d + 2, s + 2, n - 1;
    }
  }

  lemma CopyByte(mem: seq<byte>, dst: nat, src: nat, count: nat)
    requires count > 0 && dst + count <= |mem| && src + count <= |mem|
    ensures CopyUp(mem, dst, src, count) == CopyUp(mem[dst := mem[src]], dst + 1, src + 1, count - 1)
  {
  }

  /** Disjoint ranges, and overlapping ones with the destination at or below the source, are copied. */
  lemma {:induction false} CopyUpCopies(mem: seq<byte>, dst: nat, src: nat, count: nat)
    requires dst + count <= |mem| && src + count <= |mem|
    requires dst <= src || src + count <= dst
    ensures Copied(mem, CopyUp(mem, dst, src, count), dst, src, count)
    decreases count
  {
    if count > 0 {
      var mem1 := mem[dst := mem[src]];
      CopyUpCopies(mem1, dst + 1, src + 1, count - 1);
      forall a | 0 <= a < |mem|
        ensures CopiedByte(mem1, dst + 1, src + 1, count - 1, a) == CopiedByte(mem, dst, src, count, a)
      {
      }
    }
  }

  /** A memory on which an upward copy into the middle of its own source goes wrong. */
  function Marked(size: nat, at: nat): seq<byte> {
    seq(size, a => if a == at then 1 else 0)
  }

  lemma {:induction false} CopyUpKeepsFirst(mem: seq<byte>, dst: nat, src: nat, count: nat, a: nat)
    requires dst + count <= |mem| && src + count <= |mem| && a < |mem| && (a < dst || a >= dst + count)
    ensures CopyUp(mem, dst, src, count)[a] == mem[a]
    decreases count
  {
    if count > 0 {
      CopyUpKeepsFirst(mem[dst := mem[src]], dst + 1, src + 1, count - 1, a);
    }
  }

  /** `memcpy` copies every memory content correctly exactly when the ranges are disjoint or the
      destination is at or below the source. */
  lemma CopiesIffSafe(size: nat, dst: nat, src: nat, count: nat)
    requires dst + count <= size && src + count <= size
    ensures (forall mem: seq<byte> | |mem| == size :: Copied(mem, CopyUp(mem, dst, src, count), dst, src, count))
            <==> dst <= src || src + count <= dst
  {
    if dst <= src || src + count <= dst {
      forall mem: seq<byte> | |mem| == size
        ensures Copied(mem, CopyUp(mem, dst, src, count), dst, src, count)
      {
        CopyUpCopies(mem, dst, src, count);
      }
    } else {
      // the first byte lands in the source, so the byte at dst is lost
      var mem := Marked(size, src);
      OverlapIsWrong(mem, dst, src, count);
    }
  }

  lemma OverlapIsWrong(mem: seq<byte>, dst: nat, src: nat, count: nat)
    requires dst + count <= |mem| && src + count <= |mem| && src < dst < src + count
    requires mem == Marked(|mem|, src)
    ensures !Copied(mem, CopyUp(mem, dst, src, count), dst, src, count)
  {
    var gap := dst - src;
    CopyUpRepeats(mem, dst, src, count, gap);
    assert dst <= dst + gap < dst + count;
    assert mem[dst] == 0;
  }

  /** With an overlap of that kind, byte `gap` of the destination is a copy of byte 0 of the source. */
  lemma CopyUpRepeats(mem: seq<byte>, dst: nat, src: nat, count: nat, gap: nat)
    requires dst + count <= |mem| && src + count <= |mem| && 0 < gap < count && dst == src + gap
    ensures CopyUp(mem, dst, src, count)[dst + gap] == mem[src]
  {
    CopyUpReaches(mem[dst := mem[src]], dst + 1, src + 1, count - 1, gap - 1);
  }

  lemma {:induction false} CopyUpReaches(mem: seq<byte>, dst: nat, src: nat, count: nat, k: nat)
    requires dst + count <= |mem| && src + count <= |mem| && k < count && dst > src + k
    ensures CopyUp(mem, dst, src, count)[dst + k] == mem[src + k]
    decreases k
  {
    if k == 0 {
      CopyUpKeepsFirst(mem[dst := mem[src]], dst + 1, src + 1, count - 1, dst);
    } else {
      CopyUpReaches(mem[dst := mem[src]], dst + 1, src + 1, count - 1, k - 1);
    }
  }

  // ----- memset16 and memset

  /** The byte at distance a inside a range filled with halfwords, low byte first. */
  function HalfwordByte(value: u16, a: nat): byte {
    if a % 2 == 0 then value % 0x100 else value / 0x100
  }

  method Memset16(mem: array<byte>, ptr: nat, value: u16, num: nat)
    requires ptr + 2 * num <= mem.Length
    modifies mem
    ensures forall a | 0 <= a < mem.Length ::
      mem[a] == if ptr <= a < ptr + 2 * num then HalfwordByte(value, a - ptr) else old(mem[a])
  {
    var p: nat, n: nat := ptr, num;
    while n > 0
      invariant p + 2 * n == ptr + 2 * num && ptr <= p && (p - ptr) % 2 == 0
      invariant forall a | 0 <= a < mem.Length ::
        mem[a] == if ptr <= a < p then HalfwordByte(value, a - ptr) else old(mem[a])
    {
      mem[p], mem[p + 1] := value % 0x100, value / 0x100;
      p, n := p + 2, n - 1;
    }
  }

  method Memset(mem: array<byte>, ptr: nat, value: int, num: nat)
    requires ptr + num <= mem.Length
    modifies mem
    ensures forall a | 0 <= a < mem.Length ::
      mem[a] == if ptr <= a < ptr + num then value % 0x100 else old(mem[a])
  {
    var p: nat, n: nat := ptr, num;
    while n > 0
      invariant ptr <= p && p + n == ptr + num
      invariant forall a | 0 <= a < mem.Length :: mem[a] == if ptr <= a < p then value % 0x100 else old(mem[a])
    {
      mem[p] := value % 0x100;
      p, n := p + 1, n - 1;
    }
  }
}
