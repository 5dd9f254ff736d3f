/** kmemcpy and kmemset, the byte loops of memory.c. */
module RawMemory {
  import opened Bytes

  /** Memory m with the len bytes at src laid over those at dest. */
  function Copied(m: seq<byte>, dest: nat, src: nat, len: nat): seq<byte>
    requires dest + len <= |m| && src + len <= |m|
  {
    m[..dest] + m[src..src + len] + m[dest + len..]
  }

  /** Copying changes the destination stretch and nothing else. */
  lemma CopiedBytes(m: seq<byte>, dest: nat, src: nat, len: nat)
    requires dest + len <= |m| && src + len <= |m|
    ensures |Copied(m, dest, src, len)| == |m|
    ensures Copied(m, dest, src, len)[dest..dest + len] == m[src..src + len]
    ensures forall k :: 0 <= k < |m| && !(dest <= k < dest + len) ==> Copied(m, dest, src, len)[k] == m[k]
  {
  }

  /** The forward loop copies faithfully unless the destination starts inside the source. */
  method MemCpy(mem: array<byte>, dest: nat, src: nat, sz: nat)
    requires dest + sz <= mem.Length && src + sz <= mem.Length
    requires dest <= src || src + sz <= dest
    modifies mem
    ensures mem[..] == Copied(old(mem[..]), dest, src, sz)
  {
    var i := 0;
    while i < sz
      invariant 0 <= i <= sz
      invariant forall k :: dest <= k < dest + i ==> mem[k] == old(mem[..])[k - dest + src]
      invariant forall k :: 0 <= k < mem.Length && !(dest <= k < dest + i) ==> mem[k] == old(mem[k])
    {
      mem[dest + i] := mem[src + i];
      i := i + 1;
    }
    Assembled(old(mem[..]), mem[..], dest, src, sz);
  }

  lemma Assembled(m: seq<byte>, m': seq<byte>, dest: nat, src: nat, len: nat)
    requires dest + len <= |m| == |m'| && src + len <= |m|
    requires forall k :: dest <= k < dest + len ==> m'[k] == m[k - dest + src]
    requires forall k :: 0 <= k < |m| && !(dest <= k < dest + len) ==> m'[k] == m[k]
    ensures m' == Copied(m, dest, src, len)
  {
    var w := Copied(m, dest, src, len);
    assert |w| == |m|;
    forall k | 0 <= k < |m|
      ensures m'[k] == w[k]
    {
    }
  }

  method MemSet(mem: array<byte>, dest: nat, c: byte, sz: nat)
    requires dest + sz <= mem.Length
    modifies mem
    ensures forall k :: 0 <= k < mem.Length ==> mem[k] == if dest <= k < dest + sz then c else old(mem[k])
  {
    var i := 0;
    while i < sz
      invariant 0 <= i <= sz
      invariant forall k :: 0 <= k < mem.Length ==> mem[k] == if dest <= k < dest + i then c else old(mem[k])
    {
      mem[dest + i] := c;
      i := i + 1;
    }
  }
}
