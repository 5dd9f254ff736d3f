/** Bytes, 32-bit words and the little-endian layout of words in memory. */
module Bytes {

  const WORD_LIMIT: int := 0x1_0000_0000

  type byte = x: int | 0 <= x < 0x100

  type word = x: int | 0 <= x < 0x1_0000_0000

  function Max(a: nat, b: nat): nat {
    if a < b then b else a
  }

  /** The 32-bit value of a sum or difference: x modulo 2^32. */
  function Wrap(x: int): word
    decreases if x < 0 then -x else x
  {
    if x < 0 then (if x + WORD_LIMIT < 0 then Wrap(x + WORD_LIMIT) else x + WORD_LIMIT)
    else if x < WORD_LIMIT then x
    else Wrap(x - WORD_LIMIT)
  }

  /** 0x100 to the n-th power. */
  function Power(n: nat): (p: nat)
    ensures 1 <= p
    ensures n <= 4 ==> p == [1, 0x100, 0x1_0000, 0x100_0000, WORD_LIMIT][n]
  {
    if n == 0 then 1 else 0x100 * Power(n - 1)
  }

  /** The number whose little-endian bytes are bs. */
  function FromBytes(bs: seq<byte>): nat {
    if bs == [] then 0 else bs[0] + 0x100 * FromBytes(bs[1..])
  }

  lemma {:induction false} FromBytesBound(bs: seq<byte>)
    ensures FromBytes(bs) < Power(|bs|)
  {
    if bs != [] {
      FromBytesBound(bs[1..]);
    }
  }

  /** The n low bytes of v, least significant first. */
  function ToBytes(v: nat, n: nat): (bs: seq<byte>)
    ensures |bs| == n
  {
    if n == 0 then [] else [v % 0x100] + ToBytes(v / 0x100, n - 1)
  }

  lemma {:induction false} FromToBytes(v: nat, n: nat)
    requires v < Power(n)
    ensures FromBytes(ToBytes(v, n)) == v
  {
    if n > 0 {
      FromToBytes(v / 0x100, n - 1);
      assert ToBytes(v, n)[1..] == ToBytes(v / 0x100, n - 1);
    }
  }

  lemma {:induction false} ToFromBytes(bs: seq<byte>)
    ensures ToBytes(FromBytes(bs), |bs|) == bs
  {
    if bs != [] {
      ToFromBytes(bs[1..]);
      LowByte(bs[0], FromBytes(bs[1..]));
    }
  }

  lemma LowByte(b: byte, v: nat)
    ensures (b + 0x100 * v) % 0x100 == b && (b + 0x100 * v) / 0x100 == v
  {
  }

  function Put(m: seq<byte>, i: nat, b: byte): seq<byte>
    requires i < |m|
  {
    m[i := b]
  }

  /** The 32-bit value whose four little-endian bytes start at index i. */
  function Load(m: seq<byte>, i: nat): word
    requires i + 4 <= |m|
  {
    FromBytesBound(m[i..i + 4]);
    FromBytes(m[i..i + 4])
  }

  /** The bytes of a word, least significant first. */
  function LittleEndian(v: word): seq<byte> {
    [v % 0x100, v / 0x100 % 0x100, v / 0x1_0000 % 0x100, v / 0x100_0000]
  }

  lemma FourBytes(bs: seq<byte>)
    requires |bs| == 4
    ensures FromBytes(bs) == bs[0] as int + 0x100 * bs[1] as int + 0x1_0000 * bs[2] as int + 0x100_0000 * bs[3] as int
  {
    assert bs[1..][1..] == bs[2..] && bs[2..][1..] == bs[3..] && bs[3..][1..] == [];
    assert FromBytes(bs[3..]) == bs[3];
    assert FromBytes(bs[2..]) == bs[2] as int + 0x100 * bs[3] as int;
  }

  /** The first byte of a word in memory is its least significant one. */
  lemma LoadBytes(m: seq<byte>, i: nat)
    requires i + 4 <= |m|
    ensures Load(m, i) ==
      m[i] as int + 0x100 * m[i + 1] as int + 0x1_0000 * m[i + 2] as int + 0x100_0000 * m[i + 3] as int
    ensures m[i..i + 4] == LittleEndian(Load(m, i))
  {
    FourBytes(m[i..i + 4]);
    BytesOf(m[i], m[i + 1], m[i + 2], m[i + 3]);
    assert m[i..i + 4] == [m[i], m[i + 1], m[i + 2], m[i + 3]];
  }

  lemma BytesOf(a: byte, b: byte, c: byte, d: byte)
    ensures LittleEndian(a as int + 0x100 * b as int + 0x1_0000 * c as int + 0x100_0000 * d as int) == [a, b, c, d]
  {
    LowByte(a, b as int + 0x100 * c as int + 0x1_0000 * d as int);
    LowByte(b, c as int + 0x100 * d as int);
    LowByte(c, d);
  }

  lemma LoadSame(m: seq<byte>, m': seq<byte>, i: nat)
    requires i + 4 <= |m| && i + 4 <= |m'|
    requires forall k :: i <= k < i + 4 ==> m'[k] == m[k]
    ensures Load(m', i) == Load(m, i)
  {
    SliceSame(m, m', i, i + 4);
  }

  lemma SliceSame(m: seq<byte>, m': seq<byte>, a: nat, b: nat)
    requires a <= b <= |m| && b <= |m'|
    requires forall k :: a <= k < b ==> m'[k] == m[k]
    ensures m'[a..b] == m[a..b]
  {
  }

  /** m' is m with the four bytes at i spelling v and every other byte as it was. */
  ghost predicate Stored(m: seq<byte>, i: nat, v: word, m': seq<byte>)
    requires i + 4 <= |m|
  {
    && |m'| == |m|
    && Load(m', i) == v
    && forall k :: 0 <= k < |m| && !(i <= k < i + 4) ==> m'[k] == m[k]
  }

  lemma StoreExists(m: seq<byte>, i: nat, v: word)
    requires i + 4 <= |m|
    ensures exists m' :: Stored(m, i, v, m')
  {
    var bs := ToBytes(v, 4);
    FromToBytes(v, 4);
    var m' := m[i := bs[0]][i + 1 := bs[1]][i + 2 := bs[2]][i + 3 := bs[3]];
    assert m'[i..i + 4] == bs;
    assert Stored(m, i, v, m');
  }

  lemma StoredUnique(m: seq<byte>, i: nat, v: word, x: seq<byte>, y: seq<byte>)
    requires i + 4 <= |m| && Stored(m, i, v, x) && Stored(m, i, v, y)
    ensures x == y
  {
    ToFromBytes(x[i..i + 4]);
    ToFromBytes(y[i..i + 4]);
    assert x == x[..i] + x[i..i + 4] + x[i + 4..];
    assert y == y[..i] + y[i..i + 4] + y[i + 4..];
  }

  /** Memory after the word v is written at i. */
  ghost function Store(m: seq<byte>, i: nat, v: word): seq<byte>
    requires i + 4 <= |m|
  {
    StoreExists(m, i, v);
    var m' :| Stored(m, i, v, m');
    m'
  }

  /** A stored word is in memory byte by byte, the least significant one first. */
  lemma StoreBytes(m: seq<byte>, i: nat, v: word)
    requires i + 4 <= |m|
    ensures var m' := Store(m, i, v);
      && m'[i] == v % 0x100 && m'[i + 1] == v / 0x100 % 0x100
      && m'[i + 2] == v / 0x1_0000 % 0x100 && m'[i + 3] == v / 0x100_0000
  {
    var m' := Store(m, i, v);
    LoadBytes(m', i);
    assert m'[i] == m'[i..i + 4][0] && m'[i + 1] == m'[i..i + 4][1];
    assert m'[i + 2] == m'[i..i + 4][2] && m'[i + 3] == m'[i..i + 4][3];
  }

  /** An overwritten word is forgotten. */
  lemma StoreStore(m: seq<byte>, i: nat, v: word, w: word)
    requires i + 4 <= |m|
    ensures Store(Store(m, i, v), i, w) == Store(m, i, w)
  {
    StoredUnique(m, i, w, Store(Store(m, i, v), i, w), Store(m, i, w));
  }

  /** Writing back the word that is there changes nothing. */
  lemma StoreSame(m: seq<byte>, i: nat)
    requires i + 4 <= |m|
    ensures Store(m, i, Load(m, i)) == m
  {
    StoredUnique(m, i, Load(m, i), Store(m, i, Load(m, i)), m);
  }

  lemma LoadOther(m: seq<byte>, i: nat, v: word, j: nat)
    requires i + 4 <= |m| && j + 4 <= |m| && (i + 4 <= j || j + 4 <= i)
    ensures Load(Store(m, i, v), j) == Load(m, j)
  {
    LoadSame(m, Store(m, i, v), j);
  }

  /** The word at address i of mem. */
  function Word(mem: array<byte>, i: nat): word
    requires i + 4 <= mem.Length
    reads mem
  {
    Load(mem[..], i)
  }

  method WriteWord(mem: array<byte>, i: nat, v: word)
    requires i + 4 <= mem.Length
    modifies mem
    ensures mem[..] == Store(old(mem[..]), i, v)
    ensures mem[i] == v % 0x100 && mem[i + 1] == v / 0x100 % 0x100
    ensures mem[i + 2] == v / 0x1_0000 % 0x100 && mem[i + 3] == v / 0x100_0000
  {
    var bs := ToBytes(v, 4);
    FromToBytes(v, 4);
    mem[i], mem[i + 1], mem[i + 2], mem[i + 3] := bs[0], bs[1], bs[2], bs[3];
    assert mem[..][i..i + 4] == bs;
    StoredUnique(old(mem[..]), i, v, mem[..], Store(old(mem[..]), i, v));
    StoreBytes(old(mem[..]), i, v);
  }
}
