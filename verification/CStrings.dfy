/** The C-string loops of string.c over raw memory: strrev, tostring, strlen, strcpy and strcat. */
module CStrings {
  import opened Bytes
  import opened Numerals

  function Reversed(s: seq<byte>): seq<byte> {
    seq(|s|, i requires 0 <= i < |s| => s[|s| - 1 - i])
  }

  /** strrev: swap from both ends until the pointers meet; a last below first is left alone. */
  method StrRev(mem: array<byte>, first: nat, last: int)
    requires first <= last + 1 && last < mem.Length
    modifies mem
    ensures mem[..] == old(mem[..first]) + Reversed(old(mem[first..last + 1])) + old(mem[last + 1..])
    ensures forall k :: first <= k <= last ==> mem[k] == old(mem[..])[first + last - k]
  {
    var begin, end := first, last;
    while end > begin
      invariant first <= begin <= end + 1 && begin - first == last - end
      invariant forall k :: first <= k <= last && !(begin <= k <= end) ==> mem[k] == old(mem[..])[first + last - k]
      invariant forall k :: 0 <= k < mem.Length && (k < first || begin <= k <= end || last < k) ==>
        mem[k] == old(mem[..])[k]
    {
      mem[begin], mem[end] := mem[end], mem[begin];
      begin, end := begin + 1, end - 1;
    }
    Mirrored(old(mem[..]), mem[..], first, last);
  }

  lemma Mirrored(m: seq<byte>, m': seq<byte>, first: nat, last: int)
    requires first <= last + 1 && last < |m| == |m'|
    requires forall k :: first <= k <= last ==> m'[k] == m[first + last - k]
    requires forall k :: 0 <= k < |m| && !(first <= k <= last) ==> m'[k] == m[k]
    ensures m' == m[..first] + Reversed(m[first..last + 1]) + m[last + 1..]
  {
    var mid := m[first..last + 1];
    var w := m[..first] + Reversed(mid) + m[last + 1..];
    forall k | 0 <= k < |m|
      ensures m'[k] == w[k]
    {
      if first <= k <= last {
        assert w[k] == Reversed(mid)[k - first] == mid[last - k] == m[first + last - k];
      }
    }
    assert |w| == |m|;
  }

  /** A character as the signed char it is on this machine. */
  function Signed(c: byte): (x: int)
    ensures -0x80 <= x < 0x80 && (x - c) % 0x100 == 0
  {
    if c < 0x80 then c else c - 0x100
  }

  /** What strcmp returns: the sign of the first difference, where the end of a text comes before every character. */
  function Compare(s: seq<byte>, t: seq<byte>): int {
    if s == [] then (if t == [] then 0 else -1)
    else if t == [] then 1
    else if Signed(t[0]) > Signed(s[0]) then -1
    else if Signed(s[0]) > Signed(t[0]) then 1
    else Compare(s[1..], t[1..])
  }

  /** s and t agree up to k, and there s ends first or has the smaller character, as characters are signed. */
  ghost predicate SmallerAt(s: seq<byte>, t: seq<byte>, k: nat) {
    k <= |s| && k < |t| && s[..k] == t[..k] && (k == |s| || Signed(s[k]) < Signed(t[k]))
  }

  ghost predicate Smaller(s: seq<byte>, t: seq<byte>) {
    exists k: nat :: SmallerAt(s, t, k)
  }

  /** The answer is negative exactly when the first text is a proper prefix or smaller at the first difference. */
  lemma CompareSign(s: seq<byte>, t: seq<byte>)
    ensures -1 <= Compare(s, t) <= 1
    ensures Compare(s, t) == -1 <==> Smaller(s, t)
  {
    if Compare(s, t) == -1 {
      var k := SmallerSomewhere(s, t);
    }
    if k: nat :| SmallerAt(s, t, k) {
      SmallerThere(s, t, k);
    }
    CompareRange(s, t);
  }

  lemma {:induction false} CompareRange(s: seq<byte>, t: seq<byte>)
    ensures -1 <= Compare(s, t) <= 1
  {
    if s != [] && t != [] {
      CompareRange(s[1..], t[1..]);
    }
  }

  lemma {:induction false} SmallerSomewhere(s: seq<byte>, t: seq<byte>) returns (k: nat)
    requires Compare(s, t) == -1
    ensures SmallerAt(s, t, k)
  {
    if s == [] || Signed(s[0]) < Signed(t[0]) {
      k := 0;
    } else {
      k := SmallerSomewhere(s[1..], t[1..]);
      k := k + 1;
      assert s[..k] == [s[0]] + s[1..][..k - 1] && t[..k] == [t[0]] + t[1..][..k - 1];
    }
  }

  lemma {:induction false} SmallerThere(s: seq<byte>, t: seq<byte>, k: nat)
    requires SmallerAt(s, t, k)
    ensures Compare(s, t) == -1
    decreases k
  {
    if k > 0 {
      assert s[0] == s[..k][0] == t[..k][0] == t[0];
      assert s[1..][..k - 1] == s[..k][1..] && t[1..][..k - 1] == t[..k][1..];
      SmallerThere(s[1..], t[1..], k - 1);
    }
  }

  /** strcmp answers zero for equal texts and for no others. */
  lemma {:induction false} CompareEqual(s: seq<byte>, t: seq<byte>)
    ensures Compare(s, t) == 0 <==> s == t
  {
    if s != [] && t != [] && s[0] == t[0] {
      CompareEqual(s[1..], t[1..]);
      assert s == [s[0]] + s[1..] && t == [t[0]] + t[1..];
    }
  }

  lemma {:induction false} CompareSwapped(s: seq<byte>, t: seq<byte>)
    ensures Compare(t, s) == -Compare(s, t)
  {
    if s != [] && t != [] {
      CompareSwapped(s[1..], t[1..]);
    }
  }

  /** With CompareEqual and CompareSwapped: strcmp is a total order. */
  lemma {:induction false} CompareTrans(s: seq<byte>, t: seq<byte>, u: seq<byte>)
    requires Compare(s, t) <= 0 && Compare(t, u) <= 0
    ensures Compare(s, u) <= 0
  {
    if s != [] && t != [] && u != [] && s[0] == t[0] == u[0] {
      CompareTrans(s[1..], t[1..], u[1..]);
    }
  }

  lemma CStrTail(m: seq<byte>, a: nat, t: seq<byte>, i: nat)
    requires CStrAt(m, a, t) && i <= |t|
    ensures a + i < |m| && m[a + i] == if i < |t| then t[i] else 0
    ensures i < |t| ==> t[i] != 0
  {
    assert i < |t| ==> m[a..a + |t|][i] == t[i];
  }

  /** strcmp */
  method StrCmp(mem: array<byte>, str1: nat, str2: nat, ghost s: seq<byte>, ghost t: seq<byte>) returns (r: int)
    requires CStrAt(mem[..], str1, s) && CStrAt(mem[..], str2, t)
    ensures r == Compare(s, t)
    ensures -1 <= r <= 1 && (r == -1 <==> Smaller(s, t))
  {
    hide Smaller;
    CompareSign(s, t);
    var x, y := str1, str2;
    ghost var i := 0;
    CStrTail(mem[..], str1, s, 0);
    CStrTail(mem[..], str2, t, 0);
    while mem[x] != 0
      invariant i <= |s| && i <= |t| && x == str1 + i < mem.Length && y == str2 + i < mem.Length
      invariant mem[x] == (if i < |s| then s[i] else 0) && mem[y] == (if i < |t| then t[i] else 0)
      invariant (i < |s| ==> s[i] != 0) && (i < |t| ==> t[i] != 0)
      invariant Compare(s[i..], t[i..]) == Compare(s, t)
      decreases |s| - i
    {
      if mem[y] == 0 {
        return 1;
      }
      if Signed(mem[y]) > Signed(mem[x]) {
        return -1;
      }
      if Signed(mem[x]) > Signed(mem[y]) {
        return 1;
      }
      assert s[i..][1..] == s[i + 1..] && t[i..][1..] == t[i + 1..];
      x, y, i := x + 1, y + 1, i + 1;
      CStrTail(mem[..], str1, s, i);
      CStrTail(mem[..], str2, t, i);
    }
    r := if mem[y] != 0 then -1 else 0;
  }

  /** Memory m with the text t and a terminator at dest. */
  function WithText(m: seq<byte>, dest: nat, t: seq<byte>): seq<byte>
    requires dest + |t| < |m|
  {
    m[..dest] + t + [0] + m[dest + |t| + 1..]
  }

  lemma WithTextAt(m: seq<byte>, dest: nat, t: seq<byte>, k: nat)
    requires dest + |t| < |m| && k < |m|
    ensures |WithText(m, dest, t)| == |m|
    ensures WithText(m, dest, t)[k] ==
      if dest <= k < dest + |t| then t[k - dest] else if k == dest + |t| then 0 else m[k]
  {
  }

  lemma ReversedSnoc(s: seq<byte>, x: byte)
    ensures Reversed(s + [x]) == [x] + Reversed(s)
  {
  }

  /** tostring: digits from the low end, the sign, the terminator, and one reversal in place. */
  method ToString(mem: array<byte>, dest: nat, val: int, base: int)
    requires INT_MIN < val <= INT_MAX
    requires ValidBase(base) ==> dest + |IntText(val, base)| < mem.Length
    modifies mem
    ensures !ValidBase(base) ==> mem[..] == old(mem[..])
    ensures ValidBase(base) ==> mem[..] == WithText(old(mem[..]), dest, IntText(val, base))
  {
    if base < 2 || base > 35 {
      return;
    }
    var buffer := WriteDigits(mem, dest, if val < 0 then -val else val, base);
    ghost var low := mem[dest..buffer];
    if val < 0 {
      mem[buffer] := MINUS;
      buffer := buffer + 1;
      ReversedSnoc(low, MINUS);
      assert mem[dest..buffer] == low + [MINUS];
    }
    ghost var t := IntText(val, base);
    assert Reversed(mem[dest..buffer]) == t;
    mem[buffer] := 0;
    ghost var m := mem[..];
    assert m[dest..buffer] == mem[dest..buffer];
    StrRev(mem, dest, buffer - 1);
    Assembled(old(mem[..]), m, dest, t);
  }

  lemma Assembled(m0: seq<byte>, m: seq<byte>, dest: nat, t: seq<byte>)
    requires dest + |t| < |m| == |m0| && m[dest + |t|] == 0
    requires forall k :: 0 <= k < |m| && !(dest <= k <= dest + |t|) ==> m[k] == m0[k]
    ensures m[..dest] + t + m[dest + |t|..] == WithText(m0, dest, t)
  {
    SliceSame(m0, m, 0, dest);
    SliceSame(m0, m, dest + |t| + 1, |m|);
    assert m[dest + |t|..] == [0] + m[dest + |t| + 1..];
  }

  function LastDigit(v: nat, base: nat): byte
    requires ValidBase(base)
  {
    DigitByte(v % base)
  }

  function WithoutDigit(v: nat, base: nat): nat
    requires ValidBase(base)
  {
    v / base
  }

  /** The do-while loop of tostring. */
  method WriteDigits(mem: array<byte>, dest: nat, val: nat, base: nat) returns (buffer: nat)
    requires ValidBase(base) && dest + |Numeral(val, base)| < mem.Length
    modifies mem
    ensures buffer == dest + |Numeral(val, base)| && Reversed(mem[dest..buffer]) == Numeral(val, base)
    ensures forall k :: 0 <= k < mem.Length && !(dest <= k < buffer) ==> mem[k] == old(mem[k])
  {
    hide *;   // the lemmas below say all that the loop needs
    buffer := dest;
    var v: nat := val;
    NoDigitYet(mem[dest..dest], val, base);
    while true
      invariant dest <= buffer && buffer + |Numeral(v, base)| == dest + |Numeral(val, base)|
      invariant Numeral(v, base) + Reversed(mem[dest..buffer]) == Numeral(val, base)
      invariant forall k :: 0 <= k < mem.Length && !(dest <= k < buffer) ==> mem[k] == old(mem[k])
      decreases v
    {
      ghost var low := mem[dest..buffer];
      DigitMoved(low, v, base);
      mem[buffer] := LastDigit(v, base);
      buffer := buffer + 1;
      assert mem[dest..buffer] == low + [LastDigit(v, base)];
      v := WithoutDigit(v, base);
      if v == 0 {
        break;
      }
    }
  }

  lemma NoDigitYet(low: seq<byte>, val: nat, base: nat)
    requires ValidBase(base) && low == []
    ensures Numeral(val, base) + Reversed(low) == Numeral(val, base)
  {
  }

  /** One digit goes from the numeral still to be written to the digits written backwards. */
  lemma DigitMoved(low: seq<byte>, v: nat, base: nat)
    requires ValidBase(base)
    ensures 1 <= |Numeral(v, base)|
    ensures var text, more, left := Numeral(v, base), low + [LastDigit(v, base)], WithoutDigit(v, base);
      if left == 0 then Reversed(more) == text + Reversed(low) && |text| == 1
      else left < v && Numeral(left, base) + Reversed(more) == text + Reversed(low)
           && |text| == |Numeral(left, base)| + 1
  {
    DigitStep(v, base);
    ReversedSnoc(low, LastDigit(v, base));
  }

  lemma DigitStep(v: nat, base: nat)
    requires ValidBase(base)
    ensures v / base == 0 <==> v < base
    ensures v < base ==> Numeral(v, base) == [DigitByte(v % base)]
    ensures base <= v ==> v / base < v && Numeral(v, base) == Numeral(v / base, base) + [DigitByte(v % base)]
  {
    DivMod(v, base);
    if base <= v {
      DivLess(v, base);
    }
  }

  // ---------- strlen, strcpy, strcat ----------

  ghost predicate NoNul(t: seq<byte>) {
    forall k :: 0 <= k < |t| ==> t[k] != 0
  }

  /** At address a of m stands the text t, closed by its first NUL. */
  ghost predicate CStrAt(m: seq<byte>, a: nat, t: seq<byte>) {
    && a + |t| < |m|
    && m[a..a + |t|] == t
    && m[a + |t|] == 0
    && NoNul(t)
  }

  lemma CStrByte(m: seq<byte>, a: nat, t: seq<byte>, k: nat)
    requires CStrAt(m, a, t) && k <= |t|
    ensures a + k < |m| && (k < |t| ==> m[a + k] == t[k] != 0) && (k == |t| ==> m[a + k] == 0)
  {
    if k < |t| {
      assert m[a..a + |t|][k] == m[a + k];
    }
  }

  /** The text at an address is unique. */
  lemma CStrUnique(m: seq<byte>, a: nat, t: seq<byte>, u: seq<byte>)
    requires CStrAt(m, a, t) && CStrAt(m, a, u)
    ensures t == u
  {
    if |t| < |u| {
      CStrByte(m, a, u, |t|);
    } else if |u| < |t| {
      CStrByte(m, a, t, |u|);
    }
  }

  method StrLen(mem: array<byte>, str: nat, ghost t: seq<byte>) returns (len: nat)
    requires CStrAt(mem[..], str, t)
    ensures len == |t|
  {
    len := 0;
    CStrByte(mem[..], str, t, 0);
    while mem[str + len] != 0
      invariant len <= |t| && str + len < mem.Length
      invariant CStrAt(mem[..], str, t)
      decreases |t| - len
    {
      CStrByte(mem[..], str, t, len);
      len := len + 1;
      CStrByte(mem[..], str, t, len);
    }
    CStrByte(mem[..], str, t, len);
  }

  /** The stretches [a, a + n) and [b, b + k) share no address. */
  predicate Disjoint(a: nat, n: nat, b: nat, k: nat) {
    a + n <= b || b + k <= a
  }

  method StrCpy(mem: array<byte>, dest: nat, src: nat, ghost t: seq<byte>)
    requires CStrAt(mem[..], src, t) && dest + |t| < mem.Length
    requires Disjoint(dest, |t| + 1, src, |t| + 1)
    modifies mem
    ensures mem[..] == WithText(old(mem[..]), dest, t)
  {
    ghost var m0 := mem[..];
    var x := 0;
    CStrByte(m0, src, t, 0);
    while mem[src + x] != 0
      invariant x <= |t| && src + x < mem.Length && mem[src + x] == m0[src + x]
      invariant forall k :: dest <= k < dest + x ==> mem[k] == t[k - dest]
      invariant forall k :: 0 <= k < mem.Length && !(dest <= k < dest + x) ==> mem[k] == m0[k]
      decreases |t| - x
    {
      CStrByte(m0, src, t, x);
      CStrByte(m0, src, t, x + 1);
      mem[dest + x] := mem[src + x];
      x := x + 1;
    }
    CStrByte(m0, src, t, x);
    mem[dest + x] := 0;
    TextWritten(m0, mem[..], dest, t);
  }

  lemma TextWritten(m: seq<byte>, m': seq<byte>, dest: nat, t: seq<byte>)
    requires dest + |t| < |m| == |m'|
    requires forall k :: dest <= k < dest + |t| ==> m'[k] == t[k - dest]
    requires m'[dest + |t|] == 0
    requires forall k :: 0 <= k < |m| && !(dest <= k <= dest + |t|) ==> m'[k] == m[k]
    ensures m' == WithText(m, dest, t)
  {
    var w := WithText(m, dest, t);
    forall k | 0 <= k < |m|
      ensures m'[k] == w[k]
    {
      WithTextAt(m, dest, t, k);
    }
    assert |w| == |m|;
  }

  method StrCat(mem: array<byte>, dest: nat, src: nat, ghost s: seq<byte>, ghost t: seq<byte>)
    requires CStrAt(mem[..], dest, s) && CStrAt(mem[..], src, t) && dest + |s| + |t| < mem.Length
    requires Disjoint(dest, |s| + |t| + 1, src, |t| + 1)
    modifies mem
    ensures mem[..] == WithText(old(mem[..]), dest + |s|, t)
  {
    var x := StrLen(mem, dest, s);
    StrCpy(mem, dest + x, src, t);
  }

  /** Text laid over the end of a text gives their concatenation. */
  lemma WithTextAppends(m: seq<byte>, a: nat, s: seq<byte>, t: seq<byte>)
    requires a + |s| + |t| < |m| && |s| <= |m| - a && m[a..a + |s|] == s && NoNul(s) && NoNul(t)
    ensures CStrAt(WithText(m, a + |s|, t), a, s + t)
  {
    var w := WithText(m, a + |s|, t);
    assert w[a..a + |s|] == m[a..a + |s|];
    assert w[a..a + |s + t|] == s + t;
  }
}
