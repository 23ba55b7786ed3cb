/** The Internet checksum of RFC 1071 (sections 1 and 4.1), as used for both the
    IPv4 header and the UDP datagram. The reference definition reads the input
    as big-endian 16-bit words; `HostOrderChecksum` below shows that reading
    them in little-endian host order gives the byte-swapped value, so on such a
    host the bytes stored on the wire are the same (section 2(B) of RFC 1071). */
module Checksum {
  import opened Bytes

  /** Largest buffer the packet builder hands to the checksum (its 1024-byte arrays). */
  const MaxLen := 1024

  /** The big-endian 16-bit word that starts at byte 2*k. */
  function Word(s: seq<uint8>, k: nat): uint16
    requires 2 * k + 1 < |s|
  {
    s[2 * k] as int * 0x100 + s[2 * k + 1]
  }

  /** Sum of the first n words, as an unbounded integer (no carry is dropped). */
  function WordsSum(s: seq<uint8>, n: nat): nat
    requires 2 * n <= |s|
  {
    if n == 0 then 0 else WordsSum(s, n - 1) + Word(s, n - 1)
  }

  /** An odd trailing byte, zero-padded on the right to a full word. */
  function PadWord(s: seq<uint8>): uint16
  {
    if |s| % 2 == 1 then s[|s| - 1] as int * 0x100 else 0
  }

  function Sum(s: seq<uint8>): nat
  {
    WordsSum(s, |s| / 2) + PadWord(s)
  }

  /** Folds the carries above bit 15 back into the low 16 bits until none remain. */
  function Fold(x: nat): uint16
    decreases x
  {
    if x < 0x1_0000 then x
    else
      assert x / 0x1_0000 + x % 0x1_0000 < x;
      Fold(x / 0x1_0000 + x % 0x1_0000)
  }

  /** The 16-bit one's-complement sum of the words of s. */
  function OnesSum(s: seq<uint8>): uint16
  {
    Fold(Sum(s))
  }

  /** The checksum: the one's complement of the one's-complement sum. */
  function InternetChecksum(s: seq<uint8>): uint16
  {
    0xFFFF - OnesSum(s)
  }

  /** `checksum(buf, len)`: a 32-bit accumulator (wrap-around written out), two
      end-around-carry folds, then the complement truncated to 16 bits. */
  method Checksum(buf: array<uint8>, len: nat) returns (r: uint16)
    requires len <= buf.Length
    ensures len <= MaxLen ==> r == InternetChecksum(buf[..len])
  {
    ghost var s := buf[..len];
    ghost var k := 0;
    var sum: uint32 := 0;
    var p := 0;
    var n := len;
    while n > 1
      invariant p == 2 * k && p + n == len
      invariant len <= MaxLen ==> sum == WordsSum(s, k)
    {
      var w := buf[p] as int * 0x100 + buf[p + 1];
      assert len <= MaxLen ==> w == Word(s, k) && sum + w == WordsSum(s, k + 1) < 0x1_0000_0000 by {
        if len <= MaxLen {
          AccumulateStep(s, k);
        }
      }
      sum := (sum + w) % 0x1_0000_0000;
      p := p + 2;
      n := n - 2;
      k := k + 1;
    }
    ghost var words := sum;
    if n == 1 {
      sum := (sum + buf[p] as int * 0x100) % 0x1_0000_0000;
    }
    assert len <= MaxLen ==> sum == Sum(s) by {
      if len <= MaxLen {
        assert len / 2 == k && (len % 2 == 1 <==> n == 1);
        FinishSum(s, words);
      }
    }
    r := Complement(sum);
  }

  /** The two folds and the truncated complement that end `checksum`. */
  method Complement(sum: uint32) returns (r: uint16)
    ensures r == 0xFFFF - Fold(sum)
  {
    var folded := sum / 0x1_0000 + sum % 0x1_0000;
    folded := (folded + folded / 0x1_0000) % 0x1_0000_0000;
    TwoFoldsSuffice(sum);
    r := 0xFFFF - folded % 0x1_0000;
  }

  lemma {:induction false} WordsSumBound(s: seq<uint8>, n: nat)
    requires 2 * n <= |s|
    ensures WordsSum(s, n) <= n * 0xFFFF
  {
    if n > 0 {
      WordsSumBound(s, n - 1);
    }
  }

  lemma AccumulateStep(s: seq<uint8>, k: nat)
    requires 2 * k + 1 < |s| <= MaxLen
    ensures WordsSum(s, k) + Word(s, k) == WordsSum(s, k + 1) < 0x1_0000_0000
  {
    WordsSumBound(s, k + 1);
  }

  /** Adding the padded odd byte, if any, to the sum of the words gives the sum. */
  lemma FinishSum(s: seq<uint8>, words: nat)
    requires |s| <= MaxLen && words == WordsSum(s, |s| / 2)
    ensures |s| % 2 == 1 ==> (words + s[|s| - 1] as int * 0x100) % 0x1_0000_0000 == Sum(s)
    ensures |s| % 2 == 0 ==> words == Sum(s)
  {
    NoOverflow(s);
  }

  /** For the buffers the packet builder uses, the 32-bit accumulator never wraps. */
  lemma NoOverflow(s: seq<uint8>)
    requires |s| <= MaxLen
    ensures Sum(s) < 0x1_0000_0000
  {
    WordsSumBound(s, |s| / 2);
  }

  /** The two folds of the source leave, in their low 16 bits, the fully folded sum. */
  lemma TwoFoldsSuffice(x: uint32)
    ensures var y := x / 0x1_0000 + x % 0x1_0000;
            (y + y / 0x1_0000) % 0x1_0000_0000 % 0x1_0000 == Fold(x)
  {
    var y := x / 0x1_0000 + x % 0x1_0000;
    HalvesBound(x);
    if x >= 0x1_0000 {
      assert Fold(x) == Fold(y);
      if y >= 0x1_0000 {
        CarryOnce(y);
        assert Fold(y) == Fold(y - 0xFFFF);
      } else {
        assert y / 0x1_0000 == 0;
      }
    } else {
      assert x / 0x1_0000 == 0 && x % 0x1_0000 == x;
    }
  }

  /** The two halves of a 32-bit sum add up to at most 0x1_FFFE. */
  lemma HalvesBound(x: uint32)
    ensures x / 0x1_0000 <= 0xFFFF && x / 0x1_0000 + x % 0x1_0000 <= 0x1_FFFE
  {
  }

  /** A sum of two halves carries at most once. */
  lemma CarryOnce(y: nat)
    requires 0x1_0000 <= y <= 0x1_FFFE
    ensures y / 0x1_0000 == 1 && y % 0x1_0000 == y - 0x1_0000
    ensures (y + 1) % 0x1_0000_0000 % 0x1_0000 == y - 0xFFFF
  {
  }

  lemma ModAddMultiple(a: int, k: int)
    ensures (a + k * 0xFFFF) % 0xFFFF == a % 0xFFFF
  {
    var q := a / 0xFFFF;
    var r := a % 0xFFFF;
    assert a == q * 0xFFFF + r;
    assert a + k * 0xFFFF == (q + k) * 0xFFFF + r;
  }

  /** Folding keeps the value modulo 0xFFFF and maps only 0 to 0. */
  lemma {:induction false} FoldCongruent(x: nat)
    ensures Fold(x) % 0xFFFF == x % 0xFFFF
    ensures Fold(x) == 0 <==> x == 0
    decreases x
  {
    if x >= 0x1_0000 {
      var q := x / 0x1_0000;
      var y := q + x % 0x1_0000;
      FoldCongruent(y);
      assert x == y + q * 0xFFFF;
      ModAddMultiple(y, q);
    }
  }

  /** Two values in 1..0xFFFF that agree modulo 0xFFFF are equal. */
  lemma SameResidue(a: int, b: int)
    requires 1 <= a <= 0xFFFF && 1 <= b <= 0xFFFF
    requires a % 0xFFFF == b % 0xFFFF
    ensures a == b
  {
  }

  lemma {:induction false} WordsSumUpdate(s: seq<uint8>, n: nat, k: nat, hi: uint8, lo: uint8)
    requires 2 * n <= |s| && k % 2 == 0 && k + 1 < |s|
    ensures var t := s[k := hi][k + 1 := lo];
            WordsSum(t, n) == WordsSum(s, n)
              + (if k / 2 < n then hi as int * 0x100 + lo - Word(s, k / 2) else 0)
  {
    if n > 0 {
      WordsSumUpdate(s, n - 1, k, hi, lo);
    }
  }

  /** Overwriting the word at an even offset changes the sum by the difference of the words. */
  lemma SumUpdate(s: seq<uint8>, k: nat, hi: uint8, lo: uint8)
    requires k % 2 == 0 && k + 1 < |s|
    ensures Sum(s[k := hi][k + 1 := lo]) == Sum(s) + hi as int * 0x100 + lo - Word(s, k / 2)
  {
    WordsSumUpdate(s, |s| / 2, k, hi, lo);
  }

  /** The verification law of RFC 1071: with the checksum stored in the zeroed
      checksum field, the checksum of the region is 0. */
  lemma ChecksumVerifies(s: seq<uint8>, k: nat)
    requires k % 2 == 0 && k + 1 < |s| && s[k] == 0 && s[k + 1] == 0
    ensures var c := InternetChecksum(s);
            InternetChecksum(s[k := c / 0x100][k + 1 := c % 0x100]) == 0
  {
    var c := InternetChecksum(s);
    var t := s[k := c / 0x100][k + 1 := c % 0x100];
    SumUpdate(s, k, c / 0x100, c % 0x100);
    assert Word(s, k / 2) == 0;
    ComplementFolds(Sum(s), Sum(t));
  }

  /** Adding the complement of the folded sum brings the folded sum to 0xFFFF. */
  lemma ComplementFolds(x: nat, y: nat)
    requires y == x + (0xFFFF - Fold(x))
    ensures Fold(y) == 0xFFFF
  {
    var f := Fold(x);
    FoldCongruent(x);
    FoldCongruent(y);
    DiffDivisible(x, f);
    ModAddMultiple(x - f, 1);
    assert y % 0xFFFF == 0;
    assert y > 0;
    SameResidue(Fold(y), 0xFFFF);
  }

  lemma DiffDivisible(a: int, b: int)
    requires a % 0xFFFF == b % 0xFFFF
    ensures (a - b) % 0xFFFF == 0
  {
    assert a == a / 0xFFFF * 0xFFFF + a % 0xFFFF;
    assert b == b / 0xFFFF * 0xFFFF + b % 0xFFFF;
    assert a - b == (a / 0xFFFF - b / 0xFFFF) * 0xFFFF;
    ModAddMultiple(0, a / 0xFFFF - b / 0xFFFF);
  }

  // ---- Host byte order -------------------------------------------------

  /** The 16-bit word at byte 2*k read in little-endian host order. */
  function HostWord(s: seq<uint8>, k: nat): uint16
    requires 2 * k + 1 < |s|
  {
    s[2 * k + 1] as int * 0x100 + s[2 * k]
  }

  function HostWordsSum(s: seq<uint8>, n: nat): nat
    requires 2 * n <= |s|
  {
    if n == 0 then 0 else HostWordsSum(s, n - 1) + HostWord(s, n - 1)
  }

  /** The unbounded sum the source accumulates on a little-endian host: words read
      in host order and an odd final byte added as it is (the low byte). */
  function HostSum(s: seq<uint8>): nat
  {
    HostWordsSum(s, |s| / 2) + (if |s| % 2 == 1 then s[|s| - 1] else 0)
  }

  function HostChecksum(s: seq<uint8>): uint16
  {
    0xFFFF - Fold(HostSum(s))
  }

  /** After n host-order words the accumulator holds at most n * 0xFFFF. */
  lemma {:induction false} HostWordsSumBound(s: seq<uint8>, n: nat)
    requires 2 * n <= |s|
    ensures HostWordsSum(s, n) <= n * 0xFFFF
  {
    if n > 0 {
      HostWordsSumBound(s, n - 1);
    }
  }

  /** On a little-endian host the 32-bit accumulator does not wrap either, and the
      two folds and the 16-bit complement of the source give `HostChecksum`. */
  lemma HostNoOverflow(s: seq<uint8>)
    requires |s| <= MaxLen
    ensures HostSum(s) < 0x1_0000_0000
    ensures var x := HostSum(s);
            var y := x / 0x1_0000 + x % 0x1_0000;
            0xFFFF - (y + y / 0x1_0000) % 0x1_0000_0000 % 0x1_0000 == HostChecksum(s)
  {
    HostWordsSumBound(s, |s| / 2);
    TwoFoldsSuffice(HostSum(s));
  }

  function Swap(w: uint16): uint16
  {
    w % 0x100 * 0x100 + w / 0x100
  }

  /** Sum of the high bytes of the first n words. */
  function HighBytes(s: seq<uint8>, n: nat): nat
    requires 2 * n <= |s|
  {
    if n == 0 then 0 else HighBytes(s, n - 1) + s[2 * (n - 1)]
  }

  lemma {:induction false} HostWordsSumShift(s: seq<uint8>, n: nat)
    requires 2 * n <= |s|
    ensures 0x100 * WordsSum(s, n) == HostWordsSum(s, n) + 0xFFFF * HighBytes(s, n)
  {
    if n > 0 {
      HostWordsSumShift(s, n - 1);
    }
  }

  lemma {:induction false} SumsZeroTogether(s: seq<uint8>, n: nat)
    requires 2 * n <= |s|
    ensures WordsSum(s, n) == 0 <==> HostWordsSum(s, n) == 0
  {
    if n > 0 {
      SumsZeroTogether(s, n - 1);
    }
  }

  /** Byte-order independence (section 2(B) of RFC 1071): the checksum computed
      over host-order words is the byte swap of the big-endian one, so storing
      each in its own order writes the same two bytes. */
  lemma HostOrderChecksum(s: seq<uint8>)
    ensures HostChecksum(s) == Swap(InternetChecksum(s))
  {
    var f := Fold(Sum(s));
    HostFoldIsSwap(s);
    SwapComplement(f);
  }

  lemma HostFoldIsSwap(s: seq<uint8>)
    ensures Fold(HostSum(s)) == Swap(Fold(Sum(s)))
  {
    var n := |s| / 2;
    var odd := if |s| % 2 == 1 then s[|s| - 1] else 0;
    var be := Sum(s);
    var le := HostSum(s);
    HostWordsSumShift(s, n);
    SumsZeroTogether(s, n);
    assert 0x100 * be == le + (HighBytes(s, n) + odd) * 0xFFFF;
    var f := Fold(be);
    var g := Fold(le);
    FoldCongruent(be);
    FoldCongruent(le);
    if be != 0 {
      ModAddMultiple(le, HighBytes(s, n) + odd);
      assert le % 0xFFFF == (0x100 * be) % 0xFFFF;
      MulCongruent(be, f, 0x100);
      SwapCongruent(f);
      assert g % 0xFFFF == Swap(f) % 0xFFFF;
      SameResidue(g, Swap(f));
    }
  }

  /** Swapping the bytes of a word multiplies it by 0x100 modulo 0xFFFF. */
  lemma SwapCongruent(f: uint16)
    ensures (0x100 * f) % 0xFFFF == Swap(f) % 0xFFFF
    ensures f != 0 ==> Swap(f) != 0
  {
    assert 0x100 * (f as int) == Swap(f) + (f as int / 0x100) * 0xFFFF;
    ModAddMultiple(Swap(f), f as int / 0x100);
  }

  lemma SwapComplement(f: uint16)
    ensures Swap(0xFFFF - f) == 0xFFFF - Swap(f)
  {
  }

  lemma MulCongruent(a: int, b: int, c: int)
    requires a % 0xFFFF == b % 0xFFFF
    ensures (c * a) % 0xFFFF == (c * b) % 0xFFFF
  {
    var q := a / 0xFFFF;
    var p := b / 0xFFFF;
    assert a == q * 0xFFFF + a % 0xFFFF;
    assert b == p * 0xFFFF + b % 0xFFFF;
    assert c * a == c * (a % 0xFFFF) + (c * q) * 0xFFFF;
    assert c * b == c * (a % 0xFFFF) + (c * p) * 0xFFFF;
    ModAddMultiple(c * (a % 0xFFFF), c * q);
    ModAddMultiple(c * (a % 0xFFFF), c * p);
  }

  // ---- Big-endian host ---------------------------------------------------

  /** The unbounded sum the source accumulates on a big-endian host: words read in
      network order, but an odd final byte added as it is, into the low byte,
      where RFC 1071 pads it into the high byte. */
  function BigEndianHostSum(s: seq<uint8>): nat
  {
    WordsSum(s, |s| / 2) + (if |s| % 2 == 1 then s[|s| - 1] else 0)
  }

  function BigEndianHostChecksum(s: seq<uint8>): uint16
  {
    0xFFFF - Fold(BigEndianHostSum(s))
  }

  /** On a big-endian host too the 32-bit accumulator does not wrap, and the two
      folds and the 16-bit complement of the source give `BigEndianHostChecksum`. */
  lemma BigEndianHostNoOverflow(s: seq<uint8>)
    requires |s| <= MaxLen
    ensures BigEndianHostSum(s) < 0x1_0000_0000
    ensures var x := BigEndianHostSum(s);
            var y := x / 0x1_0000 + x % 0x1_0000;
            0xFFFF - (y + y / 0x1_0000) % 0x1_0000_0000 % 0x1_0000 == BigEndianHostChecksum(s)
  {
    NoOverflow(s);
    TwoFoldsSuffice(BigEndianHostSum(s));
  }

  /** On a big-endian host an odd input whose last byte is not zero gets a checksum
      that differs from the RFC 1071 checksum. */
  lemma OddByteUnshifted(s: seq<uint8>)
    requires |s| % 2 == 1 && s[|s| - 1] != 0
    ensures BigEndianHostChecksum(s) != InternetChecksum(s)
  {
    var c := BigEndianHostSum(s);
    var d := 0xFF * s[|s| - 1] as int;
    assert Sum(s) == c + d;
    FoldCongruent(Sum(s));
    FoldCongruent(c);
    ShiftedResidue(c, d);
  }

  /** Adding less than 0xFFFF, but more than 0, changes the residue modulo 0xFFFF. */
  lemma ShiftedResidue(c: int, d: int)
    requires 0 < d < 0xFFFF
    ensures (c + d) % 0xFFFF != c % 0xFFFF
  {
    var q := c / 0xFFFF;
    var r := c % 0xFFFF;
    assert c + d == q * 0xFFFF + (r + d);
    if r + d < 0xFFFF {
      ModAddMultiple(r + d, q);
    } else {
      assert c + d == (q + 1) * 0xFFFF + (r + d - 0xFFFF);
      ModAddMultiple(r + d - 0xFFFF, q + 1);
    }
  }
}
