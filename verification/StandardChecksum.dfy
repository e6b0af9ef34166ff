/**
 The three versions of the summing loop, which are chosen at compile time. All are proved to compute the
 same sum, from any address.
*/
module StandardChecksum {
  import opened Bits
  import opened InternetSum

  lemma {:induction false} Suffix(data: seq<U8>, i: nat)
    requires i <= |data|
    ensures i == |data| ==> Words(data[i..]) == 0
    ensures i + 1 == |data| ==> Words(data[i..]) == data[i]
    ensures i + 1 < |data| ==> Words(data[i..]) == Word(data[i], data[i + 1]) + Words(data[i + 2..])
  {
  }

  /** Two bytes, the first as the most significant. */
  function BigWord(hi: U8, lo: U8): nat {
    Or(Shl(hi, 8), lo)
  }

  lemma BigWordIs(hi: U8, lo: U8)
    ensures BigWord(hi, lo) == Word(lo, hi) && Shl(hi, 8) == Word(0, hi)
  {
    hide Or, Shl;
    Pow2Small();
    ShlIsTimes(hi, 8);
    OrDisjoint(hi, 8, lo);
  }

  lemma BigWordSame(hi: U8, lo: U8, rest: nat, acc: nat, total: nat)
    requires Same(acc + 256 * (Word(hi, lo) + rest), total)
    ensures Same(acc + Word(lo, hi) + 256 * rest, total)
  {
    hide Same;
    var fixed := acc + 256 * hi as int + 256 * rest;
    SameTwice(lo);
    SameReflexive(fixed);
    SameAdd(fixed, fixed, 0x1_0000 * lo as int, lo);
    SameTransitive(fixed + lo, fixed + 0x1_0000 * lo as int, total);
  }

  lemma HighPart(x: U32)
    ensures And(x, 0xFFFF_0000) != 0 <==> x >= 0x1_0000
  {
    hide And, Field, Shl, Shr;
    Pow2Word();
    ShlIsTimes(0xFFFF, 16);
    AndField(x, 16, 16);
    FieldIsDivMod(x, 16, 16, 0x1_0000, 0x1_0000);
    ShlIsTimes(Field(x, 16, 16), 16);
  }

  /** Version 1 sums the words most significant byte first, and exchanges the bytes at the end. */
  method StandardChecksum1(data: seq<U8>) returns (c: U16)
    requires |data| < 0x1_0000
    ensures IsSum(c, data)
  {
    hide Fold, Swap, Same, Words, Or, Shl, And;
    var acc: U32 := 0;
    var i := 0;
    SameReflexive(256 * Words(data));
    while |data| - i > 1
      invariant 0 <= i <= |data| && acc <= 0xFFFF * (i / 2) && i % 2 == 0
      invariant Same(acc + 256 * Words(data[i..]), 256 * Words(data))
    {
      Suffix(data, i);
      BigWordIs(data[i], data[i + 1]);
      BigWordSame(data[i], data[i + 1], Words(data[i + 2..]), acc, 256 * Words(data));
      var src := BigWord(data[i], data[i + 1]);
      acc := acc + src;
      i := i + 2;
    }
    Suffix(data, i);
    if |data| - i > 0 {
      BigWordIs(data[i], 0);
      acc := acc + Shl(data[i], 8);
    }
    FoldTwice(acc, 256 * Words(data));
    acc := Fold(acc);
    HighPart(acc);
    if And(acc, 0xFFFF_0000) != 0 {
      acc := Fold(acc);
    }
    c := Swap(acc);
    UnSwap(acc, Words(data));
  }

  /** Exchanging the bytes of the sum undoes an exchange of the bytes of the data. */
  lemma UnSwap(x: U16, words: nat)
    requires Same(x, 256 * words)
    ensures Same(Swap(x), words)
  {
    hide Swap;
    SwapSame(x);
    SameTimes(x, 256 * words);
    SameTwice(words);
  }

  /** The 16-bit variable that collects an odd first byte and an odd last byte. */
  function WithHigh(t: U16, b: U8): U16 {
    Word(t % 0x100, b)
  }

  function WithLow(t: U16, b: U8): U16 {
    Word(b, t / 0x100)
  }

  lemma EndBytes(t: U16, b: U8)
    ensures WithHigh(0, b) == Word(0, b) && Word(0, b) % 0x100 == 0
    ensures t % 0x100 == 0 ==> WithLow(t, b) == t + b
  {
  }

  lemma {:induction false} FirstTotal(data: seq<U8>, odd: bool)
    ensures var i := if odd && |data| > 0 then 1 else 0;
            Total(data, odd) == (if i == 1 then Word(0, data[0]) else 0) + Words(data[i..])
  {
  }

  /** What versions 2 and 3 add up: from an odd address the first byte is put on its own in the upper half
      of a word. */
  function Total(data: seq<U8>, odd: bool): nat {
    if odd && data != [] then Word(0, data[0]) + Words(data[1..]) else Words(data)
  }

  lemma FirstByte(x: U8, rest: nat, words: nat)
    requires Same(words, x + 256 * rest)
    ensures Same(Word(0, x) + rest, 256 * words)
  {
    SameTimes(words, x + 256 * rest);
    SameTwice(rest);
    SameAdd(0x1_0000 * rest, rest, Word(0, x), Word(0, x));
  }

  lemma {:induction false} TotalIs(data: seq<U8>, odd: bool)
    ensures Same(Total(data, odd), if odd then 256 * Words(data) else Words(data))
  {
    hide Words, Same;
    SameReflexive(Words(data));
    if odd && data == [] {
      SameReflexive(0);
      WordsZero(data);
    } else if odd {
      assert data == [data[0]] + data[1..];
      Shift(data[0], data[1..]);
      FirstByte(data[0], Words(data[1..]), Words(data));
    }
  }

  lemma {:induction false} TotalBound(data: seq<U8>, odd: bool)
    requires |data| <= 0x2_0000
    ensures Total(data, odd) < 0x1_0000_0000
  {
    hide Words;
    WordsBound(data);
    if odd && data != [] {
      WordsBound(data[1..]);
    }
  }

  /** The end of versions 2 and 3. */
  lemma {:induction false} Finish(sum: U32, data: seq<U8>, odd: bool)
    requires Same(sum, Total(data, odd))
    ensures var c := Fold(Fold(sum)); c <= 0xFFFF && IsSum(if odd then Swap(c) else c, data)
  {
    hide Fold, Swap, Words;
    TotalIs(data, odd);
    FoldTwice(sum, Total(data, odd));
    if odd {
      UnSwap(Fold(Fold(sum)), Words(data));
    }
  }

  /** The 32-bit word of two 16-bit words. */
  function Long(lo: U16, hi: U16): U32 {
    lo as int + 0x1_0000 * hi as int
  }

  /** A 16-bit load, which has to be from an even address: `address` is where the data begins. */
  function Load16(data: seq<U8>, address: nat, i: nat): U16
    requires i + 1 < |data| && (address + i) % 2 == 0
  {
    Word(data[i], data[i + 1])
  }

  /** A 32-bit load, which has to be from a multiple of 4. */
  function Load32(data: seq<U8>, address: nat, i: nat): U32
    requires i + 3 < |data| && (address + i) % 4 == 0
  {
    Long(Word(data[i], data[i + 1]), Word(data[i + 2], data[i + 3]))
  }

  /** Version 2 sums 16-bit loads, all of them from even addresses, for up to 0x20000 bytes from any address. */
  method StandardChecksum2(data: seq<U8>, odd: bool) returns (c: U16)
    requires |data| <= 0x2_0000
    ensures IsSum(c, data)
  {
    hide Fold, Swap, Same, Words, Word, WithHigh, WithLow, Total;
    TotalBound(data, odd);
    FirstTotal(data, odd);
    var t: U16, sum: U32, i := 0, 0, 0;
    if odd && |data| > 0 {
      EndBytes(t, data[0]);
      t := WithHigh(t, data[0]);
      i := 1;
    }
    var address := if odd then 1 else 0;
    while |data| - i > 1
      invariant 0 <= i <= |data| && t % 0x100 == 0 && (|data| > 0 ==> (address + i) % 2 == 0)
      invariant sum + t + Words(data[i..]) == Total(data, odd)
    {
      Suffix(data, i);
      sum := sum + Load16(data, address, i);
      i := i + 2;
    }
    Suffix(data, i);
    if |data| - i > 0 {
      EndBytes(t, data[i]);
      t := WithLow(t, data[i]);
    }
    sum := sum + t;
    SameReflexive(sum);
    Finish(sum, data, odd);
    sum := Fold(sum);
    sum := Fold(sum);
    if odd {
      sum := Swap(sum);
    }
    c := sum;
  }

  /** A 32-bit addition with the carry added back. */
  function CarryAdd(x: U32, y: U32): U32 {
    var tmp := Wrap32(x + y);
    if tmp < x then tmp + 1 else tmp
  }

  lemma CarryStep(sum: U32, lo: U16, hi: U16, rest: nat, total: nat)
    requires Same(sum + (lo + (hi + rest)), total)
    ensures Same(CarryAdd(sum, Long(lo, hi)) + rest, total)
  {
    CarrySame(sum, Long(lo, hi));
    SameTwice(hi);
    SameAdd(CarryAdd(sum, Long(lo, hi)), sum + Long(lo, hi), rest, rest);
    SameAdd(0x1_0000 * hi as int, hi, sum + lo + rest, sum + lo + rest);
  }

  lemma CarrySame(x: U32, y: U32)
    ensures Same(CarryAdd(x, y), x + y)
  {
  }

  /** The unrolled loop of version 3. */
  method SumLongs(data: seq<U8>, address: nat, start: nat, before: U32, ghost t: U16, ghost total: nat)
      returns (i: nat, sum: U32)
    requires |data| - start > 1 ==> (address + start) % 4 == 0
    requires start <= |data| && Same(before + (t + Words(data[start..])), total)
    ensures |data| - i > 1 ==> (address + i) % 4 == 0
    ensures start <= i <= |data| && |data| - i <= 7 && Same(sum + (t + Words(data[i..])), total)
  {
    hide Same, Words, Word, CarryAdd, Long;
    i, sum := start, before;
    while |data| - i > 7
      invariant start <= i <= |data| && (|data| - i > 1 ==> (address + i) % 4 == 0)
      invariant Same(sum + (t + Words(data[i..])), total)
    {
      Rearranged(sum, t, data, i, total);
      var tmp := CarryAdd(sum, Load32(data, address, i));
      Rearranged(tmp, t, data, i + 4, total);
      sum := CarryAdd(tmp, Load32(data, address, i + 4));
      i := i + 8;
    }
  }

  /** The loop over the 16-bit words that remain, of which there are at most three. */
  method SumRest(data: seq<U8>, address: nat, start: nat, before: U32, ghost t: U16, ghost total: nat)
      returns (i: nat, sum: U32)
    requires |data| - start > 1 ==> (address + start) % 2 == 0
    requires start <= |data| <= start + 7 && before <= 0x1_FFFE && Same(before + (t + Words(data[start..])), total)
    ensures start <= i <= |data| <= i + 1 && sum <= 0x1_FFFE + 0xFFFF * 3
    ensures Same(sum + (t + Words(data[i..])), total)
  {
    hide Same, Words, Word;
    i, sum := start, before;
    while |data| - i > 1
      invariant start <= i <= |data| && (|data| - i > 1 ==> (address + i) % 2 == 0)
      invariant sum + 0xFFFF * ((|data| - i) / 2) <= 0x1_FFFE + 0xFFFF * 3
      invariant Same(sum + (t + Words(data[i..])), total)
    {
      Suffix(data, i);
      Associate(sum, Load16(data, address, i), t, Words(data[i + 2..]));
      sum := sum + Load16(data, address, i);
      i := i + 2;
    }
  }

  lemma Parity(a: nat)
    ensures a % 4 == 0 ==> a % 2 == 0
    ensures a % 2 == 0 && a % 4 != 0 ==> (a + 2) % 4 == 0
    ensures a % 2 != 0 ==> (a + 1) % 2 == 0
  {
    var q, r := a / 4, a % 4;
    DivUnique(a, 2, 2 * q + r / 2, r % 2);
    if r == 2 {
      DivUnique(a + 2, 4, q + 1, 0);
    }
    if r % 2 == 1 {
      DivUnique(a + 1, 2, 2 * q + r / 2 + 1, 0);
    }
  }

  /** The start of version 3: an odd first byte and then an odd first 16-bit word are taken on their own. */
  method Align(data: seq<U8>, address: nat) returns (i: nat, t: U16, sum: U32)
    ensures i <= |data| && t % 0x100 == 0 && sum <= 0xFFFF
    ensures |data| - i > 1 ==> (address + i) % 4 == 0
    ensures sum + (t + Words(data[i..])) == Total(data, address % 2 != 0)
  {
    hide Words, Word, WithHigh, Total;
    FirstTotal(data, address % 2 != 0);
    t, sum, i := 0, 0, 0;
    Parity(address);
    if address % 2 != 0 && |data| > 0 {
      EndBytes(t, data[0]);
      t := WithHigh(t, data[0]);
      i := 1;
    }
    Parity(address + i);
    if (address + i) % 4 != 0 && |data| - i > 1 {
      Suffix(data, i);
      sum := sum + Load16(data, address, i);
      i := i + 2;
    }
  }

  /** Version 3 sums 32-bit loads, eight bytes at a time and all of them from multiples of 4, for data at any
      address. */
  method StandardChecksum3(data: seq<U8>, address: U32) returns (c: U16)
    ensures IsSum(c, data)
  {
    hide Fold, Swap, Same, Words, Word, WithHigh, WithLow, Total;
    var odd := address % 2 != 0;
    ghost var total := Total(data, odd);
    var i, t, sum := Align(data, address);
    SameReflexive(total);
    i, sum := SumLongs(data, address, i, sum, t, total);
    FoldRest(sum, t + Words(data[i..]), total);
    sum := Fold(sum);
    Parity(address + i);
    i, sum := SumRest(data, address, i, sum, t, total);
    Suffix(data, i);
    if |data| - i > 0 {
      EndBytes(t, data[i]);
      t := WithLow(t, data[i]);
    }
    sum := sum + t;
    Finish(sum, data, odd);
    sum := Fold(sum);
    sum := Fold(sum);
    if odd {
      sum := Swap(sum);
    }
    c := sum;
  }

  lemma Associate(sum: nat, word: nat, t: nat, rest: nat)
    ensures sum + (t + (word + rest)) == (sum + word) + (t + rest)
  {
  }

  lemma FoldRest(sum: U32, rest: nat, total: nat)
    requires Same(sum + rest, total)
    ensures Same(Fold(sum) + rest, total) && Fold(sum) <= 0x1_FFFE
  {
    hide Fold;
    FoldSame(sum);
    SameAdd(Fold(sum), sum, rest, rest);
  }

  /** One step of the unrolled loop. */
  lemma {:induction false} Rearranged(sum: U32, t: U16, data: seq<U8>, i: nat, total: nat)
    requires i + 4 <= |data| && Same(sum + (t + Words(data[i..])), total)
    ensures Same(CarryAdd(sum, Long(Word(data[i], data[i + 1]), Word(data[i + 2], data[i + 3])))
                 + (t + Words(data[i + 4..])), total)
  {
    hide Same, Words, Word, CarryAdd, Long;
    var lo, hi := Word(data[i], data[i + 1]), Word(data[i + 2], data[i + 3]);
    Suffix(data, i);
    Suffix(data, i + 2);
    var rest := t + Words(data[i + 4..]);
    assert t + Words(data[i..]) == lo + (hi + rest);
    CarryStep(sum, lo, hi, rest, total);
  }
}
