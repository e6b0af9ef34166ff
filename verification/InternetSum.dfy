/**
 The sum that the Internet checksum (RFC 1071) is the complement of. The processor is little-endian, so a
 16-bit load gives the first byte the weight 1 and the second the weight 256.
*/
module InternetSum {
  import opened Bits

  /** A 16-bit load. */
  function Word(lo: U8, hi: U8): U16 {
    lo as int + 256 * hi as int
  }

  /** The sum of the 16-bit words of the data; a last odd byte is padded with zero. */
  function Words(s: seq<U8>): nat {
    if s == [] then 0
    else if |s| == 1 then s[0]
    else Word(s[0], s[1]) + Words(s[2..])
  }

  /** Equal in one's-complement arithmetic, where only a sum of zeros is zero. */
  predicate Same(x: nat, y: nat) {
    x % 0xFFFF == y % 0xFFFF && (x == 0 <==> y == 0)
  }

  /** `c` is the one's-complement sum of the data. */
  predicate IsSum(c: U16, s: seq<U8>) {
    Same(c, Words(s))
  }

  /** There is only one, so every function that computes it computes the same. */
  lemma SumIsUnique(c: U16, c': U16, s: seq<U8>)
    requires IsSum(c, s) && IsSum(c', s)
    ensures c == c'
  {
  }

  /** The sum in numbers: 0 only for zeros, and otherwise the remainder by 0xFFFF, from 1 to 0xFFFF. */
  lemma SumInNumbers(c: U16, s: seq<U8>)
    ensures IsSum(c, s) <==> c == if Words(s) == 0 then 0 else (Words(s) - 1) % 0xFFFF + 1
  {
    hide Words;
    OneToMax(Words(s), c);
  }

  lemma OneToMax(w: nat, c: U16)
    ensures Same(c, w) <==> c == if w == 0 then 0 else (w - 1) % 0xFFFF + 1
  {
    if w > 0 {
      var q, r := (w - 1) / 0xFFFF, (w - 1) % 0xFFFF;
      assert w == 0xFFFF * q + r + 1;
      if r == 0xFFFE {
        DivUnique(w, 0xFFFF, q + 1, 0);
      } else {
        DivUnique(w, 0xFFFF, q, r + 1);
      }
    }
  }

  /** The checksum is the complement of the sum. */
  predicate IsChecksum(r: U16, s: seq<U8>) {
    IsSum(0xFFFF - r, s)
  }

  lemma SameAdd(a: nat, b: nat, c: nat, d: nat)
    requires Same(a, b) && Same(c, d)
    ensures Same(a + c, b + d)
  {
  }

  lemma Times256(a: nat)
    ensures 256 * a % 0xFFFF == 256 * (a % 0xFFFF) % 0xFFFF
  {
    var q, r := a / 0xFFFF, a % 0xFFFF;
    var q', r' := 256 * r / 0xFFFF, 256 * r % 0xFFFF;
    DivUnique(256 * a, 0xFFFF, 256 * q + q', r');
  }

  lemma SameTimes(a: nat, b: nat)
    requires Same(a, b)
    ensures Same(256 * a, 256 * b)
  {
    Times256(a);
    Times256(b);
  }

  lemma SameTwice(a: nat)
    ensures Same(0x1_0000 * a, a)
  {
  }

  lemma {:induction false} TwoBytes(s: seq<U8>)
    requires |s| >= 2
    ensures Words(s) == Word(s[0], s[1]) + Words(s[2..])
  {
  }

  lemma ShiftStep(x: U8, y: U8, words: nat, rest: nat)
    requires Same(words, y + 256 * rest)
    ensures Same(Word(x, y) + rest, x + 256 * words)
  {
    hide Same;
    SameTimes(words, y + 256 * rest);
    SameTwice(rest);
    SameReflexive(Word(x, y));
    SameReflexive(x);
    SameAdd(Word(x, y), Word(x, y), 0x1_0000 * rest, rest);
    SameAdd(x, x, 256 * words, 256 * (y + 256 * rest));
    SameTransitive(Word(x, y) + rest, Word(x, y) + 0x1_0000 * rest, x + 256 * words);
  }

  lemma SameReflexive(x: nat)
    ensures Same(x, x)
  {
  }

  lemma SameTransitive(x: nat, y: nat, z: nat)
    requires (Same(x, y) || Same(y, x)) && (Same(y, z) || Same(z, y))
    ensures Same(x, z)
  {
  }

  lemma OneByte(x: U8)
    ensures Same(Words([x] + []), x + 256 * Words([]))
  {
  }

  /** One more byte in front moves every other byte to the other half of its word. */
  lemma {:induction false} Shift(x: U8, s: seq<U8>)
    ensures Same(Words([x] + s), x + 256 * Words(s))
    decreases |s|
  {
    hide Words, Same, Word;
    if s == [] {
      OneByte(x);
    } else {
      var rest := s[1..];
      assert ([x] + s)[2..] == rest;
      assert s == [s[0]] + rest;
      Shift(s[0], rest);
      TwoBytes([x] + s);
      ShiftStep(x, s[0], Words(s), Words(rest));
    }
  }

  lemma {:induction false} AppendTwo(s: seq<U8>, t: seq<U8>, y: nat)
    requires |s| >= 2 && Same(Words(s[2..] + t), Words(s[2..]) + y)
    ensures Same(Words(s + t), Words(s) + y)
  {
    hide Words, Word;
    TwoBytes(s);
    TwoBytes(s + t);
    assert (s + t)[2..] == s[2..] + t;
    var w := Word(s[0], s[1]);
    SameAdd(w, w, Words(s[2..] + t), Words(s[2..]) + y);
  }

  /** A piece counts as it is after an even number of bytes, and with its bytes exchanged after an odd
      number. */
  ghost function Moved(s: seq<U8>, t: seq<U8>): nat {
    if |s| % 2 == 0 then Words(t) else 256 * Words(t)
  }

  lemma {:induction false} AppendShort(s: seq<U8>, t: seq<U8>)
    requires |s| <= 1
    ensures Same(Words(s + t), Words(s) + Moved(s, t))
  {
    if s == [] {
      assert s + t == t;
    } else {
      assert s + t == [s[0]] + t;
      Shift(s[0], t);
    }
  }

  /** The sum of two pieces. */
  lemma {:induction false} Append(s: seq<U8>, t: seq<U8>)
    ensures Same(Words(s + t), Words(s) + Moved(s, t))
  {
    hide Same, Words;
    if |s| <= 1 {
      AppendShort(s, t);
    } else {
      Append(s[2..], t);
      AppendTwo(s, t, Moved(s, t));
    }
  }

  lemma {:induction false} WordsBound(s: seq<U8>)
    ensures Words(s) <= 0xFFFF * ((|s| + 1) / 2)
  {
    if |s| > 1 {
      WordsBound(s[2..]);
    }
  }

  lemma {:induction false} WordsZero(s: seq<U8>)
    ensures Words(s) == 0 <==> forall i | 0 <= i < |s| :: s[i] == 0
  {
    if |s| > 1 {
      WordsZero(s[2..]);
      assert forall i | 2 <= i < |s| :: s[i] == s[2..][i - 2];
    }
  }

  // ---------- Folding and swapping ----------

  function Fold(x: U32): U32 {
    FoldIs(x);
    Shr(x, 16) + And(x, 0xFFFF)
  }

  lemma FoldIs(x: U32)
    ensures Shr(x, 16) + And(x, 0xFFFF) == x / 0x1_0000 + x % 0x1_0000 < 0x2_0000
  {
    hide And, Shr;
    Pow2Word();
    ShrIsDiv(x, 16);
    AndIsMod(x, 0xFFFF, 16);
  }

  lemma FoldSame(x: U32)
    ensures Same(Fold(x), x)
    ensures Fold(x) <= 0x1_FFFE && (x <= 0x1_FFFE ==> Fold(x) <= 0xFFFF)
  {
    hide And, Shr;
    FoldIs(x);
    var h := x / 0x1_0000;
    SameTwice(h);
    SameAdd(0x1_0000 * h, h, x % 0x1_0000, x % 0x1_0000);
  }

  lemma FoldTwice(x: U32, total: nat)
    requires Same(x, total)
    ensures Same(Fold(x), total) && Same(Fold(Fold(x)), total) && Fold(Fold(x)) <= 0xFFFF
  {
    hide Fold;
    FoldSame(x);
    FoldSame(Fold(x));
  }

  /** `SWAP_BYTES_IN_WORD`, and `htons`. */
  function Swap(x: U32): U16 {
    SwapIs(x);
    Or(Shl(And(x, 0xFF), 8), Shr(And(x, 0xFF00), 8))
  }

  lemma SwapIs(x: U32)
    ensures Or(Shl(And(x, 0xFF), 8), Shr(And(x, 0xFF00), 8)) == x % 0x100 * 0x100 + x / 0x100 % 0x100 < 0x1_0000
  {
    hide And, Or, Shl, Shr, Field;
    Pow2Small();
    AndIsMod(x, 0xFF, 8);
    ShlIsTimes(0xFF, 8);
    SumParts(0xFF, 8, 0);
    MaskedField(x, 0xFF00, 8, 8);
    FieldIsDivMod(x, 8, 8, 0x100, 0x100);
    ShlIsTimes(x % 0x100, 8);
    OrDisjoint(x % 0x100, 8, x / 0x100 % 0x100);
  }

  lemma SwapValue(x: U16)
    ensures Swap(x) == x % 0x100 * 0x100 + x / 0x100
  {
    hide And, Or, Shl, Shr;
    SwapIs(x);
  }

  lemma SwapSame(x: U16)
    ensures Same(Swap(x), 256 * x)
  {
    hide And, Or, Shl, Shr;
    SwapIs(x);
    var h, l := x / 0x100, x % 0x100;
    SameTwice(h);
    SameAdd(0x1_0000 * h, h, l * 0x100, l * 0x100);
  }
}
