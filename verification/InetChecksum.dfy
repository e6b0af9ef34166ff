/**
 The checksum of a chain of buffers, with and without the pseudo header of UDP and TCP.
*/
module InetChecksum {
  import opened Bits
  import opened InternetSum
  import opened StandardChecksum

  /** A buffer of a chain; `odd` says whether its payload starts at an odd address. */
  datatype Pbuf = Pbuf(payload: seq<U8>, odd: bool)

  /** Lengths of buffers are 16-bit. */
  ghost predicate Chain(chain: seq<Pbuf>) {
    forall q | q in chain :: |q.payload| < 0x1_0000
  }

  ghost function Joined(chain: seq<Pbuf>): seq<U8> {
    if chain == [] then [] else Joined(chain[..|chain| - 1]) + chain[|chain| - 1].payload
  }

  /** `inet_chksum`. */
  method InetChecksum(data: seq<U8>, odd: bool) returns (r: U16)
    requires |data| < 0x1_0000
    ensures IsChecksum(r, data)
  {
    var c := StandardChecksum2(data, odd);
    r := 0xFFFF - c;
  }

  /** While an odd number of bytes has been summed, the sum is kept with its bytes exchanged. */
  ghost function Kept(done: seq<U8>, swapped: bool): nat {
    if swapped then 256 * Words(done) else Words(done)
  }

  /** Appending a piece, when `swapped` is as the bytes so far demand. */
  lemma {:induction false} KeptAppend(done: seq<U8>, piece: seq<U8>, swapped: bool)
    requires swapped <==> |done| % 2 == 1
    ensures Same(Kept(done, swapped) + Words(piece), Kept(done + piece, swapped))
  {
    hide Words;
    Append(done, piece);
    if swapped {
      SameTimes(Words(done + piece), Words(done) + 256 * Words(piece));
      SameTwice(Words(piece));
      SameAdd(0x1_0000 * Words(piece), Words(piece), 256 * Words(done), 256 * Words(done));
    }
  }

  /** The body of the three loops over a chain: a piece is summed, and `flip` exchanges the bytes. */
  method AddPiece(acc: U32, swapped: bool, piece: seq<U8>, odd: bool, flip: bool, ghost done: seq<U8>)
      returns (acc': U32, swapped': bool)
    requires acc <= 0xFFFF && |piece| < 0x1_0000 && Same(acc, Kept(done, swapped))
    requires swapped <==> |done| % 2 == 1
    ensures acc' <= 0xFFFF && swapped' == (swapped != flip)
    ensures Same(acc', Kept(done + piece, swapped'))
  {
    hide Words, Fold, Swap;
    swapped' := swapped;
    var c := StandardChecksum2(piece, odd);
    SameAdd(acc, Kept(done, swapped), c, Words(piece));
    KeptAppend(done, piece, swapped);
    FoldSame(acc + c);
    acc' := acc + c;
    acc' := Fold(acc');
    if flip {
      FlipKept(acc', done + piece, swapped);
      swapped' := !swapped';
      acc' := Swap(acc');
    }
  }

  lemma {:induction false} FlipKept(acc: U16, done: seq<U8>, swapped: bool)
    requires Same(acc, Kept(done, swapped))
    ensures Same(Swap(acc), Kept(done, !swapped))
  {
    hide Words, Swap;
    if swapped {
      UnSwap(acc, Words(done));
    } else {
      SwapSame(acc);
      SameTimes(acc, Words(done));
    }
  }

  lemma JoinedStep(chain: seq<Pbuf>, k: nat)
    requires k < |chain|
    ensures Joined(chain[..k + 1]) == Joined(chain[..k]) + chain[k].payload
    ensures |chain[k].payload| % 2 == 1 <==> (|Joined(chain[..k])| % 2 == 1) != (|Joined(chain[..k + 1])| % 2 == 1)
  {
    assert chain[..k + 1][..k] == chain[..k];
  }

  lemma JoinedEnds(chain: seq<Pbuf>)
    ensures Joined(chain[..0]) == [] && chain[..|chain|] == chain
  {
  }

  /** The loop over a whole chain. */
  method SumChain(chain: seq<Pbuf>) returns (acc: U32)
    requires Chain(chain)
    ensures acc <= 0xFFFF && IsSum(acc, Joined(chain))
  {
    hide Words, Joined, Kept, Same, Swap;
    var swapped := false;
    acc := 0;
    JoinedEnds(chain);
    EmptyKept();
    for k := 0 to |chain|
      invariant acc <= 0xFFFF && Same(acc, Kept(Joined(chain[..k]), swapped))
      invariant swapped <==> |Joined(chain[..k])| % 2 == 1
    {
      var q := chain[k];
      JoinedStep(chain, k);
      acc, swapped := AddPiece(acc, swapped, q.payload, q.odd, |q.payload| % 2 != 0, Joined(chain[..k]));
    }
    UnKeep(acc, Joined(chain), swapped);
    if swapped {
      acc := Swap(acc);
    }
  }

  /** `inet_chksum_pbuf`: the checksum of the joined payloads, however they are cut into buffers and
      wherever the buffers lie. */
  method InetChecksumPbuf(chain: seq<Pbuf>) returns (r: U16)
    requires Chain(chain)
    ensures IsChecksum(r, Joined(chain))
  {
    hide Same, Words, Joined;
    var acc := SumChain(chain);
    r := 0xFFFF - acc;
  }

  lemma EmptyKept()
    ensures Same(0, Kept([], false))
  {
  }

  lemma {:induction false} UnKeep(acc: U16, done: seq<U8>, swapped: bool)
    requires Same(acc, Kept(done, swapped))
    ensures IsSum(if swapped then Swap(acc) else acc, done)
  {
    hide Words, Swap;
    if swapped {
      UnSwap(acc, Words(done));
    }
  }

  // ---------- With a pseudo header ----------

  /** The four bytes of an address, as a load of the word gives them. */
  function Address(a: U32): (s: seq<U8>)
    ensures |s| == 4
  {
    [a % 0x100, a / 0x100 % 0x100, a / 0x1_0000 % 0x100, a / 0x100_0000]
  }

  /** The pseudo header: both addresses, a zero byte, the protocol, and the length in network order. */
  function PseudoHeader(src: U32, dest: U32, proto: U8, length: U16): seq<U8> {
    Address(src) + (Address(dest) + [0, proto, length / 0x100, length % 0x100])
  }

  lemma {:induction false} AddressWords(a: U32, s: seq<U8>)
    ensures Words(Address(a) + s) == a % 0x1_0000 + a / 0x1_0000 + Words(s)
  {
    var t := Address(a) + s;
    assert t[2..][2..] == s;
    Bytes(a);
  }

  lemma Bytes(a: U32)
    ensures Word(a % 0x100, a / 0x100 % 0x100) == a % 0x1_0000
    ensures Word(a / 0x1_0000 % 0x100, a / 0x100_0000) == a / 0x1_0000
  {
    var b := a / 0x100;
    var c := b / 0x100;
    DivUnique(a, 0x1_0000, c, b % 0x100 * 0x100 + a % 0x100);
    DivUnique(c, 0x100, c / 0x100, c % 0x100);
    DivUnique(a, 0x100_0000, c / 0x100, c % 0x100 * 0x1_0000 + b % 0x100 * 0x100 + a % 0x100);
  }

  /** The pseudo header byte by byte; an address begins with the low byte of its word. */
  lemma PseudoHeaderBytes(src: U32, dest: U32, proto: U8, length: U16)
    ensures var h := PseudoHeader(src, dest, proto, length);
            && |h| == 12
            && src == h[0] + 0x100 * h[1] as int + 0x1_0000 * h[2] as int + 0x100_0000 * h[3] as int
            && dest == h[4] + 0x100 * h[5] as int + 0x1_0000 * h[6] as int + 0x100_0000 * h[7] as int
            && h[8] == 0 && h[9] == proto && length == 0x100 * h[10] as int + h[11]
  {
    AddressBytes(src);
    AddressBytes(dest);
  }

  lemma AddressBytes(a: U32)
    ensures var s := Address(a);
            a == s[0] + 0x100 * s[1] as int + 0x1_0000 * s[2] as int + 0x100_0000 * s[3] as int
  {
    Bytes(a);
  }

  lemma {:induction false} HeaderWords(src: U32, dest: U32, proto: U8, length: U16)
    ensures Words(PseudoHeader(src, dest, proto, length))
         == src % 0x1_0000 + src / 0x1_0000 + dest % 0x1_0000 + dest / 0x1_0000 + Swap(proto) + Swap(length)
    ensures |PseudoHeader(src, dest, proto, length)| == 12
  {
    hide Swap, Address, Words;
    var tail := [0, proto, length / 0x100, length % 0x100];
    AddressWords(src, Address(dest) + tail);
    AddressWords(dest, tail);
    TailWords(proto, length);
  }

  lemma {:induction false} TailWords(proto: U8, length: U16)
    ensures Words([0, proto, length / 0x100, length % 0x100]) == Swap(proto) + Swap(length)
  {
    hide Swap, Words;
    var tail := [0, proto, length / 0x100, length % 0x100];
    SwapValue(proto);
    SwapValue(length);
    TwoBytes(tail);
    assert tail[2..] == [length / 0x100, length % 0x100];
    TwoBytes(tail[2..]);
    NoWords(tail[2..][2..]);
  }

  lemma {:induction false} NoWords(s: seq<U8>)
    ensures s == [] ==> Words(s) == 0
  {
  }

  /** The halves of an address word. */
  lemma Halves(a: U32)
    ensures And(a, 0xFFFF) == a % 0x1_0000
    ensures And(Shr(a, 16), 0xFFFF) == a / 0x1_0000 < 0x1_0000
  {
    hide And, Shr;
    Pow2Word();
    ShrIsDiv(a, 16);
    AndIsMod(a, 0xFFFF, 16);
    AndIsMod(a / 0x1_0000, 0xFFFF, 16);
  }

  lemma {:induction false} HeaderSame(acc: U16, header: seq<U8>, data: seq<U8>)
    requires IsSum(acc, data) && |header| == 12
    ensures Same(acc + Words(header), Words(header + data))
  {
    hide Words;
    Append(header, data);
    SameAdd(acc, Words(data), Words(header), Words(header));
  }

  /** The end of both functions with a pseudo header. */
  method AddPseudo(sum: U16, src: U32, dest: U32, proto: U8, length: U16, ghost data: seq<U8>) returns (r: U16)
    requires IsSum(sum, data)
    ensures IsChecksum(r, PseudoHeader(src, dest, proto, length) + data)
  {
    hide Words, Same, Swap, Fold, And, Shr, PseudoHeader;
    ghost var header := PseudoHeader(src, dest, proto, length);
    HeaderWords(src, dest, proto, length);
    HeaderSame(sum, header, data);
    Halves(src);
    Halves(dest);
    var acc: U32 := sum;
    var addr := src;
    acc := acc + And(addr, 0xFFFF);
    acc := acc + And(Shr(addr, 16), 0xFFFF);
    addr := dest;
    acc := acc + And(addr, 0xFFFF);
    acc := acc + And(Shr(addr, 16), 0xFFFF);
    acc := acc + Swap(proto);
    acc := acc + Swap(length);
    FoldTwice(acc, Words(header + data));
    acc := Fold(acc);
    acc := Fold(acc);
    r := 0xFFFF - acc;
  }

  /** `inet_chksum_pseudo`. */
  method InetChecksumPseudo(chain: seq<Pbuf>, src: U32, dest: U32, proto: U8, length: U16) returns (r: U16)
    requires Chain(chain)
    ensures IsChecksum(r, PseudoHeader(src, dest, proto, length) + Joined(chain))
  {
    hide Same, Words, Joined, PseudoHeader;
    var acc := SumChain(chain);
    r := AddPseudo(acc, src, dest, proto, length, Joined(chain));
  }

  /** The first `n` bytes, or all if there are fewer. */
  function Prefix(s: seq<U8>, n: nat): (r: seq<U8>)
    ensures |r| == (if n < |s| then n else |s|) && forall i | 0 <= i < |r| :: r[i] == s[i]
  {
    if n < |s| then s[..n] else s
  }

  /** The loop over the first `limit` bytes of a chain. The last buffer may be cut, to a length whose parity
      is not that of the whole buffer, by which the bytes are exchanged; no piece follows it. */
  method SumPrefix(chain: seq<Pbuf>, limit: U16) returns (acc: U32)
    requires Chain(chain)
    ensures acc <= 0xFFFF && IsSum(acc, Prefix(Joined(chain), limit))
  {
    hide Words, Joined, Kept, Same, Swap;
    var swapped, left, k := false, limit, 0;
    acc := 0;
    ghost var done: seq<U8> := [];
    JoinedEnds(chain);
    EmptyKept();
    while k < |chain| && left > 0
      invariant 0 <= k <= |chain| && acc <= 0xFFFF && Same(acc, Kept(done, swapped))
      invariant |done| + left == limit && done == Prefix(Joined(chain[..k]), limit)
      invariant left > 0 ==> (swapped <==> |done| % 2 == 1)
    {
      var q := chain[k];
      JoinedStep(chain, k);
      var piece := q.payload;
      if |piece| > left {
        piece := piece[..left];
      }
      acc, swapped := AddPiece(acc, swapped, piece, q.odd, |q.payload| % 2 != 0, done);
      done := done + piece;
      left := left - |piece|;
      k := k + 1;
    }
    PrefixStays(chain, k, limit);
    UnKeep(acc, done, swapped);
    if swapped {
      acc := Swap(acc);
    }
  }

  /** `inet_chksum_pseudo_partial`. */
  method InetChecksumPseudoPartial(chain: seq<Pbuf>, src: U32, dest: U32, proto: U8, length: U16, limit: U16)
      returns (r: U16)
    requires Chain(chain)
    ensures IsChecksum(r, PseudoHeader(src, dest, proto, length) + Prefix(Joined(chain), limit))
  {
    hide Same, Words, Joined, PseudoHeader, Prefix;
    var acc := SumPrefix(chain, limit);
    r := AddPseudo(acc, src, dest, proto, length, Prefix(Joined(chain), limit));
  }

  lemma {:induction false} PrefixStays(chain: seq<Pbuf>, k: nat, n: nat)
    requires k <= |chain| && (k == |chain| || |Joined(chain[..k])| >= n)
    ensures Prefix(Joined(chain[..k]), n) == Prefix(Joined(chain), n)
    decreases |chain| - k
  {
    hide Joined;
    JoinedEnds(chain);
    if k < |chain| {
      JoinedStep(chain, k);
      PrefixStays(chain, k + 1, n);
    }
  }
}
