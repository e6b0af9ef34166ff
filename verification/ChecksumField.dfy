/**
 What the receiver's check accepts, and the updates of a checksum in place when a byte of the packet
 changes.
*/
module ChecksumField {
  import opened Bits
  import opened InternetSum

  /** A checksum over data that includes its checksum field is 0: the data is accepted. */
  predicate Accepted(s: seq<U8>) {
    IsChecksum(0, s)
  }

  lemma AcceptedIs(s: seq<U8>)
    ensures Accepted(s) <==> Words(s) > 0 && Words(s) % 0xFFFF == 0
  {
    hide Words;
  }

  /** The weight of a byte in the sum. */
  function Weight(i: nat): nat {
    if i % 2 == 0 then 1 else 256
  }

  lemma {:induction false} ChangeByte(s: seq<U8>, i: nat, x: U8)
    requires i < |s|
    ensures Words(s[i := x]) + Weight(i) * s[i] == Words(s) + Weight(i) * x
    decreases |s|
  {
    if i >= 2 {
      hide Words, Weight;
      TwoBytes(s);
      TwoBytes(s[i := x]);
      assert s[i := x][2..] == s[2..][i - 2 := x];
      ChangeByte(s[2..], i - 2, x);
      SameWeight(i);
    } else if |s| >= 2 {
      TwoBytes(s);
      TwoBytes(s[i := x]);
      assert s[i := x][2..] == s[2..];
    }
  }

  lemma SameWeight(i: nat)
    requires i >= 2
    ensures Weight(i) == Weight(i - 2)
  {
  }

  /** A change of any single byte is detected. */
  lemma {:induction false} SingleByteDetected(s: seq<U8>, i: nat, x: U8)
    requires i < |s| && x != s[i] && Accepted(s)
    ensures !Accepted(s[i := x])
  {
    hide Words;
    ChangeByte(s, i, x);
    SmallChange(Words(s), Words(s[i := x]), Weight(i), s[i], x);
  }

  lemma SmallChange(w: nat, w': nat, k: nat, b: U8, x: U8)
    requires w' + k * b == w + k * x && (k == 1 || k == 256) && x != b
    ensures w % 0xFFFF != w' % 0xFFFF
  {
    assert w == 0xFFFF * (w / 0xFFFF) + w % 0xFFFF;
    assert w' == 0xFFFF * (w' / 0xFFFF) + w' % 0xFFFF;
    assert -0xFFFF < w' - w < 0xFFFF && w' != w;
  }

  /** The data with a 16-bit field at an even position. */
  function Put(s: seq<U8>, k: nat, v: U16): seq<U8>
    requires k + 1 < |s|
  {
    s[k := v % 0x100][k + 1 := v / 0x100]
  }

  function Get(s: seq<U8>, k: nat): U16
    requires k + 1 < |s|
  {
    Word(s[k], s[k + 1])
  }

  lemma {:induction false} PutWords(s: seq<U8>, k: nat, v: U16)
    requires k + 1 < |s| && k % 2 == 0
    ensures Words(Put(s, k, v)) + Get(s, k) == Words(s) + v
  {
    hide Words;
    var t := s[k := v % 0x100];
    ChangeByte(s, k, v % 0x100);
    ChangeByte(t, k + 1, v / 0x100);
  }

  /** With `r` computed over the data while its field holds 0, exactly the value `r` in the field makes the
      data acceptable, or 0xFFFF in place of an `r` of 0. */
  lemma {:induction false} FieldAccepted(s: seq<U8>, k: nat, r: U16, v: U16)
    requires k + 1 < |s| && k % 2 == 0 && IsChecksum(r, Put(s, k, 0))
    ensures Accepted(Put(s, k, v)) <==> v == r || (r == 0 && v == 0xFFFF)
  {
    hide Words;
    PutWords(s, k, 0);
    PutWords(s, k, v);
    Complement(Words(Put(s, k, 0)), r, v);
  }

  lemma Complement(w: nat, r: U16, v: U16)
    requires Same(0xFFFF - r, w)
    ensures Same(0xFFFF, w + v) <==> v == r || (r == 0 && v == 0xFFFF)
  {
    var m := w % 0xFFFF;
    assert (w + v) % 0xFFFF == (m + v) % 0xFFFF;
    assert (m + v) % 0xFFFF == 0 <==> m + v == 0 || m + v == 0xFFFF || m + v == 0x1_FFFE;
  }

  // ---------- Updating a checksum in place ----------

  /** A checksum after the most significant byte of some word has been lowered by `k` (`htons` exchanges the
      bytes of a word); the carry out of the top is added back, one step early. */
  function Raised(c: U16, k: U8): U16 {
    if c >= Swap(0xFFFF - Shl8(k)) then Wrap16(c + Swap(Shl8(k)) + 1) else Wrap16(c + Swap(Shl8(k)))
  }

  function Shl8(k: U8): U16 {
    Shl8Is(k);
    Shl(k, 8)
  }

  lemma Shl8Is(k: U8)
    ensures Shl(k, 8) == 256 * k as int
  {
    Pow2Small();
    ShlIsTimes(k, 8);
  }

  lemma RaisedIs(c: U16, k: U8)
    ensures Raised(c, k) == if c >= 0xFFFF - k then c + k - 0xFFFF else c + k
  {
    hide Swap, Shl;
    Shl8Is(k);
    SwapValue(Shl8(k));
    SwapValue(0xFFFF - Shl8(k));
    assert 0xFFFF - 256 * k as int == 256 * (0xFF - k) + 0xFF;
  }

  /** The data after byte `i` has been lowered by `k` and the field at `j` raised. */
  function Updated(s: seq<U8>, i: nat, k: U8, j: nat): seq<U8>
    requires i < |s| && j + 1 < |s| && k <= s[i]
  {
    Put(s[i := s[i] - k], j, Raised(Get(s, j), k))
  }

  /** The update byte by byte: byte `i`, the field, and nothing else. */
  lemma UpdatedBytes(s: seq<U8>, i: nat, k: U8, j: nat)
    requires i < |s| && j + 1 < |s| && k <= s[i] && i != j && i != j + 1
    ensures var s', c := Updated(s, i, k, j), s[j] + 0x100 * s[j + 1] as int;
            && |s'| == |s| && s'[i] == s[i] - k
            && (forall n | 0 <= n < |s| && n != i && n != j && n != j + 1 :: s'[n] == s[n])
            && s'[j] + 0x100 * s'[j + 1] as int == if c >= 0xFFFF - k then c + k - 0xFFFF else c + k
  {
    hide Raised;
    RaisedIs(Get(s, j), k);
  }

  lemma {:induction false} UpdatedWords(s: seq<U8>, i: nat, k: U8, j: nat)
    requires i < |s| && j + 1 < |s| && k <= s[i] && i % 2 == 0 && j % 2 == 0 && i != j
    ensures Words(Updated(s, i, k, j)) + k + Get(s, j) == Words(s) + Raised(Get(s, j), k)
  {
    hide Words, Raised;
    ChangeByte(s, i, s[i] - k);
    PutWords(s[i := s[i] - k], j, Raised(Get(s, j), k));
  }

  /** Some byte other than byte `i` and the field at `j` is not zero. */
  ghost predicate MoreThan(s: seq<U8>, i: nat, j: nat) {
    exists n :: 0 <= n < |s| && n != i && n != j && n != j + 1 && s[n] != 0
  }

  lemma {:induction false} OnlyField(s: seq<U8>, i: nat, j: nat)
    requires i < |s| && j + 1 < |s| && i % 2 == 0 && j % 2 == 0 && i != j && !MoreThan(s, i, j)
    ensures Words(s) == s[i] + Get(s, j)
  {
    hide Words;
    var t := s[i := 0];
    ChangeByte(s, i, 0);
    PutWords(t, j, 0);
    WordsZero(Put(t, j, 0));
  }

  lemma {:induction false} NotZero(s: seq<U8>, n: nat)
    requires n < |s| && s[n] != 0
    ensures Words(s) > 0
  {
    WordsZero(s);
  }

  /** The update keeps data acceptable, and unacceptable, with one exception: acceptable data in which only
      byte `i`, now `k`, and the field are not zero. */
  lemma {:induction false} UpdateKeeps(s: seq<U8>, i: nat, k: U8, j: nat)
    requires i < |s| && j + 1 < |s| && 0 < k <= s[i] && i % 2 == 0 && j % 2 == 0 && i != j
    ensures Accepted(Updated(s, i, k, j)) <==> Accepted(s) && (s[i] != k || MoreThan(s, i, j))
  {
    hide Words, Raised;
    var s' := Updated(s, i, k, j);
    UpdatedWords(s, i, k, j);
    RaisedIs(Get(s, j), k);
    NotZero(s, i);
    SumStays(Words(s), Words(s'), k, Get(s, j));
    if s[i] != k {
      NotZero(s', i);
    } else if MoreThan(s, i, j) {
      var n :| 0 <= n < |s| && n != i && n != j && n != j + 1 && s[n] != 0;
      NotZero(s', n);
    } else {
      OnlyField(s, i, j);
    }
  }

  lemma SumStays(w: nat, w': nat, k: U8, c: U16)
    requires w' + k + c == w + if c >= 0xFFFF - k then c + k - 0xFFFF else c + k
    ensures w' % 0xFFFF == w % 0xFFFF
  {
  }

  const ICMP_ECHO: U8 := 8
  const ICMP_ER: U8 := 0

  /** The answer to an echo request, where the checksum is not left to the hardware: made in place from the
      request. It is acceptable exactly if the request was, and was not zero but for type and checksum. */
  method EchoReply(packet: array<U8>)
    requires packet.Length >= 8 && packet[0] == ICMP_ECHO
    modifies packet
    ensures packet[..] == Updated(old(packet[..]), 0, ICMP_ECHO, 2)
    ensures packet[0] == 0 && forall n | 1 <= n < packet.Length && n != 2 && n != 3 :: packet[n] == old(packet[n])
    ensures var c := old(packet[2]) + 0x100 * old(packet[3]) as int;
            packet[2] + 0x100 * packet[3] as int == if c >= 0xFFF7 then c + 8 - 0xFFFF else c + 8
    ensures Accepted(packet[..]) <==> Accepted(old(packet[..])) && MoreThan(old(packet[..]), 0, 2)
  {
    hide Accepted, Raised;
    ghost var before := packet[..];
    UpdateKeeps(before, 0, ICMP_ECHO, 2);
    UpdatedBytes(before, 0, ICMP_ECHO, 2);
    packet[0] := ICMP_ER;
    RaiseField(packet, 2, ICMP_ECHO);
    ghost var after := packet[..];
    assert after == Updated(before, 0, ICMP_ECHO, 2);
    assert forall n | 0 <= n < packet.Length :: packet[n] == after[n];
  }

  lemma LoadedWord(lo: U8, hi: U8, x: U16)
    ensures Word(lo, hi) == lo + 0x100 * hi as int && x == x % 0x100 + 0x100 * (x / 0x100)
  {
  }

  /** The addition to a checksum field, which both updates share. */
  method RaiseField(packet: array<U8>, j: nat, k: U8)
    requires j + 1 < packet.Length
    modifies packet
    ensures packet[..] == Put(old(packet[..]), j, Raised(Get(old(packet[..]), j), k))
    ensures forall n | 0 <= n < packet.Length && n != j && n != j + 1 :: packet[n] == old(packet[n])
    ensures var c := old(packet[j]) + 0x100 * old(packet[j + 1]) as int;
            packet[j] + 0x100 * packet[j + 1] as int == if c >= 0xFFFF - k then c + k - 0xFFFF else c + k
  {
    hide Swap, Shl8, Word, Wrap16;
    var chksum := Word(packet[j], packet[j + 1]);
    if chksum >= Swap(0xFFFF - Shl8(k)) {
      chksum := Wrap16(chksum + Swap(Shl8(k)) + 1);
    } else {
      chksum := Wrap16(chksum + Swap(Shl8(k)));
    }
    packet[j], packet[j + 1] := chksum % 0x100, chksum / 0x100;
    RaisedIs(Get(old(packet[..]), j), k);
    LoadedWord(old(packet[j]), old(packet[j + 1]), chksum);
  }

  /** A request that is zero but for its type and checksum is acceptable, and its answer is not. */
  lemma {:induction false} EchoOfZeros(s: seq<U8>)
    requires |s| >= 8 && s[0] == ICMP_ECHO && s[1] == 0 && s[2] == 0xF7 && s[3] == 0xFF
    requires forall n | 4 <= n < |s| :: s[n] == 0
    ensures Accepted(s) && !Accepted(Updated(s, 0, ICMP_ECHO, 2))
  {
    hide Words, Raised;
    TwoBytes(s);
    TwoBytes(s[2..]);
    WordsZero(s[2..][2..]);
    RaisedIs(0xFFF7, ICMP_ECHO);
    UpdateKeeps(s, 0, ICMP_ECHO, 2);
  }

  /** Forwarding: TTL is the header's byte 8, the checksum its field at 10. A forwarded header with a TTL of
      2 or more stays acceptable, or unacceptable. A TTL of 0 wraps around to 255 and is forwarded too,
      with a checksum that no longer fits. */
  method DecrementTtl(header: array<U8>) returns (forwarded: bool)
    requires header.Length >= 20
    modifies header
    ensures forwarded <==> old(header[8]) != 1
    ensures !forwarded ==> header[..] == old(header[..])[8 := 0]
    ensures old(header[8]) >= 2 ==> header[..] == Updated(old(header[..]), 8, 1, 10)
    ensures header[8] == if old(header[8]) == 0 then 255 else old(header[8]) - 1
    ensures forall n | 0 <= n < header.Length && n != 8 && n != 10 && n != 11 :: header[n] == old(header[n])
    ensures var c := old(header[10]) + 0x100 * old(header[11]) as int;
            header[10] + 0x100 * header[11] as int
            == if !forwarded then c else if c >= 0xFFFE then c + 1 - 0xFFFF else c + 1
    ensures old(header[8]) >= 2 ==> (Accepted(header[..]) <==> Accepted(old(header[..])))
    ensures old(header[8]) == 0 && Accepted(old(header[..])) ==> !Accepted(header[..])
  {
    hide Accepted, Raised;
    ghost var before := header[..];
    header[8] := Wrap8(header[8] as int - 1);
    if header[8] == 0 {
      return false;
    }
    if before[8] >= 1 {
      UpdateKeeps(before, 8, 1, 10);
    } else {
      TtlWraps(before);
    }
    RaiseField(header, 10, 1);
    return true;
  }

  lemma {:induction false} TtlWraps(s: seq<U8>)
    requires |s| >= 20 && s[8] == 0
    ensures Accepted(s) ==> !Accepted(Put(s[8 := 255], 10, Raised(Get(s, 10), 1)))
  {
    hide Words, Raised;
    var t := s[8 := 255];
    ChangeByte(s, 8, 255);
    PutWords(t, 10, Raised(Get(s, 10), 1));
    RaisedIs(Get(s, 10), 1);
  }
}
