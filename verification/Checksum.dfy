/** The Internet checksum of section 1 of RFC 1071 and RFC 768, with its 32-bit accumulator, and the raw
    UDP packets built with it. */
module Checksums {
  import opened Options
  import opened Basics

  type Word = w: int | 0 <= w < 0x1_0000

  const M32 := 0x1_0000_0000

  function Be16(hi: int, lo: int): int { hi * 256 + lo }

  /** The sum of the big-endian 16-bit words, an odd last byte padded with zero, without any bound. */
  function WordSum(buf: seq<Byte>): nat {
    if buf == [] then 0
    else if |buf| == 1 then Be16(buf[0], 0)
    else Be16(buf[0], buf[1]) + WordSum(buf[2..])
  }

  /** Fold the carries back in until 16 bits are left. */
  function Fold(s: nat): nat
    decreases s
  {
    if s > 0xffff then Fold(s / 0x1_0000 + s % 0x1_0000) else s
  }

  /** The value the program computes, its accumulator wrapping at 2^32. */
  function Checksum(buf: seq<Byte>): nat {
    var c := 0xffff - Fold(WordSum(buf) % M32);
    if c <= 0 then 0xffff else c
  }

  /** The sum of the bytes from `i` on, those at even places weighted with 256. */
  function ByteSum(buf: seq<Byte>, i: nat): nat
    requires i <= |buf|
    decreases |buf| - i
  {
    if i == |buf| then 0 else (if i % 2 == 0 then 256 * buf[i] as int else buf[i] as int) + ByteSum(buf, i + 1)
  }

  /** The words are big-endian, and an odd last byte is the upper half of its word. */
  lemma {:induction false} WordSumIs(buf: seq<Byte>, i: nat)
    requires i <= |buf| && i % 2 == 0
    ensures WordSum(buf[i..]) == ByteSum(buf, i)
    decreases |buf| - i
  {
    var rest := buf[i..];
    if |rest| >= 2 {
      WordSumIs(buf, i + 2);
      assert rest[2..] == buf[i + 2..];
      assert rest[0] == buf[i] && rest[1] == buf[i + 1];
      assert ByteSum(buf, i + 1) == buf[i + 1] as int + ByteSum(buf, i + 2);
    }
  }

  // ---------------------------------------------------------------- the loops

  lemma ModAdd(a: int, b: int)
    ensures (a % M32 + b) % M32 == (a + b) % M32
  {
  }

  lemma AddWord(sum: int, rest: seq<Byte>)
    requires |rest| >= 2
    ensures ((sum + Be16(rest[0], rest[1])) % M32 + WordSum(rest[2..])) % M32 == (sum + WordSum(rest)) % M32
  {
    SumStep(rest);
    hide WordSum;
    ModAdd(sum + Be16(rest[0], rest[1]), WordSum(rest[2..]));
  }

  lemma AddLast(sum: int, rest: seq<Byte>)
    requires 0 <= sum < M32 && |rest| <= 1
    ensures (sum + WordSum(rest)) % M32 == if rest == [] then sum else (sum + Be16(rest[0], 0)) % M32
  {
    SumStep(rest);
    SmallMod(sum, M32);
  }

  method ComputeChecksum(buf: seq<Byte>) returns (csum: Word)
    ensures csum == Checksum(buf) && csum != 0
  {
    hide WordSum, Fold, Be16;
    var sum: int := 0;
    var rest := buf;
    while |rest| >= 2
      invariant 0 <= sum < M32
      invariant (sum + WordSum(rest)) % M32 == WordSum(buf) % M32
      decreases |rest|
    {
      AddWord(sum, rest);
      sum := (sum + Be16(rest[0], rest[1])) % M32;
      rest := rest[2..];
    }
    AddLast(sum, rest);
    if |rest| > 0 {
      sum := (sum + Be16(rest[0], 0)) % M32;
    }
    assert sum == WordSum(buf) % M32;
    sum := FoldLoop(sum);
    csum := 0xffff - sum;
    if csum == 0 {
      csum := 0xffff;
    }
  }

  lemma SumStep(buf: seq<Byte>)
    ensures buf == [] ==> WordSum(buf) == 0
    ensures |buf| == 1 ==> WordSum(buf) == Be16(buf[0], 0)
    ensures |buf| >= 2 ==> WordSum(buf) == Be16(buf[0], buf[1]) + WordSum(buf[2..])
  {
  }

  method FoldLoop(total: nat) returns (sum: nat)
    ensures sum == Fold(total) && sum <= 0xffff
  {
    hide Fold;
    sum := total;
    while sum > 0xffff
      invariant Fold(sum) == Fold(total)
      decreases sum
    {
      FoldStep(sum, sum / 0x1_0000, sum % 0x1_0000);
      sum := sum / 0x1_0000 + sum % 0x1_0000;
    }
    FoldSmall(sum);
  }

  lemma FoldSmall(s: nat)
    requires s <= 0xffff
    ensures Fold(s) == s
  {
  }

  // ---------------------------------------------------------------- one's-complement arithmetic

  lemma ModShift(q: nat, x: nat)
    ensures (q * 0xffff + x) % 0xffff == x % 0xffff
  {
  }

  /** Folding is reduction to 1..0xffff modulo 0xffff; only zero folds to zero. */
  lemma {:induction false} FoldIs(s: nat)
    ensures Fold(s) == if s == 0 then 0 else (s - 1) % 0xffff + 1
    decreases s
  {
    if s > 0xffff {
      var q, r := s / 0x1_0000, s % 0x1_0000;
      FoldIs(q + r);
      FoldStep(s, q, r);
      hide Fold;
      ModShift(q, q + r - 1);
      assert s - 1 == q * 0xffff + (q + r - 1);
    } else if s > 0 {
      SmallMod(s - 1, 0xffff);
    }
  }

  lemma FoldStep(s: nat, q: nat, r: nat)
    requires s > 0xffff && q == s / 0x1_0000 && r == s % 0x1_0000
    ensures Fold(s) == Fold(q + r) && q >= 1 && q + r < s && s == q * 0x1_0000 + r
  {
  }

  /** For every buffer: adding the checksum to its words folds to all ones iff the number of times the
      32-bit accumulator overflows is a multiple of 0xffff. */
  lemma ChecksumVerifiesIff(buf: seq<Byte>)
    ensures 1 <= Checksum(buf) <= 0xffff
    ensures Fold(WordSum(buf) + Checksum(buf)) == 0xffff <==> (WordSum(buf) / M32) % 0xffff == 0
  {
    var sum, c := WordSum(buf), Checksum(buf);
    var q, s := sum / M32, sum % M32;
    FoldIs(s);
    Complement(s, Fold(s), c);
    FoldIs(sum + c);
    hide WordSum, Fold, Checksum;
    Residue(q, s, c);
    assert sum == q * M32 + s;
  }

  lemma Complement(s: nat, f: nat, c: nat)
    requires f == if s == 0 then 0 else (s - 1) % 0xffff + 1
    requires c == if f == 0xffff then 0xffff else 0xffff - f
    ensures 1 <= c <= 0xffff && (s + c) % 0xffff == 0
  {
    if s > 0 {
      var k := (s - 1) / 0xffff;
      assert s == k * 0xffff + f;
      assert s + c == (if f == 0xffff then k + 2 else k + 1) * 0xffff;
    }
  }

  lemma Residue(q: nat, s: nat, c: nat)
    requires 1 <= c <= 0xffff && (s + c) % 0xffff == 0
    ensures (q * M32 + s + c - 1) % 0xffff == 0xfffe <==> q % 0xffff == 0
  {
    var k := (s + c) / 0xffff;
    assert s + c == k * 0xffff;
    assert q * M32 + s + c == (q * 0x1_0001 + k) * 0xffff + q;
    assert (q * M32 + s + c) % 0xffff == q % 0xffff;
  }

  lemma {:induction false} SumBound(buf: seq<Byte>)
    ensures WordSum(buf) <= (|buf| + 1) / 2 * 0xffff
    ensures |buf| % 2 == 1 ==> WordSum(buf) <= |buf| / 2 * 0xffff + 0xff00
  {
    if |buf| >= 2 {
      SumBound(buf[2..]);
    }
  }

  /** Up to 131074 bytes the accumulator cannot overflow, and the checksum verifies. */
  lemma ShortBuffersVerify(buf: seq<Byte>)
    requires |buf| <= 131074
    ensures WordSum(buf) < M32
    ensures Fold(WordSum(buf) + Checksum(buf)) == 0xffff
  {
    hide WordSum, Fold, Checksum;
    SumBound(buf);
    assert (|buf| + 1) / 2 <= 65537;
    ChecksumVerifiesIff(buf);
  }

  function Ones(n: nat): seq<Byte> {
    seq(n, _ => 0xff)
  }

  lemma {:induction false} OnesSum(n: nat)
    ensures WordSum(Ones(n)) == n / 2 * 0xffff + n % 2 * 0xff00
  {
    if n >= 2 {
      OnesSum(n - 2);
      assert Ones(n)[2..] == Ones(n - 2);
    }
  }

  function Zeros(n: nat): seq<Byte> {
    seq(n, _ => 0)
  }

  lemma {:induction false} ZerosSum(n: nat)
    ensures WordSum(Zeros(n)) == 0
  {
    hide WordSum;
    SumStep(Zeros(n));
    if n >= 2 {
      ZerosSum(n - 2);
      assert Zeros(n)[2..] == Zeros(n - 2);
    }
  }

  /** A buffer whose sum overflows exactly once does not verify. */
  lemma OverflowFails(buf: seq<Byte>)
    requires M32 <= WordSum(buf) < 2 * M32
    ensures Fold(WordSum(buf) + Checksum(buf)) != 0xffff
  {
    hide WordSum, Fold, Checksum;
    ChecksumVerifiesIff(buf);
    assert WordSum(buf) / M32 == 1;
  }

  /** A buffer of any greater length whose checksum does not verify. */
  lemma LongerBuffersMayFail(n: nat) returns (buf: seq<Byte>)
    requires n > 131074
    ensures |buf| == n && WordSum(buf) >= M32
    ensures Fold(WordSum(buf) + Checksum(buf)) != 0xffff
  {
    hide WordSum, Fold, Checksum;
    var m := if n == 131075 then n else 131076;
    OnesSum(m);
    buf := Ones(m) + Zeros(n - m);
    if m % 2 == 0 {
      ZerosSum(n - m);
      SumConcat(Ones(m), Zeros(n - m));
    } else {
      assert Ones(m) + Zeros(n - m) == Ones(m);
    }
    OverflowFails(buf);
  }

  /** 131074 bytes is the largest length at which every checksum verifies. */
  lemma AlwaysVerifiesIff(n: nat)
    ensures n <= 131074 <==> forall buf: seq<Byte> :: |buf| == n ==> Fold(WordSum(buf) + Checksum(buf)) == 0xffff
  {
    hide WordSum, Fold, Checksum;
    if n <= 131074 {
      forall buf: seq<Byte> | |buf| == n ensures Fold(WordSum(buf) + Checksum(buf)) == 0xffff {
        ShortBuffersVerify(buf);
      }
    } else {
      var buf := LongerBuffersMayFail(n);
    }
  }

  // ---------------------------------------------------------------- packets

  lemma {:induction false} SumConcat(a: seq<Byte>, b: seq<Byte>)
    requires |a| % 2 == 0
    ensures WordSum(a + b) == WordSum(a) + WordSum(b)
  {
    if a == [] {
      assert a + b == b;
    } else {
      SumConcat(a[2..], b);
      assert (a + b)[2..] == a[2..] + b;
    }
  }

  function Bytes16(w: Word): (bs: seq<Byte>)
    ensures |bs| == 2 && Be16(bs[0], bs[1]) == w && w == 256 * bs[0] as int + bs[1] as int
  {
    [w / 256, w % 256]
  }

  /** A buffer verifies when its words fold to all ones. */
  predicate Verifies(buf: seq<Byte>) {
    Fold(WordSum(buf)) == 0xffff
  }

  /** The number of overflows of the accumulator is a multiple of 0xffff. */
  predicate OverflowsCancel(buf: seq<Byte>) {
    (WordSum(buf) / M32) % 0xffff == 0
  }

  /** Writing the checksum of a buffer into a zero field at an even offset makes the buffer verify, iff the
      number of overflows is a multiple of 0xffff; up to 131074 bytes it always does. */
  lemma FilledFieldVerifies(front: seq<Byte>, back: seq<Byte>)
    requires |front| % 2 == 0
    ensures var zero := front + Bytes16(0) + back;
            var c := Checksum(zero);
            && 0 < c < 0x1_0000
            && (Verifies(front + Bytes16(c) + back) <==> OverflowsCancel(zero))
            && (|zero| <= 131074 ==> Verifies(front + Bytes16(c) + back))
  {
    hide WordSum, Fold, Checksum, Bytes16;
    var zero := front + Bytes16(0) + back;
    var c := Checksum(zero);
    ChecksumVerifiesIff(zero);
    if |zero| <= 131074 {
      ShortBuffersVerify(zero);
    }
    FieldSum(front, 0, back);
    FieldSum(front, c, back);
  }

  lemma FieldSum(front: seq<Byte>, c: Word, back: seq<Byte>)
    requires |front| % 2 == 0
    ensures WordSum(front + Bytes16(c) + back) == WordSum(front) + c + WordSum(back)
  {
    SumConcat(front + Bytes16(c), back);
    SumConcat(front, Bytes16(c));
    assert Bytes16(c)[2..] == [];
  }

  const IPPROTO_UDP: Byte := 17

  /** The IPv4 header as the program lays it out: it has no identification field, hence 18 bytes. */
  class IpHeader {
    const vhl: Byte
    const tos: Byte
    const iplen: Word
    const off: Word
    const ttl: Byte
    const proto: Byte
    var csum: Word
    const src: seq<Byte>
    const dst: seq<Byte>

    constructor (iplen: Word, proto: Byte, src: seq<Byte>, dst: seq<Byte>)
      requires |src| == 4 && |dst| == 4
      ensures vhl == 0x45 && tos == 0 && off == 0 && ttl == 64 && csum == 0
      ensures this.iplen == iplen && this.proto == proto && this.src == src && this.dst == dst
    {
      this.vhl, this.tos, this.iplen, this.off, this.ttl, this.proto := 0x45, 0, iplen, 0, 64, proto;
      this.csum, this.src, this.dst := 0, src, dst;
    }

    function Front(): (bs: seq<Byte>)
      ensures |bs| == 8
    {
      [vhl, tos] + Bytes16(iplen) + Bytes16(off) + [ttl, proto]
    }

    function Bytes(): seq<Byte>
      reads this
    {
      Front() + Bytes16(csum) + (src + dst)
    }

    method SetChecksum()
      requires |src| == 4 && |dst| == 4
      modifies this`csum
      ensures csum != 0 && Verifies(Bytes())
    {
      csum := 0;
      FilledFieldVerifies(Front(), src + dst);
      csum := ComputeChecksum(Bytes());
    }
  }

  class UdpHeader {
    const src: Word
    const dst: Word
    const ulen: Word
    var csum: Word

    constructor (src: Word, dst: Word, ulen: Word)
      ensures this.src == src && this.dst == dst && this.ulen == ulen && csum == 0
    {
      this.src, this.dst, this.ulen, this.csum := src, dst, ulen, 0;
    }

    function Front(): (bs: seq<Byte>)
      ensures |bs| == 6 && bs[4..6] == Bytes16(ulen)
    {
      Bytes16(src) + Bytes16(dst) + Bytes16(ulen)
    }

    function Bytes(): (bs: seq<Byte>)
      reads this
      ensures |bs| == 8 && bs[4..6] == Bytes16(ulen)
      ensures bs[..6] == Bytes16(src) + Bytes16(dst) + Bytes16(ulen) && bs[..2] == Bytes16(src)
    {
      Front() + Bytes16(csum)
    }

    /** What the checksum covers, with `c` in the checksum field. */
    function Covered(ip: IpHeader, payload: seq<Byte>, c: Word): seq<Byte> {
      Pseudo(ip.src, ip.dst, ip.proto, Bytes16(ulen)) + (Front() + Bytes16(c)) + payload
    }

    lemma CoveredParts(ip: IpHeader, payload: seq<Byte>, c: Word)
      requires |ip.src| == 4 && |ip.dst| == 4
      ensures var front := Pseudo(ip.src, ip.dst, ip.proto, Bytes16(ulen)) + Front();
              |front| == 18 && Covered(ip, payload, c) == front + Bytes16(c) + payload
    {
      hide UdpHeader.Front;
      Reassociate(Pseudo(ip.src, ip.dst, ip.proto, Bytes16(ulen)), Front(), Bytes16(c));
    }

    method SetChecksum(ip: IpHeader, payload: seq<Byte>)
      requires |ip.src| == 4 && |ip.dst| == 4
      modifies this`csum
      ensures csum != 0
      ensures Verifies(Covered(ip, payload, csum)) <==> OverflowsCancel(Covered(ip, payload, 0))
      ensures |payload| <= 131054 ==> Verifies(Covered(ip, payload, csum))
    {
      hide WordSum, Fold, Checksum, Pseudo, Bytes16, UdpHeader.Front, UdpHeader.Covered, Verifies, OverflowsCancel;
      csum := 0;
      var all := Covered(ip, payload, csum);
      CoveredParts(ip, payload, 0);
      FilledFieldVerifies(Pseudo(ip.src, ip.dst, ip.proto, Bytes16(ulen)) + Front(), payload);
      csum := ComputeChecksum(all);
      CoveredParts(ip, payload, csum);
    }
  }

  /** The pseudo header that the UDP checksum covers. */
  function Pseudo(src: seq<Byte>, dst: seq<Byte>, proto: Byte, ulen: seq<Byte>): (bs: seq<Byte>)
    ensures |bs| == |src| + |dst| + 2 + |ulen|
  {
    src + dst + [0, proto] + ulen
  }

  /** Both checksums verify on the layout that the program writes: 18 header bytes without an
      identification field, then the UDP part. */
  predicate LayoutVerifies(packet: seq<Byte>) {
    && |packet| >= 26
    && Verifies(packet[..18])
    && Verifies(packet[10..14] + packet[14..18] + [0, packet[7]] + packet[22..24] + packet[18..])
  }

  /** The header length that the packet itself states, in its first byte. */
  function HeaderLength(packet: seq<Byte>): nat
    requires packet != []
  {
    4 * (packet[0] % 16)
  }

  /** What a receiver checks of the header, reading it as section 3.1 of RFC 791 lays it out. */
  predicate HeaderVerifies(packet: seq<Byte>) {
    packet != [] && HeaderLength(packet) <= |packet| && Verifies(packet[..HeaderLength(packet)])
  }

  /** A verifying buffer followed by one more word verifies iff that word is a zero of one's-complement
      arithmetic. */
  lemma WordAfterVerified(front: seq<Byte>, w: Word)
    requires |front| % 2 == 0 && Verifies(front)
    ensures Verifies(front + Bytes16(w)) <==> w == 0 || w == 0xffff
  {
    hide WordSum, Fold, Bytes16;
    var sum := WordSum(front);
    FieldSum(front, w, []);
    assert front + Bytes16(w) + [] == front + Bytes16(w);
    EmptySum();
    FoldIs(sum);
    FoldIs(sum + w);
    NextMultiple(sum, w);
  }

  lemma EmptySum()
    ensures WordSum([]) == 0
  {
  }

  lemma NextMultiple(sum: nat, w: Word)
    requires sum > 0 && (sum - 1) % 0xffff == 0xfffe
    ensures (sum + w - 1) % 0xffff == 0xfffe <==> w == 0 || w == 0xffff
  {
    var k := (sum - 1) / 0xffff;
    assert sum + w - 1 == k * 0xffff + (0xfffe + w);
    ModShift(k, 0xfffe + w);
    if w == 0 {
      SmallMod(0xfffe, 0xffff);
    } else {
      ModShift(1, w - 1);
    }
  }

  /** Where the fields of a packet lie. */
  lemma PacketSlices(front: seq<Byte>, csum: seq<Byte>, src: seq<Byte>, dst: seq<Byte>, u: seq<Byte>, payload: seq<Byte>)
    requires |front| == 8 && |csum| == 2 && |src| == 4 && |dst| == 4 && |u| == 8
    ensures var bb := front + csum + (src + dst) + u + payload;
            && |bb| == 26 + |payload|
            && bb[..18] == front + csum + (src + dst) && bb[18..] == u + payload
            && bb[..8] == front && bb[0] == front[0] && bb[1] == front[1] && bb[6] == front[6] && bb[2..4] == front[2..4]
            && bb[4] == front[4] && bb[5] == front[5] && bb[18..20] == u[..2] && bb[..20] == bb[..18] + bb[18..20]
            && bb[7] == front[7] && bb[10..14] == src && bb[14..18] == dst && bb[10..18] == src + dst
            && bb[18..24] == u[..6] && bb[22..24] == u[4..6] && bb[26..] == payload
  {
  }

  lemma LayoutHolds(front: seq<Byte>, csum: seq<Byte>, src: seq<Byte>, dst: seq<Byte>, u: seq<Byte>, payload: seq<Byte>)
    requires |front| == 8 && |csum| == 2 && |src| == 4 && |dst| == 4 && |u| == 8
    requires Verifies(front + csum + (src + dst)) && Verifies(Pseudo(src, dst, front[7], u[4..6]) + u + payload)
    ensures LayoutVerifies(front + csum + (src + dst) + u + payload)
  {
    hide Verifies;
    PacketSlices(front, csum, src, dst, u, payload);
    Reassociate(Pseudo(src, dst, front[7], u[4..6]), u, payload);
  }

  /** Where everything stands in a packet: a first byte that states a header of 20 bytes, a length two more than
      the packet has, no type of service, no offset, 64 hops, UDP, addresses, ports, UDP length, payload. */
  predicate PacketFields(p: seq<Byte>, src: seq<Byte>, dst: seq<Byte>, srcPort: Word, dstPort: Word, payload: seq<Byte>)
    requires 28 + |payload| <= 0xffff
  {
    && |p| == 26 + |payload|
    && HeaderLength(p) == 20 && p[0] == 0x45 && p[1] == 0 && p[2..4] == Bytes16(|p| + 2)
    && p[4] == 0 && p[5] == 0 && p[6] == 64 && p[7] == 17
    && p[10..18] == src + dst
    && p[18..20] == Bytes16(srcPort) && p[20..22] == Bytes16(dstPort) && p[22..24] == Bytes16(8 + |payload|)
    && p[26..] == payload
  }

  lemma FieldsHold(front: seq<Byte>, csum: seq<Byte>, src: seq<Byte>, dst: seq<Byte>, u: seq<Byte>, payload: seq<Byte>,
                   srcPort: Word, dstPort: Word)
    requires |front| == 8 && |csum| == 2 && |src| == 4 && |dst| == 4 && |u| == 8 && 28 + |payload| <= 0xffff
    requires front == [0x45, 0] + Bytes16(28 + |payload|) + Bytes16(0) + [64, 17]
    requires u[..6] == Bytes16(srcPort) + Bytes16(dstPort) + Bytes16(8 + |payload|)
    ensures PacketFields(front + csum + (src + dst) + u + payload, src, dst, srcPort, dstPort, payload)
  {
    hide *;
    FrontParts(front, Bytes16(28 + |payload|), Bytes16(0));
    UdpParts(u, Bytes16(srcPort), Bytes16(dstPort), Bytes16(8 + |payload|));
    ZeroBytes();
    PacketSlices(front, csum, src, dst, u, payload);
    var bb := front + csum + (src + dst) + u + payload;
    Subslices(bb, u);
    FieldsFit(bb, src, dst, srcPort, dstPort, payload);
  }

  lemma FieldsFit(bb: seq<Byte>, src: seq<Byte>, dst: seq<Byte>, srcPort: Word, dstPort: Word, payload: seq<Byte>)
    requires 28 + |payload| <= 0xffff && |bb| == 26 + |payload|
    requires bb[0] == 0x45 && bb[1] == 0 && bb[2..4] == Bytes16(28 + |payload|) && bb[4] == 0 && bb[5] == 0
    requires bb[6] == 64 && bb[7] == 17 && bb[10..18] == src + dst && bb[26..] == payload
    requires bb[18..20] == Bytes16(srcPort) && bb[20..22] == Bytes16(dstPort) && bb[22..24] == Bytes16(8 + |payload|)
    ensures PacketFields(bb, src, dst, srcPort, dstPort, payload)
  {
    hide Bytes16;
  }

  lemma FrontParts(front: seq<Byte>, len: seq<Byte>, off: seq<Byte>)
    requires |len| == 2 && |off| == 2 && front == [0x45, 0] + len + off + [64, 17]
    ensures front[0] == 0x45 && front[1] == 0 && front[2..4] == len && front[4] == off[0] && front[5] == off[1] && front[6] == 64 && front[7] == 17
  {
  }

  lemma UdpParts(u: seq<Byte>, a: seq<Byte>, b: seq<Byte>, c: seq<Byte>)
    requires |u| == 8 && |a| == 2 && |b| == 2 && |c| == 2 && u[..6] == a + b + c
    ensures u[..2] == a && u[2..4] == b && u[4..6] == c
  {
    assert u[..2] == u[..6][..2] && u[2..4] == u[..6][2..4] && u[4..6] == u[..6][4..6];
  }

  lemma Subslices(bb: seq<Byte>, u: seq<Byte>)
    requires |bb| >= 26 && |u| == 8 && bb[18..24] == u[..6]
    ensures bb[18..20] == u[..2] && bb[20..22] == u[2..4] && bb[22..24] == u[4..6]
  {
    var s := bb[18..24];
    assert bb[18..20] == s[..2] && bb[20..22] == s[2..4] && bb[22..24] == s[4..6];
  }

  /** Read with the length it states, a header of 20 bytes ends with the source port. */
  lemma HeaderIff(h: seq<Byte>, u: seq<Byte>, payload: seq<Byte>, port: Word)
    requires |h| == 18 && h[0] == 0x45 && |u| == 8 && u[..2] == Bytes16(port) && Verifies(h)
    ensures HeaderVerifies(h + u + payload) <==> port == 0 || port == 0xffff
  {
    hide Verifies, Bytes16;
    var bb := h + u + payload;
    assert bb[0] == 0x45 && bb[..20] == h + u[..2];
    WordAfterVerified(h, port);
  }

  lemma ZeroBytes()
    ensures Bytes16(0) == [0, 0]
  {
  }

  lemma FrontIs(ip: IpHeader)
    ensures ip.Front() == [ip.vhl, ip.tos] + Bytes16(ip.iplen) + Bytes16(ip.off) + [ip.ttl, ip.proto]
  {
  }

  lemma UdpCovered(udp: UdpHeader, ip: IpHeader, payload: seq<Byte>)
    ensures udp.Covered(ip, payload, udp.csum)
         == Pseudo(ip.src, ip.dst, ip.proto, Bytes16(udp.ulen)) + udp.Bytes() + payload
  {
  }

  /** Both checksums of every packet verify on the layout written, and exactly the payloads that do not fit
      are refused. The first byte states a header of 20 bytes, though: read so, the header verifies iff the
      source port is 0 or 0xffff, and the length field is two more than the packet. */
  method BuildRawUdpIp(srcIP: seq<Byte>, dstIP: seq<Byte>, srcPort: Word, dstPort: Word, payload: seq<Byte>)
    returns (packet: Option<seq<Byte>>)
    requires |srcIP| == 4 && |dstIP| == 4
    ensures packet.None? <==> 28 + |payload| > 0xffff
    ensures packet.Some? ==>
              && PacketFields(packet.value, srcIP, dstIP, srcPort, dstPort, payload)
              && LayoutVerifies(packet.value)
              && (HeaderVerifies(packet.value) <==> srcPort == 0 || srcPort == 0xffff)
  {
    hide WordSum, Fold, Bytes16, Pseudo, Verifies, OverflowsCancel, LayoutVerifies, HeaderVerifies, PacketFields;
    hide IpHeader.Front, UdpHeader.Front, UdpHeader.Bytes, UdpHeader.Covered;
    var udplen := 8 + |payload|;
    var totalLen := 20 + udplen;
    if totalLen > 0xffff {
      return None;
    }
    var ip := new IpHeader(totalLen, IPPROTO_UDP, srcIP, dstIP);
    ip.SetChecksum();
    var udp := new UdpHeader(srcPort, dstPort, udplen);
    udp.SetChecksum(ip, payload);
    var h, u := ip.Bytes(), udp.Bytes();
    var bb := h + u + payload;
    UdpCovered(udp, ip, payload);
    FrontIs(ip);
    FieldsHold(ip.Front(), Bytes16(ip.csum), srcIP, dstIP, u, payload, srcPort, dstPort);
    LayoutHolds(ip.Front(), Bytes16(ip.csum), srcIP, dstIP, u, payload);
    HeaderIff(h, u, payload, srcPort);
    return Some(bb);
  }
}
