/** MILENAGE over an arbitrary 128-bit block cipher: the in-place buffer code of f1 and f2345 against the
    formulas of section 4.1 of 3GPP TS 35.206, and the AUTN and AUTS generate/verify pairs. */
module Milenages {

  type Bytes = seq<bv8>

  /** E(key, block); the cipher itself is not part of this model. */
  type Cipher = (Bytes, Bytes) -> Bytes

  ghost predicate BlockCipher(E: Cipher) {
    forall k, b :: |E(k, b)| == 16
  }

  // ---------------------------------------------------------------- the standard's formulas

  function Xor(a: Bytes, b: Bytes): (r: Bytes)
    requires |a| == |b|
    ensures |r| == |a| && forall i :: 0 <= i < |a| ==> r[i] == a[i] ^ b[i]
  {
    seq(|a|, i requires 0 <= i < |a| => a[i] ^ b[i])
  }

  /** Cyclic rotation to the left by `r` bits, for the multiples of 8 that the standard uses. */
  function Rot(x: Bytes, r: nat): (y: Bytes)
    requires |x| == 16 && r % 8 == 0 && r <= 128
    ensures |y| == 16
  {
    x[r / 8..] + x[..r / 8]
  }

  /** The constants c1..c5: fifteen zero bytes and one last byte. */
  function C(last: bv8): (c: Bytes)
    ensures |c| == 16
  {
    [0, 0, 0, 0, 0, 0, 0, 0, 0, 0, 0, 0, 0, 0, 0, last]
  }

  datatype Params = Params(E: Cipher, opc: Bytes, k: Bytes, rand: Bytes) {
    ghost predicate Ok() {
      BlockCipher(E) && |opc| == 16 && |k| == 16 && |rand| == 16
    }

    /** TEMP = E[RAND xor OPc]_K */
    ghost function Temp(): (t: Bytes)
      requires Ok()
      ensures |t| == 16
    {
      E(k, Xor(rand, opc))
    }

    /** OUT1 = E[TEMP xor rot(IN1 xor OPc, r1) xor c1]_K xor OPc with IN1 = SQN || AMF || SQN || AMF */
    ghost function Out1(sqn: Bytes, amf: Bytes): (o: Bytes)
      requires Ok() && |sqn| == 6 && |amf| == 2
      ensures |o| == 16
    {
      Xor(E(k, Xor(Xor(Temp(), Rot(Xor(sqn + amf + sqn + amf, opc), 64)), C(0))), opc)
    }

    /** OUTn = E[rot(TEMP xor OPc, rn) xor cn]_K xor OPc, for n = 2..5 */
    ghost function Out(r: nat, c: bv8): (o: Bytes)
      requires Ok() && r % 8 == 0 && r <= 128
      ensures |o| == 16
    {
      Xor(E(k, Xor(Rot(Xor(Temp(), opc), r), C(c))), opc)
    }

    ghost function MacA(sqn: Bytes, amf: Bytes): Bytes
      requires Ok() && |sqn| == 6 && |amf| == 2
    {
      Out1(sqn, amf)[..8]
    }

    ghost function MacS(sqn: Bytes, amf: Bytes): Bytes
      requires Ok() && |sqn| == 6 && |amf| == 2
    {
      Out1(sqn, amf)[8..]
    }

    ghost function Res(): Bytes requires Ok() { Out(0, 1)[8..] }

    ghost function Ak(): Bytes requires Ok() { Out(0, 1)[..6] }

    ghost function Ck(): Bytes requires Ok() { Out(32, 2) }

    ghost function Ik(): Bytes requires Ok() { Out(64, 4) }

    ghost function AkStar(): Bytes requires Ok() { Out(96, 8)[..6] }
  }

  /** Bit `i` of a block, counted from the most significant bit of its first byte. */
  function Bit(x: Bytes, i: nat): bv8
    requires |x| == 16 && i < 128
  {
    (x[i / 8] >> (7 - i % 8)) & 1
  }

  /** `Rot` is the rotation of the 128-bit word: bit `i` of the result is bit `i + r` of the block. */
  lemma RotIsBitRotation(x: Bytes, r: nat, i: nat)
    requires |x| == 16 && r % 8 == 0 && r <= 128 && i < 128
    ensures Bit(Rot(x, r), i) == Bit(x, (i + r) % 128)
  {
    var b := r / 8;
    BitIndex(r, b, i);
    RotByte(x, r, i / 8);
  }

  /** Byte `m` of the rotated block. */
  lemma RotByte(x: Bytes, r: nat, m: nat)
    requires |x| == 16 && r % 8 == 0 && r <= 128 && m < 16
    ensures Rot(x, r)[m] == if m + r / 8 < 16 then x[m + r / 8] else x[m + r / 8 - 16]
  {
  }

  /** Where bit `i + r` of a block lies. */
  lemma BitIndex(r: nat, b: nat, i: nat)
    requires r == 8 * b && b <= 16 && i < 128
    ensures (i + r) % 128 % 8 == i % 8
    ensures (i + r) % 128 / 8 == if i / 8 + b < 16 then i / 8 + b else i / 8 + b - 16
  {
    var m, d := i / 8, i % 8;
    assert i + r == 8 * (m + b) + d;
    if m + b < 16 {
      assert (i + r) % 128 == 8 * (m + b) + d;
    } else {
      assert (i + r) % 128 == 8 * (m + b - 16) + d;
    }
  }

  // ---------------------------------------------------------------- buffer code

  /** dst = a xor b */
  method FillXor(dst: array<bv8>, a: Bytes, b: Bytes)
    requires dst.Length <= |a| && dst.Length <= |b|
    modifies dst
    ensures dst[..] == Xor(a[..dst.Length], b[..dst.Length])
  {
    for i := 0 to dst.Length
      invariant forall j :: 0 <= j < i ==> dst[j] == a[j] ^ b[j]
    {
      dst[i] := a[i] ^ b[i];
    }
  }

  /** dst ^= b, in place */
  method XorInto(dst: array<bv8>, b: Bytes)
    requires dst.Length <= |b|
    modifies dst
    ensures dst[..] == Xor(old(dst[..]), b[..dst.Length])
  {
    for i := 0 to dst.Length
      invariant forall j :: 0 <= j < i ==> dst[j] == old(dst[j]) ^ b[j]
      invariant forall j :: i <= j < dst.Length ==> dst[j] == old(dst[j])
    {
      dst[i] := dst[i] ^ b[i];
    }
  }

  /** Write a xor b into dst rotated by `bytes` bytes; every old byte of dst is overwritten. */
  method FillRotated(dst: array<bv8>, a: Bytes, b: Bytes, bytes: nat)
    requires dst.Length == 16 && |a| == 16 && |b| == 16 && 0 < bytes < 16
    modifies dst
    ensures dst[..] == Rot(Xor(a, b), 8 * bytes)
  {
    for i := 0 to 16
      invariant forall j :: 0 <= j < i ==> dst[if j < bytes then j + 16 - bytes else j - bytes] == a[j] ^ b[j]
    {
      dst[(i + (16 - bytes)) % 16] := a[i] ^ b[i];
    }
    forall m | 0 <= m < 16 ensures dst[m] == Rot(Xor(a, b), 8 * bytes)[m] {
      var j := if m + bytes < 16 then m + bytes else m + bytes - 16;
      assert dst[if j < bytes then j + 16 - bytes else j - bytes] == a[j] ^ b[j];
    }
    assert dst[..] == Rot(Xor(a, b), 8 * bytes);
  }

  /** block.Encrypt(dst, src); dst and src may be the same buffer. */
  method Encrypt(E: Cipher, k: Bytes, dst: array<bv8>, src: array<bv8>)
    requires BlockCipher(E) && dst.Length == 16
    modifies dst
    ensures dst[..] == E(k, old(src[..]))
  {
    CopyInto(dst, 0, E(k, src[..]));
  }

  /** copy(dst[at:], s) */
  method CopyInto(dst: array<bv8>, at: nat, s: Bytes)
    requires at + |s| <= dst.Length
    modifies dst
    ensures dst[..] == old(dst[..at]) + s + old(dst[at + |s|..])
  {
    for i := 0 to |s|
      invariant forall j :: 0 <= j < at ==> dst[j] == old(dst[j])
      invariant forall j :: 0 <= j < i ==> dst[at + j] == s[j]
      invariant forall j :: at + i <= j < dst.Length ==> dst[j] == old(dst[j])
    {
      dst[at + i] := s[i];
    }
    assert dst[..at] == old(dst[..at]);
    assert dst[at..at + |s|] == s;
    assert dst[at + |s|..] == old(dst[at + |s|..]);
    assert dst[..] == dst[..at] + dst[at..at + |s|] + dst[at + |s|..];
  }

  /** The last byte of a block is changed by a constant. */
  lemma XorLastByte(x: Bytes, c: bv8)
    requires |x| == 16
    ensures Xor(x, C(c)) == x[15 := x[15] ^ c]
  {
  }

  lemma XorZero(x: Bytes)
    requires |x| == 16
    ensures Xor(x, C(0)) == x
  {
  }

  lemma XorComm(a: Bytes, b: Bytes)
    requires |a| == |b|
    ensures Xor(a, b) == Xor(b, a)
  {
  }

  lemma XorCancels(a: Bytes, b: Bytes)
    requires |a| == |b|
    ensures Xor(Xor(a, b), b) == a
  {
  }

  // ---------------------------------------------------------------- the formulas byte by byte

  /** RAND xor OPc */
  function Masked(rand: Bytes, opc: Bytes): Bytes
    requires |rand| == 16 && |opc| == 16
  {
    seq(16, j requires 0 <= j < 16 => rand[j] ^ opc[j])
  }

  /** Byte `j` of the block encrypted: that of TEMP xor OPc `shift` bytes further on, with `c` in the last. */
  function ShiftedByte(temp: Bytes, opc: Bytes, shift: nat, c: bv8, j: nat): bv8
    requires |temp| == 16 && |opc| == 16
  {
    var i := (j + shift) % 16;
    if j == 15 then temp[i] ^ opc[i] ^ c else temp[i] ^ opc[i]
  }

  function Shifted(temp: Bytes, opc: Bytes, shift: nat, c: bv8): (b: Bytes)
    requires |temp| == 16 && |opc| == 16
    ensures |b| == 16 && forall j :: 0 <= j < 16 ==> b[j] == ShiftedByte(temp, opc, shift, c, j)
  {
    seq(16, j requires 0 <= j < 16 => ShiftedByte(temp, opc, shift, c, j))
  }

  /** `out` is OUTn of section 4.1 for the rotation by `shift` bytes and the constant ending in `c`. */
  ghost predicate IsOut(E: Cipher, k: Bytes, rand: Bytes, opc: Bytes, shift: nat, c: bv8, out: Bytes)
    requires BlockCipher(E) && |rand| == 16 && |opc| == 16
  {
    var block := E(k, Shifted(E(k, Masked(rand, opc)), opc, shift, c));
    |out| == 16 && forall j :: 0 <= j < 16 ==> out[j] == block[j] ^ opc[j]
  }

  /** Byte `j` of TEMP xor rot(IN1 xor OPc), the rotation being by eight bytes */
  function MixedByte(temp: Bytes, in1: Bytes, opc: Bytes, j: nat): bv8
    requires |temp| == 16 && |in1| == 16 && |opc| == 16 && j < 16
  {
    var i := (j + 8) % 16;
    temp[j] ^ (in1[i] ^ opc[i])
  }

  function Mixed(temp: Bytes, in1: Bytes, opc: Bytes): (b: Bytes)
    requires |temp| == 16 && |in1| == 16 && |opc| == 16
    ensures |b| == 16 && forall j :: 0 <= j < 16 ==> b[j] == MixedByte(temp, in1, opc, j)
  {
    seq(16, j requires 0 <= j < 16 => MixedByte(temp, in1, opc, j))
  }

  /** `out` is OUT1 of section 4.1. */
  ghost predicate IsOut1(E: Cipher, k: Bytes, rand: Bytes, opc: Bytes, sqn: Bytes, amf: Bytes, out: Bytes)
    requires BlockCipher(E) && |rand| == 16 && |opc| == 16 && |sqn| == 6 && |amf| == 2
  {
    var block := E(k, Mixed(E(k, Masked(rand, opc)), sqn + amf + sqn + amf, opc));
    |out| == 16 && forall j :: 0 <= j < 16 ==> out[j] == block[j] ^ opc[j]
  }

  lemma TempBytes(p: Params)
    requires p.Ok()
    ensures p.Temp() == p.E(p.k, Masked(p.rand, p.opc))
  {
    assert Xor(p.rand, p.opc) == Masked(p.rand, p.opc);
  }

  lemma RotBytes(x: Bytes, bytes: nat, j: nat)
    requires |x| == 16 && bytes < 16 && j < 16
    ensures Rot(x, 8 * bytes)[j] == x[(j + bytes) % 16]
  {
  }

  lemma OutBytes(p: Params, bytes: nat, c: bv8)
    requires p.Ok() && bytes < 16
    ensures IsOut(p.E, p.k, p.rand, p.opc, bytes, c, p.Out(8 * bytes, c))
  {
    hide Xor, Rot, C, Shifted, Masked;
    TempBytes(p);
    BlockBytes(p.Temp(), p.opc, bytes, c);
  }

  lemma BlockBytes(temp: Bytes, opc: Bytes, bytes: nat, c: bv8)
    requires |temp| == 16 && |opc| == 16 && bytes < 16
    ensures Xor(Rot(Xor(temp, opc), 8 * bytes), C(c)) == Shifted(temp, opc, bytes, c)
  {
    hide Rot, C, Xor, Shifted, ShiftedByte;
    var x := Xor(temp, opc);
    var rotated := Rot(x, 8 * bytes);
    XorLastByte(rotated, c);
    var s := Shifted(temp, opc, bytes, c);
    forall j | 0 <= j < 16 ensures rotated[15 := rotated[15] ^ c][j] == s[j] {
      RotBytes(x, bytes, j);
      ShiftedAt(temp, opc, bytes, c, j);
    }
    assert rotated[15 := rotated[15] ^ c] == s;
  }

  lemma ShiftedAt(temp: Bytes, opc: Bytes, bytes: nat, c: bv8, j: nat)
    requires |temp| == 16 && |opc| == 16 && j < 16
    ensures var b := Xor(temp, opc)[(j + bytes) % 16];
            ShiftedByte(temp, opc, bytes, c, j) == if j == 15 then b ^ c else b
  {
    hide Xor;
  }

  lemma Formula1(p: Params, sqn: Bytes, amf: Bytes)
    requires p.Ok() && |sqn| == 6 && |amf| == 2
    ensures IsOut1(p.E, p.k, p.rand, p.opc, sqn, amf, p.Out1(sqn, amf))
    ensures p.MacA(sqn, amf) == p.Out1(sqn, amf)[..8] && p.MacS(sqn, amf) == p.Out1(sqn, amf)[8..16]
  {
    hide Xor, Rot, Mixed, Masked;
    TempBytes(p);
    var temp, in1 := p.Temp(), sqn + amf + sqn + amf;
    XorZero(Xor(temp, Rot(Xor(in1, p.opc), 64)));
    MixedBytes(temp, in1, p.opc);
  }

  lemma MixedBytes(temp: Bytes, in1: Bytes, opc: Bytes)
    requires |temp| == 16 && |in1| == 16 && |opc| == 16
    ensures Xor(temp, Rot(Xor(in1, opc), 64)) == Mixed(temp, in1, opc)
  {
    hide Rot, Xor, Mixed;
    var x := Xor(in1, opc);
    var rotated := Rot(x, 64);
    forall j | 0 <= j < 16 ensures Xor(temp, rotated)[j] == Mixed(temp, in1, opc)[j] {
      RotBytes(x, 8, j);
    }
    assert Xor(temp, rotated) == Mixed(temp, in1, opc);
  }

  lemma Formulas2345(p: Params)
    requires p.Ok()
    ensures IsOut(p.E, p.k, p.rand, p.opc, 4, 2, p.Ck()) && IsOut(p.E, p.k, p.rand, p.opc, 8, 4, p.Ik())
    ensures IsOut(p.E, p.k, p.rand, p.opc, 0, 1, p.Out(0, 1)) && p.Ak() == p.Out(0, 1)[..6] && p.Res() == p.Out(0, 1)[8..16]
    ensures IsOut(p.E, p.k, p.rand, p.opc, 12, 8, p.Out(96, 8)) && p.AkStar() == p.Out(96, 8)[..6]
  {
    hide Params.Out, IsOut;
    OutBytes(p, 0, 1);
    OutBytes(p, 4, 2);
    OutBytes(p, 8, 4);
    OutBytes(p, 12, 8);
  }

  /** f1 and f1*: MAC-A and MAC-S. */
  method F1(p: Params, sqn: Bytes, amf: Bytes) returns (macA: Bytes, macS: Bytes)
    requires p.Ok() && |sqn| == 6 && |amf| == 2
    ensures macA == p.MacA(sqn, amf) && macS == p.MacS(sqn, amf)
    ensures exists out1 :: IsOut1(p.E, p.k, p.rand, p.opc, sqn, amf, out1) && macA == out1[..8] && macS == out1[8..16]
  {
    hide IsOut1;
    Formula1(p, sqn, amf);
    var input := new bv8[16];
    FillXor(input, p.rand, p.opc);
    assert input[..] == Xor(p.rand, p.opc) by { assert p.rand[..16] == p.rand && p.opc[..16] == p.opc; }
    var tmp1 := new bv8[16];
    Encrypt(p.E, p.k, tmp1, input);
    ghost var temp := p.Temp();
    assert tmp1[..] == temp;

    var tmp2 := In1Buffer(sqn, amf);
    var tmp3 := new bv8[16];
    FillRotated(tmp3, tmp2, p.opc, 8);
    ghost var rotated := tmp3[..];
    XorInto(tmp3, tmp1[..]);
    assert tmp3[..] == Xor(rotated, temp) by { assert temp[..16] == temp; }
    XorComm(rotated, temp);
    XorZero(tmp3[..]);

    tmp1 := new bv8[16];
    Encrypt(p.E, p.k, tmp1, tmp3);
    XorInto(tmp1, p.opc);
    assert p.opc[..16] == p.opc;
    assert tmp1[..] == p.Out1(sqn, amf);
    macA, macS := tmp1[0..8], tmp1[8..16];
    assert tmp1[..][..8] == tmp1[0..8] && tmp1[..][8..] == tmp1[8..16];
  }

  /** tmp2 = SQN || AMF || SQN || AMF, built by copying its first half onto its second. */
  method In1Buffer(sqn: Bytes, amf: Bytes) returns (in1: Bytes)
    requires |sqn| == 6 && |amf| == 2
    ensures in1 == sqn + amf + sqn + amf
  {
    var tmp2 := new bv8[16];
    CopyInto(tmp2, 0, sqn);
    CopyInto(tmp2, 6, amf);
    assert tmp2[0..8] == sqn + amf;
    CopyInto(tmp2, 8, tmp2[0..8]);
    in1 := tmp2[..];
  }

  /** E[rot(TEMP xor OPc, r) xor c]_K into `dst`, through the shared scratch buffer. */
  method EncryptRotated(p: Params, dst: array<bv8>, scratch: array<bv8>, temp: Bytes, bytes: nat, c: bv8)
    requires p.Ok() && dst.Length == 16 && scratch.Length == 16 && temp == p.Temp() && bytes < 16
    modifies dst, scratch
    ensures Xor(dst[..], p.opc) == p.Out(8 * bytes, c)
  {
    if bytes == 0 {
      FillXor(scratch, temp, p.opc);
      assert temp[..16] == temp && p.opc[..16] == p.opc;
      assert Rot(Xor(temp, p.opc), 0) == Xor(temp, p.opc);
    } else {
      FillRotated(scratch, temp, p.opc, bytes);
    }
    ghost var rotated := scratch[..];
    scratch[15] := scratch[15] ^ c;
    XorLastByte(rotated, c);
    assert scratch[..] == Xor(rotated, C(c));
    Encrypt(p.E, p.k, dst, scratch);
  }

  /** The same block xor OPc, which is OUTn. */
  method OutInto(p: Params, dst: array<bv8>, scratch: array<bv8>, temp: Bytes, bytes: nat, c: bv8)
    requires p.Ok() && dst.Length == 16 && scratch.Length == 16 && temp == p.Temp() && bytes < 16
    modifies dst, scratch
    ensures dst[..] == p.Out(8 * bytes, c)
  {
    EncryptRotated(p, dst, scratch, temp, bytes, c);
    XorInto(dst, p.opc);
    assert p.opc[..16] == p.opc;
  }

  /** f2, f3, f4, f5 and f5*: one scratch buffer serves all four blocks, and the last block is encrypted
      in place, only its first six bytes being combined with OPc. */
  method F2345(p: Params) returns (res: Bytes, ck: Bytes, ik: Bytes, ak: Bytes, akstar: Bytes)
    requires p.Ok()
    ensures res == p.Res() && ck == p.Ck() && ik == p.Ik() && ak == p.Ak() && akstar == p.AkStar()
    ensures IsOut(p.E, p.k, p.rand, p.opc, 4, 2, ck) && IsOut(p.E, p.k, p.rand, p.opc, 8, 4, ik)
    ensures exists out2 :: IsOut(p.E, p.k, p.rand, p.opc, 0, 1, out2) && ak == out2[..6] && res == out2[8..16]
    ensures exists out5 :: IsOut(p.E, p.k, p.rand, p.opc, 12, 8, out5) && akstar == out5[..6]
  {
    hide Params.Out, IsOut;
    Formulas2345(p);
    var tmp1 := new bv8[16];
    FillXor(tmp1, p.rand, p.opc);
    assert tmp1[..] == Xor(p.rand, p.opc) by { assert p.rand[..16] == p.rand && p.opc[..16] == p.opc; }
    var tmp2 := new bv8[16];
    Encrypt(p.E, p.k, tmp2, tmp1);
    var temp := tmp2[..];

    var tmp3 := new bv8[16];
    OutInto(p, tmp3, tmp1, temp, 0, 1);
    res, ak := tmp3[8..16], tmp3[0..6];
    assert res == tmp3[..][8..] && ak == tmp3[..][..6];

    var ckBuf := new bv8[16];
    OutInto(p, ckBuf, tmp1, temp, 4, 2);
    ck := ckBuf[..];

    var ikBuf := new bv8[16];
    OutInto(p, ikBuf, tmp1, temp, 8, 4);
    ik := ikBuf[..];

    EncryptRotated(p, tmp1, tmp1, temp, 12, 8);
    var akBuf := new bv8[6];
    FillXor(akBuf, tmp1[..], p.opc);
    XorFirst(tmp1[..], p.opc, 6);
    akstar := akBuf[..];
  }

  lemma XorFirst(a: Bytes, b: Bytes, n: nat)
    requires |a| == |b| && n <= |a|
    ensures Xor(a[..n], b[..n]) == Xor(a, b)[..n]
  {
  }

  // ---------------------------------------------------------------- AUTN and AUTS

  datatype Error =
    | ParameterLength(name: string, exact: nat, expected: nat)
    | MacFailure(macName: string, expectedMac: Bytes, exactMac: Bytes)

  datatype Result<T> = Ok(value: T) | Err(error: Error)

  datatype Keys = Keys(ik: Bytes, ck: Bytes, res: Bytes)

  function ValidateArg(arg: Bytes, name: string, expected: nat, rest: Result<()>): Result<()> {
    if |arg| != expected then Err(ParameterLength(name, |arg|, expected)) else rest
  }

  function ValidateParams(p: Params, rest: Result<()>): Result<()> {
    ValidateArg(p.opc, "OPc", 16, ValidateArg(p.k, "K", 16, ValidateArg(p.rand, "RAND", 16, rest)))
  }

  /** xor of the common length of both arguments. */
  function XorShort(a: Bytes, b: Bytes): Bytes {
    var n := if |a| > |b| then |b| else |a|;
    Xor(a[..n], b[..n])
  }

  const RESYNCH_AMF: Bytes := [0, 0]

  ghost function AkaParameters(p: Params, sqn: Bytes, amf: Bytes): Result<(Keys, Bytes)>
    requires BlockCipher(p.E)
  {
    var valid := ValidateParams(p, ValidateArg(sqn, "SQN", 6, ValidateArg(amf, "AMF", 2, Ok(()))));
    if valid.Err? then Err(valid.error)
    else
      var autn := XorShort(sqn, p.Ak()) + (amf + p.MacA(sqn, amf));
      Ok((Keys(p.Ik(), p.Ck(), p.Res()), autn))
  }

  /** CutAUTN for a token of the right length. */
  function CutAUTN(autn: Bytes): (Bytes, Bytes, Bytes)
    requires |autn| == 16
  {
    (autn[..6], autn[6..8], autn[8..16])
  }

  function CutAUTS(auts: Bytes): (Bytes, Bytes)
    requires |auts| == 14
  {
    (auts[..6], auts[6..14])
  }

  /** The SQN recovered from the token, AK and the keys; or the error. */
  ghost function KeysFromAutn(p: Params, autn: Bytes): Result<(Bytes, Bytes, Keys)>
    requires BlockCipher(p.E)
  {
    var valid := ValidateParams(p, ValidateArg(autn, "AUTN", 16, Ok(())));
    if valid.Err? then Err(valid.error)
    else
      var (conc, amf, xmac) := CutAUTN(autn);
      var sqn := XorShort(conc, p.Ak());
      var mac := p.MacA(sqn, amf);
      if xmac != mac then Err(MacFailure("MAC-A", xmac, mac))
      else Ok((sqn, p.Ak(), Keys(p.Ik(), p.Ck(), p.Res())))
  }

  ghost function AutsFor(p: Params, sqnms: Bytes): Result<Bytes>
    requires BlockCipher(p.E)
  {
    var valid := ValidateParams(p, ValidateArg(sqnms, "SQNms", 6, Ok(())));
    if valid.Err? then Err(valid.error)
    else Ok(XorShort(sqnms, p.AkStar()) + p.MacS(sqnms, RESYNCH_AMF))
  }

  ghost function AutsChecked(p: Params, auts: Bytes): Result<(Bytes, Bytes)>
    requires BlockCipher(p.E)
  {
    var valid := ValidateParams(p, ValidateArg(auts, "AUTS", 14, Ok(())));
    if valid.Err? then Err(valid.error)
    else
      var (conc, macS) := CutAUTS(auts);
      var sqnms := XorShort(conc, p.AkStar());
      var xmacS := p.MacS(sqnms, RESYNCH_AMF);
      if xmacS != macS then Err(MacFailure("MAC-S", xmacS, macS)) else Ok((sqnms, p.AkStar()))
  }

  lemma XorShortCancels(a: Bytes, b: Bytes)
    requires |a| == |b|
    ensures XorShort(XorShort(a, b), b) == a
  {
    assert a[..|a|] == a && b[..|b|] == b;
    XorCancels(a, b);
    assert Xor(a, b)[..|a|] == Xor(a, b);
  }

  /** AUTN = SQN xor AK || AMF || MAC-A, and verification undoes generation: the same SQN, the same keys,
      and AK. */
  lemma AutnRoundTrip(p: Params, sqn: Bytes, amf: Bytes)
    requires BlockCipher(p.E) && AkaParameters(p, sqn, amf).Ok?
    ensures var (keys, autn) := AkaParameters(p, sqn, amf).value;
            && autn == Xor(sqn, p.Ak()) + amf + p.MacA(sqn, amf)
            && KeysFromAutn(p, autn) == Ok((sqn, p.Ak(), keys)) && CutAUTN(autn).1 == amf
  {
    hide Params.Out1, Params.Out;
    var (keys, autn) := AkaParameters(p, sqn, amf).value;
    var conc, mac := XorShort(sqn, p.Ak()), p.MacA(sqn, amf);
    assert autn == conc + (amf + mac) == conc + amf + mac;
    assert autn[..6] == conc && autn[6..8] == amf && autn[8..16] == mac;
    XorShortCancels(sqn, p.Ak());
    assert sqn[..6] == sqn && p.Ak()[..6] == p.Ak();
  }

  /** A token is accepted iff it is the one generated for the SQN and AMF recovered from it; any other
      token of the right length is a MAC-A failure. */
  lemma AutnAcceptedIff(p: Params, autn: Bytes)
    requires p.Ok() && |autn| == 16
    ensures var sqn, amf := XorShort(autn[..6], p.Ak()), autn[6..8];
            && (KeysFromAutn(p, autn).Ok? <==> AkaParameters(p, sqn, amf).value.1 == autn)
            && (KeysFromAutn(p, autn).Ok? ==>
                  KeysFromAutn(p, autn).value == (sqn, p.Ak(), AkaParameters(p, sqn, amf).value.0))
            && (KeysFromAutn(p, autn).Err? ==>
                  KeysFromAutn(p, autn).error == MacFailure("MAC-A", autn[8..16], p.MacA(sqn, amf)))
  {
    hide Params.Out1, Params.Out;
    var conc, amf := autn[..6], autn[6..8];
    var sqn := XorShort(conc, p.Ak());
    XorShortCancels(conc, p.Ak());
    var mac := p.MacA(sqn, amf);
    var made := AkaParameters(p, sqn, amf).value.1;
    assert made == conc + (amf + mac);
    assert made[8..16] == mac;
    assert autn == conc + (amf + autn[8..16]);
  }

  /** No two (SQN, AMF) pairs share a token. */
  lemma AutnInjective(p: Params, sqn: Bytes, amf: Bytes, sqn': Bytes, amf': Bytes)
    requires BlockCipher(p.E)
    requires AkaParameters(p, sqn, amf).Ok? && AkaParameters(p, sqn', amf').Ok?
    requires AkaParameters(p, sqn, amf).value.1 == AkaParameters(p, sqn', amf').value.1
    ensures sqn == sqn' && amf == amf'
  {
    hide AkaParameters, KeysFromAutn;
    AutnRoundTrip(p, sqn, amf);
    AutnRoundTrip(p, sqn', amf');
  }

  /** AUTS = SQNms xor AK* || MAC-S over the all-zero AMF, and validation undoes generation. */
  lemma AutsRoundTrip(p: Params, sqnms: Bytes)
    requires BlockCipher(p.E) && AutsFor(p, sqnms).Ok?
    ensures AutsFor(p, sqnms).value == Xor(sqnms, p.AkStar()) + p.MacS(sqnms, [0, 0])
    ensures AutsChecked(p, AutsFor(p, sqnms).value) == Ok((sqnms, p.AkStar()))
  {
    hide Params.Out1, Params.Out;
    var auts := AutsFor(p, sqnms).value;
    var conc, mac := XorShort(sqnms, p.AkStar()), p.MacS(sqnms, RESYNCH_AMF);
    assert auts == conc + mac;
    assert auts[..6] == conc && auts[6..14] == mac;
    XorShortCancels(sqnms, p.AkStar());
    assert sqnms[..6] == sqnms && p.AkStar()[..6] == p.AkStar();
  }

  /** An AUTS is accepted iff it is the one generated for the SQNms it carries. */
  lemma AutsAcceptedIff(p: Params, auts: Bytes)
    requires p.Ok() && |auts| == 14
    ensures var sqnms := XorShort(auts[..6], p.AkStar());
            && (AutsChecked(p, auts).Ok? <==> AutsFor(p, sqnms) == Ok(auts))
            && (AutsChecked(p, auts).Ok? ==> AutsChecked(p, auts).value == (sqnms, p.AkStar()))
            && (AutsChecked(p, auts).Err? ==>
                  AutsChecked(p, auts).error == MacFailure("MAC-S", p.MacS(sqnms, RESYNCH_AMF), auts[6..14]))
  {
    hide Params.Out1, Params.Out;
    var conc := auts[..6];
    var sqnms := XorShort(conc, p.AkStar());
    XorShortCancels(conc, p.AkStar());
    var made := AutsFor(p, sqnms).value;
    assert made == conc + p.MacS(sqnms, RESYNCH_AMF);
    assert made[6..14] == p.MacS(sqnms, RESYNCH_AMF);
    assert auts == conc + auts[6..14];
  }

  // ---------------------------------------------------------------- the program

  /** xor of the common length, into a new buffer. */
  method XorCopy(a: Bytes, b: Bytes) returns (out: Bytes)
    ensures out == XorShort(a, b)
  {
    var outLen := if |a| > |b| then |b| else |a|;
    var buf := new bv8[outLen];
    FillXor(buf, a, b);
    out := buf[..];
  }

  /** The token generated is one that verification accepts, returning SQN and the same keys. */
  method GenerateAKAParameters(p: Params, sqn: Bytes, amf: Bytes) returns (r: Result<(Keys, Bytes)>)
    requires BlockCipher(p.E)
    ensures r == AkaParameters(p, sqn, amf)
    ensures r.Ok? <==> p.Ok() && |sqn| == 6 && |amf| == 2
    ensures r.Ok? ==> KeysFromAutn(p, r.value.1) == Ok((sqn, p.Ak(), r.value.0))
    ensures |p.opc| != 16 ==> r == Err(ParameterLength("OPc", |p.opc|, 16))
    ensures |p.opc| == 16 != |p.k| ==> r == Err(ParameterLength("K", |p.k|, 16))
    ensures |p.opc| == 16 == |p.k| && |p.rand| != 16 ==> r == Err(ParameterLength("RAND", |p.rand|, 16))
    ensures |p.opc| == 16 == |p.k| && |p.rand| == 16 && |sqn| != 6 ==> r == Err(ParameterLength("SQN", |sqn|, 6))
    ensures |p.opc| == 16 == |p.k| && |p.rand| == 16 && |sqn| == 6 && |amf| != 2 ==> r == Err(ParameterLength("AMF", |amf|, 2))
  {
    var valid := ValidateParams(p, ValidateArg(sqn, "SQN", 6, ValidateArg(amf, "AMF", 2, Ok(()))));
    if valid.Err? {
      return Err(valid.error);
    }
    hide Params.Out, Params.Out1;
    var mac, _ := F1(p, sqn, amf);
    var res, ck, ik, ak, _ := F2345(p);
    var conc := XorCopy(sqn, ak);
    AutnRoundTrip(p, sqn, amf);
    return Ok((Keys(ik, ck, res), conc + (amf + mac)));
  }

  /** A token accepted is the one generated for the SQN returned, with the keys returned. */
  method GenerateKeysWithAUTN(p: Params, autn: Bytes) returns (r: Result<(Bytes, Bytes, Keys)>)
    requires BlockCipher(p.E)
    ensures r == KeysFromAutn(p, autn)
    ensures r.Ok? ==> |autn| == 16 && AkaParameters(p, r.value.0, autn[6..8]) == Ok((r.value.2, autn))
    ensures |p.opc| != 16 ==> r == Err(ParameterLength("OPc", |p.opc|, 16))
    ensures |p.opc| == 16 != |p.k| ==> r == Err(ParameterLength("K", |p.k|, 16))
    ensures |p.opc| == 16 == |p.k| && |p.rand| != 16 ==> r == Err(ParameterLength("RAND", |p.rand|, 16))
    ensures |p.opc| == 16 == |p.k| && |p.rand| == 16 && |autn| != 16 ==> r == Err(ParameterLength("AUTN", |autn|, 16))
  {
    var valid := ValidateParams(p, ValidateArg(autn, "AUTN", 16, Ok(())));
    if valid.Err? {
      return Err(valid.error);
    }
    hide Params.Out, Params.Out1;
    var res, ck, ik, ak, _ := F2345(p);
    var (conc, amf, xmac) := CutAUTN(autn);
    var sqn := XorCopy(conc, ak);
    var mac, _ := F1(p, sqn, amf);
    if xmac != mac {
      return Err(MacFailure("MAC-A", xmac, mac));
    }
    AutnAcceptedIff(p, autn);
    return Ok((sqn, ak, Keys(ik, ck, res)));
  }

  /** The AUTS generated is one that validation accepts, returning SQNms. */
  method GenerateAUTS(p: Params, sqnms: Bytes) returns (r: Result<Bytes>)
    requires BlockCipher(p.E)
    ensures r == AutsFor(p, sqnms)
    ensures r.Ok? <==> p.Ok() && |sqnms| == 6
    ensures r.Ok? ==> AutsChecked(p, r.value) == Ok((sqnms, p.AkStar()))
    ensures |p.opc| != 16 ==> r == Err(ParameterLength("OPc", |p.opc|, 16))
    ensures |p.opc| == 16 != |p.k| ==> r == Err(ParameterLength("K", |p.k|, 16))
    ensures |p.opc| == 16 == |p.k| && |p.rand| != 16 ==> r == Err(ParameterLength("RAND", |p.rand|, 16))
    ensures |p.opc| == 16 == |p.k| && |p.rand| == 16 && |sqnms| != 6 ==> r == Err(ParameterLength("SQNms", |sqnms|, 6))
  {
    var valid := ValidateParams(p, ValidateArg(sqnms, "SQNms", 6, Ok(())));
    if valid.Err? {
      return Err(valid.error);
    }
    hide Params.Out, Params.Out1;
    var _, _, _, _, akstar := F2345(p);
    var conc := XorCopy(sqnms, akstar);
    var _, macS := F1(p, sqnms, RESYNCH_AMF);
    AutsRoundTrip(p, sqnms);
    return Ok(conc + macS);
  }

  /** An AUTS accepted is the one generated for the SQNms returned. */
  method ValidateAUTS(p: Params, auts: Bytes) returns (r: Result<(Bytes, Bytes)>)
    requires BlockCipher(p.E)
    ensures r == AutsChecked(p, auts)
    ensures r.Ok? ==> AutsFor(p, r.value.0) == Ok(auts)
    ensures |p.opc| != 16 ==> r == Err(ParameterLength("OPc", |p.opc|, 16))
    ensures |p.opc| == 16 != |p.k| ==> r == Err(ParameterLength("K", |p.k|, 16))
    ensures |p.opc| == 16 == |p.k| && |p.rand| != 16 ==> r == Err(ParameterLength("RAND", |p.rand|, 16))
    ensures |p.opc| == 16 == |p.k| && |p.rand| == 16 && |auts| != 14 ==> r == Err(ParameterLength("AUTS", |auts|, 14))
  {
    var valid := ValidateParams(p, ValidateArg(auts, "AUTS", 14, Ok(())));
    if valid.Err? {
      return Err(valid.error);
    }
    hide Params.Out, Params.Out1;
    var (conc, macS) := CutAUTS(auts);
    var _, _, _, _, akstar := F2345(p);
    var sqnms := XorCopy(conc, akstar);
    var _, xmacS := F1(p, sqnms, RESYNCH_AMF);
    if xmacS != macS {
      return Err(MacFailure("MAC-S", xmacS, macS));
    }
    AutsAcceptedIff(p, auts);
    return Ok((sqnms, akstar));
  }

  /** OPc = E[OP]_K xor OP. */
  method GenerateOPc(E: Cipher, k: Bytes, op: Bytes) returns (opc: Result<Bytes>)
    requires BlockCipher(E)
    ensures |k| != 16 ==> opc == Err(ParameterLength("K", |k|, 16))
    ensures |k| == 16 && |op| != 16 ==> opc == Err(ParameterLength("OP", |op|, 16))
    ensures |k| == 16 && |op| == 16 ==> opc.Ok? && |opc.value| == 16 && Xor(opc.value, op) == E(k, op)
  {
    var valid := ValidateArg(k, "K", 16, ValidateArg(op, "OP", 16, Ok(())));
    if valid.Err? {
      return Err(valid.error);
    }
    var input, buf := new bv8[16], new bv8[16];
    CopyInto(input, 0, op);
    assert input[..] == op;
    Encrypt(E, k, buf, input);
    XorInto(buf, op);
    assert op[..16] == op;
    XorCancels(E(k, op), op);
    return Ok(buf[..]);
  }
}
