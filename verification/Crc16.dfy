// CRC-16/CCITT (dev/module/crc/crc16.c): the table-driven loop is polynomial division by
// x^16 + x^12 + x^5 + 1 (ITU-T Recommendation V.41).
module Crc16 {
  import opened Nor

  // ---- Polynomials of degree below 16 with coefficients modulo 2 ----

  type Poly = bv16

  function Coeffs(b: bv8): Poly { b as bv16 }

  lemma CoeffsLaws(a: bv8, b: bv8)
    ensures Coeffs(b) < 0x100
    ensures Coeffs(a) == Coeffs(b) ==> a == b
  {
  }

  predicate Top(p: Poly) { p & 0x8000 != 0 }

  function Add(p: Poly, q: Poly): Poly { p ^ q }

  function Shl(p: Poly): Poly { p << 1 }

  lemma TopAdds(p: Poly, q: Poly)
    ensures Top(Add(p, q)) == (Top(p) != Top(q))
  {
  }

  lemma ShlAdds(p: Poly, q: Poly)
    ensures Shl(Add(p, q)) == Add(Shl(p), Shl(q))
  {
  }

  lemma AddLaws(p: Poly, q: Poly, r: Poly)
    ensures Add(Add(p, q), r) == Add(Add(p, r), q) == Add(p, Add(q, r))
    ensures Add(Add(p, r), Add(q, r)) == Add(p, q)
  {
  }

  lemma AddZero(p: Poly)
    ensures Add(p, 0) == p && Add(0, p) == p
  {
  }

  // ---- Division, one message bit at a time ----

  // x^12 + x^5 + 1; the x^16 term is implied.
  function Generator(): Poly { 0x1021 }

  function BitStep(r: Poly, bit: bool): Poly {
    if Top(r) != bit then Add(Shl(r), Generator()) else Shl(r)
  }

  // `n` steps that take the leading bits of `d`.
  function Steps(n: nat, r: Poly, d: Poly): Poly
    decreases n
  {
    if n == 0 then r else Steps(n - 1, BitStep(r, Top(d)), Shl(d))
  }

  // A byte at the leading end of the register.
  function Raise(p: Poly): Poly { p << 8 }

  function Shift8(r: Poly): Poly {
    BitStep(BitStep(BitStep(BitStep(BitStep(BitStep(BitStep(BitStep(r,
      false), false), false), false), false), false), false), false)
  }

  // ---- The program ----

  // crc16_ccitt_table, sixteen entries a row.
  function Row0(i: bv8): bv16 {
    match i
    case 0 => 0x0000 case 1 => 0x1021 case 2 => 0x2042 case 3 => 0x3063 case 4 => 0x4084 case 5 => 0x50A5 case 6 => 0x60C6 case 7 => 0x70E7
    case 8 => 0x8108 case 9 => 0x9129 case 10 => 0xA14A case 11 => 0xB16B case 12 => 0xC18C case 13 => 0xD1AD case 14 => 0xE1CE case _ => 0xF1EF
  }

  function Row1(i: bv8): bv16 {
    match i
    case 0 => 0x1231 case 1 => 0x0210 case 2 => 0x3273 case 3 => 0x2252 case 4 => 0x52B5 case 5 => 0x4294 case 6 => 0x72F7 case 7 => 0x62D6
    case 8 => 0x9339 case 9 => 0x8318 case 10 => 0xB37B case 11 => 0xA35A case 12 => 0xD3BD case 13 => 0xC39C case 14 => 0xF3FF case _ => 0xE3DE
  }

  function Row2(i: bv8): bv16 {
    match i
    case 0 => 0x2462 case 1 => 0x3443 case 2 => 0x0420 case 3 => 0x1401 case 4 => 0x64E6 case 5 => 0x74C7 case 6 => 0x44A4 case 7 => 0x5485
    case 8 => 0xA56A case 9 => 0xB54B case 10 => 0x8528 case 11 => 0x9509 case 12 => 0xE5EE case 13 => 0xF5CF case 14 => 0xC5AC case _ => 0xD58D
  }

  function Row3(i: bv8): bv16 {
    match i
    case 0 => 0x3653 case 1 => 0x2672 case 2 => 0x1611 case 3 => 0x0630 case 4 => 0x76D7 case 5 => 0x66F6 case 6 => 0x5695 case 7 => 0x46B4
    case 8 => 0xB75B case 9 => 0xA77A case 10 => 0x9719 case 11 => 0x8738 case 12 => 0xF7DF case 13 => 0xE7FE case 14 => 0xD79D case _ => 0xC7BC
  }

  function Row4(i: bv8): bv16 {
    match i
    case 0 => 0x48C4 case 1 => 0x58E5 case 2 => 0x6886 case 3 => 0x78A7 case 4 => 0x0840 case 5 => 0x1861 case 6 => 0x2802 case 7 => 0x3823
    case 8 => 0xC9CC case 9 => 0xD9ED case 10 => 0xE98E case 11 => 0xF9AF case 12 => 0x8948 case 13 => 0x9969 case 14 => 0xA90A case _ => 0xB92B
  }

  function Row5(i: bv8): bv16 {
    match i
    case 0 => 0x5AF5 case 1 => 0x4AD4 case 2 => 0x7AB7 case 3 => 0x6A96 case 4 => 0x1A71 case 5 => 0x0A50 case 6 => 0x3A33 case 7 => 0x2A12
    case 8 => 0xDBFD case 9 => 0xCBDC case 10 => 0xFBBF case 11 => 0xEB9E case 12 => 0x9B79 case 13 => 0x8B58 case 14 => 0xBB3B case _ => 0xAB1A
  }

  function Row6(i: bv8): bv16 {
    match i
    case 0 => 0x6CA6 case 1 => 0x7C87 case 2 => 0x4CE4 case 3 => 0x5CC5 case 4 => 0x2C22 case 5 => 0x3C03 case 6 => 0x0C60 case 7 => 0x1C41
    case 8 => 0xEDAE case 9 => 0xFD8F case 10 => 0xCDEC case 11 => 0xDDCD case 12 => 0xAD2A case 13 => 0xBD0B case 14 => 0x8D68 case _ => 0x9D49
  }

  function Row7(i: bv8): bv16 {
    match i
    case 0 => 0x7E97 case 1 => 0x6EB6 case 2 => 0x5ED5 case 3 => 0x4EF4 case 4 => 0x3E13 case 5 => 0x2E32 case 6 => 0x1E51 case 7 => 0x0E70
    case 8 => 0xFF9F case 9 => 0xEFBE case 10 => 0xDFDD case 11 => 0xCFFC case 12 => 0xBF1B case 13 => 0xAF3A case 14 => 0x9F59 case _ => 0x8F78
  }

  function Row8(i: bv8): bv16 {
    match i
    case 0 => 0x9188 case 1 => 0x81A9 case 2 => 0xB1CA case 3 => 0xA1EB case 4 => 0xD10C case 5 => 0xC12D case 6 => 0xF14E case 7 => 0xE16F
    case 8 => 0x1080 case 9 => 0x00A1 case 10 => 0x30C2 case 11 => 0x20E3 case 12 => 0x5004 case 13 => 0x4025 case 14 => 0x7046 case _ => 0x6067
  }

  function Row9(i: bv8): bv16 {
    match i
    case 0 => 0x83B9 case 1 => 0x9398 case 2 => 0xA3FB case 3 => 0xB3DA case 4 => 0xC33D case 5 => 0xD31C case 6 => 0xE37F case 7 => 0xF35E
    case 8 => 0x02B1 case 9 => 0x1290 case 10 => 0x22F3 case 11 => 0x32D2 case 12 => 0x4235 case 13 => 0x5214 case 14 => 0x6277 case _ => 0x7256
  }

  function RowA(i: bv8): bv16 {
    match i
    case 0 => 0xB5EA case 1 => 0xA5CB case 2 => 0x95A8 case 3 => 0x8589 case 4 => 0xF56E case 5 => 0xE54F case 6 => 0xD52C case 7 => 0xC50D
    case 8 => 0x34E2 case 9 => 0x24C3 case 10 => 0x14A0 case 11 => 0x0481 case 12 => 0x7466 case 13 => 0x6447 case 14 => 0x5424 case _ => 0x4405
  }

  function RowB(i: bv8): bv16 {
    match i
    case 0 => 0xA7DB case 1 => 0xB7FA case 2 => 0x8799 case 3 => 0x97B8 case 4 => 0xE75F case 5 => 0xF77E case 6 => 0xC71D case 7 => 0xD73C
    case 8 => 0x26D3 case 9 => 0x36F2 case 10 => 0x0691 case 11 => 0x16B0 case 12 => 0x6657 case 13 => 0x7676 case 14 => 0x4615 case _ => 0x5634
  }

  function RowC(i: bv8): bv16 {
    match i
    case 0 => 0xD94C case 1 => 0xC96D case 2 => 0xF90E case 3 => 0xE92F case 4 => 0x99C8 case 5 => 0x89E9 case 6 => 0xB98A case 7 => 0xA9AB
    case 8 => 0x5844 case 9 => 0x4865 case 10 => 0x7806 case 11 => 0x6827 case 12 => 0x18C0 case 13 => 0x08E1 case 14 => 0x3882 case _ => 0x28A3
  }

  function RowD(i: bv8): bv16 {
    match i
    case 0 => 0xCB7D case 1 => 0xDB5C case 2 => 0xEB3F case 3 => 0xFB1E case 4 => 0x8BF9 case 5 => 0x9BD8 case 6 => 0xABBB case 7 => 0xBB9A
    case 8 => 0x4A75 case 9 => 0x5A54 case 10 => 0x6A37 case 11 => 0x7A16 case 12 => 0x0AF1 case 13 => 0x1AD0 case 14 => 0x2AB3 case _ => 0x3A92
  }

  function RowE(i: bv8): bv16 {
    match i
    case 0 => 0xFD2E case 1 => 0xED0F case 2 => 0xDD6C case 3 => 0xCD4D case 4 => 0xBDAA case 5 => 0xAD8B case 6 => 0x9DE8 case 7 => 0x8DC9
    case 8 => 0x7C26 case 9 => 0x6C07 case 10 => 0x5C64 case 11 => 0x4C45 case 12 => 0x3CA2 case 13 => 0x2C83 case 14 => 0x1CE0 case _ => 0x0CC1
  }

  function RowF(i: bv8): bv16 {
    match i
    case 0 => 0xEF1F case 1 => 0xFF3E case 2 => 0xCF5D case 3 => 0xDF7C case 4 => 0xAF9B case 5 => 0xBFBA case 6 => 0x8FD9 case 7 => 0x9FF8
    case 8 => 0x6E17 case 9 => 0x7E36 case 10 => 0x4E55 case 11 => 0x5E74 case 12 => 0x2E93 case 13 => 0x3EB2 case 14 => 0x0ED1 case _ => 0x1EF0
  }

  function Table(i: bv8): bv16 {
    var j := i & 0xf;
    match i >> 4
    case 0 => Row0(j)
    case 1 => Row1(j)
    case 2 => Row2(j)
    case 3 => Row3(j)
    case 4 => Row4(j)
    case 5 => Row5(j)
    case 6 => Row6(j)
    case 7 => Row7(j)
    case 8 => Row8(j)
    case 9 => Row9(j)
    case 10 => RowA(j)
    case 11 => RowB(j)
    case 12 => RowC(j)
    case 13 => RowD(j)
    case 14 => RowE(j)
    case _ => RowF(j)
  }

  function TableIndex(crc: Poly, b: Poly): bv8 { (((crc >> 8) ^ b) & 0xff) as bv8 }

  function ByteStep(crc: Poly, b: bv8): Poly {
    Add(Raise(crc), Table(TableIndex(crc, Coeffs(b))))
  }

  function Register(crc: Poly, data: seq<bv8>): Poly
    decreases |data|
  {
    if data == [] then crc else Register(ByteStep(crc, data[0]), data[1..])
  }

  method Crc16Lookup(init: Poly, data: seq<bv8>) returns (crc: Poly)
    ensures crc == Register(init, data)
  {
    hide ByteStep;
    crc := init;
    for i := 0 to |data|
      invariant Register(crc, data[i..]) == Register(init, data)
    {
      assert data[i..][1..] == data[i + 1..];
      crc := ByteStep(crc, data[i]);
    }
  }

  // crc16ccitt over bytes held as integers.
  function Ccitt(init: Poly, data: seq<byte>): u16 {
    Register(init, Octets(data)) as int
  }

  function Octets(data: seq<byte>): (b: seq<bv8>)
    ensures |b| == |data|
  {
    if data == [] then [] else [data[0] as bv8] + Octets(data[1..])
  }

  // Bytes and octets stand for the same numbers.
  lemma {:induction false} OctetIs(b: byte)
    ensures (b as bv8) as int == b
    decreases b
  {
    if b > 0 {
      var o := (b - 1) as bv8;
      OctetIs(b - 1);
      assert o != 255;
      NextOctet(o);
      OctetBack(o + 1);
    }
  }

  lemma NextOctet(o: bv8)
    requires o != 255
    ensures (o + 1) as int == o as int + 1
  {
  }

  lemma OctetBack(o: bv8)
    ensures (o as int) as bv8 == o
  {
  }

  lemma {:induction false} OctetsAre(data: seq<byte>, i: nat)
    requires i < |data|
    ensures Octets(data)[i] as int == data[i]
    decreases i
  {
    if i == 0 {
      OctetIs(data[0]);
    } else {
      OctetsAre(data[1..], i - 1);
    }
  }

  // ---- The table holds the eight-step shifts of its index ----

  lemma TableIsShift0(i: bv8)
    requires i >> 5 == 0
    ensures Table(i) == Shift8(Raise(i as bv16))
  {
    var j := i & 0xf;
    if i >> 4 == 0 {
      assert Row0(j) == Shift8(Raise((j | 0x00) as bv16));
    } else if i >> 4 == 1 {
      assert Row1(j) == Shift8(Raise((j | 0x10) as bv16));
    }
  }

  lemma TableIsShift1(i: bv8)
    requires i >> 5 == 1
    ensures Table(i) == Shift8(Raise(i as bv16))
  {
    var j := i & 0xf;
    if i >> 4 == 2 {
      assert Row2(j) == Shift8(Raise((j | 0x20) as bv16));
    } else if i >> 4 == 3 {
      assert Row3(j) == Shift8(Raise((j | 0x30) as bv16));
    }
  }

  lemma TableIsShift2(i: bv8)
    requires i >> 5 == 2
    ensures Table(i) == Shift8(Raise(i as bv16))
  {
    var j := i & 0xf;
    if i >> 4 == 4 {
      assert Row4(j) == Shift8(Raise((j | 0x40) as bv16));
    } else if i >> 4 == 5 {
      assert Row5(j) == Shift8(Raise((j | 0x50) as bv16));
    }
  }

  lemma TableIsShift3(i: bv8)
    requires i >> 5 == 3
    ensures Table(i) == Shift8(Raise(i as bv16))
  {
    var j := i & 0xf;
    if i >> 4 == 6 {
      assert Row6(j) == Shift8(Raise((j | 0x60) as bv16));
    } else if i >> 4 == 7 {
      assert Row7(j) == Shift8(Raise((j | 0x70) as bv16));
    }
  }

  lemma TableIsShift4(i: bv8)
    requires i >> 5 == 4
    ensures Table(i) == Shift8(Raise(i as bv16))
  {
    var j := i & 0xf;
    if i >> 4 == 8 {
      assert Row8(j) == Shift8(Raise((j | 0x80) as bv16));
    } else if i >> 4 == 9 {
      assert Row9(j) == Shift8(Raise((j | 0x90) as bv16));
    }
  }

  lemma TableIsShift5(i: bv8)
    requires i >> 5 == 5
    ensures Table(i) == Shift8(Raise(i as bv16))
  {
    var j := i & 0xf;
    if i >> 4 == 10 {
      assert RowA(j) == Shift8(Raise((j | 0xA0) as bv16));
    } else if i >> 4 == 11 {
      assert RowB(j) == Shift8(Raise((j | 0xB0) as bv16));
    }
  }

  lemma TableIsShift6(i: bv8)
    requires i >> 5 == 6
    ensures Table(i) == Shift8(Raise(i as bv16))
  {
    var j := i & 0xf;
    if i >> 4 == 12 {
      assert RowC(j) == Shift8(Raise((j | 0xC0) as bv16));
    } else if i >> 4 == 13 {
      assert RowD(j) == Shift8(Raise((j | 0xD0) as bv16));
    }
  }

  lemma TableIsShift7(i: bv8)
    requires i >> 5 == 7
    ensures Table(i) == Shift8(Raise(i as bv16))
  {
    var j := i & 0xf;
    if i >> 4 == 14 {
      assert RowE(j) == Shift8(Raise((j | 0xE0) as bv16));
    } else if i >> 4 == 15 {
      assert RowF(j) == Shift8(Raise((j | 0xF0) as bv16));
    }
  }

  lemma TableIsShift(i: bv8)
    ensures Table(i) == Shift8(Raise(i as bv16))
  {
    hide Table, Shift8;
    match i >> 5
    case 0 => TableIsShift0(i);
    case 1 => TableIsShift1(i);
    case 2 => TableIsShift2(i);
    case 3 => TableIsShift3(i);
    case 4 => TableIsShift4(i);
    case 5 => TableIsShift5(i);
    case 6 => TableIsShift6(i);
    case _ => TableIsShift7(i);
  }

  // ---- One table step is eight division steps ----

  // Message bits may be added to the register ahead of time, or one by one.
  lemma BitStepAhead(r: Poly, d: Poly)
    ensures BitStep(Add(r, d), false) == Add(BitStep(r, Top(d)), Shl(d))
  {
    TopAdds(r, d);
    ShlAdds(r, d);
    AddLaws(Shl(r), Shl(d), Generator());
    hide Top, Add, Shl;
  }

  lemma BitStepAdds(p: Poly, q: Poly)
    ensures BitStep(Add(p, q), false) == Add(BitStep(p, false), BitStep(q, false))
  {
    TopAdds(p, q);
    ShlAdds(p, q);
    AddLaws(Shl(p), Shl(q), Generator());
    hide Top, Add, Shl;
  }

  function ShlBy(n: nat, p: Poly): Poly
    decreases n
  {
    if n == 0 then p else ShlBy(n - 1, Shl(p))
  }

  lemma ZeroPoly()
    ensures Shl(0) == 0 && !Top(0) && BitStep(0, false) == 0
  {
  }

  lemma {:induction false} StepsAhead(n: nat, r: Poly, d: Poly)
    ensures Steps(n, Add(r, d), 0) == Add(Steps(n, r, d), ShlBy(n, d))
    decreases n
  {
    ZeroPoly();
    hide Top, Add, Shl, BitStep;
    if n > 0 {
      BitStepAhead(r, d);
      StepsAhead(n - 1, BitStep(r, Top(d)), Shl(d));
    }
  }

  lemma {:induction false} StepsAdd(n: nat, p: Poly, q: Poly)
    ensures Steps(n, Add(p, q), 0) == Add(Steps(n, p, 0), Steps(n, q, 0))
    decreases n
  {
    ZeroPoly();
    hide Top, Add, Shl, BitStep;
    if n > 0 {
      BitStepAdds(p, q);
      StepsAdd(n - 1, BitStep(p, false), BitStep(q, false));
    }
  }

  // A register whose leading bits are clear is not fed back.
  lemma Shift8Low(p: Poly)
    requires p < 0x100
    ensures Shift8(p) == Raise(p)
  {
    assert BitStep(p, false) == p << 1;
    assert BitStep(p << 1, false) == p << 2;
    assert BitStep(p << 2, false) == p << 3;
    assert BitStep(p << 3, false) == p << 4;
    assert BitStep(p << 4, false) == p << 5;
    assert BitStep(p << 5, false) == p << 6;
    assert BitStep(p << 6, false) == p << 7;
    assert BitStep(p << 7, false) == p << 8;
  }

  lemma StepsIsShift8(p: Poly)
    ensures Steps(8, p, 0) == Shift8(p)
  {
    ZeroPoly();
    hide Top, Add, Shl, BitStep;
    assert Steps(8, p, 0) == Steps(7, BitStep(p, false), 0);
    assert forall q {:trigger Steps(7, q, 0)} :: Steps(7, q, 0) == Steps(5, BitStep(BitStep(q, false), false), 0);
    assert forall q {:trigger Steps(5, q, 0)} :: Steps(5, q, 0) == Steps(3, BitStep(BitStep(q, false), false), 0);
    assert forall q {:trigger Steps(3, q, 0)} :: Steps(3, q, 0) == Steps(1, BitStep(BitStep(q, false), false), 0);
  }

  lemma {:induction false} ShlByAdds(m: nat, n: nat, p: Poly)
    ensures ShlBy(m + n, p) == ShlBy(n, ShlBy(m, p))
    decreases m
  {
    hide Shl;
    if m > 0 {
      ShlByAdds(m - 1, n, Shl(p));
    }
  }

  lemma ShlBy4(p: Poly)
    ensures ShlBy(4, p) == p << 4
  {
    assert ShlBy(4, p) == ShlBy(2, Shl(Shl(p)));
  }

  lemma ShlBy8(p: Poly)
    ensures ShlBy(8, p) == Raise(p)
  {
    ShlByAdds(4, 4, p);
    ShlBy4(p);
    ShlBy4(p << 4);
    hide ShlBy;
  }

  lemma RaiseTwice(p: Poly)
    ensures Raise(Raise(p)) == 0
  {
  }

  // Eight steps over a byte only see the sum of the register and the byte.
  lemma ByteSteps(r: Poly, d: Poly)
    ensures Steps(8, r, Raise(d)) == Shift8(Add(r, Raise(d)))
  {
    RaiseTwice(d);
    StepsAhead(8, r, Raise(d));
    ShlBy8(Raise(d));
    StepsIsShift8(Add(r, Raise(d)));
    AddZero(Steps(8, r, Raise(d)));
    hide Add, Shl, BitStep, Shift8, Top, Raise;
  }

  function Lower(p: Poly): Poly { p & 0xff }

  function Upper(p: Poly): Poly { p & 0xff00 }

  lemma Halves(p: Poly)
    ensures p == Add(Lower(p), Upper(p)) && Lower(p) < 0x100
  {
  }

  lemma Shift8Splits(p: Poly)
    ensures Shift8(p) == Add(Raise(Lower(p)), Shift8(Upper(p)))
  {
    Halves(p);
    Shift8Low(Lower(p));
    StepsAdd(8, Lower(p), Upper(p));
    StepsIsShift8(p);
    StepsIsShift8(Lower(p));
    StepsIsShift8(Upper(p));
    hide Add, Shl, BitStep, Shift8, Top, Raise, Lower, Upper;
  }

  lemma TableIndexIsUpper(r: Poly, d: Poly)
    ensures Raise(TableIndex(r, d) as bv16) == Upper(Add(r, Raise(d)))
    ensures Raise(Lower(Add(r, Raise(d)))) == Raise(r)
  {
  }

  lemma ByteStepIsDivision(r: Poly, b: bv8)
    ensures ByteStep(r, b) == Steps(8, r, Raise(Coeffs(b)))
  {
    var d := Coeffs(b);
    TableIndexIsUpper(r, d);
    TableIsShift(TableIndex(r, d));
    ByteSteps(r, d);
    Shift8Splits(Add(r, Raise(d)));
    hide Table, Shift8, Add, Top, Shl, BitStep, Steps, Raise, TableIndex, Upper, Lower;
  }

  // ---- The reference: long division of a bit string, most significant bit first ----

  type Bits = seq<bool>

  function LeadingBits(n: nat, p: Poly): (b: Bits)
    ensures |b| == n
    decreases n
  {
    if n == 0 then [] else [Top(p)] + LeadingBits(n - 1, Shl(p))
  }

  function Bits16(p: Poly): Bits {
    LeadingBits(16, p)
  }

  // The bits of `b` added to the leading bits of `a`.
  function AddFront(a: Bits, b: Bits): (r: Bits)
    requires |b| <= |a|
    ensures |r| == |a|
  {
    seq(|a|, i requires 0 <= i < |a| => if i < |b| then a[i] != b[i] else a[i])
  }

  // Cancel the leading term with x^16 + x^12 + x^5 + 1 until 16 coefficients are left.
  function Remainder(dividend: Bits): Bits
    requires |dividend| >= 16
    decreases |dividend|
  {
    if |dividend| == 16 then dividend
    else if dividend[0] then Remainder(AddFront(dividend[1..], Bits16(Generator())))
    else Remainder(dividend[1..])
  }

  function MessageBits(data: seq<bv8>): Bits {
    if data == [] then [] else LeadingBits(8, Raise(Coeffs(data[0]))) + MessageBits(data[1..])
  }

  // message(x) * x^16 + crc(x) * x^|message|
  function Dividend(crc: Poly, message: Bits): (d: Bits)
    ensures |d| == |message| + 16
  {
    AddFront(message + seq(16, _ => false), Bits16(crc))
  }

  lemma {:induction false} BitsAdd(n: nat, p: Poly, q: Poly)
    ensures forall i :: 0 <= i < n ==>
              LeadingBits(n, Add(p, q))[i] == (LeadingBits(n, p)[i] != LeadingBits(n, q)[i])
    decreases n
  {
    hide Add, Shl, Top;
    if n > 0 {
      TopAdds(p, q);
      ShlAdds(p, q);
      BitsAdd(n - 1, Shl(p), Shl(q));
    }
  }

  lemma {:induction false} LastBit(n: nat, p: Poly)
    ensures LeadingBits(n + 1, p) == LeadingBits(n, p) + [Top(ShlBy(n, p))]
    decreases n
  {
    hide Shl, Top;
    if n > 0 {
      LastBit(n - 1, Shl(p));
    }
  }

  lemma BitsShl(p: Poly)
    ensures Bits16(p)[0] == Top(p)
    ensures Bits16(Shl(p)) == Bits16(p)[1..] + [false]
  {
    LastBit(15, Shl(p));
    ShlByAdds(8, 8, p);
    ShlBy8(p);
    ShlBy8(Raise(p));
    RaiseTwice(p);
    ZeroPoly();
    hide Shl, Top, Raise;
    assert ShlBy(16, p) == ShlBy(15, Shl(p));
    assert LeadingBits(16, p)[1..] == LeadingBits(15, Shl(p));
  }

  lemma ShiftOut(a: Bits, r: Bits, s: Bits)
    requires |a| > |r| > 0 && s == r[1..] + [false]
    ensures AddFront(a[1..], s) == AddFront(a, r)[1..]
  {
  }

  lemma AddFrontTwice(a: Bits, p: Bits, q: Bits, sum: Bits)
    requires |p| == |q| == |sum| <= |a|
    requires forall i :: 0 <= i < |p| ==> sum[i] == (p[i] != q[i])
    ensures AddFront(AddFront(a, p), q) == AddFront(a, sum)
  {
  }

  lemma DividendShifts(r: Poly, message: Bits)
    requires message != []
    ensures Dividend(r, message)[0] == (message[0] != Top(r))
    ensures Dividend(BitStep(r, message[0]), message[1..]) ==
            var d := Dividend(r, message); if d[0] then AddFront(d[1..], Bits16(Generator())) else d[1..]
  {
    BitsShl(r);
    BitsAdd(16, Shl(r), Generator());
    hide Generator, LeadingBits, Add, Shl, Top;
    var a := message + seq(16, _ => false);
    assert a[1..] == message[1..] + seq(16, _ => false);
    ShiftOut(a, Bits16(r), Bits16(Shl(r)));
    AddFrontTwice(a[1..], Bits16(Shl(r)), Bits16(Generator()), Bits16(Add(Shl(r), Generator())));
    hide AddFront;
  }

  lemma DividendStep(r: Poly, message: Bits)
    requires message != []
    ensures Remainder(Dividend(r, message)) == Remainder(Dividend(BitStep(r, message[0]), message[1..]))
  {
    DividendShifts(r, message);
    hide Bits16, Dividend, Top, Shl, BitStep, AddFront;
  }

  lemma {:induction false} StepsDivide(n: nat, r: Poly, d: Poly, rest: Bits)
    ensures Remainder(Dividend(r, LeadingBits(n, d) + rest)) == Remainder(Dividend(Steps(n, r, d), rest))
    decreases n
  {
    hide Remainder, Dividend, Top, Shl, BitStep;
    if n == 0 {
      assert LeadingBits(0, d) + rest == rest;
    } else {
      var message := LeadingBits(n, d) + rest;
      DividendStep(r, message);
      assert message[1..] == LeadingBits(n - 1, Shl(d)) + rest;
      StepsDivide(n - 1, BitStep(r, Top(d)), Shl(d), rest);
    }
  }

  // The table-driven loop computes the remainder of the division.
  lemma {:induction false} CrcIsDivision(crc: Poly, data: seq<bv8>)
    ensures Bits16(Register(crc, data)) == Remainder(Dividend(crc, MessageBits(data)))
    decreases |data|
  {
    if data == [] {
      assert Dividend(crc, []) == Bits16(crc);
    } else {
      hide Remainder, Dividend, ByteStep, Steps, LeadingBits, Raise, Bits16;
      ByteStepIsDivision(crc, data[0]);
      StepsDivide(8, crc, Raise(Coeffs(data[0])), MessageBits(data[1..]));
      CrcIsDivision(ByteStep(crc, data[0]), data[1..]);
    }
  }

  // ---- What the check can tell apart ----

  lemma {:induction false} CrcComposes(crc: Poly, a: seq<bv8>, b: seq<bv8>)
    ensures Register(crc, a + b) == Register(Register(crc, a), b)
    decreases |a|
  {
    hide ByteStep;
    if a == [] {
      assert a + b == b;
    } else {
      assert (a + b)[1..] == a[1..] + b;
      CrcComposes(ByteStep(crc, a[0]), a[1..], b);
    }
  }

  lemma ShlInjective(p: Poly, q: Poly)
    requires Shl(p) == Shl(q) && Top(p) == Top(q)
    ensures p == q
  {
  }

  // The divisor is odd, so the last bit tells whether it was subtracted.
  lemma ShlIsEven(p: Poly, q: Poly)
    ensures Shl(p) != Add(Shl(q), Generator())
  {
  }

  lemma BitStepInjective(p: Poly, q: Poly)
    requires BitStep(p, false) == BitStep(q, false)
    ensures p == q
  {
    ShlIsEven(p, q);
    ShlIsEven(q, p);
    AddLaws(Shl(p), 0x1021, Generator());
    AddInjective(Shl(p), Shl(q), Generator());
    hide Add, Shl, Top;
    ShlInjective(p, q);
  }

  lemma AddInjective(p: Poly, q: Poly, r: Poly)
    ensures Add(p, r) == Add(q, r) ==> p == q
    ensures Add(r, p) == Add(r, q) ==> p == q
  {
  }

  lemma {:induction false} StepsInjective(n: nat, p: Poly, q: Poly)
    requires Steps(n, p, 0) == Steps(n, q, 0)
    ensures p == q
    decreases n
  {
    ZeroPoly();
    hide Top, Shl, BitStep;
    if n > 0 {
      StepsInjective(n - 1, BitStep(p, false), BitStep(q, false));
      BitStepInjective(p, q);
    }
  }

  // A byte is taken in as a sum, and the sum is then shifted reversibly.
  lemma ByteStepSum(r: Poly, b: bv8)
    ensures ByteStep(r, b) == Steps(8, Add(r, Raise(Coeffs(b))), 0)
  {
    ByteStepIsDivision(r, b);
    ByteSteps(r, Coeffs(b));
    StepsIsShift8(Add(r, Raise(Coeffs(b))));
    hide Raise, Add, Shift8, Steps, ByteStep, Coeffs;
  }

  // Unequal registers stay unequal over equal bytes.
  lemma {:induction false} RegisterInjective(p: Poly, q: Poly, data: seq<bv8>)
    requires Register(p, data) == Register(q, data)
    ensures p == q
    decreases |data|
  {
    hide Raise, Add, Shift8, Steps, ByteStep, Coeffs;
    if data != [] {
      RegisterInjective(ByteStep(p, data[0]), ByteStep(q, data[0]), data[1..]);
      ByteStepSum(p, data[0]);
      ByteStepSum(q, data[0]);
      StepsInjective(8, Add(p, Raise(Coeffs(data[0]))), Add(q, Raise(Coeffs(data[0]))));
      AddInjective(p, q, Raise(Coeffs(data[0])));
    }
  }

  lemma TwoBytes(r: Poly, a: bv8, b: bv8)
    ensures Register(r, [a, b]) == Steps(8, Steps(8, Add(r, Add(Raise(Coeffs(a)), Coeffs(b))), 0), 0)
  {
    var s := ByteStep(r, a);
    var u, d := Add(r, Raise(Coeffs(a))), Coeffs(b);
    CoeffsLaws(b, b);
    hide Raise, Add, Shift8, Steps, ByteStep, Coeffs;
    assert [a, b][1..] == [b];
    assert Register(r, [a, b]) == Register(s, [b]);
    assert Register(s, [b]) == ByteStep(s, b);
    ByteStepSum(r, a);
    ByteStepSum(s, b);
    Shift8Low(d);
    StepsIsShift8(d);
    StepsAdd(8, u, d);
    AddLaws(r, Raise(Coeffs(a)), d);
  }

  lemma BytesInPlace(a: bv8, b: bv8, c: bv8, d: bv8)
    requires Add(Raise(Coeffs(a)), Coeffs(b)) == Add(Raise(Coeffs(c)), Coeffs(d))
    ensures a == c && b == d
  {
    CoeffsLaws(c, a);
    CoeffsLaws(a, c);
    CoeffsLaws(d, b);
    CoeffsLaws(b, d);
    hide Coeffs, Raise, Add;
    LowAndHigh(Coeffs(a), Coeffs(b), Coeffs(c), Coeffs(d));
  }

  lemma LowAndHigh(a: Poly, b: Poly, c: Poly, d: Poly)
    requires a < 0x100 && b < 0x100 && c < 0x100 && d < 0x100
    requires Add(Raise(a), b) == Add(Raise(c), d)
    ensures a == c && b == d
  {
  }

  // Two strings that differ only within two adjacent bytes have different checks.
  lemma CrcSeparates(crc: Poly, before: seq<bv8>, a: bv8, b: bv8, c: bv8, d: bv8, after: seq<bv8>)
    requires [a, b] != [c, d]
    ensures Register(crc, before + [a, b] + after) != Register(crc, before + [c, d] + after)
  {
    hide Raise, Add, Shift8, Steps, ByteStep, Register, Coeffs;
    var r := Register(crc, before);
    CrcComposes(crc, before + [a, b], after);
    CrcComposes(crc, before + [c, d], after);
    CrcComposes(crc, before, [a, b]);
    CrcComposes(crc, before, [c, d]);
    if Register(crc, before + [a, b] + after) == Register(crc, before + [c, d] + after) {
      RegisterInjective(Register(r, [a, b]), Register(r, [c, d]), after);
      TwoBytes(r, a, b);
      TwoBytes(r, c, d);
      var u, v := Add(r, Add(Raise(Coeffs(a)), Coeffs(b))), Add(r, Add(Raise(Coeffs(c)), Coeffs(d)));
      StepsInjective(8, Steps(8, u, 0), Steps(8, v, 0));
      StepsInjective(8, u, v);
      AddInjective(Add(Raise(Coeffs(a)), Coeffs(b)), Add(Raise(Coeffs(c)), Coeffs(d)), r);
      BytesInPlace(a, b, c, d);
    }
  }

  // ---- The same of the check over bytes held as integers ----

  lemma {:induction false} OctetsAdd(a: seq<byte>, b: seq<byte>)
    ensures Octets(a + b) == Octets(a) + Octets(b)
    decreases |a|
  {
    if a == [] {
      assert a + b == b;
    } else {
      assert (a + b)[1..] == a[1..] + b;
      OctetsAdd(a[1..], b);
    }
  }

  // The bits of a byte, the highest first
  lemma ByteBits(b: bv8)
    ensures MessageBits([b]) == [b & 0x80 != 0, b & 0x40 != 0, b & 0x20 != 0, b & 0x10 != 0,
                                 b & 0x08 != 0, b & 0x04 != 0, b & 0x02 != 0, b & 0x01 != 0]
  {
    hide *;
    var p := Raise(Coeffs(b));
    BitsOfOne(b);
    FourBits(4, p);
    FourBits(0, Shl(Shl(Shl(Shl(p)))));
    NoBits(Shl(Shl(Shl(Shl(Shl(Shl(Shl(Shl(p)))))))));
    TopsOf(b);
  }

  lemma NoBits(p: Poly)
    ensures LeadingBits(0, p) == []
  {
  }

  lemma BitsOfOne(b: bv8)
    ensures MessageBits([b]) == LeadingBits(8, Raise(Coeffs(b)))
  {
    hide LeadingBits, Raise, Coeffs;
    assert [b][1..] == [] && MessageBits([]) == [];
  }

  lemma OneBit(n: nat, p: Poly)
    ensures LeadingBits(n + 1, p) == [Top(p)] + LeadingBits(n, Shl(p))
  {
    hide Top, Shl;
  }

  lemma FourBits(n: nat, p: Poly)
    ensures LeadingBits(n + 4, p) ==
            [Top(p), Top(Shl(p)), Top(Shl(Shl(p))), Top(Shl(Shl(Shl(p))))] + LeadingBits(n, Shl(Shl(Shl(Shl(p)))))
  {
    hide *;
    OneBit(n + 3, p);
    OneBit(n + 2, Shl(p));
    OneBit(n + 1, Shl(Shl(p)));
    OneBit(n, Shl(Shl(Shl(p))));
  }

  lemma TopsOf(b: bv8)
    ensures var p := Raise(Coeffs(b));
            && Top(p) == (b & 0x80 != 0) && Top(Shl(p)) == (b & 0x40 != 0)
            && Top(Shl(Shl(p))) == (b & 0x20 != 0) && Top(Shl(Shl(Shl(p)))) == (b & 0x10 != 0)
            && var q := Shl(Shl(Shl(Shl(p))));
               && Top(q) == (b & 0x08 != 0) && Top(Shl(q)) == (b & 0x04 != 0)
               && Top(Shl(Shl(q))) == (b & 0x02 != 0) && Top(Shl(Shl(Shl(q)))) == (b & 0x01 != 0)
  {
  }

  // The check is the remainder of the division of all the bytes' bits.
  lemma CcittIsDivision(init: Poly, data: seq<byte>)
    ensures Bits16(Ccitt(init, data) as Poly) == Remainder(Dividend(init, MessageBits(Octets(data))))
  {
    hide Register, Bits16, Remainder, Dividend, MessageBits, Octets;
    CrcIsDivision(init, Octets(data));
    PolyBack(Register(init, Octets(data)));
  }

  lemma CcittComposes(init: Poly, a: seq<byte>, b: seq<byte>)
    ensures Ccitt(init, a + b) == Ccitt(Ccitt(init, a) as Poly, b)
  {
    hide Register, Octets;
    OctetsAdd(a, b);
    CrcComposes(init, Octets(a), Octets(b));
  }

  lemma {:induction false} OctetsSame(x: seq<byte>, y: seq<byte>, i: nat)
    requires |x| == |y| && i < |x| && x[i] == y[i]
    ensures Octets(x)[i] == Octets(y)[i]
    decreases i
  {
    if i > 0 {
      OctetsSame(x[1..], y[1..], i - 1);
    }
  }

  lemma PolyBack(p: Poly)
    ensures (p as int) as Poly == p
  {
  }

  lemma TwoPlaces(a: seq<bv8>, b: seq<bv8>, i: nat)
    requires |a| == |b| && i + 1 < |a| && forall j :: 0 <= j < |a| && j != i && j != i + 1 ==> a[j] == b[j]
    ensures b == a[..i] + [b[i], b[i + 1]] + a[i + 2..]
  {
  }

  // Strings of bytes that differ, but only within two adjacent bytes, have different checks.
  lemma CcittSeparates(init: Poly, x: seq<byte>, y: seq<byte>, i: nat)
    requires |x| == |y| && x != y && i + 1 < |x| && forall j :: 0 <= j < |x| && j != i && j != i + 1 ==> x[j] == y[j]
    ensures Ccitt(init, x) != Ccitt(init, y)
  {
    hide Register;
    var a, b := Octets(x), Octets(y);
    OctetsAre(x, i);
    OctetsAre(y, i);
    OctetsAre(x, i + 1);
    OctetsAre(y, i + 1);
    forall j | 0 <= j < |x| && j != i && j != i + 1
      ensures a[j] == b[j]
    {
      OctetsSame(x, y, j);
    }
    hide Octets;
    TwoPlaces(a, a, i);
    TwoPlaces(a, b, i);
    CrcSeparates(init, a[..i], a[i], a[i + 1], b[i], b[i + 1], a[i + 2..]);
    PolyBack(Register(init, a));
    PolyBack(Register(init, b));
  }

  // A string of one byte is no exception.
  lemma CcittSeparatesOne(init: Poly, x: byte, y: byte)
    requires x != y
    ensures Ccitt(init, [x]) != Ccitt(init, [y])
  {
    hide Register, Octets;
    CcittSeparates(init, [x, 0], [y, 0], 0);
    assert [x] + [0] == [x, 0] && [y] + [0] == [y, 0];
    CcittComposes(init, [x], [0]);
    CcittComposes(init, [y], [0]);
  }

  lemma FourErasedBytes()
    ensures Add(Raise(0x5555), Table(TableIndex(0x5555, 0xff))) == 0x41a0
    ensures Add(Raise(0x41a0), Table(TableIndex(0x41a0, 0xff))) == 0xe615
    ensures Add(Raise(0xe615), Table(TableIndex(0xe615, 0xff))) == 0x9618
    ensures Add(Raise(0x9618), Table(TableIndex(0x9618, 0xff))) == 0xe58f
  {
  }

  lemma ErasedByte(r: Poly)
    ensures ByteStep(r, 0xff) == Add(Raise(r), Table(TableIndex(r, 0xff)))
  {
    assert Coeffs(0xff) == 0xff;
    hide Raise, Add, Table, TableIndex, Coeffs;
  }

  lemma FourErasedSteps()
    ensures Register(0x5555, [0xff, 0xff, 0xff, 0xff]) == 0xe58f
  {
    ErasedByte(0x5555);
    ErasedByte(0x41a0);
    ErasedByte(0xe615);
    ErasedByte(0x9618);
    FourErasedBytes();
    hide Raise, Add, Table, TableIndex, ByteStep, Coeffs;
    var e: seq<bv8> := [0xff, 0xff, 0xff, 0xff];
    assert e[1..] == [0xff, 0xff, 0xff] && e[1..][1..] == [0xff, 0xff] && e[1..][1..][1..] == [0xff];
  }

  lemma ErasedOctets()
    ensures Octets([0xff, 0xff, 0xff, 0xff]) == [0xff, 0xff, 0xff, 0xff]
  {
    var e: seq<byte> := [0xff, 0xff, 0xff, 0xff];
    assert e[1..] == [0xff, 0xff, 0xff] && e[1..][1..] == [0xff, 0xff] && e[1..][1..][1..] == [0xff];
    assert e[1..][1..][1..][1..] == [];
  }

  // The check of four erased bytes is not 0xffff, so an erased section header fails it.
  lemma ErasedHeaderFails()
    ensures Ccitt(0x5555, [0xff, 0xff, 0xff, 0xff]) != 0xffff
  {
    FourErasedSteps();
    ErasedOctets();
    hide Register, Octets;
    var r: Poly := 0xe58f;
    assert r < 0xffff;
  }
}
