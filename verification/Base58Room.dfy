/** The buffers of the Base58 codec are large enough: powers of 58 and 256 compared. */
module Base58Room {
  import Arith
  import opened Positional

  lemma PowersOf58()
    ensures Pow(58, 1) == 58 && Pow(58, 2) == 3_364 && Pow(58, 3) == 195_112 && Pow(58, 4) == 11_316_496
            && Pow(58, 5) == 656_356_768 && Pow(58, 6) == 38_068_692_544 && Pow(58, 7) == 2_207_984_167_552
    ensures Pow(58, 8) == 128_063_081_718_016 && Pow(58, 9) == 7_427_658_739_644_928
            && Pow(58, 10) == 430_804_206_899_405_824 && Pow(58, 11) == 24_986_644_000_165_537_792
            && Pow(58, 12) == 1_449_225_352_009_601_191_936 && Pow(58, 13) == 84_055_070_416_556_869_132_288
            && Pow(58, 14) == 4_875_194_084_160_298_409_672_704 && Pow(58, 15) == 282_761_256_881_297_307_761_016_832
  {
    PowNext(58, 0);
    PowNext(58, 1);
    PowNext(58, 2);
    PowNext(58, 3);
    PowNext(58, 4);
    PowNext(58, 5);
    PowNext(58, 6);
    PowNext(58, 7);
    PowNext(58, 8);
    PowNext(58, 9);
    PowNext(58, 10);
    PowNext(58, 11);
    PowNext(58, 12);
    PowNext(58, 13);
    PowNext(58, 14);
  }

  lemma PowersOf256()
    ensures Pow(256, 1) == 256 && Pow(256, 2) == 65_536 && Pow(256, 3) == 16_777_216 && Pow(256, 4) == 4_294_967_296
            && Pow(256, 5) == 1_099_511_627_776 && Pow(256, 6) == 281_474_976_710_656
    ensures Pow(256, 7) == 72_057_594_037_927_936 && Pow(256, 8) == 18_446_744_073_709_551_616
            && Pow(256, 9) == 4_722_366_482_869_645_213_696 && Pow(256, 10) == 1_208_925_819_614_629_174_706_176
            && Pow(256, 11) == 309_485_009_821_345_068_724_781_056
            && Pow(256, 12) == 79_228_162_514_264_337_593_543_950_336
            && Pow(256, 13) == 20_282_409_603_651_670_423_947_251_286_016
  {
    PowNext(256, 0);
    PowNext(256, 1);
    PowNext(256, 2);
    PowNext(256, 3);
    PowNext(256, 4);
    PowNext(256, 5);
    PowNext(256, 6);
    PowNext(256, 7);
    PowNext(256, 8);
    PowNext(256, 9);
    PowNext(256, 10);
    PowNext(256, 11);
    PowNext(256, 12);
  }

  lemma ProductLe(a: nat, b: nat, c: nat, d: nat)
    requires a <= b && c <= d
    ensures a * c <= b * d
  {
    Arith.MulLe(a, b, c);
    Arith.MulLe(c, d, b);
  }

  /** m bytes fit into m * 138 / 100 + 1 digits of base 58. */
  lemma {:induction false} EncodeRoom(m: nat)
    ensures Pow(256, m) <= Pow(58, m * 138 / 100 + 1)
  {
    hide Pow;
    PowersOf58();
    PowersOf256();
    PowZero(256);
    if m >= 8 {
      EncodeRoom(m - 8);
      var k := (m - 8) * 138 / 100 + 1;
      PowAdd(256, 8, m - 8);
      PowAdd(58, 11, k);
      ProductLe(Pow(256, 8), Pow(58, 11), Pow(256, m - 8), Pow(58, k));
      PowMonotone(58, 11 + k, m * 138 / 100 + 1);
    }
  }

  lemma PowZero(b: nat)
    ensures Pow(b, 0) == 1
  {
  }

  lemma Power71()
    ensures Pow(58, 71) <= Pow(256, 52)
  {
    hide Pow;
    PowersOf58();
    PowersOf256();
    PowAdd(58, 15, 15);
    assert Pow(58, 30) == 79_953_928_393_091_004_080_532_279_173_738_402_825_689_466_587_316_224;
    PowAdd(58, 30, 30);
    assert Pow(58, 60) == 6_392_630_665_487_523_829_925_705_590_507_004_456_832_030_712_891_733_088_851_577_912_861_189_652_777_515_686_114_891_080_333_114_973_618_176;
    PowAdd(58, 60, 11);
    PowAdd(256, 13, 13);
    assert Pow(256, 26) == 411_376_139_330_301_510_538_742_295_639_337_626_245_683_966_408_394_965_837_152_256;
    PowAdd(256, 26, 26);
  }

  /** n digits of base 58 fit into n * 733 / 1000 + 1 bytes. */
  lemma {:induction false} DecodeRoom(n: nat)
    ensures Pow(58, n) <= Pow(256, n * 733 / 1000 + 1)
    decreases n, 1
  {
    hide Pow;
    if n >= 71 {
      Power71();
      DecodeStep(n, 71, 52);
    } else if n > 15 {
      PowersOf58();
      PowersOf256();
      StepBy15(n);
      DecodeStep(n, 15, 11);
    } else {
      SmallRoom(n);
    }
  }

  lemma SmallRoom(n: nat)
    requires n <= 15
    ensures Pow(58, n) <= Pow(256, n * 733 / 1000 + 1)
  {
    hide Pow;
    PowersOf58();
    PowersOf256();
    PowZero(58);
    if n < 4 {
      assert n == 0 || n == 1 || n == 2 || n == 3;
    } else if n < 8 {
      assert n == 4 || n == 5 || n == 6 || n == 7;
    } else if n < 12 {
      assert n == 8 || n == 9 || n == 10 || n == 11;
    } else {
      assert n == 12 || n == 13 || n == 14 || n == 15;
    }
  }

  lemma StepBy15(n: nat)
    requires 15 < n < 71
    ensures (n - 15) * 733 / 1000 + 11 <= n * 733 / 1000
  {
    if n < 30 {
      assert n == 16 || n == 17 || n == 18 || n == 19 || n == 20 || n == 21 || n == 22 || n == 23 || n == 24 || n == 25
             || n == 26 || n == 27 || n == 28 || n == 29;
    } else if n < 44 {
      assert n == 30 || n == 31 || n == 32 || n == 33 || n == 34 || n == 35 || n == 36 || n == 37 || n == 38 || n == 39
             || n == 40 || n == 41 || n == 42 || n == 43;
    } else if n < 58 {
      assert n == 44 || n == 45 || n == 46 || n == 47 || n == 48 || n == 49 || n == 50 || n == 51 || n == 52 || n == 53
             || n == 54 || n == 55 || n == 56 || n == 57;
    } else {
      assert n == 58 || n == 59 || n == 60 || n == 61 || n == 62 || n == 63 || n == 64 || n == 65 || n == 66 || n == 67
             || n == 68 || n == 69 || n == 70;
    }
  }

  lemma {:induction false} DecodeStep(n: nat, step: nat, bytes: nat)
    requires 0 < step <= n && Pow(58, step) <= Pow(256, bytes)
    requires (n - step) * 733 / 1000 + bytes <= n * 733 / 1000
    ensures Pow(58, n) <= Pow(256, n * 733 / 1000 + 1)
    decreases n, 0
  {
    hide Pow;
    DecodeRoom(n - step);
    var k := (n - step) * 733 / 1000 + 1;
    PowAdd(58, step, n - step);
    PowAdd(256, bytes, k);
    ProductLe(Pow(58, step), Pow(256, bytes), Pow(58, n - step), Pow(256, k));
    PowMonotone(256, bytes + k, n * 733 / 1000 + 1);
  }
}
