// The table-driven CRC-32 of src/Crc32.c, proved against a bit-serial reference,
// against the CRC-32 of section 8 of RFC 1952, and against burst errors.
module Folds {
  // Adding h before a step is adding h' after it.
  ghost predicate Travels<S(!new)>(f: S -> S, add: (S, S) -> S, h: S, h': S) {
    forall x :: f(add(x, h)) == add(f(x), h')
  }

  function Eight<S>(f: S -> S, x: S): S {
    f(f(f(f(f(f(f(f(x))))))))
  }

  lemma EightTravel<S(!new)>(f: S -> S, add: (S, S) -> S, hs: seq<S>, x: S)
    requires |hs| == 9 && forall i :: 0 <= i < 8 ==> Travels(f, add, hs[i], hs[i + 1])
    ensures Eight(f, add(x, hs[0])) == add(Eight(f, x), hs[8])
  {
    var y, z := add(x, hs[0]), f(f(f(f(x))));
    assert f(y) == add(f(x), hs[1]);
    assert f(f(y)) == add(f(f(x)), hs[2]);
    assert f(f(f(y))) == add(f(f(f(x))), hs[3]);
    assert f(f(f(f(y)))) == add(z, hs[4]);
    assert f(add(z, hs[4])) == add(f(z), hs[5]);
    assert f(add(f(z), hs[5])) == add(f(f(z)), hs[6]);
    assert f(add(f(f(z)), hs[6])) == add(f(f(f(z))), hs[7]);
  }

  // A register of type S that is fed one byte at a time.
  function Fold<S>(f: (S, bv8) -> S, s: S, bytes: seq<bv8>): S
    decreases |bytes|
  {
    if bytes == [] then s else Fold(f, f(s, bytes[0]), bytes[1..])
  }

  lemma {:induction false} FoldConcat<S>(f: (S, bv8) -> S, s: S, a: seq<bv8>, b: seq<bv8>)
    ensures Fold(f, s, a + b) == Fold(f, Fold(f, s, a), b)
    decreases |a|
  {
    if a == [] {
      assert a + b == b;
    } else {
      assert (a + b)[1..] == a[1..] + b;
      FoldConcat(f, f(s, a[0]), a[1..], b);
    }
  }

  lemma FoldAppend<S>(f: (S, bv8) -> S, s: S, a: seq<bv8>, b: bv8)
    ensures Fold(f, s, a + [b]) == f(Fold(f, s, a), b)
  {
    FoldConcat(f, s, a, [b]);
    var r := Fold(f, s, a);
    assert [b][1..] == [];
    calc {
      Fold(f, s, a + [b]);
      Fold(f, r, [b]);
      Fold(f, f(r, [b][0]), [b][1..]);
      Fold(f, f(r, b), []);
      f(r, b);
    }
  }

  ghost predicate StepsApart<S(!new)>(f: (S, bv8) -> S) {
    forall s, t, b :: f(s, b) == f(t, b) ==> s == t
  }

  // agree(k, s, t) says how much of two registers is equal; a step with any bytes loses one degree backwards.
  ghost predicate StepsBack<S(!new)>(f: (S, bv8) -> S, agree: (nat, S, S) -> bool) {
    forall k: nat, x, b, y, d :: 1 <= k && agree(k, f(x, b), f(y, d)) ==> agree(k - 1, x, y)
  }

  ghost predicate ByteShows<S(!new)>(f: (S, bv8) -> S, agree: (nat, S, S) -> bool) {
    forall k: nat, x, b, d :: 1 <= k && agree(k, f(x, b), f(x, d)) ==> b == d
  }

  lemma {:induction false} FoldInjective<S(!new)>(f: (S, bv8) -> S, s: S, t: S, bytes: seq<bv8>)
    requires StepsApart(f) && Fold(f, s, bytes) == Fold(f, t, bytes)
    ensures s == t
    decreases |bytes|
  {
    if bytes != [] {
      var b := bytes[0];
      FoldInjective(f, f(s, b), f(t, b), bytes[1..]);
      assert f(s, b) == f(t, b);
    }
  }

  // From one register, k bytes are determined by k degrees of the register after them.
  lemma {:induction false} FoldWindow<S(!new)>(f: (S, bv8) -> S, agree: (nat, S, S) -> bool, s: S, x: seq<bv8>,
                                        y: seq<bv8>)
    requires StepsBack(f, agree) && ByteShows(f, agree)
    requires |x| == |y| && agree(|x|, Fold(f, s, x), Fold(f, s, y))
    ensures x == y
    decreases |x|
  {
    var k := |x|;
    if k > 0 {
      var x', b, y', d := x[..k - 1], x[k - 1], y[..k - 1], y[k - 1];
      assert x == x' + [b] && y == y' + [d];
      FoldAppend(f, s, x', b);
      FoldAppend(f, s, y', d);
      FoldWindow(f, agree, s, x', y');
    }
  }

  lemma FoldParts<S(!new)>(f: (S, bv8) -> S, agree: (nat, S, S) -> bool, s: S,
                           p: seq<bv8>, x: seq<bv8>, y: seq<bv8>, z: seq<bv8>)
    requires StepsApart(f) && StepsBack(f, agree) && ByteShows(f, agree)
    requires |x| == |y| && (forall r :: agree(|x|, r, r))
    requires Fold(f, s, p + (x + z)) == Fold(f, s, p + (y + z))
    ensures x == y
  {
    var m := Fold(f, s, p);
    FoldConcat(f, s, p, x + z);
    FoldConcat(f, s, p, y + z);
    FoldConcat(f, m, x, z);
    FoldConcat(f, m, y, z);
    FoldInjective(f, Fold(f, m, x), Fold(f, m, y), z);
    FoldWindow(f, agree, m, x, y);
  }

  // Strings that agree outside four consecutive bytes and lead to one register are equal.
  lemma FoldBurst<S(!new)>(f: (S, bv8) -> S, agree: (nat, S, S) -> bool, s: S, a: seq<bv8>, b: seq<bv8>, lo: nat)
    requires StepsApart(f) && StepsBack(f, agree) && ByteShows(f, agree)
    requires forall k: nat, r :: k <= 4 ==> agree(k, r, r)
    requires |a| == |b| && Fold(f, s, a) == Fold(f, s, b)
    requires forall i :: 0 <= i < |a| && (i < lo || lo + 4 <= i) ==> a[i] == b[i]
    ensures a == b
  {
    if lo < |a| {
      var hi := if lo + 4 <= |a| then lo + 4 else |a|;
      var p, x, y, z := a[..lo], a[lo..hi], b[lo..hi], a[hi..];
      assert a == p + (x + z);
      assert b == p + (y + z);
      FoldParts(f, agree, s, p, x, y, z);
    }
  }
}

module Crc32 {
  import opened Folds

  const CRC32_INIT_VALUE: bv32 := 0xFFFFFFFF

  // The 256 constants of the source, in rows of eight as they are laid out there.
  const TABLE: seq<seq<bv32>> := [
    [0x00000000, 0x77073096, 0xEE0E612C, 0x990951BA, 0x076DC419, 0x706AF48F, 0xE963A535, 0x9E6495A3],
    [0x0EDB8832, 0x79DCB8A4, 0xE0D5E91E, 0x97D2D988, 0x09B64C2B, 0x7EB17CBD, 0xE7B82D07, 0x90BF1D91],
    [0x1DB71064, 0x6AB020F2, 0xF3B97148, 0x84BE41DE, 0x1ADAD47D, 0x6DDDE4EB, 0xF4D4B551, 0x83D385C7],
    [0x136C9856, 0x646BA8C0, 0xFD62F97A, 0x8A65C9EC, 0x14015C4F, 0x63066CD9, 0xFA0F3D63, 0x8D080DF5],
    [0x3B6E20C8, 0x4C69105E, 0xD56041E4, 0xA2677172, 0x3C03E4D1, 0x4B04D447, 0xD20D85FD, 0xA50AB56B],
    [0x35B5A8FA, 0x42B2986C, 0xDBBBC9D6, 0xACBCF940, 0x32D86CE3, 0x45DF5C75, 0xDCD60DCF, 0xABD13D59],
    [0x26D930AC, 0x51DE003A, 0xC8D75180, 0xBFD06116, 0x21B4F4B5, 0x56B3C423, 0xCFBA9599, 0xB8BDA50F],
    [0x2802B89E, 0x5F058808, 0xC60CD9B2, 0xB10BE924, 0x2F6F7C87, 0x58684C11, 0xC1611DAB, 0xB6662D3D],
    [0x76DC4190, 0x01DB7106, 0x98D220BC, 0xEFD5102A, 0x71B18589, 0x06B6B51F, 0x9FBFE4A5, 0xE8B8D433],
    [0x7807C9A2, 0x0F00F934, 0x9609A88E, 0xE10E9818, 0x7F6A0DBB, 0x086D3D2D, 0x91646C97, 0xE6635C01],
    [0x6B6B51F4, 0x1C6C6162, 0x856530D8, 0xF262004E, 0x6C0695ED, 0x1B01A57B, 0x8208F4C1, 0xF50FC457],
    [0x65B0D9C6, 0x12B7E950, 0x8BBEB8EA, 0xFCB9887C, 0x62DD1DDF, 0x15DA2D49, 0x8CD37CF3, 0xFBD44C65],
    [0x4DB26158, 0x3AB551CE, 0xA3BC0074, 0xD4BB30E2, 0x4ADFA541, 0x3DD895D7, 0xA4D1C46D, 0xD3D6F4FB],
    [0x4369E96A, 0x346ED9FC, 0xAD678846, 0xDA60B8D0, 0x44042D73, 0x33031DE5, 0xAA0A4C5F, 0xDD0D7CC9],
    [0x5005713C, 0x270241AA, 0xBE0B1010, 0xC90C2086, 0x5768B525, 0x206F85B3, 0xB966D409, 0xCE61E49F],
    [0x5EDEF90E, 0x29D9C998, 0xB0D09822, 0xC7D7A8B4, 0x59B33D17, 0x2EB40D81, 0xB7BD5C3B, 0xC0BA6CAD],
    [0xEDB88320, 0x9ABFB3B6, 0x03B6E20C, 0x74B1D29A, 0xEAD54739, 0x9DD277AF, 0x04DB2615, 0x73DC1683],
    [0xE3630B12, 0x94643B84, 0x0D6D6A3E, 0x7A6A5AA8, 0xE40ECF0B, 0x9309FF9D, 0x0A00AE27, 0x7D079EB1],
    [0xF00F9344, 0x8708A3D2, 0x1E01F268, 0x6906C2FE, 0xF762575D, 0x806567CB, 0x196C3671, 0x6E6B06E7],
    [0xFED41B76, 0x89D32BE0, 0x10DA7A5A, 0x67DD4ACC, 0xF9B9DF6F, 0x8EBEEFF9, 0x17B7BE43, 0x60B08ED5],
    [0xD6D6A3E8, 0xA1D1937E, 0x38D8C2C4, 0x4FDFF252, 0xD1BB67F1, 0xA6BC5767, 0x3FB506DD, 0x48B2364B],
    [0xD80D2BDA, 0xAF0A1B4C, 0x36034AF6, 0x41047A60, 0xDF60EFC3, 0xA867DF55, 0x316E8EEF, 0x4669BE79],
    [0xCB61B38C, 0xBC66831A, 0x256FD2A0, 0x5268E236, 0xCC0C7795, 0xBB0B4703, 0x220216B9, 0x5505262F],
    [0xC5BA3BBE, 0xB2BD0B28, 0x2BB45A92, 0x5CB36A04, 0xC2D7FFA7, 0xB5D0CF31, 0x2CD99E8B, 0x5BDEAE1D],
    [0x9B64C2B0, 0xEC63F226, 0x756AA39C, 0x026D930A, 0x9C0906A9, 0xEB0E363F, 0x72076785, 0x05005713],
    [0x95BF4A82, 0xE2B87A14, 0x7BB12BAE, 0x0CB61B38, 0x92D28E9B, 0xE5D5BE0D, 0x7CDCEFB7, 0x0BDBDF21],
    [0x86D3D2D4, 0xF1D4E242, 0x68DDB3F8, 0x1FDA836E, 0x81BE16CD, 0xF6B9265B, 0x6FB077E1, 0x18B74777],
    [0x88085AE6, 0xFF0F6A70, 0x66063BCA, 0x11010B5C, 0x8F659EFF, 0xF862AE69, 0x616BFFD3, 0x166CCF45],
    [0xA00AE278, 0xD70DD2EE, 0x4E048354, 0x3903B3C2, 0xA7672661, 0xD06016F7, 0x4969474D, 0x3E6E77DB],
    [0xAED16A4A, 0xD9D65ADC, 0x40DF0B66, 0x37D83BF0, 0xA9BCAE53, 0xDEBB9EC5, 0x47B2CF7F, 0x30B5FFE9],
    [0xBDBDF21C, 0xCABAC28A, 0x53B39330, 0x24B4A3A6, 0xBAD03605, 0xCDD70693, 0x54DE5729, 0x23D967BF],
    [0xB3667A2E, 0xC4614AB8, 0x5D681B02, 0x2A6F2B94, 0xB40BBE37, 0xC30C8EA1, 0x5A05DF1B, 0x2D02EF8D]
  ]

  function Entry(k: nat): bv32
    requires k < 256
  {
    TABLE[k / 8][k % 8]
  }

  // ----- the reference: one bit at a time -----

  // One step of the reflected shift register with polynomial 0xEDB88320.
  function Shift(x: bv32): bv32 {
    if x & 1 == 1 then (x >> 1) ^ 0xEDB88320 else x >> 1
  }

  // One step for every tick.
  function Run(x: bv32, ticks: seq<nat>): bv32
    decreases |ticks|
  {
    if ticks == [] then x else Run(Shift(x), ticks[1..])
  }

  // A byte takes eight ticks.
  function Ticks(): (s: seq<nat>)
    ensures |s| == 8
  {
    seq(8, i => i)
  }

  // The byte enters at the low end of the register, which then steps once per bit.
  function FeedByte(crc: bv32, b: bv8): bv32 {
    Run(crc ^ (b as bv32), Ticks())
  }

  function Crc(seed: bv32, bytes: seq<bv8>): bv32 {
    Fold(FeedByte, seed, bytes)
  }

  // ----- the table computes eight steps at once -----

  function Shift8(x: bv32): bv32 {
    Shift(Shift(Shift(Shift(Shift(Shift(Shift(Shift(x))))))))
  }

  lemma Entries0(k: bv32) requires 0 <= k < 8 ensures Entry(k as nat) == Shift8(k) {}
  lemma Entries1(k: bv32) requires 8 <= k < 16 ensures Entry(k as nat) == Shift8(k) {}
  lemma Entries2(k: bv32) requires 16 <= k < 32 ensures Entry(k as nat) == Shift8(k) {}
  lemma Entries3(k: bv32) requires 32 <= k < 48 ensures Entry(k as nat) == Shift8(k) {}
  lemma Entries4(k: bv32) requires 48 <= k < 64 ensures Entry(k as nat) == Shift8(k) {}
  lemma Entries5(k: bv32) requires 64 <= k < 80 ensures Entry(k as nat) == Shift8(k) {}
  lemma Entries6(k: bv32) requires 80 <= k < 96 ensures Entry(k as nat) == Shift8(k) {}
  lemma Entries7(k: bv32) requires 96 <= k < 112 ensures Entry(k as nat) == Shift8(k) {}
  lemma Entries8(k: bv32) requires 112 <= k < 128 ensures Entry(k as nat) == Shift8(k) {}
  lemma Entries9(k: bv32) requires 128 <= k < 144 ensures Entry(k as nat) == Shift8(k) {}
  lemma Entries10(k: bv32) requires 144 <= k < 160 ensures Entry(k as nat) == Shift8(k) {}
  lemma Entries11(k: bv32) requires 160 <= k < 176 ensures Entry(k as nat) == Shift8(k) {}
  lemma Entries12(k: bv32) requires 176 <= k < 192 ensures Entry(k as nat) == Shift8(k) {}
  lemma Entries13(k: bv32) requires 192 <= k < 208 ensures Entry(k as nat) == Shift8(k) {}
  lemma Entries14(k: bv32) requires 208 <= k < 224 ensures Entry(k as nat) == Shift8(k) {}
  lemma Entries15(k: bv32) requires 224 <= k < 240 ensures Entry(k as nat) == Shift8(k) {}
  lemma Entries16(k: bv32) requires 240 <= k < 256 ensures Entry(k as nat) == Shift8(k) {}

  lemma LowEntries(k: bv32)
    requires k < 128
    ensures Entry(k as nat) == Shift8(k)
  {
    if k < 8 {
      Entries0(k);
    } else if k < 16 {
      Entries1(k);
    } else if k < 32 {
      Entries2(k);
    } else if k < 48 {
      Entries3(k);
    } else if k < 64 {
      Entries4(k);
    } else if k < 80 {
      Entries5(k);
    } else if k < 96 {
      Entries6(k);
    } else if k < 112 {
      Entries7(k);
    } else {
      Entries8(k);
    }
  }

  lemma HighEntries(k: bv32)
    requires 128 <= k < 256
    ensures Entry(k as nat) == Shift8(k)
  {
    if k < 144 {
      Entries9(k);
    } else if k < 160 {
      Entries10(k);
    } else if k < 176 {
      Entries11(k);
    } else if k < 192 {
      Entries12(k);
    } else if k < 208 {
      Entries13(k);
    } else if k < 224 {
      Entries14(k);
    } else if k < 240 {
      Entries15(k);
    } else {
      Entries16(k);
    }
  }

  lemma EightIsShift8(x: bv32)
    ensures Eight(Shift, x) == Shift8(x)
  {
  }

  // Each of the 256 constants is the register after eight empty steps.
  lemma EntryIsEight(k: bv32)
    requires k < 256
    ensures Entry(k as nat) == Eight(Shift, k)
  {
    EightIsShift8(k);
    if k < 128 {
      LowEntries(k);
    } else {
      HighEntries(k);
    }
  }

  // A part of the register whose lowest bit is 0 only travels down during a step.
  lemma OddTravels(x: bv32, h: bv32, y: bv32)
    requires h & 1 == 0 && x & 1 == 1 && y == x ^ h
    ensures Shift(y) == Shift(x) ^ (h >> 1)
  {
  }

  lemma EvenTravels(x: bv32, h: bv32, y: bv32)
    requires h & 1 == 0 && x & 1 == 0 && y == x ^ h
    ensures Shift(y) == Shift(x) ^ (h >> 1)
  {
  }

  lemma PartTravels(x: bv32, h: bv32, y: bv32)
    requires h & 1 == 0 && y == x ^ h
    ensures Shift(y) == Shift(x) ^ (h >> 1)
  {
    if x & 1 == 1 {
      OddTravels(x, h, y);
    } else {
      EvenTravels(x, h, y);
    }
  }

  function Xor(x: bv32, h: bv32): bv32 {
    x ^ h
  }

  lemma ShiftTravels(h: bv32, h': bv32)
    requires h & 1 == 0 && h' == h >> 1
    ensures Travels(Shift, Xor, h, h')
  {
    forall x ensures Shift(Xor(x, h)) == Xor(Shift(x), h') {
      PartTravels(x, h, Xor(x, h));
    }
  }

  // The n lowest bits of the mask are set.
  ghost predicate LowOnes(m: bv32, n: nat) {
    n == 0 || (m & 1 == 1 && LowOnes(m >> 1, n - 1))
  }

  lemma LowestZero(h: bv32, m: bv32)
    requires h & m == 0 && m & 1 == 1
    ensures h & 1 == 0
  {
  }

  lemma ZerosTravel(h: bv32, m: bv32)
    requires h & m == 0
    ensures (h >> 1) & (m >> 1) == 0
  {
  }

  ghost predicate Halves(h: bv32, h': bv32) {
    h' == h >> 1
  }

  ghost predicate LowZeros(h: bv32, m: bv32, n: nat) {
    h & m == 0 && LowOnes(m, n)
  }

  lemma StageTravels(h: bv32, m: bv32, n: nat, h': bv32)
    requires LowZeros(h, m, n) && n > 0 && Halves(h, h')
    ensures Travels(Shift, Xor, h, h')
  {
    LowestZero(h, m);
    ShiftTravels(h, h');
  }

  lemma StageZeros(h: bv32, m: bv32, n: nat, h': bv32)
    requires LowZeros(h, m, n) && n > 0 && Halves(h, h')
    ensures LowZeros(h', m >> 1, n - 1)
  {
    ZerosTravel(h, m);
  }

  lemma Half(h: bv32) returns (h': bv32)
    ensures Halves(h, h')
  {
    h' := h >> 1;
  }

  // The stages of a part whose n lowest bits are 0.
  lemma {:induction false} Stages(h: bv32, m: bv32, n: nat) returns (hs: seq<bv32>)
    requires LowZeros(h, m, n)
    ensures |hs| == n + 1 && hs[0] == h
    ensures forall i :: 0 <= i < n ==> Halves(hs[i], hs[i + 1]) && Travels(Shift, Xor, hs[i], hs[i + 1])
    decreases n
  {
    if n == 0 {
      hs := [h];
    } else {
      var h' := Half(h);
      StageTravels(h, m, n, h');
      StageZeros(h, m, n, h');
      var rest := Stages(h', m >> 1, n - 1);
      hs := [h] + rest;
    }
  }

  lemma EightHalves(hs: seq<bv32>)
    requires |hs| == 9 && forall i :: 0 <= i < 8 ==> Halves(hs[i], hs[i + 1])
    ensures hs[8] == hs[0] >> 8
  {
    assert Halves(hs[0], hs[1]) && Halves(hs[1], hs[2]) && Halves(hs[2], hs[3]) && Halves(hs[3], hs[4]);
    assert Halves(hs[4], hs[5]) && Halves(hs[5], hs[6]) && Halves(hs[6], hs[7]) && Halves(hs[7], hs[8]);
  }

  lemma ByteOnes()
    ensures LowOnes(0xFF, 8)
  {
    assert LowOnes(0x01, 1) && LowOnes(0x03, 2) && LowOnes(0x07, 3) && LowOnes(0x0F, 4);
    assert LowOnes(0x1F, 5) && LowOnes(0x3F, 6) && LowOnes(0x7F, 7);
  }

  lemma HighPart(x: bv32, h: bv32)
    requires h == x & 0xFFFF_FF00
    ensures x == Xor(x & 0xFF, h)
  {
  }

  lemma HighZeros(x: bv32, h: bv32)
    requires h == x & 0xFFFF_FF00
    ensures LowZeros(h, 0xFF, 8)
  {
    ByteOnes();
  }

  lemma HighShifted(x: bv32, h: bv32, h8: bv32)
    requires h == x & 0xFFFF_FF00 && h8 == h >> 8
    ensures h8 == x >> 8
  {
  }

  lemma PartsTravel(x: bv32, l: bv32, h: bv32) returns (h8: bv32)
    requires x == Xor(l, h) && LowZeros(h, 0xFF, 8)
    ensures h8 == h >> 8 && Eight(Shift, x) == Xor(Eight(Shift, l), h8)
  {
    var hs := Stages(h, 0xFF, 8);
    EightHalves(hs);
    EightTravel(Shift, Xor, hs, l);
    h8 := hs[8];
  }

  // The upper 24 bits only travel down during eight steps.
  lemma CarryDown(x: bv32)
    ensures Eight(Shift, x) == Xor(Eight(Shift, x & 0xFF), x >> 8)
  {
    var h := x & 0xFFFF_FF00;
    HighPart(x, h);
    HighZeros(x, h);
    var h8 := PartsTravel(x, x & 0xFF, h);
    HighShifted(x, h, h8);
  }

  lemma RunIsEight(x: bv32, t: seq<nat>)
    requires |t| == 8
    ensures Run(x, t) == Eight(Shift, x)
  {
    var x2 := Shift(Shift(x));
    var x4 := Shift(Shift(x2));
    var x6 := Shift(Shift(x4));
    assert Run(x, t) == Run(x2, t[2..]) by { assert t[1..][1..] == t[2..]; }
    assert Run(x2, t[2..]) == Run(x4, t[4..]) by { assert t[2..][1..][1..] == t[4..]; }
    assert Run(x4, t[4..]) == Run(x6, t[6..]) by { assert t[4..][1..][1..] == t[6..]; }
    assert Run(x6, t[6..]) == Run(Shift(Shift(x6)), t[6..][1..][1..]);
  }

  function Index(crc: bv32, b: bv8): (i: bv32)
    ensures i < 256
  {
    (crc & 0xFF) ^ (b as bv32)
  }

  lemma IndexIsLowByte(crc: bv32, b: bv8, x: bv32)
    requires x == crc ^ (b as bv32)
    ensures Index(crc, b) == x & 0xFF && crc >> 8 == x >> 8
  {
  }

  // One step of the loops of the source.
  function Step(crc: bv32, b: bv8): bv32 {
    Entry(Index(crc, b) as nat) ^ (crc >> 8)
  }

  // It feeds one byte to the reference register.
  lemma TableStep(crc: bv32, b: bv8)
    ensures Step(crc, b) == FeedByte(crc, b)
  {
    var x := crc ^ (b as bv32);
    IndexIsLowByte(crc, b, x);
    EntryIsEight(x & 0xFF);
    CarryDown(x);
    RunIsEight(x, Ticks());
  }

  lemma CrcConcat(seed: bv32, a: seq<bv8>, b: seq<bv8>)
    ensures Crc(seed, a + b) == Crc(Crc(seed, a), b)
  {
    FoldConcat(FeedByte, seed, a, b);
  }

  lemma CrcAppend(seed: bv32, a: seq<bv8>, b: bv8)
    ensures Crc(seed, a + [b]) == FeedByte(Crc(seed, a), b)
  {
    FoldAppend(FeedByte, seed, a, b);
  }

  lemma LoopStep(seed: bv32, buf: seq<bv8>, i: nat)
    requires i < |buf|
    ensures Crc(seed, buf[..i + 1]) == Step(Crc(seed, buf[..i]), buf[i])
  {
    TableStep(Crc(seed, buf[..i]), buf[i]);
    CrcAppend(seed, buf[..i], buf[i]);
    assert buf[..i + 1] == buf[..i] + [buf[i]];
  }

  method BufCrc32(buf: seq<bv8>, oldCrc32: bv32) returns (crc: bv32)
    ensures crc == Crc(oldCrc32, buf)
  {
    crc := oldCrc32;
    for i := 0 to |buf|
      invariant crc == Crc(oldCrc32, buf[..i])
    {
      LoopStep(oldCrc32, buf, i);
      crc := Step(crc, buf[i]);
    }
    assert buf[..|buf|] == buf;
  }

  method OneTimeCrc32(buf: seq<bv8>, oldCrc32: bv32) returns (crc: bv32)
    ensures crc == !Crc(oldCrc32, buf)
  {
    crc := oldCrc32;
    for i := 0 to |buf|
      invariant crc == Crc(oldCrc32, buf[..i])
    {
      LoopStep(oldCrc32, buf, i);
      crc := Step(crc, buf[i]);
    }
    assert buf[..|buf|] == buf;
    crc := !crc;
  }

  // ----- section 8 of RFC 1952 -----

  // make_crc_table of the RFC: entry n is n after eight conditional shifts.
  function RfcEntry(n: bv32): bv32 { Run(n, Ticks()) }

  function RfcLoop(c: bv32, buf: seq<bv8>): bv32
    decreases |buf|
  {
    if buf == [] then c else RfcLoop(RfcEntry((c ^ (buf[0] as bv32)) & 0xFF) ^ (c >> 8), buf[1..])
  }

  function RfcUpdateCrc(crc: bv32, buf: seq<bv8>): bv32 {
    RfcLoop(crc ^ 0xFFFFFFFF, buf) ^ 0xFFFFFFFF
  }

  function RfcCrc(buf: seq<bv8>): bv32 { RfcUpdateCrc(0, buf) }

  lemma {:induction false} RfcLoopIsCrc(c: bv32, buf: seq<bv8>)
    ensures RfcLoop(c, buf) == Crc(c, buf)
    decreases |buf|
  {
    if buf != [] {
      var x := c ^ (buf[0] as bv32);
      IndexIsLowByte(c, buf[0], x);
      CarryDown(x);
      RunIsEight(x, Ticks());
      RunIsEight(x & 0xFF, Ticks());
      RfcLoopIsCrc(FeedByte(c, buf[0]), buf[1..]);
    }
  }

  lemma RfcCrcIsCrc(buf: seq<bv8>)
    ensures RfcCrc(buf) == Crc(CRC32_INIT_VALUE, buf) ^ 0xFFFFFFFF
  {
    assert 0 ^ 0xFFFFFFFF == CRC32_INIT_VALUE;
    RfcLoopIsCrc(CRC32_INIT_VALUE, buf);
  }

  lemma Complement(x: bv32, y: bv32)
    requires y == x ^ 0xFFFFFFFF
    ensures !x == y
  {
  }

  // What OneTimeCrc32 returns for the seed CRC32_INIT_VALUE is the CRC-32 of the RFC.
  lemma OneTimeIsRfc1952(buf: seq<bv8>)
    ensures !Crc(CRC32_INIT_VALUE, buf) == RfcCrc(buf)
  {
    RfcCrcIsCrc(buf);
    Complement(Crc(CRC32_INIT_VALUE, buf), RfcCrc(buf));
  }

  // ----- burst errors -----

  lemma ShiftInjective(u: bv32, v: bv32)
    requires Shift(u) == Shift(v)
    ensures u == v
  {
  }

  lemma {:induction false} RunInjective(u: bv32, v: bv32, ticks: seq<nat>)
    requires Run(u, ticks) == Run(v, ticks)
    ensures u == v
    decreases |ticks|
  {
    if ticks != [] {
      RunInjective(Shift(u), Shift(v), ticks[1..]);
      ShiftInjective(u, v);
    }
  }

  lemma XorByteInjective(s: bv32, t: bv32, b: bv8)
    requires s ^ (b as bv32) == t ^ (b as bv32)
    ensures s == t
  {
  }

  lemma FeedByteInjective(s: bv32, t: bv32, b: bv8)
    requires FeedByte(s, b) == FeedByte(t, b)
    ensures s == t
  {
    RunInjective(s ^ (b as bv32), t ^ (b as bv32), Ticks());
    XorByteInjective(s, t, b);
  }

  // The mask m turned up once for every tick.
  function Turned(m: bv32, ticks: seq<nat>): bv32
    decreases |ticks|
  {
    if ticks == [] then m else (Turned(m, ticks[1..]) << 1) | 1
  }

  ghost predicate KeepsTop(m: bv32, ticks: seq<nat>)
    decreases |ticks|
  {
    ticks == [] || (Turned(m, ticks[1..]) & 0x80000000 != 0 && KeepsTop(m, ticks[1..]))
  }

  // The top bit after a step says whether the polynomial was added, which is what the lowest bit before it says.
  lemma StepBack(u: bv32, v: bv32, m: bv32)
    requires m & 0x80000000 != 0
    requires Shift(u) & m == Shift(v) & m
    ensures u & ((m << 1) | 1) == v & ((m << 1) | 1)
  {
  }

  lemma {:induction false} RunBack(u: bv32, v: bv32, m: bv32, ticks: seq<nat>)
    requires KeepsTop(m, ticks)
    requires Run(u, ticks) & m == Run(v, ticks) & m
    ensures u & Turned(m, ticks) == v & Turned(m, ticks)
    decreases |ticks|
  {
    if ticks != [] {
      RunBack(Shift(u), Shift(v), m, ticks[1..]);
      StepBack(u, v, Turned(m, ticks[1..]));
    }
  }

  // The top 8k bits.
  function TopBytes(k: nat): bv32
    requires k <= 4
  {
    if k == 0 then 0 else if k == 1 then 0xFF000000 else if k == 2 then 0xFFFF0000
    else if k == 3 then 0xFFFFFF00 else 0xFFFFFFFF
  }

  // The top byte is turned to the bottom, and no bit is lost before it gets there.
  lemma TopBytesTurned(k: nat, t: seq<nat>)
    requires 1 <= k <= 4 && |t| == 8
    ensures Turned(TopBytes(k), t) == TopBytes(k - 1) | 0xFF && KeepsTop(TopBytes(k), t)
    ensures TopBytes(k - 1) & 0xFF == 0
  {
    var m := TopBytes(k);
    assert t[7..][1..] == [] && t[6..][1..] == t[7..] && t[5..][1..] == t[6..] && t[4..][1..] == t[5..];
    assert t[3..][1..] == t[4..] && t[2..][1..] == t[3..] && t[1..][1..] == t[2..];
    assert Turned(m, t[7..]) == (m << 1) | 0x01 && KeepsTop(m, t[7..]);
    assert Turned(m, t[6..]) == (m << 2) | 0x03 && KeepsTop(m, t[6..]);
    assert Turned(m, t[5..]) == (m << 3) | 0x07 && KeepsTop(m, t[5..]);
    assert Turned(m, t[4..]) == (m << 4) | 0x0F && KeepsTop(m, t[4..]);
    assert Turned(m, t[3..]) == (m << 5) | 0x1F && KeepsTop(m, t[3..]);
    assert Turned(m, t[2..]) == (m << 6) | 0x3F && KeepsTop(m, t[2..]);
    assert Turned(m, t[1..]) == (m << 7) | 0x7F && KeepsTop(m, t[1..]);
  }

  // A byte shows in the lowest byte only.
  lemma BytesBelow(a: bv32, b: bv8, u: bv32, m: bv32)
    requires u == a ^ (b as bv32) && m & 0xFF == 0
    ensures a & m == u & m
  {
  }

  lemma BytesAt(a: bv32, b: bv8, d: bv8, u: bv32, v: bv32)
    requires u == a ^ (b as bv32) && v == a ^ (d as bv32) && u & 0xFF == v & 0xFF
    ensures b == d
  {
  }

  lemma MaskPart(u: bv32, v: bv32, m: bv32, w: bv32)
    requires u & w == v & w && m & w == m
    ensures u & m == v & m
  {
  }

  lemma RunBackPart(u: bv32, v: bv32, m: bv32, w: bv32, t: seq<nat>)
    requires w & Turned(m, t) == w && KeepsTop(m, t)
    requires Run(u, t) & m == Run(v, t) & m
    ensures u & w == v & w
  {
    RunBack(u, v, m, t);
    MaskPart(u, v, w, Turned(m, t));
  }

  lemma LastByteInjective(a: bv32, b: bv8, d: bv8)
    requires FeedByte(a, b) & 0xFF000000 == FeedByte(a, d) & 0xFF000000
    ensures b == d
  {
    TopBytesTurned(1, Ticks());
    RunBackPart(a ^ (b as bv32), a ^ (d as bv32), 0xFF000000, 0xFF, Ticks());
    BytesAt(a, b, d, a ^ (b as bv32), a ^ (d as bv32));
  }

  lemma ByteBack(a: bv32, b: bv8, c: bv32, d: bv8, k: nat)
    requires 1 <= k <= 4
    requires FeedByte(a, b) & TopBytes(k) == FeedByte(c, d) & TopBytes(k)
    ensures a & TopBytes(k - 1) == c & TopBytes(k - 1)
  {
    TopBytesTurned(k, Ticks());
    BytesBack(a, b, c, d, a ^ (b as bv32), c ^ (d as bv32), TopBytes(k), TopBytes(k - 1), Ticks());
  }

  lemma BytesBack(a: bv32, b: bv8, c: bv32, d: bv8, u: bv32, v: bv32, m: bv32, m1: bv32, t: seq<nat>)
    requires u == a ^ (b as bv32) && v == c ^ (d as bv32) && m1 & 0xFF == 0
    requires m1 & Turned(m, t) == m1 && KeepsTop(m, t)
    requires Run(u, t) & m == Run(v, t) & m
    ensures a & m1 == c & m1
  {
    RunBackPart(u, v, m, m1, t);
    BytesBelow(a, b, u, m1);
    BytesBelow(c, d, v, m1);
  }

  lemma TopBytesNested(x: bv32, y: bv32, k: nat)
    requires 1 <= k <= 4 && x & TopBytes(k) == y & TopBytes(k)
    ensures x & 0xFF000000 == y & 0xFF000000
  {
  }

  ghost predicate Agree(k: nat, x: bv32, y: bv32) {
    k <= 4 && x & TopBytes(k) == y & TopBytes(k)
  }

  lemma FeedApart()
    ensures StepsApart(FeedByte)
  {
    forall s, t, b | FeedByte(s, b) == FeedByte(t, b) ensures s == t {
      FeedByteInjective(s, t, b);
    }
  }

  lemma FeedBack()
    ensures StepsBack(FeedByte, Agree)
  {
    forall k: nat, x, b, y, d | 1 <= k && Agree(k, FeedByte(x, b), FeedByte(y, d)) ensures Agree(k - 1, x, y) {
      ByteBack(x, b, y, d, k);
    }
  }

  lemma FeedShows()
    ensures ByteShows(FeedByte, Agree)
  {
    forall k: nat, x, b, d | 1 <= k && Agree(k, FeedByte(x, b), FeedByte(x, d)) ensures b == d {
      ByteShowsAt(k, x, b, d);
    }
  }

  lemma ByteShowsAt(k: nat, x: bv32, b: bv8, d: bv8)
    requires 1 <= k <= 4 && FeedByte(x, b) & TopBytes(k) == FeedByte(x, d) & TopBytes(k)
    ensures b == d
  {
    TopBytesNested(FeedByte(x, b), FeedByte(x, d), k);
    LastByteInjective(x, b, d);
  }

  // Two different strings of one length that agree outside four consecutive bytes have different CRCs.
  lemma BurstDetected(seed: bv32, a: seq<bv8>, b: seq<bv8>, lo: nat)
    requires |a| == |b| && a != b
    requires forall i :: 0 <= i < |a| && (i < lo || lo + 4 <= i) ==> a[i] == b[i]
    ensures Crc(seed, a) != Crc(seed, b)
  {
    FeedApart();
    FeedBack();
    FeedShows();
    if Fold(FeedByte, seed, a) == Fold(FeedByte, seed, b) {
      FoldBurst(FeedByte, Agree, seed, a, b, lo);
    }
  }

  lemma FeedValue(crc: bv32, b: bv8, x: bv32)
    requires x == crc ^ (b as bv32)
    ensures FeedByte(crc, b) == Shift8(x)
  {
    RunIsEight(x, Ticks());
    EightIsShift8(x);
  }

  // Four is the limit: the polynomial itself is a pattern of five bytes that goes unseen.
  lemma FiveBytesUndetected()
    ensures Crc(0, [0x01, 0x96, 0x30, 0x07, 0x77]) == Crc(0, [0, 0, 0, 0, 0])
  {
    FeedValue(0, 0, 0);
    FeedValue(0, 1, 1);
    FeedValue(0x77073096, 0x96, 0x77073000);
    FeedValue(0x00770730, 0x30, 0x00770700);
    FeedValue(0x00007707, 0x07, 0x00007700);
    FeedValue(0x00000077, 0x77, 0);
    var m := [0x01 as bv8, 0x96, 0x30, 0x07, 0x77];
    assert m[1..] == [0x96, 0x30, 0x07, 0x77] && m[2..] == [0x30, 0x07, 0x77] && m[3..] == [0x07, 0x77]
        && m[4..] == [0x77];
  }
}
