// src/base64.c against section 4 of RFC 4648.
module Base64 {
  // Quarters of the source's string, which the verifier can index.
  const QUARTER0 := "ABCDEFGHIJKLMNOP"
  const QUARTER1 := "QRSTUVWXYZabcdef"
  const QUARTER2 := "ghijklmnopqrstuv"
  const QUARTER3 := "wxyz0123456789+/"
  const BASE64CHAR := QUARTER0 + QUARTER1 + QUARTER2 + QUARTER3

  const PADDING_CHAR := '='

  // ----- the alphabet -----

  // Table 1 of RFC 4648.
  function SymbolAt(n: nat): char
    requires n < 64
  {
    if n < 26 then 'A' + n as char
    else if n < 52 then 'a' + (n - 26) as char
    else if n < 62 then '0' + (n - 52) as char
    else if n == 62 then '+' else '/'
  }

  // The other direction; -1 for a character outside the alphabet.
  function IndexOf(c: char): (n: int)
    ensures -1 <= n < 64
  {
    if 'A' <= c <= 'Z' then c as int - 'A' as int
    else if 'a' <= c <= 'z' then c as int - 'a' as int + 26
    else if '0' <= c <= '9' then c as int - '0' as int + 52
    else if c == '+' then 62
    else if c == '/' then 63
    else -1
  }

  lemma SymbolIndex(n: nat)
    requires n < 64
    ensures IndexOf(SymbolAt(n)) == n && SymbolAt(n) != PADDING_CHAR
  {
  }

  lemma IndexSymbol(c: char)
    requires IndexOf(c) >= 0
    ensures SymbolAt(IndexOf(c)) == c && c != PADDING_CHAR
  {
  }

  lemma Quarter0(n: nat) requires n < 16 ensures QUARTER0[n] == SymbolAt(n) {}
  lemma Quarter1(n: nat) requires n < 16 ensures QUARTER1[n] == SymbolAt(n + 16) {}
  lemma Quarter2(n: nat) requires n < 16 ensures QUARTER2[n] == SymbolAt(n + 32) {}
  lemma Quarter3(n: nat) requires n < 16 ensures QUARTER3[n] == SymbolAt(n + 48) {}

  // The string constant of the source is that table.
  lemma TableIsRfc(n: nat)
    requires n < 64
    ensures |BASE64CHAR| == 64 && BASE64CHAR[n] == SymbolAt(n)
  {
    if n < 16 {
      Quarter0(n);
    } else if n < 32 {
      Quarter1(n - 16);
    } else if n < 48 {
      Quarter2(n - 32);
    } else {
      Quarter3(n - 48);
    }
  }

  lemma InTable(c: char)
    ensures IndexOf(c) >= 0 ==> c in BASE64CHAR
  {
    if IndexOf(c) >= 0 {
      TableIsRfc(IndexOf(c));
      IndexSymbol(c);
      assert BASE64CHAR[IndexOf(c)] == c;
    }
  }

  // num_strchr
  method NumStrchr(str: string, c: char) returns (n: int)
    ensures c in str ==> 0 <= n < |str| && str[n] == c && c !in str[..n]
    ensures c !in str ==> n == -1
  {
    n := 0;
    while n < |str|
      invariant 0 <= n <= |str| && c !in str[..n]
    {
      if str[n] == c {
        return;
      }
      n := n + 1;
    }
    n := -1;
  }

  // The index in the table is unique.
  lemma FoundIsIndex(c: char, n: int)
    requires c in BASE64CHAR ==> 0 <= n < |BASE64CHAR| && BASE64CHAR[n] == c
    requires c !in BASE64CHAR ==> n == -1
    ensures n == IndexOf(c)
  {
    InTable(c);
    if c in BASE64CHAR {
      TableIsRfc(n);
      SymbolIndex(n);
    }
  }

  // ----- six bits as a symbol -----

  function Symbol(v: bv8): char
    requires v < 64
  {
    SymbolAt(v as nat)
  }

  // A character's six bits; all ones, the source's -1, for one outside the alphabet.
  function Value(c: char): bv8 {
    if IndexOf(c) < 0 then 0xFF else IndexOf(c) as bv8
  }

  lemma ByteIndex(n: nat)
    requires n < 64
    ensures (n as bv8) < 64 && (n as bv8) as nat == n
  {
  }

  lemma ValueOfSymbol(v: bv8)
    requires v < 64
    ensures Value(Symbol(v)) == v && Symbol(v) != PADDING_CHAR
  {
    SymbolIndex(v as nat);
  }

  lemma SymbolOfValue(c: char)
    requires IndexOf(c) >= 0
    ensures Value(c) < 64 && Symbol(Value(c)) == c && c != PADDING_CHAR
  {
    ByteIndex(IndexOf(c));
    IndexSymbol(c);
  }

  // ----- encoding -----

  // The four values of a 24-bit group, as the source shifts and masks them.
  function First(b0: bv8): (v: bv8) ensures v < 64 { (b0 >> 2) & 0x3f }
  function Second(b0: bv8, b1: bv8): (v: bv8) ensures v < 64 { ((b0 << 4) & 0x30) | ((b1 >> 4) & 0x0f) }
  function Third(b1: bv8, b2: bv8): (v: bv8) ensures v < 64 { ((b1 << 2) & 0x3c) | ((b2 >> 6) & 0x03) }
  function Fourth(b2: bv8): (v: bv8) ensures v < 64 { b2 & 0x3f }

  // Section 4: three bytes give four characters; a rest of one or two bytes is filled with zero bits and padded.
  function Group1(b0: bv8): (g: string)
    ensures |g| == 4
  {
    [Symbol(First(b0)), Symbol(Second(b0, 0)), PADDING_CHAR, PADDING_CHAR]
  }

  function Group2(b0: bv8, b1: bv8): (g: string)
    ensures |g| == 4
  {
    [Symbol(First(b0)), Symbol(Second(b0, b1)), Symbol(Third(b1, 0)), PADDING_CHAR]
  }

  function Group3(b0: bv8, b1: bv8, b2: bv8): (g: string)
    ensures |g| == 4
  {
    [Symbol(First(b0)), Symbol(Second(b0, b1)), Symbol(Third(b1, b2)), Symbol(Fourth(b2))]
  }

  function Encode(s: seq<bv8>): string {
    if s == [] then ""
    else if |s| == 1 then Group1(s[0])
    else if |s| == 2 then Group2(s[0], s[1])
    else Group3(s[0], s[1], s[2]) + Encode(s[3..])
  }

  // ----- section 4 of RFC 4648, by numbers -----

  // Three bytes as one number of 24 bits, and its digits to base 64, the highest first.
  function Number(b0: bv8, b1: bv8, b2: bv8): bv32 {
    (b0 as bv32) * 0x1_0000 + (b1 as bv32) * 0x100 + (b2 as bv32)
  }

  function Digit3(n: bv32): bv32 { n / 0x4_0000 % 64 }
  function Digit2(n: bv32): bv32 { n / 0x1000 % 64 }
  function Digit1(n: bv32): bv32 { n / 64 % 64 }
  function Digit0(n: bv32): bv32 { n % 64 }

  function DigitSymbol(d: bv32): char {
    if d < 64 then SymbolAt(d as nat) else PADDING_CHAR
  }

  // The last one or two bytes are followed by zeros, and the digits that come from those alone are padding.
  function RfcEncode(s: seq<bv8>): string {
    if s == [] then ""
    else if |s| == 1 then
      var n := Number(s[0], 0, 0);
      [DigitSymbol(Digit3(n)), DigitSymbol(Digit2(n)), PADDING_CHAR, PADDING_CHAR]
    else if |s| == 2 then
      var n := Number(s[0], s[1], 0);
      [DigitSymbol(Digit3(n)), DigitSymbol(Digit2(n)), DigitSymbol(Digit1(n)), PADDING_CHAR]
    else
      var n := Number(s[0], s[1], s[2]);
      [DigitSymbol(Digit3(n)), DigitSymbol(Digit2(n)), DigitSymbol(Digit1(n)), DigitSymbol(Digit0(n))]
          + RfcEncode(s[3..])
  }

  lemma FirstDigit(b0: bv8, b1: bv8, b2: bv8)
    ensures Digit3(Number(b0, b1, b2)) == First(b0) as bv32
  {
  }

  lemma SecondDigit(b0: bv8, b1: bv8, b2: bv8)
    ensures Digit2(Number(b0, b1, b2)) == Second(b0, b1) as bv32
  {
  }

  lemma ThirdDigit(b0: bv8, b1: bv8, b2: bv8)
    ensures Digit1(Number(b0, b1, b2)) == Third(b1, b2) as bv32
  {
  }

  lemma FourthDigit(b0: bv8, b1: bv8, b2: bv8)
    ensures Digit0(Number(b0, b1, b2)) == Fourth(b2) as bv32
  {
  }

  lemma SameSymbol(d: bv32, v: bv8)
    requires v < 64 && d == v as bv32
    ensures DigitSymbol(d) == Symbol(v)
  {
  }

  lemma GroupDigits(b0: bv8, b1: bv8, b2: bv8)
    ensures var n := Number(b0, b1, b2);
            && DigitSymbol(Digit3(n)) == Symbol(First(b0)) && DigitSymbol(Digit2(n)) == Symbol(Second(b0, b1))
            && DigitSymbol(Digit1(n)) == Symbol(Third(b1, b2)) && DigitSymbol(Digit0(n)) == Symbol(Fourth(b2))
  {
    var n := Number(b0, b1, b2);
    FirstDigit(b0, b1, b2);
    SecondDigit(b0, b1, b2);
    ThirdDigit(b0, b1, b2);
    FourthDigit(b0, b1, b2);
    SameSymbol(Digit3(n), First(b0));
    SameSymbol(Digit2(n), Second(b0, b1));
    SameSymbol(Digit1(n), Third(b1, b2));
    SameSymbol(Digit0(n), Fourth(b2));
  }

  // The shifts and masks of the source compute exactly that.
  lemma {:induction false} EncodeIsRfc(s: seq<bv8>)
    ensures Encode(s) == RfcEncode(s)
    decreases |s|
  {
    if |s| == 1 {
      GroupDigits(s[0], 0, 0);
    } else if |s| == 2 {
      GroupDigits(s[0], s[1], 0);
    } else if s != [] {
      GroupDigits(s[0], s[1], s[2]);
      EncodeIsRfc(s[3..]);
    }
  }

  // strlen: the bytes before the first NUL.
  function UntilNul(s: seq<bv8>): (r: seq<bv8>)
    ensures r <= s && 0 !in r && (|r| < |s| ==> s[|r|] == 0)
  {
    if s == [] || s[0] == 0 then [] else [s[0]] + UntilNul(s[1..])
  }

  lemma {:induction false} NulFree(s: seq<bv8>)
    requires 0 !in s
    ensures UntilNul(s) == s
    decreases |s|
  {
    if s != [] {
      assert s[0] in s;
      assert forall x :: x in s[1..] ==> x in s;
      NulFree(s[1..]);
    }
  }

  lemma PartSecond(b0: bv8)
    ensures (b0 << 4) & 0x30 == Second(b0, 0)
  {
  }

  lemma PartThird(b1: bv8)
    ensures (b1 << 2) & 0x3c == Third(b1, 0)
  {
  }

  // The character for six bits, by the source's table.
  method Pick(v: bv8) returns (c: char)
    requires v < 64
    ensures c == Symbol(v)
  {
    TableIsRfc(v as nat);
    c := BASE64CHAR[v as nat];
  }

  // The characters for one round of the encoding loop.
  function GroupOf(s: seq<bv8>): string
    requires s != []
  {
    if |s| == 1 then Group1(s[0]) else if |s| == 2 then Group2(s[0], s[1]) else Group3(s[0], s[1], s[2])
  }

  method PutGroup(data: seq<bv8>, i: nat) returns (g: string)
    requires i < |data|
    ensures g == GroupOf(data[i..])
  {
    var c0 := Pick((data[i] >> 2) & 0x3f);
    if i + 1 >= |data| {
      PartSecond(data[i]);
      var c1 := Pick((data[i] << 4) & 0x30);
      return [c0, c1, PADDING_CHAR, PADDING_CHAR];
    }
    var c1 := Pick(Second(data[i], data[i + 1]));
    if i + 2 >= |data| {
      PartThird(data[i + 1]);
      var c2 := Pick((data[i + 1] << 2) & 0x3c);
      return [c0, c1, c2, PADDING_CHAR];
    }
    var c2 := Pick(Third(data[i + 1], data[i + 2]));
    var c3 := Pick(Fourth(data[i + 2]));
    g := [c0, c1, c2, c3];
  }

  // What the loop still has to write from position i on.
  function Remaining(s: seq<bv8>, i: nat): string {
    if i < |s| then Encode(s[i..]) else ""
  }

  lemma EncodeStep(s: seq<bv8>, i: nat, done: string, g: string)
    requires i < |s| && g == GroupOf(s[i..])
    ensures (done + g) + Remaining(s, i + 3) == done + Remaining(s, i)
  {
    if i + 3 <= |s| {
      assert s[i..][3..] == s[i + 3..];
    }
    assert g + "" == g;
    assert Remaining(s, i) == g + Remaining(s, i + 3);
  }

  // base64_encode_v
  method EncodeV(sourcedata: seq<bv8>) returns (base64: string)
    ensures base64 == Encode(UntilNul(sourcedata))
  {
    var data := UntilNul(sourcedata);
    var i := 0;
    base64 := "";
    assert base64 + Remaining(data, 0) == Encode(data);
    while i < |data|
      invariant base64 + Remaining(data, i) == Encode(data)
    {
      var g := PutGroup(data, i);
      EncodeStep(data, i, base64, g);
      base64 := base64 + g;
      i := i + 3;
    }
  }

  // ----- decoding -----

  function Byte0(t0: bv8, t1: bv8): bv8 { ((t0 << 2) & 0xfc) | ((t1 >> 4) & 0x03) }
  function Byte1(t1: bv8, t2: bv8): bv8 { ((t1 << 4) & 0xf0) | ((t2 >> 2) & 0x0f) }
  function Byte2(t2: bv8, t3: bv8): bv8 { ((t2 << 6) & 0xc0) | (t3 & 0x3f) }

  // One group of four characters; '=' in the third place hides the fourth.
  function DecodeGroup(c0: char, c1: char, c2: char, c3: char): seq<bv8> {
    [Byte0(Value(c0), Value(c1))] +
    if c2 == PADDING_CHAR then []
    else [Byte1(Value(c1), Value(c2))] + if c3 == PADDING_CHAR then [] else [Byte2(Value(c2), Value(c3))]
  }

  function Decode(t: string): seq<bv8>
    requires |t| % 4 == 0
  {
    if t == "" then [] else DecodeGroup(t[0], t[1], t[2], t[3]) + Decode(t[4..])
  }

  // The value of a character, by the source's table.
  method Look(c: char) returns (v: bv8)
    ensures v == Value(c)
  {
    var n := NumStrchr(BASE64CHAR, c);
    FoundIsIndex(c, n);
    v := if n < 0 then 0xFF else n as bv8;
  }

  function GroupAt(t: string, i: nat): seq<bv8>
    requires i + 4 <= |t|
  {
    DecodeGroup(t[i], t[i + 1], t[i + 2], t[i + 3])
  }

  // The body of the decoding loop.
  method TakeGroup(base64: string, i: nat) returns (bytes: seq<bv8>)
    requires i + 4 <= |base64|
    ensures bytes == GroupAt(base64, i)
  {
    var c2, c3 := base64[i + 2], base64[i + 3];
    var t0 := Look(base64[i]);
    var t1 := Look(base64[i + 1]);
    bytes := [Byte0(t0, t1)];
    if c2 == '=' {
      return;
    }
    var t2 := Look(c2);
    bytes := bytes + [Byte1(t1, t2)];
    if c3 == '=' {
      return;
    }
    var t3 := Look(c3);
    bytes := bytes + [Byte2(t2, t3)];
  }

  // What the loop still has to write from position i on, with so many groups left.
  function Undone(t: string, i: nat, left: nat): seq<bv8>
    requires i + 4 * left == |t|
  {
    Decode(t[i..])
  }

  lemma DecodeStep(t: string, i: nat, left: nat, done: seq<bv8>, bytes: seq<bv8>)
    requires i + 4 * left == |t| && left > 0 && bytes == GroupAt(t, i)
    ensures (done + bytes) + Undone(t, i + 4, left - 1) == done + Undone(t, i, left)
  {
    assert t[i..][4..] == t[i + 4..];
    assert Undone(t, i, left) == bytes + Undone(t, i + 4, left - 1);
  }

  lemma DecodeEnds(t: string, left: nat, done: seq<bv8>)
    requires |t| == 4 * left
    ensures |t| % 4 == 0 && Undone(t, 0, left) == Decode(t) && done + Undone(t, |t|, 0) == done
  {
    assert t[0..] == t && t[|t|..] == "";
  }

  // base64_decode; it reads whole groups of four, so the length must be a multiple of four.
  method Base64Decode(base64: string) returns (dedata: seq<bv8>)
    requires |base64| % 4 == 0
    ensures dedata == Decode(base64)
  {
    var i := 0;
    dedata := [];
    ghost var left := |base64| / 4;
    DecodeEnds(base64, left, []);
    while i < |base64|
      invariant left >= 0 && i + 4 * left == |base64|
      invariant dedata + Undone(base64, i, left) == Decode(base64)
    {
      var bytes := TakeGroup(base64, i);
      DecodeStep(base64, i, left, dedata, bytes);
      dedata := dedata + bytes;
      i, left := i + 4, left - 1;
    }
    DecodeEnds(base64, |base64| / 4, dedata);
  }

  // base64_decode_size
  function DecodeSize(size: nat): nat {
    (size + 3) / 4 * 3
  }

  // ----- round trips -----

  lemma {:induction false} EncodedLength(s: seq<bv8>)
    ensures |Encode(s)| == 4 * ((|s| + 2) / 3)
    decreases |s|
  {
    if |s| >= 3 {
      EncodedLength(s[3..]);
    }
  }

  lemma OneGroupMore(n: nat)
    requires n % 4 == 0 && n >= 4
    ensures DecodeSize(n) == n / 4 * 3 && (n - 4) / 4 * 3 + 3 == n / 4 * 3
  {
  }

  lemma {:induction false} DecodedFits(t: string)
    requires |t| % 4 == 0
    ensures |Decode(t)| <= DecodeSize(|t|) == |t| / 4 * 3
    decreases |t|
  {
    if t != "" {
      OneGroupMore(|t|);
      DecodedFits(t[4..]);
      assert |DecodeGroup(t[0], t[1], t[2], t[3])| <= 3;
    }
  }

  lemma GroupBack(b0: bv8, b1: bv8, b2: bv8)
    ensures Byte0(First(b0), Second(b0, b1)) == b0
    ensures Byte1(Second(b0, b1), Third(b1, b2)) == b1
    ensures Byte2(Third(b1, b2), Fourth(b2)) == b2
  {
  }

  lemma DecodeOne(t: string)
    requires |t| == 4
    ensures Decode(t) == DecodeGroup(t[0], t[1], t[2], t[3])
  {
    assert t[4..] == "";
  }

  lemma Group1Back(b0: bv8)
    ensures Decode(Group1(b0)) == [b0]
  {
    GroupBack(b0, 0, 0);
    ValueOfSymbol(First(b0));
    ValueOfSymbol(Second(b0, 0));
    DecodeOne(Group1(b0));
  }

  lemma Group2Back(b0: bv8, b1: bv8)
    ensures Decode(Group2(b0, b1)) == [b0, b1]
  {
    GroupBack(b0, b1, 0);
    ValueOfSymbol(First(b0));
    ValueOfSymbol(Second(b0, b1));
    ValueOfSymbol(Third(b1, 0));
    DecodeOne(Group2(b0, b1));
  }

  lemma Group3Back(b0: bv8, b1: bv8, b2: bv8)
    ensures Decode(Group3(b0, b1, b2)) == [b0, b1, b2]
  {
    GroupBack(b0, b1, b2);
    ValueOfSymbol(First(b0));
    ValueOfSymbol(Second(b0, b1));
    ValueOfSymbol(Third(b1, b2));
    ValueOfSymbol(Fourth(b2));
    DecodeOne(Group3(b0, b1, b2));
  }

  lemma DecodeAppend(g: string, rest: string)
    requires |g| == 4 && |rest| % 4 == 0
    ensures |g + rest| % 4 == 0 && Decode(g + rest) == Decode(g) + Decode(rest)
  {
    DecodeOne(g);
    assert (g + rest)[4..] == rest;
  }

  lemma RoundTripStep(b0: bv8, b1: bv8, b2: bv8, rest: seq<bv8>, code: string)
    requires |code| % 4 == 0 && Decode(code) == rest
    ensures |Group3(b0, b1, b2) + code| % 4 == 0
    ensures Decode(Group3(b0, b1, b2) + code) == [b0, b1, b2] + rest
  {
    DecodeAppend(Group3(b0, b1, b2), code);
    Group3Back(b0, b1, b2);
  }

  lemma FirstThree<E>(s: seq<E>)
    requires |s| >= 3
    ensures s == [s[0], s[1], s[2]] + s[3..]
  {
  }

  // Decoding undoes encoding, for every byte string.
  lemma ShortRoundTrip(s: seq<bv8>)
    requires 1 <= |s| <= 2
    ensures |Encode(s)| % 4 == 0 && Decode(Encode(s)) == s
  {
    if |s| == 1 {
      Group1Back(s[0]);
      assert s == [s[0]];
    } else {
      Group2Back(s[0], s[1]);
      assert s == [s[0], s[1]];
    }
  }

  lemma {:induction false} RoundTrip(s: seq<bv8>)
    ensures |Encode(s)| % 4 == 0 && Decode(Encode(s)) == s
    decreases |s|
  {
    if 1 <= |s| <= 2 {
      ShortRoundTrip(s);
    } else if s != [] {
      RoundTrip(s[3..]);
      FirstThree(s);
      RoundTripStep(s[0], s[1], s[2], s[3..], Encode(s[3..]));
    }
  }

  // What base64_decode makes of what base64_encode_v wrote: the bytes up to the first NUL, so all of a NUL-free string.
  lemma SourceRoundTrip(s: seq<bv8>)
    ensures |Encode(UntilNul(s))| % 4 == 0 && Decode(Encode(UntilNul(s))) == UntilNul(s)
    ensures Decode(Encode(UntilNul(s))) == s <==> 0 !in s
  {
    RoundTrip(UntilNul(s));
    if 0 !in s {
      NulFree(s);
    }
  }

  // ----- which texts are encodings -----

  // A group that an encoding can end with or, without padding, contain: its characters are in the alphabet, and the
  // bits that padding leaves unused are zero.
  predicate FullGroup(g: string)
    requires |g| == 4
  {
    IndexOf(g[0]) >= 0 && IndexOf(g[1]) >= 0 && IndexOf(g[2]) >= 0 && IndexOf(g[3]) >= 0
  }

  predicate LastGroup(g: string)
    requires |g| == 4
  {
    || FullGroup(g)
    || (IndexOf(g[0]) >= 0 && IndexOf(g[1]) >= 0 && IndexOf(g[2]) >= 0 && g[3] == PADDING_CHAR
        && Value(g[2]) & 0x03 == 0)
    || (IndexOf(g[0]) >= 0 && IndexOf(g[1]) >= 0 && g[2] == PADDING_CHAR && g[3] == PADDING_CHAR
        && Value(g[1]) & 0x0f == 0)
  }

  predicate WellFormed(t: string)
    requires |t| % 4 == 0
  {
    t != "" ==> if |t| == 4 then LastGroup(t) else FullGroup(t[..4]) && WellFormed(t[4..])
  }

  lemma ValuesBack(t0: bv8, t1: bv8, t2: bv8, t3: bv8)
    requires t0 < 64 && t1 < 64 && t2 < 64 && t3 < 64
    ensures First(Byte0(t0, t1)) == t0
    ensures Second(Byte0(t0, t1), Byte1(t1, t2)) == t1
    ensures Third(Byte1(t1, t2), Byte2(t2, t3)) == t2
    ensures Fourth(Byte2(t2, t3)) == t3
    ensures t1 & 0x0f == 0 ==> Second(Byte0(t0, t1), 0) == t1
    ensures t2 & 0x03 == 0 ==> Third(Byte1(t1, t2), 0) == t2
  {
  }

  lemma UnusedBits(b0: bv8, b1: bv8)
    ensures Second(b0, 0) & 0x0f == 0 && Third(b1, 0) & 0x03 == 0
  {
  }

  lemma SymbolsKnown(v: bv8)
    requires v < 64
    ensures IndexOf(Symbol(v)) >= 0
  {
    SymbolIndex(v as nat);
  }

  lemma GroupsWellFormed(b0: bv8, b1: bv8, b2: bv8)
    ensures LastGroup(Group1(b0)) && LastGroup(Group2(b0, b1)) && FullGroup(Group3(b0, b1, b2))
  {
    UnusedBits(b0, b1);
    SymbolsKnown(First(b0));
    SymbolsKnown(Second(b0, 0));
    SymbolsKnown(Second(b0, b1));
    SymbolsKnown(Third(b1, 0));
    SymbolsKnown(Third(b1, b2));
    SymbolsKnown(Fourth(b2));
    ValueOfSymbol(Second(b0, 0));
    ValueOfSymbol(Third(b1, 0));
  }

  lemma WellFormedCons(g: string, rest: string)
    requires |g| == 4 && FullGroup(g) && |rest| % 4 == 0 && WellFormed(rest)
    ensures |g + rest| % 4 == 0 && WellFormed(g + rest)
  {
    var t := g + rest;
    assert t[..4] == g && t[4..] == rest;
    if |t| == 4 {
      assert t == g;
    }
  }

  lemma {:induction false} EncodedWellFormed(s: seq<bv8>)
    ensures |Encode(s)| % 4 == 0 && WellFormed(Encode(s))
    decreases |s|
  {
    if s == [] {
    } else if |s| == 1 {
      GroupsWellFormed(s[0], 0, 0);
    } else if |s| == 2 {
      GroupsWellFormed(s[0], s[1], 0);
    } else {
      GroupsWellFormed(s[0], s[1], s[2]);
      EncodedWellFormed(s[3..]);
      WellFormedCons(Group3(s[0], s[1], s[2]), Encode(s[3..]));
    }
  }

  lemma FullGroupBack(g: string)
    requires |g| == 4 && FullGroup(g)
    ensures |Decode(g)| == 3 && Group3(Decode(g)[0], Decode(g)[1], Decode(g)[2]) == g
  {
    DecodeOne(g);
    SymbolOfValue(g[0]);
    SymbolOfValue(g[1]);
    SymbolOfValue(g[2]);
    SymbolOfValue(g[3]);
    ValuesBack(Value(g[0]), Value(g[1]), Value(g[2]), Value(g[3]));
  }

  lemma ShortGroupBack(g: string)
    requires |g| == 4 && LastGroup(g) && g[3] == PADDING_CHAR
    ensures 1 <= |Decode(g)| <= 2 && Encode(Decode(g)) == g
  {
    DecodeOne(g);
    SymbolOfValue(g[0]);
    SymbolOfValue(g[1]);
    if g[2] != PADDING_CHAR {
      SymbolOfValue(g[2]);
      ValuesBack(Value(g[0]), Value(g[1]), Value(g[2]), 0);
    } else {
      ValuesBack(Value(g[0]), Value(g[1]), 0, 0);
    }
  }

  lemma EncodeJoined(b: seq<bv8>, s: seq<bv8>)
    requires |b| == 3
    ensures Encode(b + s) == Group3(b[0], b[1], b[2]) + Encode(s)
  {
    assert (b + s)[3..] == s;
  }

  lemma FullGroupThenRest(g: string, rest: string)
    requires |g| == 4 && FullGroup(g) && |rest| % 4 == 0 && Encode(Decode(rest)) == rest
    ensures Encode(Decode(g + rest)) == g + rest
  {
    FullGroupBack(g);
    DecodeAppend(g, rest);
    EncodeJoined(Decode(g), Decode(rest));
  }

  lemma {:induction false} WellFormedBack(t: string)
    requires |t| % 4 == 0 && WellFormed(t)
    ensures Encode(Decode(t)) == t
    decreases |t|
  {
    if |t| == 4 && !FullGroup(t) {
      ShortGroupBack(t);
    } else if t != "" {
      WellFormedBack(t[4..]);
      assert t == t[..4] + t[4..];
      if |t| == 4 {
        assert t[..4] == t;
      }
      FullGroupThenRest(t[..4], t[4..]);
    }
  }

  // ----- characters outside the alphabet -----

  predicate InAlphabet(c: char) {
    'A' <= c <= 'Z' || 'a' <= c <= 'z' || '0' <= c <= '9' || c == '+' || c == '/'
  }

  // A character that is neither in the alphabet nor a padding counts as the last one of the alphabet.
  function Slashed(c: char): char {
    if InAlphabet(c) || c == '=' then c else '/'
  }

  function AllSlashed(t: string): (r: string)
    ensures |r| == |t|
  {
    if t == "" then "" else [Slashed(t[0])] + AllSlashed(t[1..])
  }

  lemma OnesCount(x: bv8)
    ensures Byte0(0xFF, x) == Byte0(63, x) && Byte0(x, 0xFF) == Byte0(x, 63)
    ensures Byte1(0xFF, x) == Byte1(63, x) && Byte1(x, 0xFF) == Byte1(x, 63)
    ensures Byte2(0xFF, x) == Byte2(63, x) && Byte2(x, 0xFF) == Byte2(x, 63)
  {
  }

  lemma SlashedValue(c: char)
    ensures Value(Slashed(c)) == Value(c) || (Value(Slashed(c)) == 63 && Value(c) == 0xFF)
    ensures Slashed(c) == PADDING_CHAR <==> c == PADDING_CHAR
  {
    ByteIndex(63);
  }

  lemma GroupSlashed(c0: char, c1: char, c2: char, c3: char)
    ensures DecodeGroup(Slashed(c0), Slashed(c1), Slashed(c2), Slashed(c3)) == DecodeGroup(c0, c1, c2, c3)
  {
    SlashedValue(c0);
    SlashedValue(c1);
    SlashedValue(c2);
    SlashedValue(c3);
    OnesCount(Value(c0));
    OnesCount(Value(c1));
    OnesCount(Value(c2));
    OnesCount(Value(c3));
    OnesCount(63);
  }

  lemma SlashedParts(t: string)
    requires |t| >= 4
    ensures var u := AllSlashed(t);
            && u[0] == Slashed(t[0]) && u[1] == Slashed(t[1]) && u[2] == Slashed(t[2]) && u[3] == Slashed(t[3])
            && u[4..] == AllSlashed(t[4..])
  {
    var u := AllSlashed(t);
    assert t[1..][1..] == t[2..] && t[2..][1..] == t[3..] && t[3..][1..] == t[4..];
    assert u[1..] == AllSlashed(t[1..]);
    assert u[2..] == AllSlashed(t[2..]);
    assert u[3..] == AllSlashed(t[3..]);
  }

  // What decoding makes of any text of whole groups is what it makes of the text with such characters replaced.
  lemma {:induction false} UnknownIsSlash(t: string)
    requires |t| % 4 == 0
    ensures Decode(AllSlashed(t)) == Decode(t)
    decreases |t|
  {
    if t != "" {
      SlashedParts(t);
      GroupSlashed(t[0], t[1], t[2], t[3]);
      UnknownIsSlash(t[4..]);
    }
  }

  // A text of whole groups is the encoding of what it decodes to exactly when it is well-formed.
  lemma EncodesIffWellFormed(t: string)
    requires |t| % 4 == 0
    ensures Encode(Decode(t)) == t <==> WellFormed(t)
  {
    if WellFormed(t) {
      WellFormedBack(t);
    }
    EncodedWellFormed(Decode(t));
  }
}