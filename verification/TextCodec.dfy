/**
 The text helpers of lib/source/neo430_i2c.c: parsing a NUL-terminated
 hexadecimal string into a 32- or 16-bit word, and spelling a byte as three
 decimal ASCII digits without using division.
 */
module TextCodec {
  import opened I2CDefs

  /** strlen: the index of the first NUL, or the whole sequence when there is none. */
  function Strlen(s: seq<char>): (n: nat)
    ensures n <= |s|
    ensures forall i :: 0 <= i < n ==> s[i] != '\0'
    ensures n < |s| ==> s[n] == '\0'
  {
    if s == [] || s[0] == '\0' then 0 else 1 + Strlen(s[1..])
  }

  /** The value of one character: 0-9, a-f and A-F as hex digits, anything else as 0. */
  function HexDigit(c: char): (d: nat)
    ensures d < 16
  {
    if '0' <= c <= '9' then (c - '0') as nat
    else if 'a' <= c <= 'f' then (c - 'a') as nat + 10
    else if 'A' <= c <= 'F' then (c - 'A') as nat + 10
    else 0
  }

  /** 16 to the power k: the weight of the digit k places from the end. */
  function Pow16(k: nat): (p: nat)
    ensures p >= 1
  {
    if k == 0 then 1 else 16 * Pow16(k - 1)
  }

  /** One more digit below a value of `k` digits still fits in `k + 1` digits. */
  lemma AppendDigitBound(h: nat, d: nat, k: nat)
    requires h < Pow16(k) && d < 16
    ensures h * 16 + d < Pow16(k + 1)
  {
  }

  /**
   The number a string of hex digits denotes, most significant digit first:
   each digit multiplies the value so far by sixteen and adds itself.
   */
  function HexValue(s: seq<char>): (v: nat)
    ensures v < Pow16(|s|)
  {
    if s == [] then 0
    else
      var h := HexValue(s[..|s| - 1]);
      AppendDigitBound(h, HexDigit(s[|s| - 1]), |s| - 1);
      h * 16 + HexDigit(s[|s| - 1])
  }

  /**
   `d << (4 * k)`: a digit moved up k nibbles. The parses below shift by less
   than the word width, and the digits they add never overlap, so no bit is
   lost and the shift is this product.
   */
  function NibbleShift(d: nat, k: nat): nat {
    d * Pow16(k)
  }

  /**
   One round of the parse loop: adding the digit at `p`, moved up past the
   `rest` digits still to come, extends the parsed prefix by one digit.
   */
  lemma AddDigit(s: seq<char>, p: nat, rest: nat)
    requires p < |s|
    ensures HexValue(s[..p]) * Pow16(rest + 1) + NibbleShift(HexDigit(s[p]), rest)
         == HexValue(s[..p + 1]) * Pow16(rest)
  {
    assert s[..p + 1][..p] == s[..p];
    var h := HexValue(s[..p]);
    var q := Pow16(rest);
    calc {
      HexValue(s[..p + 1]) * q;
      (h * 16 + HexDigit(s[p])) * q;
      { Distribute(h * 16, HexDigit(s[p]), q); }
      h * 16 * q + HexDigit(s[p]) * q;
      { assert h * 16 * q == h * (16 * q); }
      h * Pow16(rest + 1) + NibbleShift(HexDigit(s[p]), rest);
    }
  }

  lemma Distribute(a: int, b: int, c: int)
    ensures (a + b) * c == a * c + b * c
  {
  }

  lemma {:induction false} Pow16Monotone(j: nat, k: nat)
    requires j <= k
    ensures Pow16(j) <= Pow16(k)
    decreases k
  {
    if j < k {
      Pow16Monotone(j, k - 1);
    }
  }

  /**
   The shared loop of hex_str_to_uint32 and hex_str_to_uint16: `length`
   counts down the characters of the string before its NUL; each character's
   digit value is shifted up four bits for every character still to come and
   added in. The result is the number the string spells.
   */
  method ParseHex(buf: seq<char>) returns (r: nat)
    ensures r == HexValue(buf[..Strlen(buf)])
    ensures r < Pow16(Strlen(buf))
  {
    var n := Strlen(buf);
    var length := n;
    var res := 0;
    var p := 0;
    assert buf[..0] == [];
    while length > 0
      invariant p + length == n
      invariant res == HexValue(buf[..p]) * Pow16(length)
    {
      length := length - 1;
      var d := HexDigit(buf[p]);
      AddDigit(buf, p, length);
      res := res + NibbleShift(d, length);
      assert res == HexValue(buf[..p + 1]) * Pow16(length);
      p := p + 1;
    }
    assert p == n && Pow16(0) == 1;
    r := res;
  }

  /**
   hex_str_to_uint32. The string comes from a scan of at most eight
   characters and a NUL, so no shift reaches 32 bits and the sum fits: the
   result is the value of the digits before the NUL.
   */
  method HexStrToUint32(buf: seq<char>) returns (r: uint32)
    requires Strlen(buf) <= 8
    ensures r == HexValue(buf[..Strlen(buf)])
  {
    var v := ParseHex(buf);
    Pow16Monotone(Strlen(buf), 8);
    r := v;
  }

  /** hex_str_to_uint16, for a string of at most four characters before its NUL. */
  method HexStrToUint16(buf: seq<char>) returns (r: uint16)
    requires Strlen(buf) <= 4
    ensures r == HexValue(buf[..Strlen(buf)])
  {
    var v := ParseHex(buf);
    Pow16Monotone(Strlen(buf), 4);
    r := v;
  }

  /** The upper-case hex character for a digit value. */
  function HexChar(d: nat): (c: char)
    requires d < 16
    ensures HexDigit(c) == d
  {
    if d < 10 then ('0' as int + d) as char else ('A' as int + d - 10) as char
  }

  /** Characters the parse reads as themselves: 0-9 and A-F. */
  predicate IsUpperHex(c: char) {
    '0' <= c <= '9' || 'A' <= c <= 'F'
  }

  /** The `k` upper-case hex digits of `x`, most significant first (zero-padded, truncated above). */
  function HexDigits(x: nat, k: nat): (s: seq<char>)
    ensures |s| == k
    ensures forall i :: 0 <= i < k ==> IsUpperHex(s[i])
  {
    if k == 0 then [] else HexDigits(x / 16, k - 1) + [HexChar(x % 16)]
  }

  lemma DivMod16(x: nat, p: nat)
    requires x < 16 * p
    ensures x / 16 < p && x == (x / 16) * 16 + x % 16
  {
  }

  lemma DivMod16Exact(h: nat, d: nat)
    requires d < 16
    ensures (h * 16 + d) / 16 == h && (h * 16 + d) % 16 == d
  {
  }

  /** Printing `x` in `k` digits and parsing the digits back gives `x`. */
  lemma {:induction false} ParsePrinted(x: nat, k: nat)
    requires x < Pow16(k)
    ensures HexValue(HexDigits(x, k)) == x
    decreases k
  {
    if k > 0 {
      DivMod16(x, Pow16(k - 1));
      ParsePrinted(x / 16, k - 1);
      var s := HexDigits(x, k);
      assert s[..k - 1] == HexDigits(x / 16, k - 1);
    }
  }

  /** Parsing a string of upper-case hex digits and printing it back in as many digits gives the string. */
  lemma {:induction false} PrintParsed(s: seq<char>)
    requires forall i :: 0 <= i < |s| ==> IsUpperHex(s[i])
    ensures HexDigits(HexValue(s), |s|) == s
    decreases |s|
  {
    if s != [] {
      var last := s[|s| - 1];
      var h := HexValue(s[..|s| - 1]);
      DivMod16Exact(h, HexDigit(last));
      PrintParsed(s[..|s| - 1]);
      assert HexChar(HexDigit(last)) == last;
      assert s == s[..|s| - 1] + [last];
    }
  }

  /** Lower-case digits parse as their upper-case forms. */
  lemma HexDigitIgnoresCase(c: char)
    requires 'a' <= c <= 'f'
    ensures HexDigit(c) == HexDigit((c as int - 32) as char)
  {
  }

  /** The parse of a string is fixed by its characters before the first NUL. */
  lemma HexIgnoresTail(s: seq<char>, tail: seq<char>)
    requires Strlen(s) < |s|
    ensures Strlen(s + tail) == Strlen(s)
    ensures (s + tail)[..Strlen(s + tail)] == s[..Strlen(s)]
  {
    StrlenPrefix(s, tail);
  }

  lemma {:induction false} StrlenPrefix(s: seq<char>, tail: seq<char>)
    requires Strlen(s) < |s|
    ensures Strlen(s + tail) == Strlen(s)
    decreases |s|
  {
    if s[0] != '\0' {
      assert (s + tail)[1..] == s[1..] + tail;
      StrlenPrefix(s[1..], tail);
    }
  }

  lemma HexExampleIp()
    ensures HexValue("0A000001") == 0x0A000001
  {
    assert "0A000001"[..7] == "0A00000";
    assert "0A00000"[..6] == "0A0000";
    assert "0A0000"[..5] == "0A000";
    assert "0A000"[..4] == "0A00";
    assert "0A00"[..3] == "0A0";
    assert "0A0"[..2] == "0A";
    assert "0A"[..1] == "0";
  }

  /** Characters that are not hex digits count as zero. */
  lemma HexExampleJunk()
    ensures HexValue("0g00z1") == 1 && HexValue("") == 0
  {
    assert "0g00z1"[..5] == "0g00z";
    assert "0g00z"[..4] == "0g00";
    assert "0g00"[..3] == "0g0";
    assert "0g0"[..2] == "0g";
    assert "0g"[..1] == "0";
  }

  /** The characters the parse reads as digits: 0-9, a-f and A-F. */
  predicate IsHexChar(c: char) {
    '0' <= c <= '9' || 'a' <= c <= 'f' || 'A' <= c <= 'F'
  }

  /** Any character that is not a hex digit, anywhere in the string, counts as a '0'. */
  lemma {:induction false} NonHexIsZero(s: seq<char>, i: nat)
    requires i < |s| && !IsHexChar(s[i])
    ensures HexValue(s) == HexValue(s[i := '0'])
    decreases |s|
  {
    var t := s[i := '0'];
    var n := |s| - 1;
    if i == n {
      assert t[..n] == s[..n];
    } else {
      assert t[..n] == s[..n][i := '0'];
      NonHexIsZero(s[..n], i);
    }
  }

  lemma HexExampleCase()
    ensures HexValue("ff") == HexValue("FF") == 0xff
  {
    assert "ff"[..1] == "f" && "FF"[..1] == "F";
  }

  /** The scan leaves the digits NUL-terminated; the parse stops at the NUL. */
  lemma StrlenExample()
    ensures Strlen("0A\0\0") == 2 && Strlen("") == 0
  {
    assert "0A\0\0"[1..] == "A\0\0";
    assert "A\0\0"[1..] == "\0\0";
  }

  /** ASCII '0'. */
  const ASCII_ZERO: uint8 := 48

  predicate IsDigit(b: uint8) {
    ASCII_ZERO <= b <= ASCII_ZERO + 9
  }

  /** The number three ASCII digits spell, most significant first. */
  function DigitsValue(buf: seq<uint8>): int
    requires |buf| >= 3
  {
    100 * (buf[0] - ASCII_ZERO) + 10 * (buf[1] - ASCII_ZERO) + (buf[2] - ASCII_ZERO)
  }

  /** Three ASCII digits that spell `value`, then a NUL. */
  predicate SpellsDecimal(buf: seq<uint8>, value: int) {
    && |buf| == 4 && buf[3] == 0
    && IsDigit(buf[0]) && IsDigit(buf[1]) && IsDigit(buf[2])
    && DigitsValue(buf) == value
  }

  /** `magnitude[idx]` (1, 10 or 100) times `d`. */
  function Scale(d: int, idx: int): int
    requires 0 <= idx < 3
  {
    if idx == 0 then d else if idx == 1 then 10 * d else 100 * d
  }

  /**
   uint8_to_decimal_str with its test `value - (trialValue + delta) >= 0`
   evaluated over mathematical integers (the result on a host whose int has
   32 bits): for
   hundreds, tens and ones in turn, add the magnitude to a running trial value
   as long as it does not pass `value`, counting each step in that digit.
   */
  method Uint8ToDecimalStr(value: uint8) returns (buf: seq<uint8>)
    ensures SpellsDecimal(buf, value)
  {
    var magnitude: seq<int> := [1, 10, 100];
    buf := [ASCII_ZERO, ASCII_ZERO, ASCII_ZERO, 0];
    var trialValue: int := 0;
    var magnitudeIdx: int := 2;
    while magnitudeIdx > -1
      invariant -1 <= magnitudeIdx <= 2
      invariant |buf| == 4 && buf[3] == 0
      invariant 0 <= trialValue <= value
      invariant value - trialValue < (if magnitudeIdx == -1 then 1 else Scale(10, magnitudeIdx))
      invariant IsDigit(buf[0]) && IsDigit(buf[1]) && IsDigit(buf[2])
      invariant forall k :: 2 - magnitudeIdx <= k < 3 ==> buf[k] == ASCII_ZERO
      invariant DigitsValue(buf) == trialValue
    {
      var delta := magnitude[magnitudeIdx];
      assert delta == Scale(1, magnitudeIdx);
      ghost var before := trialValue;
      var digit := 0;
      while digit < 10
        invariant 0 <= digit <= 10
        invariant |buf| == 4 && buf[3] == 0
        invariant trialValue == before + Scale(digit, magnitudeIdx) <= value
        invariant buf[2 - magnitudeIdx] == ASCII_ZERO + digit
        invariant IsDigit(buf[0]) && IsDigit(buf[1]) && IsDigit(buf[2])
        invariant forall k :: 2 - magnitudeIdx < k < 3 ==> buf[k] == ASCII_ZERO
        invariant DigitsValue(buf) == trialValue
      {
        if value - (trialValue + delta) >= 0 {
          trialValue := trialValue + delta;
          buf := buf[2 - magnitudeIdx := buf[2 - magnitudeIdx] + 1];
        } else {
          break;
        }
        digit := digit + 1;
      }
      magnitudeIdx := magnitudeIdx - 1;
    }
  }

  /**
   uint8_to_decimal_str as it behaves where int has 16 bits, as on the NEO430:
   `trialValue + delta` adds two uint16_t values and so is unsigned int, the
   subtraction from `value` is therefore unsigned too, and the test `>= 0` can
   never fail. Every digit is incremented ten times.
   */
  method Uint8ToDecimalStr16(value: uint8) returns (buf: seq<uint8>)
    ensures buf == [ASCII_ZERO + 10, ASCII_ZERO + 10, ASCII_ZERO + 10, 0]
  {
    var magnitude: seq<bv16> := [1, 10, 100];
    buf := [ASCII_ZERO, ASCII_ZERO, ASCII_ZERO, 0];
    var trialValue: bv16 := 0;
    var magnitudeIdx: int := 2;
    while magnitudeIdx > -1
      invariant -1 <= magnitudeIdx <= 2
      invariant |buf| == 4 && buf[3] == 0
      invariant forall k :: 0 <= k < 3 ==> buf[k] == (if k < 2 - magnitudeIdx then ASCII_ZERO + 10 else ASCII_ZERO)
    {
      var delta := magnitude[magnitudeIdx];
      var digit := 0;
      while digit < 10
        invariant 0 <= digit <= 10
        invariant |buf| == 4 && buf[3] == 0
        invariant buf[2 - magnitudeIdx] == ASCII_ZERO + digit
        invariant forall k :: 0 <= k < 3 && k != 2 - magnitudeIdx ==>
          buf[k] == (if k < 2 - magnitudeIdx then ASCII_ZERO + 10 else ASCII_ZERO)
      {
        var difference: bv16 := (value as bv16) - (trialValue + delta);
        if difference as int >= 0 {
          trialValue := trialValue + delta;
          buf := buf[2 - magnitudeIdx := buf[2 - magnitudeIdx] + 1];
        } else {
          break;
        }
        digit := digit + 1;
      }
      magnitudeIdx := magnitudeIdx - 1;
    }
  }

  /** The 16-bit result, ":::" and a NUL, spells no value at all. */
  lemma ColonsSpellNothing(value: int)
    ensures !SpellsDecimal([ASCII_ZERO + 10, ASCII_ZERO + 10, ASCII_ZERO + 10, 0], value)
  {
  }
}
