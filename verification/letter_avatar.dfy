/** The letter avatar: a background colour derived from a user name by a
    31-multiplier polynomial hash over its UTF-16 code units, and the name's
    first code unit, upper-cased, as the label. */
module LetterAvatar {
  import opened Wrappers
  import opened Ecma

  /** A UTF-16 code unit, what `charCodeAt` returns. */
  type CodeUnit = c: int | 0 <= c < 0x1_0000

  // ---------------------------------------------------------------------
  // The hash

  /** One step of the hash loop, `charCode + ((hash << 5) - hash)`, on an
      exact Number `hash`. Only the shift truncates to 32 bits. */
  function HashStep(hash: int, unit: CodeUnit): int {
    unit + (LeftShift(hash, 5) - hash)
  }

  /** `hash` once the loop has read all of `s`, left to right, from 0. */
  function JsHash(s: seq<CodeUnit>): int {
    if |s| == 0 then 0 else HashStep(JsHash(s[..|s| - 1]), s[|s| - 1])
  }

  /** The polynomial hash `h := 31 * h + c` modulo 2^32, from 0. */
  function Hash32(s: seq<CodeUnit>): (h: nat)
    ensures h < TwoTo32
  {
    if |s| == 0 then 0 else (31 * Hash32(s[..|s| - 1]) + s[|s| - 1]) % TwoTo32
  }

  /** The arithmetic behind one step: if `t` and `shifted` are congruent to
      `hash` and `32 * t` modulo 2^32, then `unit + shifted - hash` is
      congruent to `31 * hash + unit`. */
  lemma StepArithmetic(hash: int, t: int, shifted: int, unit: int)
    requires (hash - t) % TwoTo32 == 0
    requires (32 * t - shifted) % TwoTo32 == 0
    ensures (unit + shifted - hash) % TwoTo32 == (31 * (hash % TwoTo32) + unit) % TwoTo32
  {
    var ka := (32 * t - shifted) / TwoTo32;
    var kb := (hash - t) / TwoTo32;
    var kc := hash / TwoTo32;
    assert 32 * t - shifted == TwoTo32 * ka;
    assert hash - t == TwoTo32 * kb;
    assert hash == TwoTo32 * kc + hash % TwoTo32;
    assert (unit + shifted - hash) - (31 * (hash % TwoTo32) + unit)
        == TwoTo32 * (31 * kc - ka - 32 * kb);
    ModOfCongruent(unit + shifted - hash, 31 * (hash % TwoTo32) + unit);
  }

  /** Each step of the loop is `31 * hash + charCode` modulo 2^32. */
  lemma HashStepCongruent(hash: int, unit: CodeUnit)
    ensures HashStep(hash, unit) % TwoTo32 == (31 * (hash % TwoTo32) + unit) % TwoTo32
  {
    assert Pow2(5) == 32;
    StepArithmetic(hash, ToInt32(hash), LeftShift(hash, 5), unit);
  }

  /** The loop's exact Number agrees with the 32-bit hash on every bit the
      colour reads. */
  lemma {:induction false} JsHashIsHash32(s: seq<CodeUnit>)
    ensures JsHash(s) % TwoTo32 == Hash32(s)
  {
    if |s| > 0 {
      var prefix := s[..|s| - 1];
      JsHashIsHash32(prefix);
      HashStepCongruent(JsHash(prefix), s[|s| - 1]);
    }
  }

  /** The loop's Number grows by less than 2^31 + 2^16 per code unit, so it
      stays an exact integer (below 2^53) for names of up to four million
      code units. */
  lemma {:induction false} JsHashBound(s: seq<CodeUnit>)
    ensures -(|s| * (TwoTo31 + 0x1_0000)) <= JsHash(s) <= |s| * (TwoTo31 + 0x1_0000)
  {
    if |s| > 0 {
      JsHashBound(s[..|s| - 1]);
    }
  }

  /** The hash reads the code units in order: swapping two of them can change it. */
  lemma HashIsOrderSensitive()
    ensures Hash32([0, 1]) != Hash32([1, 0])
  {
    assert [0, 1][..1] == [0];
    assert [1, 0][..1] == [1];
    assert Hash32([0, 1]) == 1;
    assert Hash32([1, 0]) == 31;
  }

  // ---------------------------------------------------------------------
  // Hexadecimal formatting

  predicate IsHexDigit(ch: char) {
    '0' <= ch <= '9' || 'a' <= ch <= 'f'
  }

  /** The lowercase hexadecimal digit of `d`. */
  function HexDigit(d: nat): (ch: char)
    requires d < 16
    ensures IsHexDigit(ch)
  {
    if d < 10 then ('0' as int + d) as char else ('a' as int + d - 10) as char
  }

  /** The value of a lowercase hexadecimal digit. */
  function HexValue(ch: char): (r: Option<nat>)
    ensures r.Some? <==> IsHexDigit(ch)
    ensures r.Some? ==> r.value < 16 && HexDigit(r.value) == ch
  {
    if '0' <= ch <= '9' then Some(ch as int - '0' as int)
    else if 'a' <= ch <= 'f' then Some(ch as int - 'a' as int + 10)
    else None
  }

  lemma HexValueOfDigit(d: nat)
    requires d < 16
    ensures HexValue(HexDigit(d)) == Some(d)
  {
  }

  /** `Number.prototype.toString(16)` on a non-negative integer: lowercase
      hexadecimal digits, no leading zero. */
  function ToHexString(n: nat): (s: string)
    ensures 1 <= |s|
    ensures forall k :: 0 <= k < |s| ==> IsHexDigit(s[k])
    ensures n < 16 <==> |s| == 1
    ensures n >= 16 ==> s[0] != '0'
    decreases n
  {
    if n < 16 then [HexDigit(n)] else ToHexString(n / 16) + [HexDigit(n % 16)]
  }

  /** The number a string of lowercase hexadecimal digits denotes. */
  function ParseHex(s: string): Option<nat> {
    if |s| == 0 then Some(0)
    else match (ParseHex(s[..|s| - 1]), HexValue(s[|s| - 1]))
      case (Some(high), Some(low)) => Some(16 * high + low)
      case _ => None
  }

  /** Reading back what `toString(16)` writes gives the number again. */
  lemma {:induction false} ToHexStringRoundTrip(n: nat)
    ensures ParseHex(ToHexString(n)) == Some(n)
    decreases n
  {
    var s := ToHexString(n);
    if n < 16 {
      assert s[..0] == [];
      HexValueOfDigit(n);
    } else {
      ToHexStringRoundTrip(n / 16);
      assert s[..|s| - 1] == ToHexString(n / 16);
      HexValueOfDigit(n % 16);
    }
  }

  /** `.slice(-n)`: the last `n` characters, or all of a shorter string. */
  function SliceLast(s: string, n: nat): string {
    if |s| <= n then s else s[|s| - n..]
  }

  /** `` `00${value.toString(16)}`.slice(-2) `` */
  function Pad2(value: nat): string {
    SliceLast("00" + ToHexString(value), 2)
  }

  /** Two lowercase hexadecimal digits of a byte, high nibble first. */
  function HexByte(b: nat): string
    requires b < 256
  {
    [HexDigit(b / 16), HexDigit(b % 16)]
  }

  /** Padding a byte to two digits always writes both of its nibbles. */
  lemma Pad2IsHexByte(value: nat)
    requires value < 256
    ensures Pad2(value) == HexByte(value)
  {
    if value >= 16 {
      assert ToHexString(value) == ToHexString(value / 16) + [HexDigit(value % 16)];
    }
  }

  // ---------------------------------------------------------------------
  // The colour

  /** Bits `8 * i` to `8 * i + 7` of `h`. */
  function Byte(h: nat, i: nat): (b: nat)
    ensures b < 256
  {
    h / Pow2(8 * i) % 256
  }

  /** `(hash >> (i * 8)) & 0xff` */
  function Channel(hash: int, i: nat): int
    requires i < 3
  {
    AndLowByte(SignedRightShift(hash, i * 8))
  }

  lemma Pow2Bytes()
    ensures Pow2(0) == 1 && Pow2(8) == 0x100 && Pow2(16) == 0x1_0000
  {
    assert Pow2(8) == 0x100 by {
      assert Pow2(4) == 16;
    }
    assert Pow2(16) == 0x1_0000 by {
      assert Pow2(12) == 0x1000;
    }
  }

  /** Channel `i` of the exact Number is byte `i` of its value modulo 2^32,
      whether ToInt32 reads it as negative or not. */
  lemma ChannelIsByte(hash: int, i: nat)
    requires i < 3
    ensures Channel(hash, i) == Byte(hash % TwoTo32, i)
  {
    var u := hash % TwoTo32;
    var t := ToInt32(hash);
    var shifted := SignedRightShift(hash, i * 8);
    assert shifted == t / Pow2(8 * i);
    ToInt32InRange(shifted);
    if t != u {
      assert t == u - TwoTo32;
      ByteBelowWrap(u, i);
    }
  }

  /** Subtracting 2^32 before the shift leaves bytes 0, 1 and 2 as they were. */
  lemma ByteBelowWrap(u: int, i: nat)
    requires i < 3
    ensures (u - TwoTo32) / Pow2(8 * i) % 256 == u / Pow2(8 * i) % 256
  {
    Pow2Bytes();
    var w := u - TwoTo32;
    if i == 0 {
      DivMod256(u, u / 256, u % 256);
      DivMod256(w, u / 256 - 0x100_0000, u % 256);
    } else if i == 1 {
      var q := u / 256;
      DivMod256(u, q, u % 256);
      DivMod256(w, q - 0x100_0000, u % 256);
      DivMod256(q, q / 256, q % 256);
      DivMod256(q - 0x100_0000, q / 256 - 0x1_0000, q % 256);
    } else {
      var q := u / 0x1_0000;
      DivMod65536(u, q, u % 0x1_0000);
      DivMod65536(w, q - 0x1_0000, u % 0x1_0000);
      DivMod256(q, q / 256, q % 256);
      DivMod256(q - 0x1_0000, q / 256 - 256, q % 256);
    }
  }

  /** `'#'` and the first `i` channels of the hash, as the colour loop has
      built them after `i` rounds. */
  function ColorPrefix(h: nat, i: nat): string
    requires i <= 3
  {
    if i == 0 then "#" else ColorPrefix(h, i - 1) + HexByte(Byte(h, i - 1))
  }

  /** The colour of a 32-bit hash: `'#'` and then bits 0-7, 8-15 and 16-23,
      each as two lowercase hexadecimal digits, high nibble first. */
  function Color(h: nat): (color: string)
    ensures |color| == 7 && color[0] == '#'
    ensures forall k :: 1 <= k < 7 ==> IsHexDigit(color[k])
  {
    var b0, b1, b2 := Byte(h, 0), Byte(h, 1), Byte(h, 2);
    ['#', HexDigit(b0 / 16), HexDigit(b0 % 16),
          HexDigit(b1 / 16), HexDigit(b1 % 16),
          HexDigit(b2 / 16), HexDigit(b2 % 16)]
  }

  lemma ColorPrefixIsColor(h: nat)
    ensures ColorPrefix(h, 3) == Color(h)
  {
    var b0, b1, b2 := Byte(h, 0), Byte(h, 1), Byte(h, 2);
    assert ColorPrefix(h, 1) == "#" + HexByte(b0);
    assert ColorPrefix(h, 2) == "#" + HexByte(b0) + HexByte(b1);
    assert ColorPrefix(h, 3) == "#" + HexByte(b0) + HexByte(b1) + HexByte(b2);
  }

  /** The three bytes of `h` put back together are its low 24 bits. */
  lemma BytesCompose(h: nat)
    ensures Byte(h, 0) + 0x100 * Byte(h, 1) + 0x1_0000 * Byte(h, 2) == h % 0x100_0000
  {
    Pow2Bytes();
    var x := h % 0x100_0000;
    var a := h / 0x100_0000;
    assert h == 0x100_0000 * a + x;
    DropHighBits(a, x);
    LowDigits(x);
  }

  /** Bits 24 and up do not reach bytes 0, 1 and 2. */
  lemma DropHighBits(a: nat, x: nat)
    requires x < 0x100_0000
    ensures var h := 0x100_0000 * a + x;
            && h % 0x100 == x % 0x100
            && h / 0x100 % 0x100 == x / 0x100 % 0x100
            && h / 0x1_0000 % 0x100 == x / 0x1_0000
  {
    var h := 0x100_0000 * a + x;
    var x1, x0 := x / 0x100, x % 0x100;
    DivMod256(x, x1, x0);
    DivMod256(h, 0x1_0000 * a + x1, x0);
    DivMod256(x1, x1 / 0x100, x1 % 0x100);
    DivMod256(0x1_0000 * a + x1, 0x100 * a + x1 / 0x100, x1 % 0x100);
    var x2 := x / 0x1_0000;
    DivMod65536(x, x2, x % 0x1_0000);
    DivMod65536(h, 0x100 * a + x2, x % 0x1_0000);
    DivMod256(0x100 * a + x2, a, x2);
  }

  /** A value below 2^24 is the sum of its three bytes. */
  lemma LowDigits(x: nat)
    requires x < 0x100_0000
    ensures x == x % 0x100 + 0x100 * (x / 0x100 % 0x100) + 0x1_0000 * (x / 0x1_0000)
  {
    var x1 := x / 0x100;
    DivMod256(x, x1, x % 0x100);
    DivMod256(x1, x1 / 0x100, x1 % 0x100);
    DivMod65536(x, x1 / 0x100, x % 0x100 + 0x100 * (x1 % 0x100));
  }

  /** Three bytes put together are taken apart again by `Byte`. */
  lemma ComposeBytes(b0: nat, b1: nat, b2: nat)
    requires b0 < 256 && b1 < 256 && b2 < 256
    ensures var v := b0 + 0x100 * b1 + 0x1_0000 * b2;
            Byte(v, 0) == b0 && Byte(v, 1) == b1 && Byte(v, 2) == b2
  {
    Pow2Bytes();
    var v := b0 + 0x100 * b1 + 0x1_0000 * b2;
    assert v / 0x100 == b1 + 0x100 * b2;
    assert v / 0x1_0000 == b2;
  }

  /** The byte two hexadecimal digits denote, high nibble first. */
  function ParseByte(high: char, low: char): Option<nat> {
    match (HexValue(high), HexValue(low))
    case (Some(a), Some(b)) => Some(16 * a + b)
    case _ => None
  }

  /** The number a colour string encodes, low byte first, or nothing when
      the string is not `'#'` and six lowercase hexadecimal digits. */
  function ParseColor(color: string): Option<nat> {
    if |color| != 7 || color[0] != '#' then None
    else match (ParseByte(color[1], color[2]), ParseByte(color[3], color[4]), ParseByte(color[5], color[6]))
      case (Some(b0), Some(b1), Some(b2)) => Some(b0 + 0x100 * b1 + 0x1_0000 * b2)
      case _ => None
  }

  lemma ParseByteOfDigits(b: nat)
    requires b < 256
    ensures ParseByte(HexDigit(b / 16), HexDigit(b % 16)) == Some(b)
  {
    HexValueOfDigit(b / 16);
    HexValueOfDigit(b % 16);
  }

  lemma DigitsOfParseByte(high: char, low: char)
    requires ParseByte(high, low).Some?
    ensures var b := ParseByte(high, low).value;
            b < 256 && HexDigit(b / 16) == high && HexDigit(b % 16) == low
  {
    var a, c := HexValue(high).value, HexValue(low).value;
    assert (16 * a + c) / 16 == a && (16 * a + c) % 16 == c;
  }

  /** A colour reads back as the low 24 bits of its hash. */
  lemma ParseColorRoundTrip(h: nat)
    ensures ParseColor(Color(h)) == Some(h % 0x100_0000)
  {
    ParseByteOfDigits(Byte(h, 0));
    ParseByteOfDigits(Byte(h, 1));
    ParseByteOfDigits(Byte(h, 2));
    BytesCompose(h);
  }

  /** Every well-formed colour string is the colour of what it reads back as,
      so distinct 24-bit values give distinct colours. */
  lemma ColorOfParse(color: string)
    requires ParseColor(color).Some?
    ensures Color(ParseColor(color).value) == color
  {
    var v := ParseColor(color).value;
    var b0, b1, b2 := ParseByte(color[1], color[2]).value, ParseByte(color[3], color[4]).value,
                      ParseByte(color[5], color[6]).value;
    DigitsOfParseByte(color[1], color[2]);
    DigitsOfParseByte(color[3], color[4]);
    DigitsOfParseByte(color[5], color[6]);
    ComposeBytes(b0, b1, b2);
    var c := Color(v);
    assert c[1] == color[1] && c[2] == color[2];
    assert c[3] == color[3] && c[4] == color[4];
    assert c[5] == color[5] && c[6] == color[6];
  }

  /** `stringToColor` as the component runs it: the hash loop on an exact
      Number, then three rounds of shift, mask and pad. */
  method StringToColor(s: seq<CodeUnit>) returns (color: string)
    ensures color == Color(Hash32(s))
    ensures |color| == 7 && color[0] == '#'
    ensures forall k :: 1 <= k < 7 ==> IsHexDigit(color[k])
    ensures ParseColor(color) == Some(Hash32(s) % 0x100_0000)
  {
    var hash := 0;
    var i := 0;
    while i < |s|
      invariant 0 <= i <= |s|
      invariant hash == JsHash(s[..i])
    {
      assert s[..i + 1][..i] == s[..i];
      hash := s[i] + (LeftShift(hash, 5) - hash);
      i := i + 1;
    }
    assert s[..i] == s;
    JsHashIsHash32(s);
    var h := Hash32(s);

    color := "#";
    i := 0;
    while i < 3
      invariant 0 <= i <= 3
      invariant color == ColorPrefix(h, i)
    {
      var value := AndLowByte(SignedRightShift(hash, i * 8));
      ChannelIsByte(hash, i);
      Pad2IsHexByte(value);
      color := color + SliceLast("00" + ToHexString(value), 2);
      i := i + 1;
    }
    ColorPrefixIsColor(h);
    ParseColorRoundTrip(h);
  }

  /** The empty name is black: the loop never runs and `hash` stays 0. */
  lemma EmptyNameIsBlack()
    ensures Color(Hash32([])) == "#000000"
  {
    Pow2Bytes();
  }

  // ---------------------------------------------------------------------
  // The avatar

  predicate IsAsciiLower(u: CodeUnit) {
    'a' as int <= u <= 'z' as int
  }

  /** `toUpperCase` on one code unit, for the ASCII letters. */
  function UpperAscii(u: CodeUnit): CodeUnit {
    if IsAsciiLower(u) then u - 32 else u
  }

  /** The props handed to the avatar component. */
  datatype AvatarProps = AvatarProps(bgcolor: string, width: int, height: int, children: seq<CodeUnit>)

  /** `name[0]` of an empty name is `undefined`, and calling `toUpperCase`
      on it throws a TypeError. */
  datatype AvatarError = FirstCharacterUndefined

  /** `size ||= 40`: a missing or zero size becomes 40. */
  function SizeOrDefault(size: Option<int>): int {
    match size
    case None => 40
    case Some(n) => if n == 0 then 40 else n
  }

  /** `stringAvatar(name, size)` */
  method StringAvatar(name: seq<CodeUnit>, size: Option<int>) returns (r: Result<AvatarProps, AvatarError>)
    ensures r.Failure? <==> |name| == 0
    ensures r.Success? ==> r.value.bgcolor == Color(Hash32(name))
    ensures r.Success? ==> |r.value.children| == 1 && !IsAsciiLower(r.value.children[0])
    ensures r.Success? ==> (IsAsciiLower(name[0]) || r.value.children[0] == name[0])
    ensures r.Success? ==> r.value.children[0] as int + (if IsAsciiLower(name[0]) then 32 else 0) == name[0]
    ensures r.Success? ==> r.value.width == r.value.height
    ensures r.Success? ==> (r.value.width == 40 <==> size.None? || size == Some(0) || size == Some(40))
    ensures r.Success? && size.Some? && size.value != 0 ==> r.value.width == size.value
  {
    var width := SizeOrDefault(size);
    var bgcolor := StringToColor(name);
    if |name| == 0 {
      return Failure(FirstCharacterUndefined);
    }
    r := Success(AvatarProps(bgcolor, width, width, [UpperAscii(name[0])]));
  }
}
