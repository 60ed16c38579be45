/** The colour deriver `lightenDarkenColor` of gantt.js: strip an optional '#',
    read the rest as a base-16 integer, shift each of its three bytes by
    `amount` with clamping to [0, 255], repack the bytes in their original
    positions and print the result with `toString(16)` (lower case, no
    zero padding), putting the '#' back if there was one. */
module Colors {

  /** A digit that `parseInt(_, 16)` accepts. */
  predicate IsHexDigit(c: char) {
    '0' <= c <= '9' || 'a' <= c <= 'f' || 'A' <= c <= 'F'
  }

  /** A digit that `toString(16)` prints. */
  predicate IsLowerHexDigit(c: char) {
    '0' <= c <= '9' || 'a' <= c <= 'f'
  }

  predicate AllHex(s: string) {
    forall i :: 0 <= i < |s| ==> IsHexDigit(s[i])
  }

  /** What `toString(16)` produces for a non-negative integer: at least one
      lower-case digit and no leading zero unless the number is 0. */
  predicate IsCanonicalHex(s: string) {
    |s| >= 1 && AllHex(s) && (forall i :: 0 <= i < |s| ==> IsLowerHexDigit(s[i])) && (|s| > 1 ==> s[0] != '0')
  }

  /** The colour strings this model accepts: six hexadecimal digits,
      optionally preceded by '#'. */
  predicate IsColorLiteral(hex: string) {
    (|hex| == 7 && hex[0] == '#' && AllHex(hex[1..])) || (|hex| == 6 && AllHex(hex))
  }

  function Pow16(k: nat): (p: nat)
    ensures p >= 1
  {
    if k == 0 then 1 else 16 * Pow16(k - 1)
  }

  function DigitValue(c: char): (v: nat)
    requires IsHexDigit(c)
    ensures v < 16
  {
    if c <= '9' then c as int - '0' as int
    else if 'a' <= c then c as int - 'a' as int + 10
    else c as int - 'A' as int + 10
  }

  function DigitChar(d: nat): (c: char)
    requires d < 16
    ensures IsLowerHexDigit(c) && IsHexDigit(c) && DigitValue(c) == d
  {
    if d < 10 then ('0' as int + d) as char else ('a' as int + d - 10) as char
  }

  /** The value of a string of hexadecimal digits, read in base 16. This is
      `parseInt(s, 16)` for 1 to 13 digits, and lightenDarkenColor reads
      six; the empty string reads as 0 here. */
  function ParseHex(s: string): (n: nat)
    requires AllHex(s)
    ensures n < Pow16(|s|)
  {
    if s == [] then 0
    else
      var n' := ParseHex(s[..|s| - 1]);
      assert n' <= Pow16(|s| - 1) - 1;
      n' * 16 + DigitValue(s[|s| - 1])
  }

  /** `n.toString(16)` for a non-negative integer `n`. */
  function ToHex(n: nat): (s: string)
    ensures IsCanonicalHex(s)
  {
    if n < 16 then [DigitChar(n)] else ToHex(n / 16) + [DigitChar(n % 16)]
  }

  /** Reading back what `toString(16)` printed gives the number again. */
  lemma {:induction false} ParseToHex(n: nat)
    ensures AllHex(ToHex(n)) && ParseHex(ToHex(n)) == n
  {
    if n >= 16 {
      ParseToHex(n / 16);
      var s := ToHex(n);
      assert s[..|s| - 1] == ToHex(n / 16);
    }
  }

  /** A canonical digit string of length k stands for a number of k digits. */
  lemma {:induction false} CanonicalHexBounds(s: string)
    requires IsCanonicalHex(s)
    ensures AllHex(s) && (|s| > 1 ==> Pow16(|s| - 1) <= ParseHex(s))
  {
    if |s| > 2 {
      CanonicalHexBounds(s[..|s| - 1]);
    } else if |s| == 2 {
      assert DigitValue(s[0]) >= 1;
    }
  }

  /** Printing the value of a canonical digit string gives the string back:
      `toString(16)` prints every number in exactly one way. */
  lemma {:induction false} ToHexParse(s: string)
    requires IsCanonicalHex(s)
    ensures AllHex(s) && ToHex(ParseHex(s)) == s
  {
    CanonicalHexBounds(s);
    if |s| > 1 {
      var init := s[..|s| - 1];
      assert IsCanonicalHex(init);
      ToHexParse(init);
      var n := ParseHex(s);
      assert n >= 16;
      assert n / 16 == ParseHex(init) && n % 16 == DigitValue(s[|s| - 1]);
    } else {
      assert ParseHex(s) == ParseHex(s[..0]) * 16 + DigitValue(s[0]);
    }
  }

  /** A number of exactly k base-16 digits is printed with k characters. */
  lemma {:induction false} ToHexLength(n: nat, k: nat)
    requires 1 <= k && (k > 1 ==> Pow16(k - 1) <= n) && n < Pow16(k)
    ensures |ToHex(n)| == k
  {
    if k > 1 {
      ToHexLength(n / 16, k - 1);
    }
  }

  /** Byte k (0 the lowest) of a colour value: the source's `num & 0x0000FF`,
      `(num >> 8) & 0x00FF` and `num >> 16` on values below 2^24. */
  function Byte(n: nat, k: nat): (byte: nat)
    requires k < 3
  {
    if k == 0 then n % 0x100 else if k == 1 then n / 0x100 % 0x100 else n / 0x1_0000 % 0x100
  }

  /** The clamping of each channel in lightenDarkenColor. */
  function Clamp(x: int): (c: int)
    ensures 0 <= c <= 255
    ensures 0 <= x <= 255 ==> c == x
    ensures x > 255 ==> c == 255
    ensures x < 0 ==> c == 0
  {
    if x > 255 then 255 else if x < 0 then 0 else x
  }

  /** Three bytes packed high to low: the source's `g | (b << 8) | (r << 16)`
      when each field fits in 8 bits. */
  function Pack(r: nat, b: nat, g: nat): (packed: nat) {
    g + b * 0x100 + r * 0x1_0000
  }

  /** Packing puts each field back in its byte. */
  lemma PackBytes(r: nat, b: nat, g: nat)
    requires r < 0x100 && b < 0x100 && g < 0x100
    ensures Pack(r, b, g) < 0x100_0000
    ensures Byte(Pack(r, b, g), 0) == g && Byte(Pack(r, b, g), 1) == b && Byte(Pack(r, b, g), 2) == r
  {
    var n := Pack(r, b, g);
    assert n / 0x100 == b + r * 0x100;
    assert n / 0x1_0000 == r;
  }

  /** Each byte of `after` is the byte in the same position of `before` plus
      `amount`, clamped to [0, 255]. */
  predicate ChannelsShifted(before: nat, after: nat, amount: int) {
    Byte(after, 0) == Clamp(Byte(before, 0) + amount) &&
    Byte(after, 1) == Clamp(Byte(before, 1) + amount) &&
    Byte(after, 2) == Clamp(Byte(before, 2) + amount)
  }

  /** A value below 2^24 is determined by its three bytes. */
  lemma {:induction false} BytesDetermine(x: nat, y: nat)
    requires x < 0x100_0000 && y < 0x100_0000
    requires Byte(x, 0) == Byte(y, 0) && Byte(x, 1) == Byte(y, 1) && Byte(x, 2) == Byte(y, 2)
    ensures x == y
  {
    Unpack(x);
    Unpack(y);
  }

  lemma Unpack(n: nat)
    requires n < 0x100_0000
    ensures n == Pack(Byte(n, 2), Byte(n, 1), Byte(n, 0))
  {
    var hi, lo := n / 0x100, n % 0x100;
    assert n == hi * 0x100 + lo;
    assert hi == n / 0x1_0000 * 0x100 + hi % 0x100;
  }

  /** The integer arithmetic of lightenDarkenColor on the parsed value.
      For values below 2^24 the source's `num >> 16`, `(num >> 8) & 0x00FF`
      and `num & 0x0000FF` are the quotients and remainders used here. The
      source calls the middle byte `b` and the lowest byte `g`; each byte
      goes back to the position it came from. */
  function Shade(num: nat, amount: int): (packed: nat)
    requires num < 0x100_0000
    ensures packed < 0x100_0000
    ensures ChannelsShifted(num, packed, amount)
  {
    var r := Clamp(num / 0x1_0000 + amount);
    var b := Clamp(num / 0x100 % 0x100 + amount);
    var g := Clamp(num % 0x100 + amount);
    assert num / 0x1_0000 == Byte(num, 2) by { assert num / 0x1_0000 < 0x100; }
    PackBytes(r, b, g);
    Pack(r, b, g)
  }

  /** The hexadecimal digits of a colour string, without its optional '#'. */
  function Digits(hex: string): (digits: string) {
    if |hex| > 0 && hex[0] == '#' then hex[1..] else hex
  }

  /** The digits of a colour literal are six hexadecimal digits, so their
      value fits in three bytes. */
  lemma LiteralDigits(hex: string)
    requires IsColorLiteral(hex)
    ensures AllHex(Digits(hex)) && |Digits(hex)| == 6 && ParseHex(Digits(hex)) < 0x100_0000
  {
    assert Pow16(6) == 0x100_0000;
    if hex[0] != '#' {
      assert IsHexDigit(hex[0]);
    }
  }

  /** The number a colour literal stands for: `parseInt` of its digits. */
  function ColorValue(hex: string): (n: nat)
    requires IsColorLiteral(hex)
    ensures n < 0x100_0000
  {
    LiteralDigits(hex);
    ParseHex(Digits(hex))
  }

  /** Re-attaching the optional '#' to printed digits. */
  lemma WithPound(usePound: bool, digits: string)
    requires IsCanonicalHex(digits)
    ensures var out := (if usePound then "#" else "") + digits;
      |out| > 0 && (out[0] == '#' <==> usePound) && Digits(out) == digits
  {
    var out := (if usePound then "#" else "") + digits;
    assert IsLowerHexDigit(digits[0]);
    if usePound {
      assert out[1..] == digits;
    } else {
      assert out == digits;
    }
  }

  function LightenDarkenColor(hex: string, amount: int): (out: string)
    requires IsColorLiteral(hex)
    ensures |out| > 0 && (out[0] == '#' <==> hex[0] == '#')
  {
    var usePound := hex[0] == '#';
    var digits := ToHex(Shade(ColorValue(hex), amount));
    WithPound(usePound, digits);
    (if usePound then "#" else "") + digits
  }

  /** The digits of LightenDarkenColor's result print the shaded value. */
  lemma LightenDarkenValue(hex: string, amount: int)
    requires IsColorLiteral(hex)
    ensures Digits(LightenDarkenColor(hex, amount)) == ToHex(Shade(ColorValue(hex), amount))
    ensures LightenDarkenColor(hex, amount) ==
      (if hex[0] == '#' then "#" else "") + ToHex(Shade(ColorValue(hex), amount))
  {
    WithPound(hex[0] == '#', ToHex(Shade(ColorValue(hex), amount)));
  }

  /** The digits of the result are printed the way `toString(16)` prints:
      lower case, without leading zeros. */
  lemma LightenDarkenCanonical(hex: string, amount: int)
    requires IsColorLiteral(hex)
    ensures IsCanonicalHex(Digits(LightenDarkenColor(hex, amount)))
  {
    LightenDarkenValue(hex, amount);
  }

  /** Each of the three bytes of the result is the byte in the same position
      of the input plus `amount`, clamped to [0, 255], and nothing lies above
      the three bytes. */
  lemma LightenDarkenChannels(hex: string, amount: int)
    requires IsColorLiteral(hex)
    ensures var out := Digits(LightenDarkenColor(hex, amount));
      AllHex(out) && ParseHex(out) < 0x100_0000 &&
      ChannelsShifted(ColorValue(hex), ParseHex(out), amount)
  {
    LightenDarkenValue(hex, amount);
    var p := Shade(ColorValue(hex), amount);
    ParseToHex(p);
    assert ParseHex(Digits(LightenDarkenColor(hex, amount))) == p;
  }

  /** With amount 0 the numeric value of the colour is unchanged. */
  lemma LightenDarkenZero(hex: string)
    requires IsColorLiteral(hex)
    ensures var out := Digits(LightenDarkenColor(hex, 0));
      AllHex(out) && ParseHex(out) == ColorValue(hex)
  {
    LightenDarkenChannels(hex, 0);
    var num := ColorValue(hex);
    var p := ParseHex(Digits(LightenDarkenColor(hex, 0)));
    assert ChannelsShifted(num, p, 0);
    BytesDetermine(p, num);
  }

  /** When every channel is raised by at least 16 (as colorTasks does with
      50), the highest byte is at least 0x10, so `toString(16)` prints six
      digits and the result is again a colour literal, in lower case. */
  lemma LightenedIsColorLiteral(hex: string, amount: int)
    requires IsColorLiteral(hex) && amount >= 16
    ensures IsColorLiteral(LightenDarkenColor(hex, amount))
  {
    LightenDarkenValue(hex, amount);
    var d := ToHex(Shade(ColorValue(hex), amount));
    ShadeSixDigits(ColorValue(hex), amount);
    if hex[0] == '#' {
      assert (("#" + d)[1..]) == d;
    }
  }

  /** A shaded value whose highest byte is at least 0x10 prints as six digits. */
  lemma ShadeSixDigits(num: nat, amount: int)
    requires num < 0x100_0000 && amount >= 16
    ensures |ToHex(Shade(num, amount))| == 6
  {
    var p := Shade(num, amount);
    assert Byte(p, 2) >= 16;
    assert p / 0x1_0000 >= 16;
    assert Pow16(5) == 0x10_0000 && Pow16(6) == 0x100_0000;
    ToHexLength(p, 6);
  }

  /** `parseInt` reads one more digit by shifting the value one place. */
  lemma ParseHexSnoc(s: string, c: char)
    requires AllHex(s) && IsHexDigit(c)
    ensures AllHex(s + [c]) && ParseHex(s + [c]) == ParseHex(s) * 16 + DigitValue(c)
  {
    assert (s + [c])[..|s|] == s;
  }

  lemma GreyInput()
    ensures AllHex("808080") && ParseHex("808080") == 0x808080
  {
    ParseHexSnoc("", '8');
    assert "" + ['8'] == "8";
    ParseHexSnoc("8", '0');
    assert "8" + ['0'] == "80";
    ParseHexSnoc("80", '8');
    assert "80" + ['8'] == "808";
    ParseHexSnoc("808", '0');
    assert "808" + ['0'] == "8080";
    ParseHexSnoc("8080", '8');
    assert "8080" + ['8'] == "80808";
    ParseHexSnoc("80808", '0');
    assert "80808" + ['0'] == "808080";
  }

  lemma GreyOutput(n: nat)
    requires n == 0xb2b2b2
    ensures ToHex(n) == "b2b2b2"
  {
    ParseHexSnoc("", 'b');
    assert "" + ['b'] == "b";
    ParseHexSnoc("b", '2');
    assert "b" + ['2'] == "b2";
    ParseHexSnoc("b2", 'b');
    assert "b2" + ['b'] == "b2b";
    ParseHexSnoc("b2b", '2');
    assert "b2b" + ['2'] == "b2b2";
    ParseHexSnoc("b2b2", 'b');
    assert "b2b2" + ['b'] == "b2b2b";
    ParseHexSnoc("b2b2b", '2');
    assert "b2b2b" + ['2'] == "b2b2b2";
    ToHexParse("b2b2b2");
  }

  lemma GreyShade(n: nat, amount: int)
    requires n == 0x808080 && amount == 50
    ensures Shade(n, amount) == 0xb2b2b2
  {
    assert n / 0x1_0000 == 0x80 && n / 0x100 % 0x100 == 0x80 && n % 0x100 == 0x80;
    assert Clamp(0x80 + amount) == 0xb2;
    assert Pack(0xb2, 0xb2, 0xb2) == 0xb2b2b2;
  }

  /** `#808080` lightened by 50: each channel 0x80 + 50 = 0xb2. */
  lemma GreyExample(hex: string, amount: int)
    requires hex == "#808080" && amount == 50
    ensures LightenDarkenColor(hex, amount) == "#b2b2b2"
  {
    assert hex[0] == '#' && Digits(hex) == "808080";
    GreyInput();
    var n := ColorValue(hex);
    GreyShade(n, amount);
    var m := Shade(n, amount);
    GreyOutput(m);
    LightenDarkenValue(hex, amount);
    assert "#" + "b2b2b2" == "#b2b2b2";
  }
}
