/** 64-bit words, and numbers written in base 10 or 16 (Go's `strconv`). */
module Numbers {
  import opened Options

  const TWO_32: int := 0x1_0000_0000
  const TWO_64: int := 0x1_0000_0000_0000_0000

  type U32 = n: int | 0 <= n < 0x1_0000_0000
  type U64 = n: int | 0 <= n < 0x1_0000_0000_0000_0000

  type Base = b: int | b == 10 || b == 16 witness 10

  function Wrap(n: int): U64 {
    n % TWO_64
  }

  function DigitValue(c: char): int {
    if '0' <= c <= '9' then c as int - '0' as int
    else if 'a' <= c <= 'f' then c as int - 'a' as int + 10
    else if 'A' <= c <= 'F' then c as int - 'A' as int + 10
    else 16
  }

  /** Hexadecimal digits are written in lower case, and read in either case. */
  function Digit(n: nat): (c: char)
    requires n < 16
    ensures DigitValue(c) == n
    ensures c != '-' && c != ' ' && c != '\t'
  {
    if n < 10 then '0' + n as char else 'a' + (n - 10) as char
  }

  predicate IsNumber(s: string, base: Base) {
    s != "" && forall i | 0 <= i < |s| :: DigitValue(s[i]) < base
  }

  function ValueOf(s: string, base: Base): (n: nat)
    requires forall i | 0 <= i < |s| :: DigitValue(s[i]) < base
  {
    if s == "" then 0
    else if base == 10 then ValueOf(s[..|s| - 1], base) * 10 + DigitValue(s[|s| - 1])
    else ValueOf(s[..|s| - 1], base) * 16 + DigitValue(s[|s| - 1])
  }

  /** `ParseUint(s, base, 64)`: an error if `s` is empty, has any other character, or is too large. */
  function ParseUint(s: string, base: Base): Option<U64> {
    if IsNumber(s, base) && ValueOf(s, base) < TWO_64 then Some(ValueOf(s, base)) else None
  }

  /** `FormatUint`. */
  function Format(n: nat, base: Base): (s: string)
    ensures IsNumber(s, base) && ValueOf(s, base) == n
  {
    if n < base then
      assert [Digit(n)][..0] == [];
      [Digit(n)]
    else
      var rest := if base == 10 then n / 10 else n / 16;
      var last := if base == 10 then n % 10 else n % 16;
      var s := Format(rest, base) + [Digit(last)];
      assert s[..|s| - 1] == Format(rest, base);
      s
  }

  /** The same, padded with zeros to at least `width` digits. */
  function Padded(n: nat, base: Base, width: nat): (s: string)
    ensures IsNumber(s, base) && ValueOf(s, base) == n
  {
    Zeros(Format(n, base), base, width)
  }

  function Zeros(s: string, base: Base, width: nat): (t: string)
    requires IsNumber(s, base)
    ensures IsNumber(t, base) && ValueOf(t, base) == ValueOf(s, base)
    decreases width - |s|
  {
    if |s| >= width then s
    else
      ZeroInFront(s, base);
      Zeros("0" + s, base, width)
  }

  lemma {:induction false} ZeroInFront(s: string, base: Base)
    requires forall i | 0 <= i < |s| :: DigitValue(s[i]) < base
    ensures ValueOf("0" + s, base) == ValueOf(s, base)
  {
    var t := "0" + s;
    if s == "" {
      assert t[..0] == "";
    } else {
      var n := |s| - 1;
      ZeroInFront(s[..n], base);
      assert t[..|t| - 1] == "0" + s[..n];
    }
  }

  /** What is written is read back, at any width. */
  lemma ParseFormat(n: U64, base: Base, width: nat)
    ensures ParseUint(Padded(n, base, width), base) == Some(n)
    ensures ParseUint(Format(n, base), base) == Some(n)
  {
  }

  lemma HexPair(s: string, n: nat, two: string, t: string)
    requires (s == "" || IsNumber(s, 16)) && ValueOf(s, 16) == n
    requires |two| == 2 && DigitValue(two[0]) < 16 && DigitValue(two[1]) < 16 && t == s + two
    ensures IsNumber(t, 16) && ValueOf(t, 16) == 256 * n + 16 * DigitValue(two[0]) + DigitValue(two[1])
  {
    var one := s + [two[0]];
    assert one[..|s|] == s && t[..|one|] == one;
  }

  /** Repeats a pair of digits. */
  function Pairs(two: string, k: nat): string {
    if k == 0 then "" else Pairs(two, k - 1) + two
  }

  /** Hexadecimal numbers are read in either case, up to sixteen digits f and no further. */
  lemma HexLimits()
    ensures ParseUint("ff", 16) == ParseUint("FF", 16) == Some(255)
    ensures ParseUint(Pairs("ff", 8), 16) == Some(0xffff_ffff_ffff_ffff)
    ensures ParseUint("01" + Pairs("00", 8), 16) == None
  {
    HexPair("", 0, "ff", "ff");
    HexPair("", 0, "FF", "FF");
    AllOnes(8);
    Zeroes(8);
    Pow256At8();
  }

  function Pow256(k: nat): nat {
    if k == 0 then 1 else 256 * Pow256(k - 1)
  }

  lemma Pow256At8()
    ensures Pow256(8) == 0x1_0000_0000_0000_0000
  {
    assert Pow256(4) == 0x1_0000_0000;
  }

  lemma {:induction false} AllOnes(k: nat)
    ensures Pairs("ff", k) == "" || IsNumber(Pairs("ff", k), 16)
    ensures k > 0 ==> IsNumber(Pairs("ff", k), 16)
    ensures ValueOf(Pairs("ff", k), 16) == Pow256(k) - 1
  {
    if k > 0 {
      AllOnes(k - 1);
      HexPair(Pairs("ff", k - 1), Pow256(k - 1) - 1, "ff", Pairs("ff", k));
    }
  }

  lemma {:induction false} Zeroes(k: nat)
    ensures IsNumber("01" + Pairs("00", k), 16) && ValueOf("01" + Pairs("00", k), 16) == Pow256(k)
  {
    if k == 0 {
      HexPair("", 0, "01", "01");
      assert "01" + Pairs("00", 0) == "01";
    } else {
      Zeroes(k - 1);
      assert ("01" + Pairs("00", k - 1)) + "00" == "01" + Pairs("00", k);
      HexPair("01" + Pairs("00", k - 1), Pow256(k - 1), "00", "01" + Pairs("00", k));
    }
  }
}
