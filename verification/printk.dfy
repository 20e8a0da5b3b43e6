/** kernel/generic/printk.c: printing numbers and formatted text, with output collected in a sequence. */
module Printk {
  import opened Structures
  import opened Wrappers
  import Bitwise

  // ---------- Positional notation ----------

  predicate DigitsOk(b: nat, ds: seq<nat>) {
    forall i :: 0 <= i < |ds| ==> ds[i] < b
  }

  /** The value of a sequence of digits, most significant first. */
  function Value(b: nat, ds: seq<nat>): nat {
    if ds == [] then 0 else b * Value(b, ds[..|ds| - 1]) + ds[|ds| - 1]
  }

  /** The canonical digits of x: no leading zero, none at all for 0. */
  function Num(b: nat, x: nat): seq<nat>
    requires b >= 2
  {
    if x == 0 then [] else Num(b, x / b) + [x % b]
  }

  /** The low n digits of x, leading zeros included. */
  function Digits(b: nat, n: nat, x: nat): (ds: seq<nat>)
    requires b >= 2
    ensures |ds| == n
  {
    if n == 0 then [] else Digits(b, n - 1, x / b) + [x % b]
  }

  /** x without its low k digits. */
  function Quot(b: nat, x: nat, k: nat): nat
    requires b >= 2
  {
    if k == 0 then x else Quot(b, x / b, k - 1)
  }

  function StripZeros(ds: seq<nat>): seq<nat> {
    if ds == [] || ds[0] != 0 then ds else StripZeros(ds[1..])
  }

  lemma DivMod(b: nat, x: nat)
    requires b >= 2
    ensures x == b * (x / b) + x % b && x % b < b
    ensures x / b == 0 ==> x % b == x
  {
  }

  lemma Doubles(b: nat, q: nat)
    requires b >= 2
    ensures b * q >= 2 * q
  {
  }

  lemma DivSmaller(b: nat, x: nat)
    requires b >= 2 && x > 0
    ensures x / b < x
  {
    DivMod(b, x);
    Doubles(b, x / b);
  }

  lemma SnocValue(b: nat, ds: seq<nat>, d: nat)
    ensures Value(b, ds + [d]) == b * Value(b, ds) + d
  {
    assert (ds + [d])[..|ds|] == ds;
  }

  lemma {:induction false} NumValue(b: nat, x: nat)
    requires b >= 2
    ensures Value(b, Num(b, x)) == x && DigitsOk(b, Num(b, x))
    ensures x > 0 ==> Num(b, x) != [] && Num(b, x)[0] != 0
  {
    hide Value, Num, DigitsOk;
    if x == 0 {
      NumZero(b, x);
    } else {
      var q, d := x / b, x % b;
      DivMod(b, x);
      DivSmaller(b, x);
      NumValue(b, q);
      NumSnoc(b, x);
      SnocValue(b, Num(b, q), d);
      SnocDigits(b, Num(b, q), d);
    }
  }

  lemma NumZero(b: nat, x: nat)
    requires b >= 2 && x == 0
    ensures Num(b, x) == [] && Value(b, []) == 0 && DigitsOk(b, [])
  {
  }

  lemma NumSnoc(b: nat, x: nat)
    requires b >= 2 && x > 0
    ensures Num(b, x) == Num(b, x / b) + [x % b]
    ensures x / b == 0 ==> Num(b, x / b) == []
  {
  }

  lemma SnocDigits(b: nat, ds: seq<nat>, d: nat)
    requires DigitsOk(b, ds) && d < b
    ensures DigitsOk(b, ds + [d])
  {
  }

  /** Any digits without a leading zero that have the value x are the canonical ones. */
  lemma {:induction false} NumUnique(b: nat, ds: seq<nat>)
    requires b >= 2 && DigitsOk(b, ds) && (ds != [] ==> ds[0] != 0)
    ensures ds == Num(b, Value(b, ds))
  {
    if ds != [] {
      var init, d := ds[..|ds| - 1], ds[|ds| - 1];
      NumUnique(b, init);
      var v := Value(b, init);
      QuotientIs(Value(b, ds), b, v, d);
      if init != [] {
        NonZero(b, init);
      }
      assert Value(b, ds) > 0;
      assert ds == init + [d];
    }
  }

  lemma {:induction false} NonZero(b: nat, ds: seq<nat>)
    requires b >= 2 && ds != [] && ds[0] != 0
    ensures Value(b, ds) > 0
  {
    if |ds| > 1 {
      NonZero(b, ds[..|ds| - 1]);
      MulAtLeast(b, Value(b, ds[..|ds| - 1]));
    }
  }

  lemma {:induction false} StripZerosSnoc(ds: seq<nat>, d: nat)
    ensures StripZeros(ds + [d]) ==
      if StripZeros(ds) != [] then StripZeros(ds) + [d] else if d == 0 then [] else [d]
  {
    if ds != [] {
      assert (ds + [d])[1..] == ds[1..] + [d];
      StripZerosSnoc(ds[1..], d);
    } else {
      assert [d][1..] == [];
    }
  }

  /** Enough digits without their leading zeros are the canonical ones. */
  lemma {:induction false} StripDigits(b: nat, n: nat, x: nat)
    requires b >= 2 && Quot(b, x, n) == 0
    ensures StripZeros(Digits(b, n, x)) == Num(b, x)
  {
    if n > 0 {
      StripDigits(b, n - 1, x / b);
      StripZerosSnoc(Digits(b, n - 1, x / b), x % b);
      if x / b == 0 {
        assert Num(b, x / b) == [] && x % b == x;
        assert [] + [x] == [x];
      } else {
        NumValue(b, x / b);
      }
    }
  }

  lemma {:induction false} DigitsValue(b: nat, n: nat, x: nat)
    requires b >= 2 && Quot(b, x, n) == 0
    ensures Value(b, Digits(b, n, x)) == x && DigitsOk(b, Digits(b, n, x))
  {
    hide Value, DigitsOk;
    if n == 0 {
      assert Digits(b, n, x) == [];
      NumZero(b, 0);
    } else {
      var q, d := x / b, x % b;
      DivMod(b, x);
      DigitsValue(b, n - 1, q);
      SnocValue(b, Digits(b, n - 1, q), d);
      SnocDigits(b, Digits(b, n - 1, q), d);
    }
  }

  // ---------- Text ----------

  function DigitChar(d: nat): char
    requires d < 16
  {
    "0123456789abcdef"[d]
  }

  function CharDigit(c: char): nat {
    if '0' <= c <= '9' then c as int - '0' as int
    else if 'a' <= c <= 'f' then c as int - 'a' as int + 10
    else 0
  }

  function Text(ds: seq<nat>): (s: string)
    requires DigitsOk(16, ds)
    ensures |s| == |ds|
  {
    seq(|ds|, i requires 0 <= i < |ds| => DigitChar(ds[i]))
  }

  /** Read a numeral in base b. */
  function Parse(b: nat, s: string): nat {
    Value(b, seq(|s|, i requires 0 <= i < |s| => CharDigit(s[i])))
  }

  lemma ParseText(b: nat, ds: seq<nat>)
    requires DigitsOk(16, ds)
    ensures Parse(b, Text(ds)) == Value(b, ds)
  {
    var s := Text(ds);
    assert seq(|s|, i requires 0 <= i < |s| => CharDigit(s[i])) == ds;
  }

  /** Reading is positional, and the digits are 0 to 9 and a to f. */
  lemma ParseStep(b: nat, s: string, d: nat)
    requires d < 16
    ensures Parse(b, "") == 0
    ensures Parse(b, s + ["0123456789abcdef"[d]]) == b * Parse(b, s) + d
  {
    var c := "0123456789abcdef"[d];
    var ds := seq(|s|, i requires 0 <= i < |s| => CharDigit(s[i]));
    var t := s + [c];
    assert seq(|t|, i requires 0 <= i < |t| => CharDigit(t[i])) == ds + [d];
    SnocValue(b, ds, d);
  }

  /** The decimal numeral of x. */
  function Decimal(x: nat): string {
    NumValue(10, x);
    if x == 0 then "0" else Text(Num(10, x))
  }

  predicate IsDecimal(s: string) {
    s != "" && (forall c :: c in s ==> '0' <= c <= '9') && (|s| > 1 ==> s[0] != '0')
  }

  lemma DecimalReads(x: nat)
    ensures IsDecimal(Decimal(x)) && Parse(10, Decimal(x)) == x
  {
    hide Value;
    NumValue(10, x);
    if x == 0 {
      ZeroReads();
    } else {
      ParseText(10, Num(10, x));
      assert forall i :: 0 <= i < |Num(10, x)| ==> Text(Num(10, x))[i] in Text(Num(10, x));
    }
  }

  lemma ZeroReads()
    ensures Parse(10, "0") == 0
  {
    assert seq(|"0"|, i requires 0 <= i < |"0"| => CharDigit("0"[i])) == [0];
    assert [0][..0] == [];
  }

  /** Printing and reading decimal numbers: the numeral is well formed, reads back as x, and is the
      only well-formed numeral that does. */
  lemma DecimalRoundTrip(x: nat, s: string)
    ensures IsDecimal(Decimal(x)) && Parse(10, Decimal(x)) == x
    ensures IsDecimal(s) && Parse(10, s) == x ==> s == Decimal(x)
  {
    hide IsDecimal, Decimal, Parse;
    DecimalReads(x);
    if IsDecimal(s) && Parse(10, s) == x {
      DecimalUnique(s);
    }
  }

  lemma DecimalUnique(s: string)
    requires IsDecimal(s)
    ensures s == Decimal(Parse(10, s))
  {
    var ds := seq(|s|, i requires 0 <= i < |s| => CharDigit(s[i]));
    forall i | 0 <= i < |s| ensures ds[i] < 10 && DigitChar(ds[i]) == s[i] {
      assert s[i] in s;
    }
    if s == "0" {
      assert ds == [0] && [0][..0] == [];
    } else {
      assert s[0] in s;
      assert ds[0] != 0;
      NumUnique(10, ds);
      NonZero(10, ds);
      assert s == Text(ds);
    }
  }

  // ---------- Hexadecimal ----------

  function Front(c: char, t: string): (s: string)
    ensures |s| == |t| + 1 && s[0] == c && s[1..] == t
  {
    [c] + t
  }

  predicate CommaBefore(k: nat) {
    k != 16 && k % 4 == 0
  }

  /** A comma before every group of four from the right, but not before a sixteenth digit. */
  function Spaced(s: string): string {
    if s == "" then ""
    else
      var rest := Front(s[0], Spaced(s[1..]));
      if CommaBefore(|s|) then Front(',', rest) else rest
  }

  function NoCommas(s: string): string {
    if s == "" then "" else if s[0] == ',' then NoCommas(s[1..]) else Front(s[0], NoCommas(s[1..]))
  }

  lemma {:induction false} SixteenDigits(x: nat, n: nat)
    ensures DigitsOk(16, Digits(16, n, x))
  {
    if n > 0 {
      SixteenDigits(x / 16, n - 1);
    }
  }

  /** What kputhex prints. */
  function HexText(x: nat, leading: bool, spacers: bool): string {
    NumValue(16, x);
    SixteenDigits(x, 16);
    var s := Text(if leading then Digits(16, 16, x) else Num(16, x));
    if spacers then Spaced(s) else s
  }

  lemma {:induction false} NoCommasSpaced(s: string)
    requires ',' !in s
    ensures NoCommas(Spaced(s)) == s && NoCommas(s) == s
  {
    if s != "" {
      var rest := s[1..];
      NoCommasSpaced(rest);
      assert s == [s[0]] + rest;
      hide Front;
    }
  }

  lemma TextNoComma(ds: seq<nat>)
    requires DigitsOk(16, ds)
    ensures ',' !in Text(ds)
  {
  }

  /** Whatever the flags, the output without its commas reads back as x. */
  lemma HexRoundTrip(x: Word, leading: bool, spacers: bool)
    ensures Parse(16, NoCommas(HexText(x, leading, spacers))) == x
  {
    NumValue(16, x);
    SixteenDigits(x, 16);
    var ds := if leading then Digits(16, 16, x) else Num(16, x);
    TextNoComma(ds);
    NoCommasSpaced(Text(ds));
    ParseText(16, ds);
    if leading {
      QuotWord16(x);
      DigitsValue(16, 16, x);
    }
  }

  /** With leading zeros and spacers: sixteen digits in four groups of four. */
  lemma HexGroups(x: Word)
    ensures DigitsOk(16, Digits(16, 16, x))
    ensures var s := Text(Digits(16, 16, x));
      HexText(x, true, true) == s[0..4] + ("," + (s[4..8] + ("," + (s[8..12] + ("," + s[12..16])))))
  {
    SixteenDigits(x, 16);
    var s := Text(Digits(16, 16, x));
    assert s == s[0..4] + (s[4..8] + (s[8..12] + s[12..16]));
    SpacedSixteen(s[0..4], s[4..8], s[8..12], s[12..16]);
  }

  lemma SpacedSixteen(a: string, b: string, c: string, d: string)
    requires |a| == |b| == |c| == |d| == 4
    ensures Spaced(a + (b + (c + d))) == a + ("," + (b + ("," + (c + ("," + d)))))
  {
    hide Spaced;
    var cd := c + d;
    var bcd := b + cd;
    assert |cd| == 8 && |bcd| == 12 && d + "" == d;
    SpacedNone("");
    SpacedFour(d, "");
    assert Spaced(d) == "," + d;
    SpacedFour(c, d);
    SpacedFour(b, cd);
    SpacedFour(a, bcd);
  }

  lemma SpacedNone(s: string)
    requires s == ""
    ensures Spaced(s) == ""
  {
  }

  lemma SpacedFront(c: char, t: string)
    ensures var u := Front(c, Spaced(t));
      Spaced(Front(c, t)) == if CommaBefore(|t| + 1) then Front(',', u) else u
  {
    hide Front, CommaBefore;
  }

  lemma SpacedFour(g: string, rest: string)
    requires |g| == 4 && |rest| % 4 == 0 && |rest| <= 12
    ensures Spaced(g + rest) == if |rest| == 12 then g + Spaced(rest) else "," + (g + Spaced(rest))
  {
    hide Spaced, Front, CommaBefore;
    CommaEveryFour(|rest|);
    FourFront(g, rest);
    FourFront(g, Spaced(rest));
    SpacedFront(g[3], rest);
    SpacedFront(g[2], Front(g[3], rest));
    SpacedFront(g[1], Front(g[2], Front(g[3], rest)));
    SpacedFront(g[0], Front(g[1], Front(g[2], Front(g[3], rest))));
    CommaFront(g + Spaced(rest));
  }

  lemma CommaEveryFour(n: nat)
    requires n % 4 == 0 && n <= 12
    ensures !CommaBefore(n + 1) && !CommaBefore(n + 2) && !CommaBefore(n + 3)
    ensures CommaBefore(n + 4) <==> n != 12
  {
  }

  lemma FourFront(g: string, t: string)
    requires |g| == 4
    ensures g + t == Front(g[0], Front(g[1], Front(g[2], Front(g[3], t))))
  {
  }

  lemma CommaFront(t: string)
    ensures Front(',', t) == "," + t
  {
  }

  lemma Assoc(a: string, b: string, c: string)
    ensures (a + b) + c == a + (b + c)
  {
  }

  /** Without leading zeros nothing is printed for 0, and otherwise no leading zero. */
  lemma HexShort(x: Word)
    ensures HexText(x, false, false) == "" <==> x == 0
    ensures x > 0 ==> HexText(x, false, false)[0] != '0'
  {
    NumValue(16, x);
  }

  predicate IsHex(s: string) {
    forall c :: c in s ==> c in "0123456789abcdef"
  }

  /** The shortest hexadecimal numeral of w; nothing at all for 0. */
  predicate HexNumeral(s: string, w: nat) {
    IsHex(s) && Parse(16, s) == w && (s == "" <==> w == 0) && (s != "" ==> s[0] != '0')
  }

  /** Sixteen hexadecimal digits of w in four groups with commas between them. */
  predicate PointerText(s: string, w: nat) {
    && |s| == 19 && s[4] == s[9] == s[14] == ','
    && var digits := s[0..4] + s[5..9] + s[10..14] + s[15..19];
       IsHex(digits) && Parse(16, digits) == w
  }

  predicate DecimalNumeral(s: string, w: nat) {
    IsDecimal(s) && Parse(10, s) == w
  }

  lemma TextIsHex(ds: seq<nat>)
    requires DigitsOk(16, ds)
    ensures IsHex(Text(ds))
  {
    var s := Text(ds);
    forall c | c in s ensures c in "0123456789abcdef" {
      var i :| 0 <= i < |s| && s[i] == c;
      assert s[i] == "0123456789abcdef"[ds[i]];
    }
  }

  /** Without spacers: the shortest numeral, or with leading zeros all sixteen digits. */
  lemma HexPlain(x: Word, leading: bool)
    ensures var s := HexText(x, leading, false);
      if leading then |s| == 16 && IsHex(s) && Parse(16, s) == x else HexNumeral(s, x)
  {
    NumValue(16, x);
    SixteenDigits(x, 16);
    var ds := if leading then Digits(16, 16, x) else Num(16, x);
    TextIsHex(ds);
    TextNoComma(ds);
    NoCommasSpaced(Text(ds));
    HexRoundTrip(x, leading, false);
    HexShort(x);
  }

  lemma HexPointer(x: Word)
    ensures PointerText(HexText(x, true, true), x)
  {
    HexGroups(x);
    HexPlain(x, true);
    var s, t := HexText(x, true, true), HexText(x, true, false);
    assert t == Text(Digits(16, 16, x));
    hide HexText, Text, Digits, Parse, IsHex;
    GroupsJoin(s, t);
  }

  lemma GroupsJoin(s: string, t: string)
    requires |t| == 16 && s == t[0..4] + ("," + (t[4..8] + ("," + (t[8..12] + ("," + t[12..16])))))
    ensures |s| == 19 && s[4] == s[9] == s[14] == ','
    ensures s[0..4] + s[5..9] + s[10..14] + s[15..19] == t
  {
    assert s[0..4] == t[0..4] && s[5..9] == t[4..8] && s[10..14] == t[8..12] && s[15..19] == t[12..16];
    assert t == t[0..4] + t[4..8] + t[8..12] + t[12..16];
  }

  /** The length of n digits with their commas. */
  function SpacedLength(n: nat): nat {
    if n == 16 then 19 else n + n / 4
  }

  lemma SpacedLengthNext(n: nat)
    requires 1 <= n <= 16
    ensures var k := SpacedLength(n - 1);
      && SpacedLength(n) == (if CommaBefore(n) then k + 2 else k + 1)
      && k % 5 != 4 && k - k / 5 == n - 1
      && (CommaBefore(n) ==> (k + 1) % 5 == 4)
  {
  }

  /** Character d of a text, counted from the right. */
  function FromRight(s: string, d: nat): char
    requires d < |s|
  {
    s[|s| - 1 - d]
  }

  lemma FrontFromRight(c: char, u: string, d: nat)
    requires d <= |u|
    ensures FromRight(Front(c, u), d) == if d == |u| then c else FromRight(u, d)
  {
  }

  lemma SpacedUnfold(s: string)
    requires s != ""
    ensures s == Front(s[0], s[1..])
    ensures var u := Front(s[0], Spaced(s[1..])); Spaced(s) == if CommaBefore(|s|) then Front(',', u) else u
  {
    hide CommaBefore;
  }

  /** With spacers, counted from the right every fifth character is a comma and the others are the
      digits; there is none in front of a sixteenth digit. */
  lemma {:induction false} SpacedFromRight(s: string, d: nat)
    requires |s| <= 16
    ensures |Spaced(s)| == SpacedLength(|s|)
    ensures d < |Spaced(s)| && d % 5 == 4 ==> FromRight(Spaced(s), d) == ','
    ensures d < |Spaced(s)| && d % 5 != 4 ==> d - d / 5 < |s| && FromRight(Spaced(s), d) == FromRight(s, d - d / 5)
  {
    hide SpacedLength, CommaBefore, Spaced, Front, FromRight;
    if s != "" {
      var rest := s[1..];
      var u := Front(s[0], Spaced(rest));
      SpacedFromRight(rest, d);
      SpacedLengthNext(|s|);
      SpacedUnfold(s);
      if d <= |Spaced(rest)| {
        FrontFromRight(s[0], Spaced(rest), d);
      }
      if d <= |u| {
        FrontFromRight(',', u, d);
      }
      if d % 5 != 4 && d - d / 5 < |s| {
        FrontFromRight(s[0], rest, d - d / 5);
      }
    } else {
      SpacedNone(s);
      assert SpacedLength(0) == 0 by { NoLength(); }
    }
  }

  lemma NoLength()
    ensures SpacedLength(0) == 0
  {
  }

  lemma {:induction false} StripShortens(ds: seq<nat>)
    ensures |StripZeros(ds)| <= |ds|
  {
    if ds != [] && ds[0] == 0 {
      StripShortens(ds[1..]);
    }
  }

  /** The spacers of kputhex: the same digits with a comma at every fifth character from the right. */
  lemma HexSpaced(x: Word, leading: bool, d: nat)
    ensures var (s, t) := (HexText(x, leading, true), HexText(x, leading, false));
      && |t| <= 16 && |s| == (if |t| == 16 then 19 else |t| + |t| / 4)
      && (d < |s| && d % 5 == 4 ==> FromRight(s, d) == ',')
      && (d < |s| && d % 5 != 4 ==> d - d / 5 < |t| && FromRight(s, d) == FromRight(t, d - d / 5))
  {
    hide FromRight, Spaced, Text;
    NumValue(16, x);
    SixteenDigits(x, 16);
    QuotWord16(x);
    StripDigits(16, 16, x);
    StripShortens(Digits(16, 16, x));
    SpacedFromRight(HexText(x, leading, false), d);
  }

  lemma QuotWord16(x: Word)
    ensures Quot(16, x, 16) == 0
  {
    QuotBound(16, x, 16);
    PowValues();
  }

  function Pow(b: nat, k: nat): nat {
    if k == 0 then 1 else b * Pow(b, k - 1)
  }

  lemma {:induction false} QuotBound(b: nat, x: nat, k: nat)
    requires b >= 2
    ensures x < Pow(b, k) ==> Quot(b, x, k) == 0
  {
    if k > 0 && x < Pow(b, k) {
      var p := Pow(b, k - 1);
      assert x == b * (x / b) + x % b;
      if x / b >= p {
        Distribute(b, x / b, p);
        MulMonotone(b, x / b - p);
      }
      QuotBound(b, x / b, k - 1);
    }
  }

  lemma MulMonotone(b: nat, k: nat)
    ensures b * k >= 0
  {
  }

  lemma PowValues()
    ensures Pow(16, 16) == TWO64 && Pow(10, 20) > TWO64
  {
    assert Pow(16, 4) == 0x1_0000;
    assert Pow(16, 8) == 0x1_0000 * Pow(16, 4);
    assert Pow(16, 12) == 0x1_0000 * Pow(16, 8);
    assert Pow(16, 16) == 0x1_0000 * Pow(16, 12);
    assert Pow(10, 4) == 10000;
    assert Pow(10, 8) == 10000 * Pow(10, 4);
    assert Pow(10, 12) == 10000 * Pow(10, 8);
    assert Pow(10, 16) == 10000 * Pow(10, 12);
    assert Pow(10, 20) == 10000 * Pow(10, 16);
  }

  /** Twenty decimal digits hold any 64-bit value. */
  lemma QuotWord10(x: Word)
    ensures Quot(10, x, 20) == 0
  {
    PowValues();
    QuotBound(10, x, 20);
  }

  // ---------- The loops of kputdec and kputhex ----------

  /** What one pass with k digits left prints for the digit d, l telling whether zeros count. */
  function EmitDigit(d: nat, k: nat, l: bool): string
    requires d < 16
  {
    if l || k == 1 then [DigitChar(d)] else ""
  }

  /** What the second loop of kputdec prints from the digits that remain: zeros are skipped while
      nothing was printed, but the last digit is always printed. */
  function Emit(ds: seq<nat>, leading: bool): string
    requires DigitsOk(16, ds)
  {
    if ds == [] then ""
    else
      var l := leading || ds[0] != 0;
      EmitDigit(ds[0], |ds|, l) + Emit(ds[1..], l)
  }

  lemma DecimalDigit(d: nat)
    requires d < 10
    ensures DigitChar(d) == ('0' as int + d) as char
  {
  }

  lemma EmitStep(ds: seq<nat>, leading: bool, before: string, after: string)
    requires DigitsOk(16, ds) && ds != []
    requires var l := leading || ds[0] != 0;
      after == if l || |ds| == 1 then before + [DigitChar(ds[0])] else before
    ensures after + Emit(ds[1..], leading || ds[0] != 0) == before + Emit(ds, leading)
  {
    var l := leading || ds[0] != 0;
    var p := EmitDigit(ds[0], |ds|, l);
    assert after == before + p;
    hide EmitDigit;
    Assoc(before, p, Emit(ds[1..], l));
  }

  lemma {:induction false} EmitAll(ds: seq<nat>)
    requires DigitsOk(16, ds)
    ensures Emit(ds, true) == Text(ds)
  {
    if ds != [] {
      EmitAll(ds[1..]);
      assert Text(ds) == [DigitChar(ds[0])] + Text(ds[1..]);
    }
  }

  lemma {:induction false} StripOk(ds: seq<nat>)
    requires DigitsOk(16, ds)
    ensures DigitsOk(16, StripZeros(ds))
  {
    if ds != [] && ds[0] == 0 {
      StripOk(ds[1..]);
    }
  }

  lemma {:induction false} EmitStripped(ds: seq<nat>)
    requires DigitsOk(16, ds) && ds != []
    ensures DigitsOk(16, StripZeros(ds))
    ensures Emit(ds, false) == if StripZeros(ds) == [] then "0" else Text(StripZeros(ds))
  {
    StripOk(ds);
    if ds[0] != 0 {
      EmitAll(ds);
      EmitAll(ds[1..]);
      assert Text(ds) == [DigitChar(ds[0])] + Text(ds[1..]);
    } else if |ds| == 1 {
      assert ds[1..] == [] && StripZeros(ds) == [];
      assert Emit(ds[1..], false) == "";
      assert Emit(ds, false) == [DigitChar(0)] + "";
    } else {
      EmitStripped(ds[1..]);
      assert Emit(ds, false) == "" + Emit(ds[1..], false);
    }
  }

  /** The digits of a 64-bit value, printed by the second loop, are its numeral. */
  lemma EmitDecimal(x: Word)
    ensures DigitsOk(16, Digits(10, 20, x)) && Emit(Digits(10, 20, x), false) == Decimal(x)
  {
    QuotWord10(x);
    DigitsValue(10, 20, x);
    StripDigits(10, 20, x);
    NumValue(10, x);
    EmitStripped(Digits(10, 20, x));
  }

  /** What one pass of kputhex with k digits left prints for the digit d, l telling whether zeros count. */
  function EmitHexDigit(d: nat, k: nat, l: bool, spacers: bool): string
    requires d < 16
  {
    if !l then ""
    else if spacers && CommaBefore(k) then [',', DigitChar(d)]
    else [DigitChar(d)]
  }

  /** What the loop of kputhex prints from the digits that remain. */
  function EmitHex(ds: seq<nat>, leading: bool, spacers: bool): string
    requires DigitsOk(16, ds)
  {
    if ds == [] then ""
    else
      var l := leading || ds[0] != 0;
      EmitHexDigit(ds[0], |ds|, l, spacers) + EmitHex(ds[1..], l, spacers)
  }

  lemma EmitHexStep(ds: seq<nat>, leading: bool, spacers: bool, before: string, after: string)
    requires DigitsOk(16, ds) && ds != []
    requires var l := leading || ds[0] != 0;
      after == if !l then before
               else if spacers && |ds| != 16 && |ds| % 4 == 0 then before + [','] + [DigitChar(ds[0])]
               else before + [DigitChar(ds[0])]
    ensures after + EmitHex(ds[1..], leading || ds[0] != 0, spacers) == before + EmitHex(ds, leading, spacers)
  {
    var l := leading || ds[0] != 0;
    var p := EmitHexDigit(ds[0], |ds|, l, spacers);
    assert after == before + p;
    hide EmitHexDigit;
    Assoc(before, p, EmitHex(ds[1..], l, spacers));
  }

  /** One pass of kputhex against one character of the text, t being the output after it. */
  lemma EmitHexFront(d: nat, k: nat, spacers: bool, t: string)
    requires d < 16
    ensures var u := Front(DigitChar(d), t);
      EmitHexDigit(d, k, true, spacers) + t == if spacers && CommaBefore(k) then Front(',', u) else u
  {
    hide CommaBefore, DigitChar;
    var c := DigitChar(d);
    assert [',', c] + t == [','] + ([c] + t);
  }

  lemma TextFront(ds: seq<nat>)
    requires DigitsOk(16, ds) && ds != []
    ensures Text(ds) == Front(DigitChar(ds[0]), Text(ds[1..]))
  {
    hide DigitChar;
    assert Text(ds) == [DigitChar(ds[0])] + Text(ds[1..]);
  }

  lemma {:induction false} EmitHexAll(ds: seq<nat>, spacers: bool)
    requires DigitsOk(16, ds)
    ensures EmitHex(ds, true, spacers) == if spacers then Spaced(Text(ds)) else Text(ds)
  {
    hide CommaBefore, DigitChar, Front, EmitHexDigit;
    if ds != [] {
      EmitHexAll(ds[1..], spacers);
      TextFront(ds);
      EmitHexFront(ds[0], |ds|, spacers, EmitHex(ds[1..], true, spacers));
    }
  }

  lemma {:induction false} EmitHexStripped(ds: seq<nat>, spacers: bool)
    requires DigitsOk(16, ds)
    ensures DigitsOk(16, StripZeros(ds))
    ensures EmitHex(ds, false, spacers) == EmitHex(StripZeros(ds), true, spacers)
  {
    StripOk(ds);
    if ds != [] && ds[0] == 0 {
      EmitHexStripped(ds[1..], spacers);
      assert EmitHex(ds, false, spacers) == "" + EmitHex(ds[1..], false, spacers);
    }
  }

  lemma EmitHexText(x: Word, leading: bool, spacers: bool)
    ensures DigitsOk(16, Digits(16, 16, x)) && EmitHex(Digits(16, 16, x), leading, spacers) == HexText(x, leading, spacers)
  {
    SixteenDigits(x, 16);
    NumValue(16, x);
    if leading {
      EmitHexAll(Digits(16, 16, x), spacers);
    } else {
      QuotWord16(x);
      StripDigits(16, 16, x);
      EmitHexStripped(Digits(16, 16, x), spacers);
      EmitHexAll(Num(16, x), spacers);
    }
  }

  lemma QuotStart(b: nat, x: nat, k: nat)
    requires b >= 2 && k == 0
    ensures Quot(b, x, k) == x
  {
  }

  lemma EmitEnd(ds: seq<nat>, leading: bool)
    requires ds == []
    ensures DigitsOk(16, ds) && Emit(ds, leading) == ""
  {
  }

  lemma EmitHexEnd(ds: seq<nat>, leading: bool, spacers: bool)
    requires ds == []
    ensures DigitsOk(16, ds) && EmitHex(ds, leading, spacers) == ""
  {
  }

  lemma {:induction false} QuotStep(b: nat, x: nat, k: nat)
    requires b >= 2
    ensures Quot(b, x, k + 1) == Quot(b, x, k) / b
  {
    if k > 0 {
      QuotStep(b, x / b, k - 1);
    }
  }

  /** Digit j from the right. */
  lemma {:induction false} DigitAt(b: nat, n: nat, x: nat, j: nat)
    requires b >= 2 && j < n
    ensures Digits(b, n, x)[n - 1 - j] == Quot(b, x, j) % b
  {
    if j > 0 {
      DigitAt(b, n - 1, x / b, j - 1);
    }
  }

  /** `(x >> 4 * i) & 0xf` is digit i of x in base 16. */
  lemma NibbleIsShift(x: nat, i: nat)
    ensures Quot(16, x, i) % 16 == Bitwise.And(Bitwise.Shr(x, 4 * i), 0xf)
  {
    ShiftIsQuot(x, i);
    Bitwise.AndLowBits(Quot(16, x, i), 4);
    assert Bitwise.Pow2(4) == 16;
  }

  lemma {:induction false} ShiftIsQuot(x: nat, i: nat)
    ensures Bitwise.Shr(x, 4 * i) == Quot(16, x, i)
  {
    if i > 0 {
      ShiftIsQuot(x / 16, i - 1);
      ShiftFour(x, 4 * (i - 1));
    }
  }

  lemma ShiftFour(x: nat, k: nat)
    ensures Bitwise.Shr(x, k + 4) == Bitwise.Shr(x / 16, k)
  {
    assert Bitwise.Shr(x, k + 4) == Bitwise.Shr(x / 2, k + 3);
    assert Bitwise.Shr(x / 2, k + 3) == Bitwise.Shr(x / 2 / 2, k + 2);
    assert Bitwise.Shr(x / 2 / 2, k + 2) == Bitwise.Shr(x / 2 / 2 / 2, k + 1);
    assert x / 2 / 2 / 2 / 2 == x / 16;
  }

  lemma {:induction false} QuotZero(b: nat, x: nat, k: nat, j: nat)
    requires b >= 2 && k <= j && Quot(b, x, k) == 0
    ensures Quot(b, x, j) == 0
  {
    if k < j {
      QuotZero(b, x, k, j - 1);
      QuotStep(b, x, j - 1);
    }
  }

  // ---------- Format strings ----------

  /** A character array that ends at its first NUL. */
  predicate IsCString(s: seq<char>) {
    |s| >= 1 && s[|s| - 1] == '\0' && forall i :: 0 <= i < |s| - 1 ==> s[i] != '\0'
  }

  datatype Arg = Number(w: Word) | Str(s: seq<char>)

  predicate ArgOk(a: Arg) {
    a.Str? ==> IsCString(a.s)
  }

  /** What one directive prints; None when va_arg finds no argument of its type. */
  function Directive(c: char, args: seq<Arg>): Option<(string, seq<Arg>)> {
    if c in {'x', 'd', 'u', 'p', 'c'} then
      if args == [] || !args[0].Number? then None
      else
        var w := args[0].w;
        var text := match c
          case 'x' => HexText(w, false, false)
          case 'p' => HexText(w, true, true)
          case 'c' => [(w % 256) as char]
          case _ => Decimal(w);
        Some((text, args[1..]))
    else if c == 's' then
      if args == [] || !args[0].Str? || !ArgOk(args[0]) then None else Some((args[0].s[..|args[0].s| - 1], args[1..]))
    else Some(("", args))
  }

  /** The argument that a directive takes is there and of its type. */
  predicate HasArgument(c: char, args: seq<Arg>) {
    && (c in {'x', 'd', 'u', 'p', 'c'} ==> |args| > 0 && args[0].Number?)
    && (c == 's' ==> |args| > 0 && args[0].Str? && IsCString(args[0].s))
  }

  /** What each directive is for: the text it prints and the arguments it leaves. */
  predicate DirectivePrints(c: char, args: seq<Arg>, text: string, left: seq<Arg>)
    requires HasArgument(c, args)
  {
    && left == (if c in {'x', 'd', 'u', 'p', 'c', 's'} then args[1..] else args)
    && match c
       case 'x' => HexNumeral(text, args[0].w)
       case 'p' => PointerText(text, args[0].w)
       case 'd' => DecimalNumeral(text, args[0].w)
       case 'u' => DecimalNumeral(text, args[0].w)
       case 'c' => text == [(args[0].w % 256) as char]
       case 's' => text == args[0].s[..|args[0].s| - 1]
       case _ => text == ""
  }

  /** Every directive has an argument exactly when it can be printed, and prints what it is for. */
  lemma DirectiveText(c: char, args: seq<Arg>)
    ensures Directive(c, args).Some? <==> HasArgument(c, args)
    ensures Directive(c, args).Some? ==> DirectivePrints(c, args, Directive(c, args).value.0, Directive(c, args).value.1)
  {
    hide HexText, Decimal, HexNumeral, PointerText, DecimalNumeral;
    if HasArgument(c, args) && c in {'x', 'd', 'u', 'p'} {
      NumberTexts(args[0].w);
    }
  }

  lemma NumberTexts(w: Word)
    ensures HexNumeral(HexText(w, false, false), w) && PointerText(HexText(w, true, true), w)
    ensures DecimalNumeral(Decimal(w), w)
  {
    hide HexText, Decimal, HexNumeral, PointerText;
    HexPlain(w, false);
    HexPointer(w);
    DecimalReads(w);
  }

  /** The numeral of a 64-bit two's complement number. */
  function SignedDecimal(w: Word): string {
    if w < 0x8000_0000_0000_0000 then Decimal(w) else "-" + Decimal(TWO64 - w)
  }

  /** `%d` prints its int64_t as if it were unsigned: right exactly when the number is not negative. */
  lemma SignIsLost(w: Word, rest: seq<Arg>)
    ensures var r := Directive('d', [Number(w)] + rest);
      && r.Some? && r.value.1 == rest
      && (r.value.0 == SignedDecimal(w) <==> w < 0x8000_0000_0000_0000)
  {
    hide Decimal;
    assert ([Number(w)] + rest)[1..] == rest;
    NoMinus(w);
  }

  lemma NoMinus(w: nat)
    ensures Decimal(w) != "" && Decimal(w)[0] != '-'
  {
    hide Decimal;
    DecimalReads(w);
    assert Decimal(w)[0] in Decimal(w);
  }

  /** The text of a format over its arguments, with the arguments left over; a `%` at the very end
      prints nothing and an unknown directive is dropped. */
  function Render(f: string, args: seq<Arg>): Option<(string, seq<Arg>)>
    decreases |f|
  {
    if f == "" then Some(("", args))
    else if f[0] != '%' then
      var (s, rest) :- Render(f[1..], args);
      Some(([f[0]] + s, rest))
    else if |f| == 1 then Some(("", args))
    else
      var (t, left) :- Directive(f[1], args);
      var (s, rest) :- Render(f[2..], left);
      Some((t + s, rest))
  }

  /** The format ends in a `%` that starts a directive. */
  predicate Dangling(f: string)
    decreases |f|
  {
    if f == "" then false
    else if f[0] != '%' then Dangling(f[1..])
    else |f| == 1 || Dangling(f[2..])
  }

  function Joined(r: Option<(string, seq<Arg>)>, g: string): Option<(string, seq<Arg>)> {
    if r.None? || Render(g, r.value.1).None? then None
    else Some((r.value.0 + Render(g, r.value.1).value.0, Render(g, r.value.1).value.1))
  }

  /** Formats compose: unless the first one ends in a dangling `%`, printing two formats joined is
      printing one and then the other with the arguments that are left. */
  lemma {:induction false} RenderJoins(f: string, g: string, args: seq<Arg>)
    requires !Dangling(f)
    ensures Render(f + g, args) == Joined(Render(f, args), g)
    decreases |f|
  {
    hide Directive;
    if f == "" {
      assert f + g == g;
      if Render(g, args).Some? {
        assert "" + Render(g, args).value.0 == Render(g, args).value.0;
      }
    } else if f[0] != '%' {
      assert (f + g)[1..] == f[1..] + g;
      RenderJoins(f[1..], g, args);
      var r := Render(f[1..], args);
      if r.Some? && Render(g, r.value.1).Some? {
        var t := Render(g, r.value.1).value.0;
        assert [f[0]] + (r.value.0 + t) == ([f[0]] + r.value.0) + t;
      }
    } else {
      assert (f + g)[2..] == f[2..] + g && (f + g)[1] == f[1];
      if Directive(f[1], args).Some? {
        RenderJoins(f[2..], g, Directive(f[1], args).value.1);
        JoinText(f, g, args);
      }
    }
  }

  lemma JoinText(f: string, g: string, args: seq<Arg>)
    requires |f| >= 2 && f[0] == '%' && Directive(f[1], args).Some?
    requires var left := Directive(f[1], args).value.1; Render(f[2..] + g, left) == Joined(Render(f[2..], left), g)
    requires (f + g)[2..] == f[2..] + g && (f + g)[1] == f[1]
    ensures Render(f + g, args) == Joined(Render(f, args), g)
  {
    hide Directive, Render;
    var (t, left) := Directive(f[1], args).value;
    var r := Render(f[2..], left);
    RenderDirective(f, args);
    RenderDirective(f + g, args);
    if r.Some? && Render(g, r.value.1).Some? {
      var (s, rest) := r.value;
      assert t + (s + Render(g, rest).value.0) == (t + s) + Render(g, rest).value.0;
    }
  }

  lemma RenderDirective(f: string, args: seq<Arg>)
    requires |f| >= 2 && f[0] == '%' && Directive(f[1], args).Some?
    ensures var (t, left) := Directive(f[1], args).value;
            var r := Render(f[2..], left);
      Render(f, args) == if r.None? then None else Some((t + r.value.0, r.value.1))
  {
    hide Directive;
  }

  lemma {:induction false} RenderPlain(f: string, args: seq<Arg>)
    requires '%' !in f
    ensures Render(f, args) == Some((f, args)) && !Dangling(f)
    decreases |f|
  {
    if f != "" {
      RenderPlain(f[1..], args);
      assert f == [f[0]] + f[1..];
    }
  }

  /** A format from left to right: plain characters as they are, then what the first directive is for,
      then the rest of the format over the arguments that are left; a lone `%` at the end is nothing. */
  lemma RenderInOrder(p: string, c: char, g: string, args: seq<Arg>)
    requires '%' !in p && HasArgument(c, args)
    ensures Render(p, args) == Some((p, args)) && Render(p + "%", args) == Some((p, args))
    ensures Directive(c, args).Some?
    ensures var (text, left) := Directive(c, args).value;
      && DirectivePrints(c, args, text, left)
      && Render(p + (['%', c] + g), args)
         == (if Render(g, left).None? then None else Some((p + (text + Render(g, left).value.0), Render(g, left).value.1)))
  {
    hide Directive, DirectivePrints, HasArgument;
    DirectiveText(c, args);
    RenderPlain(p, args);
    var f := ['%', c] + g;
    assert f[2..] == g && f[0] == '%' && f[1] == c;
    RenderJoins(p, f, args);
    RenderDirective(f, args);
    RenderJoins(p, "%", args);
    LastPercent("%", args);
    assert p + "" == p;
  }

  /** A dangling `%` swallows the character that is put after it. */
  lemma {:induction false} DanglingSwallows(f: string, args: seq<Arg>)
    requires Dangling(f) && Render(f, args).Some?
    ensures Render(f + "z", args) == Render(f, args)
    decreases |f|
  {
    if f[0] != '%' {
      assert (f + "z")[1..] == f[1..] + "z" && (f + "z")[0] == f[0];
      DanglingSwallows(f[1..], args);
    } else if |f| == 1 {
      var g := f + "z";
      assert g[2..] == "" && g[1] == 'z' && Directive('z', args) == Some(("", args));
      RenderDirective(g, args);
      RenderNothing(g[2..], args);
      assert "" + "" == "";
      LastPercent(f, args);
    } else {
      hide Directive;
      var g := f + "z";
      assert g[2..] == f[2..] + "z" && g[1] == f[1] && g[0] == f[0];
      DirectiveStep(f, args);
      RenderDirective(f, args);
      RenderDirective(g, args);
      DanglingSwallows(f[2..], Directive(f[1], args).value.1);
    }
  }

  /** A format that can be printed composes with every format that may follow exactly when it does
      not end in a dangling `%`. */
  lemma ComposesExactly(f: string, args: seq<Arg>)
    requires Render(f, args).Some?
    ensures (forall g :: Render(f + g, args) == Joined(Render(f, args), g)) <==> !Dangling(f)
  {
    hide Directive;
    if Dangling(f) {
      DanglingSwallows(f, args);
      var r := Render(f, args).value;
      assert "z"[1..] == "";
      RenderNothing("z"[1..], r.1);
      assert Render("z", r.1) == Some((['z'] + "", r.1));
      assert |r.0 + (['z'] + "")| == |r.0| + 1;
      assert Render(f + "z", args) != Joined(Render(f, args), "z");
    } else {
      forall g ensures Render(f + g, args) == Joined(Render(f, args), g) {
        RenderJoins(f, g, args);
      }
    }
  }

  lemma CharStep(f: string, args: seq<Arg>, before: string, after: string)
    requires f != "" && f[0] != '%' && Render(f, args).Some? && after == before + [f[0]]
    ensures Render(f[1..], args).Some? && after + Render(f[1..], args).value.0 == before + Render(f, args).value.0
  {
  }

  lemma LastPercent(f: string, args: seq<Arg>)
    requires f != "" && f[0] == '%' && |f| == 1
    ensures Render(f, args) == Some(("", args))
  {
  }

  lemma RenderNothing(f: string, args: seq<Arg>)
    requires f == ""
    ensures Render(f, args) == Some(("", args))
  {
  }

  /** A directive of a format that can be rendered has its argument. */
  lemma DirectiveStep(f: string, args: seq<Arg>)
    requires |f| >= 2 && f[0] == '%' && Render(f, args).Some?
    ensures Directive(f[1], args).Some?
    ensures var (t, left) := Directive(f[1], args).value;
      Render(f[2..], left).Some? && Render(f, args).value.0 == t + Render(f[2..], left).value.0
  {
    hide Directive;
  }

  // ---------- The console ----------

  class Console {
    var out: string

    constructor ()
      ensures out == ""
    {
      out := "";
    }

    /** KPUTC: one character of output. */
    method KPutc(c: char)
      modifies this
      ensures out == old(out) + [c]
    {
      out := out + [c];
    }

    method KPuts(str: seq<char>)
      requires IsCString(str)
      modifies this
      ensures out == old(out) + str[..|str| - 1]
    {
      var i := 0;
      while str[i] != '\0'
        invariant 0 <= i < |str| && out == old(out) + str[..i]
        decreases |str| - i
      {
        KPutc(str[i]);
        i := i + 1;
      }
    }

    method KPutHex(x: Word, leading: bool, spacers: bool)
      modifies this
      ensures out == old(out) + HexText(x, leading, spacers)
    {
      hide Digits, EmitHex, HexText, Quot, Bitwise.And, Bitwise.Shr;
      EmitHexText(x, leading, spacers);
      ghost var ds := Digits(16, 16, x);
      assert ds[15 - 15..] == ds;
      var hexdigits := "0123456789abcdef";
      var lead := leading;
      var i := 15;
      while i >= 0
        invariant -1 <= i <= 15
        invariant out + EmitHex(ds[15 - i..], lead, spacers) == old(out) + EmitHex(ds, leading, spacers)
      {
        var ind := Bitwise.And(Bitwise.Shr(x, 4 * i), 0xf);
        NibbleIsShift(x, i);
        DigitAt(16, 16, x, i);
        ghost var rest, before, was := ds[15 - i..], out, lead;
        assert rest[0] == ind && rest[1..] == ds[16 - i..];
        if ind != 0 && !lead {
          lead := true;
        }
        if lead {
          if spacers && i != 15 && (i + 1) % 4 == 0 {
            KPutc(',');
          }
          KPutc(hexdigits[ind]);
        }
        EmitHexStep(rest, was, spacers, before, out);
        i := i - 1;
      }
      EmitHexEnd(ds[15 - i..], lead, spacers);
    }

    method KPutDec(x: Word)
      modifies this
      ensures out == old(out) + Decimal(x)
    {
      hide Quot, Digits, Emit, Decimal, DigitChar;
      var buf := new nat[20](_ => 0);
      var y, i := x, 19;
      QuotStart(10, x, 0);
      while y != 0
        invariant -1 <= i <= 19 && y == Quot(10, x, 19 - i) && out == old(out)
        invariant forall j :: i < j < 20 ==> buf[j] == Quot(10, x, 19 - j) % 10
        invariant forall j :: 0 <= j <= i ==> buf[j] == 0
      {
        QuotWord10(x);
        buf[i] := y % 10;
        QuotStep(10, x, 19 - i);
        y := y / 10;
        i := i - 1;
      }
      ghost var ds := Digits(10, 20, x);
      forall j | 0 <= j < 20 ensures buf[j] == ds[j] {
        DigitAt(10, 20, x, 19 - j);
        if j <= i {
          QuotZero(10, x, 19 - i, 19 - j);
        }
      }
      assert buf[..] == ds;
      EmitDecimal(x);
      var leading := false;
      i := 0;
      assert ds[i..] == ds;
      while i < 20
        invariant 0 <= i <= 20 && buf[..] == ds
        invariant out + Emit(ds[i..], leading) == old(out) + Emit(ds, false)
      {
        ghost var rest, before, was := ds[i..], out, leading;
        assert rest[0] == buf[i] && rest[1..] == ds[i + 1..];
        if buf[i] != 0 && !leading {
          leading := true;
        }
        if leading || i == 19 {
          DecimalDigit(buf[i]);
          KPutc(('0' as int + buf[i]) as char);
        }
        EmitStep(rest, was, before, out);
        i := i + 1;
      }
      EmitEnd(ds[i..], leading);
    }
  
    /** The switch of printk: print one directive and take its argument off the list. */
    method PrintDirective(c: char, args: seq<Arg>) returns (left: seq<Arg>)
      requires HasArgument(c, args)
      modifies this
      ensures |old(out)| <= |out| && out[..|old(out)|] == old(out)
      ensures DirectivePrints(c, args, out[|old(out)|..], left)
      ensures Directive(c, args) == Some((out[|old(out)|..], left))
    {
      hide DirectivePrints, HexText, Decimal;
      DirectiveText(c, args);
      ghost var text := Directive(c, args).value.0;
      left := args;
      if c == 's' {
        KPuts(args[0].s);
        left := args[1..];
      } else if c in {'x', 'd', 'u', 'p', 'c'} {
        var w := args[0].w;
        match c {
          case 'x' => KPutHex(w, false, false);
          case 'p' => KPutHex(w, true, true);
          case 'c' => KPutc((w % 256) as char);
          case _ => KPutDec(w);
        }
        left := args[1..];
      }
      assert out == old(out) + text;
    }

    /** Print a format: exactly its rendering, reading no character past its NUL. */
    method Printk(fmt: seq<char>, args: seq<Arg>)
      requires IsCString(fmt) && Render(fmt[..|fmt| - 1], args).Some?
      modifies this
      ensures out == old(out) + Render(fmt[..|fmt| - 1], args).value.0
      ensures '%' !in fmt ==> out == old(out) + fmt[..|fmt| - 1]
    {
      hide Directive, Render;
      ghost var text := fmt[..|fmt| - 1];
      ghost var all := Render(text, args).value.0;
      if '%' !in fmt {
        RenderPlain(text, args);
      }
      var i, ap := 0, args;
      assert text[0..] == text;
      while fmt[i] != '\0'
        invariant 0 <= i < |fmt|
        invariant Render(text[i..], ap).Some? && out + Render(text[i..], ap).value.0 == old(out) + all
        decreases |fmt| - i
      {
        ghost var before, rest := out, text[i..];
        assert rest[0] == fmt[i] && rest[1..] == text[i + 1..];
        if fmt[i] != '%' {
          KPutc(fmt[i]);
          CharStep(rest, ap, before, out);
        } else {
          i := i + 1;
          if fmt[i] == '\0' {
            LastPercent(rest, ap);
            return;
          }
          assert rest[1] == fmt[i] && rest[2..] == text[i + 1..];
          DirectiveStep(rest, ap);
          DirectiveText(fmt[i], ap);
          ghost var t := Directive(fmt[i], ap).value.0;
          ap := PrintDirective(fmt[i], ap);
          assert out == before + t;
        }
        i := i + 1;
      }
      RenderNothing(text[i..], ap);
    }
  }
}
