/** The fields that printf's integer conversions put out, and how they read. */
module IntegerFields {
  import opened Bits
  import opened Integers
  import opened Options

  /** The flags, field width and precision of one conversion; a negative precision means
      that none was given. */
  datatype Conversion = Conversion(
    minus: bool, plus: bool, space: bool, pound: bool, zero: bool, group: bool, width: nat, precision: int)

  datatype Base = Base(base: nat, digits: string, x: Option<char>, group: nat)

  const BASE_D := Base(10, "0123456789", None, 3)
  const BASE_O := Base(8, "01234567", None, 3)
  const BASE_X := Base(16, "0123456789abcdef", Some('x'), 4)
  const BASE_XX := Base(16, "0123456789ABCDEF", Some('X'), 4)

  /** The value of a digit in ASCII. */
  function DigitValue(ch: char): nat {
    if '0' <= ch <= '9' then (ch - '0') as int
    else if 'a' <= ch <= 'f' then 10 + (ch - 'a') as int
    else if 'A' <= ch <= 'F' then 10 + (ch - 'A') as int
    else 0
  }

  /** The digits are those of the base, in order. */
  predicate BaseOk(b: Base) {
    && (b.x == None || b.x == Some('x') || b.x == Some('X'))
    && 8 <= b.base == |b.digits| && b.group > 0 && b.digits[0] == '0'
    && forall i | 0 <= i < |b.digits| :: DigitValue(b.digits[i]) == i && b.digits[i] != ','
  }

  lemma BasesOk()
    ensures BaseOk(BASE_D) && BaseOk(BASE_O) && BaseOk(BASE_X) && BaseOk(BASE_XX)
  {
    hide BaseOk;
    LowBases();
    LowerBase();
    UpperBase();
  }

  lemma LowBases()
    ensures BaseOk(BASE_D) && BaseOk(BASE_O)
  {
  }

  lemma LowerBase()
    ensures BaseOk(BASE_X)
  {
  }

  lemma UpperBase()
    ensures BaseOk(BASE_XX)
  {
  }

  lemma BaseFacts(b: Base)
    requires BaseOk(b)
    ensures 8 <= b.base == |b.digits| && b.group > 0
  {
  }

  const UINTMAX: nat := 0x1_0000_0000_0000_0000
  const BUF_SIZE: nat := 64

  // ----- Numerals

  /** The numeral of v, most significant digit first; empty for zero. */
  function Numeral(v: nat, b: Base): string
    requires BaseOk(b)
  {
    if v == 0 then ""
    else
      Divided(v, b.base);
      Numeral(v / b.base, b) + [b.digits[v % b.base]]
  }

  /** The number that a string of digits stands for. */
  function Eval(s: string, base: nat): nat {
    if s == "" then 0 else base * Eval(s[..|s| - 1], base) + DigitValue(s[|s| - 1])
  }

  /** Leading zeros do not count. */
  lemma {:induction false} EvalZeros(n: nat, s: string, base: nat)
    ensures Eval(Repeat('0', n) + s, base) == Eval(s, base)
  {
    var t := Repeat('0', n) + s;
    if s != "" {
      EvalZeros(n, s[..|s| - 1], base);
      assert t[..|t| - 1] == Repeat('0', n) + s[..|s| - 1];
    } else if n > 0 {
      EvalZeros(n - 1, "", base);
      assert t[..|t| - 1] == Repeat('0', n - 1) + "";
    }
  }

  /** Printing and evaluating are inverse. */
  lemma {:induction false} EvalNumeral(v: nat, b: Base)
    requires BaseOk(b)
    ensures Eval(Numeral(v, b), b.base) == v
  {
    if v > 0 {
      var q, r := v / b.base, v % b.base;
      Divided(v, b.base);
      EvalNumeral(q, b);
      var s := Numeral(v, b);
      assert s[..|s| - 1] == Numeral(q, b) && s[|s| - 1] == b.digits[r];
      assert DigitValue(b.digits[r]) == r;
    }
  }

  lemma Divided(v: nat, base: nat)
    requires base >= 8 && v > 0
    ensures v == base * (v / base) + v % base && 0 <= v / base < v && 0 <= v % base < base
  {
  }

  function Repeat(ch: char, n: nat): (s: string)
    ensures |s| == n
  {
    seq(n, _ => ch)
  }

  function Reverse(s: string): (r: string)
    ensures |r| == |s|
  {
    if s == "" then "" else Reverse(s[1..]) + [s[0]]
  }

  function Ungrouped(s: string): string {
    if s == "" then ""
    else Ungrouped(s[..|s| - 1]) + (if s[|s| - 1] == ',' then "" else [s[|s| - 1]])
  }

  // ----- What the conversion loop accumulates

  /** Digits of v, least significant first, with a comma before every group but the first;
      k digits have been produced before. */
  function LowFirst(v: nat, b: Base, group: bool, k: nat): string
    requires BaseOk(b)
  {
    if v == 0 then ""
    else
      Divided(v, b.base);
      Comma(b, group, k) + [b.digits[v % b.base]] + LowFirst(v / b.base, b, group, k + 1)
  }

  function Comma(b: Base, group: bool, k: nat): string
    requires BaseOk(b)
  {
    if group && k > 0 && k % b.group == 0 then "," else ""
  }

  lemma LowFirstUnfold(v: nat, b: Base, group: bool, k: nat)
    requires BaseOk(b)
    ensures v == 0 ==> LowFirst(v, b, group, k) == ""
    ensures v > 0 ==> v / b.base < v && v % b.base < |b.digits|
    ensures v > 0 ==> LowFirst(v, b, group, k) ==
                      Comma(b, group, k) + [b.digits[v % b.base]] + LowFirst(v / b.base, b, group, k + 1)
  {
    hide Comma;
    if v > 0 { Divided(v, b.base); }
  }

  lemma {:induction false} LowFirstLength(v: nat, b: Base, group: bool, k: nat, d: nat)
    requires BaseOk(b) && v < Pow2(3 * d)
    ensures |LowFirst(v, b, group, k)| <= 2 * d
  {
    hide LowFirst, BaseOk, Pow2;
    BaseFacts(b);
    LowFirstUnfold(v, b, group, k);
    if v > 0 {
      PowStep(v, b.base, d);
      LowFirstLength(v / b.base, b, group, k + 1, d - 1);
    }
  }

  lemma PowStep(v: nat, base: nat, d: nat)
    requires base >= 8 && 0 < v < Pow2(3 * d)
    ensures d > 0 && v / base < Pow2(3 * (d - 1))
  {
    if d > 0 {
      var p := Pow2(3 * (d - 1));
      assert Pow2(3 * d) == 2 * Pow2(3 * d - 1) == 4 * Pow2(3 * d - 2) == 8 * p;
      DivBound(v, base, p);
    }
  }

  lemma DivBound(v: nat, base: nat, p: nat)
    requires base >= 8 && v < 8 * p
    ensures v / base < p
  {
    var q := v / base;
    assert q * base <= v;
    assert 8 * q <= q * base;
  }

  lemma UintmaxBits()
    ensures Pow2(66) >= UINTMAX
  {
    assert Pow2(8) == 256;
    PowAdd(8, 8);
    PowAdd(16, 16);
    PowAdd(32, 32);
    PowAdd(64, 2);
    hide Pow2;
    assert Pow2(32) == 0x1_0000_0000;
  }

  lemma {:induction false} ReverseConcat(s: string, t: string)
    ensures Reverse(s + t) == Reverse(t) + Reverse(s)
  {
    if s == "" {
      assert s + t == t;
    } else {
      ReverseConcat(s[1..], t);
      assert (s + t)[1..] == s[1..] + t;
    }
  }

  lemma {:induction false} UngroupedConcat(s: string, t: string)
    ensures Ungrouped(s + t) == Ungrouped(s) + Ungrouped(t)
  {
    if t == "" {
      assert s + t == s;
    } else {
      UngroupedConcat(s, t[..|t| - 1]);
      assert (s + t)[..|s + t| - 1] == s + t[..|t| - 1];
    }
  }

  /** Read backwards and without commas, the accumulated digits are the numeral. */
  lemma {:induction false} LowFirstIsNumeral(v: nat, b: Base, group: bool, k: nat)
    requires BaseOk(b)
    ensures Ungrouped(Reverse(LowFirst(v, b, group, k))) == Numeral(v, b)
    ensures !group ==> Reverse(LowFirst(v, b, group, k)) == Numeral(v, b)
  {
    hide LowFirst, BaseOk, Reverse, Ungrouped;
    BaseFacts(b);
    SmallStrings('0');
    LowFirstUnfold(v, b, group, k);
    if v > 0 {
      var q, ch := v / b.base, b.digits[v % b.base];
      LowFirstIsNumeral(q, b, group, k + 1);
      DigitFacts(b, v % b.base);
      BackwardsStep(Comma(b, group, k), ch, LowFirst(q, b, group, k + 1));
    }
  }

  lemma BackwardsStep(comma: string, ch: char, rest: string)
    requires (comma == "" || comma == ",") && ch != ','
    ensures Ungrouped(Reverse(comma + [ch] + rest)) == Ungrouped(Reverse(rest)) + [ch]
    ensures comma == "" ==> Reverse(comma + [ch] + rest) == Reverse(rest) + [ch]
  {
    hide Reverse, Ungrouped;
    SmallStrings(ch);
    ReverseConcat(comma + [ch], rest);
    ReverseConcat(comma, [ch]);
    UngroupedConcat(Reverse(rest), [ch] + comma);
    UngroupedConcat([ch], comma);
    assert comma == "" ==> [ch] + comma == [ch];
  }

  lemma SmallStrings(ch: char)
    requires ch != ','
    ensures Reverse([ch]) == [ch] && Reverse(",") == "," && Reverse("") == ""
    ensures Ungrouped([ch]) == [ch] && Ungrouped(",") == "" && Ungrouped("") == ""
  {
    assert [ch][1..] == "" && ","[1..] == "" && [ch][..0] == "" && ","[..0] == "";
  }

  // ----- Fields

  function Max(a: int, b: int): int { if a < b then b else a }

  /** How many characters the precision asks for; the buffer holds one more. */
  function Precision(c: Conversion): nat {
    var p := if c.precision < 0 then 1 else c.precision;
    if p < BUF_SIZE - 1 then p else BUF_SIZE - 1
  }

  function Sign(isSigned: bool, negative: bool, c: Conversion): string {
    if !isSigned then ""
    else if c.plus then (if negative then "-" else "+")
    else if c.space then (if negative then "-" else " ")
    else if negative then "-" else ""
  }

  function Prefix(value: nat, b: Base, c: Conversion): string {
    if c.pound && value > 0 && b.x.Some? then ['0', b.x.value] else ""
  }

  /** The digits of the field in reverse, with the zeros for the precision and for `#`. */
  function Low(value: nat, b: Base, c: Conversion): string
    requires BaseOk(b)
  {
    var s := LowFirst(value, b, c.group, 0);
    var t := s + Repeat('0', Max(Precision(c) - |s|, 0));
    if c.pound && b.base == 8 && (t == "" || t[|t| - 1] != '0') then t + "0" else t
  }

  function Pad(value: nat, isSigned: bool, negative: bool, b: Base, c: Conversion): nat
    requires BaseOk(b)
  {
    Max(c.width - |Low(value, b, c)| - |Prefix(value, b, c)| - |Sign(isSigned, negative, c)|, 0)
  }

  /** The field that a conversion puts out. */
  function Field(value: nat, isSigned: bool, negative: bool, b: Base, c: Conversion): string
    requires BaseOk(b)
  {
    var pad := Pad(value, isSigned, negative, b, c);
    Padding(' ', !c.minus && !c.zero, pad) +
    Sign(isSigned, negative, c) + Prefix(value, b, c) +
    Padding('0', c.zero, pad) +
    Reverse(Low(value, b, c)) +
    Padding(' ', c.minus, pad)
  }

  function Padding(ch: char, on: bool, n: nat): string {
    if on then Repeat(ch, n) else ""
  }

  lemma DigitsDenote(value: nat, b: Base, c: Conversion)
    requires BaseOk(b)
    ensures Eval(Ungrouped(Reverse(Low(value, b, c))), b.base) == value
  {
    var s := LowFirst(value, b, c.group, 0);
    var low := Low(value, b, c);
    var n := |low| - |s|;
    assert low == s + Repeat('0', n);
    ReverseConcat(s, Repeat('0', n));
    ReverseZeros(n);
    UngroupedConcat(Repeat('0', n), Reverse(s));
    UngroupedZeros(n);
    LowFirstIsNumeral(value, b, c.group, 0);
    EvalZeros(n, Numeral(value, b), b.base);
    EvalNumeral(value, b);
  }

  lemma {:induction false} ReverseZeros(n: nat)
    ensures Reverse(Repeat('0', n)) == Repeat('0', n)
  {
    if n > 0 {
      ReverseZeros(n - 1);
      assert Repeat('0', n)[1..] == Repeat('0', n - 1);
      assert Repeat('0', n - 1) + "0" == Repeat('0', n);
    }
  }

  lemma {:induction false} UngroupedZeros(n: nat)
    ensures Ungrouped(Repeat('0', n)) == Repeat('0', n)
  {
    if n > 0 {
      UngroupedZeros(n - 1);
      assert Repeat('0', n)[..n - 1] == Repeat('0', n - 1);
      assert Repeat('0', n - 1) + "0" == Repeat('0', n);
    }
  }

  /** A field is as wide as asked for or as its contents need, except that left-justified
      zero padding, which a negative `*` width can ask for, pads on both sides. */
  lemma FieldWidth(value: nat, isSigned: bool, negative: bool, b: Base, c: Conversion)
    requires BaseOk(b)
    ensures var core := |Low(value, b, c)| + |Prefix(value, b, c)| + |Sign(isSigned, negative, c)|;
      && core <= |Field(value, isSigned, negative, b, c)|
      && (|Field(value, isSigned, negative, b, c)| == Max(c.width, core) <==>
            !(c.minus && c.zero) || c.width <= core)
  {
  }

  /** "%-03d" written with a negative star width: five characters instead of three. */
  lemma FieldTooWide()
    ensures BaseOk(BASE_D)
    ensures |Field(5, true, false, BASE_D, Conversion(true, false, false, false, true, false, 3, -1))| == 5
  {
    BasesOk();
    var c := Conversion(true, false, false, false, true, false, 3, -1);
    assert LowFirst(5, BASE_D, false, 0) == "5" by {
      LowFirstUnfold(5, BASE_D, false, 0);
      LowFirstUnfold(0, BASE_D, false, 1);
    }
    assert |Low(5, BASE_D, c)| == 1;
  }

  // ----- Where the commas stand

  predicate IsDigit(ch: char) {
    '0' <= ch <= '9' || 'a' <= ch <= 'f' || 'A' <= ch <= 'F'
  }

  /** How many characters n digits take up with a comma between groups of g. */
  function Spread(n: nat, group: bool, g: nat): nat
    requires g > 0
  {
    if group && n > 0 then n + (n - 1) / g else n
  }

  lemma SpreadStep(k: nat, g: nat)
    requires g > 0
    ensures Spread(k + 1, true, g) == Spread(k, true, g) + if k > 0 && k % g == 0 then 2 else 1
    ensures k > 0 ==> Spread(k, true, g) % (g + 1) == (k - 1) % g + 1
  {
    if k > 0 {
      var q, r := (k - 1) / g, (k - 1) % g;
      assert k - 1 == g * q + r;
      ModUnique(Spread(k, true, g), g + 1, q, r + 1);
      if r + 1 == g {
        ModUnique(k, g, q + 1, 0);
      } else {
        ModUnique(k, g, q, r + 1);
      }
    }
  }

  lemma DigitFacts(b: Base, i: nat)
    requires BaseOk(b) && i < |b.digits|
    ensures IsDigit(b.digits[i]) && (b.digits[i] == '0' <==> i == 0)
  {
    assert DigitValue(b.digits[i]) == i;
  }

  /** s is what `from` digits are followed by: digits, with a comma at every (g+1)-th place. */
  ghost predicate Spaced(s: string, from: nat, group: bool, g: nat)
    requires g > 0
  {
    forall p | 0 <= p < |s| ::
      if group && (Spread(from, group, g) + p) % (g + 1) == g then s[p] == ',' else IsDigit(s[p])
  }

  lemma SpacedStep(k: nat, b: Base, group: bool, ch: char, rest: string)
    requires BaseOk(b) && IsDigit(ch) && Spaced(rest, k + 1, group, b.group)
    ensures Spaced(Comma(b, group, k) + [ch] + rest, k, group, b.group)
    ensures Spread(k, group, b.group) + |Comma(b, group, k)| + 1 == Spread(k + 1, group, b.group)
  {
    var g, c := b.group, Comma(b, group, k);
    if group {
      SpreadStep(k, g);
      SpreadStep(k + 1, g);
      var s := c + [ch] + rest;
      var at := Spread(k, true, g);
      assert |c| == 0 ==> at % (g + 1) != g by { CommaPlace(k, g); }
      assert |c| == 1 ==> at % (g + 1) == g && (at + 1) % (g + 1) == 0 by { CommaPlace(k, g); }
      forall p | 0 <= p < |s|
        ensures if (at + p) % (g + 1) == g then s[p] == ',' else IsDigit(s[p])
      {
        if p > |c| {
          var r := p - |c| - 1;
          assert s[p] == rest[r] && Spread(k + 1, true, g) + r == at + p;
        }
      }
    }
  }

  lemma CommaPlace(k: nat, g: nat)
    requires g > 0
    ensures Spread(k, true, g) % (g + 1) == g <==> k > 0 && k % g == 0
    ensures k > 0 && k % g == 0 ==> (Spread(k, true, g) + 1) % (g + 1) == 0
  {
    SpreadStep(k, g);
    var at := Spread(k, true, g);
    if k > 0 {
      var q, r := (k - 1) / g, (k - 1) % g;
      assert k - 1 == g * q + r;
      if r + 1 == g {
        ModUnique(k, g, q + 1, 0);
        ModUnique(at + 1, g + 1, at / (g + 1) + 1, 0);
      } else {
        ModUnique(k, g, q, r + 1);
      }
    }
  }

  /** The accumulated digits: as many as the numeral has, spread, the last one not a zero. */
  lemma {:induction false} LowFirstShape(v: nat, b: Base, group: bool, k: nat)
    requires BaseOk(b)
    ensures var s, n := LowFirst(v, b, group, k), |Numeral(v, b)|;
      && Spread(k, group, b.group) + |s| == Spread(k + n, group, b.group)
      && Spaced(s, k, group, b.group)
      && (v > 0 ==> s != "" && s[|s| - 1] != '0')
  {
    hide LowFirst, Comma, BaseOk, Spaced;
    LowFirstUnfold(v, b, group, k);
    BaseFacts(b);
    if v == 0 {
      SpacedNone(k, group, b.group);
    } else {
      var q, r := v / b.base, v % b.base;
      Divided(v, b.base);
      LowFirstShape(q, b, group, k + 1);
      LowFirstUnfold(q, b, group, k + 1);
      DigitFacts(b, r);
      SpacedStep(k, b, group, b.digits[r], LowFirst(q, b, group, k + 1));
      assert q == 0 ==> r == v;
    }
  }

  lemma SpacedNone(k: nat, group: bool, g: nat)
    requires g > 0
    ensures Spaced("", k, group, g)
  {
  }

  lemma {:induction false} ReverseAt(s: string, p: nat)
    requires p < |s|
    ensures Reverse(s)[|s| - 1 - p] == s[p]
  {
    if p > 0 { ReverseAt(s[1..], p - 1); }
  }

  // ----- What a field looks like

  /** How many digits and commas the precision and `#` leave, from m for the value alone. */
  function DigitCount(m: nat, b: Base, c: Conversion): nat {
    var p := if c.precision < 0 then 1 else if c.precision < 63 then c.precision else 63;
    var n := if m < p then p else m;
    if c.pound && b.base == 8 && n == m then n + 1 else n
  }

  /** A string of n digits, zeros but for the last m characters, which are grouped. */
  ghost predicate Grouped(s: string, m: nat, group: bool, g: nat)
    requires g > 0
  {
    && m <= |s|
    && (forall i | 0 <= i < |s| - m :: s[i] == '0')
    && (forall i | |s| - m <= i < |s| ::
          if group && (|s| - 1 - i) % (g + 1) == g then s[i] == ',' else IsDigit(s[i]))
  }

  lemma LowShape(value: nat, b: Base, c: Conversion)
    requires BaseOk(b)
    ensures var m := Spread(|Numeral(value, b)|, c.group, b.group);
      && |Low(value, b, c)| == DigitCount(m, b, c)
      && Grouped(Reverse(Low(value, b, c)), m, c.group, b.group)
  {
    hide LowFirst, Numeral, BaseOk, Low, Spaced, Grouped, Spread;
    BaseFacts(b);
    LowFirstShape(value, b, c.group, 0);
    LowFirstUnfold(value, b, c.group, 0);
    assert Spread(0, c.group, b.group) == 0 by { SpreadNone(c.group, b.group); }
    var s, low := LowFirst(value, b, c.group, 0), Low(value, b, c);
    LowForm(value, b, c);
    ReverseGrouped(s, low, c.group, b.group);
  }

  lemma SpreadNone(group: bool, g: nat)
    requires g > 0
    ensures Spread(0, group, g) == 0
  {
  }

  /** The digits of the value, and zeros as the precision and `#` ask for. */
  lemma LowForm(value: nat, b: Base, c: Conversion)
    requires BaseOk(b)
    requires var s := LowFirst(value, b, c.group, 0); s != "" ==> s[|s| - 1] != '0'
    ensures var s, low := LowFirst(value, b, c.group, 0), Low(value, b, c);
      && |low| == DigitCount(|s|, b, c) && s <= low
      && forall p | |s| <= p < |low| :: low[p] == '0'
  {
    hide LowFirst, BaseOk;
  }

  lemma ReverseGrouped(s: string, low: string, group: bool, g: nat)
    requires g > 0 && Spaced(s, 0, group, g) && s <= low
    requires forall p | |s| <= p < |low| :: low[p] == '0'
    ensures Grouped(Reverse(low), |s|, group, g)
  {
    hide Reverse;
    var r := Reverse(low);
    forall i | 0 <= i < |r|
      ensures r[i] == low[|r| - 1 - i]
    {
      ReverseAt(low, |r| - 1 - i);
    }
    SpreadNone(group, g);
  }

  lemma GroupedZeros(n: nat, s: string, m: nat, group: bool, g: nat)
    requires g > 0 && Grouped(s, m, group, g)
    ensures Grouped(Repeat('0', n) + s, m, group, g)
  {
    var t := Repeat('0', n) + s;
    assert forall i | 0 <= i < |t| :: t[i] == if i < n then '0' else s[i - n];
  }

  /** A field, from left to right: the padding, the sign (a minus exactly for a negative
      number, and otherwise what the flags ask for), the 0x, the digits, which denote the
      value and have a comma after every group from the right, and the padding. */
  lemma FieldIs(value: nat, isSigned: bool, negative: bool, b: Base, c: Conversion)
    returns (left: nat, sign: string, x: string, digits: string, right: nat)
    requires BaseOk(b)
    ensures Field(value, isSigned, negative, b, c) == Repeat(' ', left) + sign + x + digits + Repeat(' ', right)
    ensures sign == if isSigned && negative then "-" else if isSigned && c.plus then "+"
                    else if isSigned && c.space then " " else ""
    ensures x == if c.pound && value != 0 && b.x.Some? then "0" + [b.x.value] else ""
    ensures Eval(Ungrouped(digits), b.base) == value
    ensures var m := Spread(|Numeral(value, b)|, c.group, b.group); var n := DigitCount(m, b, c);
      var pad := Max(c.width - |sign| - |x| - n, 0);
      && Grouped(digits, m, c.group, b.group)
      && |digits| == n + (if c.zero then pad else 0)
      && left == (if c.minus || c.zero then 0 else pad)
      && right == (if c.minus then pad else 0)
  {
    hide Eval, Ungrouped, Reverse, Low, Numeral, Grouped, BaseOk, Field, Repeat, DigitCount, Spread;
    BaseFacts(b);
    LowShape(value, b, c);
    sign, x := Sign(isSigned, negative, c), Prefix(value, b, c);
    var pad := Pad(value, isSigned, negative, b, c);
    var n := if c.zero then pad else 0;
    left, right := if c.minus || c.zero then 0 else pad, if c.minus then pad else 0;
    digits := Repeat('0', n) + Reverse(Low(value, b, c));
    GroupedZeros(n, Reverse(Low(value, b, c)), Spread(|Numeral(value, b)|, c.group, b.group), c.group, b.group);
    PaddedDenote(value, b, c, n);
    FieldParts(value, isSigned, negative, b, c, n);
  }

  lemma PaddedDenote(value: nat, b: Base, c: Conversion, n: nat)
    requires BaseOk(b)
    ensures Eval(Ungrouped(Repeat('0', n) + Reverse(Low(value, b, c))), b.base) == value
  {
    hide Eval, Ungrouped, Reverse, Low, BaseOk, Repeat;
    var low := Reverse(Low(value, b, c));
    DigitsDenote(value, b, c);
    UngroupedConcat(Repeat('0', n), low);
    UngroupedZeros(n);
    EvalZeros(n, Ungrouped(low), b.base);
  }

  lemma FieldParts(value: nat, isSigned: bool, negative: bool, b: Base, c: Conversion, n: nat)
    requires BaseOk(b)
    requires n == if c.zero then Pad(value, isSigned, negative, b, c) else 0
    ensures var pad := Pad(value, isSigned, negative, b, c);
      Field(value, isSigned, negative, b, c) ==
        Repeat(' ', if c.minus || c.zero then 0 else pad) + Sign(isSigned, negative, c) + Prefix(value, b, c) +
        (Repeat('0', n) + Reverse(Low(value, b, c))) + Repeat(' ', if c.minus then pad else 0)
  {
    hide Reverse, Low, Sign, Prefix, Pad, BaseOk;
  }

  // ----- Reading a field back

  function AfterSpaces(s: string): string {
    if s != "" && s[0] == ' ' then AfterSpaces(s[1..]) else s
  }

  function UpToSpace(s: string): string {
    if s == "" || s[0] == ' ' then "" else [s[0]] + UpToSpace(s[1..])
  }

  function AfterSign(s: string): string {
    if s != "" && (s[0] == '-' || s[0] == '+') then s[1..] else s
  }

  function AfterX(s: string): string {
    if |s| >= 2 && s[0] == '0' && (s[1] == 'x' || s[1] == 'X') then s[2..] else s
  }

  /** Reads a number as a person would: over the blanks, a sign, perhaps 0x, and digits up
      to the next blank, where commas do not count. */
  function ReadNumber(s: string, base: nat): int {
    var t := AfterSpaces(s);
    var n := Eval(Ungrouped(UpToSpace(AfterX(AfterSign(t)))), base);
    if t != "" && t[0] == '-' then 0 - n else n
  }

  lemma {:induction false} OverSpaces(n: nat, s: string)
    ensures AfterSpaces(Repeat(' ', n) + s) == AfterSpaces(s)
  {
    if n == 0 {
      assert Repeat(' ', n) + s == s;
    } else {
      OverSpaces(n - 1, s);
      assert (Repeat(' ', n) + s)[1..] == Repeat(' ', n - 1) + s;
    }
  }

  lemma {:induction false} StopsAtSpace(s: string, n: nat)
    requires ' ' !in s
    ensures UpToSpace(s + Repeat(' ', n)) == s
  {
    var t := s + Repeat(' ', n);
    if s != "" {
      StopsAtSpace(s[1..], n);
      assert t[1..] == s[1..] + Repeat(' ', n);
    }
  }

  predicate DigitsOnly(s: string) {
    forall i | 0 <= i < |s| :: s[i] == ',' || IsDigit(s[i])
  }

  lemma OverX(x: string, digits: string, n: nat)
    requires (x == "" || x == "0x" || x == "0X") && DigitsOnly(digits)
    ensures AfterX(x + digits + Repeat(' ', n)) == digits + Repeat(' ', n)
  {
    var s, rest := x + digits + Repeat(' ', n), digits + Repeat(' ', n);
    if x == "" {
      assert s == rest;
    } else {
      assert s[2..] == rest;
    }
  }

  lemma OverSign(sign: string, x: string, digits: string, n: nat)
    requires (sign == "" || sign == "-" || sign == "+") && (x == "" || x == "0x" || x == "0X") && DigitsOnly(digits)
    ensures AfterSign(sign + x + digits + Repeat(' ', n)) == x + digits + Repeat(' ', n)
  {
    var s, rest := sign + x + digits + Repeat(' ', n), x + digits + Repeat(' ', n);
    if sign == "" {
      assert s == rest;
    } else {
      assert s[1..] == rest;
    }
  }

  /** Reading signs, prefixes and digits one after the other. */
  lemma ReadParts(sign: string, x: string, digits: string, n: nat, base: nat)
    requires (sign == "" || sign == "-" || sign == "+") && (x == "" || x == "0x" || x == "0X") && DigitsOnly(digits)
    ensures var v := Eval(Ungrouped(digits), base);
      ReadNumber(sign + x + digits + Repeat(' ', n), base) == if sign == "-" then 0 - v else v
  {
    hide Eval, Ungrouped;
    var t := sign + x + digits + Repeat(' ', n);
    if sign + x + digits == "" {
      OverSpaces(n, "");
      assert t == Repeat(' ', n) + "";
    } else {
      hide UpToSpace, AfterX, AfterSign;
      assert AfterSpaces(t) == t;
      OverSign(sign, x, digits, n);
      OverX(x, digits, n);
      StopsAtSpace(digits, n);
    }
  }

  lemma ReadSkips(k: nat, s: string, base: nat)
    ensures ReadNumber(Repeat(' ', k) + s, base) == ReadNumber(s, base)
  {
    hide Eval, Ungrouped, UpToSpace;
    OverSpaces(k, s);
  }

  lemma GroupedChars(s: string, m: nat, group: bool, g: nat)
    requires g > 0 && Grouped(s, m, group, g)
    ensures DigitsOnly(s)
  {
  }

  /** The number stands in the field: a reader gets it back, with its sign. */
  lemma ReadBack(value: nat, isSigned: bool, negative: bool, b: Base, c: Conversion)
    requires BaseOk(b)
    ensures ReadNumber(Field(value, isSigned, negative, b, c), b.base)
            == if isSigned && negative then 0 - value else value
  {
    hide Eval, Ungrouped, Numeral, Field, BaseOk, DigitCount, Spread, Grouped, ReadNumber, Repeat;
    BaseFacts(b);
    var left, sign, x, digits, right := FieldIs(value, isSigned, negative, b, c);
    GroupedChars(digits, Spread(|Numeral(value, b)|, c.group, b.group), c.group, b.group);
    if b.x.Some? { XIs(b); }
    hide DigitsOnly;
    if sign == " " {
      ReadParts("", x, digits, right, b.base);
      OneMore(left);
      Regroup(left + 1, "", x, digits, Repeat(' ', right));
      assert Repeat(' ', left) + sign == Repeat(' ', left + 1) + "";
      ReadSkips(left + 1, "" + x + digits + Repeat(' ', right), b.base);
    } else {
      ReadParts(sign, x, digits, right, b.base);
      Regroup(left, sign, x, digits, Repeat(' ', right));
      ReadSkips(left, sign + x + digits + Repeat(' ', right), b.base);
    }
  }

  lemma Regroup(left: nat, sign: string, x: string, digits: string, blanks: string)
    ensures Repeat(' ', left) + sign + x + digits + blanks == Repeat(' ', left) + (sign + x + digits + blanks)
  {
    hide Repeat;
  }

  /** A minus is printed exactly for a negative number of a signed conversion, a plus
      exactly when it is asked for and such a number is not negative. */
  lemma SignShown(value: nat, isSigned: bool, negative: bool, b: Base, c: Conversion)
    requires BaseOk(b)
    ensures '-' in Field(value, isSigned, negative, b, c) <==> isSigned && negative
    ensures '+' in Field(value, isSigned, negative, b, c) <==> isSigned && !negative && c.plus
  {
    hide Eval, Ungrouped, Numeral, Field, BaseOk, DigitCount, Spread, Grouped, ReadNumber;
    BaseFacts(b);
    var left, sign, x, digits, right := FieldIs(value, isSigned, negative, b, c);
    GroupedChars(digits, Spread(|Numeral(value, b)|, c.group, b.group), c.group, b.group);
    if b.x.Some? { XIs(b); }
    hide Repeat, DigitsOnly;
    SignIn(left, sign, x, digits, right, '-');
    SignIn(left, sign, x, digits, right, '+');
  }

  lemma SignIn(left: nat, sign: string, x: string, digits: string, right: nat, ch: char)
    requires (x == "" || x == "0x" || x == "0X") && DigitsOnly(digits) && (ch == '-' || ch == '+')
    ensures ch in Repeat(' ', left) + sign + x + digits + Repeat(' ', right) <==> ch in sign
  {
    assert ch !in Repeat(' ', left) && ch !in x && ch !in digits && ch !in Repeat(' ', right);
    hide Repeat, DigitsOnly;
    InConcat(Repeat(' ', left), sign, ch);
    InConcat(Repeat(' ', left) + sign, x, ch);
    InConcat(Repeat(' ', left) + sign + x, digits, ch);
    InConcat(Repeat(' ', left) + sign + x + digits, Repeat(' ', right), ch);
  }

  lemma InConcat(s: string, t: string, ch: char)
    ensures ch in s + t <==> ch in s || ch in t
  {
  }

  lemma XIs(b: Base)
    requires BaseOk(b) && b.x.Some?
    ensures "0" + [b.x.value] == "0x" || "0" + [b.x.value] == "0X"
  {
  }

  lemma OneMore(n: nat)
    ensures Repeat(' ', n + 1) == Repeat(' ', n) + " "
  {
  }
}
