/** File names and octal fields of ustar archives. */
module UstarFields {
  import opened Options
  import opened Bits
  import opened IntegerFields
  import opened Stdio

  /** The characters of a C string: bytes, none of them the terminator. */
  predicate CString(s: string) {
    forall i | 0 <= i < |s| :: 0 < s[i] as int < 256
  }

  /** What a C string function reads from a buffer: everything before the first null. */
  function CStr(s: string): string {
    if s == "" || s[0] == '\0' then "" else [s[0]] + CStr(s[1..])
  }

  lemma {:induction false} CStrOf(s: string, rest: string)
    requires CString(s)
    ensures CStr(s + ['\0'] + rest) == s
  {
    var t := s + ['\0'] + rest;
    if s != "" {
      CStrOf(s[1..], rest);
      assert t[1..] == s[1..] + ['\0'] + rest;
    }
  }

  // ----- Names

  /** Does the name start with "/", "./" or "../"? */
  predicate Antisocial(s: string) {
    || (|s| >= 1 && s[0] == '/')
    || (|s| >= 2 && s[0] == '.' && s[1] == '/')
    || (|s| >= 3 && s[0] == '.' && s[1] == '.' && s[2] == '/')
  }

  /** The rest of the name after its first slash. */
  function AfterSlash(s: string): (r: string)
    requires '/' in s
    ensures |r| < |s| && IsSuffix(r, s)
  {
    if s[0] == '/' then s[1..]
    else
      SuffixTransitive(AfterSlash(s[1..]), s[1..], s);
      AfterSlash(s[1..])
  }

  predicate IsSuffix(t: string, s: string) {
    |t| <= |s| && s[|s| - |t|..] == t
  }

  lemma SuffixTransitive(u: string, t: string, s: string)
    requires IsSuffix(u, t) && IsSuffix(t, s)
    ensures IsSuffix(u, s)
  {
    var d := |s| - |t|;
    assert forall i | 0 <= i < |t| :: s[d + i] == t[i];
    assert s[|s| - |u|..] == t[|t| - |u|..];
  }

  function Dropped(s: string): string {
    if Antisocial(s) then Dropped(AfterSlash(s)) else s
  }

  /** The name without its prefixes. */
  function Stripped(s: string): string {
    var t := Dropped(s);
    if t == "" || t == ".." then "." else t
  }

  /** A name that stays inside the directory it is extracted to, as far as its start goes. */
  predicate Clean(s: string) {
    !Antisocial(s) && s != "" && s != ".."
  }

  lemma {:induction false} DroppedIs(s: string)
    ensures IsSuffix(Dropped(s), s) && !Antisocial(Dropped(s))
    decreases |s|
  {
    hide IsSuffix;
    SuffixOfSelf(s);
    if Antisocial(s) {
      var t := AfterSlash(s);
      DroppedIs(t);
      SuffixTransitive(Dropped(t), t, s);
    }
  }

  lemma SuffixOfSelf(s: string)
    ensures IsSuffix(s, s)
  {
  }

  lemma SuffixCString(t: string, s: string)
    requires IsSuffix(t, s) && CString(s)
    ensures CString(t)
  {
    assert forall i | 0 <= i < |t| :: s[|s| - |t| + i] == t[i];
  }

  /** Stripping gives a clean name: a suffix of the name or the current directory. */
  lemma StrippedClean(s: string)
    ensures Clean(Stripped(s))
    ensures Stripped(s) == "." || IsSuffix(Stripped(s), s)
    ensures CString(s) ==> CString(Stripped(s))
  {
    hide IsSuffix, Dropped, CString;
    DroppedIs(s);
    if CString(s) { SuffixCString(Dropped(s), s); }
    DotIsCString();
  }

  lemma DotIsCString()
    ensures CString(".")
  {
  }

  /** Exactly the clean names are left alone, so stripping twice is stripping once. */
  lemma StrippedIdempotent(s: string)
    ensures Stripped(s) == s <==> Clean(s)
    ensures Stripped(Stripped(s)) == Stripped(s)
  {
    StrippedClean(s);
  }

  /** Each of the three prefixes is dropped and nothing else is: together with the clean
      names, which stay, this determines the stripped name of every name. */
  lemma StrippedPrefix(s: string)
    ensures Stripped("/" + s) == Stripped(s)
    ensures Stripped("./" + s) == Stripped(s)
    ensures Stripped("../" + s) == Stripped(s)
    ensures Stripped("") == "." && Stripped("..") == "."
  {
    var a, b, c := "/" + s, "./" + s, "../" + s;
    assert a[1..] == s;
    assert b[1..] == a;
    assert c[1..] == b;
    assert AfterSlash(a) == s && AfterSlash(b) == s && AfterSlash(c) == s;
  }

  method StripAntisocialPrefixes(name: string) returns (r: string)
    ensures r == Stripped(name)
  {
    r := name;
    while Antisocial(r)
      invariant Dropped(r) == Dropped(name)
      decreases |r|
    {
      r := AfterSlash(r);
    }
    if r == "" || r == ".." {
      r := ".";
    }
  }

  // ----- Octal fields

  predicate IsOctal(ch: char) { '0' <= ch <= '7' }

  predicate AllOctal(s: string) {
    forall i | 0 <= i < |s| :: IsOctal(s[i])
  }

  /** "%0<w>o" */
  function OctalConversion(w: nat): Conversion {
    Conversion(false, false, false, false, true, false, w, -1)
  }

  function OctalField(v: nat, w: nat): string {
    BasesOk();
    Field(v, false, false, BASE_O, OctalConversion(w))
  }

  lemma {:induction false} NumeralOctal(v: nat, d: nat)
    requires v < Pow2(3 * d)
    ensures BaseOk(BASE_O) && |Numeral(v, BASE_O)| <= d && AllOctal(Numeral(v, BASE_O))
  {
    BasesOk();
    if v > 0 {
      PowStep(v, 8, d);
      NumeralOctal(v / 8, d - 1);
      OctalDigits(v % 8);
      hide BaseOk, Pow2;
    }
  }

  lemma OctalDigits(k: nat)
    requires k < 8
    ensures |BASE_O.digits| == 8 && IsOctal(BASE_O.digits[k])
  {
  }

  /** A number below 8^w is printed with exactly w octal digits that denote it. */
  lemma OctalFieldIs(v: nat, w: nat)
    requires 0 < w && v < Pow2(3 * w)
    ensures |OctalField(v, w)| == w && AllOctal(OctalField(v, w)) && Eval(OctalField(v, w), 8) == v
  {
    NumeralOctal(v, w);
    hide BaseOk, Pow2, Numeral, Eval, OctalField;
    var n := Numeral(v, BASE_O);
    OctalFieldParts(v, w);
    EvalZeros(w - |n|, n, 8);
    EvalNumeral(v, BASE_O);
  }

  lemma OctalFieldParts(v: nat, w: nat)
    requires 0 < w && BaseOk(BASE_O) && |Numeral(v, BASE_O)| <= w
    ensures OctalField(v, w) == Repeat('0', w - |Numeral(v, BASE_O)|) + Numeral(v, BASE_O)
  {
    hide BaseOk, Numeral, Low, Reverse;
    var c, n := OctalConversion(w), Numeral(v, BASE_O);
    OctalLow(v, w);
    var low := Low(v, BASE_O, c);
    var z := |low| - |n|;
    assert OctalField(v, w) == Repeat('0', w - |low|) + Reverse(low);
    RepeatTwice(w - |low|, z);
    assert w - |low| + z == w - |n|;
  }

  lemma RepeatTwice(m: nat, n: nat)
    ensures Repeat('0', m) + Repeat('0', n) == Repeat('0', m + n)
  {
  }

  /** The precision adds a zero to the empty numeral of zero. */
  lemma OctalLow(v: nat, w: nat)
    requires 0 < w && BaseOk(BASE_O) && |Numeral(v, BASE_O)| <= w
    ensures var low, n := Low(v, BASE_O, OctalConversion(w)), Numeral(v, BASE_O);
      |n| <= |low| <= w && Reverse(low) == Repeat('0', |low| - |n|) + n
  {
    hide BaseOk, Numeral, LowFirst, Reverse, Ungrouped;
    var s := LowFirst(v, BASE_O, false, 0);
    LowFirstIsNumeral(v, BASE_O, false, 0);
    var zeros := if |s| < 1 then 1 else 0;
    ReverseConcat(s, Repeat('0', zeros));
    ReverseZeros(zeros);
    assert Low(v, BASE_O, OctalConversion(w)) == s + Repeat('0', zeros);
  }

  /** How many octal digits the field starts with. */
  function OctalPrefix(s: string): (k: nat)
    ensures OctalTo(s, k) && (k < |s| ==> !IsOctal(s[k]))
  {
    if s == "" || !IsOctal(s[0]) then 0 else OctalPrefix(s[1..]) + 1
  }

  predicate OctalTo(s: string, k: nat) {
    k <= |s| && forall i | 0 <= i < k :: IsOctal(s[i])
  }

  /** The value of an octal field: digits, at least one, that end in a space or a null
      and whose value fits in 32 bits. */
  function ParseOctal(s: string): Option<nat> {
    var k := OctalPrefix(s);
    if 0 < k < |s| && (s[k] == ' ' || s[k] == '\0') && Eval(s[..k], 8) < 0x1_0000_0000 then Some(Eval(s[..k], 8))
    else None
  }

  lemma OctalPrefixIs(s: string, k: nat)
    requires OctalTo(s, k) && (k < |s| ==> !IsOctal(s[k]))
    ensures OctalPrefix(s) == k
  {
    hide IsOctal;
    var j := OctalPrefix(s);
  }

  /** A field is accepted exactly when it starts with octal digits, at least one, that end
      in a space or a null and denote a 32-bit number; that number is its value. */
  lemma ParseOctalIff(s: string, v: nat)
    ensures ParseOctal(s) == Some(v) <==>
      && v <= 0xffff_ffff
      && exists k :: 0 < k < |s| && OctalTo(s, k) && (s[k] == ' ' || s[k] == '\0') && Eval(s[..k], 8) == v
  {
    hide Eval;
    forall k | 0 < k < |s| && OctalTo(s, k) && (s[k] == ' ' || s[k] == '\0')
      ensures OctalPrefix(s) == k
    {
      OctalPrefixIs(s, k);
    }
  }

  /** Printing and parsing an octal field are inverse. */
  lemma OctalRoundTrip(v: nat, w: nat)
    requires 0 < w && v < Pow2(3 * w) && v < 0x1_0000_0000
    ensures ParseOctal(OctalField(v, w) + ['\0']) == Some(v)
  {
    OctalFieldIs(v, w);
    hide OctalField, Pow2;
    var f := OctalField(v, w);
    var s := f + ['\0'];
    assert s[..w] == f;
    OctalPrefixIs(s, w);
  }

  lemma EvalStep(s: string, i: nat)
    requires i < |s|
    ensures Eval(s[..i + 1], 8) == 8 * Eval(s[..i], 8) + DigitValue(s[i])
  {
    assert s[..i + 1][..i] == s[..i];
  }

  lemma {:induction false} EvalMonotone(s: string, i: nat, k: nat)
    requires i <= k <= |s|
    ensures Eval(s[..i], 8) <= Eval(s[..k], 8)
    decreases k - i
  {
    if i < k {
      EvalMonotone(s, i, k - 1);
      EvalStep(s, k - 1);
    }
  }

  /** parse_octal_field, with the 32-bit overflow test before every digit. */
  method ParseOctalField(s: string) returns (value: Option<nat>)
    ensures value == ParseOctal(s)
  {
    hide Eval;
    var v: nat := 0;
    var ofs: nat := 0;
    EvalEmpty(s);
    while ofs < |s|
      invariant OctalTo(s, ofs) && v == Eval(s[..ofs], 8) < 0x1_0000_0000
    {
      var c := s[ofs];
      if '0' <= c <= '7' {
        EvalStep(s, ofs);
        if v > 0xffff_ffff / 8 {
          TooLarge(s, ofs + 1);
          return None;
        }
        v := (c - '0') as int + v * 8;
      } else {
        OctalPrefixIs(s, ofs);
        if c == ' ' || c == '\0' {
          return if ofs > 0 then Some(v) else None;
        }
        return None;
      }
      ofs := ofs + 1;
    }
    OctalPrefixIs(s, ofs);
    value := None;
  }

  lemma EvalEmpty(s: string)
    ensures Eval(s[..0], 8) == 0
  {
  }

  lemma TooLarge(s: string, i: nat)
    requires OctalTo(s, i) && Eval(s[..i], 8) >= 0x1_0000_0000
    ensures ParseOctal(s) == None
  {
    hide Eval;
    var k := OctalPrefix(s);
    EvalMonotone(s, i, k);
  }
}
