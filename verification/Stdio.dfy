/** printf's integer conversions. */
module Stdio {
  import opened Bits
  import opened IntegerFields

  /** format_integer.  The digits go through a 64-byte buffer, which they never overflow,
      and the output reads as the number that was to be printed. */
  method FormatInteger(value: nat, isSigned: bool, negative: bool, b: Base, c: Conversion) returns (out: string)
    requires value < UINTMAX && BaseOk(b)
    ensures out == Field(value, isSigned, negative, b, c)
    ensures ReadNumber(out, b.base) == if isSigned && negative then 0 - value else value
  {
    hide ReadNumber, Low, LowFirst, Sign, Prefix, Repeat, Reverse, BaseOk;
    var sign := Sign(isSigned, negative, c);
    var x := Prefix(value, b, c);
    var buf := new char[BUF_SIZE];
    var cp := Accumulate(buf, value, b, c);
    var padCnt: int := c.width - cp - |x| - |sign|;
    if padCnt < 0 {
      padCnt := 0;
    }
    out := "";
    if !c.minus && !c.zero {
      out := OutputDup(out, ' ', padCnt);
    }
    assert out == Padding(' ', !c.minus && !c.zero, padCnt);
    out := out + sign + x;
    ghost var front := out;
    if c.zero {
      out := OutputDup(out, '0', padCnt);
    }
    assert out == front + Padding('0', c.zero, padCnt);
    out := OutputReversed(out, buf, cp);
    ghost var most := out;
    if c.minus {
      out := OutputDup(out, ' ', padCnt);
    }
    assert out == most + Padding(' ', c.minus, padCnt);
    ReadBack(value, isSigned, negative, b, c);
  }

  /** Fill the buffer from the low digit up. */
  method Accumulate(buf: array<char>, value: nat, b: Base, c: Conversion) returns (cp: nat)
    requires value < UINTMAX && BaseOk(b) && buf.Length == BUF_SIZE
    modifies buf
    ensures cp <= BUF_SIZE && buf[..cp] == Low(value, b, c)
  {
    hide LowFirst, BaseOk, Repeat;
    cp := Digits(buf, value, b, c.group);
    cp := Zeros(buf, cp, c);
    assert cp > 0 ==> buf[..cp][cp - 1] == buf[cp - 1];
    if c.pound && b.base == 8 && (cp == 0 || buf[cp - 1] != '0') {
      Store(buf, cp, '0');
      cp := cp + 1;
    }
  }

  /** The zeros that the precision asks for. */
  method Zeros(buf: array<char>, n: nat, c: Conversion) returns (cp: nat)
    requires n < BUF_SIZE == buf.Length
    modifies buf
    ensures cp < BUF_SIZE && buf[..cp] == old(buf[..n]) + Repeat('0', Max(Precision(c) - n, 0))
  {
    var precision := if c.precision < 0 then 1 else c.precision;
    cp := n;
    while cp < precision && cp < BUF_SIZE - 1
      invariant n <= cp < BUF_SIZE && cp <= Max(n, Precision(c))
      invariant buf[..cp] == old(buf[..n]) + Repeat('0', cp - n)
    {
      Store(buf, cp, '0');
      cp := cp + 1;
    }
  }

  /** The digits of the value and the commas between groups of them. */
  method Digits(buf: array<char>, value: nat, b: Base, group: bool) returns (cp: nat)
    requires value < UINTMAX && BaseOk(b) && buf.Length == BUF_SIZE
    modifies buf
    ensures cp < BUF_SIZE && buf[..cp] == LowFirst(value, b, group, 0)
  {
    hide LowFirst, Pow2, BaseOk, Comma;
    UintmaxBits();
    BaseFacts(b);
    LowFirstLength(value, b, group, 0, 22);
    ghost var all := LowFirst(value, b, group, 0);
    var v: nat, digitCnt: nat := value, 0;
    cp := 0;
    while v > 0
      invariant cp <= |all| <= 44 && buf[..cp] + LowFirst(v, b, group, digitCnt) == all
    {
      ghost var _, _ := DigitStep(buf[..cp], v, b, group, digitCnt);
      cp := Digit(buf, cp, v, b, group, digitCnt);
      v := v / b.base;
      digitCnt := digitCnt + 1;
    }
    LowFirstUnfold(0, b, group, digitCnt);
    assert buf[..cp] == all;
  }

  /** One turn of the loop: a comma when it is due, then the low digit of v. */
  method Digit(buf: array<char>, at: nat, v: nat, b: Base, group: bool, digitCnt: nat) returns (cp: nat)
    requires BaseOk(b) && at + 2 <= buf.Length
    modifies buf
    ensures v % b.base < |b.digits| && cp <= at + 2
    ensures buf[..cp] == old(buf[..at]) + Comma(b, group, digitCnt) + [b.digits[v % b.base]]
  {
    hide BaseOk;
    BaseFacts(b);
    cp := at;
    if group && digitCnt > 0 && digitCnt % b.group == 0 {
      Store(buf, cp, ',');
      cp := cp + 1;
    }
    Store(buf, cp, b.digits[v % b.base]);
    cp := cp + 1;
  }

  /** *cp = ch */
  method Store(buf: array<char>, cp: nat, ch: char)
    requires cp < buf.Length
    modifies buf
    ensures buf[..cp + 1] == old(buf[..cp]) + [ch]
  {
    buf[cp] := ch;
  }

  lemma DigitStep(done: string, v: nat, b: Base, group: bool, k: nat) returns (q: nat, r: nat)
    requires BaseOk(b) && v > 0
    ensures q == v / b.base && r == v % b.base && q < v && r < |b.digits|
    ensures var next := done + Comma(b, group, k) + [b.digits[r]];
      && next + LowFirst(q, b, group, k + 1) == done + LowFirst(v, b, group, k)
      && |next| <= |done + LowFirst(v, b, group, k)|
  {
    hide LowFirst, DigitValue;
    q, r := v / b.base, v % b.base;
    LowFirstUnfold(v, b, group, k);
  }

  method OutputDup(out: string, ch: char, cnt: nat) returns (r: string)
    ensures r == out + Repeat(ch, cnt)
  {
    r := out;
    var left: nat := cnt;
    assert out + Repeat(ch, 0) == out;
    while left > 0
      invariant left <= cnt && r == out + Repeat(ch, cnt - left)
    {
      assert Repeat(ch, cnt - left + 1) == Repeat(ch, cnt - left) + [ch];
      left := left - 1;
      r := r + [ch];
    }
  }

  method OutputReversed(out: string, buf: array<char>, n: nat) returns (r: string)
    requires n <= buf.Length
    ensures r == out + Reverse(buf[..n])
  {
    r := out;
    var cp: nat := n;
    while cp > 0
      invariant cp <= n && r + Reverse(buf[..cp]) == out + Reverse(buf[..n])
    {
      cp := cp - 1;
      ReverseConcat(buf[..cp], [buf[cp]]);
      ReverseOne(buf[cp]);
      assert buf[..cp + 1] == buf[..cp] + [buf[cp]];
      r := r + [buf[cp]];
    }
  }

  lemma ReverseOne(ch: char)
    ensures Reverse([ch]) == [ch]
  {
    assert [ch][1..] == "";
  }
}
