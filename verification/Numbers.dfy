/**
 lib/printfmt.c and lib/string.c: printing a number in a base and a field width, and
 parsing one with exact overflow detection.
 */
module Numbers {
  import Arith

  const U64: nat := 0x1_0000_0000_0000_0000
  const DIGITS: string := "0123456789abcdef"

  // What is printed.

  function Div(n: nat, base: nat): (q: nat)
    requires base >= 2
    ensures n > 0 ==> q < n
  {
    DivSmaller(n, base, n / base, n % base);
    n / base
  }

  lemma DivSmaller(n: int, base: int, q: int, r: int)
    requires n >= 0 && base >= 2 && n == base * q + r && 0 <= r < base
    ensures 0 <= q && (n > 0 ==> q < n)
  {
    assert q < 0 ==> base * q <= -base;
    assert q >= 0 ==> base * q >= 2 * q;
  }

  function Mod(n: nat, base: nat): (r: nat)
    requires base >= 2
    ensures r < base
  {
    n % base
  }

  /** The digits of n, most significant first; none for zero. */
  function DigitsOf(n: nat, base: nat): string
    requires 2 <= base <= 16
  {
    if n == 0 then "" else DigitsOf(Div(n, base), base) + [DIGITS[Mod(n, base)]]
  }

  function Repeat(c: char, k: int): string {
    if k <= 0 then "" else Repeat(c, k - 1) + [c]
  }

  function Digits(n: nat, base: nat): string
    requires 2 <= base <= 16
  {
    if n == 0 then "0" else DigitsOf(n, base)
  }

  /** The number in its field; the padding character '-' means blanks on the right. */
  function Printed(n: nat, base: nat, width: int, padc: char): string
    requires 2 <= base <= 16
  {
    var d := Digits(n, base);
    if padc != '-' then Repeat(padc, width - |d|) + d else d + Repeat(' ', width - |d|)
  }

  function Reverse(s: string): string {
    if s == "" then "" else [s[|s| - 1]] + Reverse(s[..|s| - 1])
  }

  /** What is left of num after k digits. */
  ghost predicate LeftOver(n: nat, k: nat, num: nat) {
    n * Arith.Pow2(k) <= num
  }

  lemma HalfBits(n: nat, k: nat, num: nat, base: nat)
    requires n > 0 && LeftOver(n, k, num) && num < U64 && base >= 2
    ensures k < 64 && LeftOver(Div(n, base), k + 1, num)
  {
    var p := Arith.Pow2(k);
    assert Arith.Pow2(k + 1) == 2 * p;
    hide Arith.Pow2;
    Arith.MulMonotone(1, n, p);
    if k >= 64 {
      Arith.Pow2Monotone(64, k);
      Bits64();
    }
    Halved(n, base, p);
  }

  lemma Halved(n: nat, base: nat, p: nat)
    requires base >= 2
    ensures n / base * (2 * p) <= n * p
  {
    var q := n / base;
    assert n == base * q + n % base;
    Arith.MulMonotone(2, base, q);
    Arith.MulMonotone(2 * q, n, p);
    assert q * (2 * p) == (2 * q) * p;
  }

  lemma Bits64()
    ensures Arith.Pow2(64) == U64
  {
    Arith.Pow2Values();
    assert Arith.Pow2(63) == 2 * Arith.Pow2(62);
  }

  /** The digits, least significant first; they never fill the buffer of 68 characters. */
  method FillBuffer(num: nat, base: nat) returns (buf: string)
    requires num < U64 && 2 <= base <= 16
    ensures Reverse(buf) == Digits(num, base) && |buf| <= 64
  {
    hide LeftOver, DigitsOf, Reverse, Digits, Div, Mod;
    buf := "";
    var n := num;
    AllLeft(num);
    NoDigits(base);
    assert DigitsOf(num, base) + "" == DigitsOf(num, base);
    while n != 0
      invariant 0 <= n && DigitsOf(num, base) == DigitsOf(n, base) + Reverse(buf)
      invariant |buf| <= 64 && LeftOver(n, |buf|, num)
      invariant if buf == "" then n == num else num > 0
    {
      HalfBits(n, |buf|, num, base);
      NextDigit(n, base, buf);
      buf := buf + [DIGITS[Mod(n, base)]];
      n := Div(n, base);
    }
    assert "" + Reverse(buf) == Reverse(buf);
    DigitsCases(num, base);
    if buf == "" {
      buf := "0";
    }
  }

  lemma DigitsCases(num: nat, base: nat)
    requires 2 <= base <= 16
    ensures Digits(num, base) == if num == 0 then "0" else DigitsOf(num, base)
  {
  }

  lemma NoDigits(base: nat)
    requires 2 <= base <= 16
    ensures DigitsOf(0, base) == "" && Reverse("") == "" && Reverse("0") == "0"
  {
  }

  lemma NextDigit(n: nat, base: nat, buf: string)
    requires n > 0 && 2 <= base <= 16
    ensures DigitsOf(n, base) + Reverse(buf) == DigitsOf(Div(n, base), base) + Reverse(buf + [DIGITS[Mod(n, base)]])
  {
    DigitsStep(n, base);
    ReverseMore(buf, DIGITS[Mod(n, base)]);
    hide Div, Mod, DigitsOf, Reverse;
    Regroup(DigitsOf(Div(n, base), base), DIGITS[Mod(n, base)], Reverse(buf));
  }

  lemma DigitsStep(n: nat, base: nat)
    requires n > 0 && 2 <= base <= 16
    ensures DigitsOf(n, base) == DigitsOf(Div(n, base), base) + [DIGITS[Mod(n, base)]]
  {
    hide Div, Mod;
  }

  lemma Regroup(a: string, d: char, r: string)
    ensures a + [d] + r == a + ([d] + r)
  {
  }

  lemma ReverseMore(buf: string, d: char)
    ensures Reverse(buf + [d]) == [d] + Reverse(buf)
  {
    assert (buf + [d])[..|buf|] == buf;
  }

  /** printnum. */
  method PrintNum(num: nat, base: nat, width0: int, padc: char) returns (out: string)
    requires num < U64 && 2 <= base <= 16
    ensures out == Printed(num, base, width0, padc)
  {
    hide DigitsOf, Digits, Reverse;
    var buf := FillBuffer(num, base);
    ReverseLength(buf);
    out := "";
    var width := width0;
    if padc != '-' {
      while width > |buf|
        invariant out == Repeat(padc, width0 - width) && (width == width0 || width >= |buf|)
      {
        out, width := out + [padc], width - 1;
      }
      assert out == Repeat(padc, width0 - |buf|);
    }
    ghost var pad := out;
    out, width := Emit(buf, out, width);
    if padc == '-' {
      assert out == Reverse(buf);
      ghost var k := 0;
      while width > 0
        invariant k >= 0 && out == Reverse(buf) + Repeat(' ', k) && width == width0 - |buf| - k
                  && (k == 0 || width >= 0)
      {
        assert Reverse(buf) + Repeat(' ', k) + [' '] == Reverse(buf) + (Repeat(' ', k) + [' ']);
        out, width, k := out + [' '], width - 1, k + 1;
      }
      assert Repeat(' ', k) == Repeat(' ', width0 - |buf|);
    }
  }

  lemma AllLeft(num: nat)
    ensures LeftOver(num, 0, num)
  {
  }

  /** The digits of the buffer, last first, after what is out already. */
  method Emit(buf: string, before: string, width0: int) returns (out: string, width: int)
    ensures out == before + Reverse(buf) && width == width0 - |buf|
  {
    out, width := before, width0;
    var x := |buf|;
    assert buf[..x] == buf;
    assert out + Reverse(buf[..x]) == before + Reverse(buf);
    while x > 0
      invariant 0 <= x <= |buf| && width == width0 - (|buf| - x)
      invariant out + Reverse(buf[..x]) == before + Reverse(buf)
    {
      assert buf[..x][..x - 1] == buf[..x - 1];
      assert Reverse(buf[..x]) == [buf[x - 1]] + Reverse(buf[..x - 1]);
      assert out + ([buf[x - 1]] + Reverse(buf[..x - 1])) == out + [buf[x - 1]] + Reverse(buf[..x - 1]);
      x := x - 1;
      out, width := out + [buf[x]], width - 1;
    }
    assert out + Reverse(buf[..0]) == out;
  }

  lemma {:induction false} ReverseLength(s: string)
    ensures |Reverse(s)| == |s|
  {
    if s != "" { ReverseLength(s[..|s| - 1]); }
  }

  // What is parsed.

  /** The value of a digit or letter, or -1. */
  function DigitVal(c: char): int {
    if '0' <= c <= '9' then c as int - '0' as int
    else if 'a' <= c <= 'z' then c as int - 'a' as int + 10
    else if 'A' <= c <= 'Z' then c as int - 'A' as int + 10
    else -1
  }

  predicate IsDigit(c: char, base: nat) {
    0 <= DigitVal(c) < base
  }

  function Step(v: nat, base: nat, d: nat): nat {
    v * base + d
  }

  /** The number that a string of digits stands for. */
  function Value(ds: string, base: nat): nat
    requires forall i :: 0 <= i < |ds| ==> IsDigit(ds[i], base)
  {
    if ds == "" then 0
    else
      DigitBounds(ds[|ds| - 1], base);
      Step(Value(ds[..|ds| - 1], base), base, DigitVal(ds[|ds| - 1]))
  }

  /** Character i, with the terminator after the last. */
  function At(s: string, i: nat): char {
    if i < |s| then s[i] else '\0'
  }

  function AfterBlanks(s: string, i: nat): nat
    decreases |s| - i
  {
    if i < |s| && (s[i] == ' ' || s[i] == '\t') then AfterBlanks(s, i + 1) else i
  }

  function AfterSign(s: string): nat {
    var i := AfterBlanks(s, 0);
    if At(s, i) == '+' then i + 1 else i
  }

  /** The base in force, and where the digits start. */
  function Radix(s: string, i: nat, base: int): (int, nat) {
    if (base == 0 || base == 16) && At(s, i) == '0' && (At(s, i + 1) == 'x' || At(s, i + 1) == 'X') then (16, i + 2)
    else if base == 0 && At(s, i) == '0' then (8, i)
    else if base == 0 then (10, i)
    else (base, i)
  }

  /** The end of the longest run of digits from i on. */
  function RunEnd(s: string, i: nat, base: nat): (e: nat)
    requires base >= 2
    ensures i <= e && (i <= |s| ==> e <= |s|)
    ensures forall k :: i <= k < e && k < |s| ==> IsDigit(s[k], base)
    decreases |s| - i
  {
    if i < |s| && IsDigit(s[i], base) then RunEnd(s, i + 1, base) else i
  }

  datatype Result = Ok | Inval | OutOfRange | Wild

  datatype Parsed = Parsed(r: Result, val: nat, end: nat)

  /** What parsing a string gives: the exact value of the run of digits, or its being out of range. */
  function Parse(s: string, base0: int): Parsed {
    var i := AfterSign(s);
    var (base, j) := Radix(s, i, base0);
    if base < 2 || base > 36 then Parsed(Inval, 0, i)
    else if base == 36 then Parsed(Wild, 0, i)
    else
      var e := RunEnd(s, j, base);
      if e == j || j > |s| then Parsed(Inval, 0, 0)
      else
        var v := Value(s[j..e], base);
        if v < U64 then Parsed(Ok, v, e) else Parsed(OutOfRange, U64 - 1, e)
  }

  // The overflow table of the source: the largest value that can take another digit.

  const OVERFLOW: seq<nat> := [
    0, 0, 9223372036854775807, 6148914691236517205, 4611686018427387903, 3689348814741910323,
    3074457345618258602, 2635249153387078802, 2305843009213693951, 2049638230412172401,
    1844674407370955161, 1676976733973595601, 1537228672809129301, 1418980313362273201,
    1317624576693539401, 1229782938247303441, 1152921504606846975, 1085102592571150095,
    1024819115206086200, 970881267037344821, 922337203685477580, 878416384462359600,
    838488366986797800, 802032351030850070, 768614336404564650, 737869762948382064,
    709490156681136600, 683212743470724133, 658812288346769700, 636094623231363848,
    614891469123651720, 595056260442243600, 576460752303423487, 558992244657865200,
    542551296285575047, 527049830677415760]

  /** Every entry of the table is the 64-bit maximum divided by its base. */
  lemma TableExact(base: nat)
    requires 2 <= base <= 35
    ensures |OVERFLOW| == 36 && OVERFLOW[base] == (U64 - 1) / base
  {
  }

  /** The test before each digit is exact. */
  lemma OverflowExact(val: nat, base: nat, dig: nat)
    requires 2 <= base <= 35 && dig < base
    ensures var o := (U64 - 1) / base;
            (val > o || (val == o && dig > U64 - 1 - o * base)) <==> val * base + dig >= U64
  {
    var o := (U64 - 1) / base;
    assert U64 - 1 == base * o + (U64 - 1) % base;
    if val > o {
      assert (o + 1) * base <= val * base;
    } else if val < o {
      assert (val + 1) * base <= o * base;
    }
  }

  lemma TakeOne(s: string, j: nat, k: nat, base: nat)
    requires j <= k < |s| && forall i :: j <= i <= k ==> IsDigit(s[i], base)
    ensures Value(s[j..k + 1], base) == Value(s[j..k], base) * base + DigitVal(s[k])
  {
    assert s[j..k + 1][..k - j] == s[j..k];
  }

  lemma {:induction false} RunEndAt(s: string, i: nat, k: nat, base: nat)
    requires base >= 2 && i <= k <= |s| && (forall m :: i <= m < k ==> IsDigit(s[m], base))
             && (k < |s| ==> !IsDigit(s[k], base))
    ensures RunEnd(s, i, base) == k
    decreases k - i
  {
    if i < k { RunEndAt(s, i + 1, k, base); }
  }

  lemma {:induction false} BlanksAt(s: string, i: nat, k: nat)
    requires i <= k <= |s| && (forall m :: i <= m < k ==> s[m] == ' ' || s[m] == '\t') && At(s, k) != ' '
             && At(s, k) != '\t'
    ensures AfterBlanks(s, i) == k
    decreases k - i
  {
    if i < k { BlanksAt(s, i + 1, k); }
  }

  /** Blanks and a plus sign. */
  method SkipLead(s: string) returns (i: nat)
    ensures i == AfterSign(s) && i <= |s|
  {
    i := 0;
    while At(s, i) == ' ' || At(s, i) == '\t'
      invariant 0 <= i <= |s| && forall m :: 0 <= m < i ==> s[m] == ' ' || s[m] == '\t'
      decreases |s| - i
    {
      i := i + 1;
    }
    BlanksAt(s, 0, i);
    if At(s, i) == '+' {
      i := i + 1;
    }
  }

  /** strtou64, with its single pass and its wrapping accumulator. */
  method StrToU64(s: string, base0: int) returns (p: Parsed)
    ensures p == Parse(s, base0)
  {
    hide AfterSign, At, RunEnd, Value, IsDigit, DigitVal;
    var i := SkipLead(s);
    var base, j := base0, i;
    if (base == 0 || base == 16) && At(s, i) == '0' && (At(s, i + 1) == 'x' || At(s, i + 1) == 'X') {
      TwoChars(s, i);
      j, base := i + 2, 16;
    } else if base == 0 && At(s, i) == '0' {
      base := 8;
    } else if base == 0 {
      base := 10;
    } else if base < 2 || base > 36 {
      return Parsed(Inval, 0, i);
    }
    if base == 36 {
      return Parsed(Wild, 0, i);   // reads past the end of the table
    }
    p := ScanDigits(s, j, base);
  }

  lemma TwoChars(s: string, i: nat)
    requires At(s, i + 1) != '\0'
    ensures i + 2 <= |s|
  {
  }

  /** The digits from j on. */
  method ScanDigits(s: string, j: nat, base: nat) returns (p: Parsed)
    requires 2 <= base <= 35 && j <= |s|
    ensures var e := RunEnd(s, j, base);
            p == if e == j then Parsed(Inval, 0, 0)
                 else var v := Value(s[j..e], base); if v < U64 then Parsed(Ok, v, e)
                     else Parsed(OutOfRange, U64 - 1, e)
  {
    hide Value, IsDigit, DigitVal;
    TableExact(base);
    NoValue(s, j, base);
    var overflowVal := OVERFLOW[base];
    var overflowDigit := U64 - 1 - overflowVal * base;
    var result, val, k := Inval, 0, j;
    while IsDigit(At(s, k), base)
      invariant j <= k <= |s| && 0 <= val < U64 && forall m :: j <= m < k ==> IsDigit(s[m], base)
      invariant result == if k == j then Inval else if Value(s[j..k], base) < U64 then Ok else OutOfRange
      invariant Value(s[j..k], base) < U64 ==> val == Value(s[j..k], base)
      decreases |s| - k
    {
      NulIsNoDigit(s, k, base);
      var dig := DigitVal(s[k]);
      DigitBounds(s[k], base);
      if result == Inval {
        result := Ok;
      }
      if val > overflowVal || (val == overflowVal && dig > overflowDigit) {
        result := OutOfRange;
      }
      OverflowExact(val, base, dig);
      TakeOne(s, j, k, base);
      Grows(Value(s[j..k], base), base, dig);
      val, k := (val * base + dig) % U64, k + 1;
    }
    NulIsNoDigit(s, k, base);
    RunEndAt(s, j, k, base);
    if result == Inval {
      return Parsed(Inval, 0, 0);
    } else if result == OutOfRange {
      return Parsed(OutOfRange, U64 - 1, k);
    } else {
      return Parsed(Ok, val, k);
    }
  }

  lemma NoValue(s: string, j: nat, base: nat)
    requires j <= |s|
    ensures Value(s[j..j], base) == 0
  {
  }

  lemma NulIsNoDigit(s: string, k: nat, base: nat)
    ensures IsDigit(At(s, k), base) ==> k < |s| && At(s, k) == s[k]
  {
  }

  lemma DigitBounds(c: char, base: nat)
    requires IsDigit(c, base)
    ensures 0 <= DigitVal(c) < base
  {
  }

  lemma Grows(v: nat, base: nat, dig: nat)
    requires base >= 2
    ensures v * base + dig >= v
  {
  }

  // Parsing what was printed.

  ghost predicate AllDigits(ds: string, base: nat) {
    forall i :: 0 <= i < |ds| ==> IsDigit(ds[i], base)
  }

  ghost predicate Blanks(s: string) {
    forall i :: 0 <= i < |s| ==> s[i] == ' '
  }

  /** Blanks, digits, and anything that starts with a blank: the digits are what is parsed. */
  lemma ParseRun(lead: string, run: string, tail: string, base: nat)
    requires 2 <= base <= 35 && Blanks(lead) && Blanks(tail) && run != "" && AllDigits(run, base)
    ensures var v, e := Value(run, base), |lead| + |run|;
            Parse(lead + run + tail, base) == if v < U64 then Parsed(Ok, v, e) else Parsed(OutOfRange, U64 - 1, e)
  {
    hide Value, IsDigit;
    var s, i, e := lead + run + tail, |lead|, |lead| + |run|;
    assert s[i] == run[0] && s[i..e] == run;
    DigitIs(run[0], base);
    BlanksAt(s, 0, i);
    SecondChar(s, run, tail, i, base);
    forall m | i <= m < e ensures IsDigit(s[m], base) { assert s[m] == run[m - i]; }
    BlankIs(base);
    assert e < |s| ==> s[e] == tail[0];
    RunEndAt(s, i, e, base);
  }

  lemma DigitIs(c: char, base: nat)
    requires IsDigit(c, base)
    ensures c != ' ' && c != '\t' && c != '+' && c != '\0'
    ensures base <= 33 ==> c != 'x' && c != 'X'
  {
  }

  lemma BlankIs(base: nat)
    ensures !IsDigit(' ', base)
  {
  }

  lemma SecondChar(s: string, run: string, tail: string, i: nat, base: nat)
    requires i + |run| + |tail| == |s| && s[i..] == run + tail && AllDigits(run, base) && Blanks(tail) && run != ""
    ensures base == 16 ==> At(s, i + 1) != 'x' && At(s, i + 1) != 'X'
  {
    if i + 1 < |s| {
      assert s[i + 1] == s[i..][1];
      if |run| > 1 {
        assert IsDigit(run[1], base);
        DigitIs(run[1], base);
      } else {
        assert s[i + 1] == tail[0];
      }
    }
  }

  /** A string of digits of any length gives its exact value, or is out of range exactly when that is. */
  lemma DigitString(ds: string, base: nat)
    requires 2 <= base <= 35 && ds != "" && AllDigits(ds, base)
    ensures Parse(ds, base) == if Value(ds, base) < U64 then Parsed(Ok, Value(ds, base), |ds|)
            else Parsed(OutOfRange, U64 - 1, |ds|)
  {
    ParseRun("", ds, "", base);
    assert "" + ds + "" == ds;
  }

  lemma PrintedDigit(d: nat, base: nat)
    requires d < base <= 16
    ensures IsDigit(DIGITS[d], base) && DigitVal(DIGITS[d]) == d
  {
  }

  /** The digits of a number stand for it. */
  lemma {:induction false} DigitsValue(n: nat, base: nat)
    requires 2 <= base <= 16
    ensures AllDigits(DigitsOf(n, base), base) && Value(DigitsOf(n, base), base) == n
            && (n > 0 ==> DigitsOf(n, base) != "")
    decreases n
  {
    hide IsDigit, DigitVal, Div, Mod;
    if n > 0 {
      var q, r := Div(n, base), Mod(n, base);
      DivMod(n, base);
      DigitsValue(q, base);
      PrintedDigit(r, base);
      var ds := DigitsOf(n, base);
      assert ds[..|ds| - 1] == DigitsOf(q, base) && ds[|ds| - 1] == DIGITS[r];
    }
  }

  lemma DivMod(n: nat, base: nat)
    requires base >= 2
    ensures n == Div(n, base) * base + Mod(n, base)
  {
  }

  lemma {:induction false} ZerosValue(k: int, d: string, base: nat)
    requires base >= 2 && AllDigits(d, base)
    ensures AllDigits(Repeat('0', k) + d, base) && Value(Repeat('0', k) + d, base) == Value(d, base)
    decreases |d|
  {
    if d != "" {
      var m := |d| - 1;
      ZerosValue(k, d[..m], base);
      var s := Repeat('0', k) + d;
      assert s[..|s| - 1] == Repeat('0', k) + d[..m] && s[|s| - 1] == d[m];
    } else {
      OnlyZeros(k, base);
      assert Repeat('0', k) + d == Repeat('0', k);
    }
  }

  lemma {:induction false} OnlyZeros(k: int, base: nat)
    requires base >= 2
    ensures AllDigits(Repeat('0', k), base) && Value(Repeat('0', k), base) == 0
  {
    if k > 0 {
      OnlyZeros(k - 1, base);
      var s := Repeat('0', k);
      assert s[..|s| - 1] == Repeat('0', k - 1) && s[|s| - 1] == '0';
    }
  }

  lemma {:induction false} BlanksRepeat(k: int)
    ensures Blanks(Repeat(' ', k))
  {
    if k > 0 { BlanksRepeat(k - 1); }
  }

  /** Whatever the base, the width and the padding, parsing reads back what was printed. */
  lemma RoundTrip(n: nat, base: nat, width: int, padc: char)
    requires n < U64 && 2 <= base <= 16 && (padc == ' ' || padc == '0' || padc == '-')
    ensures var p := Parse(Printed(n, base, width, padc), base); p.r == Ok && p.val == n
  {
    var d := Digits(n, base);
    DigitsAre(n, base);
    hide Value, IsDigit, Parse, Digits, DigitsOf, AllDigits, Blanks;
    var k := width - |d|;
    BlanksRepeat(k);
    BlanksRepeat(0);
    if padc == '-' {
      ParseRun("", d, Repeat(' ', k), base);
      assert "" + d + Repeat(' ', k) == d + Repeat(' ', k);
    } else if padc == ' ' {
      ParseRun(Repeat(' ', k), d, "", base);
      assert Repeat(' ', k) + d + "" == Repeat(' ', k) + d;
    } else {
      ZerosValue(k, d, base);
      ParseRun("", Repeat('0', k) + d, "", base);
      assert "" + (Repeat('0', k) + d) + "" == Repeat('0', k) + d;
    }
  }

  lemma DigitsAre(n: nat, base: nat)
    requires 2 <= base <= 16
    ensures var d := Digits(n, base); d != "" && AllDigits(d, base) && Value(d, base) == n
  {
    DigitsValue(n, base);
    if n == 0 {
      PrintedDigit(0, base);
      assert "0"[..0] == "";
    }
  }
}
