/** kernel/src/lib/stdlib.c: numbers to text and back. */
module Numbers {
  import opened Words

  const NUL: char := '\0'
  const ALPHADIGIT: string := "0123456789ABCDEF"

  lemma DivSmaller(v: nat, base: nat)
    requires base >= 2 && v >= base
    ensures 0 < v / base < v && v == base * (v / base) + v % base && v % base < base
  {
    var q, r := v / base, v % base;
    assert v == base * q + r;
    assert base * q == 2 * q + (base - 2) * q;
    assert q == 0 ==> base * q == 0;
  }

  /** The digits of v, least significant first, as the do/while loops produce them. */
  function Digits(v: nat, base: nat): (ds: seq<nat>)
    requires base >= 2
    ensures |ds| > 0 && forall i :: 0 <= i < |ds| ==> ds[i] < base
  {
    if v < base then [v]
    else
      DivSmaller(v, base);
      [v % base] + Digits(v / base, base)
  }

  function Value(ds: seq<nat>, base: nat): nat {
    if ds == [] then 0 else ds[0] + base * Value(ds[1..], base)
  }

  function Power(b: nat, k: nat): nat {
    if k == 0 then 1 else b * Power(b, k - 1)
  }

  /** The digits evaluate back to the number, and the leading one is not zero unless it is the only one. */
  lemma {:induction false} DigitsValue(v: nat, base: nat)
    requires base >= 2
    ensures Value(Digits(v, base), base) == v
    ensures var ds := Digits(v, base); v == 0 || ds[|ds| - 1] != 0
  {
    if v >= base {
      DivSmaller(v, base);
      DigitsValue(v / base, base);
      assert Digits(v, base)[1..] == Digits(v / base, base);
    } else {
      assert Digits(v, base)[1..] == [];
    }
  }

  /** k digits are enough exactly below base^k. */
  lemma {:induction false} DigitCount(v: nat, base: nat, k: nat)
    requires base >= 2 && k > 0
    ensures |Digits(v, base)| <= k <==> v < Power(base, k)
    decreases k
  {
    if k == 1 {
      assert Power(base, 1) == base;
    } else if v < base {
      PowerAtLeast(base, k);
    } else {
      DivSmaller(v, base);
      DigitCount(v / base, base, k - 1);
      DivBelow(v, base, Power(base, k - 1));
    }
  }

  lemma {:induction false} PowerAtLeast(base: nat, k: nat)
    requires base >= 2 && k > 0
    ensures Power(base, k) >= base
  {
    if k > 1 {
      PowerAtLeast(base, k - 1);
      assert base * Power(base, k - 1) >= base * 1;
    }
  }

  lemma DivBelow(v: nat, base: nat, p: nat)
    requires base > 0
    ensures v / base < p <==> v < base * p
  {
    var q := v / base;
    assert v == q * base + v % base;
    if q < p { MulGap(q, p, base); }
    if p < q { MulGap(p, q, base); }
  }

  lemma ProductMonotone(a: nat, b: nat, x: nat, y: nat)
    requires a <= b && x <= y
    ensures a * x <= b * y
  {
    assert b * y == a * x + a * (y - x) + (b - a) * y;
  }

  lemma {:induction false} PowerMonotone(b: nat, c: nat, k: nat)
    requires b <= c
    ensures Power(b, k) <= Power(c, k)
  {
    if k > 0 {
      PowerMonotone(b, c, k - 1);
      ProductMonotone(b, c, Power(b, k - 1), Power(c, k - 1));
    }
  }

  lemma Regroup(b: nat, x: nat, y: nat)
    ensures b * (x * y) == (b * x) * y
  {
  }

  lemma {:induction false} PowerSplit(b: nat, j: nat, k: nat)
    ensures Power(b, j + k) == Power(b, j) * Power(b, k)
  {
    if j > 0 {
      PowerSplit(b, j - 1, k);
      var x, y, z := Power(b, j - 1), Power(b, k), Power(b, j + k - 1);
      assert z == x * y;
      Regroup(b, x, y);
    }
  }

  lemma KnownPowers()
    ensures Power(8, 11) == 0x2_0000_0000 && Power(7, 11) == 1977326743 && Power(10, 10) == 10000000000
  {
    assert Power(8, 3) == 512; PowerSplit(8, 3, 3); PowerSplit(8, 6, 3); assert Power(8, 2) == 64; PowerSplit(8, 9, 2);
    assert Power(7, 3) == 343; PowerSplit(7, 3, 3); PowerSplit(7, 6, 3); assert Power(7, 2) == 49; PowerSplit(7, 9, 2);
    assert Power(10, 3) == 1000; PowerSplit(10, 3, 3); PowerSplit(10, 6, 3);
    assert Power(10, 1) == 10; PowerSplit(10, 9, 1);
  }

  /** The 12-byte scratch buffer of utoa, terminator included, holds every 32-bit value exactly in
      the bases from 8 up. */
  lemma ScratchFitsExactlyWhen(base: nat)
    requires base >= 2
    ensures (forall v: Word :: |Digits(v, base)| + 1 <= 12) <==> base >= 8
  {
    KnownPowers();
    if base >= 8 {
      PowerMonotone(8, base, 11);
      forall v: Word ensures |Digits(v, base)| + 1 <= 12 {
        DigitCount(v, base, 11);
      }
    } else {
      PowerMonotone(base, 7, 11);
      DigitCount(0xFFFF_FFFF, base, 11);
      var v: Word := 0xFFFF_FFFF;
      assert |Digits(v, base)| + 1 > 12;
    }
  }

  // ----- text -----

  /** The text of a sequence of digits, last digit first. */
  function Text(ds: seq<nat>): (s: string)
    requires forall i :: 0 <= i < |ds| ==> ds[i] < 16
    ensures |s| == |ds|
  {
    seq(|ds|, i requires 0 <= i < |ds| => ALPHADIGIT[ds[|ds| - 1 - i]])
  }

  function Numeral(v: nat, base: nat): (s: string)
    requires 2 <= base <= 16
    ensures |s| == |Digits(v, base)|
  {
    Text(Digits(v, base))
  }

  /** The number a character stands for as a digit. */
  function DigitOf(c: char): nat {
    if '0' <= c <= '9' then c as int - '0' as int
    else if 'A' <= c <= 'F' then c as int - 'A' as int + 10
    else 0
  }

  /** The number a text denotes, most significant digit first. */
  function Denotes(s: string, base: nat): nat {
    if s == "" then 0 else Denotes(s[..|s| - 1], base) * base + DigitOf(s[|s| - 1])
  }

  /** A numeral of two or more digits is the numeral of the quotient and a last digit. */
  lemma NumeralStep(v: nat, base: nat)
    requires 2 <= base <= 16 && v >= base
    ensures Numeral(v, base) == Numeral(v / base, base) + [ALPHADIGIT[v % base]]
  {
    DivSmaller(v, base);
    assert Digits(v, base) == [v % base] + Digits(v / base, base);
  }

  lemma DenotesStep(s: string, c: char, base: nat)
    ensures Denotes(s + [c], base) == Denotes(s, base) * base + DigitOf(c)
  {
    assert (s + [c])[..|s|] == s;
  }

  lemma DigitOfDigit(d: nat)
    requires d < 16
    ensures DigitOf(ALPHADIGIT[d]) == d
  {
  }

  /** A numeral denotes its number, in every base. */
  lemma {:induction false} NumeralDenotes(v: nat, base: nat)
    requires 2 <= base <= 16
    ensures Denotes(Numeral(v, base), base) == v
  {
    if v < base {
      DigitOfDigit(v);
      DenotesStep("", ALPHADIGIT[v], base);
      assert Numeral(v, base) == "" + [ALPHADIGIT[v]];
    } else {
      DivSmaller(v, base);
      var q, r := v / base, v % base;
      assert q * base + r == v;
      DigitOfDigit(r);
      NumeralStep(v, base);
      NumeralDenotes(q, base);
      DenotesStep(Numeral(q, base), ALPHADIGIT[r], base);
    }
  }

  lemma DigitChar(d: nat, base: nat)
    requires d < base <= 16
    ensures ALPHADIGIT[d] in "0123456789ABCDEF"[..base] && (ALPHADIGIT[d] == '0' ==> d == 0)
  {
    assert "0123456789ABCDEF"[..base][d] == ALPHADIGIT[d];
  }

  /** A numeral is made of the digits of its base, without a leading zero. */
  lemma NumeralShape(v: nat, base: nat)
    requires 2 <= base <= 16
    ensures forall i :: 0 <= i < |Numeral(v, base)| ==> Numeral(v, base)[i] in "0123456789ABCDEF"[..base]
    ensures Numeral(v, base)[0] == '0' ==> Numeral(v, base) == "0"
  {
    var ds := Digits(v, base);
    forall i | 0 <= i < |ds| ensures Numeral(v, base)[i] in "0123456789ABCDEF"[..base] {
      DigitChar(ds[|ds| - 1 - i], base);
    }
    DigitsValue(v, base);
    if Numeral(v, base)[0] == '0' {
      DigitChar(ds[|ds| - 1], base);
      assert ds == [0];
    }
  }

  /** What itoa writes: the sign comes last. */
  function ItoaText(v: int, base: nat): string
    requires 2 <= base <= 16
  {
    if v < 0 then Numeral(-v, base) + "-" else Numeral(v, base)
  }

  /** The conventional text. */
  function SignedText(v: int, base: nat): string
    requires 2 <= base <= 16
  {
    if v < 0 then "-" + Numeral(-v, base) else Numeral(v, base)
  }

  lemma NumeralHas(v: nat, base: nat, i: nat)
    requires 2 <= base <= 16 && i < |Numeral(v, base)|
    ensures Numeral(v, base)[i] != '-' && Numeral(v, base)[i] != NUL
  {
    var d := Digits(v, base)[|Digits(v, base)| - 1 - i];
    assert ALPHADIGIT[d] != '-' && ALPHADIGIT[d] != NUL;
  }

  lemma NumeralChars(v: nat, i: nat)
    requires i < |Numeral(v, 10)|
    ensures '0' <= Numeral(v, 10)[i] <= '9'
    ensures Numeral(v, 10)[i] as int == Digits(v, 10)[|Digits(v, 10)| - 1 - i] + '0' as int
  {
    var d := Digits(v, 10)[|Digits(v, 10)| - 1 - i];
    assert ALPHADIGIT[d] as int == d + '0' as int;
  }

  /** What itoa prints: the numeral of the magnitude, and behind a negative number its sign. */
  lemma ItoaInNumbers(v: int, base: nat)
    requires 2 <= base <= 16
    ensures var t := ItoaText(v, base); var n := if v < 0 then |t| - 1 else |t|;
            && n > 0 && t[n..] == (if v < 0 then "-" else "") && Denotes(t[..n], base) == (if v < 0 then -v else v)
            && (forall i :: 0 <= i < n ==> t[i] in "0123456789ABCDEF"[..base]) && (t[0] == '0' ==> n == 1)
  {
    var m := Numeral(Magnitude(v), base);
    NumeralDenotes(Magnitude(v), base);
    NumeralShape(Magnitude(v), base);
    assert ItoaText(v, base)[..|m|] == m;
  }

  lemma SignLast(t: string)
    requires t != "" && t[0] != '-'
    ensures t + "-" != "-" + t
  {
    assert (t + "-")[0] != ("-" + t)[0];
  }

  /** itoa prints a number conventionally exactly when it is not negative. */
  lemma ItoaRightExactlyWhen(v: int, base: nat)
    requires 2 <= base <= 16
    ensures ItoaText(v, base) == SignedText(v, base) <==> v >= 0
  {
    if v < 0 {
      NumeralHas(-v, base, 0);
      SignLast(Numeral(-v, base));
    }
  }

  /** strcpy_r: copy src[0..size] backwards and terminate. */
  method ReverseCopy(src: array<char>, dst: array<char>, size: nat)
    requires src != dst && size < src.Length && size + 1 < dst.Length
    modifies dst
    ensures forall k :: 0 <= k <= size ==> dst[k] == src[size - k]
    ensures dst[size + 1] == '\0'
    ensures forall k :: size + 1 < k < dst.Length ==> dst[k] == old(dst[k])
  {
    var k := 0;
    while k <= size
      invariant 0 <= k <= size + 1
      invariant forall j :: 0 <= j < k ==> dst[j] == src[size - j]
      invariant forall j :: k <= j < dst.Length ==> dst[j] == old(dst[j])
    {
      dst[k] := src[size - k];
      k := k + 1;
    }
    dst[k] := NUL;
  }

  /** One turn of the digit loop: r = value % base; value /= base. */
  method SplitDigit(value: nat, base: nat) returns (r: nat, q: nat)
    requires 2 <= base <= 16
    ensures r == Digits(value, base)[0] < 16
    ensures if q > 0 then q < value && Digits(q, base) == Digits(value, base)[1..] else |Digits(value, base)| == 1
  {
    DigitsShape(value, base);
    r, q := value % base, value / base;
  }

  predicate IsReverse(a: seq<char>, b: seq<char>) {
    |a| == |b| && forall k :: 0 <= k < |a| ==> a[k] == b[|b| - 1 - k]
  }

  /** The last lines of utoa and itoa: terminate the buffer and copy it backwards. */
  method Finish(buf: array<char>, i: nat, str: array<char>)
    requires buf != str && 0 < i < buf.Length && i < str.Length
    modifies buf, str
    ensures IsReverse(str[..i], old(buf[..i])) && str[i] == '\0'
  {
    buf[i] := NUL;
    ReverseCopy(buf, str, i - 1);
  }

  /** The buffer holds the digits, least significant first, from index `start` to its end. */
  predicate HoldsDigits(b: seq<char>, ds: seq<nat>, start: nat) {
    |b| == start + |ds| && forall k :: 0 <= k < |ds| ==> ds[k] < 16 && b[start + k] == ALPHADIGIT[ds[k]]
  }

  /** buf[i] = alphadigit[r] */
  method PutDigit(buf: array<char>, i: nat, r: nat, ghost ds: seq<nat>, ghost start: nat)
    requires start <= i < buf.Length && i - start < |ds| && r == ds[i - start] < 16
    requires HoldsDigits(buf[..i], ds[..i - start], start)
    modifies buf
    ensures HoldsDigits(buf[..i + 1], ds[..i + 1 - start], start)
    ensures buf[..start] == old(buf[..start])
  {
    ghost var before := buf[..i];
    buf[i] := ALPHADIGIT[r];
    assert buf[..i + 1] == before + [ALPHADIGIT[r]];
    assert ds[..i + 1 - start] == ds[..i - start] + [r];
    assert before[..start] == buf[..start];
  }

  /** The do/while loop shared by utoa and itoa: digits into buf from index `start` on. */
  method PutDigits(value: nat, base: nat, buf: array<char>, start: nat) returns (i: nat)
    requires 2 <= base <= 16 && start + |Digits(value, base)| < buf.Length
    modifies buf
    ensures i == start + |Digits(value, base)|
    ensures HoldsDigits(buf[..i], Digits(value, base), start)
    ensures buf[..start] == old(buf[..start])
  {
    ghost var ds := Digits(value, base);
    var v: nat, more := value, true;
    i := start;
    while more
      invariant start <= i <= start + |ds|
      invariant if more then i < start + |ds| && Digits(v, base) == ds[i - start..] else i == start + |ds|
      invariant HoldsDigits(buf[..i], ds[..i - start], start)
      invariant buf[..start] == old(buf[..start])
      decreases more, v
    {
      var r, q := SplitDigit(v, base);
      PutDigit(buf, i, r, ds, start);
      i := i + 1;
      v := q;
      more := v > 0;
    }
    assert ds[..i - start] == ds;
  }

  /** Read backwards, the digits in the buffer are the text. */
  lemma BufferedText(b: seq<char>, ds: seq<nat>, start: nat)
    requires HoldsDigits(b, ds, start)
    ensures forall k :: 0 <= k < |ds| ==> b[|b| - 1 - k] == Text(ds)[k]
  {
    forall k | 0 <= k < |ds| ensures b[|b| - 1 - k] == Text(ds)[k] {
      assert b[start + (|ds| - 1 - k)] == ALPHADIGIT[ds[|ds| - 1 - k]];
    }
  }

  lemma DigitsShape(v: nat, base: nat)
    requires base >= 2
    ensures Digits(v, base)[0] == v % base
    ensures if v / base > 0 then Digits(v, base)[1..] == Digits(v / base, base) else Digits(v, base) == [v % base]
    ensures v > 0 ==> v / base < v
  {
    if v < base {
      DivUnique(v, base, 0, v);
    } else {
      DivSmaller(v, base);
    }
  }

  /** utoa */
  method Utoa(value: Word, str: array<char>, base: nat)
    requires 8 <= base <= 16 && |Numeral(value, base)| < str.Length
    modifies str
    ensures str[..|Numeral(value, base)|] == Numeral(value, base) && str[|Numeral(value, base)|] == '\0'
  {
    AtMostElevenDigits(value, base);
    var buf := new char[12];
    var i := PutDigits(value, base, buf, 0);
    BufferedText(buf[..i], Digits(value, base), 0);
    Finish(buf, i, str);
    assert str[..i] == Numeral(value, base);
  }

  function Magnitude(v: int): nat {
    if v < 0 then -v else v
  }

  /** The digits of a 32-bit number in base 8 or above. */
  lemma AtMostElevenDigits(v: nat, base: nat)
    requires v < WORD_LIMIT && base >= 8
    ensures |Digits(v, base)| <= 11
  {
    ScratchFitsExactlyWhen(base);
    var w: Word := v;
    assert |Digits(w, base)| + 1 <= 12;
  }

  /** The first half of itoa: sign and digits into the buffer. */
  method FillItoa(value: int, base: nat, buf: array<char>) returns (i: nat)
    requires -0x8000_0000 < value < 0x8000_0000 && 8 <= base <= 16 && buf.Length == 13
    modifies buf
    ensures i < 13 && HoldsDigits(buf[..i], Digits(Magnitude(value), base), if value < 0 then 1 else 0)
    ensures value < 0 ==> buf[0] == '-'
  {
    var v := value;
    i := 0;
    AtMostElevenDigits(Magnitude(value), base);
    if v < 0 {
      buf[i] := '-';
      i := i + 1;
      v := -v;
      i := PutDigits(v, base, buf, 1);
      assert buf[..1][0] == '-';
    } else {
      i := PutDigits(v, base, buf, 0);
    }
  }

  /** itoa; the least int has no negation, and below base 8 its buffer is too small. */
  method Itoa(value: int, str: array<char>, base: nat)
    requires -0x8000_0000 < value < 0x8000_0000 && 8 <= base <= 16 && |ItoaText(value, base)| < str.Length
    modifies str
    ensures str[..|ItoaText(value, base)|] == ItoaText(value, base) && str[|ItoaText(value, base)|] == '\0'
  {
    var buf := new char[13];
    var i := FillItoa(value, base, buf);
    ItoaAssembled(value, base, buf[..i]);
    Finish(buf, i, str);
  }

  /** The buffer of itoa, reversed: the digits and then the sign. */
  lemma ItoaAssembled(value: int, base: nat, b: seq<char>)
    requires 2 <= base <= 16 && HoldsDigits(b, Digits(Magnitude(value), base), if value < 0 then 1 else 0)
    requires value < 0 ==> b[0] == '-'
    ensures |b| == |ItoaText(value, base)| && forall out :: IsReverse(out, b) ==> out == ItoaText(value, base)
  {
    var ds := Digits(Magnitude(value), base);
    BufferedText(b, ds, if value < 0 then 1 else 0);
    forall out | IsReverse(out, b) ensures out == ItoaText(value, base) {
      assert out[..|ds|] == Text(ds);
      assert value < 0 ==> out[|ds|] == '-';
    }
  }

  lemma AtMostTenDigits(v: nat)
    requires v < WORD_LIMIT
    ensures |Digits(v, 10)| <= 10
  {
    KnownPowers();
    DigitCount(v, 10, 10);
  }

  // ----- atoi -----

  predicate IsDigit(c: char) {
    '0' <= c <= '9'
  }

  /** A 32-bit int, two's complement. */
  function ToInt32(x: int): (r: int)
    ensures -0x8000_0000 <= r < 0x8000_0000 && (x - r) % 0x1_0000_0000 == 0
  {
    (x + 0x8000_0000) % 0x1_0000_0000 - 0x8000_0000
  }

  /** The number the leading digits of a text denote, continuing from acc. */
  function Leading(s: string, acc: nat): nat {
    if s == [] || !IsDigit(s[0]) then acc else Leading(s[1..], 10 * acc + (s[0] as int - '0' as int))
  }

  lemma ToInt32Offset(x: int) returns (k: int)
    ensures ToInt32(x) == x - 0x1_0000_0000 * k
  {
    k := (x + 0x8000_0000) / 0x1_0000_0000;
  }

  lemma ToInt32Periodic(x: int, k: int)
    ensures ToInt32(x - 0x1_0000_0000 * k) == ToInt32(x)
  {
  }

  /** The C expression res * 10 + c - '0', wrapping at every step, wraps once. */
  lemma WrapStep(a: int, c: int)
    ensures ToInt32(ToInt32(ToInt32(ToInt32(a) * 10) + c) - 48) == ToInt32(10 * a + (c - 48))
  {
    var k1 := ToInt32Offset(a);
    var k2 := ToInt32Offset(ToInt32(a) * 10);
    var k3 := ToInt32Offset(ToInt32(ToInt32(a) * 10) + c);
    ToInt32Periodic(10 * a + (c - 48), 10 * k1 + k2 + k3);
  }

  /** atoi: the 32-bit value of the leading digits of a terminated text. */
  method Atoi(str: array<char>) returns (res: int)
    requires exists i :: 0 <= i < str.Length && !IsDigit(str[i])
    ensures res == ToInt32(Leading(str[..], 0))
  {
    res := 0;
    var i := 0;
    ghost var acc: nat := 0;
    while IsDigit(str[i])
      invariant 0 <= i < str.Length && forall k :: 0 <= k < i ==> IsDigit(str[k])
      invariant res == ToInt32(acc) && Leading(str[..], 0) == Leading(str[i..], acc)
      decreases str.Length - i
    {
      WrapStep(acc, str[i] as int);
      res := ToInt32(ToInt32(ToInt32(res * 10) + str[i] as int) - '0' as int);
      assert str[i..][1..] == str[i + 1..];
      acc := 10 * acc + (str[i] as int - '0' as int);
      i := i + 1;
    }
  }

  lemma {:induction false} LeadingAppend(s: string, c: char, rest: string, acc: nat)
    requires (forall i :: 0 <= i < |s| ==> IsDigit(s[i])) && IsDigit(c) && (rest == [] || !IsDigit(rest[0]))
    ensures Leading(s + [c] + rest, acc) == 10 * Leading(s, acc) + (c as int - '0' as int)
  {
    if s == [] {
      assert ([] + [c] + rest)[1..] == rest;
      assert Leading([c] + rest, acc) == Leading(rest, 10 * acc + (c as int - '0' as int));
      assert s + [c] + rest == [c] + rest;
    } else {
      assert (s + [c] + rest)[1..] == s[1..] + [c] + rest;
      LeadingAppend(s[1..], c, rest, 10 * acc + (s[0] as int - '0' as int));
    }
  }

  /** atoi stops at the first character other than '0' to '9': the digits before it, whatever follows it,
      denote the number. */
  lemma {:induction false} LeadingInNumbers(t: string, c: char, rest: string)
    requires (forall i :: 0 <= i < |t| ==> '0' <= t[i] <= '9') && !('0' <= c <= '9')
    ensures Leading(t + [c] + rest, 0) == Denotes(t, 10)
  {
    LeadingIsPrefix(t, [c] + rest, 0);
    assert t + [c] + rest == t + ([c] + rest);
    LeadingOfDigits(t);
  }

  lemma {:induction false} LeadingIsPrefix(t: string, rest: string, acc: nat)
    requires (forall i :: 0 <= i < |t| ==> '0' <= t[i] <= '9') && (rest == [] || !('0' <= rest[0] <= '9'))
    ensures Leading(t + rest, acc) == Leading(t, acc)
  {
    if t == [] {
      assert t + rest == rest;
    } else {
      assert (t + rest)[1..] == t[1..] + rest;
      LeadingIsPrefix(t[1..], rest, 10 * acc + (t[0] as int - '0' as int));
    }
  }

  lemma {:induction false} LeadingOfDigits(t: string)
    requires forall i :: 0 <= i < |t| ==> '0' <= t[i] <= '9'
    ensures Leading(t, 0) == Denotes(t, 10)
    decreases |t|
  {
    if t != [] {
      var n := |t| - 1;
      assert t == t[..n] + [t[n]] + [];
      LeadingAppend(t[..n], t[n], [], 0);
      LeadingOfDigits(t[..n]);
    }
  }

  lemma NumeralIsDigits(v: nat)
    ensures forall i :: 0 <= i < |Numeral(v, 10)| ==> IsDigit(Numeral(v, 10)[i])
  {
    forall i | 0 <= i < |Numeral(v, 10)| ensures IsDigit(Numeral(v, 10)[i]) { NumeralChars(v, i); }
  }

  lemma DigitValue(d: nat)
    requires d < 10
    ensures IsDigit(ALPHADIGIT[d]) && ALPHADIGIT[d] as int - '0' as int == d
  {
  }

  /** Reading back a printed number. */
  lemma {:induction false} LeadingOfNumeral(v: nat, rest: string)
    requires rest == [] || !IsDigit(rest[0])
    ensures Leading(Numeral(v, 10) + rest, 0) == v
    decreases v
  {
    DigitValue(v % 10);
    if v < 10 {
      LeadingAppend([], ALPHADIGIT[v], rest, 0);
      assert Numeral(v, 10) + rest == [] + [ALPHADIGIT[v]] + rest;
    } else {
      var t := Numeral(v / 10, 10);
      NumeralStep(v, 10);
      NumeralIsDigits(v / 10);
      LeadingAppend(t, ALPHADIGIT[v % 10], rest, 0);
      LeadingOfNumeral(v / 10, []);
      assert t + [] == t;
    }
  }

  lemma LeadingOfText(s: string, v: nat)
    requires |Numeral(v, 10)| < |s| && s[..|Numeral(v, 10)|] == Numeral(v, 10) && s[|Numeral(v, 10)|] == NUL
    ensures Leading(s, 0) == v && !IsDigit(s[|Numeral(v, 10)|])
  {
    var n := |Numeral(v, 10)|;
    assert s == Numeral(v, 10) + s[n..];
    LeadingOfNumeral(v, s[n..]);
  }

  /** Print then parse: atoi returns what utoa printed, exactly for the values an int can hold. */
  method PrintParse(v: Word, str: array<char>) returns (r: int)
    requires str.Length >= 12
    modifies str
    ensures r == ToInt32(v) && (r == v <==> v < 0x8000_0000)
  {
    AtMostTenDigits(v);
    Utoa(v, str, 10);
    assert str[..][..|Numeral(v, 10)|] == str[..|Numeral(v, 10)|];
    LeadingOfText(str[..], v);
    r := Atoi(str);
  }
}
