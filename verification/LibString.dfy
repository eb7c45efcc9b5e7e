/** lib/string.c: character classes, NUL-terminated text, and numbers in decimal. */
module LibString {
  import opened Basics

  predicate IsSpace(ch: char) {
    ch == ' ' || ch == '\t' || ch == '\n' || ch == '\r'
  }

  predicate IsPrint(ch: char) {
    32 <= ch as int <= 126
  }

  predicate IsDigit(ch: char) {
    '0' <= ch <= '9'
  }

  function DigitValue(ch: char): int
    requires IsDigit(ch)
  {
    ch as int - '0' as int
  }

  /** The NUL-terminated text held by a buffer. */
  function CString(b: seq<char>): string {
    if b == [] || b[0] == '\0' then "" else [b[0]] + CString(b[1..])
  }

  lemma {:induction false} CStringIs(b: seq<char>, n: nat)
    requires n < |b| && b[n] == '\0'
    requires forall i :: 0 <= i < n ==> b[i] != '\0'
    ensures CString(b) == b[..n]
  {
    if n > 0 {
      CStringIs(b[1..], n - 1);
      assert b[..n] == [b[0]] + b[1..][..n - 1];
    }
  }

  /** Ends a text in a buffer with its NUL. */
  method Close(output: array<char>, out: nat, ghost text: string)
    requires out < output.Length && output[..out] == text && '\0' !in text
    modifies output
    ensures CString(output[..]) == text
  {
    output[out] := '\0';
    assert output[..out] == text;
    assert forall k :: 0 <= k < out ==> output[k] == text[k];
    CStringIs(output[..], out);
  }

  // ---------- Decimal numbers ----------

  predicate AllDigits(s: string) {
    s != "" && forall i :: 0 <= i < |s| ==> IsDigit(s[i])
  }

  /** The value of the digits at the front of a text, on top of acc. */
  function Decimal(digits: string, acc: int): int {
    if digits == "" || !IsDigit(digits[0]) then acc else Decimal(digits[1..], acc * 10 + DigitValue(digits[0]))
  }

  lemma {:induction false} DecimalGrows(digits: string, acc: int)
    requires acc >= 0
    ensures Decimal(digits, acc) >= acc
  {
    if digits != "" && IsDigit(digits[0]) {
      DecimalGrows(digits[1..], acc * 10 + DigitValue(digits[0]));
    }
  }

  /** Decimal notation. */
  function Dec(n: nat): (s: string)
    ensures AllDigits(s)
  {
    if n < 10 then [('0' as int + n) as char] else Dec(n / 10) + [('0' as int + n % 10) as char]
  }

  lemma {:induction false} DecimalConcat(a: string, b: string, acc: int)
    requires forall i :: 0 <= i < |a| ==> IsDigit(a[i])
    ensures Decimal(a + b, acc) == Decimal(b, Decimal(a, acc))
  {
    if a == "" {
      assert a + b == b;
    } else {
      assert (a + b)[1..] == a[1..] + b;
      DecimalConcat(a[1..], b, acc * 10 + DigitValue(a[0]));
    }
  }

  /** Reading decimal notation gives back the number. */
  lemma {:induction false} DecimalOfDec(n: nat)
    ensures Decimal(Dec(n), 0) == n
  {
    var last := [('0' as int + n % 10) as char];
    assert last[1..] == "";
    if n >= 10 {
      DecimalOfDec(n / 10);
      DecimalConcat(Dec(n / 10), last, 0);
    }
  }

  /** The number a row of digits stands for: each digit counts ten times what its right neighbour
      does. */
  function Numeral(s: string): int {
    if s == "" then 0 else Numeral(s[..|s| - 1]) * 10 + (s[|s| - 1] as int - 48)
  }

  predicate ZeroToNine(s: string) {
    s != "" && forall i :: 0 <= i < |s| ==> 48 <= s[i] as int <= 57
  }

  /** Reading digits from the left, as the parsers do, gives that number. */
  lemma {:induction false} DecimalIsNumeral(s: string)
    requires s == "" || ZeroToNine(s)
    ensures Decimal(s, 0) == Numeral(s)
  {
    if s != "" {
      var init, last := s[..|s| - 1], s[|s| - 1..];
      DecimalIsNumeral(init);
      assert s == init + last && last[1..] == "";
      DecimalConcat(init, last, 0);
    }
  }

  /** Decimal notation has the digits 0 to 9, stands for the number, and does not begin with an idle
      zero. */
  lemma {:induction false} NumeralOfDec(n: nat)
    ensures ZeroToNine(Dec(n)) && Numeral(Dec(n)) == n
    ensures Dec(n)[0] == '0' ==> n == 0 && Dec(n) == "0"
  {
    DecimalOfDec(n);
    DecimalIsNumeral(Dec(n));
    DecHead(n);
  }

  lemma {:induction false} DecHead(n: nat)
    ensures Dec(n)[0] == '0' ==> n == 0 && Dec(n) == "0"
  {
    if n >= 10 {
      DecHead(n / 10);
    }
  }

  function Pow10(k: nat): nat {
    if k == 0 then 1 else 10 * Pow10(k - 1)
  }

  lemma {:induction false} DecLength(n: nat, k: nat)
    requires k > 0 && n < Pow10(k)
    ensures |Dec(n)| <= k
  {
    if n >= 10 {
      DecLength(n / 10, k - 1);
    }
  }

  /** A 32-bit number has at most ten digits. */
  lemma {:induction false} TenDigits(n: nat)
    requires n < 0x1_0000_0000
    ensures |Dec(n)| <= 10
  {
    assert Pow10(5) == 100000;
    assert Pow10(10) == 10000000000;
    DecLength(n, 10);
  }

  /** s backwards. */
  function Reversed(s: string): string {
    if s == "" then "" else Reversed(s[1..]) + [s[0]]
  }

  lemma {:induction false} ReversedAt(s: string, k: nat)
    requires k < |s|
    ensures |Reversed(s)| == |s| && Reversed(s)[k] == s[|s| - 1 - k]
  {
    if |s| > 1 {
      ReversedAt(s[1..], if k < |s| - 1 then k else 0);
    } else {
      assert s[1..] == "";
    }
  }

  lemma {:induction false} ReversedSnoc(s: string, ch: char)
    ensures Reversed(s + [ch]) == [ch] + Reversed(s)
  {
    if s == "" {
      assert ("" + [ch])[1..] == "";
    } else {
      assert (s + [ch])[1..] == s[1..] + [ch];
      ReversedSnoc(s[1..], ch);
    }
  }

  /** The first loop of u32_to_dec: the digits, last one first. */
  method DigitsBackwards(value: nat, temp: array<char>) returns (len: nat)
    requires 0 < value < 0x1_0000_0000 && temp.Length == 16
    modifies temp
    ensures len <= 10 && |Dec(value)| == len && Reversed(temp[..len]) == Dec(value)
  {
    TenDigits(value);
    var v: nat := value;
    len := 0;
    while v > 0
      invariant len <= 10 && |Reversed(temp[..len])| == len
      invariant Dec(value) == (if v == 0 then "" else Dec(v)) + Reversed(temp[..len])
      decreases v
    {
      ghost var done := temp[..len];
      temp[len] := ('0' as int + v % 10) as char;
      assert temp[..len + 1] == done + [temp[len]];
      ReversedSnoc(done, temp[len]);
      len := len + 1;
      v := v / 10;
    }
  }

  /** u32_to_dec: at most ten digits and the NUL are written. */
  method U32ToDec(value: nat, buffer: array<char>)
    requires value < 0x1_0000_0000 && buffer.Length > 10
    modifies buffer
    ensures |Dec(value)| <= 10 && CString(buffer[..]) == Dec(value)
    ensures forall k :: |Dec(value)| < k < buffer.Length ==> buffer[k] == old(buffer[k])
  {
    if value == 0 {
      buffer[0] := '0';
      buffer[1] := '\0';
      CStringIs(buffer[..], 1);
      return;
    }
    var temp := new char[16];
    var len := DigitsBackwards(value, temp);
    hide Dec, Reversed;
    ghost var backwards := temp[..len];
    var i := 0;
    while i < len
      invariant i <= len && temp[..len] == backwards
      invariant forall k :: 0 <= k < i ==> buffer[k] == backwards[len - 1 - k]
      invariant forall k :: i <= k < buffer.Length ==> buffer[k] == old(buffer[k])
    {
      assert temp[..len][len - 1 - i] == temp[len - 1 - i];
      buffer[i] := temp[len - 1 - i];
      i := i + 1;
    }
    forall k | 0 <= k < len
      ensures buffer[k] == Dec(value)[k]
    {
      ReversedAt(backwards, k);
    }
    buffer[len] := '\0';
    assert buffer[..len] == Dec(value);
    CStringIs(buffer[..], len);
  }

  function SkipSpaces(s: string): (r: string)
    ensures |r| <= |s|
    ensures r == "" || !IsSpace(r[0])
  {
    if s != "" && IsSpace(s[0]) then SkipSpaces(s[1..]) else s
  }

  predicate Spaces(s: string) {
    forall i :: 0 <= i < |s| ==> IsSpace(s[i])
  }

  lemma {:induction false} SkipsSpaces(ws: string, s: string)
    requires Spaces(ws)
    ensures SkipSpaces(ws + s) == SkipSpaces(s)
  {
    if ws == "" {
      assert ws + s == s;
    } else {
      assert (ws + s)[1..] == ws[1..] + s;
      SkipsSpaces(ws[1..], s);
    }
  }

  /** The number atoi reads: after spaces and at most one minus sign, the digits in front. */
  function AtoiValue(s: string): int {
    var t := SkipSpaces(s);
    if t != "" && t[0] == '-' then -Decimal(t[1..], 0) else Decimal(t, 0)
  }

  /** The digits atoi reads. */
  function AtoiDigits(s: string): string {
    var t := SkipSpaces(s);
    if t != "" && t[0] == '-' then t[1..] else t
  }

  /** atoi, on texts whose digits stay within int. */
  method Atoi(s: string) returns (r: int)
    requires '\0' !in s && Fits32(Decimal(AtoiDigits(s), 0))
    ensures r == AtoiValue(s) && Fits32(r)
  {
    var i, sign, value := 0, 1, 0;
    while i < |s| && IsSpace(s[i])
      invariant i <= |s| && SkipSpaces(s[i..]) == SkipSpaces(s)
    {
      assert s[i..][1..] == s[i + 1..];
      i := i + 1;
    }
    if i < |s| && s[i] == '-' {
      sign := -1;
      assert s[i..][1..] == s[i + 1..];
      i := i + 1;
    }
    ghost var digits := s[i..];
    while i < |s| && '0' <= s[i] <= '9'
      invariant i <= |s| && value >= 0 && Decimal(s[i..], value) == Decimal(digits, 0)
    {
      assert s[i..][1..] == s[i + 1..];
      value := value * 10 + DigitValue(s[i]);
      DecimalGrows(s[i + 1..], value);
      assert Fits32(value);
      i := i + 1;
    }
    r := sign * value;
  }

  lemma {:induction false} DecimalStops(digits: string, rest: string, acc: int)
    requires rest == "" || !IsDigit(rest[0])
    requires forall i :: 0 <= i < |digits| ==> IsDigit(digits[i])
    ensures Decimal(digits + rest, acc) == Decimal(digits, acc)
  {
    DecimalConcat(digits, rest, acc);
    assert digits + "" == digits;
    DecimalConcat(digits, "", acc);
  }

  /** atoi inverts decimal notation: with any of the four space characters in front, with a minus sign,
      and with any text behind that does not begin with a digit. */
  lemma {:induction false} AtoiOfDec(ws: string, n: nat, rest: string)
    requires forall i :: 0 <= i < |ws| ==> ws[i] in " \t\n\r"
    requires rest == "" || !('0' <= rest[0] <= '9')
    ensures AtoiValue(ws + (Dec(n) + rest)) == n && Decimal(AtoiDigits(ws + (Dec(n) + rest)), 0) == n
    ensures AtoiValue(ws + ("-" + (Dec(n) + rest))) == 0 - n
    ensures Decimal(AtoiDigits(ws + ("-" + (Dec(n) + rest))), 0) == n
  {
    assert IsDigit(Dec(n)[0]);
    DecimalOfDec(n);
    DecimalStops(Dec(n), rest, 0);
    SkipsSpaces(ws, Dec(n) + rest);
    SkipsSpaces(ws, "-" + (Dec(n) + rest));
    assert ("-" + (Dec(n) + rest))[1..] == Dec(n) + rest;
  }

  /** Text that begins neither with a digit nor with a minus sign before one reads as zero. */
  lemma {:induction false} AtoiOfOther(s: string)
    requires s == "" || s[0] !in "-0123456789 \t\n\r"
    ensures AtoiValue(s) == 0
  {
    assert '0' in "0123456789";
  }
}
