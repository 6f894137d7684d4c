/** Printing and parsing of numbers: `kernel/src/libk/strutil.c`. */
module StrUtil {
  import opened Bits

  // The char of C: signed, eight bits.
  type Char = c: int | -128 <= c < 128

  const NUL: Char := 0

  // ----- what the functions compute

  // "0123456789ABCDEF"[d]
  function DigitChar(d: nat): Char
    requires d < 16
  {
    if d < 10 then '0' as int + d else 'A' as int + (d - 10)
  }

  // The number of digits, at least one.
  function DigitCount(i: nat, base: nat): (n: nat)
    requires base >= 2
    ensures n >= 1
    decreases i
  {
    if i < base then 1
    else
      Shrinks(i, base);
      1 + DigitCount(i / base, base)
  }

  // The last n digits of i, most significant first.
  function Digits(i: nat, base: nat, n: nat): (s: seq<Char>)
    requires 2 <= base <= 16
    ensures |s| == n
  {
    if n == 0 then []
    else
      Shrinks(i, base);
      Digits(i / base, base, n - 1) + [DigitChar(i % base)]
  }

  function Longer(n: nat, m: nat): nat {
    if n < m then m else n
  }

  function Prefix(base: nat): seq<Char> {
    if base == 16 then ['0' as int, 'x' as int] else []
  }

  // What utos writes before the terminator.
  function Text(i: nat, base: nat, minLen: nat): seq<Char>
    requires 2 <= base <= 16
  {
    Prefix(base) + Digits(i, base, Longer(DigitCount(i, base), minLen))
  }

  // The value that stou gives one character, as an unsigned byte.
  function CharValue(c: Char): nat {
    (if c > '9' as int then (if c > 'Z' as int then c - 'a' as int else c - 'z' as int) else c - '0' as int) % 256
  }

  function Pow(base: nat, n: nat): nat {
    if n == 0 then 1 else base * Pow(base, n - 1)
  }

  // The number that a string of digits stands for.
  function Value(s: seq<Char>, base: nat): nat {
    if s == [] then 0 else CharValue(s[0]) * Pow(base, |s| - 1) + Value(s[1..], base)
  }

  predicate AllDigits(s: seq<Char>, base: nat) {
    forall k :: 0 <= k < |s| ==> CharValue(s[k]) < base
  }

  function Parsed(s: seq<Char>, base: nat): Word {
    if AllDigits(s, base) then Value(s, base) % 0x1_0000_0000_0000_0000 else 0
  }

  // ----- arithmetic

  lemma Shrinks(i: nat, base: nat)
    requires base >= 2
    ensures 0 <= i / base <= i && 0 <= i % base < base && i == i / base * base + i % base
    ensures i > 0 ==> i / base < i
  {
    var q := i / base;
    assert q * base >= 2 * q by { Grows(q, base); }
  }

  lemma LastDigit(i: nat, base: nat)
    requires base >= 2
    ensures i < base <==> i / base == 0
  {
    Shrinks(i, base);
    if i / base > 0 { Times(i / base, base); }
  }

  lemma Grows(q: int, base: int)
    requires base >= 2 && q >= 0
    ensures q * base >= 2 * q
  {
    assert q * base == 2 * q + q * (base - 2);
  }

  lemma {:induction false} ValueSnoc(s: seq<Char>, c: Char, base: nat)
    ensures Value(s + [c], base) == Value(s, base) * base + CharValue(c)
  {
    if s == [] {
      assert Value([c], base) == CharValue(c) * Pow(base, 0) + Value([c][1..], base);
    } else {
      ValueSnoc(s[1..], c, base);
      assert (s + [c])[1..] == s[1..] + [c];
      Horner(CharValue(s[0]), Pow(base, |s| - 1), Value(s[1..], base), base);
    }
  }

  lemma Horner(v: nat, p: nat, w: nat, base: nat)
    ensures (v * p + w) * base == v * (base * p) + w * base
  {
  }

  // The number of digits is the least that the value fits in.
  lemma {:induction false} DigitCountIsLeast(i: nat, base: nat)
    requires base >= 2
    ensures i < Pow(base, DigitCount(i, base))
    ensures DigitCount(i, base) > 1 ==> Pow(base, DigitCount(i, base) - 1) <= i
    decreases i
  {
    Shrinks(i, base);
    if i < base {
      assert Pow(base, 1) == base * Pow(base, 0);
    } else {
      var q, n := i / base, DigitCount(i / base, base);
      DigitCountIsLeast(q, base);
      Steps(q, Pow(base, n), base, i % base);
      if n > 1 {
        Steps(Pow(base, n - 1) - 1, q, base, 0);
      } else {
        assert Pow(base, 1) == base * Pow(base, 0);
      }
    }
  }

  // q < p in steps of base.
  lemma Steps(q: int, p: int, base: nat, r: nat)
    requires q < p && r < base
    ensures q * base + r < base * p && base * (q + 1) <= p * base
  {
    assert (p - q - 1) * base >= 0;
    assert p * base == q * base + base + (p - q - 1) * base;
    assert base * (q + 1) == q * base + base;
  }

  lemma {:induction false} PowGrows(base: nat, n: nat, m: nat)
    requires base >= 1 && n <= m
    ensures 1 <= Pow(base, n) <= Pow(base, m)
    decreases m
  {
    if n < m {
      PowGrows(base, n, m - 1);
      Steps(0, Pow(base, m - 1), base, 0);
      assert base * Pow(base, m - 1) >= Pow(base, m - 1) by { Times(base, Pow(base, m - 1)); }
    } else if n > 0 {
      PowGrows(base, n - 1, n - 1);
      Times(base, Pow(base, n - 1));
    }
  }

  lemma Times(b: nat, p: nat)
    requires b >= 1
    ensures b * p >= p
  {
    assert b * p == p + (b - 1) * p;
  }

  // ----- the round trip

  // No digit of i is printed as a letter.
  predicate DecimalDigits(i: nat, base: nat)
    requires 2 <= base
    decreases i
  {
    Shrinks(i, base);
    i % base < 10 && (i < base || DecimalDigits(i / base, base))
  }

  lemma {:induction false} SmallBasesAreDecimal(i: nat, base: nat)
    requires 2 <= base <= 10
    ensures DecimalDigits(i, base)
    decreases i
  {
    Shrinks(i, base);
    if i >= base {
      SmallBasesAreDecimal(i / base, base);
    }
  }

  lemma DigitCharValue(d: nat)
    requires d < 16
    ensures CharValue(DigitChar(d)) == if d < 10 then d else d + 189
    ensures DigitChar(d) != NUL
  {
  }

  lemma ZeroIsDecimal(base: nat)
    requires 2 <= base
    ensures DecimalDigits(0, base)
  {
  }

  // A letter is never read back as a digit, and digits are read back as the number.
  lemma {:induction false} DigitsRead(i: nat, base: nat, n: nat)
    requires 2 <= base <= 16 && n > 0 && i < Pow(base, n)
    ensures AllDigits(Digits(i, base, n), base) <==> DecimalDigits(i, base)
    ensures DecimalDigits(i, base) ==> Value(Digits(i, base, n), base) == i
    decreases n
  {
    hide AllDigits, CharValue, DigitChar, Value;
    Shrinks(i, base);
    DigitCharValue(i % base);
    var front, last := Digits(i / base, base, n - 1), DigitChar(i % base);
    ValueSnoc(front, last, base);
    DigitsBack(front, last, base);
    if n == 1 {
      assert Pow(base, 1) == base * Pow(base, 0);
      LastDigit(i, base);
      assert front == [];
      NoDigits(base);
    } else {
      Below(i / base, i % base, base, Pow(base, n - 1));
      DigitsRead(i / base, base, n - 1);
      LastDigit(i, base);
      if i < base { ZeroIsDecimal(base); }
    }
  }

  lemma NoDigits(base: nat)
    ensures AllDigits([], base) && Value([], base) == 0
  {
  }

  lemma DigitsBack(s: seq<Char>, c: Char, base: nat)
    ensures AllDigits(s + [c], base) <==> AllDigits(s, base) && CharValue(c) < base
  {
    var t := s + [c];
    assert t[|s|] == c && forall k :: 0 <= k < |s| ==> s[k] == t[k];
  }

  lemma Below(q: nat, r: nat, base: nat, p: nat)
    requires q * base + r < base * p
    ensures q < p
  {
    if p <= q {
      Scale(p, q, base);
      assert false;
    }
  }

  lemma Scale(p: nat, q: nat, base: nat)
    requires p <= q
    ensures base * p <= q * base
  {
    assert q * base == base * p + (q - p) * base;
  }

  /** What stou makes of the output of utos, for every 64-bit number, every base from 2 to 16 and any
      padding: the number itself if the base is below 16 and no digit is a letter, and 0 otherwise. */
  lemma PrintThenParse(i: Word, base: nat, minLen: nat)
    requires 2 <= base <= 16
    ensures Parsed(Text(i, base, minLen), base) == if base < 16 && DecimalDigits(i, base) then i else 0
    ensures base <= 10 ==> Parsed(Text(i, base, minLen), base) == i
    ensures Parsed(Text(i, base, minLen), base) == i <==> i == 0 || (base < 16 && DecimalDigits(i, base))
    ensures base < 16 ==> |Text(i, base, minLen)| == Longer(DigitCount(i, base), minLen)
  {
    hide Value, Digits, DigitCount, Pow, DecimalDigits;
    var c := DigitCount(i, base);
    var n := Longer(c, minLen);
    var s := Text(i, base, minLen);
    DigitCountIsLeast(i, base);
    PowGrows(base, c, n);
    DigitsRead(i, base, n);
    if base <= 10 { SmallBasesAreDecimal(i, base); }
    if base == 16 {
      assert s[1] == 'x' as int && CharValue(s[1]) == 23;
    } else {
      assert s == Digits(i, base, n);
    }
  }

  // Text is free of terminators.
  lemma {:induction false} DigitsHaveNoNul(i: nat, base: nat, n: nat)
    requires 2 <= base <= 16
    ensures NUL !in Digits(i, base, n)
    decreases n
  {
    if n > 0 {
      Shrinks(i, base);
      DigitsHaveNoNul(i / base, base, n - 1);
      DigitCharValue(i % base);
    }
  }

  lemma TextHasNoNul(i: nat, base: nat, minLen: nat)
    requires 2 <= base <= 16
    ensures NUL !in Text(i, base, minLen)
  {
    DigitsHaveNoNul(i, base, Longer(DigitCount(i, base), minLen));
  }

  // ----- character by character

  lemma DigitCharIs(d: nat)
    requires d < 16
    ensures DigitChar(d) == "0123456789ABCDEF"[d] as int
  {
  }

  lemma PowPositive(base: nat, n: nat)
    requires base >= 1
    ensures Pow(base, n) > 0
  {
    PowGrows(base, 0, n);
  }

  lemma {:induction false} DigitAt(i: nat, base: nat, n: nat, k: nat)
    requires 2 <= base <= 16 && k < n
    ensures Pow(base, k) > 0 && 0 <= i / Pow(base, k) % base < 16
    ensures Digits(i, base, n)[n - 1 - k] == "0123456789ABCDEF"[i / Pow(base, k) % base] as int
    decreases n
  {
    hide DigitChar, Pow, Digits;
    DigitInRange(i, base, k);
    LastOfDigits(i, base, n);
    if k == 0 {
      DigitCharIs(i % base);
      PowZero(i, base);
    } else {
      DigitAt(i / base, base, n - 1, k - 1);
      NextPower(i, base, k);
      assert Digits(i, base, n)[n - 1 - k] == Digits(i / base, base, n - 1)[n - 1 - k];
    }
  }

  lemma DigitInRange(i: nat, base: nat, k: nat)
    requires 2 <= base <= 16
    ensures Pow(base, k) > 0 && 0 <= i / Pow(base, k) % base < 16 && 0 <= i % base < base && 0 <= i / base
  {
    hide Pow;
    PowPositive(base, k);
    Parts(i, Pow(base, k));
    Parts(i / Pow(base, k), base);
    Parts(i, base);
  }

  lemma LastOfDigits(i: nat, base: nat, n: nat)
    requires 2 <= base <= 16 && n > 0
    ensures 0 <= i / base && 0 <= i % base < 16
    ensures Digits(i, base, n) == Digits(i / base, base, n - 1) + [DigitChar(i % base)]
  {
    Shrinks(i, base);
  }

  lemma PowZero(i: nat, base: nat)
    ensures Pow(base, 0) == 1 && i / Pow(base, 0) == i
  {
  }

  lemma NextPower(i: nat, base: nat, k: nat)
    requires 2 <= base && k > 0
    ensures Pow(base, k - 1) > 0 && Pow(base, k) > 0 && i / base / Pow(base, k - 1) == i / Pow(base, k)
  {
    PowPositive(base, k - 1);
    DivTwice(i, base, Pow(base, k - 1));
  }

  lemma DivTwice(i: nat, b: nat, p: nat)
    requires b > 0 && p > 0
    ensures b * p > 0 && i / b / p == i / (b * p)
  {
    Parts(i, b);
    Parts(i / b, p);
    Joined(i, b, p, i / b / p, i / b % p, i % b);
  }

  lemma Parts(i: nat, m: nat)
    requires m > 0
    ensures 0 <= i / m && 0 <= i % m < m && i == i / m * m + i % m
  {
  }

  lemma Joined(i: nat, b: nat, p: nat, q: nat, r: nat, t: nat)
    requires t < b && r < p && i == (q * p + r) * b + t
    ensures b * p > 0 && q == i / (b * p)
  {
    Commutes(b, p);
    Expand(q, p, r, b, t);
    Scaled(r, p, b, t);
    QuotientIs(i, b * p, q, r * b + t);
  }

  lemma Expand(q: nat, p: nat, r: nat, b: nat, t: nat)
    ensures (q * p + r) * b + t == b * p * q + (r * b + t)
  {
  }

  lemma Scaled(r: nat, p: nat, b: nat, t: nat)
    requires r < p && t < b
    ensures 0 <= r * b + t < b * p
  {
    assert (p - r - 1) * b >= 0;
    assert b * p == r * b + b + (p - r - 1) * b;
  }

  lemma QuotientIs(i: nat, d: nat, q: nat, r: nat)
    requires i == d * q + r && r < d
    ensures i / d == q
  {
    var x, y := i / d, i % d;
    assert d * x + y == d * q + r;
    if x < q { Gap(d, x, q); }
    if q < x { Gap(d, q, x); }
  }

  lemma Spread(d: nat, x: nat, y: nat)
    ensures d * (x + 1 + y) == d * x + d + d * y && d * y >= 0
  {
  }

  lemma Gap(d: nat, x: nat, q: nat)
    requires x < q
    ensures d * q >= d * x + d
  {
    Spread(d, x, q - x - 1);
    assert d * (q - x - 1) >= 0;
  }

  // The text of a number: "0x" for base 16, and then as many digits as the value needs or the padding
  // asks for, the digit at distance k from the end being that of the base to the power of k.
  ghost predicate Printed(text: seq<Char>, i: nat, base: nat, minLen: nat)
    requires 2 <= base <= 16
  {
    var n := |text| - (if base == 16 then 2 else 0);
    && (base == 16 ==> |text| >= 2 && text[0] == '0' as int && text[1] == 'x' as int)
    && n >= 1 && n >= minLen && i < Pow(base, n)
    && (n == 1 || n == minLen || Pow(base, n - 1) <= i)
    && forall k: nat :: k < n ==>
         Pow(base, k) > 0 && 0 <= i / Pow(base, k) % base < 16 &&
         text[|text| - 1 - k] == "0123456789ABCDEF"[i / Pow(base, k) % base] as int
  }

  lemma TextIsPrinted(i: nat, base: nat, minLen: nat)
    requires 2 <= base <= 16
    ensures Printed(Text(i, base, minLen), i, base, minLen)
  {
    hide Digits, DigitCount, Pow, DigitChar;
    var c := DigitCount(i, base);
    var n := Longer(c, minLen);
    DigitCountIsLeast(i, base);
    PowGrows(base, c, n);
    var text := Text(i, base, minLen);
    forall k: nat | k < n
      ensures Pow(base, k) > 0 && 0 <= i / Pow(base, k) % base < 16
      ensures text[|text| - 1 - k] == "0123456789ABCDEF"[i / Pow(base, k) % base] as int
    {
      DigitAt(i, base, n, k);
      assert text[|text| - 1 - k] == Digits(i, base, n)[n - 1 - k];
    }
  }

  // What a character counts for in stou, by its code.
  ghost function Counts(c: Char): nat {
    if c <= 57 then (c - 48) % 256 else if c <= 90 then (c - 122) % 256 else (c - 97) % 256
  }

  // A string counts for nothing if one of its characters counts for the base or more.
  ghost predicate Countable(s: seq<Char>, base: nat) {
    forall k :: 0 <= k < |s| ==> Counts(s[k]) < base
  }

  ghost function Total(s: seq<Char>, base: nat): nat {
    if s == [] then 0 else Total(s[..|s| - 1], base) * base + Counts(s[|s| - 1])
  }

  /** What stou gives: from left to right, the value so far times the base and what the character counts
      for, modulo 2^64; and 0 if a character counts for the base or more. */
  lemma {:induction false} ParsedIs(s: seq<Char>, base: nat)
    ensures Parsed(s, base) == if Countable(s, base) then Total(s, base) % 0x1_0000_0000_0000_0000 else 0
  {
    hide Value, Total;
    forall c: Char
      ensures Counts(c) == CharValue(c)
    {
      CountsIs(c);
    }
    ValueIsTotal(s, base);
  }

  lemma CountsIs(c: Char)
    ensures Counts(c) == CharValue(c)
  {
  }

  lemma {:induction false} ValueIsTotal(s: seq<Char>, base: nat)
    ensures Value(s, base) == Total(s, base)
  {
    if s != [] {
      var front := s[..|s| - 1];
      ValueIsTotal(front, base);
      CountsIs(s[|s| - 1]);
      ValueSnoc(front, s[|s| - 1], base);
      assert front + [s[|s| - 1]] == s;
    }
  }

  // ----- the code

  // A string in memory.
  ghost predicate Holds(mem: array<Char>, at: nat, s: seq<Char>)
    reads mem
  {
    at + |s| < mem.Length && mem[at..at + |s|] == s && mem[at + |s|] == NUL && NUL !in s
  }

  method Strlen(mem: array<Char>, str: nat, ghost s: seq<Char>) returns (len: nat)
    requires Holds(mem, str, s)
    ensures len == |s|
  {
    len := 0;
    while mem[str + len] != 0
      invariant 0 <= len <= |s|
      decreases |s| - len
    {
      assert len < |s|;
      len := len + 1;
    }
  }

  // The do-while loop of utos.
  method CountDigits(i: Word, base: nat) returns (valLen: nat)
    requires 2 <= base
    ensures valLen == DigitCount(i, base)
  {
    valLen := 1;
    Shrinks(i, base);
    LastDigit(i, base);
    var rest := i / base;
    while rest > 0
      invariant 0 <= rest
      invariant rest > 0 ==> valLen + DigitCount(rest, base) == DigitCount(i, base)
      invariant rest == 0 ==> valLen == DigitCount(i, base)
      decreases rest
    {
      valLen := valLen + 1;
      Shrinks(rest, base);
      LastDigit(rest, base);
      rest := rest / base;
    }
  }

  // The for loop of utos: n digits, backwards from the end of the text.
  method PutDigits(i: Word, base: nat, mem: array<Char>, end: nat, valLen: nat)
    requires 2 <= base <= 16 && valLen <= end <= mem.Length
    modifies mem
    ensures mem[end - valLen..end] == Digits(i, base, valLen)
    ensures forall x :: 0 <= x < mem.Length && !(end - valLen <= x < end) ==> mem[x] == old(mem[x])
  {
    var j := i;
    for n := 0 to valLen
      invariant 0 <= j
      invariant Digits(i, base, valLen) == Digits(j, base, valLen - n) + mem[end - n..end]
      invariant forall x :: 0 <= x < mem.Length && !(end - n <= x < end) ==> mem[x] == old(mem[x])
    {
      Shrinks(j, base);
      ghost var tail := mem[end - n..end];
      mem[end - n - 1] := DigitChar(j % base);
      assert mem[end - (n + 1)..end] == [DigitChar(j % base)] + tail;
      j := j / base;
    }
  }

  // The prefix and the terminator.
  method PutFrame(base: nat, mem: array<Char>, buf: nat, valLen: nat) returns (strLen: nat)
    requires 1 <= valLen && buf + |Prefix(base)| + valLen < mem.Length
    modifies mem
    ensures strLen == |Prefix(base)| + valLen
    ensures mem[buf..buf + |Prefix(base)|] == Prefix(base) && mem[buf + strLen] == NUL
    ensures forall x :: 0 <= x < mem.Length && !(buf <= x <= buf + strLen) ==> mem[x] == old(mem[x])
  {
    strLen := valLen;
    if base == 16 {
      strLen := strLen + 2;
      mem[buf] := '0' as int;
      mem[buf + 1] := 'x' as int;
    }
    mem[buf + strLen] := NUL;
  }

  method Utos(i: Word, base: nat, mem: array<Char>, buf: nat, minLen: nat) returns (strLen: nat)
    requires 2 <= base <= 16
    requires buf + |Text(i, base, minLen)| < mem.Length
    modifies mem
    ensures strLen == |Text(i, base, minLen)|
    ensures Holds(mem, buf, Text(i, base, minLen))
    ensures Printed(mem[buf..buf + strLen], i, base, minLen) && mem[buf + strLen] == 0
    ensures forall x :: 0 <= x < mem.Length && !(buf <= x <= buf + strLen) ==> mem[x] == old(mem[x])
  {
    hide Digits, DigitCount, Prefix;
    var valLen := CountDigits(i, base);
    if valLen < minLen {
      valLen := minLen;
    }
    strLen := PutFrame(base, mem, buf, valLen);
    ghost var m, front := mem[..], buf + strLen - valLen;
    PutDigits(i, base, mem, buf + strLen, valLen);
    assert mem[buf..front] == m[buf..front];
    Joins(mem, buf, front, buf + strLen);
    TextHasNoNul(i, base, minLen);
    TextIsPrinted(i, base, minLen);
  }

  lemma Joins(mem: array<Char>, a: nat, b: nat, c: nat)
    requires a <= b <= c <= mem.Length
    ensures mem[a..c] == mem[a..b] + mem[b..c]
  {
  }

  method ReadChar(c: Char) returns (v: nat)
    ensures v == CharValue(c)
  {
    if c > '9' as int {
      if c > 'Z' as int {
        v := (c - 'a' as int) % 256;
      } else {
        v := (c - 'z' as int) % 256;
      }
    } else {
      v := (c - '0' as int) % 256;
    }
  }

  // One more character at the front.
  lemma ParseStep(s: seq<Char>, k: nat, base: nat)
    requires k < |s|
    ensures var v, n := CharValue(s[k]), |s| - k - 1;
      && (Value(s[k + 1..], base) % 0x1_0000_0000_0000_0000
          + v * (Pow(base, n) % 0x1_0000_0000_0000_0000) % 0x1_0000_0000_0000_0000) % 0x1_0000_0000_0000_0000
         == Value(s[k..], base) % 0x1_0000_0000_0000_0000
      && Pow(base, n) % 0x1_0000_0000_0000_0000 * base % 0x1_0000_0000_0000_0000
         == Pow(base, n + 1) % 0x1_0000_0000_0000_0000
      && (AllDigits(s[k..], base) <==> v < base && AllDigits(s[k + 1..], base))
  {
    hide CharValue;
    var v, n := CharValue(s[k]), |s| - k - 1;
    assert s[k..][1..] == s[k + 1..];
    assert Value(s[k..], base) == v * Pow(base, n) + Value(s[k + 1..], base);
    AddModulo(Value(s[k + 1..], base), v, Pow(base, n));
    ScaleModulo(Pow(base, n), base);
    assert Pow(base, n + 1) == base * Pow(base, n);
    DigitsFront(s[k], s[k + 1..], base);
    assert s[k..] == [s[k]] + s[k + 1..];
  }

  lemma DigitsFront(c: Char, s: seq<Char>, base: nat)
    ensures AllDigits([c] + s, base) <==> CharValue(c) < base && AllDigits(s, base)
  {
    var t := [c] + s;
    assert t[0] == c && forall k :: 0 <= k < |s| ==> s[k] == t[k + 1];
  }

  method Stou(mem: array<Char>, str: nat, base: Word, ghost s: seq<Char>) returns (value: Word)
    requires Holds(mem, str, s)
    ensures value == Parsed(s, base)
    ensures value == if Countable(s, base) then Total(s, base) % 0x1_0000_0000_0000_0000 else 0
  {
    hide Value, CharValue, Pow, Total, Countable;
    ParsedIs(s, base);
    value := 0;
    var digit: Word := 1;
    EmptyValue(s, base);
    var len := Strlen(mem, str, s);
    for i := 0 to len
      invariant AllDigits(s[len - i..], base)
      invariant value == Value(s[len - i..], base) % 0x1_0000_0000_0000_0000
      invariant digit == Pow(base, i) % 0x1_0000_0000_0000_0000
    {
      var c := mem[str + (len - i - 1)];
      assert c == mem[str..str + len][len - i - 1] == s[len - i - 1];
      var v := ReadChar(c);
      if v >= base {
        assert CharValue(s[len - i - 1]) >= base;
        return 0;
      }
      ParseStep(s, len - i - 1, base);
      value := (value + v * digit % 0x1_0000_0000_0000_0000) % 0x1_0000_0000_0000_0000;
      digit := digit * base % 0x1_0000_0000_0000_0000;
    }
    assert s[0..] == s;
  }

  lemma EmptyValue(s: seq<Char>, base: nat)
    ensures Value(s[|s|..], base) == 0 && Pow(base, 0) == 1
  {
  }

  // Products and sums may be reduced at every step.
  lemma ScaleModulo(p: nat, v: nat)
    ensures p % 0x1_0000_0000_0000_0000 * v % 0x1_0000_0000_0000_0000 == p * v % 0x1_0000_0000_0000_0000
  {
    var q, r := p / 0x1_0000_0000_0000_0000, p % 0x1_0000_0000_0000_0000;
    assert p * v == r * v + 0x1_0000_0000_0000_0000 * (q * v);
    Multiple(r * v, q * v);
  }

  lemma Multiple(x: int, k: int)
    ensures (x + 0x1_0000_0000_0000_0000 * k) % 0x1_0000_0000_0000_0000 == x % 0x1_0000_0000_0000_0000
  {
  }

  lemma AddModulo(x: nat, v: nat, p: nat)
    ensures (x % 0x1_0000_0000_0000_0000 + v * (p % 0x1_0000_0000_0000_0000) % 0x1_0000_0000_0000_0000)
        % 0x1_0000_0000_0000_0000 == (v * p + x) % 0x1_0000_0000_0000_0000
  {
    ScaleModulo(p, v);
    Commutes(v, p % 0x1_0000_0000_0000_0000);
    Commutes(v, p);
    SumModulo(x, v * p);
  }

  lemma Commutes(a: nat, b: nat)
    ensures a * b == b * a >= 0
  {
  }

  lemma SumModulo(x: nat, y: nat)
    ensures (x % 0x1_0000_0000_0000_0000 + y % 0x1_0000_0000_0000_0000) % 0x1_0000_0000_0000_0000
         == (y + x) % 0x1_0000_0000_0000_0000
  {
    var p, q := x / 0x1_0000_0000_0000_0000, y / 0x1_0000_0000_0000_0000;
    var a, b := x % 0x1_0000_0000_0000_0000, y % 0x1_0000_0000_0000_0000;
    assert y + x == a + b + 0x1_0000_0000_0000_0000 * (p + q);
    Multiple(a + b, p + q);
  }
}
