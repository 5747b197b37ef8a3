/** Printing of one number by the formatted output functions (num in lib/ebl/stdio.cc). */
module NumberFormat {
  import Bits

  const WORD := 0x1_0000_0000_0000_0000
  const BUFFER := 23

  datatype Flags = Flags(signed: bool, zeroPad: bool, forcePlus: bool, spacePlus: bool, prefix: bool, small: bool,
                         left: bool)

  function Alphabet(small: bool): (a: string)
    ensures |a| == 16
  {
    if small then "0123456789abcdef" else "0123456789ABCDEF"
  }

  // ----- numerals

  /** The digits of a positive number, highest digit first; no digit at all for zero. */
  function Numeral(n: nat, base: nat, small: bool): string
    requires 2 <= base <= 16
  {
    if n == 0 then "" else Numeral(n / base, base, small) + [Alphabet(small)[n % base]]
  }

  predicate IsDigit(c: char) {
    '0' <= c <= '9' || 'A' <= c <= 'F' || 'a' <= c <= 'f'
  }

  predicate AllDigits(s: string) {
    forall k :: 0 <= k < |s| ==> IsDigit(s[k])
  }

  /** The value of a digit of either alphabet. */
  function ValueOf(c: char): (v: nat)
    ensures v < 16
  {
    if '0' <= c <= '9' then (c - '0') as nat
    else if 'A' <= c <= 'F' then (c - 'A') as nat + 10
    else if 'a' <= c <= 'f' then (c - 'a') as nat + 10
    else 0
  }

  /** The value of a string of digits, highest digit first. */
  function Read(s: string, base: nat): nat {
    if s == "" then 0 else base * Read(s[..|s| - 1], base) + ValueOf(s[|s| - 1])
  }

  lemma DigitValue(small: bool, d: nat)
    requires d < 16
    ensures ValueOf(Alphabet(small)[d]) == d
    ensures IsDigit(Alphabet(small)[d])
  {
  }

  lemma Divide(n: nat, base: nat)
    requires n > 0 && base >= 2
    ensures 0 <= n / base < n
    ensures n == base * (n / base) + n % base
  {
  }

  /** The digits read back as the number. */
  lemma {:induction false} ReadNumeral(n: nat, base: nat, small: bool)
    requires 2 <= base <= 16
    ensures Read(Numeral(n, base, small), base) == n
    ensures AllDigits(Numeral(n, base, small))
  {
    hide ValueOf, Alphabet, IsDigit;
    if n > 0 {
      Divide(n, base);
      ReadNumeral(n / base, base, small);
      DigitValue(small, n % base);
      var s := Numeral(n, base, small);
      assert s[..|s| - 1] == Numeral(n / base, base, small);
    }
  }

  /** Zeros in front of a numeral do not change its value. */
  lemma {:induction false} ReadLeadingZeros(k: nat, s: string, base: nat)
    ensures Read(Repeat('0', k) + s, base) == Read(s, base)
  {
    var t := Repeat('0', k) + s;
    if s != "" {
      ReadLeadingZeros(k, s[..|s| - 1], base);
      assert t[..|t| - 1] == Repeat('0', k) + s[..|s| - 1];
    } else if k > 0 {
      ReadLeadingZeros(k - 1, s, base);
      assert t[..|t| - 1] == Repeat('0', k - 1) + s;
    }
  }

  function Pow8(k: nat): nat {
    if k == 0 then 1 else 8 * Pow8(k - 1)
  }

  /** In base eight or more, a number below 8^k has at most k digits. */
  lemma {:induction false} NumeralLength(n: nat, base: nat, small: bool, k: nat)
    requires 8 <= base <= 16 && n < Pow8(k)
    ensures |Numeral(n, base, small)| <= k
  {
    if n > 0 {
      assert n / base <= n / 8;
      NumeralLength(n / base, base, small, k - 1);
    }
  }

  lemma WordFits()
    ensures WORD <= Pow8(22)
  {
    assert Pow8(4) == 4096;
    assert Pow8(8) == Pow8(4) * 4096;
    assert Pow8(12) == Pow8(8) * 4096;
    assert Pow8(16) == Pow8(12) * 4096;
    assert Pow8(20) == Pow8(16) * 4096;
  }

  // ----- the layout of a printed number

  function Max(a: int, b: int): int {
    if a < b then b else a
  }

  function Repeat(c: char, n: int): (s: string)
    ensures |s| == Max(n, 0) && forall k :: 0 <= k < |s| ==> s[k] == c
  {
    seq(Max(n, 0), _ => c)
  }

  /** The magnitude the conversion works on: a negative number that is not flagged as
      signed is taken modulo the word size. */
  function Magnitude(num: int, flags: Flags): (m: nat)
    requires -WORD < num < WORD
  {
    if num < 0 then (if flags.signed then -num else num + WORD) else num
  }

  function Body(num: int, base: nat, flags: Flags): string
    requires -WORD < num < WORD && 2 <= base <= 16
  {
    if num == 0 then "0" else Numeral(Magnitude(num, flags), base, flags.small)
  }

  function Prefix(base: nat, flags: Flags): string {
    if !flags.prefix then ""
    else if base == 16 then (if flags.small then "0x" else "0X")
    else if base == 8 then "0"
    else ""
  }

  /** The sign character.  The two plus flags are honoured for unsigned conversions too. */
  function Sign(num: int, flags: Flags): string {
    if num >= 0 then (if flags.spacePlus then " " else if flags.forcePlus then "+" else "")
    else if flags.signed then "-" else ""
  }

  /** Whether the width computation leaves room for a sign. */
  predicate CountsSign(num: int, flags: Flags) {
    flags.signed && (num < 0 || flags.forcePlus || flags.spacePlus)
  }

  function Padding(num: int, base: nat, flags: Flags, width: int): nat
    requires -WORD < num < WORD && 2 <= base <= 16
  {
    Max(0, width - (|Body(num, base, flags)| + |Prefix(base, flags)| + if CountsSign(num, flags) then 1 else 0))
  }

  function Layout(lead: nat, sign: string, prefix: string, zeros: nat, body: string, tail: nat): string {
    Repeat(' ', lead) + sign + prefix + Repeat('0', zeros) + body + Repeat(' ', tail)
  }

  /** Spaces, sign, prefix, zeros, digits, spaces. */
  function Printed(num: int, base: nat, flags: Flags, width: int, precision: int): string
    requires -WORD < num < WORD && 2 <= base <= 16
  {
    var pad := Padding(num, base, flags, width);
    Layout(
      if flags.zeroPad || flags.left then 0 else pad,
      Sign(num, flags),
      Prefix(base, flags),
      Max(precision, 0) + if flags.zeroPad then pad else 0,
      Body(num, base, flags),
      if !flags.zeroPad && flags.left then pad else 0)
  }

  // ----- what a printed number looks like

  /** A letter of the alphabet that is not asked for. */
  predicate WrongCase(c: char, small: bool) {
    if small then 'A' <= c <= 'Z' else 'a' <= c <= 'z'
  }

  /** The digits of n: no letter of the wrong case, no digit too large, no zero in front. */
  predicate DigitsOf(s: string, n: nat, base: nat, small: bool) {
    && s != "" && AllDigits(s) && Read(s, base) == n && (s[0] == '0' ==> s == "0")
    && forall k :: 0 <= k < |s| ==> ValueOf(s[k]) < base && !WrongCase(s[k], small)
  }

  /** The parts of a printed text: spaces, sign, prefix, zeros, digits, spaces. */
  datatype Parts = Parts(lead: nat, sign: string, prefix: string, zeros: nat, digits: string, tail: nat)

  predicate Consists(s: string, p: Parts) {
    s == Repeat(' ', p.lead) + p.sign + p.prefix + Repeat('0', p.zeros) + p.digits + Repeat(' ', p.tail)
  }

  /** The sign, the prefix and the digits that the flags ask for. */
  predicate Asked(p: Parts, num: int, base: nat, flags: Flags) {
    && p.sign == (if num < 0 then (if flags.signed then "-" else "")
                  else if flags.spacePlus then " " else if flags.forcePlus then "+" else "")
    && p.prefix == (if !flags.prefix then "" else if base == 16 then (if flags.small then "0x" else "0X")
                    else if base == 8 then "0" else "")
    && -WORD < num && DigitsOf(p.digits, if num >= 0 then num else if flags.signed then -num else num + WORD, base, flags.small)
  }

  /** Where the padding goes.  With zeroPad it is all zeros, right before the digits; otherwise all
      spaces, in front of the text or, with left, behind it.  The zeros of the precision come on
      top.  Prefix and digits are counted in the width, and the sign of a signed conversion. */
  predicate Padded(p: Parts, num: int, flags: Flags, width: int, precision: int) {
    var counted := flags.signed && (num < 0 || flags.forcePlus || flags.spacePlus);
    var pad := Max(0, width - |p.prefix| - |p.digits| - if counted then 1 else 0);
    && p.lead == (if !flags.zeroPad && !flags.left then pad else 0)
    && p.tail == (if !flags.zeroPad && flags.left then pad else 0)
    && p.zeros == Max(0, precision) + if flags.zeroPad then pad else 0
  }

  lemma {:induction false} NumeralDigits(n: nat, base: nat, small: bool)
    requires 2 <= base <= 16 && n > 0
    ensures DigitsOf(Numeral(n, base, small), n, base, small) && Numeral(n, base, small)[0] != '0'
  {
    hide ValueOf, Alphabet, IsDigit, WrongCase, DigitsOf, Read;
    Divide(n, base);
    DigitValue(small, n % base);
    DigitCase(small, n % base);
    if n / base > 0 {
      NumeralDigits(n / base, base, small);
      DigitAdded(Numeral(n / base, base, small), n / base, base, small, Alphabet(small)[n % base]);
    } else {
      assert Numeral(n, base, small) == [Alphabet(small)[n % base]];
      OneDigit(base, small, Alphabet(small)[n % base]);
    }
  }

  lemma DigitAdded(s: string, q: nat, base: nat, small: bool, c: char)
    requires base > 0 && DigitsOf(s, q, base, small) && s[0] != '0'
    requires IsDigit(c) && ValueOf(c) < base && !WrongCase(c, small)
    ensures DigitsOf(s + [c], base * q + ValueOf(c), base, small) && (s + [c])[0] != '0'
  {
    hide ValueOf, IsDigit, WrongCase;
    assert (s + [c])[..|s|] == s;
  }

  lemma OneDigit(base: nat, small: bool, c: char)
    requires base > 0 && IsDigit(c) && ValueOf(c) < base && !WrongCase(c, small)
    ensures DigitsOf([c], ValueOf(c), base, small)
  {
    hide ValueOf, IsDigit, WrongCase;
    assert [c][..0] == "";
    assert Read([c], base) == base * Read("", base) + ValueOf(c);
  }

  /** A text of the right parts and padding; OneText says there is only one. */
  ghost predicate Formatted(s: string, num: int, base: nat, flags: Flags, width: int, precision: int) {
    exists p: Parts :: Consists(s, p) && Asked(p, num, base, flags) && Padded(p, num, flags, width, precision)
  }

  lemma DigitCase(small: bool, d: nat)
    requires d < 16
    ensures !WrongCase(Alphabet(small)[d], small) && (d > 0 ==> Alphabet(small)[d] != '0')
  {
  }

  /** The text has the parts that are asked for, padded as the flags say. */
  lemma PrintedParts(num: int, base: nat, flags: Flags, width: int, precision: int) returns (p: Parts)
    requires -WORD < num < WORD && 2 <= base <= 16
    ensures Consists(Printed(num, base, flags, width, precision), p)
    ensures Asked(p, num, base, flags) && Padded(p, num, flags, width, precision)
  {
    hide Repeat, Numeral, Read, ValueOf, IsDigit, WrongCase;
    var pad := Padding(num, base, flags, width);
    if num == 0 {
      ZeroDigits(base, flags.small);
    } else {
      NumeralDigits(Magnitude(num, flags), base, flags.small);
    }
    p := Parts(if flags.zeroPad || flags.left then 0 else pad, Sign(num, flags), Prefix(base, flags),
               Max(precision, 0) + if flags.zeroPad then pad else 0, Body(num, base, flags),
               if !flags.zeroPad && flags.left then pad else 0);
  }

  lemma ZeroDigits(base: nat, small: bool)
    requires 2 <= base <= 16
    ensures DigitsOf("0", 0, base, small)
  {
    assert "0"[..0] == "";
    assert Read("0", base) == base * Read("", base);
  }

  /** The digits of a number are unique, ... */
  lemma {:induction false} SameDigits(s: string, t: string, n: nat, base: nat, small: bool)
    requires 2 <= base <= 16 && DigitsOf(s, n, base, small) && DigitsOf(t, n, base, small)
    ensures s == t
  {
    hide Read, ValueOf, WrongCase, IsDigit;
    OneDigitLess(s, n, base, small);
    OneDigitLess(t, n, base, small);
    if |s| > 1 && |t| > 1 {
      SameDigits(s[..|s| - 1], t[..|t| - 1], n / base, base, small);
    }
    SameDigit(s[|s| - 1], t[|t| - 1], small);
    assert s == s[..|s| - 1] + [s[|s| - 1]] && t == t[..|t| - 1] + [t[|t| - 1]];
  }

  lemma OneDigitLess(s: string, n: nat, base: nat, small: bool)
    requires 2 <= base <= 16 && DigitsOf(s, n, base, small)
    ensures ValueOf(s[|s| - 1]) == n % base && (|s| == 1 <==> n < base)
    ensures |s| > 1 ==> DigitsOf(s[..|s| - 1], n / base, base, small)
    ensures IsDigit(s[|s| - 1]) && !WrongCase(s[|s| - 1], small)
  {
    var s', v := s[..|s| - 1], ValueOf(s[|s| - 1]);
    RemainderOf(n, base, Read(s', base), v);
    if |s| > 1 {
      FirstDigit(s[0]);
      Positive(s', base);
    } else {
      assert Read(s', base) == 0;
    }
  }

  lemma RemainderOf(n: nat, base: nat, q: nat, r: nat)
    requires base > 0 && n == base * q + r && r < base
    ensures n / base == q && n % base == r && (n < base <==> q == 0)
  {
    assert base * q == q * base;
    Bits.QuotientUnique(n, base, q, r);
    Bits.MulSpread(q, base);
  }

  lemma FirstDigit(c: char)
    requires IsDigit(c) && c != '0'
    ensures ValueOf(c) > 0
  {
  }

  lemma {:induction false} Positive(s: string, base: nat)
    requires s != "" && ValueOf(s[0]) > 0 && base > 0
    ensures Read(s, base) > 0
  {
    if |s| > 1 {
      Positive(s[..|s| - 1], base);
    }
  }

  lemma SameDigit(c: char, d: char, small: bool)
    requires IsDigit(c) && IsDigit(d) && !WrongCase(c, small) && !WrongCase(d, small) && ValueOf(c) == ValueOf(d)
    ensures c == d
  {
  }

  /** ... so what is asked for determines the whole text. */
  lemma OneText(s: string, t: string, p: Parts, q: Parts, num: int, base: nat, flags: Flags, width: int, precision: int)
    requires 2 <= base <= 16 && Consists(s, p) && Consists(t, q)
    requires Asked(p, num, base, flags) && Padded(p, num, flags, width, precision)
    requires Asked(q, num, base, flags) && Padded(q, num, flags, width, precision)
    ensures s == t
  {
    hide DigitsOf, Repeat;
    SameDigits(p.digits, q.digits, if num >= 0 then num else if flags.signed then -num else num + WORD, base, flags.small);
  }

  /** The character at a place. */
  function CharacterAt(p: Parts, k: nat): char {
    var b, c := p.lead + |p.sign|, p.lead + |p.sign| + |p.prefix|;
    if k < p.lead then ' '
    else if k < b then p.sign[k - p.lead]
    else if k < c then p.prefix[k - b]
    else if k < c + p.zeros then '0'
    else if k < c + p.zeros + |p.digits| then p.digits[k - c - p.zeros]
    else ' '
  }

  lemma CharactersAt(s: string, p: Parts)
    requires Consists(s, p)
    ensures |s| == p.lead + |p.sign| + |p.prefix| + p.zeros + |p.digits| + p.tail
    ensures forall k :: 0 <= k < |s| ==> s[k] == CharacterAt(p, k)
  {
  }

  lemma AskedCharacters(p: Parts, num: int, base: nat, flags: Flags)
    requires Asked(p, num, base, flags)
    ensures p.digits != "" && |p.sign| <= 1
    ensures forall k :: 0 <= k < |p.digits| ==>
              p.digits[k] !in {' ', '-', '+'} && !WrongCase(p.digits[k], flags.small)
    ensures forall k :: 0 <= k < |p.prefix| ==>
              p.prefix[k] !in {' ', '-', '+'} && !WrongCase(p.prefix[k], flags.small)
    ensures forall k :: 0 <= k < |p.sign| ==>
              && (p.sign[k] == ' ' <==> num >= 0 && flags.spacePlus)
              && (p.sign[k] == '-' <==> num < 0 && flags.signed)
              && (p.sign[k] == '+' <==> num >= 0 && flags.forcePlus && !flags.spacePlus)
              && !WrongCase(p.sign[k], flags.small)
    ensures p.sign == "" <==> (if num < 0 then !flags.signed else !flags.spacePlus && !flags.forcePlus)
  {
    hide Read, ValueOf;
    assert forall k :: 0 <= k < |p.digits| ==> IsDigit(p.digits[k]);
  }

  /** Seen character by character: which letters and signs there can be, ... */
  lemma CharactersOf(s: string, p: Parts, num: int, base: nat, flags: Flags)
    requires Consists(s, p) && Asked(p, num, base, flags)
    ensures '-' in s <==> num < 0 && flags.signed
    ensures '+' in s <==> num >= 0 && flags.forcePlus && !flags.spacePlus
    ensures forall k :: 0 <= k < |s| ==> !WrongCase(s[k], flags.small)
  {
    AskedCharacters(p, num, base, flags);
    CharactersAt(s, p);
    hide Consists, Asked;
    if p.sign != "" {
      assert s[p.lead] == p.sign[0];
    }
  }

  /** ... and where there can be spaces. */
  lemma SpacesOf(s: string, p: Parts, num: int, base: nat, flags: Flags, width: int, precision: int)
    requires Consists(s, p) && Asked(p, num, base, flags) && Padded(p, num, flags, width, precision)
    ensures s != ""
    ensures flags.zeroPad ==> forall k :: 0 <= k < |s| && s[k] == ' ' ==> k == 0 && num >= 0 && flags.spacePlus
    ensures !flags.zeroPad && !flags.left ==> s[|s| - 1] != ' '
    ensures !flags.zeroPad && flags.left && s[0] == ' ' ==> num >= 0 && flags.spacePlus
  {
    AskedCharacters(p, num, base, flags);
    CharactersAt(s, p);
    hide Consists, Asked, WrongCase;
  }

  // ----- reading a printed number

  function SkipSpaces(s: string): string {
    if s != "" && s[0] == ' ' then SkipSpaces(s[1..]) else s
  }

  function TakeDigits(s: string): string {
    if s != "" && IsDigit(s[0]) then [s[0]] + TakeDigits(s[1..]) else ""
  }

  /** A reader that knows nothing of flags, width and precision except whether to expect
      a prefix: skip spaces, take a sign, drop the prefix, read digits. */
  function Scan(s: string, base: nat, prefix: nat): int {
    var t := SkipSpaces(s);
    var signed := t != "" && (t[0] == '-' || t[0] == '+');
    var u := if signed then t[1..] else t;
    var v: int := Read(TakeDigits(if prefix <= |u| then u[prefix..] else u), base);
    if signed && t[0] == '-' then -v else v
  }

  lemma {:induction false} SkipRepeat(k: nat, s: string)
    requires s != "" && s[0] != ' '
    ensures SkipSpaces(Repeat(' ', k) + s) == s
  {
    var t := Repeat(' ', k) + s;
    if k > 0 {
      assert t[1..] == Repeat(' ', k - 1) + s;
      SkipRepeat(k - 1, s);
    } else {
      assert t == s;
    }
  }

  lemma {:induction false} TakeAll(s: string, k: nat)
    requires AllDigits(s)
    ensures TakeDigits(s + Repeat(' ', k)) == s
  {
    var t := s + Repeat(' ', k);
    if s != "" {
      assert t[0] == s[0];
      assert t[1..] == s[1..] + Repeat(' ', k);
      TakeAll(s[1..], k);
    } else {
      assert t == Repeat(' ', k);
    }
  }

  lemma ReadBody(num: int, base: nat, flags: Flags)
    requires -WORD < num < WORD && 2 <= base <= 16
    ensures Read(Body(num, base, flags), base) == Magnitude(num, flags)
    ensures Body(num, base, flags) != "" && AllDigits(Body(num, base, flags))
  {
    ReadNumeral(Magnitude(num, flags), base, flags.small);
    if num == 0 {
      assert "0"[..0] == "";
      assert Read("0", base) == base * Read("", base);
    }
  }

  /** What is left after the spaces and the sign: a prefix, digits, spaces. */
  lemma TakeRest(prefix: string, zeros: nat, body: string, tail: nat, base: nat)
    requires body != "" && AllDigits(body)
    requires prefix == "" || IsDigit(prefix[0])
    ensures var rest := prefix + (Repeat('0', zeros) + body + Repeat(' ', tail));
      rest != "" && IsDigit(rest[0]) && Read(TakeDigits(rest[|prefix|..]), base) == Read(body, base)
  {
    hide Read, TakeDigits, Repeat;
    var digits := Repeat('0', zeros) + body;
    var rest := prefix + (digits + Repeat(' ', tail));
    assert rest[|prefix|..] == digits + Repeat(' ', tail);
    assert IsDigit('0');
    TakeAll(digits, tail);
    ReadLeadingZeros(zeros, body, base);
    assert rest[0] == if prefix != "" then prefix[0] else digits[0];
  }

  /** Skipping the spaces of a layout, its sign included when that is a space. */
  lemma SkipLead(lead: nat, sign: string, rest: string)
    requires rest != "" && rest[0] != ' '
    requires sign == "" || sign[0] != ' ' || sign == " "
    ensures SkipSpaces(Repeat(' ', lead) + sign + rest) == (if sign == " " then rest else sign + rest)
  {
    hide SkipSpaces;
    if sign == " " {
      assert Repeat(' ', lead) + sign + rest == Repeat(' ', lead + 1) + rest;
      SkipRepeat(lead + 1, rest);
    } else {
      assert Repeat(' ', lead) + sign + rest == Repeat(' ', lead) + (sign + rest);
      SkipRepeat(lead, sign + rest);
    }
  }

  lemma ScanAfterSkip(s: string, sign: string, rest: string, base: nat, prefix: nat)
    requires sign == "" || sign == " " || sign == "+" || sign == "-"
    requires SkipSpaces(s) == (if sign == " " then rest else sign + rest)
    requires rest != "" && rest[0] != '+' && rest[0] != '-' && prefix <= |rest|
    ensures var v: int := Read(TakeDigits(rest[prefix..]), base);
      Scan(s, base, prefix) == if sign == "-" then -v else v
  {
    hide Read, TakeDigits, SkipSpaces;
    var t := SkipSpaces(s);
    if sign == "+" || sign == "-" {
      assert t[0] == sign[0] && t[1..] == rest;
    } else {
      assert t == rest;
    }
  }

  lemma LayoutParts(lead: nat, sign: string, prefix: string, zeros: nat, body: string, tail: nat)
    ensures Layout(lead, sign, prefix, zeros, body, tail)
         == Repeat(' ', lead) + sign + (prefix + (Repeat('0', zeros) + body + Repeat(' ', tail)))
  {
    hide Repeat;
  }

  lemma ScanLayout(lead: nat, sign: string, prefix: string, zeros: nat, body: string, tail: nat, base: nat)
    requires body != "" && AllDigits(body)
    requires sign == "" || sign == " " || sign == "+" || sign == "-"
    requires prefix == "" || IsDigit(prefix[0])
    ensures Scan(Layout(lead, sign, prefix, zeros, body, tail), base, |prefix|)
         == if sign == "-" then -(Read(body, base) as int) else Read(body, base)
  {
    hide Read, TakeDigits, SkipSpaces, Repeat, AllDigits, Layout, Scan;
    var rest := prefix + (Repeat('0', zeros) + body + Repeat(' ', tail));
    TakeRest(prefix, zeros, body, tail, base);
    LayoutParts(lead, sign, prefix, zeros, body, tail);
    SkipLead(lead, sign, rest);
    ScanAfterSkip(Layout(lead, sign, prefix, zeros, body, tail), sign, rest, base, |prefix|);
  }

  /** Whatever the flags, the width and the precision, the printed text reads back as the
      number; a negative number printed as unsigned reads back modulo the word size. */
  lemma ScanPrinted(num: int, base: nat, flags: Flags, width: int, precision: int)
    requires -WORD < num < WORD && 2 <= base <= 16
    ensures Scan(Printed(num, base, flags, width, precision), base, |Prefix(base, flags)|)
         == if num >= 0 || flags.signed then num else num + WORD
  {
    hide Scan, Layout, Body, Read, Padding;
    var pad := Padding(num, base, flags, width);
    ReadBody(num, base, flags);
    ScanLayout(if flags.zeroPad || flags.left then 0 else pad, Sign(num, flags), Prefix(base, flags),
               Max(precision, 0) + if flags.zeroPad then pad else 0, Body(num, base, flags),
               if !flags.zeroPad && flags.left then pad else 0, base);
  }

  /** The text fills the width exactly, or exceeds it only by what the number itself
      needs, and the zeros of the precision come on top of the width.  The one exception is
      a sign printed for an unsigned conversion, which the width computation forgets. */
  lemma PrintedLength(num: int, base: nat, flags: Flags, width: int, precision: int)
    requires -WORD < num < WORD && 2 <= base <= 16
    ensures |Printed(num, base, flags, width, precision)|
         == Max(width, |Sign(num, flags)| + |Prefix(base, flags)| + |Body(num, base, flags)|) + Max(precision, 0)
      <==> (flags.signed || num < 0 || !(flags.forcePlus || flags.spacePlus)
            || width <= |Prefix(base, flags)| + |Body(num, base, flags)|)
  {
    hide Body, Prefix;
    var lead := if flags.zeroPad || flags.left then 0 else Padding(num, base, flags, width);
    assert |Repeat(' ', lead)| == lead;
  }

  // ----- the code

  function Reversed(s: string): (r: string)
    ensures |r| == |s| && forall k :: 0 <= k < |s| ==> r[k] == s[|s| - 1 - k]
  {
    seq(|s|, k requires 0 <= k < |s| => s[|s| - 1 - k])
  }

  /** strlen of a buffer that holds s and then only zero characters. */
  method Length(str: array<char>, ghost s: string) returns (n: nat)
    requires |s| < str.Length && str[..|s|] == s && '\0' !in s && str[|s|] == '\0'
    ensures n == |s|
  {
    n := 0;
    while str[n] != '\0'
      invariant n <= |s| && (n < |s| ==> str[n] == s[n])
      decreases |s| - n
    {
      n := n + 1;
    }
  }

  lemma ReversedPush(s: string, c: char)
    ensures Reversed(s + [c]) == [c] + Reversed(s)
    ensures Reversed(Reversed(s)) == s
  {
  }

  lemma RepeatAdd(c: char, m: nat, n: nat)
    ensures Repeat(c, m) + Repeat(c, n) == Repeat(c, m + n)
  {
  }

  lemma RepeatClamp(c: char, n: int)
    ensures Repeat(c, n) == Repeat(c, Max(n, 0)) && (n <= 0 ==> Repeat(c, n) == "")
  {
  }

  /** One turn of the conversion loop moves the last digit to the buffer. */
  lemma ConvertStep(n: nat, base: nat, small: bool, done: string)
    requires n > 0 && 2 <= base <= 16
    ensures 0 <= n / base < n && 0 <= n % base < base
    ensures Numeral(n, base, small) + Reversed(done)
         == Numeral(n / base, base, small) + Reversed(done + [Alphabet(small)[n % base]])
    ensures |Numeral(n, base, small)| > 0
  {
    hide Alphabet, Reversed;
    Divide(n, base);
    var q, c := n / base, Alphabet(small)[n % base];
    assert Numeral(n, base, small) == Numeral(q, base, small) + [c];
    ReversedPush(done, c);
    assert Numeral(q, base, small) + [c] + Reversed(done) == Numeral(q, base, small) + ([c] + Reversed(done));
  }

  lemma ConvertEnds(base: nat, small: bool, s: string)
    requires 2 <= base <= 16
    ensures s + Reversed("") == s
    ensures Numeral(0, base, small) + Reversed(s) == Reversed(s)
    ensures Reversed(Reversed(s)) == s
  {
  }

  /** The base conversion loop.  The buffer holds the digits lowest first and has room for
      every 64-bit value: 22 octal digits and a terminator. */
  method Convert(value: nat, base: nat, small: bool) returns (str: array<char>)
    requires value < WORD && 8 <= base <= 16
    ensures fresh(str) && str.Length == BUFFER
    ensures var s := Numeral(value, base, small);
            |s| < BUFFER && str[..|s|] == Reversed(s) && forall k :: |s| <= k < BUFFER ==> str[k] == '\0'
  {
    ghost var all := Numeral(value, base, small);
    WordFits();
    NumeralLength(value, base, small, 22);
    hide Alphabet, Reversed, Numeral, Pow8;
    ConvertEnds(base, small, all);
    str := new char[BUFFER](_ => '\0');
    var divide: nat, i: nat := value, 0;
    assert str[..0] == "";
    while divide > 0
      invariant i <= |all| && all == Numeral(divide, base, small) + Reversed(str[..i])
      invariant forall k :: i <= k < BUFFER ==> str[k] == '\0'
    {
      ConvertStep(divide, base, small, str[..i]);
      ghost var before := str[..i];
      str[i] := Alphabet(small)[divide % base];
      divide := divide / base;
      i := i + 1;
      assert str[..i] == before + [str[i - 1]];
    }
    ConvertEnds(base, small, str[..i]);
  }

  /** The first part of num: the buffer holds the digits of the number, lowest first. */
  method FillBuffer(num: int, base: nat, flags: Flags) returns (str: array<char>)
    requires -WORD / 2 < num < WORD / 2 && 8 <= base <= 16
    ensures var s := Body(num, base, flags);
      |s| < str.Length && str[..|s|] == Reversed(s) && '\0' !in Reversed(s) && str[|s|] == '\0'
  {
    var divide := if num < 0 && flags.signed then -num else if num < 0 then num + WORD else num;
    str := Convert(divide, base, flags.small);
    if num == 0 {
      str[0] := '0';
    }
    ReadBody(num, base, flags);
  }

  /** The padding loop: one character at a time, each counted. */
  method EmitMany(before: string, c: char, n: int) returns (output: string, emitted: nat)
    ensures output == before + Repeat(c, n)
    ensures emitted == Max(n, 0)
  {
    output, emitted := before, 0;
    var k := n;
    while k > 0
      invariant k <= n && (k < 0 ==> n == k) && emitted == n - Max(k, 0) + (if n < 0 then -n else 0)
      invariant output == before + Repeat(c, n - Max(k, 0))
    {
      output, emitted, k := output + [c], emitted + 1, k - 1;
    }
  }

  /** The loop that emits the buffer from its end. */
  method EmitDigits(before: string, str: array<char>, ghost body: string) returns (output: string, emitted: nat)
    requires |body| < str.Length && str[..|body|] == Reversed(body) && '\0' !in Reversed(body) && str[|body|] == '\0'
    ensures output == before + body && emitted == |body|
  {
    output, emitted := before, 0;
    var i := Length(str, Reversed(body));
    while i > 0
      invariant 0 <= i <= |body| && output == before + body[..|body| - i] && emitted == |body| - i
    {
      assert str[i - 1] == str[..|body|][i - 1] == body[|body| - i];
      assert body[..|body| - (i - 1)] == body[..|body| - i] + [str[i - 1]];
      output, emitted, i := output + [str[i - 1]], emitted + 1, i - 1;
    }
  }

  /** Sign and prefix, emitted and counted. */
  method EmitHead(before: string, num: int, base: nat, flags: Flags) returns (output: string, emitted: nat)
    ensures output == before + Sign(num, flags) + Prefix(base, flags)
    ensures emitted == |Sign(num, flags)| + |Prefix(base, flags)|
  {
    var sign: string := "";
    sign := if num < 0 && flags.signed then "-" else sign;
    sign := if num >= 0 && flags.forcePlus then "+" else sign;
    sign := if num >= 0 && flags.spacePlus then " " else sign;
    output, emitted := before + sign, |sign|;
    if flags.prefix && base == 16 {
      output, emitted := output + "0", emitted + 1;
      output, emitted := output + (if flags.small then "x" else "X"), emitted + 1;
    } else if flags.prefix && base == 8 {
      output, emitted := output + "0", emitted + 1;
    }
  }

  /** The space left for padding. */
  method MeasurePadding(num: int, base: nat, flags: Flags, width: int, len: nat) returns (w: nat)
    requires -WORD < num < WORD && 2 <= base <= 16 && len == |Body(num, base, flags)|
    ensures w == Padding(num, base, flags, width)
  {
    hide Body;
    w := 0;
    if flags.prefix && base == 16 {
      w := w + 2;
    } else if flags.prefix && base == 8 {
      w := w + 1;
    }
    if (flags.signed && num < 0) || (flags.signed && flags.forcePlus) || (flags.signed && flags.spacePlus) {
      w := w + 1;
    }
    w := len + w;
    w := if width - w > 0 then width - w else 0;
  }

  /** Everything before the digits: spaces, sign and prefix, precision zeros, padding zeros. */
  method EmitBefore(num: int, base: nat, flags: Flags, w: nat, p: int) returns (output: string, written: nat)
    ensures output == Repeat(' ', if flags.zeroPad || flags.left then 0 else w) + Sign(num, flags)
      + Prefix(base, flags) + Repeat('0', Max(p, 0) + if flags.zeroPad then w else 0)
    ensures written == |output|
  {
    hide Sign, Prefix;
    var emitted;
    output, written := "", 0;
    if !flags.zeroPad && !flags.left {
      output, written := EmitMany(output, ' ', w);
    }
    ghost var lead := Repeat(' ', if flags.zeroPad || flags.left then 0 else w);
    assert output == lead;
    hide Repeat;
    output, emitted := EmitHead(output, num, base, flags);
    written := written + emitted;
    ghost var head := lead + Sign(num, flags) + Prefix(base, flags);
    assert output == head;
    RepeatClamp('0', p);
    output, emitted := EmitMany(output, '0', p);
    written := written + emitted;
    if flags.zeroPad {
      RepeatAdd('0', Max(p, 0), w);
      assert output + Repeat('0', w) == head + Repeat('0', Max(p, 0) + w);
      output, emitted := EmitMany(output, '0', w);
      written := written + emitted;
    }
  }

  /** num: the loops in the order of the code; the output is what is handed to the sink g,
      the result counts the characters.  The smallest long long is excluded, its negation
      overflows. */
  method Num(num: int, base: nat, flags: Flags, width: int, precision: int) returns (written: int, output: string)
    requires -0x8000_0000_0000_0000 < num < 0x8000_0000_0000_0000
    requires base == 8 || base == 10 || base == 16
    ensures output == Printed(num, base, flags, width, precision)
    ensures Formatted(output, num, base, flags, width, precision)
    ensures written == |output|
  {
    hide Numeral, Reversed, Padding, Sign, Prefix, Repeat, Consists, Asked, Padded;
    ghost var parts := PrintedParts(num, base, flags, width, precision);
    var str := FillBuffer(num, base, flags);
    ghost var body := Body(num, base, flags);
    hide Body;
    var p := if precision == -1 then 0 else precision;
    var len := Length(str, Reversed(body));
    var w := MeasurePadding(num, base, flags, width, len);
    var emitted;
    output, written := EmitBefore(num, base, flags, w, p);
    output, emitted := EmitDigits(output, str, body);
    written := written + emitted;
    RepeatClamp(' ', 0);
    if !flags.zeroPad && flags.left {
      output, emitted := EmitMany(output, ' ', w);
      written := written + emitted;
    }
  }
}
