/** Printing a 64-bit number in a base, with sign, prefix, precision and field width. */
module Numbers {
  import opened Options

  const BUFFER: nat := 50
  const UPPER: string := "0123456789ABCDEFGHIJKLMNOPQRSTUVWXYZ"
  const LOWER: string := "0123456789abcdefghijklmnopqrstuvwxyz"

  /** The bits of the argument `type`. */
  datatype Flags = Flags(zeropad: bool, sign: bool, plus: bool, space: bool, left: bool, special: bool, small: bool)

  type Long = n: int | -0x8000_0000_0000_0000 <= n < 0x8000_0000_0000_0000

  const WORD: nat := 0x1_0000_0000_0000_0000

  /** The number whose digits are printed: the division is unsigned, and negating the least number
      gives itself, which is its own magnitude as an unsigned word. */
  function Magnitude(f: Flags, num: Long): (m: nat)
    ensures m < WORD
  {
    var n: int := num;
    if n >= 0 then n else if f.sign then -n else n + WORD
  }

  function SignOf(f: Flags, num: Long): string {
    if f.sign && num < 0 then "-" else if f.plus then "+" else if f.space then " " else ""
  }

  function CharOf(d: nat, small: bool): char
    requires d < 36
  {
    if small then LOWER[d] else UPPER[d]
  }

  function Prefix(f: Flags, base: int): string {
    if !f.special then "" else if base == 8 then "0" else if base == 16 then ['0', CharOf(33, f.small)] else ""
  }

  /** Digits, most significant first; a single 0 for 0. */
  function Digits(m: nat, base: nat): (ds: seq<nat>)
    requires base >= 2
    ensures |ds| > 0 && forall i :: 0 <= i < |ds| ==> ds[i] < base
  {
    if m < base then [m] else
    Shrinks(m, base);
    Digits(m / base, base) + [m % base]
  }

  lemma Shrinks(m: nat, base: nat)
    requires m > 0 && base >= 2
    ensures 0 <= m / base < m && 0 <= m % base < base
  {
    Quotient(m, base, m);
    Product(2, base, m, m);
    Remainder(m, base);
  }

  function Chars(ds: seq<nat>, small: bool): (s: string)
    requires forall i :: 0 <= i < |ds| ==> ds[i] < 36
    ensures |s| == |ds|
  {
    seq(|ds|, i requires 0 <= i < |ds| => CharOf(ds[i], small))
  }

  function Repeat(c: char, n: int): (s: string)
    ensures |s| == if n > 0 then n else 0
  {
    seq(if n > 0 then n else 0, _ => c)
  }

  function Max(a: int, b: int): int {
    if a > b then a else b
  }

  /** Sign, prefix, zeros up to the precision, digits; the field is filled with spaces before, zeros
      after the prefix, or spaces behind. */
  function Formatted(f: Flags, num: Long, base: nat, size: int, precision: int): string
    requires 2 <= base <= 36
  {
    var ds := Digits(Magnitude(f, num), base);
    var sign, prefix := SignOf(f, num), Prefix(f, base);
    var n := Max(|ds|, precision);
    var fill := size - |sign| - |prefix| - n;
    (if !f.left && !f.zeropad then Repeat(' ', fill) else "") + sign + prefix
    + (if !f.left && f.zeropad then Repeat('0', fill) else "") + Repeat('0', n - |ds|) + Chars(ds, f.small)
    + (if f.left then Repeat(' ', fill) else "")
  }

  // ---- the digit buffer ----

  function Power(base: nat, n: nat): nat {
    if n == 0 then 1 else base * Power(base, n - 1)
  }

  lemma {:induction false} DigitsFit(m: nat, base: nat, n: nat)
    requires base >= 2 && n > 0
    ensures |Digits(m, base)| <= n <==> m < Power(base, n)
  {
    if m < base {
      PowerGrows(base, n);
    } else if n == 1 {
      assert Power(base, 1) == base * Power(base, 0);
    } else {
      DigitsFit(m / base, base, n - 1);
      Quotient(m, base, Power(base, n - 1));
    }
  }

  lemma {:induction false} PowerGrows(base: nat, n: nat)
    requires base >= 2 && n > 0
    ensures Power(base, n) >= base
  {
    if n > 1 {
      PowerGrows(base, n - 1);
      assert base * Power(base, n - 1) >= base * 1;
    }
  }

  lemma Quotient(m: nat, b: nat, p: nat)
    requires b > 0
    ensures m / b < p <==> m < b * p
  {
    var q, r := m / b, m % b;
    assert m == b * q + r;
    if q < p {
      assert b * p >= b * (q + 1);
    } else {
      assert b * q >= b * p;
    }
  }

  lemma {:induction false} PowerIsMonotone(a: nat, b: nat, n: nat)
    requires a <= b
    ensures Power(a, n) <= Power(b, n)
  {
    if n > 0 {
      PowerIsMonotone(a, b, n - 1);
      Product(a, b, Power(a, n - 1), Power(b, n - 1));
    }
  }

  lemma Product(a: nat, b: nat, p: nat, q: nat)
    requires a <= b && p <= q
    ensures a * p <= b * q
  {
    assert b * q == a * p + a * (q - p) + (b - a) * q;
  }

  lemma Powers()
    ensures Power(3, 41) >= WORD
    ensures Power(2, 50) == 0x4_0000_0000_0000
  {
    assert Power(2, 10) == 1024;
    assert Power(2, 20) == 0x10_0000;
    assert Power(2, 30) == 0x4000_0000;
    assert Power(2, 40) == 0x100_0000_0000;
    assert Power(3, 10) == 59049;
    assert Power(3, 20) == 3486784401;
    assert Power(3, 30) == 205891132094649;
    assert Power(3, 40) == 12157665459056928801;
  }

  /** For every 64-bit number: at most 41 digits from base 3 on, and the buffer is large enough unless
      the base is 2 and the number is 2^50 or more. */
  lemma BufferSuffices(m: nat, base: nat)
    requires m < WORD && 2 <= base <= 36
    ensures base >= 3 ==> |Digits(m, base)| <= 41
    ensures |Digits(m, base)| <= BUFFER <==> base >= 3 || m < 0x4_0000_0000_0000
  {
    Powers();
    if base >= 3 {
      PowerIsMonotone(3, base, 41);
      DigitsFit(m, base, 41);
    } else {
      DigitsFit(m, 2, BUFFER);
    }
  }

  // ---- the program ----

  /** `number`: the text that is written, or nothing for a base that is out of range. The digit buffer
      must be large enough. */
  method Number(f: Flags, num: Long, base: int, size: int, precision: int) returns (text: Option<string>)
    requires base == 2 ==> Magnitude(f, num) < 0x4_0000_0000_0000
    ensures text == if 2 <= base <= 36 then Some(Formatted(f, num, base, size, precision)) else None
  {
    hide Digits, Chars, Repeat, Formatted, CharOf, Power, SignOf, Prefix, Magnitude;
    if base < 2 || base > 36 {
      return None;
    }
    ghost var m := Magnitude(f, num);
    ghost var ds := Digits(m, base);
    BufferSuffices(m, base);
    var zeropad := f.zeropad && !f.left;
    var c := if zeropad then '0' else ' ';
    var sign, word := Signed(f, num);
    var left := Room(f, num, base, size, sign);
    var tmp, i := Spelled(f.small, word, base);
    var zeros := Max(i, precision);
    left := left - zeros;
    ghost var fill := left;
    var before, inner, after := "", "", "";
    if !zeropad && !f.left {
      before, left := Padded(' ', left);
    }
    var prefix := Prefixed(f, base);
    if !f.left {
      inner, left := Padded(c, left);
    }
    var leading := Zeros(i, zeros);
    var digits := Emitted(tmp, i, ds, f.small);
    after, left := Padded(' ', left);
    Unpadded();
    text := Some(before + sign + prefix + inner + leading + digits + after);
    Assembled(f, num, base, size, precision, fill, before, inner, after);
  }

  method Signed(f: Flags, num: Long) returns (sign: string, word: nat)
    ensures sign == SignOf(f, num) && word == Magnitude(f, num)
  {
    var value: int := num;
    if f.sign && value < 0 {
      sign := "-";
      word := -value;
    } else {
      sign := if f.plus then "+" else if f.space then " " else "";
      word := if value < 0 then value + WORD else value;
    }
  }

  /** The field width less the sign and the prefix. */
  method Room(f: Flags, num: Long, base: nat, size: int, sign: string) returns (left: int)
    requires sign == SignOf(f, num)
    ensures left == size - |SignOf(f, num)| - |Prefix(f, base)|
  {
    left := size;
    if sign != "" {
      left := left - 1;
    }
    if f.special {
      if base == 16 {
        left := left - 2;
      } else if base == 8 {
        left := left - 1;
      }
    }
  }

  method Prefixed(f: Flags, base: nat) returns (prefix: string)
    ensures prefix == Prefix(f, base)
  {
    prefix := "";
    if f.special {
      if base == 8 {
        prefix := "0";
      } else if base == 16 {
        prefix := ['0', CharOf(33, f.small)];
      }
    }
  }

  lemma Unpadded()
    ensures forall c, n: int :: n <= 0 ==> Repeat(c, n) == ""
  {
  }

  /** The pieces in the order in which they are written. */
  lemma Assembled(f: Flags, num: Long, base: nat, size: int, precision: int, fill: int, before: string,
                  inner: string, after: string)
    requires 2 <= base <= 36
    requires fill == size - |SignOf(f, num)| - |Prefix(f, base)| - Max(|Digits(Magnitude(f, num), base)|, precision)
    requires before == if !f.left && !f.zeropad then Repeat(' ', fill) else ""
    requires inner == if !f.left && f.zeropad then Repeat('0', fill) else ""
    requires after == if f.left then Repeat(' ', fill) else ""
    ensures var ds := Digits(Magnitude(f, num), base);
            Formatted(f, num, base, size, precision) ==
            before + SignOf(f, num) + Prefix(f, base) + inner + Repeat('0', Max(|ds|, precision) - |ds|) + Chars(ds,
                f.small) + after
  {
  }

  lemma Next(s: string, k: nat)
    requires k < |s|
    ensures s[..k + 1] == s[..k] + [s[k]]
  {
  }

  /** The zeros that fill up to the precision, counted down from it. */
  method Zeros(i: int, precision: int) returns (str: string)
    ensures str == Repeat('0', precision - i)
  {
    str := "";
    var left := precision;
    while i < left
      invariant left <= precision && (left < precision ==> i <= left)
      invariant str == Repeat('0', precision - left)
    {
      left := left - 1;
      str := str + "0";
    }
  }

  /** The digits out of the buffer, last one first. */
  method Emitted(tmp: array<char>, count: nat, ghost ds: seq<nat>, small: bool) returns (str: string)
    requires count == |ds| <= tmp.Length && forall i :: 0 <= i < |ds| ==> ds[i] < 36
    requires forall k :: 0 <= k < count ==> tmp[k] == CharOf(ds[count - 1 - k], small)
    ensures str == Chars(ds, small)
  {
    hide CharOf;
    str := "";
    var i := count;
    while i > 0
      invariant 0 <= i <= count
      invariant str == Chars(ds, small)[..count - i]
    {
      i := i - 1;
      Next(Chars(ds, small), count - 1 - i);
      str := str + [tmp[i]];
    }
  }

  /** As many fill characters as the width left over, which ends below zero so that later loops add none. */
  method Padded(c: char, size: int) returns (str: string, size': int)
    ensures str == Repeat(c, size)
    ensures size' == if size > 0 then -1 else size - 1
  {
    str, size' := "", size;
    while size' > 0
      invariant size' <= size && (size' < size ==> size' >= 0)
      invariant str == Repeat(c, size - size')
    {
      str, size' := str + [c], size' - 1;
    }
    size' := size' - 1;
  }

  /** The digits in the buffer, least significant first. */
  method Spelled(small: bool, num: nat, base: nat) returns (tmp: array<char>, i: nat)
    requires 2 <= base <= 36 && |Digits(num, base)| <= BUFFER
    ensures fresh(tmp) && tmp.Length == BUFFER && i == |Digits(num, base)|
    ensures forall k :: 0 <= k < i ==> tmp[k] == CharOf(Digits(num, base)[i - 1 - k], small)
  {
    hide Digits, CharOf, Pending;
    tmp := new char[BUFFER](_ => ' ');
    i := 0;
    NoDigits(base, small);
    if num == 0 {
      tmp[i] := '0';
      i := i + 1;
      return;
    }
    AllPending(num, base);
    ghost var done: seq<nat> := [];
    var n: nat := num;
    while n != 0
      invariant Digits(num, base) == Pending(n, base) + done
      invariant |done| == i <= BUFFER && forall k :: 0 <= k < i ==> done[k] < base
      invariant forall k :: 0 <= k < i ==> tmp[k] == CharOf(done[i - 1 - k], small)
      decreases n
    {
      var digit, rest := n % base, n / base;
      LastDigit(n, base);
      assert Pending(rest, base) + ([digit] + done) == (Pending(rest, base) + [digit]) + done;
      done := [digit] + done;
      tmp[i] := CharOf(digit, small);
      i := i + 1;
      n := rest;
    }
  }

  /** The digits that are still to be found when `n` is left. */
  function Pending(n: nat, base: nat): seq<nat>
    requires base >= 2
  {
    if n == 0 then [] else Digits(n, base)
  }

  lemma NoDigits(base: nat, small: bool)
    requires base >= 2
    ensures Pending(0, base) == [] && Digits(0, base) == [0] && CharOf(0, small) == '0'
  {
  }

  lemma AllPending(n: nat, base: nat)
    requires n > 0 && base >= 2
    ensures Pending(n, base) == Digits(n, base)
  {
  }

  lemma LastDigit(n: nat, base: nat)
    requires n > 0 && base >= 2
    ensures 0 <= n % base < base && 0 <= n / base < n
    ensures Pending(n, base) == Pending(n / base, base) + [n % base]
  {
    Shrinks(n, base);
    Quotient(n, base, 1);
    Remainder(n, base);
  }

  lemma Remainder(n: nat, base: nat)
    requires base > 0
    ensures n == base * (n / base) + n % base && 0 <= n % base < base
    ensures n / base == 0 ==> n % base == n
  {
  }

  // ---- what the text means ----

  /** The length is the field width, or what sign, prefix, digits and precision need if that is more. */
  lemma LengthOfText(f: Flags, num: Long, base: nat, size: int, precision: int)
    requires 2 <= base <= 36
    ensures |Formatted(f, num, base, size, precision)| ==
            Max(size, |SignOf(f, num)| + |Prefix(f, base)| + Max(|Digits(Magnitude(f, num), base)|, precision))
  {
  }

  /** The text starts with `head`, `tail` ends after `need` characters, and the rest is spaces. */
  ghost predicate SpacesBehind(text: string, head: string, tail: string, need: nat) {
    && |head| + |tail| <= need <= |text|
    && head <= text && text[need - |tail|..need] == tail && forall i :: need <= i < |text| ==> text[i] == ' '
  }

  /** The text starts with `head` and ends with `tail`, and all between is zeros. */
  ghost predicate ZerosBetween(text: string, head: string, tail: string) {
    && |head| + |tail| <= |text|
    && head <= text && text[|text| - |tail|..] == tail && forall i :: |head| <= i < |text| - |tail| ==> text[i] == '0'
  }

  /** The text ends with `tail`, `head` starts `need` characters before the end, and spaces come first. */
  ghost predicate SpacesBefore(text: string, head: string, tail: string, need: nat) {
    && |head| + |tail| <= need <= |text|
    && text[|text| - need..][..|head|] == head && text[|text| - |tail|..] == tail
    && forall i :: 0 <= i < |text| - need ==> text[i] == ' '
  }

  /** Where the fill goes and what it is: spaces behind a left-justified text, zeros between prefix and
      digits of a zero-padded one, spaces before sign and prefix otherwise. */
  lemma FillIsOnOneSide(f: Flags, num: Long, base: nat, size: int, precision: int)
    requires 2 <= base <= 36
    ensures var text, ds := Formatted(f, num, base, size, precision), Digits(Magnitude(f, num), base);
            var head, tail := SignOf(f, num) + Prefix(f, base), Chars(ds, f.small);
            var need := |head| + Max(|ds|, precision);
            if f.left then SpacesBehind(text, head, tail, need)
            else if f.zeropad then ZerosBetween(text, head, tail)
            else SpacesBefore(text, head, tail, need)
  {
    hide Digits, CharOf, SignOf, Prefix, Magnitude, Chars, Formatted, SpacesBehind, ZerosBetween, SpacesBefore;
    var ds := Digits(Magnitude(f, num), base);
    var head, tail := SignOf(f, num) + Prefix(f, base), Chars(ds, f.small);
    var fill := size - |head| - Max(|ds|, precision);
    var zeros := Repeat('0', Max(|ds|, precision) - |ds|);
    FormattedParts(f, num, base, size, precision);
    FilledBehind(head, zeros, tail, Repeat(' ', fill));
    FilledInside(head, Repeat('0', fill), zeros, tail);
    FilledBefore(Repeat(' ', fill), head, zeros, tail);
  }

  lemma FilledBehind(head: string, zeros: string, tail: string, fill: string)
    requires forall c :: c in fill ==> c == ' '
    ensures SpacesBehind(head + zeros + tail + fill, head, tail, |head| + |zeros| + |tail|)
  {
    assert forall i :: 0 <= i < |fill| ==> fill[i] in fill;
  }

  lemma FilledInside(head: string, fill: string, zeros: string, tail: string)
    requires (forall c :: c in fill ==> c == '0') && forall c :: c in zeros ==> c == '0'
    ensures ZerosBetween(head + fill + zeros + tail, head, tail)
  {
    assert forall i :: 0 <= i < |fill| ==> fill[i] in fill;
    assert forall i :: 0 <= i < |zeros| ==> zeros[i] in zeros;
  }

  lemma FilledBefore(fill: string, head: string, zeros: string, tail: string)
    requires forall c :: c in fill ==> c == ' '
    ensures SpacesBefore(fill + head + zeros + tail, head, tail, |head| + |zeros| + |tail|)
  {
    assert forall i :: 0 <= i < |fill| ==> fill[i] in fill;
  }

  /** The pieces that are there, for each of the three kinds of field. */
  lemma FormattedParts(f: Flags, num: Long, base: nat, size: int, precision: int)
    requires 2 <= base <= 36
    ensures var text, ds := Formatted(f, num, base, size, precision), Digits(Magnitude(f, num), base);
            var head, tail := SignOf(f, num) + Prefix(f, base), Chars(ds, f.small);
            var fill, zeros := size - |head| - Max(|ds|, precision), Repeat('0', Max(|ds|, precision) - |ds|);
            text == if f.left then head + zeros + tail + Repeat(' ', fill)
                    else if f.zeropad then head + Repeat('0', fill) + zeros + tail
                    else Repeat(' ', fill) + head + zeros + tail
  {
    hide Digits, CharOf, SignOf, Prefix, Magnitude, Chars, Repeat;
    var ds := Digits(Magnitude(f, num), base);
    var fill := size - |SignOf(f, num) + Prefix(f, base)| - Max(|ds|, precision);
    WithoutBlanks(SignOf(f, num), Prefix(f, base), Repeat(if f.zeropad && !f.left then '0' else ' ', fill),
                  Repeat('0', Max(|ds|, precision) - |ds|), Chars(ds, f.small));
  }

  lemma WithoutBlanks(sign: string, prefix: string, fill: string, zeros: string, tail: string)
    ensures "" + sign + prefix + "" + zeros + tail + fill == (sign + prefix) + zeros + tail + fill
    ensures "" + sign + prefix + fill + zeros + tail + "" == (sign + prefix) + fill + zeros + tail
    ensures fill + sign + prefix + "" + zeros + tail + "" == fill + (sign + prefix) + zeros + tail
  {
    assert "" + sign == sign;
    assert sign + prefix + "" == sign + prefix;
    assert fill + sign + prefix == fill + (sign + prefix);
    assert fill + sign + prefix + "" == fill + sign + prefix;
    assert (sign + prefix) + fill + zeros + tail + "" == (sign + prefix) + fill + zeros + tail;
    assert fill + (sign + prefix) + zeros + tail + "" == fill + (sign + prefix) + zeros + tail;
  }

  /** The sign: a minus for a negative number if signs were asked for, else a plus or a space on request. */
  lemma SignText(f: Flags, num: Long)
    ensures SignOf(f, num) == "-" <==> f.sign && num < 0
    ensures SignOf(f, num) == "+" <==> !(f.sign && num < 0) && f.plus
    ensures SignOf(f, num) == " " <==> !(f.sign && num < 0) && !f.plus && f.space
    ensures SignOf(f, num) == "" <==> !(f.sign && num < 0) && !f.plus && !f.space
  {
  }

  /** The prefix: "0" for octal and "0x" or "0X" for hexadecimal numbers if asked for, else nothing. */
  lemma PrefixText(f: Flags, base: int)
    ensures f.special && base == 8 ==> Prefix(f, base) == "0"
    ensures f.special && base == 16 ==> Prefix(f, base) == if f.small then "0x" else "0X"
    ensures !f.special || (base != 8 && base != 16) ==> Prefix(f, base) == ""
  {
    LowerChars(33);
    UpperChars(33);
  }

  /** Digits up to 9 are the same either way; the others are small letters exactly on request. */
  lemma DigitText(d: nat, small: bool)
    requires d < 36
    ensures d < 10 ==> CharOf(d, small) as int == '0' as int + d
    ensures d >= 10 && small ==> 'a' <= CharOf(d, small) <= 'z' && CharOf(d, small) as int == 'a' as int + (d - 10)
    ensures d >= 10 && !small ==> 'A' <= CharOf(d, small) <= 'Z' && CharOf(d, small) as int == 'A' as int + (d - 10)
  {
    LowerChars(d);
    UpperChars(d);
  }

  function ValueOf(c: char): nat {
    if '0' <= c <= '9' then c as int - '0' as int
    else if 'A' <= c <= 'Z' then c as int - 'A' as int + 10
    else if 'a' <= c <= 'z' then c as int - 'a' as int + 10
    else 36
  }

  function SkipSpaces(s: string): string {
    if s != "" && s[0] == ' ' then SkipSpaces(s[1..]) else s
  }

  /** The number spelled by the digits that `s` starts with, after `acc` was read. */
  function ReadDigits(s: string, base: nat, acc: nat): nat {
    if s == "" || ValueOf(s[0]) >= base then acc
    else ReadDigits(s[1..], base, acc * base + ValueOf(s[0]))
  }

  /** Reads a number back: spaces, a sign, the prefix, digits; the rest is ignored. */
  function Read(f: Flags, s: string, base: nat): int {
    var t := SkipSpaces(s);
    var negative := t != "" && t[0] == '-';
    var u := if t != "" && (t[0] == '-' || t[0] == '+') then t[1..] else t;
    var p := if f.special && base == 16 then 2 else if f.special && base == 8 then 1 else 0;
    var v: int := ReadDigits(if p <= |u| then u[p..] else u, base, 0);
    if negative then -v else v
  }

  lemma DigitChars(d: nat, small: bool)
    requires d < 36
    ensures ValueOf(CharOf(d, small)) == d && CharOf(d, small) != ' ' && CharOf(d, small) != '-'
            && CharOf(d, small) != '+'
  {
    if small {
      LowerChars(d);
    } else {
      UpperChars(d);
    }
  }

  lemma LowerChars(d: nat)
    requires d < 36
    ensures LOWER[d] as int == if d < 10 then '0' as int + d else 'a' as int + d - 10
  {
  }

  lemma UpperChars(d: nat)
    requires d < 36
    ensures UPPER[d] as int == if d < 10 then '0' as int + d else 'A' as int + d - 10
  {
  }

  // ---- reading back ----

  /** The digits that a reader finds, after `acc`. */
  function Value(ds: seq<nat>, base: nat, acc: nat): nat {
    if ds == [] then acc else Value(ds[1..], base, acc * base + ds[0])
  }

  lemma {:induction false} ValueOfOneMore(ds: seq<nat>, d: nat, base: nat, acc: nat)
    ensures Value(ds + [d], base, acc) == Value(ds, base, acc) * base + d
  {
    if ds == [] {
      assert (ds + [d])[1..] == [];
    } else {
      assert (ds + [d])[1..] == ds[1..] + [d];
      ValueOfOneMore(ds[1..], d, base, acc * base + ds[0]);
    }
  }

  /** The digits of a number have its value. */
  lemma {:induction false} DigitsHaveValue(m: nat, base: nat)
    requires base >= 2
    ensures Value(Digits(m, base), base, 0) == m
  {
    hide Digits, Value;
    if m == 0 {
      ZeroHasValue(base);
    } else {
      var q, d := m / base, m % base;
      LastDigit(m, base);
      Remainder(m, base);
      DigitsHaveValue(q, base);
      LastDigitCounts(m, q, d, base);
    }
  }

  lemma ZeroHasValue(base: nat)
    requires base >= 2
    ensures Value(Digits(0, base), base, 0) == 0
  {
    assert [0][1..] == [];
  }

  lemma LastDigitCounts(m: nat, q: nat, d: nat, base: nat)
    requires m > 0 && base >= 2 && Pending(m, base) == Pending(q, base) + [d]
    requires Value(Digits(q, base), base, 0) == q && m == base * q + d
    ensures Value(Digits(m, base), base, 0) == m
  {
    hide Digits, Value;
    ValueOfOneMore(Pending(q, base), d, base, 0);
    if q == 0 {
      EmptyValue(base);
    }
  }

  lemma EmptyValue(base: nat)
    ensures Value([], base, 0) == 0
  {
  }

  lemma SpaceIsNoDigit()
    ensures ValueOf(' ') == 36
  {
  }

  /** A reader of digits stops at the end or at a space. */
  lemma {:induction false} CharsAreRead(ds: seq<nat>, small: bool, base: nat, acc: nat, rest: string)
    requires 2 <= base <= 36 && forall i :: 0 <= i < |ds| ==> ds[i] < base
    requires rest == "" || rest[0] == ' '
    ensures ReadDigits(Chars(ds, small) + rest, base, acc) == Value(ds, base, acc)
  {
    hide CharOf, ValueOf;
    var s := Chars(ds, small) + rest;
    if ds == [] {
      assert s == rest;
      if rest != "" {
        SpaceIsNoDigit();
      }
    } else {
      DigitChars(ds[0], small);
      assert s[0] == CharOf(ds[0], small);
      assert s[1..] == Chars(ds[1..], small) + rest;
      CharsAreRead(ds[1..], small, base, acc * base + ds[0], rest);
    }
  }

  lemma {:induction false} ZerosAreNothing(n: int, base: nat, rest: string)
    requires base >= 2
    ensures ReadDigits(Repeat('0', n) + rest, base, 0) == ReadDigits(rest, base, 0)
    decreases if n > 0 then n else 0
  {
    var s := Repeat('0', n) + rest;
    if n > 0 {
      assert s[1..] == Repeat('0', n - 1) + rest;
      ZerosAreNothing(n - 1, base, rest);
    } else {
      assert s == rest;
    }
  }

  lemma {:induction false} SpacesAreSkipped(n: int, rest: string)
    ensures SkipSpaces(Repeat(' ', n) + rest) == SkipSpaces(rest)
    decreases if n > 0 then n else 0
  {
    var s := Repeat(' ', n) + rest;
    if n > 0 {
      assert s[1..] == Repeat(' ', n - 1) + rest;
      SpacesAreSkipped(n - 1, rest);
    } else {
      assert s == rest;
    }
  }

  /** Whatever the flags, the width and the precision, the text reads back as the number that was
      printed: the signed one if signs were asked for, else the unsigned 64-bit word. */
  lemma TextReadsBack(f: Flags, num: Long, base: nat, size: int, precision: int)
    requires 2 <= base <= 36
    ensures Read(f, Formatted(f, num, base, size, precision), base) ==
            if f.sign && num < 0 then num else Magnitude(f, num)
  {
    hide Digits, Chars, Repeat, CharOf, ReadDigits, ValueOf, Value, Read, SkipSpaces, Prefix;
    var m := Magnitude(f, num);
    var ds := Digits(m, base);
    var sign, prefix := SignOf(f, num), Prefix(f, base);
    var n := Max(|ds|, precision);
    var fill := size - |sign| - |prefix| - n;
    var before := if !f.left && !f.zeropad then fill else 0;
    var inner := if !f.left && f.zeropad then fill else 0;
    var after := if f.left then Repeat(' ', fill) else "";
    var digits := Chars(ds, f.small) + after;
    var zeros := Repeat('0', inner) + (Repeat('0', n - |ds|) + digits);
    var body := prefix + zeros;
    Unpadded();
    Regroup(Repeat(' ', before), sign, prefix, Repeat('0', inner), Repeat('0', n - |ds|), Chars(ds, f.small), after);
    assert Formatted(f, num, base, size, precision) == Repeat(' ', before) + (sign + body);
    BodyStarts(f, base, ds, inner, n - |ds|, after, body);
    ReadParts(f, base, before, sign, body);
    assert body[|prefix|..] == zeros;
    ZerosAreNothing(inner, base, Repeat('0', n - |ds|) + digits);
    ZerosAreNothing(n - |ds|, base, digits);
    TrailingSpaces(f, fill, after);
    CharsAreRead(ds, f.small, base, 0, after);
    DigitsHaveValue(m, base);
  }

  lemma Regroup(a: string, b: string, c: string, d: string, e: string, g: string, h: string)
    ensures a + b + c + d + e + g + h == a + (b + (c + (d + (e + (g + h)))))
  {
    assert a + b + c == a + (b + c);
    assert d + e + g + h == d + (e + (g + h));
    assert a + b + c + d + e + g + h == (a + b + c) + (d + e + g + h);
  }

  /** Reading skips the spaces before, takes the sign and drops the prefix. */
  lemma ReadParts(f: Flags, base: nat, before: int, sign: string, body: string)
    requires sign == "" || sign == " " || sign == "+" || sign == "-"
    requires |Prefix(f, base)| <= |body| && body != "" && body[0] != ' ' && body[0] != '-' && body[0] != '+'
    requires SkipSpaces(body) == body
    ensures var v: int := ReadDigits(body[|Prefix(f, base)|..], base, 0);
            Read(f, Repeat(' ', before) + (sign + body), base) == if sign == "-" then -v else v
  {
    hide Repeat, ReadDigits, CharOf;
    SpacesAreSkipped(before, sign + body);
    if sign == " " {
      OneSpace();
      SpacesAreSkipped(1, body);
    } else if sign == "" {
      assert sign + body == body;
    } else {
      assert (sign + body)[1..] == body;
    }
  }

  lemma OneSpace()
    ensures Repeat(' ', 1) == " "
  {
  }

  lemma TrailingSpaces(f: Flags, fill: int, after: string)
    requires after == if f.left then Repeat(' ', fill) else ""
    ensures after == "" || after[0] == ' '
  {
  }

  /** After the sign comes a prefix, a zero or a digit: neither a space nor a sign. */
  lemma BodyStarts(f: Flags, base: nat, ds: seq<nat>, inner: int, zeros: int, after: string, body: string)
    requires 2 <= base <= 36 && |ds| > 0 && forall i :: 0 <= i < |ds| ==> ds[i] < base
    requires body == Prefix(f, base) + (Repeat('0', inner) + (Repeat('0', zeros) + (Chars(ds, f.small) + after)))
    ensures body != "" && body[0] != ' ' && body[0] != '-' && body[0] != '+'
    ensures SkipSpaces(body) == body
  {
    DigitChars(ds[0], f.small);
  }
}
