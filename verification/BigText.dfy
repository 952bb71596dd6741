// Big numbers as text: printing in decimal, parsing in any of the supported bases, and the
// round trip between the two.
module BigText {
  import opened Arithmetic
  import opened Digits
  import opened BigNumbers

  // ---------------------------------------------------------------- numerals

  // The value of a digit character, or the base itself for a character that is no digit.
  function DigitValue(c: char, base: nat): (d: nat) {
    var v :=
      if '0' <= c <= '9' then (c - '0') as nat
      else if 'A' <= c <= 'F' then (c - 'A') as nat + 10
      else if 'a' <= c <= 'f' then (c - 'a') as nat + 10
      else base;
    if v >= base then base else v
  }

  function DigitChar(d: nat): (c: char)
    requires d < 10
    ensures DigitValue(c, 10) == d
  {
    '0' + d as char
  }

  const DIGITS := "0123456789abcdef"
  const CAPITALS := "0123456789ABCDEF"

  // What each character stands for: its place among the digits, in either case, where that is
  // below the base; every other character is no digit.
  lemma DigitCharacters(k: nat, base: nat)
    requires k < 16
    ensures DigitValue(DIGITS[k], base) == DigitValue(CAPITALS[k], base) == if k < base then k else base
  {}

  lemma DecimalCharacters(d: nat)
    requires d < 10
    ensures DigitChar(d) == DIGITS[d]
  {}

  lemma NoDigit(c: char, base: nat)
    requires c !in DIGITS && c !in CAPITALS
    ensures DigitValue(c, base) == base
  {
    assert forall k :: 0 <= k < 16 ==> DIGITS[k] in DIGITS && CAPITALS[k] in CAPITALS;
  }

  // The usual decimal numeral of a natural number.
  function Numeral(n: nat): (s: string)
    ensures s != "" && s[0] != '-' && s[0] != '+'
  {
    if n < 10 then [DigitChar(n)] else Numeral(n / 10) + [DigitChar(n % 10)]
  }

  function Decimal(n: int): string {
    if n < 0 then "-" + Numeral(-n) else Numeral(n)
  }

  // The number a run of digit characters stands for, read from the left.
  function Reading(s: string, base: Base): nat {
    if s == "" then 0
    else
      NaturalProduct(base, Reading(s[..|s| - 1], base));
      base * Reading(s[..|s| - 1], base) + DigitValue(s[|s| - 1], base)
  }

  // How many characters from position i on are digits, up to the first that is none.
  function RunEnd(s: string, i: nat, base: Base): (j: nat)
    requires i <= |s|
    ensures i <= j <= |s|
    decreases |s| - i
  {
    if i < |s| && DigitValue(s[i], base) < base then RunEnd(s, i + 1, base) else i
  }

  function SignLength(s: string): (n: nat)
    ensures n <= |s|
  {
    if s != "" && (s[0] == '-' || s[0] == '+') then 1 else 0
  }

  // The integer a string denotes: an optional sign, then digits up to the first other character.
  function Denotes(s: string, base: Base): int {
    var i := SignLength(s);
    var n: int := Reading(s[i..RunEnd(s, i, base)], base);
    if s != "" && s[0] == '-' then -n else n
  }

  // ---------------------------------------------------------------- the round trip

  ghost predicate AllDigits(s: string, base: Base) {
    forall k :: 0 <= k < |s| ==> DigitValue(s[k], base) < base
  }

  lemma {:induction false} NumeralReads(n: nat)
    ensures AllDigits(Numeral(n), 10) && Reading(Numeral(n), 10) == n
  {
    if n < 10 {
      assert Reading("", 10) == 0;
      assert [DigitChar(n)][..0] == "";
    } else {
      NumeralReads(n / 10);
      var s := Numeral(n / 10);
      assert (s + [DigitChar(n % 10)])[..|s|] == s;
    }
  }

  lemma {:induction false} RunToEnd(s: string, i: nat, base: Base)
    requires i <= |s| && AllDigits(s[i..], base)
    ensures RunEnd(s, i, base) == |s|
    decreases |s| - i
  {
    if i < |s| {
      assert s[i] == s[i..][0];
      assert s[i + 1..] == s[i..][1..];
      RunToEnd(s, i + 1, base);
    }
  }

  // What is printed for an integer reads back as that integer.
  lemma PrintedReadsBack(n: int)
    ensures Denotes(Decimal(n), 10) == n
  {
    var s := Decimal(n);
    var m: nat := if n < 0 then -n else n;
    NumeralReads(m);
    var i := SignLength(s);
    assert s[i..] == Numeral(m);
    RunToEnd(s, i, 10);
    assert s[i..|s|] == Numeral(m);
  }

  // No two integers print alike.
  lemma PrintingIsInjective(m: int, n: int)
    requires Decimal(m) == Decimal(n)
    ensures m == n
  {
    PrintedReadsBack(m);
    PrintedReadsBack(n);
  }

  // ---------------------------------------------------------------- printing

  // The digits of c as characters, the highest first.
  function Characters(c: seq<nat>): string
    requires Proper(c, 10)
  {
    if c == [] then "" else Characters(c[1..]) + [DigitChar(c[0])]
  }

  lemma {:induction false} CharactersAreNumeral(c: seq<nat>)
    requires Normal(c, 10)
    ensures Characters(c) == Numeral(Value(c, 10))
  {
    var t := c[1..];
    if t == [] {
      ValueOfOne(c[0], 10);
      assert c == [c[0]];
    } else {
      assert Normal(t, 10);
      CharactersAreNumeral(t);
      ValueAtLeast(t, 10);
      assert Power(10, |t| - 1) >= 1;
      DivModUnique(Value(c, 10), 10, Value(t, 10), c[0]);
    }
  }

  method WriteDigits(digits: seq<nat>) returns (out: string)
    requires Proper(digits, 10)
    ensures out == Characters(digits)
  {
    out := "";
    var ii := |digits|;
    assert digits[ii..] == [];
    while ii > 0
      invariant 0 <= ii <= |digits|
      invariant out == Characters(digits[ii..])
    {
      ii := ii - 1;
      assert digits[ii..][1..] == digits[ii + 1..];
      out := out + [DigitChar(digits[ii])];
    }
    assert digits[0..] == digits;
  }

  method Print(val: BigNum) returns (out: string)
    requires val.Valid()
    ensures out == Decimal(val.Number())
  {
    hide Value, Numeral, Characters;
    val.EmptyIsZero();
    out := if !val.symbol && !val.Empty() then "-" else "";
    var digits := val.content;
    if val.base != 10 {
      var tmp := BigNum.ChangeBase(val, 10);
      digits := tmp.content;
    }
    CharactersAreNumeral(digits);
    var text := WriteDigits(digits);
    out := out + text;
  }

  // ---------------------------------------------------------------- parsing

  function Reversed(v: seq<nat>): (r: seq<nat>)
    ensures |r| == |v|
  {
    if v == [] then [] else [v[|v| - 1]] + Reversed(v[..|v| - 1])
  }

  // The values of the digit characters of s, one by one.
  ghost predicate ReadAs(v: seq<nat>, s: string, base: Base) {
    |v| == |s| && forall k :: 0 <= k < |v| ==> v[k] == DigitValue(s[k], base) < base
  }

  lemma ReadMore(v: seq<nat>, str: string, start: nat, pos: nat, base: Base)
    requires start <= pos < |str| && ReadAs(v, str[start..pos], base) && DigitValue(str[pos], base) < base
    ensures ReadAs(v + [DigitValue(str[pos], base)], str[start..pos + 1], base)
  {
    hide DigitValue;
    assert str[start..pos + 1] == str[start..pos] + [str[pos]];
  }

  lemma {:induction false} ReversedReads(v: seq<nat>, s: string, base: Base)
    requires ReadAs(v, s, base)
    ensures Proper(Reversed(v), base) && Value(Reversed(v), base) == Reading(s, base)
  {
    if v != [] {
      var n := |v| - 1;
      var w, t := v[..n], s[..n];
      hide DigitValue;
      ReversedReads(w, t, base);
      assert Reversed(v) == [v[n]] + Reversed(w);
      assert Reversed(v)[1..] == Reversed(w);
      assert Value(Reversed(v), base) == v[n] + base * Value(Reversed(w), base);
      assert Reading(s, base) == base * Reading(t, base) + DigitValue(s[n], base);
    }
  }

  // The digit loop: values in reading order, up to the first character that is no digit.
  method ReadDigits(str: string, start: nat, strBase: Base) returns (v: seq<nat>)
    requires start <= |str|
    ensures ReadAs(v, str[start..RunEnd(str, start, strBase)], strBase)
  {
    hide DigitValue, RunEnd, ReadAs;
    NothingRead(strBase);
    assert str[start..start] == "";
    v := [];
    var pos := start;
    while pos < |str|
      invariant start <= pos <= |str| && ReadAs(v, str[start..pos], strBase)
      invariant RunEnd(str, start, strBase) == RunEnd(str, pos, strBase)
    {
      RunEndStep(str, pos, strBase);
      var curNum := DigitValue(str[pos], strBase);
      if curNum >= strBase {
        break;
      }
      ReadMore(v, str, start, pos, strBase);
      v := v + [curNum];
      pos := pos + 1;
    }
    RunEndStep(str, pos, strBase);
  }

  lemma NothingRead(base: Base)
    ensures ReadAs([], "", base)
  {}

  lemma RunEndStep(s: string, i: nat, base: Base)
    requires i <= |s|
    ensures RunEnd(s, i, base) == if i < |s| && DigitValue(s[i], base) < base then RunEnd(s, i + 1, base) else i
  {
    hide DigitValue;
  }

  method Parse(str: string, strBase: Base, base: nat) returns (num: BigNum)
    requires base < UINT32_RANGE
    ensures fresh(num) && num.Valid() && num.base == (if base < 2 then strBase else base)
    ensures num.Number() == Denotes(str, strBase)
    ensures num.symbol <==> !(str != "" && str[0] == '-')
  {
    hide Value, Reading, RunEnd, Reversed, ReadAs;
    if str == "" {
      num := new BigNum(0, if base < 2 then strBase else base, 0);
      NothingToRead(strBase);
      return;
    }
    num := new BigNum(0, strBase, 0);
    var pos := if str[0] == '-' || str[0] == '+' then 1 else 0;
    var v := ReadDigits(str, pos, strBase);
    ReversedReads(v, str[pos..RunEnd(str, pos, strBase)], strBase);
    var digits := Reversed(v);
    if digits == [] {
      digits := [0];
      ZeroDigit(strBase);
    }
    digits := Trim(digits, strBase);
    num.symbol := str[0] != '-';
    num.content := digits;
    num.ReBase(base);
  }

  lemma NothingToRead(base: Base)
    ensures Reading("", base) == 0 && RunEnd("", 0, base) == 0
  {}

  lemma ZeroDigit(base: Base)
    ensures Value([0], base) == Value([], base)
  {
    ValueOfOne(0, base);
  }
}
