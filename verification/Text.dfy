/** Strings: searching, splitting, joining, and numerals. */
module Text {

  datatype Option<+T> = None | Some(value: T)

  /** `i` is the first index at or after `from` whose character satisfies `p`, or `|s|` when there is none. */
  predicate IsFirst(s: string, p: char -> bool, from: nat, i: nat)
    requires from <= |s|
  {
    from <= i <= |s| && (i < |s| ==> p(s[i])) && forall k :: from <= k < i ==> !p(s[k])
  }

  lemma FirstExists(s: string, p: char -> bool, from: nat)
    requires from <= |s|
    ensures exists i :: IsFirst(s, p, from, i)
    decreases |s| - from
  {
    if from == |s| || p(s[from]) {
      assert IsFirst(s, p, from, from);
    } else {
      FirstExists(s, p, from + 1);
      var i :| IsFirst(s, p, from + 1, i);
      assert IsFirst(s, p, from, i);
    }
  }

  /** find_first_of and find_first_not_of, with `|s|` standing for npos. */
  function FindFirst(s: string, p: char -> bool, from: nat): (i: nat)
    requires from <= |s|
    ensures IsFirst(s, p, from, i)
  {
    FirstExists(s, p, from);
    var i: nat :| i <= |s| && IsFirst(s, p, from, i);
    i
  }

  function IndexOf(s: string, c: char): (i: nat)
    ensures i <= |s|
    ensures i < |s| ==> s[i] == c
    ensures c !in s[..i]
    ensures i == |s| <==> c !in s
  {
    FindFirst(s, x => x == c, 0)
  }

  /** Where the first `c` stands, known from what is around it. */
  lemma IndexOfAt(a: string, c: char, b: string)
    requires c !in a
    ensures IndexOf(a + [c] + b, c) == |a|
  {
    var s := a + [c] + b;
    assert s[|a|] == c;
    assert forall k :: 0 <= k < |a| ==> s[k] == a[k];
    var i := IndexOf(s, c);
    assert forall j :: |a| < j <= |s| ==> s[..j][|a|] == c;
  }

  function Join(parts: seq<string>, sep: char): string {
    if |parts| == 0 then ""
    else if |parts| == 1 then parts[0]
    else parts[0] + [sep] + Join(parts[1..], sep)
  }

  function Split(s: string, sep: char): seq<string>
    decreases |s|
  {
    var i := IndexOf(s, sep);
    if i == |s| then [s] else [s[..i]] + Split(s[i + 1..], sep)
  }

  lemma {:induction false} SplitJoin(parts: seq<string>, sep: char)
    requires |parts| > 0
    requires forall i :: 0 <= i < |parts| ==> sep !in parts[i]
    ensures Split(Join(parts, sep), sep) == parts
  {
    if |parts| == 1 {
      assert sep !in parts[0];
    } else {
      var tail := Join(parts[1..], sep);
      IndexOfAt(parts[0], sep, tail);
      assert Join(parts, sep)[|parts[0]| + 1..] == tail;
      assert Join(parts, sep)[..|parts[0]|] == parts[0];
      SplitJoin(parts[1..], sep);
    }
  }

  /** Appending one more part to a joined text. */
  lemma {:induction false} JoinSnoc(parts: seq<string>, last: string, sep: char)
    requires |parts| > 0
    ensures Join(parts + [last], sep) == Join(parts, sep) + [sep] + last
  {
    if |parts| == 1 {
      assert (parts + [last])[1..] == [last];
    } else {
      assert (parts + [last])[1..] == parts[1..] + [last];
      JoinSnoc(parts[1..], last, sep);
    }
  }

  // ---- Numerals ----

  datatype Base = Decimal | Hex {
    function Radix(): nat { if Hex? then 16 else 10 }
    function Quotient(n: nat): nat { if Hex? then n / 16 else n / 10 }
    function Remainder(n: nat): nat { if Hex? then n % 16 else n % 10 }
    function Shifted(n: nat, d: nat): nat { if Hex? then n * 16 + d else n * 10 + d }
  }

  const DIGITS: string := "0123456789abcdef"

  /** What std::to_string (Decimal) and a stream in std::hex mode (Hex) write for a non-negative number. */
  function Numeral(n: nat, base: Base): (s: string)
    ensures |s| > 0
  {
    if n < base.Radix() then [DIGITS[n]] else Numeral(base.Quotient(n), base) + [DIGITS[base.Remainder(n)]]
  }

  function DigitValue(c: char): Option<nat> {
    if '0' <= c <= '9' then Some(c as nat - '0' as nat)
    else if 'a' <= c <= 'f' then Some(c as nat - 'a' as nat + 10)
    else None
  }

  predicate IsDigit(c: char, base: Base) {
    DigitValue(c).Some? && DigitValue(c).value < base.Radix()
  }

  predicate AllDigits(s: string, base: Base) {
    forall i :: 0 <= i < |s| ==> IsDigit(s[i], base)
  }

  /** The number a string of digits denotes. */
  function NumeralValue(s: string, base: Base): nat
    requires AllDigits(s, base)
  {
    if s == "" then 0
    else base.Shifted(NumeralValue(s[..|s| - 1], base), DigitValue(s[|s| - 1]).value)
  }

  lemma DigitRoundTrip(d: nat)
    requires d < 16
    ensures DigitValue(DIGITS[d]) == Some(d)
  {
    assert DIGITS[0] == '0' && DIGITS[1] == '1' && DIGITS[2] == '2' && DIGITS[3] == '3';
    assert DIGITS[4] == '4' && DIGITS[5] == '5' && DIGITS[6] == '6' && DIGITS[7] == '7';
    assert DIGITS[8] == '8' && DIGITS[9] == '9' && DIGITS[10] == 'a' && DIGITS[11] == 'b';
    assert DIGITS[12] == 'c' && DIGITS[13] == 'd' && DIGITS[14] == 'e' && DIGITS[15] == 'f';
  }

  lemma ValueSnoc(s: string, d: nat, base: Base)
    requires d < base.Radix() && AllDigits(s, base)
    ensures AllDigits(s + [DIGITS[d]], base)
    ensures NumeralValue(s + [DIGITS[d]], base) == base.Shifted(NumeralValue(s, base), d)
  {
    DigitRoundTrip(d);
    var t := s + [DIGITS[d]];
    assert t[..|t| - 1] == s;
  }

  lemma {:induction false} NumeralRoundTrip(n: nat, base: Base)
    ensures AllDigits(Numeral(n, base), base)
    ensures NumeralValue(Numeral(n, base), base) == n
    decreases n
  {
    if n < base.Radix() {
      ValueSnoc("", n, base);
      assert "" + [DIGITS[n]] == Numeral(n, base);
    } else {
      NumeralRoundTrip(base.Quotient(n), base);
      ValueSnoc(Numeral(base.Quotient(n), base), base.Remainder(n), base);
    }
  }

  /** Decimal notation: the digits are '0' to '9', the first ones stand for the tens. */
  lemma DecimalNotation(n: nat, d: nat)
    requires d < 10
    ensures Numeral(d, Decimal) == [('0' as int + d) as char]
    ensures n > 0 ==> Numeral(n * 10 + d, Decimal) == Numeral(n, Decimal) + [('0' as int + d) as char]
  {
    DigitRoundTrip(d);
    assert (n * 10 + d) / 10 == n && (n * 10 + d) % 10 == d;
  }

  /** Hexadecimal notation, in lower case. */
  lemma HexNotation(n: nat, d: nat)
    requires d < 16
    ensures var digit := if d < 10 then ('0' as int + d) as char else ('a' as int + (d - 10)) as char;
      && Numeral(d, Hex) == [digit]
      && (n > 0 ==> Numeral(n * 16 + d, Hex) == Numeral(n, Hex) + [digit])
  {
    DigitRoundTrip(d);
    assert (n * 16 + d) / 16 == n && (n * 16 + d) % 16 == d;
  }
}
