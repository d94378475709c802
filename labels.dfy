/** Row identifiers: a prefix of capital letters followed by a three-digit,
    zero-padded number ("A001", "AZ999"), and next_id, which hands out the
    identifier that follows a given one. */
module Labels {
  import opened Numerals

  datatype Option<T> = None | Some(value: T)

  // Decimal digits: int() of a digit string and the "03d" format.

  predicate IsDigit(c: char) { '0' <= c <= '9' }

  predicate AllDigits(s: string) { forall i :: 0 <= i < |s| ==> IsDigit(s[i]) }

  function Pow10(k: nat): nat
  {
    if k == 0 then 1 else 10 * Pow10(k - 1)
  }

  /** The number an ASCII digit string denotes, as int() reads it. */
  function DigitsValue(s: string): (n: nat)
    requires AllDigits(s)
    ensures n < Pow10(|s|)
  {
    if s == [] then 0 else 10 * DigitsValue(s[..|s| - 1]) + DigitValue(s[|s| - 1])
  }

  function Digit(d: nat): char
    requires d < 10
  {
    (('0' as int) + d) as char
  }

  function DigitValue(c: char): nat
    requires IsDigit(c)
  {
    (c as int) - ('0' as int)
  }

  /** A three-digit string read positionally. */
  lemma DigitsValueOfThree(s: string)
    requires |s| == 3 && AllDigits(s)
    ensures DigitsValue(s) == 100 * DigitValue(s[0]) + 10 * DigitValue(s[1]) + DigitValue(s[2])
  {
    var t := s[..2];
    assert t[..1][..0] == [];
    assert DigitsValue(t[..1]) == DigitValue(s[0]);
    assert DigitsValue(t) == 10 * DigitValue(s[0]) + DigitValue(s[1]);
  }

  /** n written with three digits, zero-padded on the left. */
  function Pad3(n: nat): (s: string)
    requires n < 1000
    ensures |s| == 3
  {
    [Digit(n / 100), Digit(n / 10 % 10), Digit(n % 10)]
  }

  /** The three digits read back as n. */
  lemma Pad3Digits(n: nat)
    requires n < 1000
    ensures AllDigits(Pad3(n)) && DigitsValue(Pad3(n)) == n
  {
    DigitsValueOfThree(Pad3(n));
  }

  /** Formatting a three-digit string's value gives the string back. */
  lemma Pad3OfDigits(s: string)
    requires |s| == 3 && AllDigits(s)
    ensures Pad3(DigitsValue(s)) == s
  {
    DigitsValueOfThree(s);
    var n := DigitsValue(s);
    var a, b, c := DigitValue(s[0]), DigitValue(s[1]), DigitValue(s[2]);
    DivMod100(a, 10 * b + c);
    DivMod10(10 * a + b, c);
    DivMod10(a, b);
    assert Digit(a) == s[0] && Digit(b) == s[1] && Digit(c) == s[2];
    assert Pad3(n) == [Digit(a), Digit(b), Digit(c)];
  }

  // DivMod10 and DivMod100 hold without proof; they are stated separately so
  // that the division steps above use literal divisors and stay cheap.

  lemma DivMod10(q: int, r: int)
    requires 0 <= r < 10
    ensures (10 * q + r) / 10 == q && (10 * q + r) % 10 == r
  {
  }

  lemma DivMod100(q: int, r: int)
    requires 0 <= r < 100
    ensures (100 * q + r) / 100 == q
  {
  }

  // The two halves of an identifier, split the way next_id splits it.

  /** Everything but the last three characters (empty if there are fewer). */
  function PrefixPart(s: string): (p: string)
    ensures |p| == if |s| >= 3 then |s| - 3 else 0
  {
    if |s| >= 3 then seq(|s| - 3, i requires 0 <= i < |s| - 3 => s[i]) else []
  }

  /** The last three characters (all of s if it is shorter). */
  function SuffixPart(s: string): string
  {
    if |s| >= 3 then [s[|s| - 3], s[|s| - 2], s[|s| - 1]] else s
  }

  /** A non-empty identifier whose prefix is capital letters and whose last
      three characters are ASCII digits. next_id takes every such identifier
      apart without raising; it also takes apart some others (see Accepted). */
  predicate Parsable(s: string)
  {
    s != [] && AllUpper(PrefixPart(s)) && AllDigits(SuffixPart(s))
  }

  /** The inputs of next_id this model covers: nothing, the empty string, or a
      parsable identifier. next_id handles these and more: int() also reads
      signs and spaces (" 12" gives "013"), and a prefix of other letters is
      carried character by character ("a005" gives "a006"). On yet others, such
      as "ID", int() raises. Both kinds lie outside this predicate. */
  predicate Accepted(last: Option<string>)
  {
    last.None? || last.value == [] || Parsable(last.value)
  }

  /** An identifier as the log writes it: letters, then exactly three digits, 001 to 999. */
  predicate WellFormed(s: string)
  {
    |s| >= 3 && Parsable(s) && SuffixPart(s) != "000"
  }

  /** An identifier taken apart: its letter prefix and its number. */
  datatype Label = Label(prefix: string, number: nat)

  predicate ValidLabel(l: Label)
  {
    AllUpper(l.prefix) && 1 <= l.number <= 999
  }

  function Parse(s: string): (l: Label)
    requires Parsable(s)
    ensures AllUpper(l.prefix) && l.number <= 999
  {
    assert Pow10(|SuffixPart(s)|) <= 1000 by {
      assert |SuffixPart(s)| <= 3;
      assert Pow10(3) == 1000 && Pow10(2) == 100 && Pow10(1) == 10 && Pow10(0) == 1;
    }
    Label(PrefixPart(s), DigitsValue(SuffixPart(s)))
  }

  function Format(l: Label): string
    requires l.number <= 999
  {
    l.prefix + Pad3(l.number)
  }

  /** Taking apart what Format writes gives the label back. */
  lemma ParseFormat(l: Label)
    requires AllUpper(l.prefix) && l.number <= 999
    ensures |Format(l)| >= 3 && Parsable(Format(l)) && Parse(Format(l)) == l
  {
    var s := Format(l);
    Pad3Digits(l.number);
    assert PrefixPart(s) == l.prefix && SuffixPart(s) == Pad3(l.number);
  }

  /** Writing out a taken-apart identifier of three or more characters gives it back. */
  lemma FormatOfParse(s: string)
    requires Parsable(s) && |s| >= 3
    ensures Format(Parse(s)) == s
  {
    Pad3OfDigits(SuffixPart(s));
    assert s == PrefixPart(s) + SuffixPart(s);
  }

  /** The order in which identifiers are handed out: by prefix length, then
      prefix in dictionary order, then number. */
  predicate Precedes(a: Label, b: Label)
  {
    ShortLex(a.prefix, b.prefix) || (a.prefix == b.prefix && a.number < b.number)
  }

  // Identifiers as a counter: "001".."999" are 0..998, "A001" is 999, and so on.

  function Encode(k: nat): (l: Label)
    ensures ValidLabel(l)
  {
    Label(Numeral(k / 999), k % 999 + 1)
  }

  function Decode(l: Label): nat
    requires ValidLabel(l)
  {
    Value(l.prefix) * 999 + l.number - 1
  }

  lemma DecodeEncode(k: nat)
    ensures Decode(Encode(k)) == k
  {
    ValueOfNumeral(k / 999);
  }

  lemma EncodeDecode(l: Label)
    requires ValidLabel(l)
    ensures Encode(Decode(l)) == l
  {
    var k := Decode(l);
    assert k / 999 == Value(l.prefix);
    assert k % 999 == l.number - 1;
    NumeralOfValue(l.prefix);
  }

  /** The order identifiers are handed out in is the order of their counters. */
  lemma PrecedesIffDecode(a: Label, b: Label)
    requires ValidLabel(a) && ValidLabel(b)
    ensures Precedes(a, b) <==> Decode(a) < Decode(b)
  {
    ShortLexIffValue(a.prefix, b.prefix);
    if Value(a.prefix) == Value(b.prefix) {
      ValueInjective(a.prefix, b.prefix);
    }
  }

  /** The identifier after l: the number goes up by one, and after 999 it
      restarts at 1 under the next prefix. */
  function Successor(l: Label): (r: Label)
    requires AllUpper(l.prefix) && l.number <= 999
    ensures ValidLabel(r)
  {
    if l.number < 999 then Label(l.prefix, l.number + 1)
    else Label(NextPrefix(l.prefix), 1)
  }

  /** The successor is one step up the counter, and so comes later in the order. */
  lemma SuccessorCounts(l: Label)
    requires ValidLabel(l)
    ensures Decode(Successor(l)) == Decode(l) + 1
    ensures Precedes(l, Successor(l))
  {
    if l.number == 999 {
      NextPrefixValue(l.prefix);
    }
    PrecedesIffDecode(l, Successor(l));
  }

  const FIRST: Label := Label("A", 1)

  /** The parts of what next_id returns: the first label for nothing or the
      empty string, otherwise the successor of the label it is given. */
  function NextParts(last: Option<string>): (l: Label)
    requires Accepted(last)
    ensures ValidLabel(l)
  {
    if last.None? || last.value == [] then FIRST else Successor(Parse(last.value))
  }

  /** What next_id returns. */
  function NextLabel(last: Option<string>): string
    requires Accepted(last)
  {
    Format(NextParts(last))
  }

  /** The carry loop of next_id: count a non-empty letter prefix up by one,
      working on it as a character array from the rightmost letter. */
  method IncrementPrefix(prefix: string) returns (next: string)
    requires AllUpper(prefix) && prefix != []
    ensures next == NextPrefix(prefix)
  {
    var a := new char[|prefix|](j requires 0 <= j < |prefix| => prefix[j]);
    var i := a.Length - 1;
    while i >= 0
      invariant -1 <= i < a.Length == |prefix|
      invariant forall j :: 0 <= j <= i ==> a[j] == prefix[j]
      invariant forall j :: i < j < a.Length ==> a[j] == 'A' && prefix[j] == 'Z'
    {
      if a[i] != 'Z' {
        a[i] := ((a[i] as int) + 1) as char;
        break;
      } else {
        a[i] := 'A';
        i := i - 1;
      }
    }
    var k := a.Length - 1 - i;
    if i < 0 {
      // the carry ran off the left end: a new leading A
      next := ['A'] + a[..];
      assert prefix == Repeat('Z', k) && next == Repeat('A', k + 1);
      NextPrefixAllZ(k);
    } else {
      next := a[..];
      assert prefix == prefix[..i] + [prefix[i]] + Repeat('Z', k);
      assert next == prefix[..i] + [((prefix[i] as int) + 1) as char] + Repeat('A', k);
      NextPrefixShape(prefix[..i], prefix[i], k);
    }
  }

  /** next_id: split off the three-digit number, add one, and when it passes
      999 restart it at 1 and count the letter prefix up. */
  method NextId(last: Option<string>) returns (r: string)
    requires Accepted(last)
    ensures r == NextLabel(last)
  {
    if last.None? || last.value == [] {
      return "A001";
    }
    var s := last.value;
    var prefix := PrefixPart(s);
    var number := DigitsValue(SuffixPart(s));
    number := number + 1;
    if number > 999 {
      number := 1;
      if prefix == [] {
        prefix := "A";
      } else {
        prefix := IncrementPrefix(prefix);
      }
    }
    r := prefix + Pad3(number);
  }

  /** The sequence starts at A001, whether there is no identifier or an empty one. */
  lemma FirstLabel()
    ensures NextLabel(None) == "A001" && NextLabel(Some("")) == "A001"
  {
    assert Pad3(1) == "001";
  }

  /** Within a prefix the number goes up by one and the prefix stays
      (A001 is followed by A002, AB041 by AB042). */
  lemma NextLabelWithinPrefix(p: string, n: nat)
    requires AllUpper(p) && n < 999
    ensures Accepted(Some(p + Pad3(n))) && NextLabel(Some(p + Pad3(n))) == p + Pad3(n + 1)
  {
    ParseFormat(Label(p, n));
  }

  /** After 999 the number restarts at 001 under the next prefix
      (A999 is followed by B001, ZZ999 by AAA001). */
  lemma RolloverOf(prefix: string)
    requires AllUpper(prefix)
    ensures Parsable(prefix + "999") && NextLabel(Some(prefix + "999")) == NextPrefix(prefix) + "001"
  {
    var s := prefix + "999";
    assert PrefixPart(s) == prefix && SuffixPart(s) == "999";
    DigitsValueOfThree("999");
    assert Pad3(1) == "001";
  }

  /** The labels handed out one after another from l: Successor applied k times. */
  function Iterate(l: Label, k: nat): (r: Label)
    requires ValidLabel(l)
    ensures ValidLabel(r)
  {
    if k == 0 then l else Successor(Iterate(l, k - 1))
  }

  /** k successors move k steps up the counter. */
  lemma {:induction false} IterateCounts(l: Label, k: nat)
    requires ValidLabel(l)
    ensures Decode(Iterate(l, k)) == Decode(l) + k
  {
    if k != 0 {
      IterateCounts(l, k - 1);
      SuccessorCounts(Iterate(l, k - 1));
    }
  }

  /** Labels handed out later come later in the order, and are written differently. */
  lemma IterateIncreases(l: Label, i: nat, j: nat)
    requires ValidLabel(l) && i < j
    ensures Precedes(Iterate(l, i), Iterate(l, j))
    ensures Format(Iterate(l, i)) != Format(Iterate(l, j))
  {
    IterateCounts(l, i);
    IterateCounts(l, j);
    PrecedesIffDecode(Iterate(l, i), Iterate(l, j));
    ParseFormat(Iterate(l, i));
    ParseFormat(Iterate(l, j));
  }

  /** An identifier as the log writes it, taken apart, is a valid label that
      writes back to it; and every valid label is written well-formed. */
  lemma WellFormedParse(s: string)
    requires WellFormed(s)
    ensures ValidLabel(Parse(s)) && Format(Parse(s)) == s
  {
    Pad3OfDigits(SuffixPart(s));
    FormatOfParse(s);
  }

  lemma FormatWellFormed(l: Label)
    requires ValidLabel(l)
    ensures WellFormed(Format(l))
  {
    ParseFormat(l);
    Pad3Digits(l.number);
    var s := Format(l);
    assert SuffixPart(s) == Pad3(l.number);
    if SuffixPart(s) == "000" {
      DigitsValueOfThree("000");
    }
  }

  /** next_id of a written identifier is the written successor: the string
      operation follows the label operation. */
  lemma NextLabelOfFormat(l: Label)
    requires ValidLabel(l)
    ensures Accepted(Some(Format(l)))
    ensures NextLabel(Some(Format(l))) == Format(Successor(l))
  {
    ParseFormat(l);
  }

  /** From a fresh start the k-th label handed out is counter 999 + k:
      A001, ..., A999, B001, ..., Z999, AA001, ... with nothing skipped. */
  lemma FreshSequence(k: nat)
    ensures Format(Iterate(NextParts(None), k)) == Format(Encode(999 + k))
    ensures Format(Iterate(NextParts(None), 0)) == NextLabel(None)
  {
    assert Numeral(1) == Numeral(0) + [Letter(0)];
    assert Encode(999) == FIRST;
    DecodeEncode(999);
    IterateCounts(FIRST, k);
    EncodeDecode(Iterate(FIRST, k));
  }

  /** Two identifiers as the log writes them, the first one handed out before the second. */
  predicate IdentsInOrder(a: string, b: string)
  {
    WellFormed(a) && WellFormed(b) && Precedes(Parse(a), Parse(b))
  }

  /** Labels handed out earlier are well formed and read back as earlier labels. */
  lemma FormattedIncrease(l: Label, i: nat, j: nat, a: string, b: string)
    requires ValidLabel(l) && i < j && a == Format(Iterate(l, i)) && b == Format(Iterate(l, j))
    ensures IdentsInOrder(a, b)
  {
    IterateIncreases(l, i, j);
    ParseFormat(Iterate(l, i));
    ParseFormat(Iterate(l, j));
    FormatWellFormed(Iterate(l, i));
    FormatWellFormed(Iterate(l, j));
  }

  /** The identifier next_id hands out after a well-formed one is well formed
      and comes after it: resuming a saved sheet continues its order. */
  lemma NextLabelFollows(s: string)
    requires WellFormed(s)
    ensures WellFormed(NextLabel(Some(s))) && IdentsInOrder(s, NextLabel(Some(s)))
  {
    WellFormedParse(s);
    var next := Successor(Parse(s));
    SuccessorCounts(Parse(s));
    ParseFormat(next);
    FormatWellFormed(next);
  }

  /** Handing out identifiers in order is transitive. */
  lemma IdentsInOrderTransitive(a: string, b: string, c: string)
    requires IdentsInOrder(a, b) && IdentsInOrder(b, c)
    ensures IdentsInOrder(a, c)
  {
    WellFormedParse(a);
    WellFormedParse(b);
    WellFormedParse(c);
    PrecedesIffDecode(Parse(a), Parse(b));
    PrecedesIffDecode(Parse(b), Parse(c));
    PrecedesIffDecode(Parse(a), Parse(c));
  }
}
