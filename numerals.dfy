/** The letter prefix of a label read as a bijective base-26 numeral:
    the letters A..Z are the digits 1..26, the rightmost letter is the least
    significant, and the empty prefix is zero. Incrementing a prefix "like a
    counter" (Z rolls over to A with a carry, a carry off the left end adds
    a new leading A) is adding one to this number. */
module Numerals {

  predicate IsUpper(c: char) { 'A' <= c <= 'Z' }

  predicate AllUpper(s: string) { forall i :: 0 <= i < |s| ==> IsUpper(s[i]) }

  /** Digit value of a letter: A is 1, Z is 26. */
  function LetterValue(c: char): nat
    requires IsUpper(c)
  {
    (c as int) - ('A' as int) + 1
  }

  /** The letter for the digit d + 1 (d = 0 is A, d = 25 is Z). */
  function Letter(d: nat): char
    requires d < 26
  {
    (('A' as int) + d) as char
  }

  /** The number a prefix of capital letters denotes. */
  function Value(p: string): nat
    requires AllUpper(p)
  {
    if p == [] then 0 else 26 * Value(p[..|p| - 1]) + LetterValue(p[|p| - 1])
  }

  /** The prefix that denotes n: the inverse of Value. */
  function Numeral(n: nat): (p: string)
    ensures AllUpper(p)
  {
    if n == 0 then [] else Numeral((n - 1) / 26) + [Letter((n - 1) % 26)]
  }

  lemma {:induction false} ValueOfNumeral(n: nat)
    ensures Value(Numeral(n)) == n
  {
    if n != 0 {
      var q := Numeral((n - 1) / 26);
      var p := Numeral(n);
      assert p == q + [Letter((n - 1) % 26)];
      assert p[..|p| - 1] == q;
      ValueOfNumeral((n - 1) / 26);
    }
  }

  lemma {:induction false} NumeralOfValue(p: string)
    requires AllUpper(p)
    ensures Numeral(Value(p)) == p
  {
    if p != [] {
      var u := p[..|p| - 1];
      var d := LetterValue(p[|p| - 1]);
      assert Value(p) - 1 == 26 * Value(u) + (d - 1);
      assert (Value(p) - 1) / 26 == Value(u);
      assert (Value(p) - 1) % 26 == d - 1;
      NumeralOfValue(u);
      assert p == u + [p[|p| - 1]];
    }
  }

  /** Two prefixes denoting the same number are the same prefix. */
  lemma ValueInjective(p: string, q: string)
    requires AllUpper(p) && AllUpper(q) && Value(p) == Value(q)
    ensures p == q
  {
    NumeralOfValue(p);
    NumeralOfValue(q);
  }

  /** The carry increment of a prefix: the last letter goes up by one; a Z
      turns into A and carries into the letters before it; a carry off the
      left end (or an empty prefix) gives a new leading A. */
  function NextPrefix(p: string): (q: string)
    requires AllUpper(p)
    ensures AllUpper(q) && q != []
  {
    if p == [] then ['A']
    else if p[|p| - 1] != 'Z' then p[..|p| - 1] + [((p[|p| - 1] as int) + 1) as char]
    else NextPrefix(p[..|p| - 1]) + ['A']
  }

  /** The carry increment adds one to the number a prefix denotes. */
  lemma {:induction false} NextPrefixValue(p: string)
    requires AllUpper(p)
    ensures Value(NextPrefix(p)) == Value(p) + 1
  {
    if p != [] {
      var u := p[..|p| - 1];
      var q := NextPrefix(p);
      if p[|p| - 1] != 'Z' {
        assert q[..|q| - 1] == u;
      } else {
        assert q[..|q| - 1] == NextPrefix(u);
        NextPrefixValue(u);
      }
    }
  }

  /** The carry increment agrees with counting: it yields the numeral of the
      prefix's value plus one. */
  lemma NextPrefixIsNumeral(p: string)
    requires AllUpper(p)
    ensures NextPrefix(p) == Numeral(Value(p) + 1)
  {
    NextPrefixValue(p);
    NumeralOfValue(NextPrefix(p));
  }

  /** A goes to B, Z to AA, AZ to BA and ZZ to AAA. */
  lemma NextPrefixExamples()
    ensures NextPrefix("A") == "B" && NextPrefix("Z") == "AA"
    ensures NextPrefix("AZ") == "BA" && NextPrefix("ZZ") == "AAA"
  {
  }

  // The shape of the successor, stated letter by letter.

  function Repeat(c: char, k: nat): (s: string)
    ensures |s| == k && forall i :: 0 <= i < k ==> s[i] == c
  {
    if k == 0 then [] else Repeat(c, k - 1) + [c]
  }

  /** One trailing Z turns into A and carries into the letters before it. */
  lemma NextPrefixCarry(w: string)
    requires AllUpper(w)
    ensures AllUpper(w + ['Z'])
    ensures NextPrefix(w + ['Z']) == NextPrefix(w) + ['A']
  {
    assert (w + ['Z'])[..|w|] == w;
  }

  /** A run of k trailing Z's turns into k A's and carries into what is left of it. */
  lemma {:induction false} NextPrefixTrailingZ(u: string, k: nat)
    requires AllUpper(u)
    ensures AllUpper(u + Repeat('Z', k))
    ensures NextPrefix(u + Repeat('Z', k)) == NextPrefix(u) + Repeat('A', k)
  {
    if k == 0 {
      assert u + Repeat('Z', k) == u && NextPrefix(u) + Repeat('A', k) == NextPrefix(u);
    } else {
      var w := u + Repeat('Z', k - 1);
      NextPrefixTrailingZ(u, k - 1);
      NextPrefixCarry(w);
      calc {
        NextPrefix(u + Repeat('Z', k));
        { assert u + Repeat('Z', k) == w + ['Z']; }
        NextPrefix(w + ['Z']);
        NextPrefix(w) + ['A'];
        NextPrefix(u) + Repeat('A', k - 1) + ['A'];
        { assert Repeat('A', k) == Repeat('A', k - 1) + ['A']; }
        NextPrefix(u) + Repeat('A', k);
      }
    }
  }

  /** The rightmost letter that is not Z goes up by one, every Z to its right
      becomes A, and everything to its left stays. */
  lemma NextPrefixShape(u: string, c: char, k: nat)
    requires AllUpper(u) && IsUpper(c) && c != 'Z'
    ensures AllUpper(u + [c] + Repeat('Z', k))
    ensures NextPrefix(u + [c] + Repeat('Z', k)) == u + [((c as int) + 1) as char] + Repeat('A', k)
  {
    NextPrefixTrailingZ(u + [c], k);
    assert (u + [c])[..|u|] == u;
  }

  /** A prefix of Z's only grows by one letter and becomes all A's. */
  lemma NextPrefixAllZ(k: nat)
    ensures AllUpper(Repeat('Z', k))
    ensures NextPrefix(Repeat('Z', k)) == Repeat('A', k + 1)
  {
    NextPrefixTrailingZ([], k);
    assert [] + Repeat('Z', k) == Repeat('Z', k);
    assert Repeat('A', k + 1) == ['A'] + Repeat('A', k);
  }

  // Shortlex order: shorter prefixes first, equal lengths in dictionary order.

  /** Dictionary order on two strings of the same length: they agree up to
      some position, where p has the smaller letter. */
  predicate LexLess(p: string, q: string)
    requires |p| == |q|
  {
    exists i :: 0 <= i < |p| && p[..i] == q[..i] && p[i] < q[i]
  }

  predicate ShortLex(p: string, q: string)
  {
    |p| < |q| || (|p| == |q| && LexLess(p, q))
  }

  /** Dictionary order decided on everything but the last letter, or by the last letter. */
  lemma LexLessByLast(p: string, q: string)
    requires |p| == |q| > 0
    ensures LexLess(p, q) <==>
              LexLess(p[..|p| - 1], q[..|q| - 1])
              || (p[..|p| - 1] == q[..|q| - 1] && p[|p| - 1] < q[|q| - 1])
  {
    var n := |p| - 1;
    var u, v := p[..n], q[..n];
    if LexLess(p, q) {
      var i :| 0 <= i < |p| && p[..i] == q[..i] && p[i] < q[i];
      if i < n {
        assert u[..i] == p[..i] && v[..i] == q[..i];
        assert u[i] == p[i] && v[i] == q[i];
      }
    }
    if LexLess(u, v) {
      var i :| 0 <= i < n && u[..i] == v[..i] && u[i] < v[i];
      assert p[..i] == u[..i] && q[..i] == v[..i];
    }
    if u == v && p[n] < q[n] {
      assert p[..n] == q[..n];
    }
  }

  function Smallest(k: nat): nat
  {
    if k == 0 then 0 else 26 * Smallest(k - 1) + 1
  }

  function Largest(k: nat): nat
  {
    if k == 0 then 0 else 26 * Largest(k - 1) + 26
  }

  /** Every prefix of k letters denotes a number between Smallest(k) and Largest(k). */
  lemma {:induction false} ValueRange(p: string)
    requires AllUpper(p)
    ensures Smallest(|p|) <= Value(p) <= Largest(|p|)
  {
    if p != [] {
      ValueRange(p[..|p| - 1]);
    }
  }

  /** The ranges of consecutive lengths touch: Largest(k) + 1 == Smallest(k + 1). */
  lemma {:induction false} RangesAdjacent(k: nat)
    ensures Largest(k) + 1 == Smallest(k + 1)
  {
    if k != 0 {
      RangesAdjacent(k - 1);
    }
  }

  lemma {:induction false} SmallestGrows(i: nat, j: nat)
    requires i <= j
    ensures Smallest(i) <= Smallest(j)
  {
    if i < j {
      SmallestGrows(i, j - 1);
    }
  }

  /** A shorter prefix always denotes a smaller number. */
  lemma ShorterIsSmaller(p: string, q: string)
    requires AllUpper(p) && AllUpper(q) && |p| < |q|
    ensures Value(p) < Value(q)
  {
    ValueRange(p);
    ValueRange(q);
    RangesAdjacent(|p|);
    SmallestGrows(|p| + 1, |q|);
  }

  /** On prefixes of one length, dictionary order is numeric order. */
  lemma {:induction false} LexLessIffValue(p: string, q: string)
    requires AllUpper(p) && AllUpper(q) && |p| == |q|
    ensures LexLess(p, q) <==> Value(p) < Value(q)
  {
    if p == [] {
      assert !LexLess(p, q);
    } else {
      var n := |p| - 1;
      var u, v := p[..n], q[..n];
      LexLessByLast(p, q);
      LexLessIffValue(u, v);
      if Value(u) == Value(v) {
        ValueInjective(u, v);
      }
    }
  }

  /** Shortlex order on prefixes is numeric order on the numbers they denote. */
  lemma ShortLexIffValue(p: string, q: string)
    requires AllUpper(p) && AllUpper(q)
    ensures ShortLex(p, q) <==> Value(p) < Value(q)
  {
    if |p| < |q| {
      ShorterIsSmaller(p, q);
    } else if |q| < |p| {
      ShorterIsSmaller(q, p);
    } else {
      LexLessIffValue(p, q);
    }
  }

  /** The successor of a prefix comes right after it in shortlex order:
      later than it, and no prefix lies strictly between the two. */
  lemma NextPrefixFollows(p: string, q: string)
    requires AllUpper(p) && AllUpper(q)
    ensures ShortLex(p, NextPrefix(p))
    ensures !(ShortLex(p, q) && ShortLex(q, NextPrefix(p)))
  {
    NextPrefixValue(p);
    ShortLexIffValue(p, NextPrefix(p));
    ShortLexIffValue(p, q);
    ShortLexIffValue(q, NextPrefix(p));
  }
}
