/** String helpers with Python's meaning: `in`, `lower()`, `str(int)`, `sep.join(...)`. */
module Text {

  /** `word` sits in `text` starting at index `i`. */
  predicate OccursAt(word: string, text: string, i: int) {
    0 <= i && i + |word| <= |text| && text[i..i + |word|] == word
  }

  /** Python's `word in text` on strings: a contiguous substring test (the empty word is everywhere). */
  predicate Occurs(word: string, text: string) {
    exists i :: 0 <= i <= |text| && OccursAt(word, text, i)
  }

  /** U+212A KELVIN SIGN, whose lower-case form is the ASCII letter `k`. */
  const KelvinSign: char := '\U{212A}'

  /** A character that `lower()` turns into an ASCII letter other than itself. */
  predicate IsUpper(c: char) {
    'A' <= c <= 'Z' || c == KelvinSign
  }

  function LowerChar(c: char): char {
    if 'A' <= c <= 'Z' then (c as int + 32) as char
    else if c == KelvinSign then 'k'
    else c
  }

  /** `s.lower()` on the characters whose lower-case form is an ASCII letter: the ASCII
      capitals and the Kelvin sign. Every other character is kept. */
  function Lower(s: string): string {
    seq(|s|, i requires 0 <= i < |s| => LowerChar(s[i]))
  }

  /** No upper-case letter survives lower-casing. */
  lemma LowerHasNoUpper(s: string)
    ensures |Lower(s)| == |s|
    ensures forall i :: 0 <= i < |s| ==> !IsUpper(Lower(s)[i])
  {
  }

  /** Text without upper-case letters is already lower-case. */
  lemma LowerOfLowercase(s: string)
    requires forall i :: 0 <= i < |s| ==> !IsUpper(s[i])
    ensures Lower(s) == s
  {
  }

  /** Lower-casing twice is lower-casing once. */
  lemma LowerIdempotent(s: string)
    ensures Lower(Lower(s)) == Lower(s)
  {
    LowerHasNoUpper(s);
    LowerOfLowercase(Lower(s));
  }

  /** A substring of the lower-cased text never contains an upper-case letter. */
  lemma {:induction false} NoUpperWordInLower(word: string, s: string, k: nat)
    requires k < |word| && IsUpper(word[k])
    ensures !Occurs(word, Lower(s))
  {
    var t := Lower(s);
    LowerHasNoUpper(s);
    forall i | 0 <= i <= |t| ensures !OccursAt(word, t, i) {
      if i + |word| <= |t| {
        assert t[i..i + |word|][k] == t[i + k];
      }
    }
  }

  // ---------------------------------------------------------------------------
  // Decimal rendering of integers, as `str(n)` and f-strings print them.

  predicate IsDigit(c: char) {
    '0' <= c <= '9'
  }

  function DigitChar(d: nat): char
    requires d < 10
  {
    ('0' as int + d) as char
  }

  function DigitValue(c: char): nat
    requires IsDigit(c)
  {
    c as int - '0' as int
  }

  predicate AllDigits(s: string) {
    forall i :: 0 <= i < |s| ==> IsDigit(s[i])
  }

  /** `str(n)` for a non-negative integer. */
  function NatToDecimal(n: nat): string {
    if n < 10 then [DigitChar(n)] else NatToDecimal(n / 10) + [DigitChar(n % 10)]
  }

  /** The rendering of a natural number is non-empty and all digits. */
  lemma {:induction false} NatToDecimalDigits(n: nat)
    ensures |NatToDecimal(n)| >= 1 && AllDigits(NatToDecimal(n))
  {
    if n >= 10 {
      NatToDecimalDigits(n / 10);
    }
  }

  /** The value a string of digits denotes (its inverse). */
  function DecimalValue(s: string): nat
    requires AllDigits(s)
  {
    if s == [] then 0 else DecimalValue(s[..|s| - 1]) * 10 + DigitValue(s[|s| - 1])
  }

  /** Reading back the rendering of `n` gives `n`. */
  lemma {:induction false} DecimalRoundTrip(n: nat)
    ensures AllDigits(NatToDecimal(n)) && DecimalValue(NatToDecimal(n)) == n
  {
    NatToDecimalDigits(n);
    if n >= 10 {
      var s := NatToDecimal(n);
      assert s[..|s| - 1] == NatToDecimal(n / 10);
      DecimalRoundTrip(n / 10);
    }
  }

  /** Distinct numbers render as distinct strings. */
  lemma NatToDecimalInjective(a: nat, b: nat)
    ensures NatToDecimal(a) == NatToDecimal(b) ==> a == b
  {
    DecimalRoundTrip(a);
    DecimalRoundTrip(b);
  }

  /** `str(n)` for any integer: a minus sign before the magnitude when negative. */
  function IntToDecimal(n: int): string {
    if n < 0 then "-" + NatToDecimal(-n) else NatToDecimal(n)
  }

  /** The rendering of an integer is digits, led by a minus sign exactly when negative. */
  lemma IntToDecimalChars(n: int)
    ensures var s := IntToDecimal(n);
      |s| >= 1 && (s[0] == '-' <==> n < 0) && AllDigits(if n < 0 then s[1..] else s)
  {
    if n < 0 {
      NatToDecimalDigits(-n);
      assert IntToDecimal(n)[1..] == NatToDecimal(-n);
    } else {
      NatToDecimalDigits(n);
    }
  }

  // ---------------------------------------------------------------------------
  // The text after the last separator, and why `a + sep + x` determines `a` and `x`.

  /** The text after the last `sep` of `s` (all of `s` when it has none). */
  function AfterLast(s: string, sep: char): (tail: string)
    ensures |tail| <= |s|
  {
    if s == [] then []
    else if s[|s| - 1] == sep then []
    else AfterLast(s[..|s| - 1], sep) + [s[|s| - 1]]
  }

  /** The tail is a separator-free suffix, and a separator comes right before it unless
      it is the whole string. */
  lemma {:induction false} AfterLastIsSuffix(s: string, sep: char)
    ensures var tail := AfterLast(s, sep);
      sep !in tail && tail == s[|s| - |tail|..] &&
      (|tail| < |s| ==> s[|s| - |tail| - 1] == sep)
  {
    if s != [] && s[|s| - 1] != sep {
      AfterLastIsSuffix(s[..|s| - 1], sep);
    }
  }

  /** Whatever precedes the separator, a separator-free suffix is recovered. */
  lemma {:induction false} AfterLastOfJoin(a: string, sep: char, x: string)
    requires sep !in x
    ensures AfterLast(a + [sep] + x, sep) == x
  {
    var s := a + [sep] + x;
    if x != [] {
      assert s[..|s| - 1] == a + [sep] + x[..|x| - 1];
      AfterLastOfJoin(a, sep, x[..|x| - 1]);
      assert x == x[..|x| - 1] + [x[|x| - 1]];
    }
  }

  /** Without a separator the whole string is the tail. */
  lemma {:induction false} NoSeparatorIsWhole(s: string, sep: char)
    requires sep !in s
    ensures AfterLast(s, sep) == s
  {
    if s != [] {
      NoSeparatorIsWhole(s[..|s| - 1], sep);
      assert s == s[..|s| - 1] + [s[|s| - 1]];
    }
  }

  /** `a + sep + x` determines both halves when `x` has no separator. */
  lemma SplitAtLastInjective(a: string, x: string, b: string, y: string, sep: char)
    requires sep !in x && sep !in y
    ensures a + [sep] + x == b + [sep] + y ==> a == b && x == y
  {
    var s, t := a + [sep] + x, b + [sep] + y;
    AfterLastOfJoin(a, sep, x);
    AfterLastOfJoin(b, sep, y);
    assert s[..|a|] == a;
    assert t[..|b|] == b;
  }

  // ---------------------------------------------------------------------------
  // `sep.join(items)`.

  /** Python's `sep.join(items)`. */
  function Join(sep: string, items: seq<string>): string {
    if |items| == 0 then ""
    else if |items| == 1 then items[0]
    else Join(sep, items[..|items| - 1]) + sep + items[|items| - 1]
  }

  function TotalLength(items: seq<string>): nat {
    if items == [] then 0 else TotalLength(items[..|items| - 1]) + |items[|items| - 1]|
  }

  /** The joined string is every item plus one separator between neighbours. */
  lemma {:induction false} JoinLength(sep: string, items: seq<string>)
    requires items != []
    ensures |Join(sep, items)| == TotalLength(items) + |sep| * (|items| - 1)
  {
    if |items| > 1 {
      var init := items[..|items| - 1];
      JoinLength(sep, init);
      assert TotalLength(init) == TotalLength(items) - |items[|items| - 1]|;
    }
  }

  /** Joining a longer list extends the join of its first `n` items. */
  lemma {:induction false} JoinExtends(sep: string, items: seq<string>, n: nat)
    requires 1 <= n <= |items|
    ensures Join(sep, items[..n]) <= Join(sep, items)
  {
    if n < |items| {
      var init := items[..|items| - 1];
      assert init[..n] == items[..n];
      JoinExtends(sep, init, n);
    } else {
      assert items[..n] == items;
    }
  }

  /** Every item appears, unchanged, inside the joined string. */
  lemma JoinContainsItem(sep: string, items: seq<string>, k: nat)
    requires k < |items|
    ensures Occurs(items[k], Join(sep, items))
  {
    var head := Join(sep, items[..k + 1]);
    assert items[..k + 1][..k] == items[..k];
    assert head[|head| - |items[k]|..] == items[k];
    JoinExtends(sep, items, k + 1);
    var whole := Join(sep, items);
    var i := |head| - |items[k]|;
    assert whole[i..i + |items[k]|] == head[i..];
    assert OccursAt(items[k], whole, i);
  }
}
