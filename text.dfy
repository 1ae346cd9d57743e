/** Characters, character classes and small facts about strings that the
    pattern matcher, the formatter and the harvesters share. */
module Text {

  /** A value that may be absent: a DOM attribute that is `null` or a
      property that is `undefined`. */
  datatype Option<T> = None | Some(value: T)

  /** `\d` of a JavaScript regular expression: the ASCII digits only. */
  predicate IsDigit(c: char) {
    '0' <= c <= '9'
  }

  /** `\s` of a JavaScript regular expression: the WhiteSpace and
      LineTerminator code points of ECMAScript. */
  predicate IsSpace(c: char) {
    || c == '\t' || c == '\n' || c == '\U{000B}' || c == '\U{000C}' || c == '\r'
    || c == ' ' || c == '\U{00A0}' || c == '\U{1680}'
    || ('\U{2000}' <= c <= '\U{200A}')
    || c == '\U{2028}' || c == '\U{2029}' || c == '\U{202F}' || c == '\U{205F}'
    || c == '\U{3000}' || c == '\U{FEFF}'
  }

  /** The class `[\s\-]`: what may separate two digit groups, and what the
      formatter strips. */
  predicate IsSep(c: char) {
    IsSpace(c) || c == '-'
  }

  /** The characters a phone-number candidate can be made of. */
  predicate IsNumberChar(c: char) {
    c == '+' || IsDigit(c) || IsSep(c)
  }

  predicate AllDigits(w: string) {
    forall k :: 0 <= k < |w| ==> IsDigit(w[k])
  }

  /** JavaScript truthiness of a value that is a string, `null` or `undefined`. */
  predicate Truthy(o: Option<string>) {
    o.Some? && o.value != []
  }

  predicate StartsWith(w: string, prefix: string) {
    |prefix| <= |w| && w[..|prefix|] == prefix
  }

  /** `big` contains `small` at some position. */
  ghost predicate IsSubstring(small: string, big: string) {
    exists i, j :: 0 <= i <= j <= |big| && big[i..j] == small
  }

  /** The number of digits in `w`. */
  function CountDigits(w: string): (n: nat)
    ensures n <= |w|
  {
    if w == [] then 0 else (if IsDigit(w[0]) then 1 else 0) + CountDigits(w[1..])
  }

  lemma {:induction false} CountDigitsAppend(a: string, b: string)
    ensures CountDigits(a + b) == CountDigits(a) + CountDigits(b)
  {
    if a != [] {
      assert (a + b)[0] == a[0] && (a + b)[1..] == a[1..] + b;
      CountDigitsAppend(a[1..], b);
    } else {
      assert a + b == b;
    }
  }

  /** A part of a string has no more digits than the whole. */
  lemma CountDigitsSlice(w: string, i: nat, j: nat)
    requires i <= j <= |w|
    ensures CountDigits(w[i..j]) <= CountDigits(w)
  {
    var a, b, c := w[..i], w[i..j], w[j..];
    assert w[..j] == a + b;
    assert w == w[..j] + c;
    CountDigitsAppend(w[..j], c);
    CountDigitsAppend(a, b);
  }

  /** A slice is its two halves put together. */
  lemma SliceSplit(s: string, i: nat, j: nat, k: nat)
    requires i <= j <= k <= |s|
    ensures s[i..k] == s[i..j] + s[j..k]
  {
    assert |s[i..k]| == |s[i..j] + s[j..k]|;
    forall m | 0 <= m < k - i ensures s[i..k][m] == (s[i..j] + s[j..k])[m] {
      if m < j - i {
        assert (s[i..j] + s[j..k])[m] == s[i..j][m];
      } else {
        assert (s[i..j] + s[j..k])[m] == s[j..k][m - (j - i)];
      }
    }
  }

  /** Only digits follow position `i` of `s`. */
  predicate DigitsToEnd(s: string, i: nat) {
    i <= |s| && AllDigits(s[i..])
  }

  /** A suffix of a run of digits is a run of digits. */
  lemma AllDigitsSuffix(s: string, i: nat, j: nat)
    requires i <= j <= |s| && DigitsToEnd(s, i)
    ensures DigitsToEnd(s, j)
  {
    forall k | 0 <= k < |s| - j ensures IsDigit(s[j..][k]) {
      assert s[j..][k] == s[i..][k + j - i];
    }
  }

  /** A stretch of number characters, cut out of its string. */
  lemma NumberCharsSlice(s: string, a: nat, b: nat)
    requires a <= b <= |s| && forall m :: a <= m < b ==> IsNumberChar(s[m])
    ensures forall i :: 0 <= i < b - a ==> IsNumberChar(s[a..b][i])
  {
    forall i | 0 <= i < b - a ensures IsNumberChar(s[a..b][i]) {
      assert s[a..b][i] == s[a + i];
    }
  }

  /** In a run of digits every character counts. */
  lemma {:induction false} CountAllDigits(w: string)
    requires AllDigits(w)
    ensures CountDigits(w) == |w|
  {
    if w != [] {
      CountAllDigits(w[1..]);
    }
  }

  /** Any stretch inside a run of digits that reaches the end is digits. */
  lemma DigitsBetween(s: string, a: nat, i: nat, j: nat)
    requires DigitsToEnd(s, a) && a <= i <= j <= |s|
    ensures AllDigits(s[i..j])
  {
    forall k | 0 <= k < j - i ensures IsDigit(s[i..j][k]) {
      assert s[i..j][k] == s[a..][k + i - a];
    }
  }

  /** Two adjacent stretches of digits make one. */
  lemma DigitsJoin(s: string, i: nat, j: nat, k: nat)
    requires i <= j <= k <= |s| && AllDigits(s[i..j]) && AllDigits(s[j..k])
    ensures AllDigits(s[i..k])
  {
    forall m | 0 <= m < k - i ensures IsDigit(s[i..k][m]) {
      if m < j - i {
        assert s[i..k][m] == s[i..j][m];
      } else {
        assert s[i..k][m] == s[j..k][m - (j - i)];
      }
    }
  }

  /** A stretch inside a stretch of digits is digits. */
  lemma DigitsWithin(s: string, i: nat, j: nat, a: nat, b: nat)
    requires i <= a <= b <= j <= |s| && AllDigits(s[i..j])
    ensures AllDigits(s[a..b])
  {
    forall k | 0 <= k < b - a ensures IsDigit(s[a..b][k]) {
      assert s[a..b][k] == s[i..j][k + a - i];
    }
  }

  /** `.map(f)`: `f` applied to each element, in order. */
  function Map<A, B>(f: A -> B, s: seq<A>): (r: seq<B>)
    ensures |r| == |s| && forall k :: 0 <= k < |s| ==> r[k] == f(s[k])
  {
    seq(|s|, k requires 0 <= k < |s| => f(s[k]))
  }
}
