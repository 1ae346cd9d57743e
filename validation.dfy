/** `isValidPhoneNumber` (content.js) and which formatted numbers it keeps. */
module Validation {
  import opened Text
  import opened Regex
  import opened Scanner
  import opened Normalizer

  /** `/^\+\d{1,4}[\s\-]?\d{1,4}[\s\-]?\d{3,4}[\s\-]?\d{4}$/`: the
      international detection pattern, anchored. */
  const Validator: Pattern := Anchored(International)

  /** `isValidPhoneNumber(number)`: the match result read as a boolean. */
  predicate IsValidPhoneNumber(w: string) {
    Search(Validator, w, 0).Some?
  }

  /** The validator accepts exactly the whole-string words of the international
      detection pattern: `+`, 1 to 4 digits, an optional separator, 1 to 4
      digits, an optional separator, 3 or 4 digits, an optional separator and
      4 digits. */
  lemma ValidatorExact(w: string)
    ensures IsValidPhoneNumber(w) <==> WordOf(International, w)
  {
    AnchoredExact(International, w);
  }

  /** `+` and then 9 to 16 digits. */
  predicate Compact(w: string) {
    10 <= |w| <= 17 && w[0] == '+' && AllDigits(w[1..])
  }

  /** Without separators, a word of the international pattern is `+` and 9 to
      16 digits, and every such string is one. */
  lemma CompactExact(w: string)
    requires NoSeps(w)
    ensures WordOf(International, w) <==> Compact(w)
  {
    if WordOf(International, w) {
      WordCompact(w);
    }
    if Compact(w) {
      CompactWord(w);
    }
  }

  lemma WordCompact(w: string)
    requires NoSeps(w) && WordOf(International, w)
    ensures Compact(w)
  {
    var u := InternationalCut(International, w);
    assert !IsSep(w[u[2]]) && !IsSep(w[u[4]]) && !IsSep(w[u[6]]);
    DigitsJoin(w, 1, u[2], u[4]);
    DigitsJoin(w, 1, u[4], u[6]);
    DigitsJoin(w, 1, u[6], |w|);
    assert w[1..] == w[1..|w|];
  }

  /** The boundaries of a whole-string match of the international pattern,
      item by item (`p` names the pattern so that it is not unfolded). */
  lemma InternationalCut(p: Pattern, w: string) returns (u: seq<nat>)
    requires p == International && WordOf(p, w)
    ensures |u| == 9 && u[0] == 0 && u[1] == 1 && w[0] == '+'
    ensures u[1] <= u[2] <= u[3] <= u[4] <= u[5] <= u[6] <= u[7] <= u[8] == |w|
    ensures u[1] + 1 <= u[2] <= u[1] + 4 && AllDigits(w[u[1]..u[2]])
    ensures u[3] == u[2] || (u[3] == u[2] + 1 && IsSep(w[u[2]]))
    ensures u[3] + 1 <= u[4] <= u[3] + 4 && AllDigits(w[u[3]..u[4]])
    ensures u[5] == u[4] || (u[5] == u[4] + 1 && IsSep(w[u[4]]))
    ensures u[5] + 3 <= u[6] <= u[5] + 4 && AllDigits(w[u[5]..u[6]])
    ensures u[7] == u[6] || (u[7] == u[6] + 1 && IsSep(w[u[6]]))
    ensures u[7] + 4 == u[8] && AllDigits(w[u[7]..u[8]])
  {
    u := WordCut(p, w);
    assert ItemFits(p[0], w, u[0], u[1]);
    assert ItemFits(p[1], w, u[1], u[2]);
    assert ItemFits(p[2], w, u[2], u[3]);
    assert ItemFits(p[3], w, u[3], u[4]);
    assert ItemFits(p[4], w, u[4], u[5]);
    assert ItemFits(p[5], w, u[5], u[6]);
    assert ItemFits(p[6], w, u[6], u[7]);
    assert ItemFits(p[7], w, u[7], u[8]);
  }

  lemma CompactWord(w: string)
    requires Compact(w)
    ensures WordOf(International, w)
  {
    var p := International;
    var r := |w| - 5;
    var d3 := if r >= 6 then 4 else 3;
    var q := r - d3;
    var d1 := (q + 1) / 2;
    var a := 1 + d1;
    var b := 1 + q;
    var c := b + d3;
    var u: seq<nat> := [0, 1, a, a, b, b, c, c, |w|];
    DigitsBetween(w, 1, 1, a);
    DigitsBetween(w, 1, a, b);
    DigitsBetween(w, 1, b, c);
    DigitsBetween(w, 1, c, |w|);
    forall k | 0 <= k < |p| ensures ItemFits(p[k], w, u[k], u[k + 1]) {
    }
    FitsItems(p, w, u);
  }

  /** A word of the international pattern ends in four digits, and before
      them comes a separator or three more digits. */
  lemma InternationalTail(w: string)
    ensures WordOf(International, w) ==>
      && |w| >= 10 && AllDigits(w[|w| - 4..|w|])
      && (IsSep(w[|w| - 5]) || AllDigits(w[|w| - 7..|w| - 4]))
  {
    if WordOf(International, w) {
      var u := InternationalCut(International, w);
      LastGroups(w, u[5], u[6], u[7]);
    }
  }

  /** Three or four digits, an optional separator and four digits that end
      the string. */
  lemma LastGroups(w: string, a: nat, b: nat, c: nat)
    requires a + 3 <= b <= a + 4 && b <= c && c + 4 == |w| && AllDigits(w[a..b]) && AllDigits(w[c..|w|])
    requires c == b || (c == b + 1 && IsSep(w[b]))
    ensures |w| >= 7 && AllDigits(w[|w| - 4..|w|])
    ensures IsSep(w[|w| - 5]) || AllDigits(w[|w| - 7..|w| - 4])
  {
    if c == b {
      DigitsWithin(w, a, b, |w| - 7, |w| - 4);
    }
  }

  /** `+60 XX-XXX XXXX` and `+60 XX-XXXX XXXX` are words of the international
      pattern. */
  lemma GroupedWord(a: string, b: string, e: string)
    requires |a| == 2 && 3 <= |b| <= 4 && |e| == 4 && AllDigits(a) && AllDigits(b) && AllDigits(e)
    ensures WordOf(International, "+60 " + a + "-" + b + " " + e)
  {
    var w := "+60 " + a + "-" + b + " " + e;
    var n := |b|;
    GroupedChars(a, b, e);
    var p := International;
    var u: seq<nat> := [0, 1, 3, 4, 6, 7, 7 + n, 8 + n, 12 + n];
    forall k | 0 <= k < |p| ensures ItemFits(p[k], w, u[k], u[k + 1]) {
    }
    FitsItems(p, w, u);
  }

  /** Where the groups of `+60 a-b e` sit. */
  lemma GroupedChars(a: string, b: string, e: string)
    requires AllDigits(a) && AllDigits(b) && AllDigits(e) && |a| == 2
    ensures var w := "+60 " + a + "-" + b + " " + e;
      var n := |b|;
      && |w| == 8 + n + |e| && w[0] == '+' && w[3] == ' ' && w[6] == '-' && w[7 + n] == ' '
      && AllDigits(w[1..3]) && AllDigits(w[4..6]) && AllDigits(w[7..7 + n]) && AllDigits(w[8 + n..|w|])
  {
    var w := "+60 " + a + "-" + b + " " + e;
    var n := |b|;
    forall k | 0 <= k < 2 ensures IsDigit(w[1..3][k]) && w[4..6][k] == a[k] {
    }
    forall k | 0 <= k < n ensures w[7..7 + n][k] == b[k] {
    }
    forall k | 0 <= k < |e| ensures w[8 + n..|w|][k] == e[k] {
    }
  }

  /** `+60 XX-XXXX XXXXX`, what an eleven-digit Malaysian number is regrouped
      into, is not a word of the international pattern: its last group has
      five digits. */
  lemma LongGroupedNotWord(a: string, b: string, e: string)
    requires |a| == 2 && |b| == 4 && |e| == 5 && AllDigits(a) && AllDigits(b) && AllDigits(e)
    ensures !WordOf(International, "+60 " + a + "-" + b + " " + e)
  {
    var w := "+60 " + a + "-" + b + " " + e;
    GroupedChars(a, b, e);
    InternationalTail(w);
    assert |w| == 17;
    assert !IsSep(w[12]) by {
      assert w[8 + 4..|w|][0] == w[12];
    }
    assert !AllDigits(w[10..13]) by {
      assert w[10..13][1] == ' ';
    }
  }

  /** Which formatted numbers the validator keeps: a Malaysian number when it
      has 9 or 10 digits after `+60` (the regrouping leaves an eleventh digit
      in a five-digit last group), any other when it is `+` and 9 to 16 digits. */
  lemma FormatValid(number: string)
    ensures var c := Prefix(Strip(number));
      IsValidPhoneNumber(FormatPhoneNumber(number)) <==>
        if MalaysianInternational(c) then |c| <= 13 else Compact(c)
  {
    var c := Prefix(Strip(number));
    PrefixCases(Strip(number));
    FormatShape(number);
    ValidatorExact(FormatPhoneNumber(number));
    if MalaysianInternational(c) {
      RegroupedValid(c);
    } else {
      CompactExact(c);
    }
  }

  /** A regrouped Malaysian number is a word of the international pattern
      exactly when it has at most ten digits after `+60`. */
  lemma RegroupedValid(c: string)
    requires MalaysianInternational(c)
    ensures var g := if |c| == 12 then 8 else 9;
      WordOf(International, "+60 " + c[3..5] + "-" + c[5..g] + " " + c[g..]) <==> |c| <= 13
  {
    var g := if |c| == 12 then 8 else 9;
    DigitsBetween(c, 3, 3, 5);
    DigitsBetween(c, 3, 5, g);
    DigitsBetween(c, 3, g, |c|);
    assert c[g..] == c[g..|c|];
    if |c| <= 13 {
      GroupedWord(c[3..5], c[5..g], c[g..]);
    } else {
      LongGroupedNotWord(c[3..5], c[5..g], c[g..]);
    }
  }
}
