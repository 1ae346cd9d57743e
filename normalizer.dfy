/** `formatPhoneNumber` (content.js): a candidate is cleaned of separators,
    given a leading `+`, and regrouped when it is a Malaysian number. */
module Normalizer {
  import opened Text
  import opened Regex
  import opened Scanner

  /** `/^\+60\d{9,11}$/`: a Malaysian number in international form. */
  const MalaysianForm: Pattern := [Begin, Lit('+'), Lit('6'), Lit('0'), Digits(9, 11), End]

  /** `/(\+60)(\d{1,2})(\d{3,4})(\d{4})/`; its first group is the three literals. */
  const Regrouping: Pattern := [Lit('+'), Lit('6'), Lit('0'), Digits(1, 2), Digits(3, 4), Digits(4, 4)]

  predicate NoSeps(w: string) {
    forall i :: 0 <= i < |w| ==> !IsSep(w[i])
  }

  /** `number.replace(/[\s\-]/g, '')`: every separator removed, the rest kept in order. */
  function Strip(w: string): (r: string)
    ensures NoSeps(r)
    ensures |r| <= |w|
  {
    if w == [] then []
    else (if IsSep(w[0]) then [] else [w[0]]) + Strip(w[1..])
  }

  lemma {:induction false} StripAppend(a: string, b: string)
    ensures Strip(a + b) == Strip(a) + Strip(b)
  {
    if a == [] {
      assert a + b == b;
    } else {
      var head := if IsSep(a[0]) then [] else [a[0]];
      assert (a + b)[0] == a[0] && (a + b)[1..] == a[1..] + b;
      assert Strip(a + b) == head + Strip(a[1..] + b);
      assert Strip(a) == head + Strip(a[1..]);
      StripAppend(a[1..], b);
      assert head + (Strip(a[1..]) + Strip(b)) == (head + Strip(a[1..])) + Strip(b);
    }
  }

  /** Stripping keeps exactly the characters that are not separators. */
  lemma {:induction false} StripMember(w: string, c: char)
    ensures c in Strip(w) <==> c in w && !IsSep(c)
  {
    if w != [] {
      StripMember(w[1..], c);
      assert w == [w[0]] + w[1..];
    }
  }

  /** A single separator is removed and any other character kept; with
      `StripAppend` this fixes `Strip` on every string, in order. */
  lemma StripChar(c: char)
    ensures Strip([c]) == if IsSep(c) then [] else [c]
  {
    assert [c][1..] == [];
  }

  /** Stripping leaves a string without separators as it is, so it is idempotent. */
  lemma {:induction false} StripKeeps(w: string)
    ensures NoSeps(w) ==> Strip(w) == w
  {
    if w != [] && NoSeps(w) {
      assert !IsSep(w[0]);
      StripKeeps(w[1..]);
    }
  }

  /** Lines 137-143: give the cleaned number a leading `+`. */
  function Prefix(c: string): string {
    if StartsWith(c, "0") then "+6" + c
    else if StartsWith(c, "60") && !StartsWith(c, "+60") then "+" + c
    else if !StartsWith(c, "+") then "+" + c
    else c
  }

  /** The prefixed number starts with `+`; a leading `0` gets `+6` in front of
      it (the `0` stays), a leading `+` is kept, anything else gets `+` in front.
      The `60` branch does what the last branch would do. */
  lemma PrefixCases(c: string)
    ensures |Prefix(c)| > 0 && Prefix(c)[0] == '+'
    ensures Prefix(c) == if StartsWith(c, "0") then "+6" + c
                         else if StartsWith(c, "+") then c
                         else "+" + c
    ensures NoSeps(c) ==> NoSeps(Prefix(c))
  {
  }

  /** `cleaned.match(/^\+60\d{9,11}$/)` is not `null`. */
  predicate IsMalaysianForm(c: string) {
    Search(MalaysianForm, c, 0).Some?
  }

  /** `+60` followed by 9 to 11 digits and nothing else. */
  predicate MalaysianInternational(c: string) {
    12 <= |c| <= 14 && c[..3] == "+60" && AllDigits(c[3..])
  }

  /** The Malaysian form check accepts exactly `+60` and then 9 to 11 digits. */
  lemma MalaysianFormExact(c: string)
    ensures IsMalaysianForm(c) <==> MalaysianInternational(c)
  {
    if IsMalaysianForm(c) {
      MalaysianFormShape(c);
    }
    if MalaysianInternational(c) {
      MalaysianShapeForm(c);
    }
  }

  lemma MalaysianFormShape(c: string)
    requires IsMalaysianForm(c)
    ensures MalaysianInternational(c)
  {
    var f := Search(MalaysianForm, c, 0).value;
    MalaysianFitsShape(c, MatchFrom(MalaysianForm, c, f.start).value);
  }

  lemma MalaysianFitsShape(c: string, t: seq<nat>)
    requires |t| == |MalaysianForm| + 1 && Fits(MalaysianForm, c, t)
    ensures MalaysianInternational(c)
  {
    var p := MalaysianForm;
    FitsItems(p, c, t);
    assert ItemFits(p[0], c, t[0], t[1]) && t[1] == 0;
    assert ItemFits(p[1], c, t[1], t[2]) && c[0] == '+';
    assert ItemFits(p[2], c, t[2], t[3]) && c[1] == '6';
    assert ItemFits(p[3], c, t[3], t[4]) && c[2] == '0';
    assert ItemFits(p[4], c, t[4], t[5]) && AllDigits(c[3..t[5]]);
    assert ItemFits(p[5], c, t[5], t[6]) && t[5] == |c|;
    assert c[3..t[5]] == c[3..];
    assert c[..3] == [c[0], c[1], c[2]];
  }

  lemma MalaysianShapeForm(c: string)
    requires MalaysianInternational(c)
    ensures IsMalaysianForm(c)
  {
    var p := MalaysianForm;
    var t: seq<nat> := [0, 0, 1, 2, 3, |c|, |c|];
    MalaysianChars(c);
    forall k | 0 <= k < |p| ensures ItemFits(p[k], c, t[k], t[k + 1]) {
    }
    FitsItems(p, c, t);
    SearchFinds(p, c, 0, t);
  }

  /** `cleaned.replace(Regrouping, '$1 $2-$3 $4')`: the first match only is
      replaced, the rest of the string kept. */
  function Regroup(c: string): string {
    match Search(Regrouping, c, 0)
    case None => c
    case Some(f) =>
      var t := f.trace;
      RegroupBounds(c, t);
      c[..t[0]] + Groups(c, t) + c[t[6]..]
  }

  /** `'$1 $2-$3 $4'`: the four groups of the match joined by a space, a `-`
      and a space. */
  function Groups(c: string, t: seq<nat>): string
    requires |t| == 7 && t[0] <= t[3] <= t[4] <= t[5] <= t[6] <= |c|
  {
    c[t[0]..t[3]] + " " + c[t[3]..t[4]] + "-" + c[t[4]..t[5]] + " " + c[t[5]..t[6]]
  }

  lemma RegroupBounds(c: string, t: seq<nat>)
    requires Fits(Regrouping, c, t)
    ensures |t| == 7 && t[0] <= t[3] <= t[4] <= t[5] <= t[6] <= |c|
  {
    FitsItems(Regrouping, c, t);
    assert ItemFits(Regrouping[0], c, t[0], t[1]);
    assert ItemFits(Regrouping[1], c, t[1], t[2]);
    assert ItemFits(Regrouping[2], c, t[2], t[3]);
    assert ItemFits(Regrouping[3], c, t[3], t[4]);
    assert ItemFits(Regrouping[4], c, t[4], t[5]);
    assert ItemFits(Regrouping[5], c, t[5], t[6]);
  }

  /** The groups stripped are the matched stretch stripped. */
  lemma GroupsStrip(c: string, t: seq<nat>)
    requires |t| == 7 && t[0] <= t[3] <= t[4] <= t[5] <= t[6] <= |c|
    ensures Strip(Groups(c, t)) == Strip(c[t[0]..t[6]])
  {
    var a, b, d, e := c[t[0]..t[3]], c[t[3]..t[4]], c[t[4]..t[5]], c[t[5]..t[6]];
    var ab := a + " " + b;
    var abd := ab + "-" + d;
    assert Groups(c, t) == abd + " " + e;
    StripAround(a, ' ', b);
    StripAround(ab, '-', d);
    StripAround(abd, ' ', e);
    StripAppend(a, b);
    StripAppend(a + b, d);
    StripAppend(a + b + d, e);
    SliceSplit(c, t[0], t[3], t[4]);
    SliceSplit(c, t[0], t[4], t[5]);
    SliceSplit(c, t[0], t[5], t[6]);
  }

  /** Regrouping only inserts separators. */
  lemma RegroupStrip(c: string)
    ensures Strip(Regroup(c)) == Strip(c)
  {
    match Search(Regrouping, c, 0)
    case None =>
    case Some(f) =>
      var t := f.trace;
      RegroupBounds(c, t);
      var x, m, z := c[..t[0]], c[t[0]..t[6]], c[t[6]..];
      GroupsStrip(c, t);
      StripAppend(x + Groups(c, t), z);
      StripAppend(x, Groups(c, t));
      SliceSplit(c, 0, t[0], t[6]);
      SliceSplit(c, 0, t[6], |c|);
      assert c == x + m + z by {
        assert c[0..t[6]] == x + m && c == c[0..|c|];
      }
      StripAppend(x + m, z);
      StripAppend(x, m);
  }

  /** `formatPhoneNumber(number)`. */
  function FormatPhoneNumber(number: string): string {
    var cleaned := Prefix(Strip(number));
    if IsMalaysianForm(cleaned) then Regroup(cleaned) else cleaned
  }

  /** `\d{4}` over a run of digits that reaches the end: four digits when
      there are at least four. */
  lemma MatchLastGroup(s: string, i: nat)
    requires DigitsToEnd(s, i)
    ensures MatchFrom([Digits(4, 4)], s, i) == if |s| - i >= 4 then Some([i, i + 4]) else None
  {
    var p := [Digits(4, 4)];
    MatchDigitsToEnd(p, s, i);
    if |s| - i >= 4 {
      assert p[1..] == [];
      TryDigitsTake(p, s, i, 4);
      assert [i] + [i + 4] == [i, i + 4];
    }
  }

  /** `\d{3,4}\d{4}` over 7 to 9 digits that reach the end: the first group
      takes four digits unless only seven are left. */
  lemma MatchLastTwoGroups(s: string, i: nat)
    requires DigitsToEnd(s, i) && 7 <= |s| - i <= 9
    ensures var g := if |s| - i == 7 then 3 else 4;
      MatchFrom([Digits(3, 4), Digits(4, 4)], s, i) == Some([i, i + g, i + g + 4])
  {
    var p := [Digits(3, 4), Digits(4, 4)];
    assert p[1..] == [Digits(4, 4)];
    MatchDigitsToEnd(p, s, i);
    AllDigitsSuffix(s, i, i + 4);
    MatchLastGroup(s, i + 4);
    if |s| - i == 7 {
      TryDigitsBack(p, s, i, 4);
      AllDigitsSuffix(s, i, i + 3);
      MatchLastGroup(s, i + 3);
      TryDigitsTake(p, s, i, 3);
      assert [i] + [i + 3, i + 7] == [i, i + 3, i + 7];
    } else {
      TryDigitsTake(p, s, i, 4);
      assert [i] + [i + 4, i + 8] == [i, i + 4, i + 8];
    }
  }

  /** `\d{1,2}\d{3,4}\d{4}` over 9 to 11 digits that reach the end: two
      digits, then three or four, then four. */
  lemma MatchThreeGroups(s: string, i: nat)
    requires DigitsToEnd(s, i) && 9 <= |s| - i <= 11
    ensures var g := if |s| - i == 9 then 3 else 4;
      MatchFrom([Digits(1, 2), Digits(3, 4), Digits(4, 4)], s, i) == Some([i, i + 2, i + 2 + g, i + 6 + g])
  {
    var p := [Digits(1, 2), Digits(3, 4), Digits(4, 4)];
    var g := if |s| - i == 9 then 3 else 4;
    var rest := [i + 2, i + 2 + g, i + 6 + g];
    assert MatchFrom(p[1..], s, i + 2) == Some(rest) by {
      assert p[1..] == [Digits(3, 4), Digits(4, 4)];
      AllDigitsSuffix(s, i, i + 2);
      MatchLastTwoGroups(s, i + 2);
    }
    DigitRunToEnd(s, i);
    assert Min(p[0].hi, DigitRun(s, i)) == 2;
    MatchGreedy(p, s, i, rest);
    PrependBoundary(i, i + 2, i + 2 + g, i + 6 + g);
  }

  lemma PrependBoundary(a: nat, b: nat, c: nat, d: nat)
    ensures [a] + [b, c, d] == [a, b, c, d]
  {
  }

  /** The regrouping pattern on a Malaysian number matches from the start:
      `+60`, two digits, three digits (four when there are more than nine),
      four digits. */
  lemma RegroupTrace(c: string)
    requires MalaysianInternational(c)
    ensures var r := Search(Regrouping, c, 0);
      var g := if |c| == 12 then 8 else 9;
      && r.Some? && r.value.start == 0 && |r.value.trace| == 7
      && r.value.trace[0] == 0 && r.value.trace[3] == 3 && r.value.trace[4] == 5
      && r.value.trace[5] == g && r.value.trace[6] == g + 4
  {
    RegroupMatch(c);
  }

  lemma RegroupMatch(c: string)
    requires MalaysianInternational(c)
    ensures var r := MatchFrom(Regrouping, c, 0);
      var g := if |c| == 12 then 8 else 9;
      && r.Some? && |r.value| == 7
      && r.value[0] == 0 && r.value[3] == 3 && r.value[4] == 5
      && r.value[5] == g && r.value[6] == g + 4
  {
    var p := Regrouping;
    MalaysianChars(c);
    var h := if |c| == 12 then 3 else 4;
    var rest := [3, 5, 5 + h, 9 + h];
    assert MatchFrom(p[3..], c, 3) == Some(rest) by {
      assert p[3..] == [Digits(1, 2), Digits(3, 4), Digits(4, 4)];
      MatchThreeGroups(c, 3);
    }
    MatchThreeLits(p, c, rest);
    assert [0, 1, 2] + rest == [0, 1, 2, 3, 5, 5 + h, 9 + h];
  }

  lemma MalaysianChars(c: string)
    requires MalaysianInternational(c)
    ensures c[0] == '+' && c[1] == '6' && c[2] == '0' && DigitsToEnd(c, 3)
  {
    assert c[..3][0] == c[0] && c[..3][1] == c[1] && c[..3][2] == c[2];
  }

  /** Three literal items that match the first three characters. */
  lemma MatchThreeLits(p: Pattern, s: string, rest: seq<nat>)
    requires 3 <= |p| && 3 <= |s|
    requires p[0] == Lit(s[0]) && p[1] == Lit(s[1]) && p[2] == Lit(s[2])
    requires MatchFrom(p[3..], s, 3) == Some(rest)
    ensures MatchFrom(p, s, 0) == Some([0, 1, 2] + rest)
  {
    assert p[2..][1..] == p[3..] && p[1..][1..] == p[2..];
    MatchLit(p[2..], s, 2);
    assert MatchFrom(p[2..], s, 2) == Some([2] + rest);
    MatchLit(p[1..], s, 1);
    assert MatchFrom(p[1..], s, 1) == Some([1] + ([2] + rest));
    MatchLit(p, s, 0);
    assert [0] + ([1] + ([2] + rest)) == [0, 1, 2] + rest;
  }

  /** A Malaysian number regrouped: `+60 `, two digits, `-`, three digits (four
      when there are more than nine), a space, and the remaining digits. */
  lemma RegroupMalaysian(c: string)
    requires MalaysianInternational(c)
    ensures var g := if |c| == 12 then 8 else 9;
      Regroup(c) == "+60 " + c[3..5] + "-" + c[5..g] + " " + c[g..]
  {
    var g := if |c| == 12 then 8 else 9;
    RegroupTrace(c);
    var t := Search(Regrouping, c, 0).value.trace;
    GroupsMalaysian(c, t, g);
  }

  /** The replacement text for the groups a Malaysian number has. */
  lemma GroupsMalaysian(c: string, t: seq<nat>, g: nat)
    requires MalaysianInternational(c) && (g == 8 || g == 9) && g + 4 <= |c|
    requires |t| == 7 && t[0] == 0 && t[3] == 3 && t[4] == 5 && t[5] == g && t[6] == g + 4
    ensures c[..t[0]] + Groups(c, t) + c[t[6]..] == "+60 " + c[3..5] + "-" + c[5..g] + " " + c[g..]
  {
    var a, b, d, e := c[0..3], c[3..5], c[5..g], c[g..g + 4];
    assert a == "+60" by {
      assert c[..3] == c[0..3];
    }
    assert a + " " == "+60 ";
    var z := c[g + 4..];
    SliceSplit(c, g, g + 4, |c|);
    assert c[g..] == c[g..|c|] && z == c[g + 4..|c|];
    assert e + z == c[g..];
    assert Groups(c, t) == a + " " + b + "-" + d + " " + e;
    assert c[..t[0]] == [];
  }

  /** Formatting is cleaning and prefixing: the separators it inserts are the
      only difference. */
  lemma FormatStrip(number: string)
    ensures Strip(FormatPhoneNumber(number)) == Prefix(Strip(number))
  {
    var c := Prefix(Strip(number));
    PrefixCases(Strip(number));
    StripKeeps(c);
    if IsMalaysianForm(c) {
      RegroupStrip(c);
    }
  }

  /** What formatting produces: a Malaysian number in the grouping `+60 XX-XXX
      XXXX` (`XXXX` in the middle when there are more than nine digits after
      `+60`), anything else cleaned and prefixed only. */
  lemma FormatShape(number: string)
    ensures var c := Prefix(Strip(number));
      var g := if |c| == 12 then 8 else 9;
      FormatPhoneNumber(number) ==
        if MalaysianInternational(c) then "+60 " + c[3..5] + "-" + c[5..g] + " " + c[g..] else c
  {
    var c := Prefix(Strip(number));
    MalaysianFormExact(c);
    if MalaysianInternational(c) {
      RegroupMalaysian(c);
    }
  }

  /** A formatted number starts with `+` and formats to itself. */
  lemma FormatIdempotent(number: string)
    ensures |FormatPhoneNumber(number)| > 0 && FormatPhoneNumber(number)[0] == '+'
    ensures FormatPhoneNumber(FormatPhoneNumber(number)) == FormatPhoneNumber(number)
  {
    var c := Prefix(Strip(number));
    PrefixCases(Strip(number));
    PrefixCases(c);
    FormatStrip(number);
    if IsMalaysianForm(c) {
      RegroupStrip(c);
      RegroupPlus(c);
    }
  }

  /** Regrouping a Malaysian number keeps its leading `+`. */
  lemma RegroupPlus(c: string)
    requires IsMalaysianForm(c)
    ensures |Regroup(c)| > 0 && Regroup(c)[0] == '+'
  {
    MalaysianFormExact(c);
    RegroupMalaysian(c);
  }

  /** A local number written `0XX-XXX XXXX` becomes `+60 XX-XXX XXXX`: the
      leading `0` is kept as the `0` of `+60`. */
  lemma FormatLocal(a: string, b: string, e: string)
    requires |a| == 2 && |b| == 3 && |e| == 4 && AllDigits(a) && AllDigits(b) && AllDigits(e)
    ensures FormatPhoneNumber("0" + a + "-" + b + " " + e) == "+60 " + a + "-" + b + " " + e
  {
    var x := "0" + a;
    var n := x + ['-'] + b + [' '] + e;
    var c := "+60" + a + b + e;
    assert NoSeps(x) by {
      assert forall i :: 0 < i < |x| ==> x[i] == a[i - 1];
    }
    StripJoin(x, '-', b, ' ', e);
    assert Prefix(Strip(n)) == c by {
      assert "+6" + (x + b + e) == c;
    }
    LocalSlices(a, b, e);
    FormatShape(n);
    assert n == "0" + a + "-" + b + " " + e;
  }

  /** Two separators between three strings without separators are dropped. */
  lemma StripJoin(x: string, s1: char, b: string, s2: char, e: string)
    requires IsSep(s1) && IsSep(s2) && NoSeps(x) && NoSeps(b) && NoSeps(e)
    ensures Strip(x + [s1] + b + [s2] + e) == x + b + e
  {
    StripKeeps(x);
    StripKeeps(b);
    StripKeeps(e);
    StripAround(x, s1, b);
    StripAround(x + [s1] + b, s2, e);
  }

  /** A separator between two strings is dropped. */
  lemma StripAround(x: string, sep: char, y: string)
    requires IsSep(sep)
    ensures Strip(x + [sep] + y) == Strip(x) + Strip(y)
  {
    StripAppend(x + [sep], y);
    StripAppend(x, [sep]);
    assert [sep][1..] == [];
    assert Strip([sep]) == [] + Strip([]);
    assert Strip(x) + [] == Strip(x);
  }

  lemma LocalSlices(a: string, b: string, e: string)
    requires |a| == 2 && |b| == 3 && |e| == 4 && AllDigits(a) && AllDigits(b) && AllDigits(e)
    ensures var c := "+60" + a + b + e;
      MalaysianInternational(c) && |c| == 12 && c[3..5] == a && c[5..8] == b && c[8..] == e
  {
    var c := "+60" + a + b + e;
    assert c[..3] == "+60";
    assert c[3..] == a + b + e;
    assert c[3..5] == a;
    assert c[5..8] == b;
    assert c[8..] == e;
  }
}
