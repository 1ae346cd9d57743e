/** `extractNumbersFromText` (content.js): the four detection patterns, the
    global scan of one pattern over a text fragment, and the concatenation of
    the four scans. */
module Scanner {
  import opened Text
  import opened Regex

  /** `/\+60[\s\-]?\d{1,2}[\s\-]?\d{3,4}[\s\-]?\d{4}/g`, Malaysian with `+`. */
  const Malaysian: Pattern :=
    [Lit('+'), Lit('6'), Lit('0'), OptSep, Digits(1, 2), OptSep, Digits(3, 4), OptSep, Digits(4, 4)]

  /** `/\+\d{1,4}[\s\-]?\d{1,4}[\s\-]?\d{3,4}[\s\-]?\d{4}/g`, any country code. */
  const International: Pattern :=
    [Lit('+'), Digits(1, 4), OptSep, Digits(1, 4), OptSep, Digits(3, 4), OptSep, Digits(4, 4)]

  /** `/60[\s\-]?\d{1,2}[\s\-]?\d{3,4}[\s\-]?\d{4}/g`, Malaysian without `+`. */
  const MalaysianNoPlus: Pattern :=
    [Lit('6'), Lit('0'), OptSep, Digits(1, 2), OptSep, Digits(3, 4), OptSep, Digits(4, 4)]

  /** `/0\d{1,2}[\s\-]?\d{3,4}[\s\-]?\d{4}/g`, local Malaysian. */
  const Local: Pattern :=
    [Lit('0'), Digits(1, 2), OptSep, Digits(3, 4), OptSep, Digits(4, 4)]

  /** The patterns in the order `extractNumbersFromText` applies them. */
  function Patterns(): seq<Pattern> {
    [Malaysian, International, MalaysianNoPlus, Local]
  }

  /** The stretches of `s` that `spans` mark. */
  function Texts(s: string, spans: seq<Span>): (ws: seq<string>)
    requires forall k :: 0 <= k < |spans| ==> spans[k].start <= spans[k].end <= |s|
    ensures |ws| == |spans|
    ensures forall k :: 0 <= k < |spans| ==> ws[k] == s[spans[k].start..spans[k].end]
  {
    seq(|spans|, k requires 0 <= k < |spans| => s[spans[k].start..spans[k].end])
  }

  /** `text.match(p)` for a global pattern `p`; `null` (no match) is the empty list. */
  function Matches(p: Pattern, text: string): seq<string> {
    ScanTexts(p, text, 0)
  }

  /** The matches of the patterns `ps`, pattern by pattern. */
  function FoundBy(ps: seq<Pattern>, text: string): seq<string> {
    if ps == [] then [] else FoundBy(ps[..|ps| - 1], text) + Matches(ps[|ps| - 1], text)
  }

  /** What `extractNumbersFromText(text)` returns. */
  function CandidatesIn(text: string): seq<string> {
    if text == [] then [] else FoundBy(Patterns(), text)
  }

  /** The scanner behind `text.match(p)`: try the pattern at `lastIndex`,
      report the match and resume after it, or move one position on. */
  method GlobalMatch(p: Pattern, text: string) returns (matches: seq<string>)
    ensures matches == Matches(p, text)
  {
    matches := [];
    var lastIndex := 0;
    while lastIndex <= |text|
      invariant lastIndex <= |text| + 1
      invariant matches + ScanTexts(p, text, lastIndex) == Matches(p, text)
      decreases |text| + 1 - lastIndex
    {
      var r := MatchFrom(p, text, lastIndex);
      if r.None? {
        ScanTextsSkip(p, text, lastIndex);
        lastIndex := lastIndex + 1;
      } else {
        ScanTextsTake(p, text, lastIndex);
        var end := r.value[|p|];
        ghost var rest := ScanTexts(p, text, Resume(Span(lastIndex, end)));
        assert (matches + [text[lastIndex..end]]) + rest == matches + ([text[lastIndex..end]] + rest);
        matches := matches + [text[lastIndex..end]];
        lastIndex := if end == lastIndex then end + 1 else end;
      }
    }
  }

  /** The texts of the global scan from `from` on. */
  function ScanTexts(p: Pattern, s: string, from: nat): seq<string> {
    Texts(s, ScanFrom(p, s, from))
  }

  lemma ScanTextsSkip(p: Pattern, s: string, i: nat)
    requires i <= |s| && MatchFrom(p, s, i).None?
    ensures ScanTexts(p, s, i) == ScanTexts(p, s, i + 1)
  {
    ScanFromSkip(p, s, i);
  }

  lemma ScanTextsTake(p: Pattern, s: string, i: nat)
    requires i <= |s| && MatchFrom(p, s, i).Some?
    ensures var e := MatchFrom(p, s, i).value[|p|];
      && i <= e <= |s|
      && ScanTexts(p, s, i) == [s[i..e]] + ScanTexts(p, s, Resume(Span(i, e)))
  {
    ScanFromTake(p, s, i);
    var e := MatchFrom(p, s, i).value[|p|];
    var next := Resume(Span(i, e));
    TextsCons(s, Span(i, e), ScanFrom(p, s, next));
  }

  lemma TextsCons(s: string, sp: Span, rest: seq<Span>)
    requires sp.start <= sp.end <= |s|
    requires forall k :: 0 <= k < |rest| ==> rest[k].start <= rest[k].end <= |s|
    ensures Texts(s, [sp] + rest) == [s[sp.start..sp.end]] + Texts(s, rest)
  {
    var l := Texts(s, [sp] + rest);
    var r := [s[sp.start..sp.end]] + Texts(s, rest);
    forall k | 0 <= k < |l| ensures l[k] == r[k] {
      if k > 0 {
        assert ([sp] + rest)[k] == rest[k - 1];
      }
    }
  }

  /** content.js:111-130: nothing for a falsy (empty) text; otherwise every
      pattern's matches, pattern after pattern. */
  method ExtractNumbersFromText(text: string) returns (foundNumbers: seq<string>)
    ensures foundNumbers == CandidatesIn(text)
  {
    if text == [] {
      return [];
    }
    foundNumbers := MatchAll(Patterns(), text);
  }

  /** content.js:121-127: `text.match(pattern)` for each pattern, the
      matches appended pattern after pattern. */
  method MatchAll(patterns: seq<Pattern>, text: string) returns (foundNumbers: seq<string>)
    ensures foundNumbers == FoundBy(patterns, text)
  {
    foundNumbers := [];
    for n := 0 to |patterns|
      invariant foundNumbers == FoundBy(patterns[..n], text)
    {
      var matches := GlobalMatch(patterns[n], text);
      FoundByStep(patterns[..n], patterns[n], text);
      assert patterns[..n + 1] == patterns[..n] + [patterns[n]];
      foundNumbers := foundNumbers + matches;
    }
    assert patterns[..|patterns|] == patterns;
  }

  lemma FoundByStep(ps: seq<Pattern>, p: Pattern, text: string)
    ensures FoundBy(ps + [p], text) == FoundBy(ps, text) + Matches(p, text)
  {
    assert (ps + [p])[..|ps|] == ps;
  }

  /** Each pattern's part of the result lists its leftmost, non-overlapping
      matches from left to right, and the parts come in pattern order. */
  lemma CandidatesOrder(text: string)
    requires text != []
    ensures CandidatesIn(text)
         == Matches(Malaysian, text) + Matches(International, text)
          + Matches(MalaysianNoPlus, text) + Matches(Local, text)
    ensures forall k :: 0 <= k < |Patterns()| ==>
              LeftmostMatches(Patterns()[k], text, ScanFrom(Patterns()[k], text, 0), 0)
  {
    FoundByFour(Malaysian, International, MalaysianNoPlus, Local, text);
    forall k | 0 <= k < |Patterns()|
      ensures LeftmostMatches(Patterns()[k], text, ScanFrom(Patterns()[k], text, 0), 0)
    {
      ScanFromLeftmost(Patterns()[k], text, 0);
    }
  }

  lemma FoundByFour(a: Pattern, b: Pattern, c: Pattern, d: Pattern, text: string)
    ensures FoundBy([a, b, c, d], text)
         == Matches(a, text) + Matches(b, text) + Matches(c, text) + Matches(d, text)
  {
    var ps := [a, b, c, d];
    assert ps[..3] == [a, b, c] && ps[..3][..2] == [a, b] && ps[..3][..2][..1] == [a] && ps[..3][..2][..1][..0] == [];
    var ma, mb, mc, md := Matches(a, text), Matches(b, text), Matches(c, text), Matches(d, text);
    assert FoundBy([a], text) == FoundBy([], text) + ma;
    assert FoundBy([a, b], text) == FoundBy([a], text) + mb;
    assert FoundBy([a, b, c], text) == FoundBy([a, b], text) + mc;
    assert FoundBy(ps, text) == FoundBy([a, b, c], text) + md;
    assert [] + ma == ma;
  }

  /** A string the patterns `ps` found was found by one of them. */
  lemma {:induction false} FoundByFrom(ps: seq<Pattern>, text: string, m: string)
    requires m in FoundBy(ps, text)
    ensures exists k :: 0 <= k < |ps| && m in Matches(ps[k], text)
  {
    var init := ps[..|ps| - 1];
    if m !in Matches(ps[|ps| - 1], text) {
      FoundByFrom(init, text, m);
      var k :| 0 <= k < |init| && m in Matches(init[k], text);
      assert init[k] == ps[k];
    }
  }

  /** Every detection pattern asks for at least 9 digits, has only number
      characters as literals and no anchor. */
  lemma PatternsShape(k: nat)
    requires k < |Patterns()|
    ensures MinDigits(Patterns()[k]) >= 9
    ensures NumberLiterals(Patterns()[k]) && Unanchored(Patterns()[k])
  {
    if k == 0 {
      MalaysianDigits();
      MalaysianShape();
    } else if k == 1 {
      InternationalDigits();
      InternationalShape();
    } else if k == 2 {
      MalaysianNoPlusDigits();
      MalaysianNoPlusShape();
    } else {
      LocalDigits();
      LocalShape();
    }
  }

  lemma MalaysianShape()
    ensures NumberLiterals(Malaysian) && Unanchored(Malaysian)
  {
  }

  lemma MalaysianDigits()
    ensures MinDigits(Malaysian) == 10
  {
    var p := Malaysian;
    assert MinDigits(p[8..]) == 4;
    assert MinDigits(p[7..]) == 4;
    assert MinDigits(p[6..]) == 7;
    assert MinDigits(p[5..]) == 7;
    assert MinDigits(p[4..]) == 8;
    assert MinDigits(p[3..]) == 8;
    assert MinDigits(p[2..]) == 9;
    assert MinDigits(p[1..]) == 10;
  }

  lemma InternationalShape()
    ensures NumberLiterals(International) && Unanchored(International)
  {
  }

  lemma InternationalDigits()
    ensures MinDigits(International) == 9
  {
    var p := International;
    assert MinDigits(p[7..]) == 4;
    assert MinDigits(p[6..]) == 4;
    assert MinDigits(p[5..]) == 7;
    assert MinDigits(p[4..]) == 7;
    assert MinDigits(p[3..]) == 8;
    assert MinDigits(p[2..]) == 8;
    assert MinDigits(p[1..]) == 9;
  }

  lemma MalaysianNoPlusShape()
    ensures NumberLiterals(MalaysianNoPlus) && Unanchored(MalaysianNoPlus)
  {
  }

  lemma MalaysianNoPlusDigits()
    ensures MinDigits(MalaysianNoPlus) == 10
  {
    var p := MalaysianNoPlus;
    assert MinDigits(p[7..]) == 4;
    assert MinDigits(p[6..]) == 4;
    assert MinDigits(p[5..]) == 7;
    assert MinDigits(p[4..]) == 7;
    assert MinDigits(p[3..]) == 8;
    assert MinDigits(p[2..]) == 8;
    assert MinDigits(p[1..]) == 9;
  }

  lemma LocalShape()
    ensures NumberLiterals(Local) && Unanchored(Local)
  {
  }

  lemma LocalDigits()
    ensures MinDigits(Local) == 9
  {
    var p := Local;
    assert MinDigits(p[5..]) == 4;
    assert MinDigits(p[4..]) == 4;
    assert MinDigits(p[3..]) == 7;
    assert MinDigits(p[2..]) == 7;
    assert MinDigits(p[1..]) == 8;
  }

  /** A match of an unanchored pattern whose literals are number characters
      is a piece of the text and a whole word of the pattern, made of number
      characters, with at least the pattern's least number of digits. */
  lemma MatchFacts(p: Pattern, text: string, m: string)
    requires m in Matches(p, text)
    requires NumberLiterals(p) && Unanchored(p)
    ensures IsSubstring(m, text)
    ensures forall i :: 0 <= i < |m| ==> IsNumberChar(m[i])
    ensures CountDigits(m) >= MinDigits(p)
    ensures WordOf(p, m)
  {
    var spans := ScanFrom(p, text, 0);
    var idx :| 0 <= idx < |spans| && m == text[spans[idx].start..spans[idx].end];
    var sp := spans[idx];
    var t :| Fits(p, text, t) && t[0] == sp.start && t[|p|] == sp.end;
    FitsCountDigits(p, text, t);
    FitsNumberChars(p, text, t);
    NumberCharsSlice(text, sp.start, sp.end);
    OccursWord(p, text, sp);
  }

  /** What one candidate is: a piece of the text, made of `+`, digits and
      separators only, with at least 9 digits, and a whole word of one of the
      four patterns. */
  lemma CandidateFacts(text: string, m: string)
    requires m in CandidatesIn(text)
    ensures IsSubstring(m, text)
    ensures forall i :: 0 <= i < |m| ==> IsNumberChar(m[i])
    ensures CountDigits(m) >= 9
    ensures exists k :: 0 <= k < |Patterns()| && WordOf(Patterns()[k], m)
  {
    FoundByFrom(Patterns(), text, m);
    var k :| 0 <= k < |Patterns()| && m in Matches(Patterns()[k], text);
    PatternsShape(k);
    MatchFacts(Patterns()[k], text, m);
  }

  /** No text with fewer than 9 digits (the empty text included) yields a candidate. */
  lemma FewDigitsNoCandidates(text: string)
    ensures CountDigits(text) < 9 ==> CandidatesIn(text) == []
  {
    if CandidatesIn(text) != [] {
      var m := CandidatesIn(text)[0];
      CandidateFacts(text, m);
      var i, j :| 0 <= i <= j <= |text| && text[i..j] == m;
      CountDigitsSlice(text, i, j);
    }
  }
}
