/** The fragment of JavaScript regular expressions that the extractor writes:
    literal characters, the optional separator `[\s\-]?`, bounded digit runs
    `\d{lo,hi}` and the anchors `^` and `$`.

    `Fits` is what a pattern means: a list of boundaries that cuts a stretch
    of the subject into one piece per item. `MatchFrom` is how the JavaScript
    engine picks one of those cuts: it backtracks, tries an optional separator
    before skipping it and a digit count from the largest down, and keeps the
    first cut that succeeds. `Search` and `ScanFrom` are `RegExp.prototype.exec`
    from a start index and `String.prototype.match` with the `g` flag. */
module Regex {
  import opened Text

  datatype Item =
    | Lit(c: char)              // one literal character: `\+`, `6`, `0`
    | OptSep                    // `[\s\-]?`
    | Digits(lo: nat, hi: nat)  // `\d{lo,hi}`
    | Begin                     // `^`
    | End                       // `$`

  type Pattern = seq<Item>

  /** Item `x` matches exactly `s[a..b]`. */
  predicate ItemFits(x: Item, s: string, a: nat, b: nat) {
    a <= b <= |s| &&
    match x
    case Lit(c) => b == a + 1 && s[a] == c
    case OptSep => b == a || (b == a + 1 && IsSep(s[a]))
    case Digits(lo, hi) => a + lo <= b <= a + hi && AllDigits(s[a..b])
    case Begin => a == 0 && b == 0
    case End => a == |s| && b == |s|
  }

  /** `t` holds one boundary more than `p` has items, and item `k` of `p`
      matches `s[t[k]..t[k + 1]]`. */
  predicate Fits(p: Pattern, s: string, t: seq<nat>)
    decreases |p|
  {
    && |t| == |p| + 1
    && t[0] <= |s|
    && (p != [] ==> ItemFits(p[0], s, t[0], t[1]) && Fits(p[1..], s, t[1..]))
  }

  /** Every boundary of `t` lies between the first and the last, and the last
      is at most `bound`. */
  predicate Ascending(t: seq<nat>, bound: nat) {
    && |t| > 0
    && t[|t| - 1] <= bound
    && forall k :: 0 <= k < |t| ==> t[0] <= t[k] <= t[|t| - 1]
  }

  /** The boundaries of a fit never go backwards nor past the subject's end. */
  lemma {:induction false} FitsAscending(p: Pattern, s: string, t: seq<nat>)
    requires Fits(p, s, t)
    ensures Ascending(t, |s|)
  {
    if p != [] {
      FitsAscending(p[1..], s, t[1..]);
      forall k | 0 <= k < |t| ensures t[0] <= t[k] <= t[|t| - 1] {
        if k > 0 {
          assert t[k] == t[1..][k - 1];
        }
        assert t[1] == t[1..][0] && t[|t| - 1] == t[1..][|t| - 2];
      }
    }
  }

  /** A cut fits exactly when each item matches between its two boundaries. */
  lemma {:induction false} FitsItems(p: Pattern, s: string, t: seq<nat>)
    requires |t| == |p| + 1
    ensures Fits(p, s, t) <==>
      t[0] <= |s| && forall k :: 0 <= k < |p| ==> ItemFits(p[k], s, t[k], t[k + 1])
  {
    if p != [] {
      FitsItems(p[1..], s, t[1..]);
      if t[0] <= |s| && forall k :: 0 <= k < |p| ==> ItemFits(p[k], s, t[k], t[k + 1]) {
        assert ItemFits(p[0], s, t[0], t[1]);
        forall k | 0 <= k < |p| - 1 ensures ItemFits(p[1..][k], s, t[1..][k], t[1..][k + 1]) {
          assert ItemFits(p[k + 1], s, t[k + 1], t[k + 2]);
        }
      }
      if Fits(p, s, t) {
        forall k | 0 <= k < |p| ensures ItemFits(p[k], s, t[k], t[k + 1]) {
          if k > 0 {
            assert ItemFits(p[1..][k - 1], s, t[1..][k - 1], t[1..][k]);
          }
        }
      }
    }
  }

  function Min(a: nat, b: nat): nat {
    if a <= b then a else b
  }

  /** The number of consecutive digits of `s` from position `i` on. */
  function DigitRun(s: string, i: nat): (n: nat)
    requires i <= |s|
    ensures i + n <= |s| && AllDigits(s[i..i + n])
    ensures i + n < |s| ==> !IsDigit(s[i + n])
    decreases |s| - i
  {
    if i < |s| && IsDigit(s[i]) then
      var n := DigitRun(s, i + 1);
      assert s[i..i + 1][0] == s[i];
      DigitsJoin(s, i, i + 1, i + 1 + n);
      1 + n
    else 0
  }

  /** Where only digits follow `i`, the run reaches the end of the subject. */
  lemma {:induction false} DigitRunToEnd(s: string, i: nat)
    requires DigitsToEnd(s, i)
    ensures DigitRun(s, i) == |s| - i
    decreases |s| - i
  {
    if i < |s| {
      assert IsDigit(s[i..][0]);
      AllDigitsSuffix(s, i, i + 1);
      DigitRunToEnd(s, i + 1);
    }
  }

  /** No run of digits from `i` is longer than `DigitRun(s, i)`. */
  lemma DigitRunLongest(s: string, i: nat, j: nat)
    requires i <= j <= |s| && AllDigits(s[i..j])
    ensures j - i <= DigitRun(s, i)
  {
  }

  /** A shorter prefix of a run of digits is a run of digits. */
  lemma AllDigitsPrefix(s: string, i: nat, j: nat, k: nat)
    requires i <= k <= j <= |s| && AllDigits(s[i..j])
    ensures AllDigits(s[i..k])
  {
    forall m | 0 <= m < k - i ensures IsDigit(s[i..k][m]) {
      assert s[i..k][m] == s[i..j][m];
    }
  }

  /** A match of the rest of a pattern, with the boundary `i` put in front. */
  function Cons(i: nat, r: Option<seq<nat>>): Option<seq<nat>> {
    if r.Some? then Some([i] + r.value) else None
  }

  /** The first way, in the JavaScript engine's order of preference, in which
      `p` matches the subject from position `i`: the boundaries of the match,
      or `None` when no way exists. */
  function MatchFrom(p: Pattern, s: string, i: nat): (r: Option<seq<nat>>)
    requires i <= |s|
    ensures r.Some? ==> |r.value| == |p| + 1 && Fits(p, s, r.value) && r.value[0] == i
    decreases |p|, 1, 0
  {
    if p == [] then Some([i])
    else
      match p[0]
      case Lit(c) =>
        if i < |s| && s[i] == c then Cons(i, MatchFrom(p[1..], s, i + 1)) else None
      case OptSep =>
        var taken := if i < |s| && IsSep(s[i]) then MatchFrom(p[1..], s, i + 1) else None;
        if taken.Some? then Cons(i, taken) else Cons(i, MatchFrom(p[1..], s, i))
      case Digits(lo, hi) =>
        var run := DigitRun(s, i);
        AllDigitsPrefix(s, i, i + run, i + Min(hi, run));
        TryDigits(p, s, i, Min(hi, run))
      case Begin =>
        if i == 0 then Cons(i, MatchFrom(p[1..], s, i)) else None
      case End =>
        if i == |s| then Cons(i, MatchFrom(p[1..], s, i)) else None
  }

  /** `p` starts with `\d{lo,hi}` and the `k` characters from `i` on are
      digits that it may take. */
  predicate DigitsAvailable(p: Pattern, s: string, i: nat, k: nat) {
    p != [] && p[0].Digits? && i + k <= |s| && k <= p[0].hi && AllDigits(s[i..i + k])
  }

  /** The leading `\d{lo,hi}` of `p` takes `k` digits, then `k - 1`, down to
      `lo`, until the rest of the pattern matches. */
  function TryDigits(p: Pattern, s: string, i: nat, k: nat): (r: Option<seq<nat>>)
    requires DigitsAvailable(p, s, i, k)
    ensures r.Some? ==> Fits(p, s, r.value) && r.value[0] == i
    decreases |p|, 0, k
  {
    if k < p[0].lo then None
    else
      var rest := MatchFrom(p[1..], s, i + k);
      if rest.Some? then Cons(i, rest)
      else if k == 0 then None
      else
        AllDigitsPrefix(s, i, i + k, i + k - 1);
        TryDigits(p, s, i, k - 1)
  }

  /** One step of the engine on a leading literal that matches. */
  lemma MatchLit(p: Pattern, s: string, i: nat)
    requires p != [] && p[0].Lit? && i < |s| && s[i] == p[0].c
    ensures MatchFrom(p, s, i) == Cons(i, MatchFrom(p[1..], s, i + 1))
  {
  }

  /** One step of the engine on a leading `\d{lo,hi}` where only digits follow. */
  lemma MatchDigitsToEnd(p: Pattern, s: string, i: nat)
    requires p != [] && p[0].Digits? && DigitsToEnd(s, i)
    ensures DigitsAvailable(p, s, i, Min(p[0].hi, |s| - i))
    ensures MatchFrom(p, s, i) == TryDigits(p, s, i, Min(p[0].hi, |s| - i))
  {
    DigitRunToEnd(s, i);
    AllDigitsPrefix(s, i, |s|, i + Min(p[0].hi, |s| - i));
    assert s[i..] == s[i..|s|];
  }

  /** The digit count `k` is kept when the rest of the pattern matches after it. */
  lemma TryDigitsTake(p: Pattern, s: string, i: nat, k: nat)
    requires DigitsAvailable(p, s, i, k)
    requires p[0].lo <= k && MatchFrom(p[1..], s, i + k).Some?
    ensures TryDigits(p, s, i, k) == Cons(i, MatchFrom(p[1..], s, i + k))
  {
  }

  /** When the rest of the pattern matches after as many digits as the item
      may take from the run of digits at `i`, the engine keeps them all. */
  lemma MatchGreedy(p: Pattern, s: string, i: nat, rest: seq<nat>)
    requires p != [] && p[0].Digits? && i <= |s|
    requires p[0].lo <= Min(p[0].hi, DigitRun(s, i))
    requires MatchFrom(p[1..], s, i + Min(p[0].hi, DigitRun(s, i))) == Some(rest)
    ensures MatchFrom(p, s, i) == Some([i] + rest)
  {
  }

  /** Otherwise the engine gives back one digit. */
  lemma TryDigitsBack(p: Pattern, s: string, i: nat, k: nat)
    requires DigitsAvailable(p, s, i, k)
    requires p[0].lo <= k && 0 < k && MatchFrom(p[1..], s, i + k).None?
    ensures DigitsAvailable(p, s, i, k - 1)
    ensures TryDigits(p, s, i, k) == TryDigits(p, s, i, k - 1)
  {
    AllDigitsPrefix(s, i, i + k, i + k - 1);
  }

  /** `u` equals `t` or comes after it when boundaries are compared from the
      first on: the order in which the engine prefers the ways to match. */
  predicate LexAtLeast(u: seq<nat>, t: seq<nat>)
    decreases |u|
  {
    && |u| == |t|
    && (u == [] || u[0] > t[0] || (u[0] == t[0] && LexAtLeast(u[1..], t[1..])))
  }

  /** At most one of two different boundary sequences comes first. */
  lemma {:induction false} LexAntisymmetric(u: seq<nat>, t: seq<nat>)
    requires LexAtLeast(u, t) && LexAtLeast(t, u)
    ensures u == t
  {
    if u != [] {
      LexAntisymmetric(u[1..], t[1..]);
      assert u == [u[0]] + u[1..] && t == [t[0]] + t[1..];
    }
  }

  lemma {:induction false} LexReflexive(u: seq<nat>)
    ensures LexAtLeast(u, u)
  {
    if u != [] {
      LexReflexive(u[1..]);
    }
  }

  lemma LexCons(i: nat, x: seq<nat>, t: seq<nat>)
    requires |t| == |x| + 1 && t[0] == i && LexAtLeast(x, t[1..])
    ensures LexAtLeast([i] + x, t)
  {
    assert ([i] + x)[1..] == x;
  }

  lemma LexConsAbove(i: nat, x: seq<nat>, t: seq<nat>)
    requires |t| == |x| + 1 && t[0] == i && x != [] && x[0] > t[1]
    ensures LexAtLeast([i] + x, t)
  {
    assert ([i] + x)[1..] == x;
  }

  /** Whenever some cut fits, the engine finds a match at that position, and
      its match comes no later than that cut in the engine's preference: the
      engine reports the greatest cut, longest digit groups and taken
      separators first. */
  lemma {:induction false} MatchFromComplete(p: Pattern, s: string, t: seq<nat>)
    requires Fits(p, s, t)
    ensures MatchFrom(p, s, t[0]).Some? && LexAtLeast(MatchFrom(p, s, t[0]).value, t)
    decreases |p|, 1, 0
  {
    if p == [] {
      assert t == [t[0]];
      LexReflexive(t);
    } else if p[0].Digits? {
      DigitRunLongest(s, t[0], t[1]);
      var run := DigitRun(s, t[0]);
      AllDigitsPrefix(s, t[0], t[0] + run, t[0] + Min(p[0].hi, run));
      TryDigitsComplete(p, s, t, Min(p[0].hi, run));
    } else {
      MatchFromComplete(p[1..], s, t[1..]);
      MatchStep(p, s, t);
    }
  }

  /** A leading item other than `\d{lo,hi}` that fits is taken by the engine
      once the rest matches after it; a separator the cut leaves out is still
      taken first when the rest matches after it. */
  lemma MatchStep(p: Pattern, s: string, t: seq<nat>)
    requires Fits(p, s, t) && p != [] && !p[0].Digits?
    requires MatchFrom(p[1..], s, t[1]).Some? && LexAtLeast(MatchFrom(p[1..], s, t[1]).value, t[1..])
    ensures MatchFrom(p, s, t[0]).Some? && LexAtLeast(MatchFrom(p, s, t[0]).value, t)
  {
    var i := t[0];
    assert ItemFits(p[0], s, i, t[1]);
    if p[0].OptSep? && t[1] == i && i < |s| && IsSep(s[i]) && MatchFrom(p[1..], s, i + 1).Some? {
      MatchSepFirst(p, s, i);
      LexConsAbove(i, MatchFrom(p[1..], s, i + 1).value, t);
    } else {
      MatchOneItem(p, s, i, t[1]);
      LexCons(i, MatchFrom(p[1..], s, t[1]).value, t);
    }
  }

  /** A separator that may be taken is taken when the rest matches after it. */
  lemma MatchSepFirst(p: Pattern, s: string, i: nat)
    requires p != [] && p[0].OptSep? && i < |s| && IsSep(s[i])
    requires MatchFrom(p[1..], s, i + 1).Some?
    ensures MatchFrom(p, s, i) == Cons(i, MatchFrom(p[1..], s, i + 1))
  {
  }

  /** A leading item other than `\d{lo,hi}` that matches `s[i..j]` is matched
      there when the rest matches after it, unless it is a separator left out
      that the engine could take. */
  lemma MatchOneItem(p: Pattern, s: string, i: nat, j: nat)
    requires p != [] && !p[0].Digits? && ItemFits(p[0], s, i, j)
    requires MatchFrom(p[1..], s, j).Some?
    requires !(p[0].OptSep? && j == i && i < |s| && IsSep(s[i]) && MatchFrom(p[1..], s, i + 1).Some?)
    ensures MatchFrom(p, s, i) == Cons(i, MatchFrom(p[1..], s, j))
  {
  }

  /** Giving back digits from `k` downwards finds a match no later than any
      cut whose digit group is at most `k` long. */
  lemma {:induction false} TryDigitsComplete(p: Pattern, s: string, t: seq<nat>, k: nat)
    requires Fits(p, s, t) && DigitsAvailable(p, s, t[0], k)
    requires t[1] - t[0] <= k
    ensures TryDigits(p, s, t[0], k).Some? && LexAtLeast(TryDigits(p, s, t[0], k).value, t)
    decreases |p|, 0, k
  {
    var i := t[0];
    assert ItemFits(p[0], s, t[0], t[1]);
    if k == t[1] - i {
      MatchFromComplete(p[1..], s, t[1..]);
      LexCons(i, MatchFrom(p[1..], s, t[1]).value, t);
    } else if MatchFrom(p[1..], s, i + k).Some? {
      LexConsAbove(i, MatchFrom(p[1..], s, i + k).value, t);
    } else {
      AllDigitsPrefix(s, i, i + k, i + k - 1);
      TryDigitsComplete(p, s, t, k - 1);
    }
  }

  /** Some cut of `p` starts at position `j`. */
  ghost predicate CanStartAt(p: Pattern, s: string, j: nat) {
    exists t :: Fits(p, s, t) && t[0] == j
  }

  /** The engine matches at `j` exactly when some cut starts there. */
  lemma MatchFromExact(p: Pattern, s: string, j: nat)
    requires j <= |s|
    ensures MatchFrom(p, s, j).Some? <==> CanStartAt(p, s, j)
  {
    if CanStartAt(p, s, j) {
      var t :| Fits(p, s, t) && t[0] == j;
      MatchFromComplete(p, s, t);
    }
  }

  datatype Found = Found(start: nat, trace: seq<nat>)

  /** `RegExp.prototype.exec` from index `from`: the leftmost position at or
      after `from` where the engine matches, and that match. */
  function Search(p: Pattern, s: string, from: nat): (r: Option<Found>)
    ensures r.Some? ==> from <= r.value.start <= |s| && MatchFrom(p, s, r.value.start) == Some(r.value.trace)
    ensures r.Some? ==> forall j :: from <= j < r.value.start ==> MatchFrom(p, s, j).None?
    ensures r.None? ==> forall j :: from <= j <= |s| ==> MatchFrom(p, s, j).None?
    decreases |s| + 1 - from
  {
    if from > |s| then None
    else
      match MatchFrom(p, s, from)
      case Some(t) => Some(Found(from, t))
      case None => Search(p, s, from + 1)
  }

  /** Where some cut starts at or after `from`, a search from `from` succeeds. */
  lemma SearchFinds(p: Pattern, s: string, from: nat, t: seq<nat>)
    requires Fits(p, s, t) && from <= t[0]
    ensures Search(p, s, from).Some?
  {
    MatchFromComplete(p, s, t);
  }

  /** A matched stretch `s[start..end]`. */
  datatype Span = Span(start: nat, end: nat)

  /** Where a global search resumes after a match: its end, one further for an
      empty match. */
  function Resume(sp: Span): nat {
    if sp.end == sp.start then sp.end + 1 else sp.end
  }

  /** `s[sp.start..sp.end]` is a whole cut of `p`. */
  ghost predicate Occurs(p: Pattern, s: string, sp: Span) {
    exists t :: Fits(p, s, t) && t[0] == sp.start && t[|p|] == sp.end
  }

  /** The spans `String.prototype.match` with the `g` flag reports, searching
      from `from` on. */
  function ScanFrom(p: Pattern, s: string, from: nat): (spans: seq<Span>)
    ensures forall k :: 0 <= k < |spans| ==> from <= spans[k].start <= spans[k].end <= |s|
    ensures forall k :: 0 <= k < |spans| ==> Occurs(p, s, spans[k])
    decreases |s| + 1 - from
  {
    match Search(p, s, from)
    case None => []
    case Some(f) =>
      FitsAscending(p, s, f.trace);
      var sp := Span(f.start, f.trace[|p|]);
      assert Occurs(p, s, sp) by {
        assert Fits(p, s, f.trace) && f.trace[0] == sp.start;
      }
      [sp] + ScanFrom(p, s, Resume(sp))
  }

  /** Where the engine finds no match the global scan moves one position on. */
  lemma ScanFromSkip(p: Pattern, s: string, i: nat)
    requires i <= |s| && MatchFrom(p, s, i).None?
    ensures ScanFrom(p, s, i) == ScanFrom(p, s, i + 1)
  {
    assert Search(p, s, i) == Search(p, s, i + 1);
  }

  /** Where the engine matches the global scan reports the match and resumes after it. */
  lemma ScanFromTake(p: Pattern, s: string, i: nat)
    requires i <= |s| && MatchFrom(p, s, i).Some?
    ensures var t := MatchFrom(p, s, i).value;
      && i <= t[|p|] <= |s|
      && ScanFrom(p, s, i) == [Span(i, t[|p|])] + ScanFrom(p, s, Resume(Span(i, t[|p|])))
  {
    FitsAscending(p, s, MatchFrom(p, s, i).value);
  }

  /** `s[sp.start..sp.end]` is cut by the way of matching the engine prefers
      among all cuts that start at `sp.start`. */
  ghost predicate Preferred(p: Pattern, s: string, sp: Span) {
    exists u ::
      && Fits(p, s, u) && u[0] == sp.start && u[|p|] == sp.end
      && forall t :: Fits(p, s, t) && t[0] == sp.start ==> LexAtLeast(u, t)
  }

  /** The preference fixes where a match that starts at a given position ends. */
  lemma PreferredEnd(p: Pattern, s: string, a: Span, b: Span)
    requires Preferred(p, s, a) && Preferred(p, s, b) && a.start == b.start
    ensures a.end == b.end
  {
    var u :| Fits(p, s, u) && u[0] == a.start && u[|p|] == a.end
             && forall t :: Fits(p, s, t) && t[0] == a.start ==> LexAtLeast(u, t);
    var v :| Fits(p, s, v) && v[0] == b.start && v[|p|] == b.end
             && forall t :: Fits(p, s, t) && t[0] == b.start ==> LexAtLeast(v, t);
    LexAntisymmetric(u, v);
  }

  /** What a global match promises, independently of how the engine proceeds:
      each span starts at or after the point where the previous one let the
      search resume, no match of `p` starts in between, none starts after the
      last one, and each span ends where the preferred way of matching from
      its start ends. */
  ghost predicate LeftmostMatches(p: Pattern, s: string, spans: seq<Span>, from: nat)
    decreases |spans|
  {
    if spans == [] then
      forall j :: from <= j <= |s| ==> !CanStartAt(p, s, j)
    else
      && from <= spans[0].start
      && Preferred(p, s, spans[0])
      && (forall j :: from <= j < spans[0].start ==> !CanStartAt(p, s, j))
      && LeftmostMatches(p, s, spans[1..], Resume(spans[0]))
  }

  /** The global scan reports the leftmost, non-overlapping matches and misses none. */
  lemma {:induction false} ScanFromLeftmost(p: Pattern, s: string, from: nat)
    ensures LeftmostMatches(p, s, ScanFrom(p, s, from), from)
    decreases |s| + 1 - from
  {
    var spans := ScanFrom(p, s, from);
    match Search(p, s, from)
    case None =>
      forall j | from <= j <= |s| ensures !CanStartAt(p, s, j) {
        MatchFromExact(p, s, j);
      }
    case Some(f) =>
      FitsAscending(p, s, f.trace);
      var sp := Span(f.start, f.trace[|p|]);
      assert spans == [sp] + ScanFrom(p, s, Resume(sp));
      forall t | Fits(p, s, t) && t[0] == sp.start ensures LexAtLeast(f.trace, t) {
        MatchFromComplete(p, s, t);
      }
      assert Preferred(p, s, sp);
      forall j | from <= j < sp.start ensures !CanStartAt(p, s, j) {
        MatchFromExact(p, s, j);
      }
      ScanFromLeftmost(p, s, Resume(sp));
      assert spans[1..] == ScanFrom(p, s, Resume(sp));
  }

  /** The fewest digits any match of the item contains. */
  function ItemMinDigits(x: Item): nat {
    match x
    case Lit(c) => if IsDigit(c) then 1 else 0
    case Digits(lo, _) => lo
    case _ => 0
  }

  function MinDigits(p: Pattern): nat {
    if p == [] then 0 else ItemMinDigits(p[0]) + MinDigits(p[1..])
  }

  /** A match of `p` contains at least `MinDigits(p)` digits. */
  lemma {:induction false} FitsCountDigits(p: Pattern, s: string, t: seq<nat>)
    requires Fits(p, s, t)
    ensures t[0] <= t[|p|] <= |s| && CountDigits(s[t[0]..t[|p|]]) >= MinDigits(p)
  {
    FitsAscending(p, s, t);
    if p != [] {
      FitsCountDigits(p[1..], s, t[1..]);
      var a, b, e := t[0], t[1], t[|p|];
      assert s[a..e] == s[a..b] + s[b..e];
      CountDigitsAppend(s[a..b], s[b..e]);
      match p[0]
      case Digits(lo, hi) => CountAllDigits(s[a..b]);
      case Lit(c) => assert s[a..b] == [c];
      case _ =>
    }
  }

  /** Every literal of `p` is a character a phone number may contain. */
  predicate NumberLiterals(p: Pattern) {
    forall x :: x in p && x.Lit? ==> IsNumberChar(x.c)
  }

  /** A match of a pattern whose literals are number characters is made of
      number characters only. */
  lemma {:induction false} FitsNumberChars(p: Pattern, s: string, t: seq<nat>)
    requires Fits(p, s, t) && NumberLiterals(p)
    ensures t[|p|] <= |s|
    ensures forall m :: t[0] <= m < t[|p|] ==> IsNumberChar(s[m])
  {
    FitsAscending(p, s, t);
    if p != [] {
      FitsNumberChars(p[1..], s, t[1..]);
      forall m | t[0] <= m < t[1] ensures IsNumberChar(s[m]) {
        if p[0].Digits? {
          assert s[m] == s[t[0]..t[1]][m - t[0]];
        }
      }
    }
  }

  /** `p` has no anchors, so a cut can be moved into any stretch around it. */
  predicate Unanchored(p: Pattern) {
    forall x :: x in p ==> !x.Begin? && !x.End?
  }

  function Shift(t: seq<nat>, d: nat): (u: seq<nat>)
    requires forall k :: 0 <= k < |t| ==> d <= t[k]
    ensures |u| == |t| && forall k :: 0 <= k < |t| ==> u[k] == t[k] - d
  {
    seq(|t|, k requires 0 <= k < |t| => t[k] - d)
  }

  /** A cut of an unanchored pattern inside `s[lo..hi]` is a cut of that stretch. */
  lemma {:induction false} FitsShift(p: Pattern, s: string, t: seq<nat>, lo: nat, hi: nat)
    requires Fits(p, s, t) && Unanchored(p)
    requires lo <= t[0] && t[|p|] <= hi <= |s|
    ensures Ascending(t, |s|) && Fits(p, s[lo..hi], Shift(t, lo))
  {
    FitsAscending(p, s, t);
    var w := s[lo..hi];
    var u := Shift(t, lo);
    if p != [] {
      FitsShift(p[1..], s, t[1..], lo, hi);
      assert u[1..] == Shift(t[1..], lo);
      var a, b := t[0], t[1];
      if p[0].Lit? || (p[0].OptSep? && b == a + 1) {
        assert w[a - lo] == s[a];
      } else if p[0].Digits? {
        assert b <= t[|p|] by { assert t[|t| - 1] == t[|p|]; }
        SliceOfSlice(s, lo, hi, a, b);
      }
      assert ItemFits(p[0], w, u[0], u[1]);
    } else {
      assert u[0] <= |w|;
    }
  }

  lemma SliceOfSlice(s: string, lo: nat, hi: nat, a: nat, b: nat)
    requires lo <= a <= b <= hi <= |s|
    ensures s[lo..hi][a - lo..b - lo] == s[a..b]
  {
    var w := s[lo..hi];
    assert |w[a - lo..b - lo]| == |s[a..b]|;
    forall k | 0 <= k < b - a ensures w[a - lo..b - lo][k] == s[a..b][k] {
      assert w[a - lo + k] == s[a + k];
    }
  }

  /** The whole of `w` is a word of `p`. */
  ghost predicate WordOf(p: Pattern, w: string) {
    exists t :: Fits(p, w, t) && t[0] == 0 && t[|p|] == |w|
  }

  /** The stretch of a span that occurs in `s` is a word of the pattern. */
  lemma OccursWord(p: Pattern, s: string, sp: Span)
    requires Occurs(p, s, sp) && Unanchored(p)
    ensures sp.start <= sp.end <= |s| && WordOf(p, s[sp.start..sp.end])
  {
    var t :| Fits(p, s, t) && t[0] == sp.start && t[|p|] == sp.end;
    FitsAscending(p, s, t);
    FitsShift(p, s, t, sp.start, sp.end);
    var u := Shift(t, sp.start);
    assert Fits(p, s[sp.start..sp.end], u) && u[0] == 0 && u[|p|] == sp.end - sp.start;
  }

  /** The cut of a whole-string word, item by item. */
  lemma WordCut(p: Pattern, w: string) returns (t: seq<nat>)
    requires WordOf(p, w)
    ensures |t| == |p| + 1 && t[0] == 0 && t[|p|] == |w|
    ensures forall k :: 0 <= k < |p| ==> ItemFits(p[k], w, t[k], t[k + 1])
  {
    t :| Fits(p, w, t) && t[0] == 0 && t[|p|] == |w|;
    FitsItems(p, w, t);
  }

  /** `^q$`: the pattern `q` anchored at both ends. */
  function Anchored(q: Pattern): (p: Pattern)
    ensures |p| == |q| + 2 && p[0] == Begin && p[|q| + 1] == End
    ensures forall k :: 0 <= k < |q| ==> p[k + 1] == q[k]
  {
    [Begin] + q + [End]
  }

  /** An anchored pattern finds a match exactly in the whole-string words of `q`. */
  lemma AnchoredExact(q: Pattern, s: string)
    ensures Search(Anchored(q), s, 0).Some? <==> WordOf(q, s)
  {
    if Search(Anchored(q), s, 0).Some? {
      AnchoredWord(q, s);
    }
    if WordOf(q, s) {
      WordAnchored(q, s);
    }
  }

  lemma AnchoredWord(q: Pattern, s: string)
    requires Search(Anchored(q), s, 0).Some?
    ensures WordOf(q, s)
  {
    var p := Anchored(q);
    var t := Search(p, s, 0).value.trace;
    FitsItems(p, s, t);
    assert ItemFits(p[0], s, t[0], t[1]);
    assert ItemFits(p[|q| + 1], s, t[|q| + 1], t[|q| + 2]);
    var u := t[1..|q| + 2];
    forall k | 0 <= k < |q| ensures ItemFits(q[k], s, u[k], u[k + 1]) {
      assert ItemFits(p[k + 1], s, t[k + 1], t[k + 2]);
    }
    FitsItems(q, s, u);
  }

  lemma WordAnchored(q: Pattern, s: string)
    requires WordOf(q, s)
    ensures Search(Anchored(q), s, 0).Some?
  {
    var p := Anchored(q);
    var u :| Fits(q, s, u) && u[0] == 0 && u[|q|] == |s|;
    FitsItems(q, s, u);
    var t := [0] + u + [|s|];
    forall k | 0 <= k < |p| ensures ItemFits(p[k], s, t[k], t[k + 1]) {
      if 0 < k <= |q| {
        assert ItemFits(q[k - 1], s, u[k - 1], u[k]);
      }
    }
    FitsItems(p, s, t);
    SearchFinds(p, s, 0, t);
  }
}
