/** `extractPhoneNumbers` (content.js:19-46): run the four strategies, each
    inside its own `try`, collect what they return in a `Set`, then format,
    validate, sort and drop repeats. */
module Aggregator {
  import opened Text
  import opened Scanner
  import opened Normalizer
  import opened Validation
  import opened StringOrder
  import opened Harvest

  /** What the `k`-th entry of `extractionMethods` (content.js:23-28) does
      on `doc`. Only the missing `document.body` of `extractFromAllText` is
      modelled as throwing; a spread `push(...)` too large for the engine,
      which could throw in any strategy, is not. */
  function Strategy(doc: Document, k: nat): Outcome
    requires k < 4
  {
    if k == 0 then Returned(ChatListNumbers(doc))
    else if k == 1 then ExtractFromAllText(doc)
    else if k == 2 then Returned(AttributeNumbers(doc))
    else Returned(AriaNumbers(doc))
  }

  /** What the strategies do on `doc`, in order. */
  function Outcomes(doc: Document): (os: seq<Outcome>)
    ensures |os| == 4
  {
    seq(4, k requires 0 <= k < 4 => Strategy(doc, k))
  }

  /** Everything the strategies returned, strategy after strategy; a strategy
      that threw contributes nothing (its exception is caught and logged). */
  function Harvested(outcomes: seq<Outcome>): seq<string> {
    if outcomes == [] then []
    else
      var last := outcomes[|outcomes| - 1];
      Harvested(outcomes[..|outcomes| - 1]) + if last.Returned? then last.numbers else []
  }

  lemma {:induction false} HarvestedAppend(a: seq<Outcome>, b: seq<Outcome>)
    ensures Harvested(a + b) == Harvested(a) + Harvested(b)
    decreases |b|
  {
    if b == [] {
      assert a + b == a;
    } else {
      var init := b[..|b| - 1];
      assert (a + b)[..|a + b| - 1] == a + init;
      HarvestedAppend(a, init);
    }
  }

  /** A strategy that throws does not disturb the others: the harvest is
      what the strategies that returned gave. */
  lemma FaultIsolation(a: seq<Outcome>, b: seq<Outcome>)
    ensures Harvested(a + [Threw] + b) == Harvested(a + b)
  {
    HarvestedAppend(a + [Threw], b);
    HarvestedAppend(a, [Threw]);
    HarvestedAppend(a, b);
    assert Harvested([Threw]) == Harvested([]) + [];
  }

  /** A string is harvested exactly when a strategy that returned gave it. */
  lemma {:induction false} HarvestedMember(outcomes: seq<Outcome>, c: string)
    ensures c in Harvested(outcomes) <==>
      exists o :: o in outcomes && o.Returned? && c in o.numbers
  {
    if outcomes != [] {
      var init := outcomes[..|outcomes| - 1];
      HarvestedMember(init, c);
      assert outcomes == init + [outcomes[|outcomes| - 1]];
    }
  }

  /** `phoneNumbers.add(num)`: a `Set` keeps its strings in the order they
      were first added. */
  function Add(collected: seq<string>, num: string): seq<string> {
    if num in collected then collected else collected + [num]
  }

  /** Adding the strings one after the other gives the first copy of each. */
  lemma DistinctStep(s: seq<string>, x: string)
    ensures Distinct(s + [x]) == Add(Distinct(s), x)
  {
    assert (s + [x])[..|s|] == s;
  }

  /** `.filter(keep)`. */
  function Filter(keep: string -> bool, s: seq<string>): (r: seq<string>)
    ensures forall x :: x in r <==> x in s && keep(x)
  {
    if s == [] then []
    else
      var init := s[..|s| - 1];
      var last := s[|s| - 1];
      assert s == init + [last];
      Filter(keep, init) + if keep(last) then [last] else []
  }

  /** After mapping, filtering and sorting, a string is there exactly when it
      passes the filter and is the image of an input string. */
  lemma SortFilterMapMember(f: string -> string, keep: string -> bool, s: seq<string>, x: string)
    ensures x in Sort(Filter(keep, Map(f, s))) <==> keep(x) && exists c :: c in s && x == f(c)
  {
    var mapped := Map(f, s);
    var sorted := Sort(Filter(keep, mapped));
    assert x in sorted <==> x in multiset(sorted);
    assert x in Filter(keep, mapped) <==> x in multiset(Filter(keep, mapped));
    if x in mapped {
      var k :| 0 <= k < |mapped| && mapped[k] == x;
      assert s[k] in s;
    }
    if exists c :: c in s && x == f(c) {
      var c :| c in s && x == f(c);
      var k :| 0 <= k < |s| && s[k] == c;
      assert mapped[k] == x;
    }
  }

  /** content.js:40-45: format, keep the valid ones, sort, drop repeats. */
  function Finish(collected: seq<string>): seq<string> {
    Distinct(Sort(Filter(IsValidPhoneNumber, Map(FormatPhoneNumber, collected))))
  }

  /** What `extractPhoneNumbers()` returns for `doc`. */
  function ExtractedNumbers(doc: Document): seq<string> {
    Finish(Distinct(Harvested(Outcomes(doc))))
  }

  /** `method()` inside the `try` of content.js:31-33, for the `k`-th strategy. */
  method RunStrategy(doc: Document, k: nat) returns (outcome: Outcome)
    requires k < 4
    ensures outcome == Strategy(doc, k) == Outcomes(doc)[k]
  {
    if k == 0 {
      var numbers := ExtractFromChatList(doc);
      outcome := Returned(numbers);
    } else if k == 1 {
      outcome := ExtractFromAllText(doc);
    } else if k == 2 {
      var numbers := ExtractFromAttributes(doc);
      outcome := Returned(numbers);
    } else {
      var numbers := ExtractFromAriaLabels(doc);
      outcome := Returned(numbers);
    }
  }

  /** What one strategy adds to the harvest. */
  function Part(outcome: Outcome): seq<string> {
    if outcome.Returned? then outcome.numbers else []
  }

  lemma HarvestedStep(outcomes: seq<Outcome>, outcome: Outcome)
    ensures Harvested(outcomes + [outcome]) == Harvested(outcomes) + Part(outcome)
  {
    assert (outcomes + [outcome])[..|outcomes|] == outcomes;
  }

  /** content.js:32: `numbers.forEach(num => phoneNumbers.add(num))`. */
  method AddAll(phoneNumbers: seq<string>, ghost before: seq<string>, numbers: seq<string>)
    returns (added: seq<string>)
    requires phoneNumbers == Distinct(before)
    ensures added == Distinct(before + numbers)
  {
    added := phoneNumbers;
    assert before + numbers[..0] == before;
    for j := 0 to |numbers|
      invariant added == Distinct(before + numbers[..j])
    {
      assert before + numbers[..j + 1] == (before + numbers[..j]) + [numbers[j]];
      DistinctStep(before + numbers[..j], numbers[j]);
      added := Add(added, numbers[j]);
    }
    assert numbers[..|numbers|] == numbers;
  }

  /** content.js:19-46. */
  method ExtractPhoneNumbers(doc: Document) returns (result: seq<string>)
    ensures result == ExtractedNumbers(doc)
  {
    var phoneNumbers: seq<string> := [];
    for k := 0 to 4
      invariant phoneNumbers == Distinct(Harvested(Outcomes(doc)[..k]))
    {
      var outcome := RunStrategy(doc, k);
      HarvestedPrefix(Outcomes(doc), k);
      if outcome.Returned? {
        phoneNumbers := AddAll(phoneNumbers, Harvested(Outcomes(doc)[..k]), outcome.numbers);
      }
    }
    HarvestedPrefix(Outcomes(doc), 4);
    result := Finish(phoneNumbers);
  }

  /** The harvest of the first `k + 1` strategies extends that of the first
      `k` by what the `k`-th returned. */
  lemma HarvestedPrefix(outcomes: seq<Outcome>, k: nat)
    requires k <= |outcomes|
    ensures k == |outcomes| ==> outcomes[..k] == outcomes
    ensures k < |outcomes| ==> Harvested(outcomes[..k + 1]) == Harvested(outcomes[..k]) + Part(outcomes[k])
    ensures k < |outcomes| && outcomes[k].Threw? ==> Harvested(outcomes[..k + 1]) == Harvested(outcomes[..k])
  {
    if k < |outcomes| {
      assert outcomes[..k + 1] == outcomes[..k] + [outcomes[k]];
      HarvestedStep(outcomes[..k], outcomes[k]);
      assert Harvested(outcomes[..k]) + [] == Harvested(outcomes[..k]);
    }
  }

  /** A string is in the result exactly when it is valid and is the
      formatted form of a string some strategy returned. */
  lemma ResultExact(doc: Document, x: string)
    ensures x in ExtractedNumbers(doc) <==>
      IsValidPhoneNumber(x) && exists c :: c in Harvested(Outcomes(doc)) && x == FormatPhoneNumber(c)
  {
    FinishExact(Harvested(Outcomes(doc)), x);
  }

  /** What `Finish` keeps of a collection: the valid formatted forms of its
      strings, whatever their order and repeats. */
  lemma FinishExact(harvest: seq<string>, x: string)
    ensures x in Finish(Distinct(harvest)) <==>
      IsValidPhoneNumber(x) && exists c :: c in harvest && x == FormatPhoneNumber(c)
  {
    SortFilterMapMember(FormatPhoneNumber, IsValidPhoneNumber, Distinct(harvest), x);
  }

  /** The result is in strictly ascending order, so it repeats nothing. */
  lemma ResultOrdered(doc: Document)
    ensures StrictlySorted(ExtractedNumbers(doc))
    ensures NoDuplicates(ExtractedNumbers(doc))
  {
    var collected := Distinct(Harvested(Outcomes(doc)));
    DistinctSorted(Sort(Filter(IsValidPhoneNumber, Map(FormatPhoneNumber, collected))));
  }

  /** Every number in the result starts with `+`, matches the validation
      pattern, and is already in the form the formatter produces. */
  lemma ResultFormatted(doc: Document, x: string)
    requires x in ExtractedNumbers(doc)
    ensures x != [] && x[0] == '+'
    ensures IsValidPhoneNumber(x)
    ensures FormatPhoneNumber(x) == x
  {
    ResultExact(doc, x);
    var c :| c in Harvested(Outcomes(doc)) && x == FormatPhoneNumber(c);
    FormatIdempotent(c);
  }

  /** Without a `body` the all-text strategy throws and the result is made of
      what the other three strategies found. */
  lemma NoBody(doc: Document)
    requires doc.body.None?
    ensures ExtractedNumbers(doc)
         == Finish(Distinct(ChatListNumbers(doc) + AttributeNumbers(doc) + AriaNumbers(doc)))
  {
    assert Outcomes(doc)
        == [Returned(ChatListNumbers(doc)), Threw, Returned(AttributeNumbers(doc)), Returned(AriaNumbers(doc))];
    SecondThrew(ChatListNumbers(doc), AttributeNumbers(doc), AriaNumbers(doc));
  }

  lemma SecondThrew(a: seq<string>, b: seq<string>, c: seq<string>)
    ensures Harvested([Returned(a), Threw, Returned(b), Returned(c)]) == a + b + c
  {
    var pre := [Returned(a)];
    var post := [Returned(b), Returned(c)];
    assert [Returned(a), Threw, Returned(b), Returned(c)] == pre + [Threw] + post;
    FaultIsolation(pre, post);
    HarvestedAppend(pre, post);
    HarvestedStep([], Returned(a));
    HarvestedStep([Returned(b)], Returned(c));
    HarvestedStep([], Returned(b));
    assert [] + [Returned(a)] == pre;
    assert [] + [Returned(b)] == [Returned(b)];
    assert [Returned(b)] + [Returned(c)] == post;
  }

  /** `c` is a candidate one of the four strategies finds: in the chat list,
      in the body text (when there is a body), in a `title` or in a label. */
  predicate FoundOnPage(doc: Document, c: string) {
    || c in ChatListNumbers(doc)
    || (doc.body.Some? && c in CandidatesIn(BodyText(doc.body.value)))
    || c in AttributeNumbers(doc)
    || c in AriaNumbers(doc)
  }

  /** A string is in the result exactly when it is valid and is the
      formatted form of a candidate one of the strategies found. */
  lemma ResultFromStrategies(doc: Document, x: string)
    ensures x in ExtractedNumbers(doc) <==>
      IsValidPhoneNumber(x) && exists c :: x == FormatPhoneNumber(c) && FoundOnPage(doc, c)
  {
    ResultExact(doc, x);
    if x in ExtractedNumbers(doc) {
      var c :| c in Harvested(Outcomes(doc)) && x == FormatPhoneNumber(c);
      HarvestedOnPage(doc, c);
    }
    if IsValidPhoneNumber(x) && exists c :: x == FormatPhoneNumber(c) && FoundOnPage(doc, c) {
      var c :| x == FormatPhoneNumber(c) && FoundOnPage(doc, c);
      HarvestedOnPage(doc, c);
    }
  }

  /** The harvest holds exactly the candidates the strategies find. */
  lemma HarvestedOnPage(doc: Document, c: string)
    ensures c in Harvested(Outcomes(doc)) <==> FoundOnPage(doc, c)
  {
    assert Outcomes(doc) == [Strategy(doc, 0), Strategy(doc, 1), Strategy(doc, 2), Strategy(doc, 3)];
    HarvestedFour(ChatListNumbers(doc), ExtractFromAllText(doc), AttributeNumbers(doc), AriaNumbers(doc));
    AllTextPart(doc, c);
  }

  /** What the all-text strategy adds to the harvest. */
  lemma AllTextPart(doc: Document, c: string)
    ensures c in Part(ExtractFromAllText(doc)) <==>
      doc.body.Some? && c in CandidatesIn(BodyText(doc.body.value))
  {
  }

  lemma HarvestedFour(a: seq<string>, o: Outcome, b: seq<string>, c: seq<string>)
    ensures Harvested([Returned(a), o, Returned(b), Returned(c)]) == a + Part(o) + b + c
  {
    var os := [Returned(a), o, Returned(b), Returned(c)];
    assert os[..3] == [Returned(a), o, Returned(b)] && os[..3][..2] == [Returned(a), o]
        && os[..3][..2][..1] == [Returned(a)] && os[..3][..2][..1][..0] == [];
    assert Harvested([Returned(a)]) == Harvested([]) + a;
    assert Harvested([Returned(a), o]) == Harvested([Returned(a)]) + Part(o);
    assert Harvested([Returned(a), o, Returned(b)]) == Harvested([Returned(a), o]) + b;
    assert Harvested(os) == Harvested([Returned(a), o, Returned(b)]) + c;
    assert [] + a == a;
  }

}
