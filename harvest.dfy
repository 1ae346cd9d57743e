/** The four harvesting strategies of content.js and `getElementText`, over a
    document that is only read. */
module Harvest {
  import opened Text
  import opened Scanner

  /** What the strategies read of a DOM element: `textContent`, `innerText`,
      the `title` attribute, and the `aria-label` and `data-pre-plain-text`
      attributes. `None` is `null` or `undefined`. The `title` property that
      `getElementText` reads is taken to be the attribute, as it is on HTML
      elements; on other elements, such as SVG ones, the property is
      undefined whatever the attribute holds. */
  datatype Element = Element(
    textContent: Option<string>,
    innerText: Option<string>,
    title: Option<string>,
    ariaLabel: Option<string>,
    prePlainText: Option<string>)

  /** A document: its elements in document order, its `body` (`None` when
      `document.body` is `null`), and what `querySelectorAll` returns for
      selectors the model does not interpret. */
  datatype Document = Document(
    elements: seq<Element>,
    body: Option<Element>,
    selected: map<string, seq<Element>>)

  /** What a strategy did inside the `try` of `extractPhoneNumbers`: threw, or
      returned its candidates. */
  datatype Outcome = Threw | Returned(numbers: seq<string>)

  /** content.js:52-59. */
  const ChatSelectors: seq<string> := [
    "[data-testid*=\"cell-frame\"]",
    "[data-testid*=\"chat\"]",
    ".zoWT4",
    "[role=\"listitem\"]",
    "._2nY6O",
    ".copyable-text"
  ]

  /** `document.querySelectorAll(selector)` for a chat selector. */
  function QuerySelectorAll(doc: Document, selector: string): seq<Element> {
    if selector in doc.selected then doc.selected[selector] else []
  }

  /** An attribute value that contains `+`: the `*="+"` attribute selector. */
  predicate HasPlus(o: Option<string>) {
    o.Some? && '+' in o.value
  }

  /** The value of `a || b || ... || ''`: the first truthy string, or `''`. */
  function FirstTruthy(vs: seq<Option<string>>): (r: string)
    ensures r == [] <==> forall k :: 0 <= k < |vs| ==> !Truthy(vs[k])
    ensures r != [] ==> exists k :: 0 <= k < |vs| && vs[k] == Some(r)
                                    && forall j :: 0 <= j < k ==> !Truthy(vs[j])
  {
    if vs == [] then []
    else if Truthy(vs[0]) then vs[0].value
    else
      var r := FirstTruthy(vs[1..]);
      assert forall k :: 0 <= k < |vs| - 1 ==> vs[1..][k] == vs[k + 1];
      assert forall k :: 0 < k < |vs| ==> vs[k] == vs[1..][k - 1];
      r
  }

  /** content.js:106-109. */
  function GetElementText(e: Element): string {
    FirstTruthy([e.textContent, e.innerText, e.title, e.ariaLabel, e.prePlainText])
  }

  /** The text of an element is its first non-empty source, in the order
      `textContent`, `innerText`, `title`, `aria-label`,
      `data-pre-plain-text`, and empty when all are empty or missing. */
  lemma GetElementTextCases(e: Element)
    ensures GetElementText(e) ==
      if Truthy(e.textContent) then e.textContent.value
      else if Truthy(e.innerText) then e.innerText.value
      else if Truthy(e.title) then e.title.value
      else if Truthy(e.ariaLabel) then e.ariaLabel.value
      else if Truthy(e.prePlainText) then e.prePlainText.value
      else []
  {
    var vs := [e.textContent, e.innerText, e.title, e.ariaLabel, e.prePlainText];
    FirstTruthyStep(vs);
    FirstTruthyStep(vs[1..]);
    FirstTruthyStep(vs[2..]);
    FirstTruthyStep(vs[3..]);
    FirstTruthyStep(vs[4..]);
    assert vs[1..][1..] == vs[2..] && vs[2..][1..] == vs[3..] && vs[3..][1..] == vs[4..];
    assert vs[4..][1..] == [];
  }

  lemma FirstTruthyStep(vs: seq<Option<string>>)
    requires vs != []
    ensures FirstTruthy(vs) == if Truthy(vs[0]) then vs[0].value else FirstTruthy(vs[1..])
  {
  }

  /** `f` of each text, concatenated, text after text. */
  function Gather(f: string -> seq<string>, texts: seq<string>): seq<string> {
    if texts == [] then []
    else Gather(f, texts[..|texts| - 1]) + f(texts[|texts| - 1])
  }

  lemma {:induction false} GatherAppend(f: string -> seq<string>, a: seq<string>, b: seq<string>)
    ensures Gather(f, a + b) == Gather(f, a) + Gather(f, b)
    decreases |b|
  {
    if b == [] {
      assert a + b == a;
    } else {
      var c := b[..|b| - 1];
      var x := b[|b| - 1];
      assert (a + b)[..|a + b| - 1] == a + c;
      assert (a + b)[|a + b| - 1] == x;
      assert Gather(f, a + b) == Gather(f, a + c) + f(x);
      GatherAppend(f, a, c);
      assert Gather(f, b) == Gather(f, c) + f(x);
    }
  }

  /** A string is gathered exactly when `f` gives it for one of the texts. */
  lemma {:induction false} GatherMember(f: string -> seq<string>, texts: seq<string>, m: string)
    ensures m in Gather(f, texts) <==> exists t :: t in texts && m in f(t)
  {
    if texts != [] {
      var init := texts[..|texts| - 1];
      GatherMember(f, init, m);
      assert texts == init + [texts[|texts| - 1]];
    }
  }

  /** The candidates of each text, text after text. */
  function NumbersIn(texts: seq<string>): seq<string> {
    Gather(CandidatesIn, texts)
  }

  lemma NumbersInStep(texts: seq<string>, t: string)
    ensures NumbersIn(texts + [t]) == NumbersIn(texts) + CandidatesIn(t)
  {
    assert (texts + [t])[..|texts|] == texts;
  }

  /** One more element read adds the candidates of its text. */
  lemma NumbersMapStep(text: Element -> string, es: seq<Element>, i: nat)
    requires i < |es|
    ensures NumbersIn(Map(text, es[..i + 1])) == NumbersIn(Map(text, es[..i])) + CandidatesIn(text(es[i]))
  {
    assert Map(text, es[..i + 1]) == Map(text, es[..i]) + [text(es[i])];
    NumbersInStep(Map(text, es[..i]), text(es[i]));
  }

  /** The text `getElementText` reads from each element. */
  function ElementTexts(es: seq<Element>): seq<string> {
    Map(GetElementText, es)
  }

  /** The texts of the elements each selector selects, selector after selector. */
  function SelectorTexts(doc: Document, selectors: seq<string>): seq<string> {
    if selectors == [] then []
    else
      var last := QuerySelectorAll(doc, selectors[|selectors| - 1]);
      SelectorTexts(doc, selectors[..|selectors| - 1]) + ElementTexts(last)
  }

  /** What `extractFromChatList()` returns. */
  function ChatListNumbers(doc: Document): seq<string> {
    NumbersIn(SelectorTexts(doc, ChatSelectors))
  }

  /** content.js:61-65: the candidates of the text of each element, element
      after element. */
  method HarvestElements(elements: seq<Element>) returns (found: seq<string>)
    ensures found == NumbersIn(ElementTexts(elements))
  {
    found := [];
    for e := 0 to |elements|
      invariant found == NumbersIn(ElementTexts(elements[..e]))
    {
      var text := GetElementText(elements[e]);
      var foundNumbers := ExtractNumbersFromText(text);
      NumbersMapStep(GetElementText, elements, e);
      found := found + foundNumbers;
    }
    assert elements[..|elements|] == elements;
  }

  /** content.js:48-70: for every chat selector and every element it selects,
      the candidates of the element's text. */
  method ExtractFromChatList(doc: Document) returns (numbers: seq<string>)
    ensures numbers == ChatListNumbers(doc)
  {
    numbers := [];
    for s := 0 to |ChatSelectors|
      invariant numbers == NumbersIn(SelectorTexts(doc, ChatSelectors[..s]))
    {
      var elements := QuerySelectorAll(doc, ChatSelectors[s]);
      var found := HarvestElements(elements);
      SelectorTextsStep(doc, ChatSelectors, s);
      numbers := numbers + found;
    }
    assert ChatSelectors[..|ChatSelectors|] == ChatSelectors;
  }

  /** One more selector adds the candidates of the elements it selects. */
  lemma SelectorTextsStep(doc: Document, selectors: seq<string>, s: nat)
    requires s < |selectors|
    ensures NumbersIn(SelectorTexts(doc, selectors[..s + 1]))
         == NumbersIn(SelectorTexts(doc, selectors[..s]))
          + NumbersIn(ElementTexts(QuerySelectorAll(doc, selectors[s])))
  {
    var before := SelectorTexts(doc, selectors[..s]);
    var elements := QuerySelectorAll(doc, selectors[s]);
    assert selectors[..s + 1][..s] == selectors[..s];
    assert SelectorTexts(doc, selectors[..s + 1]) == before + ElementTexts(elements);
    GatherAppend(CandidatesIn, before, ElementTexts(elements));
  }

  /** The texts gathered from the elements the selectors select are exactly
      the texts of those elements. */
  lemma {:induction false} SelectorTextsHas(doc: Document, selectors: seq<string>, t: string)
    ensures t in SelectorTexts(doc, selectors) <==>
      exists s, e :: 0 <= s < |selectors| && e in QuerySelectorAll(doc, selectors[s])
                     && t == GetElementText(e)
  {
    if selectors != [] {
      var init := selectors[..|selectors| - 1];
      var last := QuerySelectorAll(doc, selectors[|selectors| - 1]);
      SelectorTextsHas(doc, init, t);
      MapHas(GetElementText, last, t);
      assert forall s :: 0 <= s < |init| ==> init[s] == selectors[s];
    }
  }

  lemma MapHas(text: Element -> string, es: seq<Element>, t: string)
    ensures t in Map(text, es) <==> exists e :: e in es && t == text(e)
  {
    if t in Map(text, es) {
      var k :| 0 <= k < |es| && Map(text, es)[k] == t;
      assert es[k] in es;
    }
    if exists e :: e in es && t == text(e) {
      var e :| e in es && t == text(e);
      var k :| 0 <= k < |es| && es[k] == e;
      assert Map(text, es)[k] == t;
    }
  }

  /** A string is a chat-list candidate exactly when it is a candidate of the
      text of an element one of the chat selectors selects. */
  lemma ChatListMember(doc: Document, m: string)
    ensures m in ChatListNumbers(doc) <==>
      exists s, e :: 0 <= s < |ChatSelectors| && e in QuerySelectorAll(doc, ChatSelectors[s])
                     && m in CandidatesIn(GetElementText(e))
  {
    var texts := SelectorTexts(doc, ChatSelectors);
    GatherMember(CandidatesIn, texts, m);
    if m in ChatListNumbers(doc) {
      var t :| t in texts && m in CandidatesIn(t);
      SelectorTextsHas(doc, ChatSelectors, t);
    }
    if exists s, e :: 0 <= s < |ChatSelectors| && e in QuerySelectorAll(doc, ChatSelectors[s])
                      && m in CandidatesIn(GetElementText(e)) {
      var s, e :| 0 <= s < |ChatSelectors| && e in QuerySelectorAll(doc, ChatSelectors[s])
                  && m in CandidatesIn(GetElementText(e));
      SelectorTextsHas(doc, ChatSelectors, GetElementText(e));
    }
  }

  /** The elements of `es` that `keep` accepts, in document order: what
      `querySelectorAll` returns for an attribute selector. */
  function Where(es: seq<Element>, keep: Element -> bool): (r: seq<Element>)
    ensures forall e :: e in r <==> e in es && keep(e)
  {
    if es == [] then []
    else
      var init := es[..|es| - 1];
      var last := es[|es| - 1];
      assert es == init + [last];
      var r := Where(init, keep);
      if keep(last) then r + [last] else r
  }

  /** The selector `[title*="+"]`. */
  predicate TitleHasPlus(e: Element) {
    HasPlus(e.title)
  }

  /** The titles that pass `if (title)`, element after element. */
  function TitleTexts(es: seq<Element>): seq<string> {
    if es == [] then []
    else
      var title := es[|es| - 1].title;
      TitleTexts(es[..|es| - 1]) + if Truthy(title) then [title.value] else []
  }

  lemma TitleTextsStep(es: seq<Element>, e: Element)
    ensures TitleTexts(es + [e]) == if Truthy(e.title) then TitleTexts(es) + [e.title.value] else TitleTexts(es)
  {
    assert (es + [e])[..|es|] == es;
    assert TitleTexts(es) + [] == TitleTexts(es);
  }

  /** What `extractFromAttributes()` returns. */
  function AttributeNumbers(doc: Document): seq<string> {
    NumbersIn(TitleTexts(Where(doc.elements, TitleHasPlus)))
  }

  /** content.js:78-91: the candidates of the `title` of every element whose
      title contains `+`. */
  method ExtractFromAttributes(doc: Document) returns (numbers: seq<string>)
    ensures numbers == AttributeNumbers(doc)
  {
    numbers := [];
    var elementsWithTitle := Where(doc.elements, TitleHasPlus);
    for i := 0 to |elementsWithTitle|
      invariant numbers == NumbersIn(TitleTexts(elementsWithTitle[..i]))
    {
      var title := elementsWithTitle[i].title;
      assert elementsWithTitle[..i + 1] == elementsWithTitle[..i] + [elementsWithTitle[i]];
      TitleTextsStep(elementsWithTitle[..i], elementsWithTitle[i]);
      if Truthy(title) {
        var foundNumbers := ExtractNumbersFromText(title.value);
        NumbersInStep(TitleTexts(elementsWithTitle[..i]), title.value);
        numbers := numbers + foundNumbers;
      }
    }
    assert elementsWithTitle[..|elementsWithTitle|] == elementsWithTitle;
  }

  lemma {:induction false} TitleTextsHas(es: seq<Element>, t: string)
    ensures t in TitleTexts(es) <==> exists e :: e in es && Truthy(e.title) && t == e.title.value
  {
    if es != [] {
      var init := es[..|es| - 1];
      TitleTextsHas(init, t);
      assert es == init + [es[|es| - 1]];
    }
  }

  /** A string is an attribute candidate exactly when it is a candidate of the
      title of an element whose title contains `+`; every such title passes
      `if (title)`. */
  lemma AttributeMember(doc: Document, m: string)
    ensures m in AttributeNumbers(doc) <==>
      exists e :: e in doc.elements && HasPlus(e.title) && m in CandidatesIn(e.title.value)
  {
    var selected := Where(doc.elements, TitleHasPlus);
    GatherMember(CandidatesIn, TitleTexts(selected), m);
    if m in AttributeNumbers(doc) {
      var t :| t in TitleTexts(selected) && m in CandidatesIn(t);
      TitleTextsHas(selected, t);
    }
    if exists e :: e in doc.elements && HasPlus(e.title) && m in CandidatesIn(e.title.value) {
      var e :| e in doc.elements && HasPlus(e.title) && m in CandidatesIn(e.title.value);
      assert TitleHasPlus(e);
      TitleTextsHas(selected, e.title.value);
    }
  }

  /** The selector `[aria-label*="+"], [data-pre-plain-text*="+"]`. */
  predicate Labelled(e: Element) {
    HasPlus(e.ariaLabel) || HasPlus(e.prePlainText)
  }

  /** content.js:98: `aria-label || data-pre-plain-text || ''`. */
  function AriaText(e: Element): string {
    FirstTruthy([e.ariaLabel, e.prePlainText])
  }

  /** The `aria-label` wins whenever it is not empty, even when only the
      `data-pre-plain-text` holds the `+` that selected the element. */
  lemma AriaTextCases(e: Element)
    ensures AriaText(e) ==
      if Truthy(e.ariaLabel) then e.ariaLabel.value
      else if Truthy(e.prePlainText) then e.prePlainText.value
      else []
  {
    var vs := [e.ariaLabel, e.prePlainText];
    FirstTruthyStep(vs);
    FirstTruthyStep(vs[1..]);
    assert vs[1..][1..] == [];
  }

  /** What `extractFromAriaLabels()` returns. */
  function AriaNumbers(doc: Document): seq<string> {
    NumbersIn(Map(AriaText, Where(doc.elements, Labelled)))
  }

  /** content.js:93-104: the candidates of the label of every element whose
      `aria-label` or `data-pre-plain-text` contains `+`. */
  method ExtractFromAriaLabels(doc: Document) returns (numbers: seq<string>)
    ensures numbers == AriaNumbers(doc)
  {
    numbers := [];
    var elementsWithAria := Where(doc.elements, Labelled);
    for i := 0 to |elementsWithAria|
      invariant numbers == NumbersIn(Map(AriaText, elementsWithAria[..i]))
    {
      var ariaLabel := AriaText(elementsWithAria[i]);
      var foundNumbers := ExtractNumbersFromText(ariaLabel);
      NumbersMapStep(AriaText, elementsWithAria, i);
      numbers := numbers + foundNumbers;
    }
    assert elementsWithAria[..|elementsWithAria|] == elementsWithAria;
  }

  /** A string is an aria-label candidate exactly when it is a candidate of
      the label of an element that the selector selects. */
  lemma AriaMember(doc: Document, m: string)
    ensures m in AriaNumbers(doc) <==>
      exists e :: e in doc.elements && Labelled(e) && m in CandidatesIn(AriaText(e))
  {
    var selected := Where(doc.elements, Labelled);
    GatherMember(CandidatesIn, Map(AriaText, selected), m);
    if m in AriaNumbers(doc) {
      var t :| t in Map(AriaText, selected) && m in CandidatesIn(t);
      MapHas(AriaText, selected, t);
    }
    if exists e :: e in doc.elements && Labelled(e) && m in CandidatesIn(AriaText(e)) {
      var e :| e in doc.elements && Labelled(e) && m in CandidatesIn(AriaText(e));
      MapHas(AriaText, selected, AriaText(e));
    }
  }

  /** `document.body.innerText || document.body.textContent || ''`. */
  function BodyText(body: Element): string {
    FirstTruthy([body.innerText, body.textContent])
  }

  /** content.js:72-76: the candidates of the whole body text; reading a
      property of a `null` body throws. */
  function ExtractFromAllText(doc: Document): Outcome {
    if doc.body.None? then Threw else Returned(CandidatesIn(BodyText(doc.body.value)))
  }

  /** The strategy throws exactly when there is no body; otherwise it reads
      `innerText` first (unlike `getElementText`), then `textContent`, and
      every number it returns is a piece of that text with at least 9 digits. */
  lemma AllTextOutcome(doc: Document, m: string)
    ensures ExtractFromAllText(doc).Threw? <==> doc.body.None?
    ensures doc.body.Some? ==>
      var b := doc.body.value;
      var text := if Truthy(b.innerText) then b.innerText.value
                  else if Truthy(b.textContent) then b.textContent.value
                  else [];
      && ExtractFromAllText(doc) == Returned(CandidatesIn(text))
      && (m in CandidatesIn(text) ==> IsSubstring(m, text) && CountDigits(m) >= 9)
  {
    if doc.body.Some? {
      var b := doc.body.value;
      var vs := [b.innerText, b.textContent];
      FirstTruthyStep(vs);
      FirstTruthyStep(vs[1..]);
      assert vs[1..][1..] == [];
      if m in CandidatesIn(BodyText(b)) {
        CandidateFacts(BodyText(b), m);
      }
    }
  }
}
