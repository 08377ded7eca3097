/**
 * The reply assembly of the `/chat` route. A request's message is cut to
 * 300 characters; a greeting is answered with a fixed text; a message the
 * catalog matcher recognises is answered from the catalog entry with one of
 * three templates; anything else goes to a language model, retried once on
 * a second model when the first is rate-limited, and any other failure
 * gives a fixed apology.
 *
 * The route's collaborators that are not part of this model are parameters:
 * the intent detector, the catalog (what the catalog loader returns), the
 * matcher, the link post-processor, the model call (as the outcome it has
 * for each model name) and the contact URL.
 */
module ChatRoute {
  import opened JsText

  const MaxMessageLength: nat := 300
  const Greeting := "Hallo! Wie kann ich Ihnen heute weiterhelfen?"
  const NotUnderstood := "Entschuldigung, ich habe dich nicht verstanden."
  const InfoLabel := "Mehr Infos hier: "
  const PrimaryModel := "o4-mini"
  const FallbackModel := "gpt-5-nano"
  /** The HTTP status of a rate-limited model call. */
  const TooManyRequests := 429

  /** The flags of the detected intent that the route reads. */
  datatype Intent = Intent(isGreet: bool, isWhat: bool, isPrice: bool)

  /** A catalog entry as the matcher returns it. */
  datatype Entry = Entry(name: Field, beschreibung: Field, preis: Field, url: Field)

  /** What one model call does: it answers with a completion whose first
      choice's message content is `content` (`Missing` when any link of
      `choices[0].message.content` is absent), or it throws an error whose
      `status` is given when the error has one. */
  datatype Outcome = Answered(content: Field) | Failed(status: Option<int>)

  /** The collaborators the route consults, in the order it consults them. */
  datatype Call = DetectIntent | LoadTreatments | FindTreatment | Ask(model: string) | ForceMarkdownLink

  /** `(req.body.message || "").toString().slice(0, 300)`: the first 300
      characters of the message, or the empty text when there is none. */
  function UserMessage(message: Field): (r: string)
    ensures |r| <= MaxMessageLength
    ensures r <= OrEmpty(message)
    ensures |OrEmpty(message)| <= MaxMessageLength ==> r == OrEmpty(message)
    ensures |OrEmpty(message)| >= MaxMessageLength ==> |r| == MaxMessageLength
    ensures !message.Text? ==> r == ""
  {
    var text := OrEmpty(message);
    if |text| <= MaxMessageLength then text else text[..MaxMessageLength]
  }

  /** No two whitespace characters stand next to each other. */
  predicate NoDoubleSpace(s: string) {
    forall i :: 0 <= i < |s| - 1 ==> !(IsSpace(s[i]) && IsSpace(s[i + 1]))
  }

  /** The only whitespace character is the plain space. */
  predicate OnlyPlainSpaces(s: string) {
    forall i :: 0 <= i < |s| && IsSpace(s[i]) ==> s[i] == ' '
  }

  predicate Collapsed(s: string) {
    NoDoubleSpace(s) && OnlyPlainSpaces(s)
  }

  /** `s.replace(/\s+/g, " ")`: every maximal run of whitespace becomes one
      plain space. The result never has two whitespace characters in a row,
      and it starts with a space exactly when `s` starts with whitespace. */
  function Collapse(s: string): (r: string)
    ensures |r| <= |s|
    ensures Collapsed(r)
    ensures r == [] <==> s == []
    ensures s != [] ==> r[0] == if IsSpace(s[0]) then ' ' else s[0]
    decreases |s|
  {
    if s == [] then []
    else if IsSpace(s[0]) then " " + Collapse(TrimStart(s[1..]))
    else [s[0]] + Collapse(s[1..])
  }

  /** Collapsing leaves text alone exactly when it is already collapsed;
      in particular collapsing twice is collapsing once. */
  lemma {:induction false} CollapseFixpoint(s: string)
    ensures Collapse(s) == s <==> Collapsed(s)
  {
    if s != [] && Collapsed(s) {
      var t := s[1..];
      assert Collapsed(t) by {
        forall i | 0 <= i < |t| - 1 ensures !(IsSpace(t[i]) && IsSpace(t[i + 1])) {
          assert t[i] == s[i + 1] && t[i + 1] == s[i + 2];
        }
        forall i | 0 <= i < |t| && IsSpace(t[i]) ensures t[i] == ' ' {
          assert t[i] == s[i + 1];
        }
      }
      CollapseFixpoint(t);
      if IsSpace(s[0]) {
        assert t == [] || !IsSpace(t[0]) by {
          if t != [] { assert t[0] == s[1]; }
        }
        assert TrimStart(t) == t;
      }
    }
  }

  lemma CollapseIdempotent(s: string)
    ensures Collapse(Collapse(s)) == Collapse(s)
  {
    CollapseFixpoint(Collapse(s));
  }

  lemma {:induction false} TrimStartConcat(x: string, b: string)
    requires x != [] && !IsSpace(x[|x| - 1])
    ensures TrimStart(x + b) == TrimStart(x) + b
  {
    if IsSpace(x[0]) {
      assert (x + b)[1..] == x[1..] + b;
      TrimStartConcat(x[1..], b);
    }
  }

  lemma {:induction false} TrimStartSpaces(w: string, b: string)
    requires AllSpace(w) && (b == [] || !IsSpace(b[0]))
    ensures TrimStart(w + b) == b
  {
    if w == [] {
      assert w + b == b;
    } else {
      assert (w + b)[1..] == w[1..] + b;
      TrimStartSpaces(w[1..], b);
    }
  }

  /** Text that does not end in whitespace is collapsed independently of
      what follows it. */
  lemma {:induction false} CollapseConcat(a: string, b: string)
    requires a == [] || !IsSpace(a[|a| - 1])
    ensures Collapse(a + b) == Collapse(a) + Collapse(b)
    decreases |a|, 1
  {
    if a == [] {
      assert a + b == b;
    } else if IsSpace(a[0]) {
      CollapseConcatSpace(a, b);
    } else {
      CollapseConcatChar(a, b);
    }
  }

  lemma {:induction false} CollapseConcatSpace(a: string, b: string)
    requires a != [] && IsSpace(a[0]) && !IsSpace(a[|a| - 1])
    ensures Collapse(a + b) == Collapse(a) + Collapse(b)
    decreases |a|, 0
  {
    var x := a[1..];
    var t := TrimStart(x);
    assert t != [] && t[|t| - 1] == a[|a| - 1] by {
      assert x != [] && x[|x| - 1] == a[|a| - 1];
      assert t == x[|x| - |t|..];
    }
    CollapseConcat(t, b);
    TrimStartConcat(x, b);
    CollapseSpaceConcat(a, b);
    AppendAssoc(" ", Collapse(t), Collapse(b));
  }

  lemma CollapseSpaceConcat(a: string, b: string)
    requires a != [] && IsSpace(a[0])
    ensures Collapse(a + b) == " " + Collapse(TrimStart(a[1..] + b))
    ensures Collapse(a) == " " + Collapse(TrimStart(a[1..]))
  {
    assert (a + b)[0] == a[0] && (a + b)[1..] == a[1..] + b;
  }

  lemma {:induction false} CollapseConcatChar(a: string, b: string)
    requires a != [] && !IsSpace(a[0]) && !IsSpace(a[|a| - 1])
    ensures Collapse(a + b) == Collapse(a) + Collapse(b)
    decreases |a|, 0
  {
    var x := a[1..];
    assert x == [] || x[|x| - 1] == a[|a| - 1];
    CollapseConcat(x, b);
    CollapseCharConcat(a, b);
    AppendAssoc([a[0]], Collapse(x), Collapse(b));
  }

  lemma CollapseCharConcat(a: string, b: string)
    requires a != [] && !IsSpace(a[0])
    ensures Collapse(a + b) == [a[0]] + Collapse(a[1..] + b)
    ensures Collapse(a) == [a[0]] + Collapse(a[1..])
  {
    assert (a + b)[0] == a[0] && (a + b)[1..] == a[1..] + b;
  }

  /** A leading whitespace run becomes exactly one plain space. */
  lemma CollapseLeadingRun(w: string, b: string)
    requires w != [] && AllSpace(w)
    requires b == [] || !IsSpace(b[0])
    ensures Collapse(w + b) == [' '] + Collapse(b)
  {
    assert (w + b)[0] == w[0] && (w + b)[1..] == w[1..] + b;
    assert AllSpace(w[1..]);
    TrimStartSpaces(w[1..], b);
  }

  /** A maximal whitespace run between two pieces of text becomes exactly
      one plain space: words stay separated, never joined and never
      separated by more. */
  lemma RunBecomesOneSpace(a: string, w: string, b: string)
    requires a == [] || !IsSpace(a[|a| - 1])
    requires w != [] && AllSpace(w)
    requires b == [] || !IsSpace(b[0])
    ensures Collapse(a + w + b) == Collapse(a) + " " + Collapse(b)
  {
    AppendAssoc(a, w, b);
    CollapseConcat(a, w + b);
    CollapseLeadingRun(w, b);
    AppendAssoc(Collapse(a), " ", Collapse(b));
  }

  /** The non-whitespace characters of `s`, in order. */
  function Visible(s: string): string {
    if s == [] then [] else (if IsSpace(s[0]) then [] else [s[0]]) + Visible(s[1..])
  }

  lemma {:induction false} VisibleTrimStart(s: string)
    ensures Visible(TrimStart(s)) == Visible(s)
  {
    if s != [] && IsSpace(s[0]) {
      VisibleTrimStart(s[1..]);
    }
  }

  /** Collapsing only touches whitespace: every other character is kept, in
      order. */
  lemma {:induction false} CollapseKeepsVisible(s: string)
    ensures Visible(Collapse(s)) == Visible(s)
  {
    if s != [] {
      var r := Collapse(s);
      if IsSpace(s[0]) {
        var t := TrimStart(s[1..]);
        CollapseKeepsVisible(t);
        VisibleTrimStart(s[1..]);
        assert r == " " + Collapse(t) && r[1..] == Collapse(t);
      } else {
        CollapseKeepsVisible(s[1..]);
        assert r == [s[0]] + Collapse(s[1..]) && r[1..] == Collapse(s[1..]);
      }
    }
  }

  /** `(best.beschreibung || "").replace(/\s+/g, " ")`. */
  function Description(best: Entry): (desc: string)
    ensures Collapsed(desc)
    ensures Visible(desc) == Visible(OrEmpty(best.beschreibung))
  {
    CollapseKeepsVisible(OrEmpty(best.beschreibung));
    Collapse(OrEmpty(best.beschreibung))
  }

  /** The reply built from a catalog entry, before the link post-processor:
      an explanation with price, a price answer, or a plain description,
      chosen by `isWhat` first and `isPrice` second. Every such reply opens
      with the entry's name and closes with the entry's link. */
  function CatalogReply(best: Entry, intent: Intent): (r: string)
    ensures StartsWith(r, Show(best.name) + ": ")
    ensures EndsWith(r, InfoLabel + Show(best.url))
  {
    var head := Show(best.name) + ": ";
    var link := InfoLabel + Show(best.url);
    var middle :=
      if intent.isWhat then Description(best) + " " + ("Preis: " + Show(best.preis))
      else if intent.isPrice then "Preis " + Show(best.preis)
      else Description(best);
    TemplateFrame(head, middle + ". ", link);
    head + (middle + ". ") + link
  }

  lemma TemplateFrame(head: string, middle: string, tail: string)
    ensures StartsWith(head + middle + tail, head)
    ensures EndsWith(head + middle + tail, tail)
  {
    assert (head + middle + tail)[..|head|] == head;
    assert (head + middle + tail)[|head + middle|..] == tail;
  }

  /** What the name part of a catalog reply contains, the reply contains. */
  lemma InHead(name: string, middle: string, link: string, needle: string)
    requires Contains(name, needle)
    ensures Contains(name + ": " + (middle + ". ") + link, needle)
  {
    ContainsBefore(name, ": ", needle);
    ContainsBefore(name + ": ", middle + ". ", needle);
    ContainsBefore(name + ": " + (middle + ". "), link, needle);
  }

  /** What the middle part of a catalog reply contains, the reply contains. */
  lemma InMiddle(name: string, middle: string, link: string, needle: string)
    requires Contains(middle, needle)
    ensures Contains(name + ": " + (middle + ". ") + link, needle)
  {
    ContainsBefore(middle, ". ", needle);
    ContainsWithin(name + ": ", middle + ". ", link, needle);
  }

  /** An explanation request mentions the name, the description and the
      price, whether or not a price was also asked for. */
  lemma WhatReply(best: Entry, intent: Intent)
    requires intent.isWhat
    ensures var r := CatalogReply(best, intent);
      && Contains(r, Show(best.name))
      && Contains(r, Description(best))
      && Contains(r, "Preis: " + Show(best.preis))
      && CatalogReply(best, intent.(isPrice := !intent.isPrice)) == r
  {
    var name, desc, price := Show(best.name), Description(best), "Preis: " + Show(best.preis);
    var middle := desc + " " + price;
    var link := InfoLabel + Show(best.url);
    assert CatalogReply(best, intent) == name + ": " + (middle + ". ") + link;
    ContainsSelf(name);
    InHead(name, middle, link, name);
    ContainsSelf(desc);
    ContainsBefore(desc, " ", desc);
    ContainsBefore(desc + " ", price, desc);
    InMiddle(name, middle, link, desc);
    ContainsSelf(price);
    ContainsAfter(desc + " ", price, price);
    InMiddle(name, middle, link, price);
  }

  /** A price question without an explanation request names the entry and
      its price, and its text does not depend on the description. */
  lemma PriceReply(best: Entry, intent: Intent, otherDescription: Field)
    requires !intent.isWhat && intent.isPrice
    ensures var r := CatalogReply(best, intent);
      && Contains(r, Show(best.name))
      && Contains(r, "Preis " + Show(best.preis))
      && CatalogReply(best.(beschreibung := otherDescription), intent) == r
  {
    var name, price := Show(best.name), "Preis " + Show(best.preis);
    var link := InfoLabel + Show(best.url);
    assert CatalogReply(best, intent) == name + ": " + (price + ". ") + link;
    ContainsSelf(name);
    InHead(name, price, link, name);
    ContainsSelf(price);
    InMiddle(name, price, link, price);
  }

  /** Without either flag the reply names the entry and gives the
      description, and its text does not depend on the price. */
  lemma DescriptionReply(best: Entry, intent: Intent, otherPrice: Field)
    requires !intent.isWhat && !intent.isPrice
    ensures var r := CatalogReply(best, intent);
      && Contains(r, Show(best.name))
      && Contains(r, Description(best))
      && CatalogReply(best.(preis := otherPrice), intent) == r
  {
    var name, desc := Show(best.name), Description(best);
    var link := InfoLabel + Show(best.url);
    assert CatalogReply(best, intent) == name + ": " + (desc + ". ") + link;
    ContainsSelf(name);
    InHead(name, desc, link, name);
    ContainsSelf(desc);
    InMiddle(name, desc, link, desc);
  }

  /** `content?.trim() || "Entschuldigung, ich habe dich nicht verstanden."`:
      the trimmed model answer, or the fixed text when there is no answer or
      it is only whitespace. The result is never empty. */
  function Answer(content: Field): (r: string)
    ensures r != []
    ensures content.Text? && !AllSpace(content.s) ==> r == Trim(content.s) && Trimmed(r)
    ensures !content.Text? || AllSpace(content.s) ==> r == NotUnderstood
  {
    if content.Text? && Trim(content.s) != [] then Trim(content.s) else NotUnderstood
  }

  /** The fixed reply when the route fails, pointing to the contact form. */
  function Apology(contactUrl: string): (r: string)
    ensures Contains(r, "[Kontaktformular](" + contactUrl + ")")
  {
    var prefix := "Entschuldigung, es gab ein Problem. Bitte nutze unser ";
    var link := "[Kontaktformular](" + contactUrl + ")";
    ContainsSelf(link);
    ContainsWithin(prefix, link, ".", link);
    prefix + link + "."
  }

  /** The `let completion` block: ask the primary model; only when that call
      fails with status 429 ask the fallback model. `completion` is `None`
      when the error escapes the block (any other failure of the first call,
      or any failure of the second). */
  method CompleteWithFallback(ask: string -> Outcome) returns (completion: Option<Field>, asked: seq<string>)
    ensures 1 <= |asked| <= 2 && asked[0] == PrimaryModel
    ensures |asked| == 2 <==> ask(PrimaryModel) == Failed(Some(TooManyRequests))
    ensures |asked| == 2 ==> asked[1] == FallbackModel
    ensures completion.Some? <==> ask(asked[|asked| - 1]).Answered?
    ensures completion.Some? ==> completion.value == ask(asked[|asked| - 1]).content
  {
    asked := [PrimaryModel];
    var outcome := ask(PrimaryModel);
    if outcome.Failed? && outcome.status == Some(TooManyRequests) {
      asked := asked + [FallbackModel];
      outcome := ask(FallbackModel);
    }
    if outcome.Answered? {
      completion := Some(outcome.content);
    } else {
      completion := None;
    }
  }

  /** How many model calls a trace holds. */
  function ModelCalls(calls: seq<Call>): nat {
    if calls == [] then 0 else (if calls[0].Ask? then 1 else 0) + ModelCalls(calls[1..])
  }

  lemma {:induction false} ModelCallsAppend(a: seq<Call>, b: seq<Call>)
    ensures ModelCalls(a + b) == ModelCalls(a) + ModelCalls(b)
  {
    if a == [] {
      assert a + b == b;
    } else {
      assert (a + b)[1..] == a[1..] + b;
      ModelCallsAppend(a[1..], b);
    }
  }

  lemma ModelCallsOne(c: Call)
    ensures ModelCalls([c]) == if c.Ask? then 1 else 0
  {
    assert [c][1..] == [];
  }

  /** The trace entries for the models asked, in order. */
  function AskCalls(models: seq<string>): (calls: seq<Call>)
    ensures |calls| == |models|
    ensures forall i :: 0 <= i < |calls| ==> calls[i] == Ask(models[i])
  {
    seq(|models|, i requires 0 <= i < |models| => Ask(models[i]))
  }

  /** The calls before the model is asked make no model call. */
  lemma LookupCalls()
    ensures ModelCalls([DetectIntent]) == 0
    ensures ModelCalls([DetectIntent, LoadTreatments, FindTreatment]) == 0
  {
    ModelCallsOne(DetectIntent);
    ModelCallsOne(LoadTreatments);
    ModelCallsOne(FindTreatment);
    ModelCallsAppend([DetectIntent], [LoadTreatments]);
    ModelCallsAppend([DetectIntent, LoadTreatments], [FindTreatment]);
    assert [DetectIntent] + [LoadTreatments] == [DetectIntent, LoadTreatments];
    assert [DetectIntent, LoadTreatments] + [FindTreatment] == [DetectIntent, LoadTreatments, FindTreatment];
  }

  /** What `CompleteWithFallback` reports as asked, as trace entries: one
      model call, or two after a rate limit. */
  lemma AskTrace(asked: seq<string>)
    requires 1 <= |asked| <= 2 && asked[0] == PrimaryModel
    requires |asked| == 2 ==> asked[1] == FallbackModel
    ensures AskCalls(asked) == if |asked| == 2 then [Ask(PrimaryModel), Ask(FallbackModel)] else [Ask(PrimaryModel)]
    ensures ModelCalls(AskCalls(asked)) == |asked|
  {
    ModelCallsOne(Ask(PrimaryModel));
    ModelCallsOne(Ask(FallbackModel));
    if |asked| == 2 {
      assert [Ask(PrimaryModel), Ask(FallbackModel)] == [Ask(PrimaryModel)] + [Ask(FallbackModel)];
      ModelCallsAppend([Ask(PrimaryModel)], [Ask(FallbackModel)]);
    }
  }

  /** The `/chat` handler. It returns the reply and the collaborators it
      consulted, in order. A greeting is answered without loading the
      catalog or asking the matcher; a catalog match is answered from the
      entry; otherwise at most two model calls are made, the second only
      after a 429, and an answer goes through the link post-processor
      exactly once while a failure gives the apology untouched. */
  method HandleChat(
    message: Field,
    detectIntent: string -> Intent,
    catalog: seq<Entry>,
    findTreatment: (string, seq<Entry>) -> Option<Entry>,
    ask: string -> Outcome,
    forceMarkdownLink: string -> string,
    contactUrl: string)
    returns (reply: string, calls: seq<Call>)
    ensures |calls| >= 1 && calls[0] == DetectIntent
    ensures ModelCalls(calls) <= 2
    ensures var intent := detectIntent(UserMessage(message));
      intent.isGreet ==> reply == Greeting && calls == [DetectIntent]
    ensures var msg := UserMessage(message);
      var intent := detectIntent(msg);
      var best := findTreatment(msg, catalog);
      !intent.isGreet && best.Some? ==>
        && reply == forceMarkdownLink(CatalogReply(best.value, intent))
        && calls == [DetectIntent, LoadTreatments, FindTreatment, ForceMarkdownLink]
    ensures var msg := UserMessage(message);
      var intent := detectIntent(msg);
      var best := findTreatment(msg, catalog);
      var retried := ask(PrimaryModel) == Failed(Some(TooManyRequests));
      var asks := if retried then [Ask(PrimaryModel), Ask(FallbackModel)] else [Ask(PrimaryModel)];
      var last := ask(if retried then FallbackModel else PrimaryModel);
      !intent.isGreet && best.None? ==>
        if last.Answered? then
          && reply == forceMarkdownLink(Answer(last.content))
          && calls == [DetectIntent, LoadTreatments, FindTreatment] + asks + [ForceMarkdownLink]
        else
          && reply == Apology(contactUrl)
          && calls == [DetectIntent, LoadTreatments, FindTreatment] + asks
  {
    var msg := UserMessage(message);
    LookupCalls();
    calls := [DetectIntent];
    var intent := detectIntent(msg);
    if intent.isGreet {
      return Greeting, calls;
    }
    calls := calls + [LoadTreatments];
    var treatments := catalog;
    calls := calls + [FindTreatment];
    var best := findTreatment(msg, treatments);
    assert calls == [DetectIntent, LoadTreatments, FindTreatment];
    ModelCallsOne(ForceMarkdownLink);
    if best.Some? {
      ModelCallsAppend(calls, [ForceMarkdownLink]);
      calls := calls + [ForceMarkdownLink];
      return forceMarkdownLink(CatalogReply(best.value, intent)), calls;
    }
    var completion, asked := CompleteWithFallback(ask);
    AskTrace(asked);
    var askCalls := AskCalls(asked);
    ModelCallsAppend(calls, askCalls);
    calls := calls + askCalls;
    if completion.None? {
      // the error reaches the route's outer catch
      return Apology(contactUrl), calls;
    }
    ModelCallsAppend(calls, [ForceMarkdownLink]);
    calls := calls + [ForceMarkdownLink];
    reply := forceMarkdownLink(Answer(completion.value));
  }
}
