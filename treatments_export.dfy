/**
 * The catalog export's mapping from shop products to treatment records
 * (`mapToTreatments`): one treatment per product, in product order, whose
 * description is the product's HTML body with every tag removed and the
 * edges trimmed, and whose areas are the product's variants in order.
 */
module TreatmentsExport {
  import opened JsText

  datatype Variant = Variant(title: Field, price: Field)

  /** A product as the shop returns it; `bodyHtml` is `Missing` or `Null`
      when the product has no HTML body. */
  datatype Product = Product(title: Field, bodyHtml: Field, variants: seq<Variant>)

  /** `N` is whatever `parseFloat` yields for a variant's price. */
  datatype Area<N> = Area(name: Field, price: N)

  /** `description` is `None` when the record has no description at all
      (the key is left out of the exported JSON). */
  datatype Treatment<N> = Treatment(treatment: Field, description: Option<string>, areas: seq<Area<N>>)

  /** No `<` is followed, anywhere later, by a `>`: the text holds no span
      that `/<[^>]*>/` could match. */
  predicate TagFree(s: string) {
    forall i, j :: 0 <= i < j < |s| && s[i] == '<' ==> s[j] != '>'
  }

  /** What is left after the first `>`: the regular expression's match of
      `[^>]*>` ends at the first `>`. */
  function SkipTag(s: string): (r: string)
    requires '>' in s
    ensures |r| < |s| && r == s[|s| - |r|..]
    ensures s[|s| - |r| - 1] == '>' && '>' !in s[..|s| - |r| - 1]
  {
    if s[0] == '>' then s[1..] else SkipTag(s[1..])
  }

  /** `s.replace(/<[^>]*>/g, "")`: scanning left to right, a `<` that has a
      `>` somewhere after it starts a match that runs to the first such `>`,
      and the scan resumes after it; a `<` with no `>` after it stays. The
      result keeps only characters of `s`, in order, and holds no tag. */
  function StripTags(s: string): (r: string)
    ensures |r| <= |s|
    ensures forall c :: c in r ==> c in s
    ensures TagFree(r)
    decreases |s|
  {
    if s == [] then []
    else if s[0] == '<' && '>' in s[1..] then StripTags(SkipTag(s[1..]))
    else
      var rest := StripTags(s[1..]);
      assert forall c :: c in rest ==> c in s[1..];
      [s[0]] + rest
  }

  /** Text without a tag passes through unchanged. */
  lemma {:induction false} StripTagsFixpoint(s: string)
    requires TagFree(s)
    ensures StripTags(s) == s
  {
    if s != [] {
      assert s[0] == '<' ==> '>' !in s[1..] by {
        if s[0] == '<' {
          forall j | 0 <= j < |s[1..]| ensures s[1..][j] != '>' {
            assert s[1..][j] == s[j + 1];
          }
        }
      }
      assert TagFree(s[1..]) by {
        forall i, j | 0 <= i < j < |s[1..]| && s[1..][i] == '<' ensures s[1..][j] != '>' {
          assert s[i + 1] == '<';
        }
      }
      StripTagsFixpoint(s[1..]);
    }
  }

  /** Stripping tags twice removes nothing more than stripping once. */
  lemma StripTagsIdempotent(s: string)
    ensures StripTags(StripTags(s)) == StripTags(s)
  {
    StripTagsFixpoint(StripTags(s));
  }

  /** Text with no `<` at all has no tag and passes through unchanged. */
  lemma StripTagsNoLt(s: string)
    requires '<' !in s
    ensures StripTags(s) == s
  {
    StripTagsFixpoint(s);
  }

  lemma {:induction false} SkipTagSpan(t: string, b: string)
    requires '>' !in t
    ensures '>' in t + ">" + b
    ensures SkipTag(t + ">" + b) == b
  {
    if t == [] {
      assert t + ">" + b == ">" + b;
    } else {
      assert (t + ">" + b)[1..] == t[1..] + ">" + b;
      SkipTagSpan(t[1..], b);
    }
  }

  lemma StripTagsLeadingTag(t: string, b: string)
    requires '>' !in t
    ensures StripTags("<" + t + ">" + b) == StripTags(b)
  {
    var s := "<" + t + ">" + b;
    assert s[0] == '<' && s[1..] == t + ">" + b;
    SkipTagSpan(t, b);
  }

  /** Text with no `<` in front of the rest is kept as it is. */
  lemma {:induction false} StripTagsPlainPrefix(a: string, rest: string)
    requires '<' !in a
    ensures StripTags(a + rest) == a + StripTags(rest)
  {
    if a == [] {
      assert a + rest == rest;
    } else {
      assert a == [a[0]] + a[1..];
      AppendAssoc([a[0]], a[1..], rest);
      StripTagsPlainHead(a[0], a[1..] + rest);
      StripTagsPlainPrefix(a[1..], rest);
      AppendAssoc([a[0]], a[1..], StripTags(rest));
    }
  }

  lemma StripTagsPlainHead(c: char, tail: string)
    requires c != '<'
    ensures StripTags([c] + tail) == [c] + StripTags(tail)
  {
    assert ([c] + tail)[1..] == tail;
  }

  /** A tag, from a `<` to the next `>`, is removed whole, together with the
      brackets; text before it that holds no `<` is kept as it is. */
  lemma StripTagsRemovesTag(a: string, t: string, b: string)
    requires '<' !in a && '>' !in t
    ensures StripTags(a + "<" + t + ">" + b) == a + StripTags(b)
  {
    AppendAssoc(a, "<", t);
    AppendAssoc(a, "<" + t, ">");
    AppendAssoc(a, "<" + t + ">", b);
    StripTagsPlainPrefix(a, "<" + t + ">" + b);
    StripTagsLeadingTag(t, b);
  }

  /** A contiguous piece of tag-free text is tag-free. */
  lemma TagFreeSlice(s: string, i: nat, j: nat)
    requires TagFree(s) && i <= j <= |s|
    ensures TagFree(s[i..j])
  {
    forall p, q | 0 <= p < q < j - i && s[i..j][p] == '<' ensures s[i..j][q] != '>' {
      assert s[i + p] == '<';
    }
  }

  /** `html.replace(/<[^>]*>/g, "").trim()`: the description of a product
      with an HTML body. The result holds no tag and no edge whitespace. */
  function StripAndTrim(html: string): (r: string)
    ensures TagFree(r) && Trimmed(r)
  {
    var stripped := StripTags(html);
    var r := Trim(stripped);
    TagFreeSlice(stripped, Lead(stripped), Lead(stripped) + |r|);
    r
  }

  /** Cleaning a description that is already clean changes nothing. */
  lemma StripAndTrimIdempotent(html: string)
    ensures StripAndTrim(StripAndTrim(html)) == StripAndTrim(html)
  {
    var r := StripAndTrim(html);
    StripTagsFixpoint(r);
    TrimFixpoint(r);
  }

  /** An HTML body without any `<` is only trimmed. */
  lemma StripAndTrimPlain(html: string)
    requires '<' !in html
    ensures StripAndTrim(html) == Trim(html)
  {
    StripTagsNoLt(html);
  }

  /** `p.body_html?.replace(/<[^>]*>/g, "").trim()`: a missing or null body
      gives no description, any string body gives a cleaned one. */
  function Describe(bodyHtml: Field): (d: Option<string>)
    ensures d.None? <==> !bodyHtml.Text?
    ensures d.Some? ==> TagFree(d.value) && Trimmed(d.value)
    ensures bodyHtml.Text? && '<' !in bodyHtml.s ==> d == Some(Trim(bodyHtml.s))
  {
    if bodyHtml.Text? then
      var html := bodyHtml.s;
      assert '<' !in html ==> StripAndTrim(html) == Trim(html) by {
        if '<' !in html { StripAndTrimPlain(html); }
      }
      Some(StripAndTrim(html))
    else None
  }

  /** The areas of a product: one per variant, in variant order, named after
      the variant's title and priced by parsing the variant's price. */
  function ToAreas<N>(variants: seq<Variant>, parseFloat: Field -> N): (areas: seq<Area<N>>)
    ensures |areas| == |variants|
    ensures forall j :: 0 <= j < |areas| ==>
      areas[j].name == variants[j].title && areas[j].price == parseFloat(variants[j].price)
  {
    seq(|variants|, j requires 0 <= j < |variants| => Area(variants[j].title, parseFloat(variants[j].price)))
  }

  function ToTreatment<N>(p: Product, parseFloat: Field -> N): Treatment<N> {
    Treatment(p.title, Describe(p.bodyHtml), ToAreas(p.variants, parseFloat))
  }

  /** `mapToTreatments(products)`: one record per product, in the same
      order, naming the treatment after the product, with a tag-free trimmed
      description when the product has a body, and one area per variant. */
  function MapToTreatments<N>(products: seq<Product>, parseFloat: Field -> N): (r: seq<Treatment<N>>)
    ensures |r| == |products|
    ensures forall i :: 0 <= i < |r| ==>
      && r[i].treatment == products[i].title
      && r[i].description == Describe(products[i].bodyHtml)
      && r[i].areas == ToAreas(products[i].variants, parseFloat)
  {
    seq(|products|, i requires 0 <= i < |products| => ToTreatment(products[i], parseFloat))
  }
}
