# Treatment chatbot backend: reply assembly and catalog export

This project models the deterministic parts of a beauty clinic's chatbot
backend:

- the `/chat` route (`server.js`): how a request's message is cut to 300
  characters, how a greeting is answered with a fixed text, how a catalog
  entry found by the matcher is turned into a reply with one of three
  templates (explanation with price, price only, description only), and how
  the route falls back from one language model to a second on a rate-limit
  error, substitutes a default text for an empty answer and answers any other
  failure with a fixed apology that points to the contact form;
- `mapToTreatments` in the catalog export (`pdb-treatments-export/index.mjs`):
  one treatment record per shop product, in order, with the product's HTML
  body stripped of tags and trimmed, and one area per variant.

Three modules:

- `JsText` (`jstext.dfy`): the JavaScript string semantics both files rely
  on. A value read from JSON is a `Field` (`Missing`, `Null` or `Text`); a
  template literal renders `Missing` as `undefined` and `Null` as `null`.
  `IsSpace` is the ECMAScript WhiteSpace and LineTerminator set, which is
  what both `\s` and `trim()` use. `Trim` is `String.prototype.trim`.
- `ChatRoute` (`chat_route.dfy`): the `/chat` handler. The intent
  detector, the catalog loader's result, the matcher, the link
  post-processor, each model call's outcome and the contact URL are
  parameters. `HandleChat` is a method that returns the reply and the list
  of collaborators it consulted. That list is how the model states that a
  greeting never reaches the catalog or the matcher, and that at most two
  model calls are made.
- `TreatmentsExport` (`treatments_export.dfy`): `mapToTreatments`, with the
  regular expression `/<[^>]*>/g` written out as a left-to-right scanner
  (`StripTags`). At a `<` that has a `>` somewhere after it, the match runs
  to the first `>`. A `<` with no `>` after it is kept.

In the catalog reply (server.js:25-33):

- The description's whitespace runs are collapsed; it is not otherwise
  shortened.
- The price appears only when `isWhat` or `isPrice` is set.
- A missing catalog field is rendered by the template as `undefined`.

## Model

| member | source | states |
|---|---|---|
| `JsText.Trim` | pdb-treatments-export/index.mjs:34 | `trim()` returns the contiguous piece of the input between an all-whitespace prefix and an all-whitespace suffix. The result has no whitespace at either edge. It is empty exactly when the input is all whitespace. |
| `JsText.TrimFixpoint` | pdb-treatments-export/index.mjs:34 | Trimming leaves a string unchanged if and only if neither edge is whitespace. |
| `JsText.TrimIdempotent` | pdb-treatments-export/index.mjs:34 | Trimming twice gives the same result as trimming once. |
| `ChatRoute.UserMessage` | server.js:4 | The processed message is at most 300 characters and is a prefix of the incoming text. It is the whole text when that has at most 300 characters and exactly 300 characters otherwise. It is empty when the message is missing or null. |
| `ChatRoute.Collapse` | server.js:25 | After `replace(/\s+/g, " ")` no two whitespace characters are adjacent and the only whitespace left is the plain space. The result is empty exactly when the input is. It starts with a space exactly when the input starts with whitespace. |
| `ChatRoute.CollapseConcat` | server.js:25 | Text that does not end in whitespace is collapsed independently of what follows it: collapsing the joined text gives the two collapsed pieces joined. |
| `ChatRoute.CollapseLeadingRun` | server.js:25 | A non-empty leading whitespace run followed by a non-whitespace character (or nothing) becomes exactly one plain space. |
| `ChatRoute.RunBecomesOneSpace` | server.js:25 | A maximal whitespace run between two pieces of text becomes exactly one plain space, so words stay separated by exactly one space. |
| `ChatRoute.CollapseFixpoint` | server.js:25 | Collapsing leaves text unchanged if and only if the text is already collapsed. |
| `ChatRoute.CollapseIdempotent` | server.js:25 | Collapsing again changes nothing. |
| `ChatRoute.CollapseKeepsVisible` | server.js:25 | Collapsing keeps every non-whitespace character, in order. |
| `ChatRoute.Description` | server.js:25 | The description used in replies (`beschreibung`, or "" when absent) is collapsed and keeps all the original's non-whitespace characters. |
| `ChatRoute.CatalogReply` | server.js:27-33 | Every direct catalog reply starts with the entry name followed by ": " and ends with "Mehr Infos hier: " followed by the entry url. |
| `ChatRoute.WhatReply` | server.js:27-28 | When `isWhat` is set, the reply contains the name, the collapsed description and "Preis: " followed by the price. The reply is the same whether or not `isPrice` is also set. |
| `ChatRoute.PriceReply` | server.js:29-30 | When only `isPrice` is set, the reply contains the name and "Preis " followed by the price. Changing the description does not change the reply. |
| `ChatRoute.DescriptionReply` | server.js:31-33 | When neither flag is set, the reply contains the name and the collapsed description. Changing the price does not change the reply. |
| `ChatRoute.Answer` | server.js:68-69 | The model's text is the trimmed content when that content is present and not all whitespace. Otherwise it is "Entschuldigung, ich habe dich nicht verstanden.". It is never empty. |
| `ChatRoute.Apology` | server.js:78-80 | The error reply contains the contact-form link `[Kontaktformular](<contact URL>)`. |
| `ChatRoute.CompleteWithFallback` | server.js:56-66 | "o4-mini" is asked first. "gpt-5-nano" is asked second, and only when the first call fails with status 429. A completion is produced exactly when the last model asked answers, and it carries that answer's content. |
| `ChatRoute.HandleChat` | server.js:2-82 | A greeting yields the fixed greeting and consults only the intent detector. A catalog match yields the link-processed catalog reply after detector, loader and matcher. Otherwise the model calls follow the 429 rule, with at most two. An answer goes through `forceMarkdownLink` exactly once. Any failure yields the apology, and the link post-processor is not consulted. |
| `TreatmentsExport.SkipTag` | pdb-treatments-export/index.mjs:34 | The `[^>]*>` part of a match ends at the first `>`. What is left is the text after it. |
| `TreatmentsExport.StripTags` | pdb-treatments-export/index.mjs:34 | After `replace(/<[^>]*>/g, "")` no `<` is followed anywhere later by a `>`. The result is no longer than the input and contains only characters of the input. |
| `TreatmentsExport.StripTagsFixpoint` | pdb-treatments-export/index.mjs:34 | Text that holds no tag is left unchanged. |
| `TreatmentsExport.StripTagsIdempotent` | pdb-treatments-export/index.mjs:34 | Stripping tags twice gives the same result as stripping once. |
| `TreatmentsExport.StripTagsNoLt` | pdb-treatments-export/index.mjs:34 | Text with no `<` is left unchanged. |
| `TreatmentsExport.StripTagsRemovesTag` | pdb-treatments-export/index.mjs:34 | A span from a `<` to the next `>` is removed whole. Text before it that has no `<` is kept. |
| `TreatmentsExport.StripAndTrim` | pdb-treatments-export/index.mjs:34 | A cleaned description holds no tag and no whitespace at either edge. |
| `TreatmentsExport.StripAndTrimIdempotent` | pdb-treatments-export/index.mjs:34 | Cleaning an already-cleaned description changes nothing. |
| `TreatmentsExport.StripAndTrimPlain` | pdb-treatments-export/index.mjs:34 | An HTML body with no `<` is only trimmed. |
| `TreatmentsExport.Describe` | pdb-treatments-export/index.mjs:34 | A missing or null `body_html` gives no description, not an error. A string body gives a description with no tag and no edge whitespace. A body without `<` gives that body trimmed. |
| `TreatmentsExport.ToAreas` | pdb-treatments-export/index.mjs:35-38 | There is one area per variant, in variant order. Each area's name is the variant title and its price is `parseFloat` of the variant price. |
| `TreatmentsExport.MapToTreatments` | pdb-treatments-export/index.mjs:31-40 | The output has the same length and order as the products. Each record's `treatment` is the product title. Its description is the cleaned body. Its areas are the product's variants mapped in order. |

## Left out

- The bodies of `detectIntent`, `loadTreatments`, `smartFindTreatment` and `forceMarkdownLink` are not part of this model. They are parameters of `HandleChat`, and the catalog is the value `loadTreatments` returns. Text normalisation, fuzzy scoring, synonym rules and link rewriting are not modelled.
- Exceptions thrown by those four helpers are not modelled. Only the model calls can fail. The outer `catch` (server.js:76-80) is modelled for the model-call errors that reach it.
- The OpenAI client call `ask` (server.js:50-54), the system prompt, `MAX_TOKENS`, `res.json` and the Express routing are left out. Each model call is represented by its outcome for a given model name: an answer with content, or an error with an optional status.
- A model answer whose `content` is neither a string nor absent would make `trim` throw. That case is not modelled: `Outcome` content is a `Field`.
- `CONTACT_URL` is defined outside the shown code. It is the `contactUrl` parameter.
- `ChatRoute.UserMessage`: non-string message values (numbers, objects) converted by `.toString()` are not modelled, because `Field` holds only strings. JavaScript falsy non-strings such as `0` or `false` would also give "". Lengths count Unicode scalar values, not UTF-16 code units, so a message with characters outside the Basic Multilingual Plane may be cut at a different place.
- `parseFloat(v.price)` (pdb-treatments-export/index.mjs:37) is floating-point parsing. It is a parameter `parseFloat: Field -> N`, so the area price is an opaque value.
- A product without a `variants` array, which would make `p.variants.map` throw, is not modelled. `variants` is always a sequence.
- `fetchAllProducts`, `fs.writeFileSync` and the top-level runner (pdb-treatments-export/index.mjs:13-29, 42-53) are network and file I/O.
- `gpt-test.js` and `check.js` are an environment check and a one-shot API call with no logic. They are not modelled.
- Logging (`console.*`) and `dotenv` configuration are not modelled.
- Concurrency between requests is not modelled. Each request is handled independently.
