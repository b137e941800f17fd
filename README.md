# Reseller catalog JSON builder — a Dafny model

The repository builds a reseller's catalog as a JSON document. A reseller has
a name, a profile picture and a list of products. Each product has a name,
its payment methods and its priced durations ("7 days", "1 month",
"lifetime", ...). The same wizard is written twice: once as a React component
(`components/json-builder.tsx`) and once as a plain DOM script with a class
`JsonBuilder` (`script.js`). This project models the three parts of it that
are logic, not rendering:

- **The duration parser** `parseDurationInput` (module `DurationParser`). It
  turns what the user typed into the key a duration is stored under. It is a
  pure function. The regular-expression searches `(\d+)\s*(days?)` and the
  others are modelled as a leftmost search that is proved to find the
  leftmost match (`RegexMatch`, `NoMatchBefore`). The two files contain the
  same parser. `Parse` models both.
- **The catalog state machine.**
  - `Catalog` holds the product and duration values and the list operations
    both files share: toggling a payment, removal by id, rewriting payments,
    pushing or filtering durations, and the add-product guards.
  - `ReactBuilder` models the component's state as a record. Each handler is
    a function from the state before an event to the state after it.
  - `DomBuilder` models the script's class as a Dafny `class` whose methods
    reassign its fields, under `modifies this`.
  - Both keep the same invariant (`CatalogValid`):
    - product names are pairwise distinct after lower-casing;
    - product ids are distinct;
    - payment lists have no duplicates;
    - every stored duration has a parsed key and a trimmed, non-empty price
      and URL.
- **The projection to the output document** (`Projection`, `JsObject`).
  Both files build the document by keyed assignment into JavaScript objects.
  Assigning to a key that already exists replaces its value and keeps its
  position (`Assign`, `AssignAll`). `JSON.stringify` then writes the keys in
  the order OrdinaryOwnPropertyKeys gives, which is section 10.1.11.1 of
  ECMA-262: array-index keys (canonical decimal strings below 2^32 − 1) first,
  in ascending numeric order, then every other key in creation order
  (`OwnKeyOrder`, `Emit`). `BuildJson` is the nested `forEach` loops, proved
  equal to the functional `Project`.

Identifiers come from `crypto.randomUUID` (React) and `generateId` (script).
They are parameters of the operations that draw them. Where the invariant
needs a fresh id, a `requires` says the id is not already in use.

Where the two implementations differ, or where the written order is not the
order of assignment:

- `JSON.stringify` writes array-index keys first, so `"7"` and `"30"` come
  before `"payments"`, while `"lifetime"` and `"007"` come after it
  (`Projection.ProductWrittenOrder`).
- The React duplicate check compares the selected name as it is, but the name
  it stores is trimmed first. A selection with surrounding blanks can
  therefore add a second product of the same name
  (`ReactBuilder.UntrimmedSelectionAddsDuplicate`). The selection always
  comes from the fixed product list, whose names are trimmed, so the
  invariant requires a trimmed selection.
- Saving payments: the React handler rewrites every product with the id and
  ends the edit even for an unknown id. The script rewrites the first product
  with the id and does nothing for an unknown id. `Catalog.SetPaymentsAgree`
  shows that the two agree when ids are distinct.
- Removing a product: the React handler also ends an open payment edit of that
  product. The script leaves it open.
- Adding a duration: the React component parses the text as it is typed. The
  script parses the trimmed text when the button is pressed. Both store the
  same duration (`DomBuilder.AddDurationAgrees`).

## Model

| member | source | states |
|---|---|---|
| DurationParser.Parse | components/json-builder.tsx:66-98 | the result is always "", "lifetime" or a non-empty digit string; it is "lifetime" exactly when the lower-cased, trimmed input is "lifetime" |
| DurationParser.ParseNormalized | script.js:470-498 | the script's copy of the rule chain, on the lower-cased trimmed input: same result forms, "lifetime" exactly for "lifetime" |
| DurationParser.FirstMatchIsLeftmost | components/json-builder.tsx:75 | the unit search returns a regex match `(\d+)\s*unit` and no match starts earlier; it finds none exactly when no match exists |
| DurationParser.LeftmostMatchStartsRun | components/json-builder.tsx:75-78 | the leftmost match's digits form a maximal digit run: no digit directly before or after it |
| DurationParser.AttemptAtIsRegexMatch | components/json-builder.tsx:75 | the attempt at one position succeeds with end j exactly when `(\d+)\s*unit` matches there with the capture ending at j |
| DurationParser.DayRule | components/json-builder.tsx:75-78 | with a leftmost `<digits>\s*day` match, the result is its digits verbatim (leading zeros kept), the run is maximal, and month and year are never consulted |
| DurationParser.MonthRule | components/json-builder.tsx:80-83 | with no day match, the leftmost `<digits>\s*month` gives 30 times its value, in decimal without leading zeros |
| DurationParser.YearRule | components/json-builder.tsx:85-88 | with no day or month match, the leftmost `<digits>\s*year` gives 365 times its value, in decimal without leading zeros |
| DurationParser.BareNumberRule | components/json-builder.tsx:90-97 | with no unit match, an all-digit input is returned verbatim and anything else gives "" |
| DurationParser.ParseEmpty | components/json-builder.tsx:96-97 | the empty input is rejected with "" |
| DurationParser.ParseIgnoresTrim | script.js:424-425 | trimming the text before parsing, as `addDuration` does, does not change the result |
| Text.TrimShape | components/json-builder.tsx:67 | `trim` removes exactly the whitespace at both ends: the result is a trimmed infix with only whitespace around it |
| Text.TrimIdempotent | components/json-builder.tsx:67 | trimming twice is trimming once |
| Text.LowerTrim | components/json-builder.tsx:67 | lower-casing and trimming commute, so `toLowerCase().trim()` equals `trim().toLowerCase()` |
| Text.LowerIdempotent | script.js:181 | lower-casing twice is lower-casing once, so a stored lower-cased name compares as the selection did |
| Text.NatToStringValue | components/json-builder.tsx:82 | `toString` of a count reads back as that count |
| Text.CanonicalDigitsRoundTrip | components/json-builder.tsx:82 | a digit string without leading zeros is the `toString` of its value |
| Text.CanonicalDigitsInjective | components/json-builder.tsx:335 | two canonical digit strings are equal exactly when their values are |
| Catalog.Toggle | components/json-builder.tsx:161-167 | toggling flips the payment's membership and leaves every other payment's membership alone |
| Catalog.ToggleDistinct | script.js:153-163 | toggling keeps a duplicate-free payment list duplicate-free |
| Catalog.ToggleOthersInOrder | script.js:388-396 | the other entries keep their relative order; a new entry is pushed at the end |
| Catalog.ToggleTwice | components/json-builder.tsx:161-163 | toggling a new payment twice restores the list |
| Catalog.Without | script.js:155 | filtering keeps exactly the entries different from the payment |
| Catalog.WithoutProduct | components/json-builder.tsx:228 | filtering by id keeps exactly the products with another id |
| Catalog.WithoutDuration | script.js:459-461 | filtering by id keeps exactly the durations with another id |
| Catalog.SetPaymentsWhere | components/json-builder.tsx:247-254 | the list keeps its length; its effect is stated by `Catalog.SetPaymentsWhereTouchesOnlyId` |
| Catalog.SetPaymentsAt | script.js:402 | the list keeps its length; its effect is stated by `Catalog.EditsTouchOneProduct` |
| Catalog.AddDurationAt | script.js:445 | the list keeps its length; its effect is stated by `Catalog.EditsTouchOneProduct` |
| Catalog.RemoveDurationAt | components/json-builder.tsx:310-312 | the list keeps its length; its effect is stated by `Catalog.EditsTouchOneProduct` |
| Catalog.WithoutProductAt | script.js:348-354 | with distinct ids, removing the id of the product at position i drops that product and keeps the others in order |
| Catalog.WithoutDurationAt | script.js:458-461 | the same for one product's durations |
| Catalog.WithoutProductAbsent | components/json-builder.tsx:226-239 | removing an id no product has changes nothing |
| Catalog.FindById | script.js:357-358 | the index found holds the id and no earlier product does; none is found exactly when no product has the id |
| Catalog.SetPaymentsAgree | components/json-builder.tsx:246-255 | with distinct ids, rewriting every product with the id equals rewriting the first one found, and an unknown id changes nothing |
| Catalog.EditsTouchOneProduct | components/json-builder.tsx:273-318 | adding or removing a duration, or setting payments, at position i changes only that list of product i; the other products and every id, name and image stay as they were |
| Catalog.SetPaymentsWhereTouchesOnlyId | components/json-builder.tsx:246-255 | rewriting payments by id changes only the payments of the products with that id |
| Catalog.HasProductNamed | script.js:181 | the duplicate test holds exactly when some product's lower-cased name equals the lower-cased selection |
| Catalog.LabelsKeepNames | components/json-builder.tsx:246-262 | an edit that keeps every id, name and image keeps the names distinct up to case |
| Catalog.LabelsKeepIds | components/json-builder.tsx:246-262 | an edit that keeps every id, name and image keeps the ids distinct |
| Catalog.AppendKeepsNamesDistinct | components/json-builder.tsx:180-199 | appending a product whose lower-cased name is not yet taken keeps the names distinct |
| Catalog.AppendKeepsIdsDistinct | script.js:188-196 | appending a product with a fresh id keeps the ids distinct |
| Catalog.WithoutProductKeepsNames | script.js:348-354 | removal keeps the names distinct up to case |
| Catalog.WithoutProductKeepsIds | script.js:348-354 | removal keeps the ids distinct |
| Catalog.WithoutDurationKeepsDistinct | script.js:458-461 | removal keeps the duration ids distinct |
| Catalog.NewDurationValid | components/json-builder.tsx:275-283 | a duration built from a non-empty parse and the trimmed, non-blank price and URL is well formed |
| Catalog.AppendDurationValid | script.js:445 | pushing a well-formed duration with a fresh id keeps the product well formed |
| Catalog.RemoveDurationValid | script.js:458-461 | filtering durations by id keeps the product well formed |
| Catalog.AddDurationKeepsCatalog | components/json-builder.tsx:277-284 | pushing a well-formed duration with a fresh id onto one product keeps the catalog invariant |
| Catalog.RemoveDurationKeepsCatalog | components/json-builder.tsx:310-313 | filtering one product's durations keeps the catalog invariant |
| Catalog.SetPaymentsKeepsCatalog | script.js:402 | giving one product a duplicate-free payment list keeps the catalog invariant |
| Catalog.SetPaymentsWhereKeepsCatalog | components/json-builder.tsx:247-255 | giving every product with the id a duplicate-free list keeps the catalog invariant |
| Catalog.WithoutProductKeepsCatalog | components/json-builder.tsx:228 | removal by id keeps the catalog invariant |
| Catalog.AppendKeepsCatalog | components/json-builder.tsx:199 | appending a well-formed product with a new name and a fresh id keeps the catalog invariant |
| Catalog.AddVerdict | script.js:170-186 | the guards in order: blank reseller name or picture gives "missing reseller info"; otherwise no selection or no payment gives "missing product info"; otherwise the product is added exactly when no product has the same lower-cased name |
| ReactBuilder.SetResellerName | components/json-builder.tsx:380 | only the reseller name changes, to the typed value |
| ReactBuilder.SetResellerPfp | components/json-builder.tsx:390 | only the picture URL changes, to the typed value |
| ReactBuilder.HandleProductSelect | components/json-builder.tsx:152-159 | only the selected name and image change, to the chosen product's |
| ReactBuilder.HandleToggleNewPayment | components/json-builder.tsx:161-163 | the payment's membership in the pending list flips, every other payment's is kept, and nothing else changes (order and duplicates: `Catalog.ToggleOthersInOrder`, `ReactBuilder.TogglesKeepInv`) |
| ReactBuilder.HandleToggleEditPayment | components/json-builder.tsx:165-167 | the same for the temporary list of an open edit |
| ReactBuilder.HandleRemoveProduct | components/json-builder.tsx:226-239 | the products become exactly those with another id; an edit of that product ends, any other edit stays open; the temporary list and everything else are kept (invariant: `ReactBuilder.RemoveProductKeepsInv`) |
| ReactBuilder.HandleEditPayments | components/json-builder.tsx:241-244 | the edit opens on the product's id with a copy of its payments; nothing else changes |
| ReactBuilder.HandleSavePayments | components/json-builder.tsx:246-262 | every product with the id takes the temporary list as its payments, every other product's payments, and all ids, names, images and durations, stay; the edit ends even for an unknown id (invariant: `ReactBuilder.EditPaymentsKeepInv`) |
| ReactBuilder.HandleCancelEditPayments | components/json-builder.tsx:264-271 | the edit ends and the temporary list is dropped; nothing else changes |
| ReactBuilder.HandleDurationInput | components/json-builder.tsx:605-608 | the raw text is stored with its parse, which is a parser result form and "lifetime" exactly for a lifetime input; nothing else changes |
| ReactBuilder.SetDurationPrice | components/json-builder.tsx:622 | only the price input changes |
| ReactBuilder.SetDurationUrl | components/json-builder.tsx:632 | only the URL input changes |
| ReactBuilder.HandleAddDuration | components/json-builder.tsx:273-301 | with a non-empty parse and a non-blank price and URL, one duration with the id, the parse and the trimmed price and URL is appended to that product only, and the four duration inputs are cleared; otherwise nothing changes (agreement with the script: `DomBuilder.AddDurationAgrees`) |
| ReactBuilder.HandleRemoveDuration | components/json-builder.tsx:303-318 | that product keeps exactly its durations with another id; every other product, and every id, name, image and payment list, stays (invariant: `ReactBuilder.RemoveDurationKeepsInv`) |
| ReactBuilder.ResetAll | components/json-builder.tsx:131-144 | every piece of state is back to its initial value, which satisfies the invariant |
| ReactBuilder.HandleAddProduct | components/json-builder.tsx:169-224 | the verdict is that of the guards; on success exactly one product is appended, with the trimmed lower-cased name, the pending payments and no durations, and the selection is cleared; otherwise the state is unchanged |
| ReactBuilder.InitialInv | components/json-builder.tsx:101-125 | the initial state satisfies the invariant |
| ReactBuilder.InputsKeepInv | components/json-builder.tsx:605-608 | the text inputs, the duration field and a trimmed product selection keep the invariant |
| ReactBuilder.TogglesKeepInv | components/json-builder.tsx:161-167 | both toggles keep the invariant and flip the payment's membership |
| ReactBuilder.AddProductKeepsInv | components/json-builder.tsx:169-224 | with a fresh id, adding a product keeps the invariant and grows the list by one exactly when it is added |
| ReactBuilder.UntrimmedSelectionAddsDuplicate | components/json-builder.tsx:180-191 | a selection with surrounding blanks passes the duplicate check beside a product of the trimmed name, so names stop being distinct |
| ReactBuilder.RemoveProductKeepsInv | components/json-builder.tsx:226-239 | removing a product keeps the invariant |
| ReactBuilder.EditPaymentsKeepInv | components/json-builder.tsx:241-271 | opening an edit on a duplicate-free list, saving and cancelling keep the invariant |
| ReactBuilder.AddDurationKeepsInv | components/json-builder.tsx:273-301 | with a fresh id, adding a duration keeps the invariant; when a duration is stored, the raw text, the parsed value, the price and the URL are cleared |
| ReactBuilder.RemoveDurationKeepsInv | components/json-builder.tsx:303-318 | removing a duration keeps the invariant |
| DomBuilder.DurationFromInputs | script.js:424-443 | a duration built from the inputs carries the fresh id and is well formed |
| DomBuilder.DurationFromInputsSpec | script.js:424-436 | a duration is built exactly when the parse of the text, the trimmed price and the trimmed URL are all non-empty, from those three values |
| DomBuilder.JsonBuilder.constructor | script.js:19-29 | every field starts empty and the invariant holds |
| DomBuilder.JsonBuilder.SetResellerName | script.js:51-55 | only the reseller name changes |
| DomBuilder.JsonBuilder.SetResellerPfp | script.js:57-62 | only the picture URL changes |
| DomBuilder.JsonBuilder.SelectProduct | script.js:126-134 | only the selection changes |
| DomBuilder.JsonBuilder.TogglePayment | script.js:153-163 | the pending payments are toggled, nothing else changes, the invariant is kept |
| DomBuilder.JsonBuilder.AddProduct | script.js:170-205 | the outcome is the verdict of the guards; on success one product with the lower-cased name, a copy of the pending payments and no durations is pushed and the selection is cleared; otherwise nothing changes; the invariant is kept |
| DomBuilder.JsonBuilder.RemoveProduct | script.js:348-354 | the products become those with another id; nothing else changes |
| DomBuilder.JsonBuilder.EditPayments | script.js:356-362 | an unknown id changes nothing; otherwise the edit opens on a copy of that product's payments |
| DomBuilder.JsonBuilder.ToggleTempPayment | script.js:388-396 | the temporary payments are toggled, nothing else changes |
| DomBuilder.JsonBuilder.SavePayments | script.js:398-409 | an unknown id changes nothing; otherwise only the first product with the id takes the temporary list and the edit ends |
| DomBuilder.JsonBuilder.CancelEditPayments | script.js:411-416 | the edit ends and nothing else changes |
| DomBuilder.JsonBuilder.AddDuration | script.js:418-456 | a duration is pushed onto the product at the index exactly when the inputs give one; otherwise nothing changes; the invariant is kept |
| DomBuilder.JsonBuilder.RemoveDuration | script.js:458-468 | only that product's durations are filtered by id |
| DomBuilder.JsonBuilder.UpdateJsonOutput | script.js:504-535 | the document is the projection of the current fields |
| DomBuilder.JsonBuilder.ResetAll | script.js:564-590 | every field is back to its constructor value |
| DomBuilder.AddDurationAgrees | components/json-builder.tsx:273-284 | the React handler stores exactly the duration the script builds from the same inputs, or both reject |
| DomBuilder.AddProductAgrees | script.js:170-199 | for a selection from the product list, the React handler reaches the script's verdict and appends the same product |
| JsObject.Lookup | components/json-builder.tsx:335 | a key has no value exactly when it is not among the object's keys |
| JsObject.Assign | components/json-builder.tsx:335 | after `obj[k] = v` the key is present, and the object grows by one member exactly when the key is new (keys and values: `JsObject.AssignKeys`, `JsObject.AssignLookup`) |
| JsObject.AssignAll | components/json-builder.tsx:333-341 | a series of assignments adds at most one member per assignment and removes none (its effect: the `JsObject.AssignAll...` lemmas) |
| JsObject.OwnKeyOrder | components/json-builder.tsx:348 | the enumeration has as many members as the object (a permutation with index keys first: `JsObject.OwnKeyOrderPermutes`, `JsObject.OwnKeyOrderShape`) |
| JsObject.Emit | components/json-builder.tsx:348 | writing keeps strings as they are and keeps the size of every array and object (key order: `JsObject.EmitObjectKeys`) |
| JsObject.OwnKeyOrderAroundFirst | script.js:533 | when the first key created is not an array index, exactly the array-index keys are written before it, in strictly ascending order |
| JsObject.AssignKeys | components/json-builder.tsx:335 | assigning to an existing key keeps every key in place; a new key goes at the end |
| JsObject.AssignLookup | components/json-builder.tsx:335 | after an assignment the key holds the new value and every other key its old one |
| JsObject.AssignDistinct | script.js:520 | assignment never creates a second copy of a key |
| JsObject.AssignAllHas | components/json-builder.tsx:333-341 | after a series of assignments the keys are the initial ones and the assigned ones |
| JsObject.AssignAllKeys | script.js:514-527 | a series of assignments keeps the initial keys first and in place, and every key once |
| JsObject.AssignAllLookupLast | components/json-builder.tsx:335-338 | a key assigned several times holds its last value |
| JsObject.AssignAllLookupUnassigned | components/json-builder.tsx:325-327 | a key never assigned keeps its initial value |
| JsObject.AssignAllOrder | components/json-builder.tsx:333-341 | two keys end up in the order of their first appearance |
| JsObject.IsArrayIndexIff | components/json-builder.tsx:348 | a key is an array index exactly when it is the decimal string of an integer below 2^32 − 1 |
| JsObject.OwnKeyOrderPermutes | components/json-builder.tsx:348 | the enumeration writes every member exactly once and nothing else |
| JsObject.OwnKeyOrderShape | script.js:533 | array-index keys come first, in ascending order, and the other keys follow in creation order |
| JsObject.OwnKeyOrderFirstOther | script.js:533 | the first non-index member comes right after all the array-index keys |
| JsObject.OwnKeyOrderDistinct | components/json-builder.tsx:348 | the enumeration of an object with distinct keys has distinct keys |
| JsObject.OwnKeyOrderStrict | components/json-builder.tsx:348 | array-index keys are written in strictly ascending numeric order |
| JsObject.EmitObjectKeys | components/json-builder.tsx:348 | an object is written with its keys in enumeration order |
| Projection.BuildJson | components/json-builder.tsx:320-349 | the nested loops build exactly the projected document |
| Projection.Project | components/json-builder.tsx:320-349 | the document is an object with at most one key, and it is empty exactly when the reseller name is blank |
| Projection.Output | script.js:533 | the written document is an object with the same top-level keys as the built one |
| Projection.ProjectTopLevel | script.js:505-531 | a blank reseller name gives `{}`; otherwise the only key is the trimmed name |
| Projection.ResellerDataKeys | components/json-builder.tsx:325-341 | the reseller object holds `pfp` first, then each product name, each key once |
| Projection.ResellerDataLookupProduct | script.js:526 | under a product's name lies that product's object; with repeated names the last product wins |
| Projection.ResellerDataLookupPfp | components/json-builder.tsx:325-327 | `pfp` holds the trimmed picture URL when no product is named "pfp" |
| Projection.ProductDetailsKeys | script.js:515-524 | the product object holds `payments` first, then each duration key, each key once |
| Projection.ProductDetailsLookupDuration | components/json-builder.tsx:334-339 | a repeated duration key carries the price and URL of its last entry |
| Projection.ProductDetailsLookupPayments | components/json-builder.tsx:329-331 | `payments` holds the product's payment list |
| Projection.ProductDetailsCreationOrder | components/json-builder.tsx:334-339 | a repeated duration key keeps the position of its first entry |
| Projection.ProductWrittenOrder | components/json-builder.tsx:348 | in the written product object the keys before `payments` are exactly the array-index duration keys, in strictly ascending order; every other key follows `payments` |

## Left out

- Rendering: JSX, `innerHTML` templates, `escapeHtml`, image previews,
  `onerror` fallbacks, showing and hiding steps, enabling and disabling
  buttons, and the `currentStep` and `isAdding...` flags. These are
  presentation, not catalog state.
- Toasts, `setTimeout`, `scrollIntoView`, the `productRefs` map and loading
  spinners. These are presentation timing. A rejected add returns its
  outcome instead of showing a toast.
- Clipboard writes (`copyToClipboard`, components/json-output.tsx). They call
  a foreign asynchronous API. components/json-output.tsx and app/page.tsx
  are not part of this model: they hold no other logic.
- Id generation (`crypto.randomUUID`, `generateId`). It is random. Ids are
  parameters, and the lemmas that keep ids distinct require them fresh.
- Reading input values from the page. The script's `addDuration` reads
  three input elements; their values are parameters of
  `DomBuilder.JsonBuilder.AddDuration`. Clearing those inputs afterwards
  is page state and is not modelled.
- Unicode `toLowerCase`, `trim` and `\s`. The model lower-cases ASCII only
  and treats space, tab, line feed, vertical tab, form feed and carriage
  return as whitespace.
- `Number.parseInt` and `toString` on very long digit runs, where the source
  loses precision or switches to exponent notation. The model computes on
  unbounded naturals.
- The text of `JSON.stringify(…, null, 2)`: indentation, string escaping and
  the resulting character layout. The model gives the ordered key/value tree
  in the order the text is written.
- Keys that JavaScript objects treat specially, such as `__proto__`. A
  duration key is always "lifetime" or digits. A product name comes from the
  fixed product list.
- Aliasing in the React handlers. `handleAddDuration` and
  `handleRemoveDuration` copy the product array shallowly and change the
  shared product object in place. The model works on values, so it does not
  capture that the previous state's product object changes too.
- The React component keeps the raw duration text and its parse in two
  state variables. The model updates them together in one handler
  (`ReactBuilder.HandleDurationInput`), which is what the input's change
  listener does.
- DomBuilder.DurationFromInputs: its own contract states only that the
  duration is well formed and carries the id. The exact condition and value
  are stated separately in `DomBuilder.DurationFromInputsSpec`.
