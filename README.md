# zipcodespike: the XML-to-object converter and the lookup decisions

The application is a form that turns a US zip code into a city and a state. It
sends the zip to a lookup endpoint, parses the XML reply, converts the parsed
tree into nested key/value data with `xml2json`, and then reads
`CityStateLookupResponse.ZipCode.City`, `.State` or `.Error` from the result.
This project models the parts of `src/App.js` that hold logic:

- `converter.dfy`, module `Converter`: the XML tree (`Node`: tag name, element
  children, inner text) and the converted value (`JVal`: string, list or
  dictionary). `Convert` is the reference definition of the conversion, stated
  key by key: `Fields(n, i)` is the dictionary that the first `i` children
  produce. `XmlToJson` is the source's loop with own-property lookup: its
  "first occurrence" test looks only at the keys the loop itself stored. It
  updates a local map: the first occurrence of a repeated tag stores a
  one-element list, and a later occurrence replaces the tag's list by that
  list with the child appended. It is proved equal to
  `Convert`. Lemmas state what the conversion produces: leaf text, key sets,
  unique tags, repeated tags and tags that are all distinct.
- `prototype.dfy`, module `PrototypeKeys`: `ConvertAsWritten` is the
  converter with JavaScript's property lookup on a plain object `{}`, which
  also sees the members inherited from `Object.prototype`. Its result is a
  value or a thrown TypeError. The module proves that on every tree without
  such tag names it agrees with `Convert`, and that a repeated tag with such
  a name throws, as does every ancestor of a node that throws (see Findings).
- `zipcode.dfy`, module `ZipCode`: the eligibility test `isZipValid` and the
  sanitiser of the `onChange` handler, exactly as its regular expression
  behaves. A digits-only sanitiser sits beside it as the corrected version.
- `lookup.dfy`, module `Lookup`: optional chaining and JavaScript truthiness
  on converted values. `Decide` is the City/Error branch logic of
  `fetchCityState`, taken as a pure function from the converted response and
  the requested zip to one of three outcomes. `Respond` is the whole handler
  from the parsed document on: it converts with `ConvertAsWritten`, decides,
  and turns a thrown TypeError into no change, as the `catch` does. The
  lemmas about documents are stated on `Respond`, mostly for documents with
  no tag named like a member of `Object.prototype`, where it equals `Decide`
  on `Convert`. They include the two example responses.

The zip field is evidently meant to hold at most five decimal digits, and a
zip is meant to be eligible for a lookup when it is five digits. The model
follows the code, which does less. The sanitiser removes at most the last
character, and only when that character is not a digit, `{` or `}`; then it
truncates to five characters. `isZipValid` only checks for exactly five
characters, so a five-character value that is not all digits is eligible.

## Model

| member | source | states |
|---|---|---|
| `Converter.Named` | src/App.js:14-16 | the siblings that share a tag, as `children.filter` selects them: a node is among them exactly when it is a child with that tag |
| `Converter.XmlToJson` | src/App.js:4-30 | the insert-or-append loop with recursion per child returns exactly the reference conversion `Convert(n)`, so it is deterministic |
| `Converter.FieldsStep` | src/App.js:19-27 | one loop iteration turns the dictionary of the first `i` children into that of the first `i + 1`: a unique tag is set to the child, a repeated tag's first occurrence creates a one-element list, a later one appends to the existing list |
| `Converter.EntryUnique` | src/App.js:25-26 | a tag unique among all siblings is stored as that child converted |
| `Converter.EntryFirst` | src/App.js:19-21 | the first occurrence of a repeated tag already creates a list holding that child |
| `Converter.EntryAppend` | src/App.js:22-23 | a later occurrence of a repeated tag finds a list and appends the child converted |
| `Converter.EntryOther` | src/App.js:12-28 | processing a child leaves the entries of every other tag unchanged |
| `Converter.ConvertShape` | src/App.js:5-11 | a node without element children converts to its text, unchanged; any other node converts to a dictionary whose keys are exactly the distinct child tags |
| `Converter.ConvertUnique` | src/App.js:14-16 | a tag found once among the siblings maps to that child converted, not to a one-element list |
| `Converter.ConvertRepeated` | src/App.js:14-24 | a tag found k > 1 times maps to a list of length k whose j-th element is the j-th child with that tag, converted, in document order |
| `Converter.ConvertCoversChild` | src/App.js:12-28 | every child appears under its tag, as the value or as an element of the list |
| `Converter.ConvertDistinct` | src/App.js:11-29 | with all child tags distinct, the dictionary has one entry per child, each the recursive conversion of that child |
| `Converter.ConvertOneChild` | src/App.js:11-29 | a node with one child converts to a one-entry dictionary |
| `Converter.ConvertTwoChildren` | src/App.js:11-29 | a node with two differently named children converts to a two-entry dictionary |
| `PrototypeKeys.ConvertAsWritten` | src/App.js:4-30 | with JavaScript property lookup, a leaf converts to its text, and a conversion of any other node that completes yields a dictionary keyed by exactly the distinct child tags; when it agrees with `Convert` and when it throws is stated by the lemmas below |
| `PrototypeKeys.LoopAsWritten` | src/App.js:11-29 | the `for` loop from child `i` on, starting from the own properties stored so far: when it completes, the keys are those already stored plus the tags of the children still to come |
| `PrototypeKeys.AsWrittenAgrees` | src/App.js:4-30 | with JavaScript property lookup, the converter returns `Convert(n)` on every tree with no tag named like a member of `Object.prototype` |
| `PrototypeKeys.LoopAgrees` | src/App.js:11-29 | the JavaScript loop started on the dictionary of the first `i` children completes with the converted node |
| `PrototypeKeys.ChildThrows` | src/App.js:12-28 | a TypeError thrown while converting any child not yet processed ends the loop with that TypeError, whatever it has stored |
| `PrototypeKeys.InheritedRepeatThrowsFrom` | src/App.js:19-24 | while a repeated tag named like an `Object.prototype` member is not yet an own key, the loop throws when it reaches that tag's next occurrence, or earlier |
| `PrototypeKeys.InheritedRepeatThrows` | src/App.js:19-24 | a tag named like an `Object.prototype` member that occurs more than once among a node's children makes the node's conversion throw |
| `PrototypeKeys.ThrowPropagates` | src/App.js:12-28 | a child whose conversion throws makes its parent's conversion throw |
| `PrototypeKeys.ConstructorTagsThrow` | src/App.js:19-24 | two sibling `constructor` elements make JavaScript throw, while the intended result lists both texts |
| `ZipCode.IsZipValid` | src/App.js:43 | the zip is eligible for a lookup exactly when it has five characters |
| `ZipCode.Sanitize` | src/App.js:111 | the stored value has at most five characters and is a prefix of the raw value; it differs from the first five raw characters only when the raw value has at most five characters and ends in a character other than a digit, `{` or `}`; all-digit input is only truncated |
| `ZipCode.BraceKept` | src/App.js:111 | four digits followed by `{` or `}` are kept as they are and make an eligible zip that is not all digits |
| `ZipCode.InnerLetterKept` | src/App.js:111 | a letter that is not the last character survives: `12a45` is stored and eligible |
| `ZipCode.Digits` | src/App.js:111 | the digits of a value are all digits, a character occurs in them exactly when it is a digit occurring in the value, and an all-digit value is its own digits |
| `ZipCode.DigitsConcat` | src/App.js:111 | the digits of a concatenation are the digits of the first part followed by those of the second, so order and multiplicity are kept |
| `ZipCode.DigitsOfChar` | src/App.js:111 | a single character contributes itself when it is a digit and nothing otherwise |
| `ZipCode.SanitizeDigits` | src/App.js:111 | the corrected sanitiser stores a prefix of the value's digits of length min(5, number of digits), agrees with the source on all-digit input, and gives an eligible zip only when the value holds at least five digits |
| `ZipCode.BraceDropped` | src/App.js:111 | with the corrected sanitiser, four digits followed by a brace stay four digits, not an eligible zip |
| `Lookup.Decide` | src/App.js:63-83 | a truthy `ZipCode.City` sets city and state from `City` and `State` and takes priority over `Error`; otherwise a truthy `ZipCode.Error` gives the pair "Invalid Zip Code for " + zip / "Try Again"; otherwise nothing changes |
| `Lookup.Respond` | src/App.js:57-87 | the handler on a parsed document: a conversion that throws changes nothing, and on a document with no tag named like an `Object.prototype` member the outcome is `Decide` on `Convert` |
| `Lookup.ZipCodeFieldOf` | src/App.js:63-75 | in a response document, `res?.CityStateLookupResponse?.ZipCode?.<tag>` on the dictionary `Convert` builds reads the unique `<tag>` child of `ZipCode`, converted |
| `Lookup.ZipCodeFieldAbsent` | src/App.js:63-75 | in a response document whose `ZipCode` has no `<tag>` child, that read on `Convert`'s dictionary is `undefined`, for every tag that `Object.prototype` does not supply |
| `Lookup.CityResponse` | src/App.js:57-71 | in the browser (`Respond`), a response with a non-empty `City` leaf and no tag named like an `Object.prototype` member sets the city to its text and the state to the converted `State`, even when an `Error` is present |
| `Lookup.ErrorResponse` | src/App.js:57-82 | in the browser, a response without `City`, with a non-empty `Error` and no tag named like an `Object.prototype` member shows the invalid-zip message for the zip that was requested |
| `Lookup.EmptyCityResponse` | src/App.js:57-83 | in the browser, an empty `City` element is falsy, so without an `Error` (and with no tag named like an `Object.prototype` member) nothing changes |
| `Lookup.OtherRootResponse` | src/App.js:57-87 | in the browser, a document whose root element is neither `CityStateLookupResponse` nor `__proto__` changes nothing, whether its conversion completes or throws |
| `Lookup.InheritedTagResponse` | src/App.js:57-87 | in the browser, a `ZipCode` with a repeated child named like an `Object.prototype` member (two `toString` elements, say) makes the conversion throw, and the caught TypeError changes nothing, whatever `City` holds |
| `Lookup.MemphisExample` | src/App.js:59-71 | the Memphis/TN response converts to the nested dictionary of its three levels, and `Decide` sets Memphis / TN |
| `Lookup.MemphisResponse` | src/App.js:57-71 | in the browser, the Memphis/TN response sets Memphis / TN |
| `Lookup.InvalidExample` | src/App.js:75-82 | the error response converts to its nested dictionary, and `Decide` shows "Invalid Zip Code for " + zip / "Try Again" |
| `Lookup.InvalidResponse` | src/App.js:57-82 | in the browser, the error response shows "Invalid Zip Code for " + zip / "Try Again" |

## Findings

| source | as written | input that shows it | evidently intended | confidence | as-written member | corrected member |
|---|---|---|---|---|---|---|
| src/App.js:20-23 | `jsonResult[child.nodeName] === undefined` also sees members inherited from `Object.prototype`; for a repeated tag with such a name, the code takes the `push` branch on a function and throws a TypeError | `<list><constructor>a</constructor><constructor>b</constructor></list>` | `{constructor: ["a", "b"]}`: each tag is a key of its own | not executed | `PrototypeKeys.ConstructorTagsThrow` | `Converter.XmlToJson` |
| src/App.js:111 | the class `[^\d{5}]` treats `{`, `5` and `}` as literal characters, so braces are spared; with `$` and no `g` flag only the last character is examined | typing `{` after `1234` stores `1234{`, which passes `isZipValid` | the field holds at most five decimal digits | not executed | `ZipCode.BraceKept` | `ZipCode.SanitizeDigits` |

## Left out

- Parsing: `DOMParser.parseFromString` (src/App.js:33, 57) is a browser API. The model takes the parsed tree as input. The document node is a `Node` whose only child is the root element.
- Leaf text: how `innerHTML` serialises and escapes leaf content is browser behaviour. A leaf's text is taken as a given string.
- XML attributes and mixed text/element content: the converter never reads them, so `Node` does not represent them. A node with element children loses its own text, as in the source.
- Network and scheduling: `fetch`, `async`/`await` and `useEffect` (src/App.js:45-91) are I/O and asynchronous scheduling. This leaves out the stale-response race between lookups and the catch-and-log of transport errors. The parsed document and the requested zip are parameters of `Respond`, the converted response and the zip parameters of `Decide`.
- UI: the React state hooks, the `setLoading` calls, the reset on every change (src/App.js:37-39, 109-110), the `maxLength` attribute, the JSX rendering, the `JSON.stringify` display and `console.log` are presentation. `Decide` returns the outcome, and that outcome fixes both displayed fields.
- Strings: JavaScript strings are UTF-16 code units, and `$`, `.length` and `substr` count code units. The model's strings are sequences of Unicode characters, so splitting a surrogate pair is not modelled.
- `Lookup.Member`: a property read on a string or a list gives `undefined` here. This holds for the fixed names the component reads (`CityStateLookupResponse`, `ZipCode`, `City`, `State`, `Error`), but not for names such as `length`.
- `Lookup.Member`: it reads own keys only, so a read of an inherited name such as `constructor` would give `undefined` here. `Lookup.Decide` reads only `CityStateLookupResponse`, `ZipCode`, `City`, `State` and `Error`, none of which `Object.prototype` supplies. They can still resolve through a prototype that a `__proto__` element replaced (see `Lookup.Respond` below); otherwise its outcomes are unaffected.
- `Lookup.ZipCodeFieldOf`: stated on the dictionary `Convert` builds, which is the browser's conversion only for documents without tags named like `Object.prototype` members (`PrototypeKeys.AsWrittenAgrees`); the browser-level statements are the lemmas on `Respond`.
- `Lookup.ZipCodeFieldAbsent`: stated on `Convert`'s dictionary, as `Lookup.ZipCodeFieldOf` is.
- `Lookup.MemphisExample`: stated on `Convert` and `Decide`; `Lookup.MemphisResponse` is the same document in the browser.
- `Lookup.InvalidExample`: stated on `Convert` and `Decide`; `Lookup.InvalidResponse` is the same document in the browser.
- `Lookup.CityResponse`: promised only for documents with no tag named like an `Object.prototype` member. On other documents the conversion may throw and nothing changes (`Lookup.InheritedTagResponse`). Which of those documents still convert is not characterised beyond that.
- `Lookup.ErrorResponse`: promised only for documents with no tag named like an `Object.prototype` member, for the same reason.
- `Lookup.EmptyCityResponse`: promised only for documents with no tag named like an `Object.prototype` member, for the same reason.
- `PrototypeKeys.ConvertAsWritten`: a lone child named `__proto__` is stored as an ordinary key. In JavaScript that assignment goes to the object's prototype instead. `PrototypeKeys.AsWrittenAgrees` excludes that name.
- `Lookup.Respond`: because of that, its outcome for a document with a lone `__proto__` element is not the browser's. With a `__proto__` root whose converted value holds `CityStateLookupResponse.ZipCode.City`, the browser finds `City` through the replaced prototype and sets the city; `Respond` gives no change. Its ensures do not cover such documents: their conversion does not throw, and they contain a name from `Object.prototype`.
- `Lookup.OtherRootResponse`: not promised for a root named `__proto__`, for the reason above.
