# mongoose-url-slugs, modelled in Dafny

This project models the core of the mongoose-url-slugs plugin (`index.js`).
The plugin gives every record of a Mongoose schema a URL slug derived from
one or more text fields. It keeps that slug unique against the other records
of the collection, and it can remember the slugs a record held before, so that
old URLs still resolve.

The model has five parts:

- `SlugGenerator` covers `defaultURLSlugGeneration`. The text is lower-cased,
  each run of characters outside `[a-z0-9-_]` becomes one separator, runs of
  separators collapse into one, and one trailing separator is dropped. The
  two replacements and the trailing-character test are each a function of
  their own. A one-pass reference normaliser is proved equal to the chain of
  the three. The properties
  of the output are proved on the reference: only slug characters, no doubled
  or trailing separator, every word character kept in order, and idempotence.
- `UniqueSlug` covers `ensureUniqueSlug`. It finds the competitors, meaning the
  other records whose current slug starts with the match key. The match key
  is the candidate, or the candidate less its last two characters when it
  fills `maxLength`. Each competitor gets a count:
  - 1 for an exact copy of the candidate;
  - N+1 when it ends with the key, the separator and the digits of N;
  - 1 otherwise.

  The slot is the largest count, with 1 raised to 2. The suffix is the
  separator followed by the slot. With a length limit, the candidate is first
  cut to `maxLength - |suffix|` characters.
- `SlugStore` is an in-memory record store, a sequence of records in store
  order, standing in for the Mongo collection. It holds `findBySlug` and
  `findBySlugHistory`. A failing query is a `fault` parameter.
- `SlugHook` covers the `pre('validate')` hook:
  - `GatherSource` is the loop that builds the source text and the
    "a source field changed" flag.
  - `PrepareSlug` specifies one run of the hook on the record's slug and
    history.
  - `Doc` is a record class. Its method `PreValidate` is the hook itself and
    is proved to leave the record in the state `PrepareSlug` gives.
- `Scenarios` replays the plugin's test suite (`test/index.js`) on concrete
  records.

`Wrappers` (`Option`, `Result`), `Strings` (`substr(0, n)`, prefix and
suffix tests), `Decimal` (`String(n)` and `parseInt`) and `SlugOptions` (the
option record and its defaults) support the five parts.

### Where the code and the plugin's own description differ

The model follows the code in `index.js` in every one of these cases.

- A competitor that does not end in the key, the separator and digits counts
  1, not 0, because the code adds 1 to the parsed value or to 0
  (index.js:68). So the suffix is never `-0` or `-1`.
- The slot is the largest count, that is, one more than the largest number
  already used after the key (index.js:63-73). It is not the smallest unused
  number.
- With a length limit, the slug fills the limit only when the candidate is
  long enough. `substr` leaves a shorter candidate whole, so the candidate
  plus its suffix can be shorter than the limit (index.js:77). When the suffix alone is
  longer than the limit, the slug is that suffix and exceeds the limit.
- "Limited" means the candidate's length equals `maxLength`, whether or not
  it was cut (index.js:52).
- Source fields with an empty value are skipped when several fields are
  joined, so they add no space (index.js:129, 144).
- A history entry is appended whenever a slug is regenerated while the
  record had a non-empty slug, even when the new slug equals the old one
  (index.js:169-204).
- A leading separator is kept: only a trailing one is dropped (index.js:9-11).
- In `findBySlugHistory` an error of the first query is dropped. Only
  `!result` is tested, and the history query then runs (index.js:101-105).

## Model

| member | source | states |
|---|---|---|
| Strings.Prefix | index.js:162 | `substr(0, n)`: a prefix of `s`, exactly `n` long when `0 <= n <= len`, empty for `n <= 0`, all of `s` for `n >= len` |
| Decimal.Numeral | index.js:75 | `String(max)`: a non-empty run of digits, one digit exactly for numbers below 10, no leading zero otherwise |
| Decimal.NumeralRoundTrip | index.js:68 | `parseInt` of the numeral written at index.js:75 gives the number back |
| Decimal.TrailingDigits | index.js:67 | the `([0-9]+)$` capture: digits that end the string, preceded by a non-digit or by nothing |
| Decimal.TrailingDigitsAfterNonDigit | index.js:67 | digits appended after a non-digit are exactly the trailing digit run captured |
| SlugGenerator.Generate | index.js:6-13 | falsy text gives ""; the slug has only `[a-z0-9-_]` characters, never two separators in a row and no trailing separator |
| SlugGenerator.PipelineIsReference | index.js:8-11 | the two replacements (runs to a separator, collapse) and the trailing-separator drop, chained, equal the one-pass reference normaliser |
| SlugGenerator.GenerateMatchesReference | index.js:6-13 | for non-empty text the generator is the reference normaliser of the lower-cased text |
| SlugGenerator.GenerateKeepsWords | index.js:8 | the word characters of the lower-cased text are kept, all of them and in order; the slug is "" exactly when there are none |
| SlugGenerator.GenerateLeadingSeparator | index.js:8-11 | a non-empty slug starts with the separator if and only if the text starts with a non-word character |
| SlugGenerator.GenerateIdempotent | index.js:6-13 | generating from a generated slug gives the same slug |
| SlugGenerator.GenerateTwoWords | index.js:8 | two words with a gap of other characters between them become `w1 + separator + w2` |
| SlugStore.FirstWhere | index.js:86 | the first index in store order whose record satisfies the query, and none before it; `None` when no record does |
| SlugStore.FindOne | index.js:86 | `findOne`: the fault when the query fails; otherwise a stored record matching the query, or none exactly when no record matches |
| SlugStore.FindBySlug | index.js:83-87 | the fault, or a record whose current slug is `s`; none if and only if no record has that slug |
| SlugStore.FindInHistory | index.js:103-105 | the history query: the fault, or a record with an entry `s` in its history; none if and only if no history holds `s` |
| SlugStore.FindBySlugHistory | index.js:89-110 | a current-slug match wins whenever one exists; otherwise, or when the first query fails, the result is the history query's |
| UniqueSlug.MatchKey | index.js:52-55 | the key is a prefix of the candidate: the candidate itself unless it fills the limit, else two characters shorter |
| UniqueSlug.Competitors | index.js:55-59 | the slugs found are exactly the current slugs of other records that start with the key; none if and only if no other record competes |
| UniqueSlug.NumberedParses | index.js:67-68 | a slug ending in key, separator and digits `d` parses to the value of `d` |
| UniqueSlug.ParsedIsNumbered | index.js:67-68 | a slug that parses ends in key, separator and its trailing digits, and the value is theirs |
| UniqueSlug.ConcatParses | index.js:67-68 | `pre + key + separator + digits` parses to the value of the digits, whatever `pre` is (the expression is not anchored) |
| UniqueSlug.FoldMax | index.js:63-71 | the reduce: no count is above the result, and the result is the start value or some competitor's count |
| UniqueSlug.Slot | index.js:63-73 | the slot is at least 2, no smaller than any count, and is 2 or some count |
| UniqueSlug.BumpedMaximumUnique | index.js:63-73 | only one number meets the slot's description, so the slot is determined by the counts |
| UniqueSlug.NumberedSlugCounts | index.js:66-68 | the slug `candidate + separator + numeral(k)` counts `k + 1` |
| UniqueSlug.Suffix | index.js:75 | the suffix is the separator followed by one or more digits |
| UniqueSlug.SuffixCarriesSlot | index.js:73-75 | the suffix is the separator followed by the numeral of the slot |
| UniqueSlug.EnsureUniqueSlug | index.js:48-81 | fails if and only if uniqueness is on and the query fails, with that error; the candidate is kept if and only if uniqueness is off or nothing competes, and a kept candidate is returned unchanged |
| UniqueSlug.ResolvedWithinLimit | index.js:77 | a candidate within the limit resolves within the limit, unless the slug is the bare suffix that alone is longer |
| UniqueSlug.ResolvedFillsLimit | index.js:52-77 | a candidate that fills the limit resolves to a slug exactly as long, unless the slug is the bare suffix that alone is longer |
| UniqueSlug.SuffixIsUrlSafe | index.js:75 | the suffix is made of `[a-z0-9-_]` characters |
| UniqueSlug.ResolvedIsUrlSafe | index.js:75-78 | a candidate of `[a-z0-9-_]` characters resolves to a slug of such characters |
| UniqueSlug.ResolvedDiffersFromCompetitors | index.js:63-78 | a candidate that is not cut (no limit, or shorter than the limit with room for the suffix) resolves to none of the competitors' slugs |
| UniqueSlug.ResolvedSlugIsFresh | index.js:48-81 | for a candidate that is not cut, when the query succeeds, the resolved slug is held by no other record |
| UniqueSlug.LimitedResolutionCanRepeat | index.js:52-77 | with limit 5, a candidate "abc-2" against a record holding "abc-2" resolves to "abc-2" again |
| SlugHook.JoinNonEmpty | index.js:129-131 | the joined source text is "" if and only if every field's text is "" |
| SlugHook.SpaceTerminatedIsJoin | index.js:129-131 | the loop's space-terminated accumulation is the joined text plus one space, or "" |
| SlugHook.JoinSkipsEmpty | index.js:129 | a field with an empty text does not change the joined text |
| SlugHook.JoinTwo | index.js:129-131 | two non-empty texts are joined with exactly one space |
| SlugHook.GatherSource | index.js:117-151 | the loop computes the source text (single field, or non-empty field texts joined by spaces) and the changed flag (new, or some source field modified) |
| SlugHook.Candidate | index.js:162 | the candidate is a prefix of the generated slug, within the limit, and is the generated slug whenever that fits |
| SlugHook.NewHistory | index.js:169-204 | with history on and a truthy old slug, the history gains exactly one entry (old slug, now) at its end; otherwise it is unchanged |
| SlugHook.PrepareSlug | index.js:112-210 | no regeneration leaves the record as it was; sparse with an empty slug unsets it; a failed query is the only error; otherwise the slug is the resolved candidate and the history is extended as above |
| SlugHook.Doc.constructor | index.js:44 | a new record: its fields all marked modified, slug the schema default "", empty history |
| SlugHook.Doc.PreValidate | index.js:112-210 | the hook changes only slug and history: on error the record is untouched and the error returned; otherwise the record's state is `PrepareSlug`'s |
| SlugHook.PreparedSlugIsUrlSafe | index.js:155-166 | every slug the hook writes is made of `[a-z0-9-_]` characters |
| SlugHook.PreparedSlugWithinLimit | index.js:162-166 | with a limit, the slug written fits it, unless it is the bare suffix that alone is longer |
| SlugHook.PreparedSlugIsFresh | index.js:155-166 | when the generated slug is not cut and the query answers, the slug written is held by no other record |
| SlugHook.PreparedSlugWithoutCompetitors | index.js:61 | when the store answers, the generated slug is shorter than the limit (or there is none), and no other slug starts with it, the hook writes the generated slug itself |
| SlugHook.PreparedSlugFillsLimit | test/index.js:34-47 | a generated slug at least as long as the limit gives a slug exactly as long as the limit, unless it is the bare suffix that alone is longer |
| Scenarios.GeneratedFromName | test/index.js:50-52 | a name "w1 w2" of lower-case words generates "w1-w2" |
| Scenarios.NamedWithoutCompetitors | test/index.js:61 | a record named "w1 w2" with no competitor gets "w1-w2", and its history is what `NewHistory` gives (the old slug appended only when it was non-empty) |
| Scenarios.CoolStuffFirst | test/index.js:50-52 | the first "cool stuff" becomes "cool-stuff" |
| Scenarios.CoolStuffResolves | test/index.js:53-54 | "cool-stuff" against a record holding it resolves to "cool-stuff-2" |
| Scenarios.CoolStuffSecond | test/index.js:53-57 | the second "cool stuff" becomes "cool-stuff-2" |
| Scenarios.FirstNamedAB | test/index.js:61 | a record named "a b" gets "a-b" |
| Scenarios.RenamedKeepsHistory | test/index.js:62-64 | renamed to "c d" it gets "c-d", and "a-b" goes to its history |
| Scenarios.SecondNamedAB | test/index.js:65 | a second "a b" gets "a-b", because a history entry does not compete |
| Scenarios.FoundByCurrentSlug | test/index.js:66-70 | `findBySlug("a-b")` finds the second record, and so does `findBySlugHistory`: the current slug wins over the other record's history |
| Scenarios.FoundByHistory | test/index.js:76-90 | `findBySlugHistory("e-f")` finds the record renamed from "e f" to "g h" |

## Left out

- Schema wiring is not modelled: adding the slug field (index.js:42-46), its index, `trim` and `required` flags, and the lazily added history sub-schema (index.js:171-188). The slug and history are fields of the record from the start. Slugs never hold whitespace, so `trim` would not change them.
- Option merging with `extend` (index.js:35) is not modelled; options are given already merged, and `SlugOptions.Defaults` records the defaults. Splitting a field string at spaces (index.js:37-39) is taken as given in the `SlugFields` datatype.
- The `field`, `historyField`, `index_type` and `index_default` options are fixed: the slug, the history and the default "" are fixed parts of the record.
- A custom `generator` option is not modelled; only the default generator is.
- The separator is '-' or '_'. The source accepts any string. One holding regular-expression metacharacters would change what the collapse at index.js:8 and the queries at index.js:55 and 67 match, and a separator longer than one character is never dropped by the one-character test at index.js:9.
- The Mongo queries are modelled on an in-memory sequence in store order. Query syntax, projections, the `fields` and `additionalOptions` arguments and the argument shuffling of index.js:90-97 are not modelled.
- Concurrency is not modelled. Two records saved at once can both pass the resolver, and only the unique index stops the second.
- `striptags` is the parameter `strip`, and `new Date()` is the parameter `now`.
- `markModified` (index.js:167, 202) and Mongoose's change tracking are not modelled: `modified` and `isNew` are given.
- `doc.get(field, String)` is modelled on string values; the cast of non-string values is not modelled.
- SlugGenerator.Generate: `toLowerCase` is ASCII only. The few non-ASCII characters whose lower case is an ASCII letter, such as the Kelvin sign, are not modelled.
- Decimal.DigitsValue: numbers are unbounded. JavaScript loses precision above 2^53, so a competitor number with more than 15 digits may parse differently.
- UniqueSlug.EnsureUniqueSlug: the source puts the candidate unescaped into the regular expressions at index.js:55 and 67, and the method is public (index.js:48), so a direct call with "a.b" would also match a record holding "axb". The model compares the candidate literally, so it is faithful for candidates without regular-expression metacharacters. Every candidate the hook passes is such a slug.
- UniqueSlug.ResolvedDiffersFromCompetitors: proved only when the candidate is not cut (no limit, or shorter than the limit with room for the suffix). A cut candidate can resolve to a competitor's slug, as `LimitedResolutionCanRepeat` shows.
- UniqueSlug.ResolvedSlugIsFresh: freshness is proved only when the candidate is not cut. It fails only when the candidate fills the limit or the suffix does not fit after it: the code can then return a slug another record holds, as `LimitedResolutionCanRepeat` shows, and the save relies on the unique index.
- SlugHook.PreparedSlugIsFresh: the same restriction to a generated slug that is not cut, for the same reason.
- SlugHook.PreparedSlugWithinLimit: the slug is within the limit or is a bare suffix longer than it, which is weaker than a plain length bound, because the code allows that case.
