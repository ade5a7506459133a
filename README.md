# REST client core, modelled in Dafny

This project models the algorithmic core of a browser-based REST API client:

- the **variables provider**: a list of `{name, value}` variables with an upsert
  (`addVariable`), a filter by name (`removeVariable`), a first-match lookup
  (`getVariableValue`) and the **placeholder substitution** that rewrites every
  `{{name}}` in a text and reports the names it could not resolve;
- the **client helpers**: the map of enabled, non-empty-key request headers
  (a later header wins over an earlier one with the same key) and the colour
  class of a response status;
- the **locale switch**: the path of the current page in the other language,
  obtained by replacing the first occurrence of `/` + current locale.

Files and modules:

| file | module | what |
|---|---|---|
| `wrappers.dfy` | `Wrappers` | `Option`, for JavaScript's `undefined` |
| `types.dfy` | `Types` | the seven request methods and the `Header` row |
| `variable_store.dfy` | `VariableStore` | `Variable`, `Lookup`, `Upsert`, `Without` and their lemmas |
| `placeholders.dfy` | `Placeholders` | the placeholder syntax, the scan (`Tokenize`), the rewrite (`Render`), `Substitute` and its lemmas |
| `variables_context.dfy` | `VariablesContext` | class `VariablesProvider`: the `variables` state, the methods that change it and the scanning loop |
| `client_utils.dfy` | `ClientUtils` | `GetFilteredHeaders` (a loop folding into a map) and `GetStatusColor` |
| `locale_utils.dfy` | `LocaleUtils` | `ToggleToOtherLocale` and first-occurrence replacement |

How the substitution is specified. The pattern `{{([^}]+)}}` with the global
flag is a left-to-right scan: where `{{` starts, the name runs to the first
`}`; the match succeeds when that name is non-empty and the `}` is followed by
another `}` (`PlaceholderPrefix`). The regular-expression engine also tries shorter
names, but each of them fails because the character after it is not `}`, so
this is the only match possible at that position. After a match the scan resumes
behind its `}}`; otherwise it moves on by one character. `Substitute` is that
scan: each match becomes the variable's value, inserted verbatim, or stays as
written with its name reported. The same process is also stated in two stages:
`Tokenize` cuts the text into literal characters and placeholder references
that spell it back exactly; `TokenizeSound` and `TokenizeUnique` show that this
is the one such cut that agrees with the syntax at every token; `Render`
rewrites the tokens; and `SubstituteRendersTokens` proves that the scan equals
rewriting the tokens. `RenderAppend` shows that the rewrite is one pass, in
order. `VariablesProvider.SubstituteVariables` is the imperative scan with
accumulators, and it is proved equal to `Substitute`. Every match is looked up
with `getVariableValue` on the provider's current list, which is `Lookup`.

Where the written design and the code differ, the model follows the code:

- The design says variable names are unique. The code never checks this. It
  loads whatever list storage holds, so the model keeps distinctness as a
  property that `addVariable` and `removeVariable` preserve, not as an
  invariant of the class.
- The design describes an encoder and decoder for request paths and a bounded
  history log. They exist in the repository:
  `src/app/[locale]/client/utils/buildClientStateUrl.ts` and `buildRequestUrl`
  in `src/app/[locale]/client/utils/utils.ts` encode,
  `src/app/[locale]/client/[method]/[[...path]]/page.tsx` decodes, and
  `src/app/[locale]/client/utils/useHistorySaver.ts` keeps at most 50 entries.
  They are outside this model (see "## Left out").

## Model

| member | source | states |
|---|---|---|
| `Types.MethodsListEachOnce` | src/app/client/components/MethodSelector.tsx:1-9 | the method list has seven entries, lists every method and lists none twice |
| `VariableStore.Lookup` | src/app/context/VariablesContext.tsx:55-58 | `None` exactly when no entry has the name; otherwise the value of an entry with that name that no earlier entry shares (the first match) |
| `VariableStore.Upsert` | src/app/context/VariablesContext.tsx:39-48 | existing name: length, order and names kept, matching entries take the new value, others unchanged; new name: the old list followed by the new record as its last element |
| `VariableStore.Without` | src/app/context/VariablesContext.tsx:51-53 | keeps exactly the entries with another name; an absent name leaves the list unchanged; never grows the list |
| `VariableStore.LookupAfterUpsert` | src/app/context/VariablesContext.tsx:39-48 | after an upsert the name looks up to the new value and every other name looks up as before |
| `VariableStore.UpsertKeepsDistinct` | src/app/context/VariablesContext.tsx:41-47 | pairwise distinct names stay pairwise distinct after an upsert |
| `VariableStore.UpsertIdempotent` | src/app/context/VariablesContext.tsx:39-48 | adding the same record twice gives the same list as adding it once |
| `VariableStore.LookupAfterRemove` | src/app/context/VariablesContext.tsx:51-58 | after removal the name looks up to `None` and every other name looks up as before |
| `VariableStore.WithoutAppend` | src/app/context/VariablesContext.tsx:52 | removal distributes over concatenation, so the survivors keep their original order |
| `VariableStore.WithoutKeepsDistinct` | src/app/context/VariablesContext.tsx:52 | pairwise distinct names stay pairwise distinct after removal |
| `Placeholders.CloseBrace` | src/app/context/VariablesContext.tsx:64 | the index of the first `}` at or after a position, with no `}` before it, or the end of the text |
| `Placeholders.PlaceholderPrefix` | src/app/context/VariablesContext.tsx:64 | a found name is non-empty, holds no `}`, and `{{name}}` is a prefix of the text |
| `Placeholders.PlaceholderPrefixOf` | src/app/context/VariablesContext.tsx:64 | a text starting with `{{n}}`, for a non-empty `n` without `}`, is matched with exactly the name `n` |
| `Placeholders.Tokenize` | src/app/context/VariablesContext.tsx:64 | the tokens spell the text back exactly, in order, and there are never more tokens than characters |
| `Placeholders.TokenizeSound` | src/app/context/VariablesContext.tsx:64 | the scan agrees with the placeholder syntax at every token: each reference is the match that starts at its position, and no match starts at a literal |
| `Placeholders.TokenizeUnique` | src/app/context/VariablesContext.tsx:64 | any token sequence that spells the text and agrees with the syntax at every token is the scan's |
| `Placeholders.Render` | src/app/context/VariablesContext.tsx:64-71 | every reported name is unknown (found names are never listed); every unknown reference's name is reported |
| `Placeholders.Substitute` | src/app/context/VariablesContext.tsx:63-72 | every name in the missing list is unknown to the variable list |
| `Placeholders.SubstituteRendersTokens` | src/app/context/VariablesContext.tsx:64-71 | the one-pass scan gives exactly the rewrite of the tokens that `Tokenize` cuts from the text, both the text and the missing list |
| `Placeholders.RenderAppend` | src/app/context/VariablesContext.tsx:63-72 | rewriting two runs of tokens gives the first's result followed by the second's, and the reported names likewise |
| `Placeholders.RenderAllUnknown` | src/app/context/VariablesContext.tsx:65-69 | when no referenced name is known, each match is kept verbatim and the text is unchanged |
| `Placeholders.RenderWithoutVariables` | src/app/context/VariablesContext.tsx:65-69 | with no variables every reference is kept verbatim and the missing list is exactly the references' names in order |
| `Placeholders.SubstituteReference` | src/app/context/VariablesContext.tsx:64-71 | a leading placeholder is replaced by its value, or kept with its name reported first, and the rest of the text is rewritten on its own, so an inserted value is never rescanned |
| `Placeholders.SubstituteLiteral` | src/app/context/VariablesContext.tsx:64 | where no match starts, the character is copied and the scan goes on one character later |
| `Placeholders.SubstituteNoPlaceholder` | src/app/context/VariablesContext.tsx:63-72 | a text with no match anywhere comes back unchanged with an empty missing list |
| `Placeholders.SubstitutePlainPrefix` | src/app/context/VariablesContext.tsx:64 | a run of text without `{` is copied verbatim in front of whatever the rest becomes |
| `Placeholders.SubstituteSegment` | src/app/context/VariablesContext.tsx:64-71 | a placeholder followed by a plain run: the placeholder is filled in, or kept with its name reported, the run is copied, and the scan goes on after it |
| `Placeholders.SubstituteTwo` | src/app/context/VariablesContext.tsx:63-72 | two placeholders among plain runs: each is replaced by its value or kept, the runs stay in place, and the missing list holds the unknown names in order |
| `Placeholders.TwoUnknown` | src/app/context/__tests__/VariablesContext.test.tsx:100-110 | with no variables, `p0{{n1}}p1{{n2}}p2` comes back unchanged and the missing list is exactly `[n1, n2]` |
| `Placeholders.SubstituteWithoutVariables` | src/app/context/__tests__/VariablesContext.test.tsx:100-110 | with no variables the text comes back unchanged, and the missing list is exactly the names of the scanned placeholders, in occurrence order, repeats kept |
| `Placeholders.KnownThenUnknown` | src/app/context/VariablesContext.tsx:64-71 | with only `a` defined as `x`, `p0{{a}}p1{{b}}p2` (plain runs `p0`, `p1`, `p2` without `{`) becomes `p0` + `x` + `p1{{b}}p2` and the missing list is exactly `[b]` |
| `Placeholders.TwoKnown` | src/app/context/__tests__/VariablesContext.test.tsx:83-98 | two known placeholders between runs of plain text are both replaced and nothing is reported |
| `VariablesContext.VariablesProvider.constructor` | src/app/context/VariablesContext.tsx:26-37 | starts with the stored list when there is one and empty otherwise; the stored copy equals the state |
| `VariablesContext.VariablesProvider.AddVariable` | src/app/context/VariablesContext.tsx:39-49 | the new state is the upsert of the old; the name now looks up to the new value; other lookups unchanged; distinct names stay distinct; storage rewritten |
| `VariablesContext.VariablesProvider.RemoveVariable` | src/app/context/VariablesContext.tsx:51-53 | the new state is the old filtered by name; the name is now unknown; other lookups unchanged; storage rewritten |
| `VariablesContext.VariablesProvider.GetVariableValue` | src/app/context/VariablesContext.tsx:55-58 | `None` exactly when no variable has the name; otherwise the value of the first variable with that name |
| `VariablesContext.VariablesProvider.SubstituteVariables` | src/app/context/VariablesContext.tsx:60-73 | the scanning loop returns exactly `Substitute` of the current list; every reported name is unknown to the provider |
| `ClientUtils.GetFilteredHeaders` | src/app/client/utils/utils.ts:7-17 | a key is in the map iff some enabled header has it and it is non-empty; its value is that of the last such header; the empty key never appears; no headers give the empty map |
| `ClientUtils.GetStatusColor` | src/app/client/utils/utils.ts:38-45 | one of five classes: green iff 200-299, blue iff 300-399, yellow iff 400-499, red iff at least 500, gray iff absent or below 200 (zero and negatives included) |
| `LocaleUtils.OtherLocale` | src/i18n/locale-utils.ts:2 | the new locale is `ru` exactly when the current one is `en`, and `en` otherwise |
| `LocaleUtils.IndexOf` | src/i18n/locale-utils.ts:3 | the first position at or after the start where the pattern occurs, or `None` when it occurs nowhere |
| `LocaleUtils.ReplaceFirst` | src/i18n/locale-utils.ts:3 | no occurrence of the pattern: the text is unchanged; otherwise only the first occurrence is replaced, and the text before and after it is kept verbatim |
| `LocaleUtils.ToggleToOtherLocale` | src/i18n/locale-utils.ts:1-5 | no occurrence of `/` + locale: path unchanged; otherwise the first occurrence is replaced by `/` + new locale, the text before and after kept verbatim, and the length changes by the difference of the two locales |
| `LocaleUtils.ToggleAtStart` | src/i18n/locale-utils.ts:3 | a path starting with `/` + locale gets the new locale there and keeps the rest |
| `LocaleUtils.ToggleRoundTrip` | src/i18n/locale-utils.ts:2-3 | for `en` or `ru`, switching a path that starts with that locale and switching back restores it |
| `LocaleUtils.ToggleInsideSegment` | src/i18n/locale-utils.ts:3 | matching is by substring, not path segment: from `en`, `/en` followed by any text not starting with `/` becomes `/ru` followed by the same text (`/english` becomes `/ruglish`) |
| `LocaleUtils.ToggleFirstOnly` | src/i18n/locale-utils.ts:3 | only the first occurrence is replaced: `/` + locale + text + `/` + locale becomes `/` + new locale + text + `/` + locale |

## Left out

- Local storage: reading and writing `rest-client-variables` is I/O. The constructor takes the stored list as already parsed, and the ghost field `stored` stands for what the effect writes after each change.
- `JSON.parse` of a malformed stored string throws in the source. The model has no parsing and no such error.
- React rendering, the context hook `useVariables` and its error when used outside the provider, and the order in which React applies batched state updates are not modelled.
- `handleResponse` is asynchronous response reading plus editor-extension objects, so it is not modelled.
- ClientUtils.GetStatusColor: the status is an integer or absent. A JavaScript `NaN` (gray, like zero) or a non-integer number is not modelled.
- ClientUtils.GetFilteredHeaders: the result is a map, so the insertion order of a JavaScript object's keys is not modelled. Assigning to the key `__proto__` of a plain object does not add a key in JavaScript; the model treats that key like any other.
- LocaleUtils.ReplaceFirst: `$` patterns in the replacement string are not interpreted. The only replacements used are `/en` and `/ru`, which contain none.
- The request-path encoder and decoder (`src/app/[locale]/client/utils/buildClientStateUrl.ts`, `buildRequestUrl` in `src/app/[locale]/client/utils/utils.ts`, `src/app/[locale]/client/[method]/[[...path]]/page.tsx`) are left out: they are built on library code (`btoa`, `Buffer`, `decodeURIComponent`, `URLSearchParams`) and random row ids.
- The bounded history log (`src/app/[locale]/client/utils/useHistorySaver.ts`, at most 50 entries, newest first) is left out: it is local-storage I/O with `JSON.parse`, clock and random ids.
- Submit orchestration, URL validation, the body editor, authentication, the proxy route and the UI components are not part of this model.
