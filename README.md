# Pokedex list browser — a Dafny model

This project models the list screen of a Pokédex app and the catalogue
number on its cards.

The list screen (`app/index.tsx`) works like this:

- It flattens the fetched pages of `{name, url}` results into one list of
  `{name, id}` entries, page after page.
- When search text is entered, it keeps the entries whose name contains the
  lower-cased query or whose printed id equals the query exactly.
- It copies the kept entries into a fresh array and sorts that array by id or
  by name, with the comparator `a[key] < b[key] ? -1 : 1`.
- It asks for the next page at the end of the list only while the search text
  is empty.

Each card (`components/pokemon/PokemonCard.tsx`) prints its id as
`id.toString().padStart(3, "0")`.

The model has four modules:

- `JsText` models the JavaScript string built-ins the code relies on: integer
  `toString`, `toLowerCase`, `includes`, `<` on strings and `padStart`. Each
  comes with a partner: an inverse (`ParseDecimal`), an independent definition
  (`OccursAt`) or order laws.
- `PokemonList` models the list screen. It uses pure functions for flattening
  and filtering. The copy-and-sort step is a method that builds a fresh array
  and sorts it in place.
- `PokemonCard` models the label function and its properties.
- `PokemonExamples` works the filter and the sort through on concrete
  entries.

Two behaviours of the code are easy to miss, and the model keeps both
(`app/index.tsx:32-36`):

- Names are ordered by code unit, so upper-case letters sort before
  lower-case ones. The comparator never returns 0, so ties are left in no
  fixed order.
- Only the query is lower-cased, never the names, so matching ignores case
  only for names that are already lower-case.

## Model

| member | source | states |
|---|---|---|
| `JsText.NatToDecimal` | app/index.tsx:33 | printing a number gives at least one character, only decimal digits, and a leading '0' only for zero |
| `JsText.ToDecimal` | app/index.tsx:33 | `id.toString()`: digits for non-negative ids, with no leading zero except in "0"; a minus sign then digits not starting with '0' for negative ids |
| `JsText.DecimalRoundTrip` | app/index.tsx:33 | reading the printed digits back gives the number again |
| `JsText.DecimalInjective` | app/index.tsx:33 | two integers print the same only if they are equal, so an id query selects a single id |
| `JsText.DecimalLengthBound` | components/pokemon/PokemonCard.tsx:27 | a number has at most k digits exactly when it is below 10^k |
| `JsText.Lower` | app/index.tsx:32 | `toLowerCase()` keeps the length, leaves no upper-case letter and lower-cases each character in place |
| `JsText.LowerKeepsLowerCase` | app/index.tsx:32 | text without upper-case letters is unchanged by lower-casing |
| `JsText.LowerIdempotent` | app/index.tsx:32 | lower-casing twice is the same as lower-casing once |
| `JsText.Includes` | app/index.tsx:32 | `includes`: the empty needle is always included, and a needle longer than the text never is |
| `JsText.IncludesSpec` | app/index.tsx:32 | `includes` holds exactly when the needle occurs as a contiguous slice at some position |
| `JsText.IncludedAt` | app/index.tsx:32 | an occurrence at any position makes `includes` true |
| `JsText.FirstCharMissing` | app/index.tsx:32 | a needle whose first character never occurs in the text is not included |
| `JsText.LexLess` | app/index.tsx:36 | string `<`: it never holds between equal strings, and a proper prefix is less than the longer string |
| `JsText.LexIrreflexive` | app/index.tsx:36 | no string is `<` itself |
| `JsText.LexTransitive` | app/index.tsx:36 | string `<` is transitive |
| `JsText.LexTotal` | app/index.tsx:36 | of two different strings, one is `<` the other |
| `JsText.LexAsymmetric` | app/index.tsx:36 | two strings are never each `<` the other |
| `JsText.PadStart` | components/pokemon/PokemonCard.tsx:27 | `padStart` returns the longer of the target and the input length (the input length if the fill is empty). It ends with the input and is filled with repeated fill characters in front |
| `PokemonList.PageEntries` | app/index.tsx:27 | one entry per result of a page, in order, with the result's name and the id taken from its URL |
| `PokemonList.Flatten` | app/index.tsx:27 | the accumulated list has as many entries as all pages have results |
| `PokemonList.Pokemons` | app/index.tsx:27 | before any data arrives the list is empty; afterwards its length is the total result count |
| `PokemonList.FlattenAppend` | app/index.tsx:27 | flattening more pages appends their entries after the earlier ones |
| `PokemonList.FlattenAt` | app/index.tsx:27 | result j of page i sits at position (results of pages before i) + j, as that result's entry |
| `PokemonList.Matches` | app/index.tsx:31-33 | the filter callback holds exactly when the lower-cased query occurs in the name at some position or the query equals the printed id; so empty search text and the exact printed id always select, and a selected entry either has a name at least as long as the query or is selected by its id |
| `PokemonList.NoMatch` | app/index.tsx:31-33 | an entry is not selected when the query is not its printed id and the lower-cased first character of the query does not occur in its name |
| `PokemonList.KeepMatching` | app/index.tsx:30-34 | every kept entry matches; a matching entry keeps its multiplicity; a non-matching one disappears |
| `PokemonList.KeepMatchingAll` | app/index.tsx:30-34 | filtering by a query that every entry matches returns the list unchanged |
| `PokemonList.Filter` | app/index.tsx:29-35 | the filtered list holds only kept entries, and never more copies of an entry than the accumulated list |
| `PokemonList.FilterCount` | app/index.tsx:28-35 | the filtered list holds each entry as often as the accumulated list does when it is kept (always with empty search text), and never otherwise |
| `PokemonList.FilterMembership` | app/index.tsx:28-35 | an entry is in the filtered list exactly when it is accumulated and kept |
| `PokemonList.FilterWithoutSearch` | app/index.tsx:29-35 | with empty search text nothing is dropped |
| `PokemonList.MatchedNameWindowIsLowerCase` | app/index.tsx:32 | a name window that a query matches contains no upper-case letter, because names are not lower-cased |
| `PokemonList.KeyLess` | app/index.tsx:36 | `a[key] < b[key]`: never holds between entries with the same id (key `Id`) or the same name (key `Name`) |
| `PokemonList.Compare` | app/index.tsx:36 | the comparator answers only -1 or 1, and 1 for entries whose keys are equal |
| `PokemonList.CompareOnTies` | app/index.tsx:36 | the comparator answers 1 in both directions exactly when neither entry's key is less than the other's, so a tied pair never gets 0 or a consistent answer |
| `PokemonList.KeyLessAsymmetric` | app/index.tsx:36 | by either key, two entries are never each less than the other |
| `PokemonList.NotLessTransitive` | app/index.tsx:36 | "not less than" is transitive by either key, so sortedness is a consistent notion |
| `PokemonList.TiesMayComeInEitherOrder` | app/index.tsx:36 | two entries with equal keys are sorted in both orders, so tie order is unspecified |
| `PokemonList.SortedArrangementUnique` | app/index.tsx:36 | without ties, any two sorted arrangements of the same entries are equal |
| `PokemonList.SortInPlace` | app/index.tsx:36 | sorting leaves the array non-decreasing by the key and a permutation of what it held |
| `PokemonList.InsertLast` | app/index.tsx:36 | one insertion step grows the sorted prefix by one element, keeps the array a permutation and leaves the part after the prefix as it was |
| `PokemonList.FilteredPokemons` | app/index.tsx:28-36 | the shown list is a fresh array, sorted by the key, holding exactly the filtered entries; the accumulated list is unchanged in content and order |
| `PokemonList.ShownList` | app/index.tsx:27-36 | one render: `pokemons` is the flattened pages; the shown list is sorted by the key and holds each accumulated entry as often as it was fetched when it is kept, and not at all otherwise |
| `PokemonList.ReachEnd` | app/index.tsx:62 | a next-page request is made exactly when the search text is empty, and the pages already there are kept |
| `PokemonList.ReachEndEffect` | app/index.tsx:62 | with search text, reaching the end does not fetch and the list stays as it is; without it, the list grows by exactly the entries of the page the request delivers, at its end |
| `PokemonExamples.FilterByIdExample` | app/index.tsx:32-33 | with bulbasaur 1, ivysaur 2 and venusaur 3, the query "2" yields only ivysaur |
| `PokemonExamples.FilterByNameExample` | app/index.tsx:32 | the queries "saur" and "SAUR" both yield all three entries |
| `PokemonExamples.IdMatchIsExact` | app/index.tsx:33 | "02", " 2" and "2 " do not select id 2 |
| `PokemonExamples.CapitalisedNameMissed` | app/index.tsx:32 | "Pikachu" is found by neither "pika" nor "PIKA" |
| `PokemonExamples.NameSortExample` | app/index.tsx:36 | sorting the three starters by name can only give bulbasaur, ivysaur, venusaur |
| `PokemonExamples.NameOrderIsCaseSensitive` | app/index.tsx:36 | "Zubat" sorts before "abra" by name |
| `PokemonCard.IdLabel` | components/pokemon/PokemonCard.tsx:27 | the label is max(3, length of the printed id) characters long; it ends with the printed id and every character in front of it is '0' |
| `PokemonCard.LabelOfLargeId` | components/pokemon/PokemonCard.tsx:27 | ids of 100 or more are printed without padding |
| `PokemonCard.LabelOfSmallId` | components/pokemon/PokemonCard.tsx:27 | ids 0 to 9 get two leading zeros and ids 10 to 99 get one |
| `PokemonCard.LabelExamples` | components/pokemon/PokemonCard.tsx:27 | 7 gives "007", 25 gives "025", 151 gives "151", and -1 gives "0-1" |
| `PokemonCard.LabelStripRoundTrip` | components/pokemon/PokemonCard.tsx:27 | for ids of 1 or more, dropping the leading zeros gives back the printed id |
| `PokemonCard.LabelInjective` | components/pokemon/PokemonCard.tsx:27 | different non-negative ids never share a label |

## Left out

- `JsText.Lower`: maps only the ASCII letters A to Z. The Unicode case mappings of `toLowerCase` for other letters are not modelled.
- `JsText.LexLess`: one `char` stands for one UTF-16 code unit. Characters outside the Basic Multilingual Plane, which JavaScript compares as two surrogate units, are not modelled.
- `JsText.ToDecimal`: covers integer-valued ids only. `NaN`, fractions and exponent notation in `Number.prototype.toString` are not modelled.
- `PokemonList.SortInPlace`: insertion sort stands for the engine's `Array.prototype.sort`. The model assumes the result JavaScript engines deliver in practice: a sorted permutation, with ties in no fixed order. The language standard (ECMA-262, in its definition of `Array.prototype.sort`) makes the whole sort order implementation-defined when the comparator is not consistent. This comparator is not consistent, because it returns 1 when comparing an entry with itself.
- `PokemonList.ReachEndEffect`: fetching the next page is asynchronous. The model gives the page it would deliver as a parameter. When there is no further page, or the request fails, nothing arrives, and the model stands for that with an empty `next`. Loading indicators and retries (`useInfiniteFetchQuery`) are left out.
- The id of a result comes from its URL through `getPokemonId`. That function is not part of this model, so it is a function parameter `idOf`. `getPokemonArtwork` is not part of this model either.
- The network hooks `useInfiniteFetchQuery` and `useFetchQuery` (app/index.tsx:7, 23-24) are left out. Pages are an input sequence.
- React state (`useState` for search text and sort key), theming (`useThemeColors`), layout, images and routing links are presentation code with no logic of their own.
- `components/sortButton.tsx`: only its `"id" | "name"` value type is used, as `SortKey`. Its popup placement arithmetic over window measurements is floating-point UI geometry.
- `components/RootView.tsx` (animated colour interpolation) is left out, and so are `components/SearchBar.tsx` and `components/pokemon/PokemonSpec.tsx` (presentation).
- The detail screen `app/pokemon/[id].tsx` is left out. Its fetching and rendering are I/O.
