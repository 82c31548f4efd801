# photo-api query resolvers, modelled in Dafny

photo-api serves a fixed catalog of image metadata records through a GraphQL
endpoint. The catalog is read once from a JSON file at start-up and never
written again. Two query fields read it:

- `image(id)` scans the catalog in order and answers the first record whose
  `ID` equals `id`. When `id` is not supplied, or no record carries it, it
  answers the zero-valued record. It never answers an error.
- `imageList(tag, tagContains)` has three exclusive modes, tried in this order:
  1. `tagContains` supplied: every record is appended once **for every keyword**
     of it that contains `tagContains` as a substring. A record with two matching
     keywords therefore appears twice.
  2. `tag` supplied: every record that has `tag` as one of its keywords is
     appended once.
  3. neither supplied: the whole catalog, in order.

The `imageList` resolver depends on `contains`, an exact-membership test over
a list of strings, and on Go's `strings.Contains`. The `image` resolver only
compares ids.

## Layout

- `catalog.dfy`, module `Catalog`: the `Image` record (the fields of the
  GraphQL `Image` type), `ZeroImage()` (Go's `imgstojson.ImgData{}`) and `Option`.
  An argument that the query did not supply (the failing `.(string)` type
  assertion) is `None`.
- `substring.dfy`, module `Substring`: `IsSubstring(t, s)`, "some `i` has
  `s[i..i+|t|] == t`", and `StringContains(s, substr)`, an executable search
  proved equal to it.
- `queries.dfy`, module `Queries`: what each resolver answers, as functions of
  the catalog and the arguments: `FirstWithId`/`ImageAnswer` for `image`, and
  `TagContainsAnswer`, `TagAnswer` and `ImageListAnswer` for `imageList`.
  `MatchCount` counts the keywords of a record that contain a string.
- `resolvers.dfy`, module `Resolvers`: the resolvers as they run. They are loops
  with early returns and appends to a local slice, proved to return the answers
  above.
- `query_lemmas.dfy`, module `QueryLemmas`: what the answers satisfy. This
  covers first-match lookup, the default record, multiplicities, catalog order
  and precedence between the modes.
- `query_examples.dfy`, module `QueryExamples`: answers on small concrete catalogs.

The catalog is a `seq<Image>` handed to each resolver. Dafny sequences are
values, so no resolver can change it.

## Model

| member | source | states |
|---|---|---|
| `Catalog.ZeroImage` | main.go:118 | the zero-valued record `imgstojson.ImgData{}`: empty strings, zero integers, no keywords |
| `Queries.FirstWithId` | main.go:111-118 | defines the lookup: the first record in catalog order whose `ID` is the query, else the zero record |
| `Queries.ImageAnswer` | main.go:109-118 | defines the `image` answer: the lookup when `id` is supplied, the zero record when it is not |
| `Queries.TagContainsAnswer` | main.go:139-145 | defines the `tagContains` answer: per catalog record in order, one copy per keyword containing the query |
| `Queries.TagAnswer` | main.go:151-155 | defines the `tag` answer: per catalog record in order, one copy when `tag` is one of its keywords |
| `Queries.ImageListAnswer` | main.go:138-161 | defines the `imageList` answer: `tagContains` mode if supplied, else `tag` mode if supplied, else the whole catalog |
| `Resolvers.Contains` | main.go:17-24 | answers true exactly when some element of the list equals the string; so false on an empty list |
| `Substring.StringContains` | main.go:141 | `strings.Contains(s, substr)` holds exactly when `substr` occurs at some position of `s` |
| `Substring.EmptyIsSubstring` | main.go:141 | the empty string is contained in every string |
| `Substring.SelfIsSubstring` | main.go:141 | every string is contained in itself, so an exact keyword match is also a substring match |
| `Queries.MatchCount` | main.go:140-144 | the number of a record's keywords containing the query is at most its keyword count, and is zero exactly when no keyword contains it |
| `Resolvers.ResolveImage` | main.go:108-119 | the `image` resolver's loop with early return answers `ImageAnswer` for every catalog and argument |
| `QueryLemmas.ImageFirstMatch` | main.go:110-115 | with `id` supplied, the answer is the record at the first catalog position whose `ID` is `id` |
| `QueryLemmas.ImageDefault` | main.go:109-118 | with `id` absent, or carried by no record, the answer is the zero-valued record |
| `QueryLemmas.ImageUniqueIds` | main.go:111-113 | when ids are unique, looking up any record's id answers that record |
| `QueryLemmas.ImageFromCatalog` | main.go:108-119 | the `image` answer is always a catalog record or the zero-valued record |
| `Resolvers.ResolveImageList` | main.go:132-162 | the `imageList` resolver's nested loops with appends answer `ImageListAnswer` for every catalog and pair of optional arguments |
| `QueryLemmas.TagContainsCount` | main.go:138-147 | in `tagContains` mode a record occurs (its catalog occurrences) times (its keywords containing the query) times |
| `QueryLemmas.TagContainsMembers` | main.go:138-147 | in `tagContains` mode a record is answered exactly when it is in the catalog and some keyword of it contains the query |
| `QueryLemmas.RepeatedPerMatchingKeyword` | main.go:140-144 | the `tagContains` answer is not deduplicated: a catalog record appears at least once per matching keyword |
| `QueryLemmas.MatchCountEmptyQuery` | main.go:140-143 | an empty `tagContains` matches every keyword, so each record is counted once per keyword |
| `QueryLemmas.TagContainsOrder` | main.go:139-145 | the i-th record of the `tagContains` answer is the catalog record at position `o[i]`, and these positions never decrease |
| `QueryLemmas.TagContainsMultiplicity` | main.go:139-145 | catalog position `k` is used in the `tagContains` answer once per keyword of its record containing the query |
| `QueryLemmas.TagCount` | main.go:150-157 | in `tag` mode a record occurs as often as in the catalog when `tag` is one of its keywords, and never otherwise |
| `QueryLemmas.TagOrder` | main.go:151-155 | the `tag` answer is a subsequence of the catalog: strictly increasing positions, each taken exactly when its record has `tag` as a keyword |
| `QueryLemmas.TagContainsTakesPrecedence` | main.go:138-150 | with `tagContains` supplied the answer is the `tagContains` answer, whatever `tag` is |
| `QueryLemmas.NoFilterIsCatalog` | main.go:161 | with neither argument the answer is the catalog itself, in order |
| `QueryLemmas.ImageListFromCatalog` | main.go:132-162 | every record `imageList` answers is a catalog record |
| `QueryLemmas.NoMatchIsEmpty` | main.go:136-157 | a filter that no record passes answers the empty sequence, not an error |
| `QueryLemmas.ExactWithinSubstring` | main.go:139-155 | for the same string, the `tag` answer is a sub-multiset of the `tagContains` answer |
| `QueryExamples.ExactTagExample` | main.go:150-157 | `tag: "b"` over keywords ["a","b"] and ["b","c"] answers both records in catalog order |
| `QueryExamples.SubstringExample` | main.go:138-147 | `tagContains: "str"` over keywords ["abstract"] and ["concrete"] answers only the first record |
| `QueryExamples.DuplicateExample` | main.go:138-147 | a record with keywords "abstract" and "strong" is answered twice for `tagContains: "str"`, and a `tag` beside it is ignored |

## Left out

- Loading the catalog (`init`, main.go:26-33): file reading and JSON decoding are I/O. The decode error is discarded there, so the model takes the catalog as a given sequence.
- The GraphQL schema (`imageType`, the field and argument configuration, `graphql.NewSchema`; main.go:35-107, 121-131, 167-169): declarative configuration of an external library. Only the record fields it names are kept, in `Catalog.Image`.
- `executeQuery` and `main` (main.go:171-193): query execution, printing and the HTTP server.
- `imgstojson.ImgData` is not part of this model. The record is modelled with the fields the GraphQL `Image` type exposes, and its zero value with empty strings, zero integers and no keywords.
- Go's distinction between a nil slice and an empty slice: the filtering modes start from a nil slice, and the model answers the empty sequence.
- Aliasing: the no-filter mode returns the package-level slice itself. The model returns the sequence by value, which is the same content.
- Byte semantics of `strings.Contains`: Go compares UTF-8 bytes, while the model compares characters of `seq<char>`. For well-formed UTF-8 text the two agree.
- Concurrent request serving: the catalog is read-only after loading, so there is nothing to model.
