/**
 What the two GraphQL resolvers answer, as functions of the catalog and the
 query arguments. An argument the query did not supply is `None`.
 The resolvers in module Resolvers compute these answers with loops; the
 properties of the answers are proved in module QueryLemmas.
 */
module Queries {
  import opened Catalog
  import opened Substring

  /** The first record of `catalog`, in order, whose `id` is `q`; the zero record when there is none. */
  function FirstWithId(catalog: seq<Image>, q: string): Image
  {
    if catalog == [] then ZeroImage()
    else if catalog[0].id == q then catalog[0]
    else FirstWithId(catalog[1..], q)
  }

  /** The answer of `image(id)`: a lookup when `id` is supplied, the zero record otherwise. */
  function ImageAnswer(catalog: seq<Image>, id: Option<string>): Image
  {
    match id
    case None => ZeroImage()
    case Some(q) => FirstWithId(catalog, q)
  }

  /** How many of `keywords` contain `t` as a substring. */
  function MatchCount(keywords: seq<string>, t: string): (n: nat)
    ensures n <= |keywords|
    ensures n == 0 <==> forall k | 0 <= k < |keywords| :: !StringContains(keywords[k], t)
  {
    if keywords == [] then 0
    else
      var init := keywords[..|keywords| - 1];
      assert forall k | 0 <= k < |init| :: init[k] == keywords[k];
      MatchCount(init, t) + if StringContains(keywords[|keywords| - 1], t) then 1 else 0
  }

  /** `n` copies of `x`. */
  function Repeat<T>(x: T, n: nat): seq<T>
  {
    if n == 0 then [] else Repeat(x, n - 1) + [x]
  }

  /**
   The answer of `imageList(tagContains: t)`: the records in catalog order, each
   one once for every keyword of it that contains `t`.
   */
  function TagContainsAnswer(catalog: seq<Image>, t: string): seq<Image>
  {
    if catalog == [] then []
    else
      var image := catalog[|catalog| - 1];
      TagContainsAnswer(catalog[..|catalog| - 1], t) + Repeat(image, MatchCount(image.keywords, t))
  }

  /** The answer of `imageList(tag: tag)`: the records, in catalog order, that have `tag` as a keyword. */
  function TagAnswer(catalog: seq<Image>, tag: string): seq<Image>
  {
    if catalog == [] then []
    else
      var image := catalog[|catalog| - 1];
      TagAnswer(catalog[..|catalog| - 1], tag) + if tag in image.keywords then [image] else []
  }

  /**
   The answer of `imageList(tag, tagContains)`: `tagContains` filtering when it
   is supplied, else exact `tag` filtering when that is supplied, else the
   whole catalog.
   */
  function ImageListAnswer(catalog: seq<Image>, tag: Option<string>, tagContains: Option<string>): seq<Image>
  {
    if tagContains.Some? then TagContainsAnswer(catalog, tagContains.value)
    else if tag.Some? then TagAnswer(catalog, tag.value)
    else catalog
  }
}
