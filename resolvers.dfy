/**
 The resolvers of the query interface, step by step as they run: the keyword
 membership test and the `image` and `imageList` resolvers. Each scans the
 catalog without changing it and is proved to return the answer module
 Queries defines.
 */
module Resolvers {
  import opened Catalog
  import opened Substring
  import opened Queries
  import QueryLemmas

  /** Whether `e` is one of the strings of `s`. */
  method Contains(s: seq<string>, e: string) returns (found: bool)
    ensures found <==> exists k :: 0 <= k < |s| && s[k] == e
  {
    for i := 0 to |s|
      invariant forall k :: 0 <= k < i ==> s[k] != e
    {
      if s[i] == e {
        return true;
      }
    }
    return false;
  }

  /** The `image` resolver: the first record with the requested id, or the zero record. */
  method ResolveImage(imageList: seq<Image>, id: Option<string>) returns (r: Image)
    ensures r == ImageAnswer(imageList, id)
  {
    if id.Some? {
      var idQuery := id.value;
      for i := 0 to |imageList|
        invariant forall k :: 0 <= k < i ==> imageList[k].id != idQuery
      {
        if imageList[i].id == idQuery {
          QueryLemmas.ImageFirstMatch(imageList, idQuery, i);
          return imageList[i];
        }
      }
    }
    QueryLemmas.ImageDefault(imageList, id);
    return ZeroImage();
  }

  /** The `imageList` resolver: `tagContains` filtering, else `tag` filtering, else everything. */
  method ResolveImageList(imageList: seq<Image>, tag: Option<string>, tagContains: Option<string>)
    returns (imgs: seq<Image>)
    ensures imgs == ImageListAnswer(imageList, tag, tagContains)
  {
    imgs := [];
    if tagContains.Some? {
      var t := tagContains.value;
      for i := 0 to |imageList|
        invariant imgs == TagContainsAnswer(imageList[..i], t)
      {
        var image := imageList[i];
        for j := 0 to |image.keywords|
          invariant imgs == TagContainsAnswer(imageList[..i], t) + Repeat(image, MatchCount(image.keywords[..j], t))
        {
          assert image.keywords[..j + 1][..j] == image.keywords[..j];
          if StringContains(image.keywords[j], t) {
            imgs := imgs + [image];
          }
        }
        assert image.keywords[..|image.keywords|] == image.keywords;
        assert imageList[..i + 1][..i] == imageList[..i];
      }
      assert imageList[..|imageList|] == imageList;
      return;
    }
    if tag.Some? {
      var tagQuery := tag.value;
      for i := 0 to |imageList|
        invariant imgs == TagAnswer(imageList[..i], tagQuery)
      {
        var image := imageList[i];
        var found := Contains(image.keywords, tagQuery);
        if found {
          imgs := imgs + [image];
        }
        assert imageList[..i + 1][..i] == imageList[..i];
      }
      assert imageList[..|imageList|] == imageList;
      return;
    }
    imgs := imageList;
  }
}
