/**
 Properties of the resolvers' answers (module Queries): first-match lookup and
 its default for `image`; multiplicity, catalog order and membership for each
 `imageList` mode; and how the modes relate to each other.
 */
module QueryLemmas {
  import opened Catalog
  import opened Substring
  import opened Queries

  /** With a supplied id, the answer is the first record carrying it: no earlier record has that id. */
  lemma {:induction false} ImageFirstMatch(catalog: seq<Image>, q: string, k: nat)
    requires k < |catalog| && catalog[k].id == q
    requires forall j :: 0 <= j < k ==> catalog[j].id != q
    ensures ImageAnswer(catalog, Some(q)) == catalog[k]
  {
    if k > 0 {
      ImageFirstMatch(catalog[1..], q, k - 1);
    }
  }

  /** Without an id, or when no record carries it, the answer is the zero record. */
  lemma {:induction false} ImageDefault(catalog: seq<Image>, id: Option<string>)
    requires id.None? || forall k :: 0 <= k < |catalog| ==> catalog[k].id != id.value
    ensures ImageAnswer(catalog, id) == ZeroImage()
  {
    if id.Some? && catalog != [] {
      ImageDefault(catalog[1..], id);
    }
  }

  /** When ids are unique, looking up the id of any record gives back that record. */
  lemma ImageUniqueIds(catalog: seq<Image>, k: nat)
    requires forall i, j :: 0 <= i < j < |catalog| ==> catalog[i].id != catalog[j].id
    requires k < |catalog|
    ensures ImageAnswer(catalog, Some(catalog[k].id)) == catalog[k]
  {
    ImageFirstMatch(catalog, catalog[k].id, k);
  }

  /** The answer of `image` is a record of the catalog or the zero record. */
  lemma {:induction false} ImageFromCatalog(catalog: seq<Image>, id: Option<string>)
    ensures ImageAnswer(catalog, id) in catalog || ImageAnswer(catalog, id) == ZeroImage()
  {
    if id.Some? && catalog != [] && catalog[0].id != id.value {
      ImageFromCatalog(catalog[1..], id);
    }
  }

  /** `Repeat(x, n)` holds `n` copies of `x` and nothing else. */
  lemma {:induction false} RepeatCount<T>(x: T, n: nat, y: T)
    ensures |Repeat(x, n)| == n
    ensures multiset(Repeat(x, n))[y] == if x == y then n else 0
    ensures forall i :: 0 <= i < n ==> Repeat(x, n)[i] == x
  {
    if n > 0 {
      RepeatCount(x, n - 1, y);
    }
  }

  /** An empty `tagContains` matches every keyword. */
  lemma {:induction false} MatchCountEmptyQuery(keywords: seq<string>)
    ensures MatchCount(keywords, "") == |keywords|
  {
    if keywords != [] {
      MatchCountEmptyQuery(keywords[..|keywords| - 1]);
      EmptyIsSubstring(keywords[|keywords| - 1]);
    }
  }

  /** The nonlinear arithmetic step of the induction in `TagContainsCount`. */
  lemma MulSucc(a: nat, b: nat)
    ensures (a + 1) * b == a * b + b
  {
  }

  /** The nonlinear arithmetic facts `TagContainsMembers` and `RepeatedPerMatchingKeyword` rely on. */
  lemma MulAtLeast(a: nat, b: nat)
    ensures a * b > 0 <==> a > 0 && b > 0
    ensures a > 0 ==> a * b >= b
  {
  }

  /**
   In `tagContains` mode a record occurs in the answer as many times as it
   occurs in the catalog, times the number of its keywords containing `t`.
   */
  lemma {:induction false} TagContainsCount(catalog: seq<Image>, t: string, x: Image)
    ensures multiset(TagContainsAnswer(catalog, t))[x] == multiset(catalog)[x] * MatchCount(x.keywords, t)
  {
    if catalog != [] {
      var init, last := catalog[..|catalog| - 1], catalog[|catalog| - 1];
      assert catalog == init + [last];
      var before, matches := multiset(init)[x], MatchCount(x.keywords, t);
      TagContainsCount(init, t, x);
      var copies := Repeat(last, MatchCount(last.keywords, t));
      assert TagContainsAnswer(catalog, t) == TagContainsAnswer(init, t) + copies;
      RepeatCount(last, MatchCount(last.keywords, t), x);
      assert multiset(TagContainsAnswer(catalog, t))[x] == before * matches + multiset(copies)[x];
      if last == x {
        assert multiset(catalog)[x] == before + 1;
        MulSucc(before, matches);
      } else {
        assert multiset(catalog)[x] == before;
      }
    }
  }

  /** In `tagContains` mode a record is in the answer exactly when it is in the catalog and one of its keywords contains `t`. */
  lemma TagContainsMembers(catalog: seq<Image>, t: string, x: Image)
    ensures x in TagContainsAnswer(catalog, t) <==>
      x in catalog && exists k :: 0 <= k < |x.keywords| && StringContains(x.keywords[k], t)
  {
    TagContainsCount(catalog, t, x);
    MulAtLeast(multiset(catalog)[x], MatchCount(x.keywords, t));
  }

  /** A record with `n` keywords containing `t` is repeated `n` times: the answer is not deduplicated. */
  lemma RepeatedPerMatchingKeyword(catalog: seq<Image>, t: string, x: Image)
    requires x in catalog
    ensures multiset(TagContainsAnswer(catalog, t))[x] >= MatchCount(x.keywords, t)
  {
    TagContainsCount(catalog, t, x);
    MulAtLeast(multiset(catalog)[x], MatchCount(x.keywords, t));
  }

  /** The catalog position each element of the `tagContains` answer was taken from. */
  ghost function TagContainsOrigins(catalog: seq<Image>, t: string): seq<nat>
  {
    if catalog == [] then []
    else
      var last := catalog[|catalog| - 1];
      TagContainsOrigins(catalog[..|catalog| - 1], t) + Repeat<nat>(|catalog| - 1, MatchCount(last.keywords, t))
  }

  /**
   The `tagContains` answer lists catalog records in catalog order: its i-th
   element is the record at catalog position `o[i]`, and the positions never
   decrease.
   */
  lemma {:induction false} TagContainsOrder(catalog: seq<Image>, t: string)
    ensures |TagContainsOrigins(catalog, t)| == |TagContainsAnswer(catalog, t)|
    ensures forall i :: 0 <= i < |TagContainsOrigins(catalog, t)| ==>
      TagContainsOrigins(catalog, t)[i] < |catalog| &&
      TagContainsAnswer(catalog, t)[i] == catalog[TagContainsOrigins(catalog, t)[i]]
    ensures forall i, j :: 0 <= i < j < |TagContainsOrigins(catalog, t)| ==>
      TagContainsOrigins(catalog, t)[i] <= TagContainsOrigins(catalog, t)[j]
  {
    if catalog != [] {
      var n := |catalog| - 1;
      var init, last := catalog[..n], catalog[n];
      var m := MatchCount(last.keywords, t);
      TagContainsOrder(init, t);
      var oi := TagContainsOrigins(init, t);
      assert TagContainsAnswer(catalog, t) == TagContainsAnswer(init, t) + Repeat(last, m);
      assert TagContainsOrigins(catalog, t) == oi + Repeat<nat>(n, m);
      RepeatCount(last, m, last);
      RepeatCount<nat>(n, m, n);
    }
  }

  /** In the `tagContains` answer, catalog position `k` is used once per keyword of its record that contains `t`. */
  lemma {:induction false} TagContainsMultiplicity(catalog: seq<Image>, t: string, k: nat)
    requires k < |catalog|
    ensures multiset(TagContainsOrigins(catalog, t))[k] == MatchCount(catalog[k].keywords, t)
  {
    var n := |catalog| - 1;
    var init, last := catalog[..n], catalog[n];
    var m := MatchCount(last.keywords, t);
    var oi := TagContainsOrigins(init, t);
    assert TagContainsOrigins(catalog, t) == oi + Repeat<nat>(n, m);
    RepeatCount<nat>(n, m, k);
    if k < n {
      assert catalog[k] == init[k];
      TagContainsMultiplicity(init, t, k);
    } else {
      TagContainsOrder(init, t);
      assert k !in oi;
    }
  }

  /** In `tag` mode a record occurs as often as in the catalog if `tag` is one of its keywords, and not at all otherwise. */
  lemma {:induction false} TagCount(catalog: seq<Image>, tag: string, x: Image)
    ensures multiset(TagAnswer(catalog, tag))[x] == if tag in x.keywords then multiset(catalog)[x] else 0
  {
    if catalog != [] {
      var init, last := catalog[..|catalog| - 1], catalog[|catalog| - 1];
      assert catalog == init + [last];
      TagCount(init, tag, x);
    }
  }

  /** The catalog position each element of the `tag` answer was taken from. */
  ghost function TagOrigins(catalog: seq<Image>, tag: string): seq<nat>
  {
    if catalog == [] then []
    else
      var last := catalog[|catalog| - 1];
      TagOrigins(catalog[..|catalog| - 1], tag) + if tag in last.keywords then [|catalog| - 1] else []
  }

  /**
   The `tag` answer is a subsequence of the catalog: its i-th element is the
   record at catalog position `o[i]`, the positions strictly increase (so no
   catalog entry is taken twice), and a position is taken exactly when its
   record has `tag` as a keyword.
   */
  lemma {:induction false} TagOrder(catalog: seq<Image>, tag: string)
    ensures var answer, o := TagAnswer(catalog, tag), TagOrigins(catalog, tag);
      && |o| == |answer|
      && (forall i :: 0 <= i < |o| ==> o[i] < |catalog| && answer[i] == catalog[o[i]])
      && (forall i, j :: 0 <= i < j < |o| ==> o[i] < o[j])
      && (forall k :: 0 <= k < |catalog| ==> (k in o <==> tag in catalog[k].keywords))
  {
    if catalog != [] {
      TagOrder(catalog[..|catalog| - 1], tag);
    }
  }

  /** `tagContains`, when supplied, decides the answer: `tag` is then ignored. */
  lemma TagContainsTakesPrecedence(catalog: seq<Image>, tag: Option<string>, t: string)
    ensures ImageListAnswer(catalog, tag, Some(t)) == ImageListAnswer(catalog, None, Some(t))
    ensures ImageListAnswer(catalog, tag, Some(t)) == TagContainsAnswer(catalog, t)
  {
  }

  /** Without arguments `imageList` answers the whole catalog, in order. */
  lemma NoFilterIsCatalog(catalog: seq<Image>)
    ensures ImageListAnswer(catalog, None, None) == catalog
  {
  }

  /** Every record `imageList` answers is a record of the catalog. */
  lemma ImageListFromCatalog(catalog: seq<Image>, tag: Option<string>, tagContains: Option<string>, x: Image)
    requires x in ImageListAnswer(catalog, tag, tagContains)
    ensures x in catalog
  {
    if tagContains.Some? {
      TagContainsCount(catalog, tagContains.value, x);
    } else if tag.Some? {
      TagCount(catalog, tag.value, x);
    }
  }

  /** A filter that no record passes answers the empty sequence. */
  lemma NoMatchIsEmpty(catalog: seq<Image>, tag: Option<string>, tagContains: Option<string>)
    requires tagContains.Some? ==> forall x :: x in catalog ==> MatchCount(x.keywords, tagContains.value) == 0
    requires tagContains.None? && tag.Some? ==> forall x :: x in catalog ==> tag.value !in x.keywords
    requires tagContains.None? && tag.None? ==> catalog == []
    ensures ImageListAnswer(catalog, tag, tagContains) == []
  {
    var answer := ImageListAnswer(catalog, tag, tagContains);
    if answer != [] {
      ImageListFromCatalog(catalog, tag, tagContains, answer[0]);
      if tagContains.Some? {
        TagContainsCount(catalog, tagContains.value, answer[0]);
      } else if tag.Some? {
        TagCount(catalog, tag.value, answer[0]);
      }
    }
  }

  /** Every record the exact `tag` filter answers, the `tagContains` filter with the same string answers at least as often. */
  lemma ExactWithinSubstring(catalog: seq<Image>, t: string)
    ensures multiset(TagAnswer(catalog, t)) <= multiset(TagContainsAnswer(catalog, t))
  {
    forall x
      ensures multiset(TagAnswer(catalog, t))[x] <= multiset(TagContainsAnswer(catalog, t))[x]
    {
      TagCount(catalog, t, x);
      TagContainsCount(catalog, t, x);
      if t in x.keywords {
        var k :| 0 <= k < |x.keywords| && x.keywords[k] == t;
        SelfIsSubstring(t);
      }
    }
  }
}
