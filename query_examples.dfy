/**
 The resolvers' answers on small concrete catalogs: exact tag filtering, substring
 filtering, and a record repeated once per matching keyword even when `tag` is
 also supplied.
 */
module QueryExamples {
  import opened Catalog
  import opened Substring
  import opened Queries

  /** A record that is zero apart from its id and keywords. */
  function Tagged(id: string, keywords: seq<string>): Image
  {
    ZeroImage().(id := id, keywords := keywords)
  }

  /** `tag: "b"` over keywords ["a", "b"] and ["b", "c"] answers both records, in catalog order. */
  lemma ExactTagExample()
    ensures var a, b := Tagged("1", ["a", "b"]), Tagged("2", ["b", "c"]);
      ImageListAnswer([a, b], Some("b"), None) == [a, b]
  {
    var a, b := Tagged("1", ["a", "b"]), Tagged("2", ["b", "c"]);
    assert [a, b][..1] == [a];
    assert [a][..0] == [];
    assert "b" == a.keywords[1] && "b" == b.keywords[0];
    assert TagAnswer([a], "b") == [a];
    assert TagAnswer([a, b], "b") == [a] + [b];
  }

  /** `tagContains: "str"` over keywords ["abstract"] and ["concrete"] answers only the first record. */
  lemma SubstringExample()
    ensures var a, b := Tagged("1", ["abstract"]), Tagged("2", ["concrete"]);
      ImageListAnswer([a, b], None, Some("str")) == [a]
  {
    var a, b := Tagged("1", ["abstract"]), Tagged("2", ["concrete"]);
    assert OccursAt("str", "abstract", 2);
    forall i: nat
      ensures !OccursAt("str", "concrete", i)
    {
      if i + 3 <= 8 {
        assert "concrete"[i..i + 3][0] == "concrete"[i];
      }
    }
    assert MatchCount(["abstract"], "str") == 1 by {
      assert ["abstract"][..0] == [];
    }
    assert MatchCount(["concrete"], "str") == 0 by {
      assert ["concrete"][..0] == [];
    }
    assert [a, b][..1] == [a];
    assert [a][..0] == [];
    assert TagContainsAnswer([a], "str") == [a];
    assert TagContainsAnswer([a, b], "str") == [a] + [];
  }

  /**
   A record with two keywords containing "str" is answered twice, and the
   `tag` argument supplied beside `tagContains` plays no part.
   */
  lemma DuplicateExample()
    ensures var a := Tagged("1", ["abstract", "strong", "sky"]);
      ImageListAnswer([a], Some("sky"), Some("str")) == [a, a]
  {
    var a := Tagged("1", ["abstract", "strong", "sky"]);
    var k := a.keywords;
    assert OccursAt("str", "abstract", 2);
    assert OccursAt("str", "strong", 0);
    forall i: nat
      ensures !OccursAt("str", "sky", i)
    {
      if i == 0 {
        assert "sky"[0..3][1] == 'k';
      }
    }
    assert k[..2] == ["abstract", "strong"];
    assert k[..2][..1] == ["abstract"];
    assert ["abstract"][..0] == [];
    assert MatchCount(k, "str") == 2;
    assert [a][..0] == [];
    assert TagContainsAnswer([a], "str") == [] + Repeat(a, 2);
  }
}
