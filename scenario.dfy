/** A three-row table worked through the search. */
module Scenario {
  import opened Wrappers
  import opened Games
  import opened Filters

  function Game(name: string, platform: string, year: int, sales: nat): Record
  {
    Record(Some(name), Some(platform), Some(year), Some("Sports"), None,
           Some(sales), Some(sales), None, None, None, None, Text("tbd"))
  }

  function Sample(): Table
  {
    [Game("A", "PS4", 2010, 500), Game("B", "PS4", 2011, 300), Game("C", "X1", 2010, 100)]
  }

  /** "b" finds the second row, the only one whose name contains it; "" is no search. */
  lemma SampleSearch()
    ensures Search(Sample(), Some("b")) == Found(Sample()[1])
    ensures Search(Sample(), Some("")) == NoQuery
  {
    var t := Sample();
    assert LowerText("A") == "a" && LowerText("B") == "b";
    assert LowerText("b") == "b";
    assert !Contains("a", "b") by {
      assert "a"[0..1] != "b" by {
        assert "a"[0..1][0] == 'a';
      }
      assert !OccursAt("a", "b", 0);
      assert !OccursAt("a", "b", 1);
    }
    assert !NameMatches(t[0], "b");
    assert NameMatches(t[1], "b") by {
      assert OccursAt("b", "b", 0);
    }
  }

  /** A name that is longer than every name in the table is not found. */
  lemma SampleNotFound()
    ensures Search(Sample(), Some("zelda")) == NotFound
  {
    var t := Sample();
    assert forall k :: 0 <= k < |t| ==> !NameMatches(t[k], "zelda");
  }
}
