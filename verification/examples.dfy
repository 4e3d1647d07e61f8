/**
 * Worked example: the summary of a small net, character for character.
 */
module Examples {

  import opened Results
  import opened Text
  import opened Numbers
  import opened Order
  import opened Pnml
  import opened Summary

  /** Places p1 (0 tokens) and p2 (1 token), transition t1, arcs
      p1 -> t1 of weight 1 and t1 -> p2 of weight 2. */
  function SmallNet(): Net {
    Net(map["p1" := Place("p1", "P1", 0), "p2" := Place("p2", "P2", 1)],
        map["t1" := Transition("t1", "T1")],
        [Arc("a1", "p1", "t1", 1), Arc("a2", "t1", "p2", 2)],
        map["p1" := 0, "p2" := 1])
  }

  lemma SortedPair(a: string, b: string)
    requires Less(a, b)
    ensures SortedKeys({a, b}) == [a, b]
  {
    LessIrreflexive(a);
    SortedListingUnique(SortedKeys({a, b}), [a, b]);
  }

  lemma SortedSingle(a: string)
    ensures SortedKeys({a}) == [a]
  {
    SortedListingUnique(SortedKeys({a}), [a]);
  }

  lemma SmallNetPlacesLine()
    ensures PlacesLine(SmallNet()) == "Places (2): p1, p2"
  {
    var net := SmallNet();
    assert net.places.Keys == {"p1", "p2"};
    assert |net.places| == 2;
    SortedPair("p1", "p2");
    assert IntToString(2) == "2";
  }

  lemma SmallNetTransitionsLine()
    ensures TransitionsLine(SmallNet()) == "Transitions (1): t1"
  {
    var net := SmallNet();
    assert net.transitions.Keys == {"t1"};
    SortedSingle("t1");
    assert IntToString(1) == "1";
  }

  lemma SmallNetArcsLine()
    ensures ArcsLine(SmallNet()) == "Arcs (2): p1->t1[1], t1->p2[2]"
  {
    var arcs := SmallNet().arcs;
    assert IntToString(1) == "1" && IntToString(2) == "2";
    assert ArcLabel(arcs[0]) == "p1->t1[1]";
    assert ArcLabel(arcs[1]) == "t1->p2[2]";
    var labels := ArcLabels(arcs);
    assert labels == [labels[0], labels[1]];
    assert Join(", ", labels) == "p1->t1[1], t1->p2[2]";
  }

  lemma SmallNetSortedPlaces()
    ensures SortedKeys(SmallNet().places.Keys) == ["p1", "p2"]
  {
    assert SmallNet().places.Keys == {"p1", "p2"};
    SortedPair("p1", "p2");
  }

  lemma SmallNetMarkingEntries()
    ensures MarkingEntries(["p1", "p2"], SmallNet().m0) == ["p1=0", "p2=1"]
  {
    var net := SmallNet();
    assert net.m0["p1"] == 0 && net.m0["p2"] == 1;
    assert IntToString(0) == "0" && IntToString(1) == "1";
    var entries := MarkingEntries(["p1", "p2"], net.m0);
    assert |entries| == 2;
    assert entries[0] == "p1" + "=" + "0" == "p1=0";
    assert entries[1] == "p2" + "=" + "1" == "p2=1";
    assert entries == [entries[0], entries[1]];
  }

  lemma SmallNetMarkingLine()
    ensures MarkingLine(SmallNet()) == "M0: p1=0, p2=1"
  {
    SmallNetSortedPlaces();
    SmallNetMarkingEntries();
    JoinTwo(", ", "p1=0", "p2=1");
  }

  /** The summary of the small net, character for character. */
  lemma SmallNetSummary()
    ensures Summarize(SmallNet()) ==
      "Places (2): p1, p2" + "\n" + "Transitions (1): t1" + "\n" +
      "Arcs (2): p1->t1[1], t1->p2[2]" + "\n" + "M0: p1=0, p2=1"
  {
    SmallNetPlacesLine();
    SmallNetTransitionsLine();
    SmallNetArcsLine();
    SmallNetMarkingLine();
    JoinFour("\n", "Places (2): p1, p2", "Transitions (1): t1",
      "Arcs (2): p1->t1[1], t1->p2[2]", "M0: p1=0, p2=1");
  }
}
