/**
 * Worked examples of the error taxonomy: small documents with no net
 * element, with a repeated place id, and with an arc to an undeclared node,
 * and the error each one parses to.
 */
module DocumentExamples {

  import opened Results
  import opened Text
  import opened Tree
  import opened Pnml
  import opened Parser
  import ParseFacts

  /** A leaf element with the given tag and attributes and no text. */
  function Leaf(tag: string, attrib: map<string, string>): Elem {
    Elem(tag, attrib, None, [])
  }

  /** A leaf has only itself to iterate over. */
  lemma IterLeaf(e: Elem)
    requires e.children == []
    ensures Iter(e) == [e]
  {
    assert Walk([]) == [];
  }

  /** `<pnml/>`: no element's tag ends with `net`. */
  lemma NoNetDocument()
    ensures ParsePnml(Leaf("pnml", map[])) == Failure(MalformedDocument)
  {
    var root := Leaf("pnml", map[]);
    IterLeaf(root);
    assert Iter(root)[0].tag == "pnml";
    assert !EndsWith("pnml", "net") by {
      assert "pnml"[1..][1] == 'm';
    }
    assert forall j :: 0 <= j < |Iter(root)| ==> !EndsWith(Iter(root)[j].tag, "net");
    assert Locate(root).Failure?;
    assert ParsePnml(root) == Failure(MalformedDocument);
  }

  /** A place element without texts: named by its id, with no tokens. */
  lemma BarePlace(id: string)
    requires id != ""
    ensures EntryOf(Leaf("place", map["id" := id])) == Entry(PlaceElem, id, "", "", id, "0", Some(0))
  {
    var e := Leaf("place", map["id" := id]);
    assert Walk([]) == [];
    assert Find(e, DeepPath("name")).None? && Find(e, DeepPath("initialMarking")).None?;
    assert Classify(e) == PlaceElem by { assert "place"[0..] == "place"; }
    assert AttrText(e, "id") == id && AttrText(e, "source") == "" && AttrText(e, "target") == "";
    assert NameText(e) == id && MarkingText(e) == "0";
    ParseFacts.DefaultNumbers();
  }

  /** An arc element without texts: weight 1. */
  lemma BareArc(id: string, src: string, tgt: string)
    requires id != "" && src != "" && tgt != ""
    ensures EntryOf(Leaf("arc", map["id" := id, "source" := src, "target" := tgt]))
            == Entry(ArcElem, id, src, tgt, "", "1", Some(1))
  {
    var e := Leaf("arc", map["id" := id, "source" := src, "target" := tgt]);
    assert Walk([]) == [];
    assert Find(e, DeepPath("inscription")).None?;
    assert Classify(e) == ArcElem by { assert "arc"[0..] == "arc"; }
    assert AttrText(e, "id") == id && AttrText(e, "source") == src && AttrText(e, "target") == tgt;
    assert WeightText(e) == "1";
    ParseFacts.DefaultNumbers();
  }

  /** A `net` element holding two leaves iterates over itself and them. */
  lemma IterOfTwo(x: Elem, y: Elem)
    requires x.children == [] && y.children == []
    ensures Iter(Elem("net", map[], None, [x, y])) == [Elem("net", map[], None, [x, y]), x, y]
  {
    var net := Elem("net", map[], None, [x, y]);
    assert [x, y][1..] == [y] && [y][1..] == [];
    assert Walk([x, y]) == [x] + Walk([]) + Walk([y]);
    assert Walk([y]) == [y] + Walk([]) + Walk([]);
  }

  /** The loop ignores a `net` element itself. */
  lemma NetIsOther(net: Elem)
    requires net.tag == "net"
    ensures EndsWith(net.tag, "net")
    ensures EntryOf(net).kind == OtherElem
  {
    assert "net"[0..] == "net";
    assert !EndsWith("net", "place") && !EndsWith("net", "transition");
    assert !EndsWith("net", "arc") by {
      assert "net"[0..][2] == 't';
    }
  }

  /** A root tagged `net` is the net element. */
  lemma LocateRootNet(net: Elem)
    requires net.tag == "net"
    ensures ParsePnml(net) == Build(Entries(Iter(net)))
  {
    NetIsOther(net);
    assert FirstTagged(Iter(net), "net") == Some(0);
    assert Locate(net) == Success(net);
  }

  lemma EntriesOfOne(a: Elem)
    ensures Entries([a]) == [EntryOf(a)]
  {
    assert [a][1..] == [];
  }

  lemma EntriesOfTwo(a: Elem, b: Elem)
    ensures Entries([a, b]) == [EntryOf(a), EntryOf(b)]
  {
    assert [a, b][1..] == [b];
    EntriesOfOne(b);
    assert Entries([a, b]) == [EntryOf(a)] + Entries([b]);
  }

  lemma EntriesOfThree(a: Elem, b: Elem, c: Elem)
    ensures Entries([a, b, c]) == [EntryOf(a), EntryOf(b), EntryOf(c)]
  {
    assert [a, b, c][1..] == [b, c];
    EntriesOfTwo(b, c);
    assert Entries([a, b, c]) == [EntryOf(a)] + Entries([b, c]);
  }

  /** A `net` element holding two leaves parses as the loop over its own
      entry and the two leaves' entries. */
  lemma NetOfTwo(x: Elem, y: Elem)
    requires x.children == [] && y.children == []
    ensures var net := Elem("net", map[], None, [x, y]);
      && EntryOf(net).kind == OtherElem
      && ParsePnml(net) == Build([EntryOf(net), EntryOf(x), EntryOf(y)])
  {
    var net := Elem("net", map[], None, [x, y]);
    IterOfTwo(x, y);
    NetIsOther(net);
    LocateRootNet(net);
    EntriesOfThree(net, x, y);
  }

  /** Collecting after an element the loop ignores. */
  lemma SkipOther(o: Entry, ens: seq<Entry>)
    requires o.kind == OtherElem
    ensures Collect(EmptyBuilder(), [o] + ens) == Collect(EmptyBuilder(), ens)
  {
    assert ([o] + ens)[0] == o && ([o] + ens)[1..] == ens;
  }

  /** Two entries for place `p1` after an ignored one: the second is a
      duplicate. */
  lemma DuplicateEntries(o: Entry, en: Entry)
    requires o.kind == OtherElem
    requires en == Entry(PlaceElem, "p1", "", "", "p1", "0", Some(0))
    ensures Build([o, en, en]) == Failure(DuplicateId(PlaceKind, "p1"))
  {
    SkipOther(o, [en, en]);
    assert [o, en, en] == [o] + [en, en];
    var b1 := EmptyBuilder().(places := map["p1" := Place("p1", "p1", 0)]);
    assert Step(EmptyBuilder(), en) == Success(b1);
    assert Collect(EmptyBuilder(), [en, en]) == Collect(b1, [en]) by {
      assert [en, en][1..] == [en];
    }
  }

  /** `<net><place id="p1"/><place id="p1"/></net>`: the second place
      repeats the id of the first. */
  lemma DuplicatePlaceDocument()
    ensures ParsePnml(Elem("net", map[], None, [Leaf("place", map["id" := "p1"]), Leaf("place", map["id" := "p1"])]))
            == Failure(DuplicateId(PlaceKind, "p1"))
  {
    var p := Leaf("place", map["id" := "p1"]);
    var net := Elem("net", map[], None, [p, p]);
    NetOfTwo(p, p);
    BarePlace("p1");
    DuplicateEntries(EntryOf(net), EntryOf(p));
  }

  /** Place `p1` and an arc from `p1` to `t9`, after an ignored entry: the
      arc's target dangles. */
  lemma DanglingEntries(o: Entry, ep: Entry, ea: Entry)
    requires o.kind == OtherElem
    requires ep == Entry(PlaceElem, "p1", "", "", "p1", "0", Some(0))
    requires ea == Entry(ArcElem, "a1", "p1", "t9", "", "1", Some(1))
    ensures Build([o, ep, ea]) == Failure(DanglingReference("a1", Target, "t9"))
  {
    SkipOther(o, [ep, ea]);
    assert [o, ep, ea] == [o] + [ep, ea];
    var b1 := EmptyBuilder().(places := map["p1" := Place("p1", "p1", 0)]);
    var b2 := b1.(arcs := [Arc("a1", "p1", "t9", 1)]);
    assert Step(EmptyBuilder(), ep) == Success(b1);
    assert Collect(EmptyBuilder(), [ep, ea]) == Collect(b1, [ea]) by {
      assert [ep, ea][1..] == [ea];
    }
    assert Step(b1, ea) == Success(b2);
    assert Collect(b1, [ea]) == Success(b2) by {
      assert [ea][1..] == [];
    }
    assert b2.places.Keys + b2.transitions.Keys == {"p1"};
  }

  /** `<net><place id="p1"/><arc id="a1" source="p1" target="t9"/></net>`:
      the arc's target names no place or transition. */
  lemma DanglingArcDocument()
    ensures ParsePnml(Elem("net", map[], None, [Leaf("place", map["id" := "p1"]),
                                                Leaf("arc", map["id" := "a1", "source" := "p1", "target" := "t9"])]))
            == Failure(DanglingReference("a1", Target, "t9"))
  {
    var p := Leaf("place", map["id" := "p1"]);
    var a := Leaf("arc", map["id" := "a1", "source" := "p1", "target" := "t9"]);
    var net := Elem("net", map[], None, [p, a]);
    NetOfTwo(p, a);
    BarePlace("p1");
    BareArc("a1", "p1", "t9");
    DanglingEntries(EntryOf(net), EntryOf(p), EntryOf(a));
  }
}
