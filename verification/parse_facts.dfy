/**
 * What `parse_pnml` guarantees for a whole document: when it succeeds,
 * what the net then holds, what each failure points at, and the defaults
 * applied to absent texts.
 */
module ParseFacts {

  import opened Results
  import opened Text
  import opened Numbers
  import opened Tree
  import opened Pnml
  import opened Parser
  import opened CollectFacts

  /** Every id a place or transition entry declares. */
  function DeclaredIds(ens: seq<Entry>): set<string> {
    set x | x in PlaceIds(ens) + TransitionIds(ens)
  }

  /** A document parses exactly when it has a net element and, below it,
      every entry is sound, place ids are distinct, transition ids are
      distinct (a place and a transition may share an id), and every arc
      end names a declared place or transition. */
  lemma ParseSucceedsIff(root: Elem)
    ensures ParsePnml(root).Success? <==>
      && Locate(root).Success?
      && var ens := Entries(Iter(Locate(root).value));
         && Acceptable(EmptyBuilder(), ens)
         && forall i :: 0 <= i < |ArcList(ens)| ==> Resolves(ArcList(ens)[i], DeclaredIds(ens))
  {
    if Locate(root).Success? {
      var ens := Entries(Iter(Locate(root).value));
      CollectSucceedsIff(EmptyBuilder(), ens);
      if Collect(EmptyBuilder(), ens).Success? {
        CollectIds(ens);
      }
    }
  }

  /** The loop from an empty builder registers exactly the declared ids. */
  lemma CollectIds(ens: seq<Entry>)
    requires Collect(EmptyBuilder(), ens).Success?
    ensures var b := Collect(EmptyBuilder(), ens).value;
      && b.places.Keys + b.transitions.Keys == DeclaredIds(ens)
      && b.arcs == ArcList(ens)
  {
    CollectPlaces(EmptyBuilder(), ens);
    CollectTransitions(EmptyBuilder(), ens);
    CollectArcs(EmptyBuilder(), ens);
  }

  /** A parsed net holds one place per place entry below the net element
      and one transition per transition entry, each as its entry describes
      it, and the arc entries in document order. */
  lemma ParseContents(root: Elem)
    requires ParsePnml(root).Success?
    ensures Locate(root).Success?
    ensures var net := ParsePnml(root).value;
            var ens := Entries(Iter(Locate(root).value));
      && (forall x :: x in net.places <==> x in PlaceIds(ens))
      && |net.places| == |PlaceIds(ens)|
      && (forall i :: 0 <= i < |ens| && ens[i].kind == PlaceElem ==>
                        ens[i].id in net.places && net.places[ens[i].id] == PlaceOf(ens[i]))
      && (forall x :: x in net.transitions <==> x in TransitionIds(ens))
      && |net.transitions| == |TransitionIds(ens)|
      && (forall i :: 0 <= i < |ens| && ens[i].kind == TransitionElem ==>
                        ens[i].id in net.transitions && net.transitions[ens[i].id] == TransitionOf(ens[i]))
      && net.arcs == ArcList(ens)
  {
    var ens := Entries(Iter(Locate(root).value));
    CollectPlaces(EmptyBuilder(), ens);
    CollectTransitions(EmptyBuilder(), ens);
    CollectArcs(EmptyBuilder(), ens);
  }

  /** The first arc with an end outside the declared ids is the one
      reported, naming its source when that dangles and else its target. */
  predicate DanglingExplained(ens: seq<Entry>, err: Error) {
    var arcs := ArcList(ens);
    var ids := DeclaredIds(ens);
    exists i :: 0 <= i < |arcs| && !Resolves(arcs[i], ids)
                && (forall j :: 0 <= j < i ==> Resolves(arcs[j], ids))
                && err == (if arcs[i].source !in ids
                           then DanglingReference(arcs[i].id, Source, arcs[i].source)
                           else DanglingReference(arcs[i].id, Target, arcs[i].target))
  }

  /** The initial marking of a parsed net has one entry per place element
      below the net, holding the number that element's marking text
      denotes. */
  lemma ParseMarking(root: Elem)
    requires ParsePnml(root).Success?
    ensures Locate(root).Success?
    ensures var net := ParsePnml(root).value;
            var ens := Entries(Iter(Locate(root).value));
      && net.m0.Keys == Declared(PlaceIds(ens))
      && forall i :: 0 <= i < |ens| && ens[i].kind == PlaceElem ==>
           ens[i].id in net.m0 && ens[i].number.Some? && net.m0[ens[i].id] == ens[i].number.value
  {
    ParseContents(root);
    var ens := Entries(Iter(Locate(root).value));
    CollectSucceedsIff(EmptyBuilder(), ens);
    forall i | 0 <= i < |ens| && ens[i].kind == PlaceElem
      ensures ens[i].number.Some?
    {
      assert EntryOk(ens[i]);
    }
  }

  /** Each failure points at its cause: no net element; a dangling end of
      the first arc that has one, source before target; or an entry with
      the reported defect. */
  lemma ParseFailureExplained(root: Elem)
    requires ParsePnml(root).Failure?
    ensures var err := ParsePnml(root).error;
      && (err == MalformedDocument <==> Locate(root).Failure?)
      && (Locate(root).Success? ==>
            var ens := Entries(Iter(Locate(root).value));
            if err.DanglingReference? then
              Collect(EmptyBuilder(), ens).Success? && DanglingExplained(ens, err)
            else FirstDefect(EmptyBuilder(), ens, err))
  {
    if Locate(root).Success? {
      var ens := Entries(Iter(Locate(root).value));
      if Collect(EmptyBuilder(), ens).Failure? {
        assert ParsePnml(root) == Failure(Collect(EmptyBuilder(), ens).error);
        CollectFailureFirstDefect(EmptyBuilder(), ens);
      } else {
        ArcFailureExplained(ens);
      }
    }
  }

  /** When the loop succeeds, the only failure left is a dangling arc end,
      and it is the first one. */
  lemma ArcFailureExplained(ens: seq<Entry>)
    requires Collect(EmptyBuilder(), ens).Success?
    ensures var b := Collect(EmptyBuilder(), ens).value;
            var check := CheckArcs(b.arcs, b.places.Keys + b.transitions.Keys);
            check.Some? ==> check.value.DanglingReference? && DanglingExplained(ens, check.value)
  {
    CollectIds(ens);
  }

  /** What the loop reads from one element: its class by tag suffix, its
      attributes, a name that is never blank once the id is present (the
      id itself is the last fallback), a number text that is never blank
      for a place or an arc (`0` and `1` are the last fallbacks), and a
      number exactly when that text, stripped, is an integer literal. */
  lemma EntryFields(e: Elem)
    ensures EntryOf(e).kind == Classify(e)
    ensures EntryOf(e).id == AttrText(e, "id")
    ensures EntryOf(e).source == AttrText(e, "source") && EntryOf(e).target == AttrText(e, "target")
    ensures (Classify(e) == PlaceElem || Classify(e) == TransitionElem) && AttrText(e, "id") != ""
            ==> EntryOf(e).name != ""
    ensures Classify(e) == PlaceElem || Classify(e) == ArcElem ==> EntryOf(e).numberText != ""
    ensures EntryOf(e).number.Some? <==> IsIntLiteral(Strip(EntryOf(e).numberText))
  {
  }

  /** The default texts `0` and `1` parse to 0 and 1. */
  lemma DefaultNumbers()
    ensures ParseInt(Strip("0")) == Some(0)
    ensures ParseInt(Strip("1")) == Some(1)
  {
    StripSingle('0');
    StripSingle('1');
    ParseDigit('0');
    ParseDigit('1');
  }

  /** The defaults: when neither lookup yields a non-blank text, an
      element is named by its id, a place holds 0 tokens and an arc weighs
      1. A lookup that finds nothing at all is one such case. */
  lemma EntryDefaults(e: Elem)
    ensures (Classify(e) == PlaceElem || Classify(e) == TransitionElem)
            && GetText(e, DeepPath("name")) == "" && GetText(e, ShallowPath("name")) == ""
            ==> EntryOf(e).name == AttrText(e, "id")
    ensures Classify(e) == PlaceElem
            && GetText(e, DeepPath("initialMarking")) == "" && GetText(e, ShallowPath("initialMarking")) == ""
            ==> EntryOf(e).number == Some(0)
    ensures Classify(e) == ArcElem
            && GetText(e, DeepPath("inscription")) == "" && GetText(e, ShallowPath("inscription")) == ""
            ==> EntryOf(e).number == Some(1)
  {
    DefaultNumbers();
    var en := EntryOf(e);
    if Classify(e) == PlaceElem || Classify(e) == TransitionElem {
      assert en.name == NameText(e);
    }
    if Classify(e) == PlaceElem {
      assert en.numberText == MarkingText(e);
    }
    if Classify(e) == ArcElem {
      assert en.numberText == WeightText(e);
    }
  }

  /** The error each entry defect yields, in the order the checks run.
      A place: a missing id first, then an unparsable marking, then a
      duplicate id. A transition: a missing id, then a duplicate id. An
      arc: any of id, source or target missing, then an unparsable weight;
      an arc id already used is not an error. */
  lemma StepCheckOrder(b: Builder, en: Entry)
    ensures en.kind == PlaceElem ==>
      && (en.id == "" ==> Step(b, en) == Failure(MissingAttribute(PlaceKind)))
      && (en.id != "" && en.number.None? ==> Step(b, en) == Failure(InvalidNumber(en.numberText)))
      && (en.id != "" && en.number.Some? && en.id in b.places ==> Step(b, en) == Failure(DuplicateId(PlaceKind, en.id)))
    ensures en.kind == TransitionElem ==>
      && (en.id == "" ==> Step(b, en) == Failure(MissingAttribute(TransitionKind)))
      && (en.id != "" && en.id in b.transitions ==> Step(b, en) == Failure(DuplicateId(TransitionKind, en.id)))
    ensures en.kind == ArcElem ==>
      && (en.id == "" || en.source == "" || en.target == "" ==> Step(b, en) == Failure(MissingAttribute(ArcKind)))
      && (en.id != "" && en.source != "" && en.target != "" && en.number.None? ==> Step(b, en) == Failure(InvalidNumber(en.numberText)))
      && (en.id != "" && en.source != "" && en.target != "" && en.number.Some? ==> Step(b, en).Success?)
  {
  }
}
