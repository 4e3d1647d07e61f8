/**
 * What the loop of `parse_pnml` guarantees, stated against reference
 * definitions that look at each entry on its own (no builder state): which
 * entry sequences are accepted, what the accepted builder holds, and what
 * each error points at.
 */
module CollectFacts {

  import opened Results
  import opened Pnml
  import opened Parser

  /** An entry passes every check the loop applies to it in isolation:
      required attributes are non-empty and its number text parses. */
  predicate EntryOk(en: Entry) {
    match en.kind
    case PlaceElem => en.id != "" && en.number.Some?
    case TransitionElem => en.id != ""
    case ArcElem => en.id != "" && en.source != "" && en.target != "" && en.number.Some?
    case OtherElem => true
  }

  predicate AllOk(ens: seq<Entry>) {
    forall i :: 0 <= i < |ens| ==> EntryOk(ens[i])
  }

  /** The id of every place entry, in document order. */
  function PlaceIds(ens: seq<Entry>): seq<string> {
    if ens == [] then []
    else (if ens[0].kind == PlaceElem then [ens[0].id] else []) + PlaceIds(ens[1..])
  }

  /** The id of every transition entry, in document order. */
  function TransitionIds(ens: seq<Entry>): seq<string> {
    if ens == [] then []
    else (if ens[0].kind == TransitionElem then [ens[0].id] else []) + TransitionIds(ens[1..])
  }

  /** The place a place entry describes. */
  function PlaceOf(en: Entry): Place {
    Place(en.id, en.name, en.number.GetOr(0))
  }

  /** The transition a transition entry describes. */
  function TransitionOf(en: Entry): Transition {
    Transition(en.id, en.name)
  }

  /** The arc an arc entry describes. */
  function ArcOf(en: Entry): Arc {
    Arc(en.id, en.source, en.target, en.number.GetOr(0))
  }

  /** The arc of every arc entry, in document order. */
  function ArcList(ens: seq<Entry>): seq<Arc> {
    if ens == [] then []
    else (if ens[0].kind == ArcElem then [ArcOf(ens[0])] else []) + ArcList(ens[1..])
  }

  /** No id occurs twice in `xs`, and none is already in `taken`. */
  predicate Unregistered(xs: seq<string>, taken: set<string>) {
    && (forall i, j :: 0 <= i < j < |xs| ==> xs[i] != xs[j])
    && (forall i :: 0 <= i < |xs| ==> xs[i] !in taken)
  }

  /** The entry sequences the loop accepts, starting from builder `b`: every
      entry is individually sound, and place ids and transition ids are each
      new and pairwise distinct, places and transitions separately. */
  predicate Acceptable(b: Builder, ens: seq<Entry>) {
    && AllOk(ens)
    && Unregistered(PlaceIds(ens), b.places.Keys)
    && Unregistered(TransitionIds(ens), b.transitions.Keys)
  }

  lemma UnregisteredCons(x: string, xs: seq<string>, taken: set<string>)
    ensures Unregistered([x] + xs, taken) <==> x !in taken && Unregistered(xs, taken + {x})
  {
    var ys := [x] + xs;
    assert forall i :: 0 < i < |ys| ==> ys[i] == xs[i - 1];
    if x !in taken && Unregistered(xs, taken + {x}) {
      forall i, j | 0 <= i < j < |ys|
        ensures ys[i] != ys[j]
      {
        if i > 0 {
          assert ys[i] == xs[i - 1] && ys[j] == xs[j - 1];
        } else {
          assert ys[j] == xs[j - 1];
        }
      }
    }
    if Unregistered(ys, taken) {
      assert ys[0] == x;
      forall i | 0 <= i < |xs|
        ensures xs[i] != x && xs[i] !in taken
      {
        assert ys[i + 1] == xs[i];
        assert ys[0] != ys[i + 1];
      }
      forall i, j | 0 <= i < j < |xs|
        ensures xs[i] != xs[j]
      {
        assert ys[i + 1] == xs[i] && ys[j + 1] == xs[j];
        assert ys[i + 1] != ys[j + 1];
      }
    }
  }

  /** One loop iteration in terms of the reference definitions. */
  lemma StepOutcome(b: Builder, en: Entry)
    ensures en.kind == PlaceElem ==>
      && (Step(b, en).Success? <==> EntryOk(en) && en.id !in b.places)
      && (Step(b, en).Success? ==> Step(b, en).value == b.(places := b.places[en.id := PlaceOf(en)]))
    ensures en.kind == TransitionElem ==>
      && (Step(b, en).Success? <==> EntryOk(en) && en.id !in b.transitions)
      && (Step(b, en).Success? ==> Step(b, en).value == b.(transitions := b.transitions[en.id := TransitionOf(en)]))
    ensures en.kind == ArcElem ==>
      && (Step(b, en).Success? <==> EntryOk(en))
      && (Step(b, en).Success? ==> Step(b, en).value == b.(arcs := b.arcs + [ArcOf(en)]))
    ensures en.kind == OtherElem ==> Step(b, en) == Success(b)
  {
  }

  /** The loop succeeds exactly on the acceptable entry sequences. */
  lemma {:induction false} CollectSucceedsIff(b: Builder, ens: seq<Entry>)
    ensures Collect(b, ens).Success? <==> Acceptable(b, ens)
    decreases ens
  {
    if ens != [] {
      var en, rest := ens[0], ens[1..];
      assert AllOk(ens) <==> EntryOk(en) && AllOk(rest) by {
        assert forall i :: 0 < i < |ens| ==> ens[i] == rest[i - 1];
      }
      StepOutcome(b, en);
      var s := Step(b, en);
      match en.kind
      case PlaceElem =>
        assert PlaceIds(ens) == [en.id] + PlaceIds(rest);
        assert TransitionIds(ens) == TransitionIds(rest);
        UnregisteredCons(en.id, PlaceIds(rest), b.places.Keys);
        if s.Success? {
          assert s.value.places.Keys == b.places.Keys + {en.id};
          CollectSucceedsIff(s.value, rest);
        }
      case TransitionElem =>
        assert TransitionIds(ens) == [en.id] + TransitionIds(rest);
        assert PlaceIds(ens) == PlaceIds(rest);
        UnregisteredCons(en.id, TransitionIds(rest), b.transitions.Keys);
        if s.Success? {
          assert s.value.transitions.Keys == b.transitions.Keys + {en.id};
          CollectSucceedsIff(s.value, rest);
        }
      case ArcElem =>
        assert PlaceIds(ens) == PlaceIds(rest) && TransitionIds(ens) == TransitionIds(rest);
        if s.Success? {
          CollectSucceedsIff(s.value, rest);
        }
      case OtherElem =>
        assert PlaceIds(ens) == PlaceIds(rest) && TransitionIds(ens) == TransitionIds(rest);
        CollectSucceedsIff(b, rest);
    }
  }

  /** On success the loop has registered exactly the place entries: each
      under its own id, holding what its entry describes, one map entry per
      place entry, and nothing that was registered before is replaced. */
  lemma CollectPlaces(b: Builder, ens: seq<Entry>)
    requires Collect(b, ens).Success?
    ensures var r := Collect(b, ens).value;
      && (forall x :: x in r.places <==> x in b.places || x in PlaceIds(ens))
      && |r.places| == |b.places| + |PlaceIds(ens)|
      && (forall k :: k in b.places ==> r.places[k] == b.places[k])
      && (forall i :: 0 <= i < |ens| && ens[i].kind == PlaceElem ==>
                                            ens[i].id in r.places && r.places[ens[i].id] == PlaceOf(ens[i]))
  {
    CollectPlaceKeys(b, ens);
    CollectPlaceCount(b, ens);
    CollectPlaceValues(b, ens);
  }

  /** The place entries add their ids and keep what was registered before. */
  lemma {:induction false} CollectPlaceKeys(b: Builder, ens: seq<Entry>)
    requires Collect(b, ens).Success?
    ensures var r := Collect(b, ens).value;
      && (forall x :: x in r.places <==> x in b.places || x in PlaceIds(ens))
      && (forall k :: k in b.places ==> r.places[k] == b.places[k])
    decreases ens
  {
    if ens != [] {
      var en, rest := ens[0], ens[1..];
      StepOutcome(b, en);
      var b' := Step(b, en).value;
      CollectPlaceKeys(b', rest);
      assert Collect(b, ens).value == Collect(b', rest).value;
      if en.kind == PlaceElem {
        assert PlaceIds(ens) == [en.id] + PlaceIds(rest);
      } else {
        assert PlaceIds(ens) == PlaceIds(rest);
      }
    }
  }

  /** Every place entry adds one map entry: no id is overwritten. */
  lemma {:induction false} CollectPlaceCount(b: Builder, ens: seq<Entry>)
    requires Collect(b, ens).Success?
    ensures |Collect(b, ens).value.places| == |b.places| + |PlaceIds(ens)|
    decreases ens
  {
    if ens != [] {
      var en, rest := ens[0], ens[1..];
      StepOutcome(b, en);
      var b' := Step(b, en).value;
      CollectPlaceCount(b', rest);
      assert Collect(b, ens).value == Collect(b', rest).value;
      if en.kind == PlaceElem {
        assert PlaceIds(ens) == [en.id] + PlaceIds(rest);
        assert b'.places.Keys == b.places.Keys + {en.id};
        assert |b'.places| == |b.places| + 1;
      } else {
        assert PlaceIds(ens) == PlaceIds(rest);
      }
    }
  }

  /** Every place entry ends up stored under its id as it describes it. */
  lemma {:induction false} CollectPlaceValues(b: Builder, ens: seq<Entry>)
    requires Collect(b, ens).Success?
    ensures var r := Collect(b, ens).value;
      forall i :: 0 <= i < |ens| && ens[i].kind == PlaceElem ==>
                    ens[i].id in r.places && r.places[ens[i].id] == PlaceOf(ens[i])
    decreases ens
  {
    if ens != [] {
      var en, rest := ens[0], ens[1..];
      StepOutcome(b, en);
      var b' := Step(b, en).value;
      CollectPlaceValues(b', rest);
      CollectPlaceKeys(b', rest);
      assert Collect(b, ens).value == Collect(b', rest).value;
      assert forall i :: 0 < i < |ens| ==> ens[i] == rest[i - 1];
    }
  }

  /** On success the loop has registered exactly the transition entries: each
      under its own id, holding what its entry describes, one map entry per
      transition entry, and nothing that was registered before is replaced. */
  lemma CollectTransitions(b: Builder, ens: seq<Entry>)
    requires Collect(b, ens).Success?
    ensures var r := Collect(b, ens).value;
      && (forall x :: x in r.transitions <==> x in b.transitions || x in TransitionIds(ens))
      && |r.transitions| == |b.transitions| + |TransitionIds(ens)|
      && (forall k :: k in b.transitions ==> r.transitions[k] == b.transitions[k])
      && (forall i :: 0 <= i < |ens| && ens[i].kind == TransitionElem ==>
                                            ens[i].id in r.transitions && r.transitions[ens[i].id] == TransitionOf(ens[i]))
  {
    CollectTransitionKeys(b, ens);
    CollectTransitionCount(b, ens);
    CollectTransitionValues(b, ens);
  }

  /** The transition entries add their ids and keep what was registered before. */
  lemma {:induction false} CollectTransitionKeys(b: Builder, ens: seq<Entry>)
    requires Collect(b, ens).Success?
    ensures var r := Collect(b, ens).value;
      && (forall x :: x in r.transitions <==> x in b.transitions || x in TransitionIds(ens))
      && (forall k :: k in b.transitions ==> r.transitions[k] == b.transitions[k])
    decreases ens
  {
    if ens != [] {
      var en, rest := ens[0], ens[1..];
      StepOutcome(b, en);
      var b' := Step(b, en).value;
      CollectTransitionKeys(b', rest);
      assert Collect(b, ens).value == Collect(b', rest).value;
      if en.kind == TransitionElem {
        assert TransitionIds(ens) == [en.id] + TransitionIds(rest);
      } else {
        assert TransitionIds(ens) == TransitionIds(rest);
      }
    }
  }

  /** Every transition entry adds one map entry: no id is overwritten. */
  lemma {:induction false} CollectTransitionCount(b: Builder, ens: seq<Entry>)
    requires Collect(b, ens).Success?
    ensures |Collect(b, ens).value.transitions| == |b.transitions| + |TransitionIds(ens)|
    decreases ens
  {
    if ens != [] {
      var en, rest := ens[0], ens[1..];
      StepOutcome(b, en);
      var b' := Step(b, en).value;
      CollectTransitionCount(b', rest);
      assert Collect(b, ens).value == Collect(b', rest).value;
      if en.kind == TransitionElem {
        assert TransitionIds(ens) == [en.id] + TransitionIds(rest);
        assert b'.transitions.Keys == b.transitions.Keys + {en.id};
        assert |b'.transitions| == |b.transitions| + 1;
      } else {
        assert TransitionIds(ens) == TransitionIds(rest);
      }
    }
  }

  /** Every transition entry ends up stored under its id as it describes it. */
  lemma {:induction false} CollectTransitionValues(b: Builder, ens: seq<Entry>)
    requires Collect(b, ens).Success?
    ensures var r := Collect(b, ens).value;
      forall i :: 0 <= i < |ens| && ens[i].kind == TransitionElem ==>
                    ens[i].id in r.transitions && r.transitions[ens[i].id] == TransitionOf(ens[i])
    decreases ens
  {
    if ens != [] {
      var en, rest := ens[0], ens[1..];
      StepOutcome(b, en);
      var b' := Step(b, en).value;
      CollectTransitionValues(b', rest);
      CollectTransitionKeys(b', rest);
      assert Collect(b, ens).value == Collect(b', rest).value;
      assert forall i :: 0 < i < |ens| ==> ens[i] == rest[i - 1];
    }
  }

  /** On success the loop has appended exactly the arc entries, in order,
      with no deduplication. */
  lemma {:induction false} CollectArcs(b: Builder, ens: seq<Entry>)
    requires Collect(b, ens).Success?
    ensures Collect(b, ens).value.arcs == b.arcs + ArcList(ens)
    decreases ens
  {
    if ens != [] {
      var en, rest := ens[0], ens[1..];
      StepOutcome(b, en);
      var b' := Step(b, en).value;
      CollectArcs(b', rest);
      assert Collect(b, ens).value == Collect(b', rest).value;
      if en.kind == ArcElem {
        assert ArcList(ens) == [ArcOf(en)] + ArcList(rest);
      } else {
        assert ArcList(ens) == ArcList(rest);
      }
    }
  }

  /** The ids of `xs`, as a set. */
  function Declared(xs: seq<string>): set<string> {
    set x | x in xs
  }

  /** What the source reports for one element, given the place and
      transition ids registered before it: its required attributes are
      checked first, then its number, then (for places and transitions)
      whether its id is new. `None` when the element passes. */
  function EntryError(places: set<string>, transitions: set<string>, en: Entry): Option<Error> {
    match en.kind
    case PlaceElem =>
      if en.id == "" then Some(MissingAttribute(PlaceKind))
      else if en.number.None? then Some(InvalidNumber(en.numberText))
      else if en.id in places then Some(DuplicateId(PlaceKind, en.id))
      else None
    case TransitionElem =>
      if en.id == "" then Some(MissingAttribute(TransitionKind))
      else if en.id in transitions then Some(DuplicateId(TransitionKind, en.id))
      else None
    case ArcElem =>
      if en.id == "" || en.source == "" || en.target == "" then Some(MissingAttribute(ArcKind))
      else if en.number.None? then Some(InvalidNumber(en.numberText))
      else None
    case OtherElem => None
  }

  /** `err` is the error of the first defective entry: every entry before
      entry `i` is acceptable, entry `i` is not, and `err` is what entry `i`
      reports against the ids declared before it. */
  predicate DefectAt(b: Builder, ens: seq<Entry>, i: int, err: Error) {
    && 0 <= i < |ens|
    && Acceptable(b, ens[..i])
    && !Acceptable(b, ens[..i + 1])
    && EntryError(b.places.Keys + Declared(PlaceIds(ens[..i])),
                  b.transitions.Keys + Declared(TransitionIds(ens[..i])), ens[i]) == Some(err)
  }

  predicate FirstDefect(b: Builder, ens: seq<Entry>, err: Error) {
    exists i :: 0 <= i < |ens| && DefectAt(b, ens, i, err)
  }

  /** One step fails exactly when the reference reports an error, and with
      that error. */
  lemma StepError(b: Builder, en: Entry)
    ensures Step(b, en).Failure? <==> EntryError(b.places.Keys, b.transitions.Keys, en).Some?
    ensures Step(b, en).Failure? ==> EntryError(b.places.Keys, b.transitions.Keys, en) == Some(Step(b, en).error)
  {
  }

  /** The loop stops at the first defective entry and reports that entry's
      own error, in the source's check order: a missing attribute of its
      own kind, then an unparsable number, then an id already declared by
      an earlier entry of its kind. */
  lemma {:induction false} CollectFailureFirstDefect(b: Builder, ens: seq<Entry>)
    requires Collect(b, ens).Failure?
    ensures FirstDefect(b, ens, Collect(b, ens).error)
    decreases ens
  {
    var en := ens[0];
    var s := Step(b, en);
    StepError(b, en);
    if s.Failure? {
      assert Collect(b, ens) == s;
      assert ens[..0] == [] && ens[..1] == [en];
      assert Collect(b, [en]) == s;
      CollectSucceedsIff(b, []);
      CollectSucceedsIff(b, [en]);
      assert Declared([]) == {};
      assert DefectAt(b, ens, 0, s.error);
    } else {
      var b' := s.value;
      var rest := ens[1..];
      assert Step(b, ens[0]) == Success(b');
      assert Collect(b, ens) == Collect(b', rest);
      CollectFailureFirstDefect(b', rest);
      var err := Collect(b, ens).error;
      var i :| 0 <= i < |rest| && DefectAt(b', rest, i, err);
      PrefixShift(b, b', ens, i);
      PrefixShift(b, b', ens, i + 1);
      TakenShift(b, b', ens, i);
      assert ens[i + 1] == rest[i];
      assert DefectAt(b, ens, i + 1, err);
    }
  }

  /** After a successful first step, a prefix of the entries is acceptable
      from `b` exactly when the rest of that prefix is acceptable from the
      builder the step produced. */
  lemma PrefixShift(b: Builder, b': Builder, ens: seq<Entry>, j: int)
    requires ens != [] && Step(b, ens[0]) == Success(b')
    requires 0 <= j < |ens|
    ensures Acceptable(b, ens[..j + 1]) <==> Acceptable(b', ens[1..][..j])
  {
    var pre := ens[..j + 1];
    assert pre[0] == ens[0] && pre[1..] == ens[1..][..j];
    assert Collect(b, pre) == Collect(b', ens[1..][..j]);
    CollectSucceedsIff(b, pre);
    CollectSucceedsIff(b', ens[1..][..j]);
  }

  /** After a successful first step, the ids registered in `b` plus those
      declared by a prefix are the ids registered by the step plus those
      declared by the rest of the prefix. */
  lemma TakenShift(b: Builder, b': Builder, ens: seq<Entry>, j: int)
    requires ens != [] && Step(b, ens[0]) == Success(b')
    requires 0 <= j < |ens|
    ensures b.places.Keys + Declared(PlaceIds(ens[..j + 1])) == b'.places.Keys + Declared(PlaceIds(ens[1..][..j]))
    ensures b.transitions.Keys + Declared(TransitionIds(ens[..j + 1]))
            == b'.transitions.Keys + Declared(TransitionIds(ens[1..][..j]))
  {
    var en := ens[0];
    var pre := ens[..j + 1];
    StepOutcome(b, en);
    assert pre[0] == en && pre[1..] == ens[1..][..j];
    var ps, ts := PlaceIds(ens[1..][..j]), TransitionIds(ens[1..][..j]);
    if en.kind == PlaceElem {
      assert PlaceIds(pre) == [en.id] + ps;
      assert Declared([en.id] + ps) == {en.id} + Declared(ps);
    } else {
      assert PlaceIds(pre) == ps;
    }
    if en.kind == TransitionElem {
      assert TransitionIds(pre) == [en.id] + ts;
      assert Declared([en.id] + ts) == {en.id} + Declared(ts);
    } else {
      assert TransitionIds(pre) == ts;
    }
  }
}
