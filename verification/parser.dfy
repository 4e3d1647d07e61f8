/**
 * `parse_pnml` of pnml_parser.py over an already-parsed element tree:
 * locate the net element, classify and extract every element below it,
 * check arc references, and derive the initial marking.
 */
module Parser {

  import opened Results
  import opened Text
  import opened Numbers
  import opened Tree
  import opened Pnml

  /** `e.attrib.get(k)` as Python's truthiness sees it: an absent attribute
      and an empty one are both falsy, so both are `""` here. */
  function AttrText(e: Elem, k: string): string {
    if k in e.attrib then e.attrib[k] else ""
  }

  /** Index of the first element of `es` whose tag ends with `suffix`. */
  function FirstTagged(es: seq<Elem>, suffix: string): (r: Option<nat>)
    ensures r.Some? ==> r.value < |es| && EndsWith(es[r.value].tag, suffix)
                        && forall j :: 0 <= j < r.value ==> !EndsWith(es[j].tag, suffix)
    ensures r.None? ==> forall j :: 0 <= j < |es| ==> !EndsWith(es[j].tag, suffix)
  {
    if es == [] then None
    else if EndsWith(es[0].tag, suffix) then Some(0)
    else
      match FirstTagged(es[1..], suffix)
      case None => None
      case Some(i) => Some(i + 1)
  }

  /** The net element: the first element of `root.iter()` (the root
      included) whose tag ends with `net`. */
  function Locate(root: Elem): (r: Result<Elem, Error>)
    ensures r.Failure? <==> forall j :: 0 <= j < |Iter(root)| ==> !EndsWith(Iter(root)[j].tag, "net")
    ensures r.Failure? ==> r.error == MalformedDocument
    ensures r.Success? ==> exists i :: 0 <= i < |Iter(root)| && Iter(root)[i] == r.value
                                       && EndsWith(r.value.tag, "net")
                                       && forall j :: 0 <= j < i ==> !EndsWith(Iter(root)[j].tag, "net")
  {
    match FirstTagged(Iter(root), "net")
    case None => Failure(MalformedDocument)
    case Some(i) => Success(Iter(root)[i])
  }

  /** How the builder treats an element, by tag suffix, tested in the
      order place, transition, arc. */
  datatype ElemClass = PlaceElem | TransitionElem | ArcElem | OtherElem

  /** The three suffixes end in different letters, so at most one of them
      matches and the order of the tests decides nothing: each class is
      exactly the elements whose tag ends with its suffix. */
  function Classify(e: Elem): (r: ElemClass)
    ensures r == PlaceElem <==> EndsWith(e.tag, "place")
    ensures r == TransitionElem <==> EndsWith(e.tag, "transition")
    ensures r == ArcElem <==> EndsWith(e.tag, "arc")
  {
    SuffixLastChar(e.tag, "place");
    SuffixLastChar(e.tag, "transition");
    SuffixLastChar(e.tag, "arc");
    if EndsWith(e.tag, "place") then PlaceElem
    else if EndsWith(e.tag, "transition") then TransitionElem
    else if EndsWith(e.tag, "arc") then ArcElem
    else OtherElem
  }

  /** A suffix match fixes the last character. */
  lemma SuffixLastChar(s: string, suffix: string)
    requires |suffix| > 0
    ensures EndsWith(s, suffix) ==> |s| > 0 && s[|s| - 1] == suffix[|suffix| - 1]
  {
    if EndsWith(s, suffix) {
      assert s[|s| - |suffix|..][|suffix| - 1] == s[|s| - 1];
    }
  }

  /** `.//{*}field/{*}text` */
  function DeepPath(field: string): Path {
    Path(true, AnyNamespace(field), AnyNamespace("text"))
  }

  /** `field/text` */
  function ShallowPath(field: string): Path {
    Path(false, Literal(field), Literal("text"))
  }

  /** `_get_text(e, ".//{*}field/{*}text") or _get_text(e, "field/text")
      or default`: the first non-empty stripped text of the two lookups,
      else the default. */
  function Resolve(e: Elem, field: string, default: string): (r: string)
    requires |field| > 0 && field[0] != '{'
    ensures GetText(e, DeepPath(field)) != "" ==> r == GetText(e, DeepPath(field))
    ensures GetText(e, DeepPath(field)) == "" && GetText(e, ShallowPath(field)) != ""
            ==> r == GetText(e, ShallowPath(field))
    ensures GetText(e, DeepPath(field)) == "" && GetText(e, ShallowPath(field)) == "" ==> r == default
    ensures Find(e, DeepPath(field)).None? ==> r == default
  {
    LiteralImpliesDeep(e, field, "text");
    var deep := GetText(e, DeepPath(field));
    if deep != "" then deep
    else
      var shallow := GetText(e, ShallowPath(field));
      if shallow != "" then shallow else default
  }

  /** The display name of a place or transition, defaulting to its id. */
  function NameText(e: Elem): string {
    Resolve(e, "name", AttrText(e, "id"))
  }

  /** The initial marking text of a place, defaulting to `0`. */
  function MarkingText(e: Elem): string {
    Resolve(e, "initialMarking", "0")
  }

  /** The inscription (weight) text of an arc, defaulting to `1`. */
  function WeightText(e: Elem): string {
    Resolve(e, "inscription", "1")
  }

  /** What the loop reads from one element: its class, its attributes, and
      the resolved name and number texts with the parsed number (the
      marking for a place, the weight for an arc). Resolving a text cannot
      fail, so reading everything up front changes no outcome. */
  datatype Entry = Entry(
    kind: ElemClass,
    id: string,
    source: string,
    target: string,
    name: string,
    numberText: string,
    number: Option<int>)

  function EntryOf(e: Elem): Entry
  {
    var kind := Classify(e);
    var name := if kind == PlaceElem || kind == TransitionElem then NameText(e) else "";
    var numberText := if kind == PlaceElem then MarkingText(e)
                      else if kind == ArcElem then WeightText(e)
                      else "";
    Entry(kind, AttrText(e, "id"), AttrText(e, "source"), AttrText(e, "target"),
          name, numberText, ParseInt(Strip(numberText)))
  }

  /** The entries of `es`, in the same order. */
  function Entries(es: seq<Elem>): (r: seq<Entry>)
    ensures |r| == |es|
    ensures forall i :: 0 <= i < |es| ==> r[i] == EntryOf(es[i])
  {
    if es == [] then [] else [EntryOf(es[0])] + Entries(es[1..])
  }

  /** The working state of the loop over `net_elem.iter()`. */
  datatype Builder = Builder(places: map<string, Place>, transitions: map<string, Transition>, arcs: seq<Arc>)

  function EmptyBuilder(): Builder {
    Builder(map[], map[], [])
  }

  predicate Keyed(b: Builder) {
    PlacesKeyed(b.places) && TransitionsKeyed(b.transitions)
  }

  /** Registers a place (pnml_parser.py lines 52-58): the id check, then the
      integer parse of the marking, then the duplicate check. */
  function PlaceStep(b: Builder, en: Entry): (r: Result<Builder, Error>)
    ensures r.Success? ==> r.value.transitions == b.transitions && r.value.arcs == b.arcs
    ensures PlacesKeyed(b.places) && r.Success? ==> PlacesKeyed(r.value.places)
  {
    if en.id == "" then Failure(MissingAttribute(PlaceKind))
    else if en.number.None? then Failure(InvalidNumber(en.numberText))
    else if en.id in b.places then Failure(DuplicateId(PlaceKind, en.id))
    else Success(b.(places := b.places[en.id := Place(en.id, en.name, en.number.value)]))
  }

  /** Registers a transition (lines 61-65). */
  function TransitionStep(b: Builder, en: Entry): (r: Result<Builder, Error>)
    ensures r.Success? ==> r.value.places == b.places && r.value.arcs == b.arcs
    ensures TransitionsKeyed(b.transitions) && r.Success? ==> TransitionsKeyed(r.value.transitions)
  {
    if en.id == "" then Failure(MissingAttribute(TransitionKind))
    else if en.id in b.transitions then Failure(DuplicateId(TransitionKind, en.id))
    else Success(b.(transitions := b.transitions[en.id := Transition(en.id, en.name)]))
  }

  /** Appends an arc (lines 68-72); arc ids are not checked for
      uniqueness. */
  function ArcStep(b: Builder, en: Entry): (r: Result<Builder, Error>)
    ensures r.Success? ==> r.value.places == b.places && r.value.transitions == b.transitions
    ensures r.Success? ==> |r.value.arcs| == |b.arcs| + 1 && r.value.arcs[..|b.arcs|] == b.arcs
  {
    if en.id == "" || en.source == "" || en.target == "" then Failure(MissingAttribute(ArcKind))
    else if en.number.None? then Failure(InvalidNumber(en.numberText))
    else Success(b.(arcs := b.arcs + [Arc(en.id, en.source, en.target, en.number.value)]))
  }

  /** One iteration of the loop: dispatch on the class, or ignore. */
  function Step(b: Builder, en: Entry): (r: Result<Builder, Error>)
    ensures Keyed(b) && r.Success? ==> Keyed(r.value)
    ensures r.Success? ==> b.arcs <= r.value.arcs
    ensures r.Failure? ==> !r.error.MalformedDocument? && !r.error.DanglingReference?
  {
    match en.kind
    case PlaceElem => PlaceStep(b, en)
    case TransitionElem => TransitionStep(b, en)
    case ArcElem => ArcStep(b, en)
    case OtherElem => Success(b)
  }

  /** The loop over the entries, stopping at the first failure. */
  function Collect(b: Builder, ens: seq<Entry>): (r: Result<Builder, Error>)
    ensures Keyed(b) && r.Success? ==> Keyed(r.value)
    ensures r.Success? ==> b.arcs <= r.value.arcs
    ensures r.Failure? ==> !r.error.MalformedDocument? && !r.error.DanglingReference?
    decreases ens
  {
    if ens == [] then Success(b)
    else
      var b' :- Step(b, ens[0]);
      Collect(b', ens[1..])
  }

  /** The reference check after the loop: the first arc, in stored order,
      with an end outside `ids`, its source examined before its target. */
  function CheckArcs(arcs: seq<Arc>, ids: set<string>): (r: Option<Error>)
    ensures r.None? <==> forall i :: 0 <= i < |arcs| ==> Resolves(arcs[i], ids)
    ensures r.Some? ==> exists i :: 0 <= i < |arcs| && !Resolves(arcs[i], ids)
                                    && (forall j :: 0 <= j < i ==> Resolves(arcs[j], ids))
                                    && r.value == (if arcs[i].source !in ids
                                                   then DanglingReference(arcs[i].id, Source, arcs[i].source)
                                                   else DanglingReference(arcs[i].id, Target, arcs[i].target))
  {
    if arcs == [] then None
    else if arcs[0].source !in ids then Some(DanglingReference(arcs[0].id, Source, arcs[0].source))
    else if arcs[0].target !in ids then Some(DanglingReference(arcs[0].id, Target, arcs[0].target))
    else
      var r := CheckArcs(arcs[1..], ids);
      assert forall i :: 0 <= i < |arcs| - 1 ==> arcs[1..][i] == arcs[i + 1];
      r
  }

  /** `{p: plc.initial for p, plc in places.items()}` */
  function InitialMarking(places: map<string, Place>): (m0: map<string, int>)
    ensures m0.Keys == places.Keys
    ensures forall p :: p in places ==> m0[p] == places[p].initial
  {
    map p | p in places :: places[p].initial
  }

  /** `parse_pnml` after `ET.parse`: the validated net or the first error. */
  function ParsePnml(root: Elem): (r: Result<Net, Error>)
    ensures r.Success? ==> WellFormed(r.value)
    ensures Locate(root).Failure? ==> r == Failure(MalformedDocument)
    ensures r.Failure? && r.error.DanglingReference? ==> Locate(root).Success?
  {
    var net :- Locate(root);
    Build(Entries(Iter(net)))
  }

  /** Everything after the net is located: the loop over the entries, the
      reference check, and the initial marking. */
  function Build(ens: seq<Entry>): (r: Result<Net, Error>)
    ensures r.Success? ==> WellFormed(r.value)
    ensures r.Failure? ==> !r.error.MalformedDocument?
  {
    var b :- Collect(EmptyBuilder(), ens);
    var ids := b.places.Keys + b.transitions.Keys;
    match CheckArcs(b.arcs, ids)
    case Some(err) => Failure(err)
    case None => Success(Net(b.places, b.transitions, b.arcs, InitialMarking(b.places)))
  }
}
