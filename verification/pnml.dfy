/**
 * The Petri net model the parser produces (the `Place`, `Transition`, `Arc`
 * and `Net` records of pnml_parser.py) and the errors that abort a parse.
 */
module Pnml {

  datatype Place = Place(id: string, name: string, initial: int)

  datatype Transition = Transition(id: string, name: string)

  datatype Arc = Arc(id: string, source: string, target: string, weight: int)

  /** `places` and `transitions` are keyed by id; `arcs` keeps document
      order; `m0` is the initial marking. */
  datatype Net = Net(
    places: map<string, Place>,
    transitions: map<string, Transition>,
    arcs: seq<Arc>,
    m0: map<string, int>)

  datatype Kind = PlaceKind | TransitionKind | ArcKind

  /** Which end of an arc failed to resolve. */
  datatype Endpoint = Source | Target

  /** Every way a parse can fail; each aborts the whole parse. */
  datatype Error =
    | MalformedDocument
    | MissingAttribute(kind: Kind)
    | DuplicateId(kind: Kind, id: string)
    | InvalidNumber(text: string)
    | DanglingReference(arcId: string, end: Endpoint, ref: string)

  /** Every place is stored under its own id. */
  predicate PlacesKeyed(places: map<string, Place>) {
    forall k :: k in places ==> places[k].id == k
  }

  /** Every transition is stored under its own id. */
  predicate TransitionsKeyed(transitions: map<string, Transition>) {
    forall k :: k in transitions ==> transitions[k].id == k
  }

  /** Both ends of an arc name a node in `ids`. */
  predicate Resolves(a: Arc, ids: set<string>) {
    a.source in ids && a.target in ids
  }

  /** The ids an arc end may name: every place and every transition. */
  function NodeIds(net: Net): set<string> {
    net.places.Keys + net.transitions.Keys
  }

  /** The invariants every successfully parsed net satisfies: key/id
      agreement, referential integrity of arcs, and an initial marking with
      one entry per place holding that place's initial token count. */
  predicate WellFormed(net: Net) {
    && PlacesKeyed(net.places)
    && TransitionsKeyed(net.transitions)
    && (forall i :: 0 <= i < |net.arcs| ==> Resolves(net.arcs[i], NodeIds(net)))
    && net.m0.Keys == net.places.Keys
    && (forall p :: p in net.places ==> net.m0[p] == net.places[p].initial)
  }
}
