/**
 * `summarize` of pnml_parser.py: the four-line report of a net.
 */
module Summary {

  import opened Text
  import opened Numbers
  import opened Order
  import opened Pnml

  /** `f"{a.source}->{a.target}[{a.weight}]"` */
  function ArcLabel(a: Arc): string {
    a.source + "->" + a.target + "[" + IntToString(a.weight) + "]"
  }

  function ArcLabels(arcs: seq<Arc>): (r: seq<string>)
    ensures |r| == |arcs|
    ensures forall i :: 0 <= i < |arcs| ==> r[i] == ArcLabel(arcs[i])
  {
    if arcs == [] then [] else [ArcLabel(arcs[0])] + ArcLabels(arcs[1..])
  }

  /** `f"{p}={m0[p]}"` for each `p` of `ps`, in order. */
  function MarkingEntries(ps: seq<string>, m0: map<string, int>): (r: seq<string>)
    requires forall i :: 0 <= i < |ps| ==> ps[i] in m0
    ensures |r| == |ps|
    ensures forall i :: 0 <= i < |ps| ==> r[i] == ps[i] + "=" + IntToString(m0[ps[i]])
  {
    if ps == [] then [] else [ps[0] + "=" + IntToString(m0[ps[0]])] + MarkingEntries(ps[1..], m0)
  }

  /** `summarize` looks up `M0[p]` for every place id `p`, so every place
      needs a marking entry (a parsed net has exactly those). */
  predicate MarkingCovers(net: Net) {
    forall p :: p in net.places ==> p in net.m0
  }

  function PlacesLine(net: Net): string {
    "Places (" + IntToString(|net.places|) + "): " + Join(", ", SortedKeys(net.places.Keys))
  }

  function TransitionsLine(net: Net): string {
    "Transitions (" + IntToString(|net.transitions|) + "): " + Join(", ", SortedKeys(net.transitions.Keys))
  }

  function ArcsLine(net: Net): string {
    "Arcs (" + IntToString(|net.arcs|) + "): " + Join(", ", ArcLabels(net.arcs))
  }

  function MarkingLine(net: Net): string
    requires MarkingCovers(net)
  {
    "M0: " + Join(", ", MarkingEntries(SortedKeys(net.places.Keys), net.m0))
  }

  /** `summarize(net)`: the four lines joined by newlines. */
  function Summarize(net: Net): (r: string)
    requires MarkingCovers(net)
    ensures r == PlacesLine(net) + "\n" + TransitionsLine(net) + "\n" + ArcsLine(net) + "\n" + MarkingLine(net)
  {
    JoinFour("\n", PlacesLine(net), TransitionsLine(net), ArcsLine(net), MarkingLine(net));
    Join("\n", [PlacesLine(net), TransitionsLine(net), ArcsLine(net), MarkingLine(net)])
  }

  /** No id the summary prints contains a newline. */
  predicate NewlineFree(net: Net) {
    && (forall p :: p in net.places ==> '\n' !in p)
    && (forall t :: t in net.transitions ==> '\n' !in t)
    && (forall i :: 0 <= i < |net.arcs| ==> '\n' !in net.arcs[i].source && '\n' !in net.arcs[i].target)
  }

  lemma IntToStringNewlineFree(n: int)
    ensures '\n' !in IntToString(n)
  {
    var r := IntToString(n);
    forall k | 0 <= k < |r|
      ensures r[k] != '\n'
    {
    }
  }

  lemma SortedIdsNewlineFree(ids: set<string>)
    requires forall x :: x in ids ==> '\n' !in x
    ensures '\n' !in Join(", ", SortedKeys(ids))
  {
    JoinFree(", ", SortedKeys(ids), '\n');
  }

  lemma LinesNewlineFree(net: Net)
    requires MarkingCovers(net) && NewlineFree(net)
    ensures '\n' !in PlacesLine(net)
    ensures '\n' !in TransitionsLine(net)
    ensures '\n' !in ArcsLine(net)
    ensures '\n' !in MarkingLine(net)
  {
    IntToStringNewlineFree(|net.places|);
    IntToStringNewlineFree(|net.transitions|);
    SortedIdsNewlineFree(net.places.Keys);
    SortedIdsNewlineFree(net.transitions.Keys);
    ArcsLineNewlineFree(net);
    MarkingLineNewlineFree(net);
  }

  lemma ArcsLineNewlineFree(net: Net)
    requires NewlineFree(net)
    ensures '\n' !in ArcsLine(net)
  {
    IntToStringNewlineFree(|net.arcs|);
    var labels := ArcLabels(net.arcs);
    forall i | 0 <= i < |labels|
      ensures '\n' !in labels[i]
    {
      IntToStringNewlineFree(net.arcs[i].weight);
    }
    JoinFree(", ", labels, '\n');
  }

  lemma MarkingLineNewlineFree(net: Net)
    requires MarkingCovers(net) && NewlineFree(net)
    ensures '\n' !in MarkingLine(net)
  {
    var ps := SortedKeys(net.places.Keys);
    var entries := MarkingEntries(ps, net.m0);
    forall i | 0 <= i < |entries|
      ensures '\n' !in entries[i]
    {
      assert ps[i] in ps;
      EntryNewlineFree(ps[i], net.m0[ps[i]]);
    }
    JoinFree(", ", entries, '\n');
  }

  lemma EntryNewlineFree(p: string, v: int)
    requires '\n' !in p
    ensures '\n' !in p + "=" + IntToString(v)
  {
    IntToStringNewlineFree(v);
  }

  /** Splitting a summary at newlines gives back exactly its four lines, in
      order, whenever no printed id contains a newline. */
  lemma SummaryHasFourLines(net: Net)
    requires MarkingCovers(net) && NewlineFree(net)
    ensures Split(Summarize(net), '\n') == [PlacesLine(net), TransitionsLine(net), ArcsLine(net), MarkingLine(net)]
  {
    LinesNewlineFree(net);
    var lines := [PlacesLine(net), TransitionsLine(net), ArcsLine(net), MarkingLine(net)];
    SplitJoin(lines, '\n');
  }
}
