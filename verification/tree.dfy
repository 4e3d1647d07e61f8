/**
 * The already-parsed XML document as ElementTree presents it, `Element.iter()`
 * and the two `Element.find(path)` shapes the parser uses:
 * `.//{*}a/{*}b` (any descendant named `a` in any namespace, then its child
 * named `b`) and `a/b` (a child tagged exactly `a`, then its child tagged
 * exactly `b`).
 */
module Tree {

  import opened Results
  import opened Text

  /** One element: its tag (`{uri}local` when namespaced), its attributes,
      its text (`None` when the element has no text) and its children. */
  datatype Elem = Elem(tag: string, attrib: map<string, string>, text: Option<string>, children: seq<Elem>)

  /** The elements of a forest in document order (pre-order). */
  function Walk(es: seq<Elem>): seq<Elem> {
    if es == [] then [] else [es[0]] + Walk(es[0].children) + Walk(es[1..])
  }

  /** `e.iter()`: `e` itself, then every descendant in document order. */
  function Iter(e: Elem): (r: seq<Elem>)
    ensures r == [e] + Walk(e.children)
    ensures forall c :: c in e.children ==> c in r
    ensures forall d, c :: d in r && c in d.children ==> c in r
  {
    var r := Walk([e]);
    assert [e][1..] == [];
    assert r == [e] + Walk(e.children) + Walk([]);
    WalkClosed([e]);
    WalkContainsRoots(e.children);
    r
  }

  /** A walk is closed under taking children: it visits every descendant
      of every element it visits. */
  lemma {:induction false} WalkClosed(es: seq<Elem>)
    ensures forall d, c :: d in Walk(es) && c in d.children ==> c in Walk(es)
    decreases es
  {
    if es != [] {
      WalkClosed(es[0].children);
      WalkClosed(es[1..]);
      WalkContainsRoots(es[0].children);
      assert Walk(es) == [es[0]] + Walk(es[0].children) + Walk(es[1..]);
    }
  }

  /** Every tree of a forest occurs in its walk. */
  lemma {:induction false} WalkContainsRoots(es: seq<Elem>)
    ensures forall i :: 0 <= i < |es| ==> es[i] in Walk(es)
  {
    if es != [] {
      WalkContainsRoots(es[1..]);
      forall i | 1 <= i < |es|
        ensures es[i] in Walk(es)
      {
        assert es[i] == es[1..][i - 1];
      }
    }
  }

  /** The tag without a leading `{uri}` namespace part. */
  function LocalName(tag: string): string {
    if |tag| > 0 && tag[0] == '{' then
      match IndexOf(tag, '}')
      case Some(i) => tag[i + 1..]
      case None => tag
    else tag
  }

  /** A namespaced tag has the local part after `}` as its local name, and a
      tag without namespace is its own local name. */
  lemma LocalNameOf(uri: string, local: string)
    requires '}' !in uri
    requires |local| > 0 ==> local[0] != '{'
    ensures LocalName("{" + uri + "}" + local) == local
    ensures LocalName(local) == local
  {
    var tag := "{" + uri + "}" + local;
    assert tag[1 + |uri|] == '}';
    assert IndexOf(tag, '}') == Some(1 + |uri|) by {
      assert tag[..1 + |uri|] == "{" + uri;
    }
    assert tag[2 + |uri|..] == local;
  }

  /** One step of a path: `{*}name` or a literal tag. */
  datatype PathStep = AnyNamespace(local: string) | Literal(tag: string)

  predicate StepMatches(st: PathStep, tag: string) {
    match st
    case AnyNamespace(n) => LocalName(tag) == n
    case Literal(t) => tag == t
  }

  /** `.//outer/inner` when `descendants`, else `outer/inner`. */
  datatype Path = Path(descendants: bool, outer: PathStep, inner: PathStep)

  /** The elements a path searches below `e`: the proper descendants for
      `.//`, the children otherwise. */
  function Scope(e: Elem, p: Path): seq<Elem> {
    if p.descendants then Walk(e.children) else e.children
  }

  /** `d` matches the outer step and has a child matching the inner one. */
  predicate Reaches(d: Elem, p: Path) {
    StepMatches(p.outer, d.tag) && exists c :: c in d.children && StepMatches(p.inner, c.tag)
  }

  /** ElementTree yields, for each element of `ds` in turn that matches the
      outer step, its children matching the inner step; the first node
      yielded is child `k` of `ds[i]` exactly when this holds. */
  predicate FirstReached(ds: seq<Elem>, p: Path, i: int, k: int) {
    && 0 <= i < |ds| && Reaches(ds[i], p)
    && (forall j :: 0 <= j < i ==> !Reaches(ds[j], p))
    && 0 <= k < |ds[i].children| && StepMatches(p.inner, ds[i].children[k].tag)
    && (forall l :: 0 <= l < k ==> !StepMatches(p.inner, ds[i].children[l].tag))
  }

  /** Index of the first element of `cs` the step selects. */
  function FirstMatching(st: PathStep, cs: seq<Elem>): (r: Option<nat>)
    ensures r.Some? ==> r.value < |cs| && StepMatches(st, cs[r.value].tag)
                        && forall j :: 0 <= j < r.value ==> !StepMatches(st, cs[j].tag)
    ensures r.None? ==> forall j :: 0 <= j < |cs| ==> !StepMatches(st, cs[j].tag)
  {
    if cs == [] then None
    else if StepMatches(st, cs[0].tag) then Some(0)
    else
      match FirstMatching(st, cs[1..])
      case None => None
      case Some(k) => Some(k + 1)
  }

  /** The first node the path reaches through the elements of `ds`. */
  function FindIn(ds: seq<Elem>, p: Path): (r: Option<Elem>)
    ensures r.None? <==> forall i :: 0 <= i < |ds| ==> !Reaches(ds[i], p)
    ensures r.Some? ==> exists i, k :: FirstReached(ds, p, i, k) && r.value == ds[i].children[k]
  {
    if ds == [] then None
    else
      var d := ds[0];
      var k := if StepMatches(p.outer, d.tag) then FirstMatching(p.inner, d.children) else None;
      if k.Some? then
        assert d.children[k.value] in d.children;
        assert FirstReached(ds, p, 0, k.value);
        Some(d.children[k.value])
      else
        assert !Reaches(d, p) by {
          if StepMatches(p.outer, d.tag) {
            forall c | c in d.children
              ensures !StepMatches(p.inner, c.tag)
            {
              var j :| 0 <= j < |d.children| && d.children[j] == c;
            }
          }
        }
        var r := FindIn(ds[1..], p);
        assert forall i :: 0 < i < |ds| ==> ds[i] == ds[1..][i - 1];
        if r.Some? then
          var i, k' :| FirstReached(ds[1..], p, i, k') && r.value == ds[1..][i].children[k'];
          assert FirstReached(ds, p, i + 1, k');
          r
        else r
  }

  /** `e.find(path)`: the first node the path reaches, in document order. */
  function Find(e: Elem, p: Path): (r: Option<Elem>)
    ensures r.Some? <==> exists d :: d in Scope(e, p) && Reaches(d, p)
    ensures r.Some? ==> exists i, k :: FirstReached(Scope(e, p), p, i, k)
                                       && r.value == Scope(e, p)[i].children[k]
    ensures r.Some? ==> StepMatches(p.inner, r.value.tag)
  {
    var r := FindIn(Scope(e, p), p);
    assert r.None? <==> forall d :: d in Scope(e, p) ==> !Reaches(d, p);
    r
  }

  /** A literal `a/b` lookup reaches something only if `.//{*}a/{*}b` does:
      every child is a descendant, and a plain tag is its own local name. */
  lemma LiteralImpliesDeep(e: Elem, outer: string, inner: string)
    requires |outer| > 0 && outer[0] != '{'
    requires |inner| > 0 && inner[0] != '{'
    ensures Find(e, Path(false, Literal(outer), Literal(inner))).Some?
            ==> Find(e, Path(true, AnyNamespace(outer), AnyNamespace(inner))).Some?
  {
    var shallow := Path(false, Literal(outer), Literal(inner));
    var deep := Path(true, AnyNamespace(outer), AnyNamespace(inner));
    if Find(e, shallow).Some? {
      var d :| d in Scope(e, shallow) && Reaches(d, shallow);
      var c :| c in d.children && StepMatches(shallow.inner, c.tag);
      WalkContainsRoots(e.children);
      assert d in Scope(e, deep);
      assert StepMatches(deep.outer, d.tag) && StepMatches(deep.inner, c.tag);
      assert Reaches(d, deep);
    }
  }

  /** `_get_text(e, path)` with its default `""`: the stripped text of the
      first node the path reaches; `""` when none is reached or it has no
      text. */
  function GetText(e: Elem, p: Path): (r: string)
    ensures Find(e, p).None? ==> r == ""
    ensures Find(e, p).Some? ==> r == Strip(Find(e, p).value.text.GetOr(""))
    ensures r != "" ==> Find(e, p).Some? && r == Strip(Find(e, p).value.text.GetOr(""))
    ensures r != "" ==> !IsSpace(r[0]) && !IsSpace(r[|r| - 1])
  {
    match Find(e, p)
    case None => ""
    case Some(n) => Strip(n.text.GetOr(""))
  }
}
