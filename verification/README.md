# PNML parse-and-validate, modelled in Dafny

This project models `pnml_parser.py`, the reader of Petri Net Markup Language (PNML)
documents. The model takes an already-parsed element tree (`Tree.Elem`: tag,
attributes, optional text, children) and does what the module does:

- **Net locator** (`Parser.Locate`). It walks the tree in pre-order, the root
  included. It picks the first element whose tag ends with `net`, and fails
  with `MalformedDocument` when there is none.
- **Model builder** (`Parser.Collect`, `Parser.Step`). It walks the net element
  and all its descendants. Each element is classified by tag suffix, in the
  order place, transition, arc. The builder then does the following:
  - reads its `id` (and `source`/`target` for an arc);
  - resolves its name, marking or weight text through the two-lookup
    fallback of `_get_text` (`Parser.Resolve`);
  - parses the number;
  - registers places and transitions in maps keyed by id, rejecting a repeated
    id within each kind;
  - appends arcs in document order.
- **Reference check** (`Parser.CheckArcs`). Every arc end must be a place or
  transition id. The error names the first offending arc, with its source
  checked before its target.
- **Initial marking** (`Parser.InitialMarking`). It maps each place id to the
  place's initial token count.
- **Summary** (`Summary.Summarize`). It renders four lines: the sorted place
  ids, the sorted transition ids, the arcs as `source->target[weight]` in
  stored order, and the marking in sorted place order.

Python's exceptions become the `Pnml.Error` datatype:
- `MalformedDocument`;
- `MissingAttribute(kind)`;
- `DuplicateId(kind, id)`;
- `InvalidNumber(text)`;
- `DanglingReference(arc, end, ref)`.

`Parser.ParsePnml` returns `Result<Net, Error>`.

The loop works on one `Entry` per element: what the element's attributes and
resolved texts are. Resolving a text cannot fail, so reading all of an
element's fields before its checks changes no outcome. The order of the
checks within each element is kept. The `CollectFacts` module restates the
loop's outcome against definitions that look at each entry on its own:
- `EntryOk` says an entry passes the per-element checks;
- `PlaceIds` and `TransitionIds` list the declared ids;
- `ArcList` lists the arcs.

Its lemmas prove that the loop accepts exactly those sequences and builds
exactly those maps and that list.

Supporting modules:
- `Text`: Python's `str.endswith`, `str.strip` with Python's whitespace set,
  `str.join`, and a `split` used to read the summary back.
- `Numbers`: `int()` for an optional sign followed by decimal digits, and
  `str()` of an integer.
- `Order`: Python's string order and `sorted` of a set.
- `Tree`: `iter()`, and the two lookups `.//{*}a/{*}b` and `a/b`.
- `Examples`: one concrete net and its summary, character for character.
- `DocumentExamples`: three small documents and the error each parses to: no net element, a repeated place id, and an arc to an undeclared node.

## Model

| member | source | states |
|---|---|---|
| Parser.Locate | pnml_parser.py:40-46 | The net is the first element in pre-order (root included) whose tag ends with `net`. The locator fails exactly when no such element exists, and the error is then `MalformedDocument`. |
| Parser.Resolve | pnml_parser.py:54-55 | The `or` chain of line 54, with all three outcomes pinned. A non-blank stripped deep (`.//{*}f/{*}text`) text wins. When that text is blank, a non-blank literal (`f/text`) text wins. When both are blank, the result is the default. When the deep lookup finds no node, the literal one finds none either, so the default is used. |
| Tree.Find | pnml_parser.py:32 | `elem.find(path)` succeeds exactly when some element in the path's scope matches the outer step and has a child matching the inner step. It returns the first node in ElementTree's order: the first child matching the inner step of the earliest element in scope (document order) that matches the outer step and has such a child. |
| Tree.Iter | pnml_parser.py:43 | `iter()` is pre-order: the element, then the walk of each child's subtree in turn. It visits every descendant: any child of a visited element is visited too. |
| Tree.GetText | pnml_parser.py:31-35 | `_get_text` with its default `""`: when the lookup finds no node the result is `""`. Otherwise it is the found node's text, or `""` for a node without text, stripped, so it neither starts nor ends with whitespace. |
| Tree.LiteralImpliesDeep | pnml_parser.py:54 | Anything the literal path `a/b` finds, the namespace-insensitive deep path `.//{*}a/{*}b` also finds. |
| Text.Strip | pnml_parser.py:35 | `strip()` returns the part of the input left after removing whitespace on both ends. The result is empty exactly when the input is all whitespace. Otherwise it neither starts nor ends with whitespace. |
| Text.StripIdempotent | pnml_parser.py:56 | Stripping an already stripped text (the second `strip()` before `int`) changes nothing. |
| Numbers.ParseInt | pnml_parser.py:56 | `int()` succeeds exactly on an optional sign followed by at least one digit. A `-` gives a non-positive value; anything else gives a non-negative value. The value is pinned: `str` of it is the literal's canonical spelling, without `+`, leading zeros or a sign on zero. So `"007"` reads as 7, `"+5"` as 5 and `"-0"` as 0. |
| Numbers.DigitsCanonical | pnml_parser.py:56 | Printing the value of a run of digits gives back the run without its leading zeros. |
| Numbers.IntToStringRoundTrip | pnml_parser.py:84-87 | The decimal rendering of every integer in the summary reads back as that integer. |
| Parser.CheckArcs | pnml_parser.py:74-77 | The check passes exactly when every arc's source and target are known ids. On failure it names the first arc in stored order that has a dangling end: its source if that dangles, else its target. |
| Parser.Classify | pnml_parser.py:51-67 | An element is a place exactly when its tag ends with `place`, a transition exactly when it ends with `transition`, and an arc exactly when it ends with `arc`. The three suffixes end in different letters, so the order of the tests (lines 51, 60, 67) never matters. |
| ParseFacts.EntryFields | pnml_parser.py:52-71 | What the loop reads from an element: its class, and its `id`, `source` and `target` attributes. A place or transition with an id has a non-blank name, because the id is the last fallback. A place or arc has a non-blank number text, because `0` and `1` are the last fallbacks. The number exists exactly when the stripped text is an integer literal. |
| Parser.PlaceStep | pnml_parser.py:52-58 | Registering a place changes only the place map, and keeps it keyed by each place's own id. |
| Parser.TransitionStep | pnml_parser.py:61-65 | Registering a transition changes only the transition map, and keeps it keyed by each transition's own id. |
| Parser.ArcStep | pnml_parser.py:68-72 | Registering an arc leaves both maps alone and appends exactly one arc after the existing ones. |
| Parser.Step | pnml_parser.py:51-72 | One iteration of the loop (the per-class outcome, including ignoring other elements, is `CollectFacts.StepOutcome`): a success keeps both maps keyed by id and only appends to the arc list, and a failure is always an element defect. |
| Parser.Collect | pnml_parser.py:50-72 | The loop keeps every map keyed by the id of the value stored under it. It only ever appends to the arc list. Its errors are always element defects, never `MalformedDocument` or a dangling reference. |
| Parser.Build | pnml_parser.py:48-80 | After the net is located, a success is a well-formed net and a failure is never `MalformedDocument`. |
| Parser.InitialMarking | pnml_parser.py:79 | M0 has exactly the place ids as keys and holds each place's initial count. |
| ParseFacts.ParseMarking | pnml_parser.py:79 | In a parsed net, M0's keys are exactly the ids of the place elements below the net. Each id maps to the number its element's marking text denotes. |
| Parser.ParsePnml | pnml_parser.py:37-80 | A parsed net is well formed: the conditions are listed below the table. A document without a net element fails with `MalformedDocument`. |
| CollectFacts.StepOutcome | pnml_parser.py:51-72 | One iteration, per element class: it succeeds exactly when the element passes its own checks (and, for places and transitions, its id is new to its kind). The builder then differs from the old one only by the new entry. |
| CollectFacts.CollectSucceedsIff | pnml_parser.py:50-72 | The loop succeeds exactly when every element passes its own checks and ids are new and pairwise distinct within each kind. A place and a transition may share an id. |
| CollectFacts.CollectPlaces | pnml_parser.py:51-58 | After a successful loop, the place map's keys are the earlier keys plus the place ids. It has one entry per place element, keeps earlier entries, and stores each place as its element describes it. |
| CollectFacts.CollectTransitions | pnml_parser.py:60-65 | The same as `CollectPlaces`, for the transition map and the transition elements. |
| CollectFacts.CollectArcs | pnml_parser.py:67-72 | After a successful loop, the arc list is the old list followed by the arc of every arc element, in document order. Arcs are not deduplicated. |
| CollectFacts.CollectFailureFirstDefect | pnml_parser.py:50-72 | When the loop fails, there is an index `i` with three properties. The entries before `i` are acceptable. Entry `i` makes the prefix unacceptable. The error is the one `EntryError` gives for entry `i` against the ids declared before it. `EntryError` checks in the source's order: a missing attribute of the entry's own kind (`id` for a place or transition; any of `id`, `source`, `target` for an arc), then an unparsable number, then an id already declared by an earlier entry of the same kind. |
| ParseFacts.ParseSucceedsIff | pnml_parser.py:37-80 | A document parses exactly when all of the following hold: it has a net element, every element below it passes its own checks, place ids and transition ids are each distinct, and every arc end is a declared place or transition id. |
| ParseFacts.ParseContents | pnml_parser.py:48-80 | A parsed net's contents match the elements below the net: conditions below the table. |
| ParseFacts.ParseFailureExplained | pnml_parser.py:42-77 | Each failure explains itself: cases below the table. |
| ParseFacts.ArcFailureExplained | pnml_parser.py:74-77 | Once the loop has succeeded, the only error left is a dangling reference. It is the first arc, in document order, with an end outside the declared ids. |
| ParseFacts.EntryDefaults | pnml_parser.py:54-55 | The defaults when both lookups give a blank text, including when they find no node: a place or transition is named by its id, a place's marking is 0, and an arc's weight is 1 (line 70). |
| ParseFacts.StepCheckOrder | pnml_parser.py:52-71 | The error each defect yields, in the source's check order. For a place, the marking is parsed before the duplicate check. An arc's id is never checked for uniqueness. |
| Order.SortedKeys | pnml_parser.py:84-85 | `sorted(keys)` lists every key exactly once, in strictly increasing string order, and nothing else. |
| Order.SortedListingUnique | pnml_parser.py:84-87 | Two strictly sorted listings of the same set are equal, so the summary's order is determined by the ids alone. |
| Order.LessTransitive | pnml_parser.py:84 | Python's string order is transitive. Together with `LessTotal` and `LessAsymmetric` this makes it a strict total order, which is what `sorted` relies on. |
| Order.LessTotal | pnml_parser.py:84 | Any two distinct strings are ordered one way or the other. |
| Text.SplitJoin | pnml_parser.py:88 | Splitting a `"\n".join` of newline-free lines at newlines gives back the lines. |
| Summary.SummaryHasFourLines | pnml_parser.py:82-88 | When no printed id contains a newline, the summary splits at newlines into exactly four lines: the places line, the transitions line, the arcs line and the marking line, in that order. |
| Summary.Summarize | pnml_parser.py:82-88 | The summary is the places line, the transitions line, the arcs line and the marking line, separated by single newlines. Each line's content is listed below the table. |
| Examples.SmallNetSummary | pnml_parser.py:82-88 | For a net with places `p1` (0 tokens) and `p2` (1 token), transition `t1`, and arcs `p1->t1` (weight 1) and `t1->p2` (weight 2), the summary is exactly the four expected lines. |
| DocumentExamples.NoNetDocument | pnml_parser.py:42-46 | `<pnml/>` fails with `MalformedDocument`. |
| DocumentExamples.DuplicatePlaceDocument | pnml_parser.py:57 | A net with two places both with id `p1` fails with `DuplicateId(place, "p1")`. |
| DocumentExamples.DanglingArcDocument | pnml_parser.py:74-77 | A net with place `p1` and an arc `a1` from `p1` to `t9` fails with `DanglingReference("a1", target, "t9")`. |

Conditions for `Parser.ParsePnml` (a well-formed net):
- each place and each transition is stored under its own id;
- every arc end is a place or transition id;
- M0 has exactly the place ids as keys;
- `M0[p]` is `places[p].initial`;
- a dangling-reference error implies a net element was found.

Contents checked by `ParseFacts.ParseContents`:
- the place keys are exactly the ids of the place elements;
- there are as many places as place elements;
- each place holds its element's id, name and marking;
- the same holds for transitions;
- the arc list is exactly the arc elements, in document order.

Failure cases in `ParseFacts.ParseFailureExplained`:
- `MalformedDocument` exactly when there is no net element;
- a dangling reference comes from a successful loop, and it names the first arc, in document order, with a dangling end (source before target);
- any other error is the first defective element's own error, as `CollectFacts.CollectFailureFirstDefect` states.

The four lines of `Summary.Summarize`:
- `Places (n): ` and the place ids joined by `, `, where `n` is the number of places and the ids come from `Order.SortedKeys`;
- the same for transitions;
- `Arcs (n): ` and `source->target[weight]` for each arc, in stored order;
- `M0: ` and `p=count` for each place id, in sorted order.

## Left out

- Reading the file and parsing XML (`ET.parse`, lines 38-39): the model starts from an element tree. Text and attributes are taken as already decoded.
- ElementTree's XPath engine: only the two lookups the module uses are modelled. A `{*}` step matches the local name, which is the tag with a leading `{uri}` removed. A literal step matches the whole tag.
- Numbers.ParseInt: Python's `int()` grammar is simplified. It models an optional `+`/`-` followed by ASCII digits. Underscores between digits and non-ASCII digits are not accepted.
- Numbers.ParseInt: Python 3.11 and later raise ValueError for a decimal literal of more than 4300 digits, by default. The model has no such limit and parses literals of any length.
- Exception message text: errors carry their kind and the offending id or text, not the English message.
- `pnmlinfo.py` is not part of this model. It is a command-line wrapper that prints the summary and sets the exit status.
- Attributes: `elem.attrib.get(k)` is read through Python truthiness, so an absent attribute and an empty one are the same (`""`). The module treats them the same way (`not pid`).
- Summary.SummaryHasFourLines: it requires that no printed id contains a newline. An id with a newline in it makes the printed summary have more than four lines. The rendering itself does not depend on this.
- Tag matching: elements are classified by a raw suffix test on the full tag (`endswith`), as the code does. So `subnet` counts as a net and `{uri}myplace` as a place. A design that compares local names would reject those. The model follows the code.
- Sign of numbers: markings and weights are not checked for sign, as in the code (lines 56 and 71). A negative initial marking parses successfully, even though a place is meant to hold a non-negative number of tokens.
