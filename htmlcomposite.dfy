/**
 * The HTML builder node (BlreHtmlBuilderNode) and the persistence handlers
 * the HTML composite binds on the event bus
 * (RescueEditor/js/persistance/html/html-composite.js).
 *
 * A builder node is a composite node whose payload is its block's markup and
 * its template data. Rendering splices the children's renderings into the
 * node's children marker region; serializing writes the subtree as
 * `<node>` markup; deserializing rebuilds a subtree from the elements a
 * browser parses out of that markup, which are given here as a value of
 * their own (Element).
 */
module HtmlComposite {
  import opened Wrappers
  import opened Json
  import opened Strings
  import opened Selectors
  import opened Composite
  import opened HtmlTemplating

  /** What a builder node adds to a composite node: its markup and its template data. */
  datatype HtmlData = HtmlData(html: string, templateData: Fields)

  /** A node's subtree as a value: id, depth, markup, template data and child subtrees in order. */
  datatype Tree = Tree(globalId: int, depth: int, html: string, data: Fields, children: seq<Tree>)

  // ---------------------------------------------------------------------
  // Subtrees of the arena as values
  // ---------------------------------------------------------------------

  /** The subtree rooted at `h`. */
  ghost function Shape(s: Store<HtmlData>, h: Handle): Tree
    requires Ranked(s) && h in s.nodes
    decreases s.bound - s.rank[h], 1
  {
    var n := s.nodes[h];
    Tree(n.globalId, n.depth, n.payload.html, n.payload.templateData,
         seq(|n.children|, k requires 0 <= k < |n.children| => ChildShape(s, h, k)))
  }

  /** The subtree of the `k`-th child of `h`. */
  ghost function ChildShape(s: Store<HtmlData>, h: Handle, k: nat): Tree
    requires Ranked(s) && h in s.nodes && k < |s.nodes[h].children|
    decreases s.bound - s.rank[h], 0
  {
    ChildRank(s, h, k);
    Shape(s, s.nodes[h].children[k])
  }

  /** The subtree of a node lists its children's subtrees, in child order. */
  lemma ShapeChildren(s: Store<HtmlData>, h: Handle, k: nat)
    requires Ranked(s) && h in s.nodes && k < |s.nodes[h].children|
    ensures s.nodes[h].children[k] in s.nodes
    ensures |Shape(s, h).children| == |s.nodes[h].children|
    ensures Shape(s, h).children[k] == Shape(s, s.nodes[h].children[k])
  {
    ChildRank(s, h, k);
  }

  // ---------------------------------------------------------------------
  // renderHtml
  // ---------------------------------------------------------------------

  /** renderHtml on a subtree: the children's renderings, in order, spliced into the node's marker region. */
  function Render(t: Tree): string
    decreases t
  {
    InsertChildrenHtml(t.html, RenderAll(t.children))
  }

  /** The renderings of `ts` one after the other. */
  function RenderAll(ts: seq<Tree>): string
    decreases ts
  {
    if ts == [] then [] else RenderAll(ts[..|ts| - 1]) + Render(ts[|ts| - 1])
  }

  /**
   * A node whose markup has a marker region renders as the markup before the
   * first opening marker, its children's renderings (with `$` patterns
   * expanded), and the markup after the last closing marker; any other node
   * renders as its markup.
   */
  lemma RenderSplices(t: Tree) returns (i: nat, j: nat)
    ensures !HasChildrenRegion(t.html) ==> Render(t) == t.html
    ensures HasChildrenRegion(t.html) ==>
              i + |ChildrenOpen| <= j && j + |ChildrenClose| <= |t.html| &&
              OccursAt(t.html, ChildrenOpen, i) && OccursAt(t.html, ChildrenClose, j) &&
              Render(t) == SplicedAt(t.html, i, j, RenderAll(t.children))
    ensures HasChildrenRegion(t.html) && Plain(RenderAll(t.children)) ==>
              Render(t) == t.html[..i] + RenderAll(t.children) + t.html[j + |ChildrenClose|..]
  {
    var kids := RenderAll(t.children);
    assert Render(t) == InsertChildrenHtml(t.html, kids);
    if HasChildrenRegion(t.html) {
      i, j := InsertWithRegion(t.html, kids);
    } else {
      i, j := 0, 0;
      InsertWithoutRegion(t.html, kids);
    }
  }

  /**
   * The root of a new page renders its children once, between its two
   * halves, with their `$` patterns expanded against the marker pair.
   */
  lemma RenderRoot(t: Tree)
    requires t.html == RootHtml
    ensures Render(t) == RootPrefix + Substitution(RenderAll(t.children), ChildrenOpen + ChildrenClose, RootPrefix, RootSuffix) + RootSuffix
    ensures Plain(RenderAll(t.children)) ==> Render(t) == RootPrefix + RenderAll(t.children) + RootSuffix
  {
    InsertIntoRoot(RenderAll(t.children));
  }

  lemma RenderAllSnoc(ts: seq<Tree>, i: nat)
    requires i < |ts|
    ensures RenderAll(ts[..i + 1]) == RenderAll(ts[..i]) + Render(ts[i])
  {
    assert ts[..i + 1][..i] == ts[..i];
  }

  /**
   * renderHtml: each child's rendering appended in child order, then the
   * whole spliced into the node's markup; the arena is only read.
   */
  method RenderHtml(f: Forest<HtmlData>, h: Handle) returns (r: string)
    requires f.Valid() && h in f.nodes
    decreases f.bound - f.rank[h]
    ensures r == Render(Shape(f.View(), h))
  {
    ghost var t := Shape(f.View(), h);
    var ch := f.nodes[h].children;
    var childrenHtml := "";
    for i := 0 to |ch|
      invariant childrenHtml == RenderAll(t.children[..i])
    {
      ShapeChildren(f.View(), h, i);
      var c := RenderHtml(f, ch[i]);
      RenderAllSnoc(t.children, i);
      childrenHtml := childrenHtml + c;
    }
    assert t.children[..|ch|] == t.children;
    r := InsertChildrenHtml(f.nodes[h].payload.html, childrenHtml);
  }

  // ---------------------------------------------------------------------
  // serializeXml / serializeHelper
  // ---------------------------------------------------------------------

  const NodeOpen: string := "<node>"
  const HtmlValueOpen: string := "<htmlvalue>"
  const HtmlValueClose: string := "</htmlvalue>"
  const GlobalIdOpen: string := "<globalid>"
  const GlobalIdClose: string := "</globalid>"
  const DataOpen: string := "<templatedata>"
  const DataClose: string := "</templatedata>"
  const ChildrenListOpen: string := "<children>"
  const NodeClose: string := "</children></node>"

  /** How serializeHelper writes a template value: an object as its JSON text, a string as it is. */
  function ValueText(v: Value): string
  {
    if v.Obj? then Stringify(v) else v.s
  }

  /** The element serializeHelper writes for one template entry, with the value written by `write`. */
  function DataEntry(m: (string, Value), write: Value -> string): string
  {
    ("<" + m.0 + " data-key=\"" + m.0 + "\">") + write(m.1) + ("</" + m.0 + ">")
  }

  /** The template entries' elements, in insertion order. */
  function DataText(fs: Fields, write: Value -> string): string
  {
    if fs == [] then [] else DataText(fs[..|fs| - 1], write) + DataEntry(fs[|fs| - 1], write)
  }

  /** The `<node>` markup of a subtree, its children's markup in child order. */
  function Serialize(t: Tree, write: Value -> string): string
    decreases t
  {
    NodeOpen + (HtmlValueOpen + t.html + HtmlValueClose) + (GlobalIdOpen + IntToString(t.globalId) + GlobalIdClose)
    + DataOpen + DataText(t.data, write) + DataClose
    + ChildrenListOpen + SerializeAll(t.children, write) + NodeClose
  }

  /** The markup of `ts` one after the other. */
  function SerializeAll(ts: seq<Tree>, write: Value -> string): string
    decreases ts
  {
    if ts == [] then [] else SerializeAll(ts[..|ts| - 1], write) + Serialize(ts[|ts| - 1], write)
  }

  /**
   * serializeHelper: the node's parts appended one after the other, an
   * element per template entry, then each child's markup in child order.
   */
  method SerializeHelper(f: Forest<HtmlData>, h: Handle) returns (r: string)
    requires f.Valid() && h in f.nodes
    decreases f.bound - f.rank[h], 1
    ensures r == Serialize(Shape(f.View(), h), ValueText)
  {
    ghost var t := Shape(f.View(), h);
    var node := f.nodes[h];
    r := NodeOpen;
    r := r + (HtmlValueOpen + node.payload.html + HtmlValueClose);
    r := r + (GlobalIdOpen + IntToString(node.globalId) + GlobalIdClose);
    r := r + DataOpen;
    r := AppendData(r, node.payload.templateData);
    r := r + DataClose;
    r := r + ChildrenListOpen;
    r := AppendChildren(f, h, r);
    r := r + NodeClose;
  }

  /** The loop over the template entries: each entry's element appended in insertion order. */
  method AppendData(acc: string, fs: Fields) returns (r: string)
    ensures r == acc + DataText(fs, ValueText)
  {
    r := acc;
    for i := 0 to |fs|
      invariant r == acc + DataText(fs[..i], ValueText)
    {
      var key := fs[i].0;
      r := r + ("<" + key + " data-key=\"" + key + "\">");
      r := r + ValueText(fs[i].1);
      r := r + ("</" + key + ">");
      assert fs[..i + 1][..i] == fs[..i];
      Concat4(acc, DataText(fs[..i], ValueText), "<" + key + " data-key=\"" + key + "\">", ValueText(fs[i].1), "</" + key + ">");
    }
    assert fs[..|fs|] == fs;
  }

  /** The loop over the children: each child's markup appended in child order. */
  method AppendChildren(f: Forest<HtmlData>, h: Handle, acc: string) returns (r: string)
    requires f.Valid() && h in f.nodes
    decreases f.bound - f.rank[h], 0
    ensures r == acc + SerializeAll(Shape(f.View(), h).children, ValueText)
  {
    ghost var ts := Shape(f.View(), h).children;
    var ch := f.nodes[h].children;
    r := acc;
    for i := 0 to |ch|
      invariant r == acc + SerializeAll(ts[..i], ValueText)
    {
      ShapeChildren(f.View(), h, i);
      var c := SerializeHelper(f, ch[i]);
      AppendStep(acc, ts, i, r, c);
      r := r + c;
    }
    assert ts[..|ch|] == ts;
  }

  lemma AppendStep(acc: string, ts: seq<Tree>, i: nat, r: string, c: string)
    requires i < |ts| && r == acc + SerializeAll(ts[..i], ValueText) && c == Serialize(ts[i], ValueText)
    ensures r + c == acc + SerializeAll(ts[..i + 1], ValueText)
  {
    SerializeAllSnoc(ts, i, ValueText);
    Assoc(acc, SerializeAll(ts[..i], ValueText), c);
  }

  lemma SerializeAllSnoc(ts: seq<Tree>, i: nat, write: Value -> string)
    requires i < |ts|
    ensures SerializeAll(ts[..i + 1], write) == SerializeAll(ts[..i], write) + Serialize(ts[i], write)
  {
    assert ts[..i + 1][..i] == ts[..i];
  }

  /** Appending three pieces to an accumulator appends their concatenation. */
  lemma Concat4(a: string, b: string, x: string, y: string, z: string)
    ensures a + b + x + y + z == a + (b + (x + y + z))
  {
  }

  /** serializeXml: the markup wrapped as a JSON string. */
  method SerializeXml(f: Forest<HtmlData>, h: Handle) returns (r: string)
    requires f.Valid() && h in f.nodes
    ensures r == Stringify(Str(Serialize(Shape(f.View(), h), ValueText)))
    ensures Parse(r) == Ok(Str(Serialize(Shape(f.View(), h), ValueText)))
  {
    var markup := SerializeHelper(f, h);
    r := Stringify(Str(markup));
    ParseStringify(Str(markup));
  }

  // ---------------------------------------------------------------------
  // deserializeXml / deserializeHelper over parsed elements
  // ---------------------------------------------------------------------

  /** What deserializeHelper reads of one element under `templatedata`: its `data-key` attribute (None when absent) and its inner text. */
  datatype DataElement = DataElement(key: Option<string>, text: string)

  /**
   * What deserializeHelper reads of a parsed `<node>` element: the inner
   * text of its first `htmlvalue` and `globalid` elements and the children
   * of its first `templatedata` element (None where the query finds no
   * element), and the elements under its first `children` element (none
   * when there is no such element).
   */
  datatype Element = Element(htmlValue: Option<string>, globalId: Option<string>,
                             templateData: Option<seq<DataElement>>, children: seq<Element>)

  /**
   * Why a subtree cannot be rebuilt: a queried element is missing (reading
   * its innerHTML throws a TypeError), the id text holds no number, or
   * JSON.parse yields a number, boolean, null or array, which template data
   * is not modelled to hold.
   */
  datatype DecodeError = MissingElement(part: Part) | NotANumber(text: string) | UnmodelledValue(text: string)

  /** The parts of a `<node>` element deserializeHelper queries by tag name. */
  datatype Part = HtmlValuePart | GlobalIdPart | TemplateDataPart

  /** `JSON.parse(value)`, or the raw text when it throws. */
  function DecodeValue(text: string): (r: Result<Value, DecodeError>)
    ensures r.Ok? ==> WellFormed(r.value)
  {
    match Parse(text)
    case Ok(v) => Ok(v)
    case Err(SyntaxError) => Ok(Str(text))
    case Err(Unsupported) => Err(UnmodelledValue(text))
  }

  /** The template data rebuilt entry by entry, each as `templateData[key] = value`; a missing key reads as "null". */
  function DecodeData(des: seq<DataElement>): Result<Fields, DecodeError>
  {
    if des == [] then Ok([])
    else
      match DecodeData(des[..|des| - 1])
      case Err(e) => Err(e)
      case Ok(fs) =>
        var d := des[|des| - 1];
        match DecodeValue(d.text)
        case Err(e) => Err(e)
        case Ok(v) => Ok(Put(fs, d.key.GetOr("null"), v))
  }

  /** The subtree an element describes, its root at `depth` and each child one level deeper. */
  function Decode(e: Element, depth: int): Result<Tree, DecodeError>
    decreases e
  {
    if e.htmlValue.None? then Err(MissingElement(HtmlValuePart))
    else if e.globalId.None? then Err(MissingElement(GlobalIdPart))
    else
      match ParseInt(e.globalId.value)
      case None => Err(NotANumber(e.globalId.value))
      case Some(id) =>
        if e.templateData.None? then Err(MissingElement(TemplateDataPart))
        else
          match DecodeData(e.templateData.value)
          case Err(err) => Err(err)
          case Ok(data) =>
            match DecodeAll(e.children, depth + 1)
            case Err(err) => Err(err)
            case Ok(ts) => Ok(Tree(id, depth, e.htmlValue.value, data, ts))
  }

  /** The subtrees of `es`, all at `depth`; the first failure in order wins. */
  function DecodeAll(es: seq<Element>, depth: int): Result<seq<Tree>, DecodeError>
    decreases es
  {
    if es == [] then Ok([])
    else
      match DecodeAll(es[..|es| - 1], depth)
      case Err(e) => Err(e)
      case Ok(ts) =>
        match Decode(es[|es| - 1], depth)
        case Err(e) => Err(e)
        case Ok(t) => Ok(ts + [t])
  }

  // ---------------------------------------------------------------------
  // Writing a subtree and reading it back
  // ---------------------------------------------------------------------

  /**
   * The element a browser parses out of `Serialize(t, write)`, as
   * deserializeHelper reads it: each part's text as written, each template
   * entry under its own key.
   */
  function ElementOf(t: Tree, write: Value -> string): Element
    decreases t
  {
    Element(Some(t.html), Some(IntToString(t.globalId)), Some(DataElements(t.data, write)), ElementsOf(t.children, write))
  }

  function ElementsOf(ts: seq<Tree>, write: Value -> string): (r: seq<Element>)
    decreases ts
    ensures |r| == |ts|
  {
    if ts == [] then [] else ElementsOf(ts[..|ts| - 1], write) + [ElementOf(ts[|ts| - 1], write)]
  }

  function DataElements(fs: Fields, write: Value -> string): (r: seq<DataElement>)
    ensures |r| == |fs|
  {
    if fs == [] then [] else DataElements(fs[..|fs| - 1], write) + [DataElement(Some(fs[|fs| - 1].0), write(fs[|fs| - 1].1))]
  }

  /** Each template value is written so that DecodeValue reads it back. */
  predicate WritesBack(fs: Fields, write: Value -> string)
  {
    fs != [] ==> WritesBack(fs[..|fs| - 1], write) && DecodeValue(write(fs[|fs| - 1].1)) == Ok(fs[|fs| - 1].1)
  }

  /**
   * A subtree the element of its markup rebuilds: at every node the names
   * are unique and the values are written back, and each child sits one
   * level below its parent.
   */
  predicate Restorable(t: Tree, write: Value -> string)
    decreases t
  {
    && UniqueKeys(t.data) && WritesBack(t.data, write)
    && forall k :: 0 <= k < |t.children| ==> t.children[k].depth == t.depth + 1 && Restorable(t.children[k], write)
  }

  /** The data elements of unique, written-back entries rebuild those entries. */
  lemma {:induction false} DataRestored(fs: Fields, write: Value -> string)
    requires UniqueKeys(fs) && WritesBack(fs, write)
    ensures DecodeData(DataElements(fs, write)) == Ok(fs)
  {
    if fs != [] {
      var n := |fs| - 1;
      var init := fs[..n];
      DataRestored(init, write);
      var des := DataElements(fs, write);
      assert des[..n] == DataElements(init, write);
      PutNext(fs, n);
      assert fs[..n + 1] == fs;
    }
  }

  /** The element of a restorable subtree's markup rebuilds the subtree. */
  lemma {:induction false} TreeRestored(t: Tree, write: Value -> string)
    requires Restorable(t, write)
    decreases t, 1
    ensures Decode(ElementOf(t, write), t.depth) == Ok(t)
  {
    ParseIntToString(t.globalId);
    DataRestored(t.data, write);
    ChildrenRestored(t.children, t.depth + 1, write);
    DecodeElementOf(t, write);
  }

  lemma DecodeElementOf(t: Tree, write: Value -> string)
    requires ParseInt(IntToString(t.globalId)) == Some(t.globalId)
    requires DecodeData(DataElements(t.data, write)) == Ok(t.data)
    requires DecodeAll(ElementsOf(t.children, write), t.depth + 1) == Ok(t.children)
    ensures Decode(ElementOf(t, write), t.depth) == Ok(t)
  {
    DecodeParts(ElementOf(t, write), t.depth, t.globalId, t.data, t.children);
  }

  /** Decode when every part of the element reads back. */
  lemma DecodeParts(e: Element, depth: int, id: int, data: Fields, ts: seq<Tree>)
    requires e.htmlValue.Some? && e.globalId.Some? && e.templateData.Some?
    requires ParseInt(e.globalId.value) == Some(id)
    requires DecodeData(e.templateData.value) == Ok(data)
    requires DecodeAll(e.children, depth + 1) == Ok(ts)
    ensures Decode(e, depth) == Ok(Tree(id, depth, e.htmlValue.value, data, ts))
  {
  }

  lemma {:induction false} ChildrenRestored(ts: seq<Tree>, depth: int, write: Value -> string)
    requires forall k :: 0 <= k < |ts| ==> ts[k].depth == depth && Restorable(ts[k], write)
    decreases ts, 0
    ensures DecodeAll(ElementsOf(ts, write), depth) == Ok(ts)
  {
    if ts != [] {
      var n := |ts| - 1;
      var init := ts[..n];
      assert forall k :: 0 <= k < |init| ==> init[k] == ts[k];
      ChildrenRestored(init, depth, write);
      TreeRestored(ts[n], write);
      ElementsSnoc(ts, depth, write);
    }
  }

  lemma ElementsSnoc(ts: seq<Tree>, depth: int, write: Value -> string)
    requires ts != [] && ts[|ts| - 1].depth == depth
    requires DecodeAll(ElementsOf(ts[..|ts| - 1], write), depth) == Ok(ts[..|ts| - 1])
    requires Decode(ElementOf(ts[|ts| - 1], write), depth) == Ok(ts[|ts| - 1])
    ensures DecodeAll(ElementsOf(ts, write), depth) == Ok(ts)
  {
    var n := |ts| - 1;
    ElementsOfSnoc(ts, write);
    DecodeAllSnoc(ElementsOf(ts[..n], write), ElementOf(ts[n], write), depth, ts[..n], ts[n]);
    SplitLast(ts);
  }

  lemma SplitLast<T>(xs: seq<T>)
    requires xs != []
    ensures xs[..|xs| - 1] + [xs[|xs| - 1]] == xs
  {
  }

  lemma ElementsOfSnoc(ts: seq<Tree>, write: Value -> string)
    requires ts != []
    ensures ElementsOf(ts, write) == ElementsOf(ts[..|ts| - 1], write) + [ElementOf(ts[|ts| - 1], write)]
  {
  }

  /** DecodeAll when the elements before the last and the last one decode. */
  lemma DecodeAllSnoc(init: seq<Element>, e: Element, depth: int, ts: seq<Tree>, t: Tree)
    requires DecodeAll(init, depth) == Ok(ts) && Decode(e, depth) == Ok(t)
    ensures DecodeAll(init + [e], depth) == Ok(ts + [t])
  {
    assert (init + [e])[..|init|] == init;
  }

  /**
   * As written, an object value is read back, and so is a string value
   * whose text is not JSON.
   */
  lemma ValueTextWritesBack(v: Value)
    requires WellFormed(v) && (v.Str? ==> Parse(v.s) == Err(SyntaxError))
    ensures DecodeValue(ValueText(v)) == Ok(v)
  {
    if v.Obj? {
      ParseStringify(v);
    }
  }

  /** The JSON text "{}" parses as the empty object. */
  lemma ParseEmptyObject()
    ensures Parse("{}") == Ok(Obj([]))
  {
    var text := "{}";
    SkipNoSpace(text);
    assert text[1..] == ['}'] + [];
    ParseObjectEmpty([]);
    assert ParseValue(text) == ParseObject(text[1..]);
  }

  /**
   * As written, a string value whose text is JSON is not: a block whose
   * template is the text `{}` comes back with an empty object as template.
   */
  lemma JsonTextStringChanges()
    ensures var t := Tree(1, 0, "", [("template", Str("{}"))], []);
      Decode(ElementOf(t, ValueText), 0) == Ok(t.(data := [("template", Obj([]))])) &&
      Decode(ElementOf(t, ValueText), 0) != Ok(t)
  {
    var t := Tree(1, 0, "", [("template", Str("{}"))], []);
    ParseEmptyObject();
    ParseIntToString(1);
    var des := DataElements(t.data, ValueText);
    assert t.data[..0] == [];
    assert des == [DataElement(Some("template"), "{}")];
    assert des[..0] == [];
    assert DecodeValue("{}") == Ok(Obj([]));
    var data := [("template", Obj([]))];
    assert DecodeData(des) == Ok(data);
    assert ElementsOf([], ValueText) == [];
    DecodeParts(ElementOf(t, ValueText), 0, 1, data, []);
  }

  /** Corrected: every value written as its JSON text, strings included. */
  function ValueTextCorrected(v: Value): string
  {
    Stringify(v)
  }

  /** A subtree whose every object names each property once, with each child one level below its parent. */
  predicate WellFormedTree(t: Tree)
    decreases t
  {
    && WellFormed(Obj(t.data))
    && forall k :: 0 <= k < |t.children| ==> t.children[k].depth == t.depth + 1 && WellFormedTree(t.children[k])
  }

  /** Corrected: every well-formed subtree is written back. */
  lemma {:induction false} CorrectedRestorable(t: Tree)
    requires WellFormedTree(t)
    decreases t
    ensures Restorable(t, ValueTextCorrected)
  {
    CorrectedWritesBack(t.data);
    forall k | 0 <= k < |t.children|
      ensures Restorable(t.children[k], ValueTextCorrected)
    {
      CorrectedRestorable(t.children[k]);
    }
  }

  lemma {:induction false} CorrectedWritesBack(fs: Fields)
    requires forall k :: 0 <= k < |fs| ==> WellFormed(fs[k].1)
    ensures WritesBack(fs, ValueTextCorrected)
  {
    if fs != [] {
      CorrectedWritesBack(fs[..|fs| - 1]);
      ParseStringify(fs[|fs| - 1].1);
    }
  }

  /** Corrected: reading back the markup of any well-formed subtree rebuilds it. */
  lemma CorrectedRoundTrip(t: Tree)
    requires WellFormedTree(t)
    ensures Decode(ElementOf(t, ValueTextCorrected), t.depth) == Ok(t)
  {
    CorrectedRestorable(t);
    TreeRestored(t, ValueTextCorrected);
  }

  // ---------------------------------------------------------------------
  // deserializeHelper
  // ---------------------------------------------------------------------

  /** The error a decoding reports, if any. */
  function ErrorOf<T>(r: Result<T, DecodeError>): (err: Option<DecodeError>)
    ensures err.None? <==> r.Ok?
  {
    if r.Err? then Some(r.error) else None
  }

  /** `after` keeps every node of `before` except `h`, and may have more. */
  ghost predicate Keeps<P>(before: map<Handle, Node<P>>, after: map<Handle, Node<P>>, h: Handle)
  {
    && before.Keys <= after.Keys
    && forall x :: x in before && x != h ==> x in after && after[x] == before[x]
  }

  /** The children of `h` have the subtrees `ts`, in order. */
  ghost predicate ChildrenShaped(s: Store<HtmlData>, h: Handle, ts: seq<Tree>)
    requires Ranked(s) && h in s.nodes
  {
    var ch := s.nodes[h].children;
    |ch| == |ts| && forall j :: 0 <= j < |ts| ==> ch[j] in s.nodes && Shape(s, ch[j]) == ts[j]
  }

  lemma ShapeOfChildren(s: Store<HtmlData>, h: Handle, ts: seq<Tree>)
    requires Ranked(s) && h in s.nodes && ChildrenShaped(s, h, ts)
    ensures Shape(s, h).children == ts
  {
    forall k | 0 <= k < |ts|
      ensures Shape(s, h).children[k] == ts[k]
    {
      ShapeChildren(s, h, k);
    }
  }

  /** A subtree that does not hold `z` is the same in an arena that changes only `z` and adds nodes. */
  lemma ShapeFrame(s: Store<HtmlData>, s': Store<HtmlData>, x: Handle, z: Handle)
    requires Ranked(s) && Ranked(s') && x in s.nodes && z in s.nodes && !Below(s, z, x)
    requires Keeps(s.nodes, s'.nodes, z)
    decreases s.bound - s.rank[x]
    ensures x in s'.nodes && Shape(s', x) == Shape(s, x)
  {
    var ch := s.nodes[x].children;
    assert ChildrenListed(s, x);
    forall k | 0 <= k < |ch|
      ensures Shape(s', x).children[k] == Shape(s, x).children[k]
    {
      ShapeChildren(s, x, k);
      ShapeChildren(s', x, k);
      if Below(s, z, ch[k]) {
        BelowChild(s, z, ch[k], x);
      }
      ShapeFrame(s, s', ch[k], z);
    }
  }

  /** Attaching `n` last under `h` and rebuilding below `n` keeps the earlier children's subtrees. */
  lemma SiblingsKept(s0: Store<HtmlData>, s1: Store<HtmlData>, h: Handle, n: Handle, ts: seq<Tree>)
    requires Ranked(s0) && Ranked(s1) && h in s0.nodes && n !in s0.nodes && ChildrenShaped(s0, h, ts)
    requires Keeps(s0.nodes, s1.nodes, h) && n in s1.nodes
    requires s1.nodes[h].children == s0.nodes[h].children + [n]
    ensures ChildrenShaped(s1, h, ts + [Shape(s1, n)])
  {
    var ch := s0.nodes[h].children;
    forall j | 0 <= j < |ts|
      ensures Shape(s1, ch[j]) == ts[j]
    {
      ChildRank(s0, h, j);
      if Below(s0, h, ch[j]) {
        BelowRank(s0, h, ch[j]);
      }
      ShapeFrame(s0, s1, ch[j], h);
    }
  }

  /** A failure among the first `i` data elements is the failure of them all. */
  lemma {:induction false} DecodeDataErr(des: seq<DataElement>, i: nat)
    requires i <= |des| && DecodeData(des[..i]).Err?
    ensures DecodeData(des) == DecodeData(des[..i])
  {
    if i < |des| {
      var init := des[..|des| - 1];
      assert init[..i] == des[..i];
      DecodeDataErr(init, i);
    } else {
      assert des[..i] == des;
    }
  }

  /** A failure among the first `i` elements is the failure of them all. */
  lemma {:induction false} DecodeAllErr(es: seq<Element>, depth: int, i: nat)
    requires i <= |es| && DecodeAll(es[..i], depth).Err?
    ensures DecodeAll(es, depth) == DecodeAll(es[..i], depth)
  {
    if i < |es| {
      var init := es[..|es| - 1];
      assert init[..i] == es[..i];
      DecodeAllErr(init, depth, i);
    } else {
      assert es[..i] == es;
    }
  }

  /** The loop over the `templatedata` children: each entry stored under its key as JSON.parse reads it. */
  method ReadTemplateData(des: seq<DataElement>) returns (r: Result<Fields, DecodeError>)
    ensures r == DecodeData(des)
  {
    var data: Fields := [];
    for i := 0 to |des|
      invariant DecodeData(des[..i]) == Ok(data)
    {
      assert des[..i + 1][..i] == des[..i];
      var v := DecodeValue(des[i].text);
      if v.Err? {
        DecodeDataErr(des, i + 1);
        return Err(v.error);
      }
      data := Put(data, des[i].key.GetOr("null"), v.value);
    }
    assert des[..|des|] == des;
    return Ok(data);
  }

  /**
   * deserializeHelper on a node without children: sets the markup, the id
   * and the template data read from `e`, then attaches a fresh node per
   * child element and rebuilds it. On success the subtree at `h` is what
   * Decode reads from `e` at the node's depth `d`; on failure the error is
   * Decode's. Either way only `h` and nodes created here change.
   */
  method DeserializeHelper(f: Forest<HtmlData>, h: Handle, e: Element, ghost d: int) returns (err: Option<DecodeError>)
    requires f.Valid() && h in f.nodes && f.nodes[h].children == [] && f.nodes[h].depth == d
    modifies f
    decreases e, 2
    ensures f.Valid() && h in f.nodes && Keeps(old(f.nodes), f.nodes, h)
    ensures f.nodes[h].depth == d && f.nodes[h].parent == old(f.nodes[h].parent)
    ensures err == ErrorOf(Decode(e, d))
    ensures err.None? ==> Shape(f.View(), h) == Decode(e, d).value
  {
    ghost var o := f.nodes;
    KeepsItself(o, h);
    if e.htmlValue.None? {
      return Some(MissingElement(HtmlValuePart));
    }
    f.SetPayload(h, f.nodes[h].payload.(html := e.htmlValue.value));
    KeepsUpdate(o, o, h, f.nodes[h]);
    if e.globalId.None? {
      return Some(MissingElement(GlobalIdPart));
    }
    var id := ParseInt(e.globalId.value);
    if id.None? {
      return Some(NotANumber(e.globalId.value));
    }
    ghost var m := f.nodes;
    f.SetId(h, id.value);
    KeepsUpdate(o, m, h, f.nodes[h]);
    m := f.nodes;
    err := DeserializeData(f, h, e, d, id.value);
    KeepsTrans(o, m, f.nodes, h, h);
  }

  /** The rest of deserializeHelper once the markup and the id are set: the template data, then the children. */
  method DeserializeData(f: Forest<HtmlData>, h: Handle, e: Element, ghost d: int, ghost id: int) returns (err: Option<DecodeError>)
    requires f.Valid() && h in f.nodes && f.nodes[h].children == [] && f.nodes[h].depth == d
    requires e.htmlValue.Some? && e.globalId.Some? && ParseInt(e.globalId.value) == Some(id)
    requires f.nodes[h].payload.html == e.htmlValue.value && f.nodes[h].globalId == id
    modifies f
    decreases e, 1
    ensures f.Valid() && h in f.nodes && Keeps(old(f.nodes), f.nodes, h)
    ensures f.nodes[h].depth == d && f.nodes[h].parent == old(f.nodes[h].parent)
    ensures err == ErrorOf(Decode(e, d))
    ensures err.None? ==> Shape(f.View(), h) == Decode(e, d).value
  {
    DecodeAfterId(e, d, id);
    ghost var o := f.nodes;
    f.SetPayload(h, f.nodes[h].payload.(templateData := []));
    KeepsUpdate(o, o, h, f.nodes[h]);
    if e.templateData.None? {
      return Some(MissingElement(TemplateDataPart));
    }
    var data := ReadTemplateData(e.templateData.value);
    if data.Err? {
      return Some(data.error);
    }
    ghost var m := f.nodes;
    f.SetPayload(h, f.nodes[h].payload.(templateData := data.value));
    KeepsUpdate(o, m, h, f.nodes[h]);
    m := f.nodes;
    err := AttachChildren(f, h, e, d);
    KeepsTrans(o, m, f.nodes, h, h);
    if err.None? {
      ShapeOfChildren(f.View(), h, DecodeAll(e.children, d + 1).value);
    }
  }

  /** How Decode ends once the markup and the id are read. */
  lemma DecodeAfterId(e: Element, d: int, id: int)
    requires e.htmlValue.Some? && e.globalId.Some? && ParseInt(e.globalId.value) == Some(id)
    ensures e.templateData.None? ==> Decode(e, d) == Err(MissingElement(TemplateDataPart))
    ensures e.templateData.Some? && DecodeData(e.templateData.value).Err? ==>
              Decode(e, d) == Err(DecodeData(e.templateData.value).error)
    ensures e.templateData.Some? && DecodeData(e.templateData.value).Ok? && DecodeAll(e.children, d + 1).Err? ==>
              Decode(e, d) == Err(DecodeAll(e.children, d + 1).error)
    ensures e.templateData.Some? && DecodeData(e.templateData.value).Ok? && DecodeAll(e.children, d + 1).Ok? ==>
              Decode(e, d) == Ok(Tree(id, d, e.htmlValue.value, DecodeData(e.templateData.value).value, DecodeAll(e.children, d + 1).value))
  {
  }

  lemma KeepsItself<P>(a: map<Handle, Node<P>>, h: Handle)
    ensures Keeps(a, a, h)
  {
  }

  lemma KeepsUpdate<P>(a: map<Handle, Node<P>>, b: map<Handle, Node<P>>, h: Handle, x: Node<P>)
    requires Keeps(a, b, h)
    ensures Keeps(a, b[h := x], h)
  {
  }

  /** The loop over the `children` element: a fresh node attached last and rebuilt from each child element in turn. */
  method AttachChildren(f: Forest<HtmlData>, h: Handle, e: Element, ghost d: int) returns (err: Option<DecodeError>)
    requires f.Valid() && h in f.nodes && f.nodes[h].children == [] && f.nodes[h].depth == d
    modifies f
    decreases e, 0
    ensures f.Valid() && h in f.nodes && Keeps(old(f.nodes), f.nodes, h)
    ensures f.nodes[h] == old(f.nodes[h]).(children := f.nodes[h].children)
    ensures err == ErrorOf(DecodeAll(e.children, d + 1))
    ensures err.None? ==> ChildrenShaped(f.View(), h, DecodeAll(e.children, d + 1).value)
  {
    ghost var ts: seq<Tree> := [];
    var children := e.children;
    err := None;
    for i := 0 to |children|
      invariant f.Valid() && h in f.nodes && Keeps(old(f.nodes), f.nodes, h)
      invariant f.nodes[h] == old(f.nodes[h]).(children := f.nodes[h].children)
      invariant DecodeAll(children[..i], d + 1) == Ok(ts)
      invariant ChildrenShaped(f.View(), h, ts)
    {
      ghost var s0 := f.View();
      var n, cerr := AttachChild(f, h, children[i], d + 1);
      ChildAttached(old(f.nodes), s0, f.View(), h, n, children, i, d, ts, cerr);
      if cerr.Some? {
        return cerr;
      }
      ts := ts + [Shape(f.View(), n)];
    }
    assert children[..|children|] == children;
  }

  /** What one turn of that loop keeps and what it adds, stated on the arenas before and after it. */
  lemma ChildAttached(o: map<Handle, Node<HtmlData>>, s0: Store<HtmlData>, s1: Store<HtmlData>, h: Handle, n: Handle,
                      children: seq<Element>, i: nat, d: int, ts: seq<Tree>, cerr: Option<DecodeError>)
    requires Ranked(s0) && Ranked(s1) && h in s0.nodes && n !in s0.nodes && n in s1.nodes
    requires Keeps(o, s0.nodes, h) && Keeps(s0.nodes, s1.nodes, h)
    requires s1.nodes[h] == s0.nodes[h].(children := s0.nodes[h].children + [n])
    requires i < |children| && DecodeAll(children[..i], d + 1) == Ok(ts) && ChildrenShaped(s0, h, ts)
    requires cerr == ErrorOf(Decode(children[i], d + 1))
    requires cerr.None? ==> Shape(s1, n) == Decode(children[i], d + 1).value
    ensures Keeps(o, s1.nodes, h)
    ensures cerr.Some? ==> DecodeAll(children, d + 1) == Err(cerr.value)
    ensures cerr.None? ==> DecodeAll(children[..i + 1], d + 1) == Ok(ts + [Shape(s1, n)])
    ensures cerr.None? ==> ChildrenShaped(s1, h, ts + [Shape(s1, n)])
  {
    KeepsTrans(o, s0.nodes, s1.nodes, h, h);
    SiblingsKept(s0, s1, h, n, ts);
    DecodeAllStep(children, i, d + 1, ts, Shape(s1, n), cerr);
    if cerr.Some? {
      DecodeAllErr(children, d + 1, i + 1);
    }
  }

  /** One turn of that loop: `new BlreHtmlBuilderNode()`, `addChild`, then deserializeHelper on it. */
  method AttachChild(f: Forest<HtmlData>, h: Handle, c: Element, ghost cd: int) returns (n: Handle, err: Option<DecodeError>)
    requires f.Valid() && h in f.nodes && f.nodes[h].depth + 1 == cd
    modifies f
    decreases c, 3
    ensures f.Valid() && h in f.nodes && n !in old(f.nodes) && n in f.nodes
    ensures Keeps(old(f.nodes), f.nodes, h)
    ensures f.nodes[h] == old(f.nodes[h]).(children := old(f.nodes[h].children) + [n])
    ensures err == ErrorOf(Decode(c, cd))
    ensures err.None? ==> Shape(f.View(), n) == Decode(c, cd).value
  {
    n := NewChild(f, h);
    ghost var s2 := f.nodes;
    err := DeserializeHelper(f, n, c, cd);
    KeepsTrans(old(f.nodes), s2, f.nodes, h, n);
  }

  /** `new BlreHtmlBuilderNode()` attached last under `h`: empty markup, no template data, the next global id. */
  method NewChild(f: Forest<HtmlData>, h: Handle) returns (n: Handle)
    requires f.Valid() && h in f.nodes
    modifies f
    ensures f.Valid() && n !in old(f.nodes) && n in f.nodes && h in f.nodes && h != n
    ensures f.nodes[n] == Node(old(f.nextId), old(f.nodes[h].depth) + 1, Some(h), [], HtmlData("", []))
    ensures f.nodes[h] == old(f.nodes[h]).(children := old(f.nodes[h].children) + [n])
    ensures f.nodes == old(f.nodes)[n := f.nodes[n]][h := f.nodes[h]]
    ensures f.nextId == old(f.nextId) + 1
  {
    ghost var s0 := f.nodes;
    n := f.NewNode(HtmlData("", []));
    ghost var node := f.nodes[n];
    NotBelowUnreferenced(f.View(), h, n);
    f.AddChild(h, n, None);
    AddFreshChild(s0, h, n, node);
  }

  /** The arena after a fresh `node` is added as `n` and attached last under `h`. */
  lemma AddFreshChild(s0: map<Handle, Node<HtmlData>>, h: Handle, n: Handle, node: Node<HtmlData>)
    requires h in s0 && n !in s0
    ensures var m := AddChildNodes(s0[n := node], h, n, None);
      && m[n] == node.(depth := s0[h].depth + 1, parent := Some(h))
      && m[h] == s0[h].(children := s0[h].children + [n])
      && m == s0[n := m[n]][h := m[h]]
  {
    assert InsertAt(s0[h].children, None, n) == s0[h].children + [n];
  }

  lemma KeepsTrans<P>(a: map<Handle, Node<P>>, b: map<Handle, Node<P>>, c: map<Handle, Node<P>>, h: Handle, n: Handle)
    requires Keeps(a, b, h) && Keeps(b, c, n) && (n == h || n !in a)
    ensures Keeps(a, c, h)
  {
  }

  /** DecodeAll on one more element, given what the element decodes to. */
  lemma DecodeAllStep(es: seq<Element>, i: nat, depth: int, ts: seq<Tree>, t: Tree, err: Option<DecodeError>)
    requires i < |es| && DecodeAll(es[..i], depth) == Ok(ts)
    requires err == ErrorOf(Decode(es[i], depth)) && (err.None? ==> t == Decode(es[i], depth).value)
    ensures err.Some? ==> DecodeAll(es[..i + 1], depth) == Err(err.value)
    ensures err.None? ==> DecodeAll(es[..i + 1], depth) == Ok(ts + [t])
  {
    assert es[..i + 1][..i] == es[..i];
    assert es[..i + 1][i] == es[i];
  }
}
