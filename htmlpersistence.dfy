/**
 * The persistence handlers the HTML composite binds on the event bus
 * (the `blre-html-persistance-*` events of
 * RescueEditor/js/persistance/html/html-composite.js): they keep the
 * module-level `htmlRoot` and answer create, add, look-up, update, render,
 * delete, serialize and deserialize requests on it.
 *
 * A handler's return value is `Ok`; what the JavaScript would throw (a
 * property read on the undefined `htmlRoot` or on the null that findFirst
 * returns) is an `Err`.
 */
module HtmlPersistence {
  import opened Wrappers
  import opened Json
  import opened Selectors
  import opened Composite
  import opened HtmlTemplating
  import opened HtmlComposite

  /** Why a handler throws. */
  datatype HandlerError =
    | NoRoot                       // htmlRoot is still undefined
    | NoSuchBlock(id: int)         // findFirst found no node with that gId
    | NoParent(id: int)            // delete-node on the root: node.parent is undefined
    | Unreadable(cause: DecodeError)

  // ---------------------------------------------------------------------
  // Looking a block up by its id
  // ---------------------------------------------------------------------

  /** The traversal findFirst runs from the root: breadth first, no depth limit, root included. */
  ghost function FromRoot(s: Store<HtmlData>, root: Handle): (r: seq<Handle>)
    requires Ranked(s) && root in s.nodes
    ensures AllIn(s, r)
  {
    Traverse(s, [root], Limit(None, s.nodes[root].depth), None)
  }

  /** `htmlRoot.findFirst([{gId: id}])`. */
  ghost function Addressed(s: Store<HtmlData>, root: Handle, id: int): (r: Option<Handle>)
    requires Ranked(s) && root in s.nodes
    ensures r.Some? ==> r.value in s.nodes
  {
    Head(Matching(s, FromRoot(s, root), [ById(id)]))
  }

  /** The node a handler works on, or why it throws before reaching one. */
  ghost function Lookup(s: Store<HtmlData>, root: Option<Handle>, id: int): (r: Result<Handle, HandlerError>)
    requires Ranked(s) && (root.Some? ==> root.value in s.nodes)
    ensures r.Ok? ==> r.value in s.nodes
  {
    if root.None? then Err(NoRoot)
    else
      var x := Addressed(s, root.value, id);
      if x.None? then Err(NoSuchBlock(id)) else Ok(x.value)
  }

  /**
   * For a non-zero id the block found is the first node of the traversal
   * carrying that id, and none is found when no traversed node carries it.
   */
  lemma AddressedById(s: Store<HtmlData>, root: Handle, id: int) returns (i: nat)
    requires Ranked(s) && root in s.nodes && id != 0
    ensures var x := Addressed(s, root, id); var vs := FromRoot(s, root);
            && (x.Some? ==> i < |vs| && vs[i] == x.value && s.nodes[x.value].globalId == id &&
                            forall k :: 0 <= k < i ==> s.nodes[vs[k]].globalId != id)
            && (x.None? ==> forall k :: 0 <= k < |vs| ==> s.nodes[vs[k]].globalId != id)
  {
    var vs := FromRoot(s, root);
    var sel := [ById(id)];
    HeadMatchingIsFirst(s, vs, sel);
    forall k | 0 <= k < |vs|
      ensures NodeMatches(s, vs[k], sel) <==> s.nodes[vs[k]].globalId == id
    {
      SingleIdSelector(IdChain(s, vs[k]), id);
    }
    var f := FirstMatchIndex(s, vs, sel);
    i := if f.Some? then f.value else 0;
  }

  /** A zero (falsy) gId matches every node, so it addresses the root itself. */
  lemma AddressedZero(s: Store<HtmlData>, root: Handle)
    requires Ranked(s) && root in s.nodes
    ensures Addressed(s, root, 0) == Some(root)
  {
    var vs := FromRoot(s, root);
    assert vs[0] == root;
    ZeroIdSelector(IdChain(s, root));
    HeadMatchingIsFirst(s, vs, [ById(0)]);
  }

  /** Creating a node nobody points at, or changing payloads, changes no look-up. */
  lemma LookupExtends(s: Store<HtmlData>, t: Store<HtmlData>, root: Option<Handle>, id: int)
    requires Ranked(s) && Ranked(t) && Extends(s, t) && (root.Some? ==> root.value in s.nodes)
    ensures (root.Some? ==> root.value in t.nodes) && Lookup(t, root, id) == Lookup(s, root, id)
  {
    if root.Some? {
      var r := root.value;
      var limit := Limit(None, s.nodes[r].depth);
      VisitExtends(s, t, [r], limit, None, MaxId(0));
      MatchingExtends(s, t, FromRoot(s, r), [ById(id)]);
    }
  }

  /** Every node a look-up finds, other than the root, is listed among its parent's children. */
  lemma LookupHangsFrom(s: Store<HtmlData>, root: Handle, id: int)
    requires Ranked(s) && root in s.nodes
    ensures var x := Addressed(s, root, id); x.Some? ==> HangsFrom(s, root, x.value)
  {
    var vs := FromRoot(s, root);
    VisitHangsFrom(s, root, [root], Limit(None, s.nodes[root].depth), None, MaxId(0));
    var x := Addressed(s, root, id);
    if x.Some? {
      HeadMatchingIsFirst(s, vs, [ById(id)]);
    }
  }

  /** A childless node renders as its own markup with an empty children region. */
  lemma RenderLeaf(s: Store<HtmlData>, h: Handle)
    requires Ranked(s) && h in s.nodes && s.nodes[h].children == []
    ensures Render(Shape(s, h)) == InsertChildrenHtml(s.nodes[h].payload.html, "")
  {
    assert Shape(s, h).children == [];
  }

  // ---------------------------------------------------------------------
  // The handlers
  // ---------------------------------------------------------------------

  /** The closure of the bound handlers: the arena of all nodes and `htmlRoot`. */
  class Persistence {
    const forest: Forest<HtmlData>
    var root: Option<Handle>

    /** The root, once set, is a parentless node of the arena. */
    ghost predicate Valid()
      reads this, forest
    {
      forest.Valid() && (root.Some? ==> root.value in forest.nodes && forest.nodes[root.value].parent.None?)
    }

    /** The module before any handler ran: `let htmlRoot;`. */
    constructor(f: Forest<HtmlData>)
      requires f.Valid()
      ensures Valid() && forest == f && root.None?
    {
      forest := f;
      root := None;
    }

    /** findFirst from the root with the selector `[{gId: id}]`. */
    method Locate(id: int) returns (r: Result<Handle, HandlerError>)
      requires Valid()
      ensures r == Lookup(forest.View(), root, id)
    {
      if root.None? {
        return Err(NoRoot);
      }
      var x := forest.FindFirst(root.value, [ById(id)], NoOptions);
      if x.None? {
        return Err(NoSuchBlock(id));
      }
      return Ok(x.value);
    }

    /** create-root: a new root node with the root markup; answers its id and its rendering. */
    method CreateRoot(html: string) returns (id: int, rendered: string)
      requires Valid()
      modifies this, forest
      ensures Valid() && root.Some? && root.value !in old(forest.nodes)
      ensures forest.nodes == old(forest.nodes)[root.value := Node(old(forest.nextId), 0, None, [], HtmlData(html, []))]
      ensures forest.nextId == old(forest.nextId) + 1
      ensures id == old(forest.nextId) && rendered == InsertChildrenHtml(html, "")
    {
      var h := forest.NewNode(HtmlData(html, []));
      root := Some(h);
      id := forest.nodes[h].globalId;
      rendered := RenderHtml(forest, h);
      RenderLeaf(forest.View(), h);
    }

    /**
     * add-new-node: the node is created (and takes the next id) before its
     * parent is looked up, so the counter moves even when the parent is
     * missing; the new node is inserted at `index` and answered with its
     * id and rendering.
     */
    method AddNewNode(html: string, data: Fields, parentId: int, index: Option<int>)
      returns (r: Result<(int, string), HandlerError>, ghost n: Handle)
      requires Valid()
      modifies forest
      ensures Valid() && n !in old(forest.nodes) && forest.nextId == old(forest.nextId) + 1
      ensures var made := old(forest.nodes)[n := Node(old(forest.nextId), 0, None, [], HtmlData(html, data))];
              var p := Lookup(old(forest.View()), root, parentId);
              && (p.Err? ==> r == Err(p.error) && forest.nodes == made)
              && (p.Ok? ==> r == Ok((old(forest.nextId), InsertChildrenHtml(html, ""))) &&
                            forest.nodes == AddChildNodes(made, p.value, n, index))
    {
      ghost var s := forest.View();
      var h := forest.NewNode(HtmlData(html, data));
      n := h;
      var id := forest.nodes[h].globalId;
      LookupExtends(s, forest.View(), root, parentId);
      var p := Locate(parentId);
      if p.Err? {
        r := Err(p.error);
        return;
      }
      var rendered := Attach(p.value, h, index);
      r := Ok((id, rendered));
    }

    /** `parent.addChild(node, index)` on a node just created, then `node.renderHtml()`. */
    method Attach(p: Handle, h: Handle, index: Option<int>) returns (rendered: string)
      requires Valid() && p in forest.nodes && h in forest.nodes && p != h && root != Some(h)
      requires forest.nodes[h].parent.None? && forest.nodes[h].children == []
      requires forall x :: x in forest.nodes ==> forest.nodes[x].parent != Some(h)
      modifies forest
      ensures Valid() && forest.nextId == old(forest.nextId)
      ensures forest.nodes == AddChildNodes(old(forest.nodes), p, h, index)
      ensures rendered == InsertChildrenHtml(old(forest.nodes)[h].payload.html, "")
    {
      NotBelowUnreferenced(forest.View(), p, h);
      forest.AddChild(p, h, index);
      rendered := RenderHtml(forest, h);
      RenderLeaf(forest.View(), h);
    }

    /** get-node-template-data: the template data of the block. */
    method GetNodeTemplateData(blockId: int) returns (r: Result<Fields, HandlerError>)
      requires Valid()
      ensures var x := Lookup(forest.View(), root, blockId);
              r == if x.Err? then Err(x.error) else Ok(forest.nodes[x.value].payload.templateData)
    {
      var x := Locate(blockId);
      if x.Err? {
        return Err(x.error);
      }
      return Ok(forest.nodes[x.value].payload.templateData);
    }

    /** update-node: the block's markup and template data are replaced; nothing else changes. */
    method UpdateNode(blockId: int, html: string, data: Fields) returns (r: Result<(), HandlerError>)
      requires Valid()
      modifies forest
      ensures Valid() && forest.nextId == old(forest.nextId)
      ensures var x := Lookup(old(forest.View()), root, blockId);
              && (x.Err? ==> r == Err(x.error) && forest.nodes == old(forest.nodes))
              && (x.Ok? ==> r == Ok(()) &&
                            forest.nodes == old(forest.nodes)[x.value := old(forest.nodes)[x.value].(payload := HtmlData(html, data))])
    {
      var x := Locate(blockId);
      if x.Err? {
        return Err(x.error);
      }
      SetBlock(x.value, html, data);
      return Ok(());
    }

    /** `node.html = ...; node.templateData = ...`. */
    method SetBlock(h: Handle, html: string, data: Fields)
      requires Valid() && h in forest.nodes
      modifies forest
      ensures Valid() && forest.nextId == old(forest.nextId)
      ensures forest.nodes == old(forest.nodes)[h := old(forest.nodes)[h].(payload := HtmlData(html, data))]
    {
      forest.SetPayload(h, forest.nodes[h].payload.(html := html));
      forest.SetPayload(h, forest.nodes[h].payload.(templateData := data));
    }

    /** render-node-html: the rendering of the block's subtree. */
    method RenderNodeHtml(blockId: int) returns (r: Result<string, HandlerError>)
      requires Valid()
      ensures var x := Lookup(forest.View(), root, blockId);
              r == if x.Err? then Err(x.error) else Ok(Render(Shape(forest.View(), x.value)))
    {
      var x := Locate(blockId);
      if x.Err? {
        return Err(x.error);
      }
      var html := RenderHtml(forest, x.value);
      return Ok(html);
    }

    /** preview-next-global-id: the id the next created node takes, without taking it. */
    method PreviewNextGlobalId() returns (id: int)
      requires Valid()
      ensures id == forest.nextId
    {
      id := forest.nextId;
    }

    /**
     * delete-node: the block's parent drops its first child carrying the
     * block's id. The root has no parent and the call throws.
     */
    method DeleteNode(blockId: int) returns (r: Result<(), HandlerError>)
      requires Valid()
      modifies forest
      ensures Valid() && forest.nextId == old(forest.nextId)
      ensures var x := Lookup(old(forest.View()), root, blockId);
              && (x.Err? ==> r == Err(x.error) && forest.nodes == old(forest.nodes))
              && (x.Ok? && old(forest.nodes)[x.value].parent.None? ==>
                    r == Err(NoParent(blockId)) && forest.nodes == old(forest.nodes))
              && (x.Ok? && old(forest.nodes)[x.value].parent.Some? ==>
                    var p := old(forest.nodes)[x.value].parent.value;
                    p in old(forest.nodes) && r == Ok(()) &&
                    var idx := IndexOfId(old(forest.nodes), old(forest.nodes)[p].children, old(forest.nodes)[x.value].globalId);
                    idx.Some? &&
                    forest.nodes == old(forest.nodes)[p := old(forest.nodes)[p].(children := RemoveIndex(old(forest.nodes)[p].children, idx.value))])
    {
      var x := Locate(blockId);
      if x.Err? {
        return Err(x.error);
      }
      var h := x.value;
      var parent := forest.nodes[h].parent;
      if parent.None? {
        return Err(NoParent(blockId));
      }
      DeleteFindsChild(forest.View(), root.value, blockId);
      var removed := forest.RemoveChild(parent.value, h);
      return Ok(());
    }

    /** serialize: the root's subtree as JSON text. */
    method Serialize() returns (r: Result<string, HandlerError>)
      requires Valid()
      ensures root.None? ==> r == Err(NoRoot)
      ensures root.Some? ==> r == Ok(Stringify(Str(HtmlComposite.Serialize(Shape(forest.View(), root.value), ValueText))))
    {
      if root.None? {
        return Err(NoRoot);
      }
      var text := SerializeXml(forest, root.value);
      return Ok(text);
    }

    /**
     * deserialize: a new root is built from the parsed markup, and the
     * counter is set one past the largest id in it. The new root replaces
     * `htmlRoot` before the markup is read, also when reading it fails.
     */
    method Deserialize(e: Element) returns (r: Result<Handle, HandlerError>)
      requires Valid()
      modifies this, forest
      ensures Valid() && root.Some? && root.value !in old(forest.nodes)
      ensures Keeps(old(forest.nodes), forest.nodes, root.value)
      ensures r.Err? <==> Decode(e, 0).Err?
      ensures r.Err? ==> r.error == Unreadable(Decode(e, 0).error)
      ensures r.Ok? ==> r.value == root.value && Shape(forest.View(), root.value) == Decode(e, 0).value
      ensures r.Ok? ==> forest.nextId == MaxOf(forest.View(), 0, FromRoot(forest.View(), root.value)) + 1
      ensures r.Ok? && Shallow(forest.View(), Pre(forest.View(), [root.value]), Limit(None, 0)) ==>
                forall x :: x in Pre(forest.View(), [root.value]) ==> forest.nodes[x].globalId < forest.nextId
    {
      ghost var o := forest.nodes;
      var h := forest.NewNode(HtmlData("", []));
      root := Some(h);
      ghost var m := forest.nodes;
      assert Keeps(o, m, h);
      var err := DeserializeHelper(forest, h, e, 0);
      KeepsTrans(o, m, forest.nodes, h, h);
      if err.Some? {
        return Err(Unreadable(err.value));
      }
      var greatest := forest.GetGreatestGlobalId(h);
      forest.SetGlobalId(greatest + 1);
      return Ok(h);
    }
  }

  /** The node delete-node finds, when it has a parent, is listed by that parent under its own id. */
  lemma DeleteFindsChild(s: Store<HtmlData>, root: Handle, id: int)
    requires Ranked(s) && root in s.nodes && s.nodes[root].parent.None?
    requires Addressed(s, root, id).Some?
    ensures var x := Addressed(s, root, id).value; var p := s.nodes[x].parent;
            p.Some? ==> p.value in s.nodes && IndexOfId(s.nodes, s.nodes[p.value].children, s.nodes[x].globalId).Some?
  {
    LookupHangsFrom(s, root, id);
    var x := Addressed(s, root, id).value;
    var p := s.nodes[x].parent;
    if p.Some? {
      assert ChildrenListed(s, p.value);
      var ch := s.nodes[p.value].children;
      var k :| 0 <= k < |ch| && ch[k] == x;
    }
  }
}
