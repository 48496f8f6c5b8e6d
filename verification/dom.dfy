/** The part of the browser DOM the runtime touches, as a finite map of
    element ids. Markup is opaque: a swap records which strings were put where
    but never parses them into new elements, so the set of element ids is fixed
    and an element object kept by a timer stays valid after it leaves the
    document. */
module Dom {
  import opened Wrappers
  import opened Text

  type NodeId = nat

  /** `element.tagName` as far as the runtime distinguishes it. */
  datatype Tag = Form | Input | TextArea | Select | OtherTag

  /** Where an element hangs: under the document itself (the root element),
      under another element (`parentElement`), or nowhere. */
  datatype Parent = Doc | Elem(id: NodeId) | Detached

  /** One element. `depth` is the number of element ancestors; it makes the
      parent relation acyclic. `inner` is the element's content as markup
      chunks, `before`/`after` the sibling markup inserted next to it, and
      `replacedBy` the markup that took its place after an `outerHTML`. */
  datatype Node = Node(parent: Parent, depth: nat, tag: Tag, attrs: map<string, string>,
                       value: string, formEntries: seq<(string, string)>,
                       before: seq<string>, inner: seq<string>, after: seq<string>,
                       replacedBy: Option<string>)

  datatype Dom = Dom(nodes: map<NodeId, Node>)

  /** Every element's parent element exists and is shallower. */
  predicate WellFormed(dom: Dom) {
    forall n | n in dom.nodes ::
      dom.nodes[n].parent.Elem? ==>
        dom.nodes[n].parent.id in dom.nodes
        && dom.nodes[dom.nodes[n].parent.id].depth < dom.nodes[n].depth
  }

  /** Two states with the same elements hanging in the same places. */
  predicate SameShape(a: Dom, b: Dom) {
    && a.nodes.Keys == b.nodes.Keys
    && forall n | n in a.nodes ::
         b.nodes[n].parent == a.nodes[n].parent && b.nodes[n].depth == a.nodes[n].depth
  }

  lemma SameShapeKeepsWellFormed(a: Dom, b: Dom)
    requires WellFormed(a) && SameShape(a, b)
    ensures WellFormed(b)
  {
  }

  // ----- attributes -----

  /** `getAttribute(name)`: `null` when absent. */
  function GetAttr(dom: Dom, n: NodeId, name: string): Option<string>
    requires n in dom.nodes
  {
    if name in dom.nodes[n].attrs then Some(dom.nodes[n].attrs[name]) else None
  }

  /** `hasAttribute(name)`: present, whatever its value. */
  predicate HasAttr(dom: Dom, n: NodeId, name: string)
    requires n in dom.nodes
  {
    name in dom.nodes[n].attrs
  }

  /** `setAttribute(name, v)`: only that attribute of that element changes. */
  function SetAttr(dom: Dom, n: NodeId, name: string, v: string): (r: Dom)
    requires n in dom.nodes
    ensures SameShape(dom, r)
    ensures r.nodes[n].attrs == dom.nodes[n].attrs[name := v]
    ensures r.nodes[n] == dom.nodes[n].(attrs := r.nodes[n].attrs)
    ensures forall m | m in dom.nodes && m != n :: r.nodes[m] == dom.nodes[m]
  {
    var node := dom.nodes[n];
    Dom(dom.nodes[n := node.(attrs := node.attrs[name := v])])
  }

  // ----- the parent relation -----

  /** `a.contains(b)`: `b` is `a` or one of its descendants. */
  predicate ContainsNode(dom: Dom, a: NodeId, b: NodeId)
    requires b in dom.nodes
    decreases dom.nodes[b].depth
  {
    b == a ||
      (var p := dom.nodes[b].parent;
       p.Elem? && p.id in dom.nodes && dom.nodes[p.id].depth < dom.nodes[b].depth
       && ContainsNode(dom, a, p.id))
  }

  /** The chain `n`, `n.parentElement`, `n.parentElement.parentElement`, …
      up to the element with no parent element. */
  function Ancestors(dom: Dom, n: NodeId): (path: seq<NodeId>)
    requires WellFormed(dom) && n in dom.nodes
    ensures |path| >= 1 && path[0] == n
    ensures forall i | 0 <= i < |path| :: path[i] in dom.nodes
    ensures forall i | 0 <= i < |path| - 1 ::
              dom.nodes[path[i]].parent == Elem(path[i + 1])
    ensures !dom.nodes[path[|path| - 1]].parent.Elem?
    ensures forall i | 0 <= i < |path| - 1 ::
              dom.nodes[path[i + 1]].depth < dom.nodes[path[i]].depth
    decreases dom.nodes[n].depth
  {
    match dom.nodes[n].parent
    case Elem(p) => [n] + Ancestors(dom, p)
    case _ => [n]
  }

  /** The chain depends on the shape of the tree only. */
  lemma {:induction false} AncestorsSameShape(a: Dom, b: Dom, n: NodeId)
    requires WellFormed(a) && SameShape(a, b) && n in a.nodes
    ensures WellFormed(b) && Ancestors(a, n) == Ancestors(b, n)
    decreases a.nodes[n].depth
  {
    SameShapeKeepsWellFormed(a, b);
    if a.nodes[n].parent.Elem? {
      AncestorsSameShape(a, b, a.nodes[n].parent.id);
    }
  }

  /** The ancestor chain holds no element twice. */
  lemma {:induction false} AncestorsDistinct(dom: Dom, n: NodeId)
    requires WellFormed(dom) && n in dom.nodes
    ensures forall i, j | 0 <= i < j < |Ancestors(dom, n)| ::
              dom.nodes[Ancestors(dom, n)[j]].depth < dom.nodes[Ancestors(dom, n)[i]].depth
    decreases dom.nodes[n].depth
  {
    var path := Ancestors(dom, n);
    if dom.nodes[n].parent.Elem? {
      var p := dom.nodes[n].parent.id;
      AncestorsDistinct(dom, p);
      assert path[1..] == Ancestors(dom, p);
    }
  }

  /** `ContainsNode` and the ancestor chain agree: `a` contains `b` exactly when
      `a` lies on `b`'s chain. */
  lemma {:induction false} ContainsIffOnChain(dom: Dom, a: NodeId, b: NodeId)
    requires WellFormed(dom) && b in dom.nodes
    ensures ContainsNode(dom, a, b) <==> a in Ancestors(dom, b)
    decreases dom.nodes[b].depth
  {
    if dom.nodes[b].parent.Elem? {
      var p := dom.nodes[b].parent.id;
      ContainsIffOnChain(dom, a, p);
      assert Ancestors(dom, b) == [b] + Ancestors(dom, p);
    }
  }

  // ----- structural edits -----

  /** Every child element of `n` leaves the document. */
  function DetachChildren(dom: Dom, n: NodeId): (r: Dom)
    ensures r.nodes.Keys == dom.nodes.Keys
    ensures forall m | m in dom.nodes ::
      r.nodes[m] == if dom.nodes[m].parent == Elem(n) then dom.nodes[m].(parent := Detached) else dom.nodes[m]
  {
    Dom(map m | m in dom.nodes ::
          if dom.nodes[m].parent == Elem(n) then dom.nodes[m].(parent := Detached) else dom.nodes[m])
  }

  /** Replace element `n` by `node` and leave every other element alone. */
  function Put(dom: Dom, n: NodeId, node: Node): (r: Dom)
    requires n in dom.nodes
    ensures r.nodes.Keys == dom.nodes.Keys && r.nodes[n] == node
    ensures forall m | m in dom.nodes && m != n :: r.nodes[m] == dom.nodes[m]
  {
    Dom(dom.nodes[n := node])
  }

  /** Detaching removes parent links and never adds one, so the depth
      ordering survives. */
  lemma DetachChildrenKeepsWellFormed(dom: Dom, n: NodeId)
    requires WellFormed(dom)
    ensures WellFormed(DetachChildren(dom, n))
  {
  }
}
