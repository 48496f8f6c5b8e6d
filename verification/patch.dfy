/** Applying one update to the page: `performSwap` (the eight swap styles)
    and `handleShowScroll`/`scrollIntoView` (where the page scrolls after the
    update settled). Both browser runtimes share this code unchanged. */
module Patch {
  import opened Wrappers
  import opened Text
  import opened Dom
  import SwapSpec

  /** The swap styles `performSwap` distinguishes. */
  datatype Style = InnerHTML | OuterHTML | BeforeBegin | AfterBegin | BeforeEnd | AfterEnd | Delete | NoSwap

  /** `swapSpec.style || 'innerHTML'` followed by the `switch`: any string the
      switch does not list falls to the `default` branch, which is the
      `innerHTML` branch again. */
  function StyleOf(style: string): (r: Style)
    ensures r == InnerHTML <==> style !in {"outerHTML", "beforebegin", "afterbegin", "beforeend", "afterend", "delete", "none"}
    ensures r == NoSwap <==> style == "none"
    ensures r == Delete <==> style == "delete"
  {
    match style
    case "outerHTML" => OuterHTML
    case "beforebegin" => BeforeBegin
    case "afterbegin" => AfterBegin
    case "beforeend" => BeforeEnd
    case "afterend" => AfterEnd
    case "delete" => Delete
    case "none" => NoSwap
    case _ => InnerHTML
  }

  /** The outcome of a swap. Setting `outerHTML` on the root element, or
      inserting next to an element that has no parent element, raises a
      `NoModificationAllowedError`, which ends the timer callback. */
  datatype Outcome = Swapped(dom: Dom) | Threw

  /** What every style other than `innerHTML` does to the target element
      itself; `None` when the browser throws. */
  function EditTarget(node: Node, style: Style, html: string): (r: Option<Node>)
    requires style != InnerHTML
    ensures r.None? <==> (style == OuterHTML && node.parent == Doc)
                         || ((style == BeforeBegin || style == AfterEnd) && !node.parent.Elem?)
    ensures r.Some? ==> r.value.depth == node.depth
                        && (r.value.parent == node.parent || r.value.parent == Detached)
  {
    match style
    case OuterHTML =>
      if node.parent == Doc then None
      else if node.parent == Detached then Some(node)
      else Some(node.(parent := Detached, replacedBy := Some(html)))
    case BeforeBegin =>
      if node.parent.Elem? then Some(node.(before := node.before + [html])) else None
    case AfterBegin => Some(node.(inner := [html] + node.inner))
    case BeforeEnd => Some(node.(inner := node.inner + [html]))
    case AfterEnd =>
      if node.parent.Elem? then Some(node.(after := [html] + node.after)) else None
    case Delete => Some(node.(parent := Detached))
    case NoSwap => Some(node)
  }

  /** Replacing an element by one at the same depth that keeps or drops its
      parent link keeps the tree well formed. */
  lemma PutKeepsWellFormed(dom: Dom, n: NodeId, node: Node)
    requires WellFormed(dom) && n in dom.nodes
    requires node.depth == dom.nodes[n].depth
    requires node.parent == dom.nodes[n].parent || node.parent == Detached
    ensures WellFormed(Put(dom, n, node))
  {
  }

  /** `performSwap(element, html, swapSpec)` on element `n`. */
  function PerformSwap(dom: Dom, n: NodeId, html: string, spec: SwapSpec.Spec): (r: Outcome)
    requires WellFormed(dom) && n in dom.nodes
    ensures r.Threw? <==>
      var style := StyleOf(spec.style);
      var parent := dom.nodes[n].parent;
      (style == OuterHTML && parent == Doc) || ((style == BeforeBegin || style == AfterEnd) && !parent.Elem?)
    ensures r.Swapped? ==> r.dom.nodes.Keys == dom.nodes.Keys && WellFormed(r.dom)
    // Only the target changes, and with `innerHTML` its child elements.
    ensures r.Swapped? ==> forall m | m in dom.nodes && m != n && dom.nodes[m].parent != Elem(n) ::
              r.dom.nodes[m] == dom.nodes[m]
    ensures r.Swapped? && StyleOf(spec.style) != InnerHTML ==>
              forall m | m in dom.nodes && m != n :: r.dom.nodes[m] == dom.nodes[m]
  {
    var node := dom.nodes[n];
    var style := StyleOf(spec.style);
    if style == InnerHTML then
      var d := DetachChildren(dom, n);
      DetachChildrenKeepsWellFormed(dom, n);
      PutKeepsWellFormed(d, n, node.(inner := [html]));
      Swapped(Put(d, n, node.(inner := [html])))
    else
      match EditTarget(node, style, html)
      case None => Threw
      case Some(edited) =>
        PutKeepsWellFormed(dom, n, edited);
        Swapped(Put(dom, n, edited))
  }

  /** The markup an element contributes to its surroundings, in document
      order: inserted siblings before it, its own content, inserted siblings
      after it. */
  function Outline(node: Node): seq<string> {
    node.before + node.inner + node.after
  }

  /** The four insert positions put the markup at the named boundary of the
      element's outline and keep everything else in it, in order:
      `beforebegin` and `afterbegin` at the start of the element (outside and
      inside), `beforeend` and `afterend` at its end (inside and outside). */
  lemma InsertPositions(dom: Dom, n: NodeId, html: string, spec: SwapSpec.Spec)
    requires WellFormed(dom) && n in dom.nodes
    requires dom.nodes[n].parent.Elem?
    requires StyleOf(spec.style) in {BeforeBegin, AfterBegin, BeforeEnd, AfterEnd}
    ensures var node := dom.nodes[n];
      var r := PerformSwap(dom, n, html, spec);
      var style := StyleOf(spec.style);
      var k := if style in {BeforeBegin, AfterBegin} then |node.before| else |node.before + node.inner|;
      && r.Swapped?
      && Outline(r.dom.nodes[n]) == Outline(node)[..k] + [html] + Outline(node)[k..]
      && (r.dom.nodes[n].inner != node.inner <==> style in {AfterBegin, BeforeEnd})
      && r.dom.nodes[n].parent == node.parent
  {
    var style := StyleOf(spec.style);
    InsertedOutline(dom.nodes[n], style, html);
    var edited := EditTarget(dom.nodes[n], style, html).value;
    assert PerformSwap(dom, n, html, spec) == Swapped(Put(dom, n, edited));
  }

  /** The element an insert position leaves, on its own. */
  lemma InsertedOutline(node: Node, style: Style, html: string)
    requires node.parent.Elem?
    requires style in {BeforeBegin, AfterBegin, BeforeEnd, AfterEnd}
    ensures var r := EditTarget(node, style, html);
      var k := if style in {BeforeBegin, AfterBegin} then |node.before| else |node.before + node.inner|;
      && r.Some?
      && Outline(r.value) == Outline(node)[..k] + [html] + Outline(node)[k..]
      && (r.value.inner != node.inner <==> style in {AfterBegin, BeforeEnd})
      && r.value.parent == node.parent
  {
    var o := Outline(node);
    var e := EditTarget(node, style, html).value;
    match style
    case BeforeBegin =>
      assert o[..|node.before|] + [html] + o[|node.before|..] == node.before + [html] + node.inner + node.after by {
        SplitOutline(node.before, node.inner + node.after);
      }
      assert Outline(e) == (node.before + [html]) + node.inner + node.after;
    case AfterBegin =>
      assert o[..|node.before|] + [html] + o[|node.before|..] == node.before + ([html] + node.inner) + node.after by {
        SplitOutline(node.before, node.inner + node.after);
      }
      assert |e.inner| == |node.inner| + 1;
    case BeforeEnd =>
      assert o[..|node.before + node.inner|] + [html] + o[|node.before + node.inner|..]
          == node.before + (node.inner + [html]) + node.after by {
        SplitOutline(node.before + node.inner, node.after);
      }
      assert |e.inner| == |node.inner| + 1;
    case AfterEnd =>
      assert o[..|node.before + node.inner|] + [html] + o[|node.before + node.inner|..]
          == node.before + node.inner + ([html] + node.after) by {
        SplitOutline(node.before + node.inner, node.after);
      }
  }

  lemma SplitOutline(a: seq<string>, b: seq<string>)
    ensures (a + b)[..|a|] == a && (a + b)[|a|..] == b
  {
  }

  /** `innerHTML`: the element's content becomes exactly the new markup and
      its former child elements leave the document; an unrecognised style
      does the same. */
  lemma InnerSwap(dom: Dom, n: NodeId, html: string, spec: SwapSpec.Spec)
    requires WellFormed(dom) && n in dom.nodes
    requires StyleOf(spec.style) == InnerHTML
    ensures var r := PerformSwap(dom, n, html, spec);
      && r.Swapped?
      && r.dom.nodes[n].inner == [html]
      && r.dom.nodes[n].parent == dom.nodes[n].parent
      && forall m | m in dom.nodes && dom.nodes[m].parent == Elem(n) :: r.dom.nodes[m].parent == Detached
  {
  }

  /** An unrecognised style behaves exactly like `innerHTML`. */
  lemma UnknownStyleIsInner(dom: Dom, n: NodeId, html: string, spec: SwapSpec.Spec)
    requires WellFormed(dom) && n in dom.nodes
    requires spec.style !in {"outerHTML", "beforebegin", "afterbegin", "beforeend", "afterend", "delete", "none"}
    ensures PerformSwap(dom, n, html, spec) == PerformSwap(dom, n, html, spec.(style := "innerHTML"))
  {
  }

  /** `delete` takes the element out of the document and changes nothing
      else; `none` changes nothing at all. */
  lemma DeleteAndNone(dom: Dom, n: NodeId, html: string, spec: SwapSpec.Spec)
    requires WellFormed(dom) && n in dom.nodes
    ensures spec.style == "none" ==> PerformSwap(dom, n, html, spec) == Swapped(dom)
    ensures spec.style == "delete" ==>
      var r := PerformSwap(dom, n, html, spec);
      && r.Swapped?
      && r.dom.nodes[n] == dom.nodes[n].(parent := Detached)
      && forall m | m in dom.nodes && m != n :: r.dom.nodes[m] == dom.nodes[m]
  {
  }

  // ----- show / scroll -----

  /** `options.block` of `scrollIntoView`. */
  datatype Block = Start | End | Center | Nearest

  /** What the page does: `window.scrollTo` (to the bottom of the body, or to
      the top) or `element.scrollIntoView` with an alignment. */
  datatype Scroll = WindowTo(bottom: bool) | IntoView(node: NodeId, block: Block)

  /** The alignment `switch` of `scrollIntoView`. */
  function BlockOf(position: string): (b: Block)
    ensures b == Start <==> position == "top"
    ensures b == End <==> position == "bottom"
    ensures b == Center <==> position == "center"
  {
    match position
    case "top" => Start
    case "bottom" => End
    case "center" => Center
    case _ => Nearest
  }

  /** The position names of the three explicit alignments. */
  function BlockName(b: Block): string
    requires b != Nearest
  {
    match b
    case Start => "top"
    case End => "bottom"
    case Center => "center"
  }

  lemma BlockNameRoundTrip(b: Block)
    requires b != Nearest
    ensures BlockOf(BlockName(b)) == b
  {
  }

  /** `handleShowScroll(element, swapSpec)`: nothing unless `show` or `scroll`
      is set; `show` wins over `scroll`; the window is scrolled instead of the
      element when either names `"window"`, and then only `"bottom"` reaches
      the bottom. */
  function ShowScroll(n: NodeId, spec: SwapSpec.Spec): (r: Option<Scroll>)
    ensures r.None? <==> !(spec.show.Some? && Truthy(spec.show.value)) && !(spec.scroll.Some? && Truthy(spec.scroll.value))
    ensures r.Some? ==>
      var position := if spec.show.Some? && Truthy(spec.show.value) then spec.show.value else spec.scroll.value;
      if spec.show == Some("window") || spec.scroll == Some("window") then
        r.value == WindowTo(position == "bottom")
      else
        r.value == IntoView(n, BlockOf(position))
  {
    var show := spec.show.Some? && Truthy(spec.show.value);
    var scroll := spec.scroll.Some? && Truthy(spec.scroll.value);
    if !show && !scroll then None
    else
      var useWindow := spec.show == Some("window") || spec.scroll == Some("window");
      var position := if show then spec.show.value else spec.scroll.value;
      Some(if useWindow then WindowTo(position == "bottom") else IntoView(n, BlockOf(position)))
  }

  /** A parsed directive with `show:` set scrolls to the position `show`
      names, whatever `scroll` says; `scroll` matters only by naming
      `"window"`, which moves that scroll to the window. */
  lemma ShowBeatsScroll(n: NodeId, spec: SwapSpec.Spec, other: Option<string>)
    requires SwapSpec.Valid(spec) && spec.show.Some?
    ensures ShowScroll(n, spec.(scroll := other)) ==
      Some(if spec.show == Some("window") || other == Some("window") then WindowTo(spec.show.value == "bottom")
           else IntoView(n, BlockOf(spec.show.value)))
    ensures other != Some("window") ==> ShowScroll(n, spec.(scroll := other)) == ShowScroll(n, spec.(scroll := None))
  {
  }
}
