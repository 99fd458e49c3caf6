/**
 * The allow-list rewrite `cleanNode` of the extract route. It walks a snapshot
 * of a node's children; text is kept, comments and other non-element nodes are
 * removed, the twelve blocked tags are removed with their subtree, the 26
 * allowed tags lose their attributes and are cleaned recursively, and any other
 * element is unwrapped: its children take its place, in order, and are NOT
 * visited, because they are not in the snapshot.
 */
module Sanitizer {
  import opened Dom

  /** The array literal tested with `includes` before anything else. */
  const RemovedTags: seq<string> :=
    ["img", "figure", "figcaption", "script", "style", "iframe",
     "svg", "video", "audio", "picture", "source", "noscript"]

  /** `allowedTags`. */
  const AllowedTags: set<string> :=
    {"p", "h1", "h2", "h3", "h4", "h5", "h6",
     "ul", "ol", "li", "blockquote", "pre", "code",
     "b", "strong", "i", "em", "u", "br", "hr",
     "table", "thead", "tbody", "tr", "th", "td"}

  predicate IsRemovedTag(tagName: string) { ToLowerCase(tagName) in RemovedTags }

  predicate IsAllowedTag(tagName: string) { ToLowerCase(tagName) in AllowedTags }

  lemma TagSetsDisjoint()
    ensures forall t :: t in AllowedTags ==> t !in RemovedTags
  {
  }

  // ---------------------------------------------------------------------------
  // The rewrite as a pure function: what one snapshot child contributes to the
  // parent's new child list.

  function CleanChild(n: Node): seq<Node>
    decreases n
  {
    match n
    case Text(_) => [n]
    case Element(tag, _, kids) =>
      if IsRemovedTag(tag) then []
      else if IsAllowedTag(tag) then [Element(tag, [], Clean(kids))]
      else kids
    case _ => []
  }

  /** The new child list of a node whose child list was `ns`. */
  function Clean(ns: seq<Node>): seq<Node>
    decreases ns
  {
    if ns == [] then [] else CleanChild(ns[0]) + Clean(ns[1..])
  }

  // ---------------------------------------------------------------------------
  // The walk as the source performs it, step by step on the live child list.

  /** The `while (el.attributes.length > 0)` loop of `removeAttribute` calls. */
  method RemoveAllAttributes(attributes: seq<Attr>) returns (remaining: seq<Attr>)
    ensures remaining == []
  {
    remaining := attributes;
    while |remaining| > 0
      decreases |remaining|
    {
      assert HasAttribute(remaining, remaining[0].name);
      remaining := RemoveAttribute(remaining, remaining[0].name);
    }
  }

  /**
   * The unwrap of the element at `pos`: `insertBefore(child.firstChild, child)`
   * while it has a first child, then `removeChild(child)`. `next` is the index
   * just past the spliced-in children.
   */
  method Unwrap(live: seq<Node>, pos: nat) returns (unwrapped: seq<Node>, next: nat)
    requires pos < |live| && live[pos].Element?
    ensures unwrapped == live[..pos] + live[pos].childNodes + live[pos + 1..]
    ensures next == pos + |live[pos].childNodes|
  {
    var el := live[pos];
    var kids := el.childNodes;
    unwrapped := live;
    next := pos;
    while unwrapped[next].childNodes != []
      invariant pos <= next <= pos + |kids|
      invariant unwrapped == live[..pos] + kids[..next - pos] + [el.(childNodes := kids[next - pos..])] + live[pos + 1..]
      decreases |kids| - (next - pos)
    {
      unwrapped := MoveFirstChildBefore(unwrapped, next);
      next := next + 1;
      assert kids[..next - pos] == kids[..next - pos - 1] + [kids[next - pos - 1]];
    }
    assert kids[..next - pos] == kids;
    unwrapped := RemoveChild(unwrapped, next);
  }

  /**
   * `cleanNode(node)` applied to a node whose child list is `childNodes`;
   * `live` is the node's child list afterwards.
   */
  method CleanNode(childNodes: seq<Node>) returns (live: seq<Node>)
    ensures live == Clean(childNodes)
    decreases childNodes
  {
    var children := childNodes;  // Array.from(node.childNodes)
    live := childNodes;
    var pos := 0;  // where children[i] currently sits in the live list
    for i := 0 to |children|
      invariant pos == |Clean(children[..i])|
      invariant live == Clean(children[..i]) + children[i..]
    {
      CleanStep(children, i);
      live, pos := CleanChildAt(live, pos, children[i]);
    }
    assert children[..|children|] == childNodes;
  }

  /**
   * One pass of the `for` loop: handles the snapshot child `child`, found at
   * index `pos` of the live child list, and gives the index of the next one.
   */
  method CleanChildAt(live: seq<Node>, pos: nat, child: Node) returns (live': seq<Node>, next: nat)
    requires pos < |live| && live[pos] == child
    ensures live' == live[..pos] + CleanChild(child) + live[pos + 1..]
    ensures next == pos + |CleanChild(child)|
    decreases child
  {
    live' := live;
    next := pos;
    if NodeType(child) == ELEMENT_NODE {
      // Both predicates test `el.tagName.toLowerCase()`.
      if IsRemovedTag(child.tagName) {
        live' := RemoveChild(live', pos);
        return;
      }
      var attributes := RemoveAllAttributes(child.attributes);
      var el := child.(attributes := attributes);
      live' := live'[pos := el];
      if IsAllowedTag(child.tagName) {
        var kids := CleanNode(child.childNodes);
        live' := live'[pos := el.(childNodes := kids)];
        next := pos + 1;
      } else {
        live', next := Unwrap(live', pos);
      }
    } else if NodeType(child) != TEXT_NODE {
      live' := RemoveChild(live', pos);
    } else {
      next := pos + 1;
    }
  }

  lemma CleanStep(children: seq<Node>, i: nat)
    requires i < |children|
    ensures Clean(children[..i + 1]) == Clean(children[..i]) + CleanChild(children[i])
    ensures children[i..] == [children[i]] + children[i + 1..]
  {
    assert children[..i + 1] == children[..i] + [children[i]];
    CleanSnoc(children[..i], children[i]);
  }

  // ---------------------------------------------------------------------------
  // Properties of the rewrite.

  /** The new child list is the in-order concatenation of every child's contribution. */
  lemma {:induction false} CleanAppend(a: seq<Node>, b: seq<Node>)
    ensures Clean(a + b) == Clean(a) + Clean(b)
    decreases a
  {
    if a == [] {
      assert a + b == b;
    } else {
      assert (a + b)[1..] == a[1..] + b;
      CleanAppend(a[1..], b);
    }
  }

  lemma CleanSnoc(a: seq<Node>, n: Node)
    ensures Clean(a + [n]) == Clean(a) + CleanChild(n)
  {
    CleanAppend(a, [n]);
    assert Clean([n]) == CleanChild(n) + Clean([]);
  }

  lemma CleanAround(pre: seq<Node>, n: Node, post: seq<Node>)
    ensures Clean(pre + [n] + post) == Clean(pre) + CleanChild(n) + Clean(post)
  {
    CleanAppend(pre + [n], post);
    CleanSnoc(pre, n);
  }

  /** A text child stays where it is, verbatim. */
  lemma {:induction false} TextKept(pre: seq<Node>, data: string, post: seq<Node>)
    ensures Clean(pre + [Text(data)] + post) == Clean(pre) + [Text(data)] + Clean(post)
  {
    CleanAround(pre, Text(data), post);
  }

  /** A comment, CDATA section or processing instruction child disappears. */
  lemma {:induction false} NonTextRemoved(pre: seq<Node>, n: Node, post: seq<Node>)
    requires NodeType(n) != ELEMENT_NODE && NodeType(n) != TEXT_NODE
    ensures Clean(pre + [n] + post) == Clean(pre) + Clean(post)
  {
    CleanAround(pre, n, post);
  }

  /** A blocked element disappears together with its whole subtree. */
  lemma {:induction false} RemovedTagDropsSubtree(pre: seq<Node>, tag: string, attrs: seq<Attr>,
                                                  kids: seq<Node>, post: seq<Node>)
    requires ToLowerCase(tag) in RemovedTags
    ensures Clean(pre + [Element(tag, attrs, kids)] + post) == Clean(pre) + Clean(post)
  {
    CleanAround(pre, Element(tag, attrs, kids), post);
  }

  /** An allowed element keeps its place and tag, loses every attribute, and has its children cleaned. */
  lemma {:induction false} AllowedTagKeptBare(pre: seq<Node>, tag: string, attrs: seq<Attr>,
                                              kids: seq<Node>, post: seq<Node>)
    requires ToLowerCase(tag) in AllowedTags
    ensures Clean(pre + [Element(tag, attrs, kids)] + post)
         == Clean(pre) + [Element(tag, [], Clean(kids))] + Clean(post)
  {
    TagSetsDisjoint();
    CleanAround(pre, Element(tag, attrs, kids), post);
  }

  /**
   * Any other element is replaced by its own children, in order; those children
   * are spliced in untouched (tags, attributes and blocked descendants included).
   */
  lemma {:induction false} OtherTagUnwrapped(pre: seq<Node>, tag: string, attrs: seq<Attr>,
                                             kids: seq<Node>, post: seq<Node>)
    requires ToLowerCase(tag) !in RemovedTags && ToLowerCase(tag) !in AllowedTags
    ensures Clean(pre + [Element(tag, attrs, kids)] + post) == Clean(pre) + kids + Clean(post)
  {
    CleanAround(pre, Element(tag, attrs, kids), post);
  }

  // ---------------------------------------------------------------------------
  // The restricted case in which the output holds only clean, safe tags.

  /** Every element of the forest, at any depth, has an allowed or a blocked tag. */
  predicate Classified(ns: seq<Node>)
    decreases ns
  {
    ns != [] ==>
      (match ns[0]
       case Element(tag, _, kids) => (IsAllowedTag(tag) || IsRemovedTag(tag)) && Classified(kids)
       case _ => true)
      && Classified(ns[1..])
  }

  /** Only text and attribute-free allowed elements, at any depth. */
  predicate Safe(ns: seq<Node>)
    decreases ns
  {
    ns != [] ==>
      (match ns[0]
       case Element(tag, attrs, kids) => IsAllowedTag(tag) && attrs == [] && Safe(kids)
       case Text(_) => true
       case _ => false)
      && Safe(ns[1..])
  }

  lemma {:induction false} SafeAppend(a: seq<Node>, b: seq<Node>)
    requires Safe(a) && Safe(b)
    ensures Safe(a + b)
    decreases a
  {
    if a == [] {
      assert a + b == b;
    } else {
      assert (a + b)[0] == a[0];
      assert (a + b)[1..] == a[1..] + b;
      SafeAppend(a[1..], b);
    }
  }

  /** When every element is allowed or blocked, the output holds only clean, safe tags. */
  lemma {:induction false} CleanOfClassifiedIsSafe(ns: seq<Node>)
    requires Classified(ns)
    ensures Safe(Clean(ns))
    decreases ns
  {
    if ns != [] {
      CleanOfClassifiedIsSafe(ns[1..]);
      match ns[0]
      case Element(tag, _, kids) =>
        if !IsRemovedTag(tag) {
          CleanOfClassifiedIsSafe(kids);
          assert Safe([Element(tag, [], Clean(kids))]);
        }
        SafeAppend(CleanChild(ns[0]), Clean(ns[1..]));
      case Text(_) =>
        SafeAppend(CleanChild(ns[0]), Clean(ns[1..]));
      case _ =>
        assert Clean(ns) == Clean(ns[1..]);
    }
  }

  /** A safe forest is a fixed point of the rewrite. */
  lemma {:induction false} SafeIsFixedPoint(ns: seq<Node>)
    requires Safe(ns)
    ensures Clean(ns) == ns
    decreases ns
  {
    if ns != [] {
      SafeIsFixedPoint(ns[1..]);
      match ns[0]
      case Element(tag, attrs, kids) =>
        TagSetsDisjoint();
        SafeIsFixedPoint(kids);
      case Text(_) =>
      case _ =>
    }
  }

  /** In the restricted case, cleaning the output again changes nothing. */
  lemma CleanIdempotentWhenClassified(ns: seq<Node>)
    requires Classified(ns)
    ensures Safe(Clean(ns)) && Clean(Clean(ns)) == Clean(ns)
  {
    CleanOfClassifiedIsSafe(ns);
    SafeIsFixedPoint(Clean(ns));
  }

  /**
   * Outside that case neither holds: `<div><img src=i></div>` comes out as
   * `<img src="i">`, which is not safe, and a second pass removes it.
   */
  lemma UnwrappedChildrenNotRevisited()
    ensures var once := Clean([Element("DIV", [], [Element("IMG", [Attr("src", "i")], [])])]);
      once == [Element("IMG", [Attr("src", "i")], [])] && !Safe(once) && Clean(once) == []
  {
    var img := Element("IMG", [Attr("src", "i")], []);
    assert ToLowerCase("DIV") == "div";
    assert ToLowerCase("IMG") == "img";
    assert Clean([img]) == CleanChild(img) + Clean([]);
  }

  /** `<p>a<img src=x>b</p>` comes out as `<p>ab</p>`, the two text nodes side by side. */
  lemma BlockedInsideAllowedExample()
    ensures Clean([Element("P", [], [Text("a"), Element("IMG", [Attr("src", "x")], []), Text("b")])])
         == [Element("P", [], [Text("a"), Text("b")])]
  {
    assert ToLowerCase("P") == "p";
    assert ToLowerCase("IMG") == "img";
    var img := Element("IMG", [Attr("src", "x")], []);
    var kids := [Text("a"), img, Text("b")];
    assert kids == [Text("a")] + [img] + [Text("b")];
    RemovedTagDropsSubtree([Text("a")], "IMG", [Attr("src", "x")], [], [Text("b")]);
    assert Clean([Text("a")]) == [Text("a")] + Clean([]);
    assert Clean([Text("b")]) == [Text("b")] + Clean([]);
    assert Clean(kids) == [Text("a"), Text("b")];
    AllowedTagKeptBare([], "P", [], kids, []);
    assert [] + [Element("P", [], kids)] + [] == [Element("P", [], kids)];
  }
}
