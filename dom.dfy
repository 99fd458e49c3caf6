/**
 * The part of the DOM that the article sanitizer touches: nodes of an element's
 * child list, their kinds (the `nodeType` values of the DOM Standard's Node
 * interface), tag names, attributes, and the three mutations the sanitizer
 * performs on a child list (removeChild, insertBefore of a first child,
 * removeAttribute). Trees are values; a node's position in its parent's child
 * list stands for its object identity.
 */
module Dom {

  datatype Attr = Attr(name: string, value: string)

  /** The node kinds that can occur in an element's child list. */
  datatype Node =
    | Element(tagName: string, attributes: seq<Attr>, childNodes: seq<Node>)
    | Text(data: string)
    | CDataSection(data: string)
    | ProcessingInstruction(target: string, data: string)
    | Comment(data: string)

  const ELEMENT_NODE: int := 1
  const TEXT_NODE: int := 3
  const CDATA_SECTION_NODE: int := 4
  const PROCESSING_INSTRUCTION_NODE: int := 7
  const COMMENT_NODE: int := 8

  /** `node.nodeType`: only elements report 1 and only text nodes report 3. */
  function NodeType(n: Node): (t: int)
    ensures t == ELEMENT_NODE <==> n.Element?
    ensures t == TEXT_NODE <==> n.Text?
  {
    match n
    case Element(_, _, _) => ELEMENT_NODE
    case Text(_) => TEXT_NODE
    case CDataSection(_) => CDATA_SECTION_NODE
    case ProcessingInstruction(_, _) => PROCESSING_INSTRUCTION_NODE
    case Comment(_) => COMMENT_NODE
  }

  function LowerChar(c: char): char {
    if 'A' <= c <= 'Z' then (c as int - 'A' as int + 'a' as int) as char else c
  }

  /** `String.prototype.toLowerCase`, restricted to the ASCII letters. */
  function ToLowerCase(s: string): (r: string)
    ensures |r| == |s|
    ensures forall i :: 0 <= i < |s| ==> r[i] == LowerChar(s[i])
    ensures forall i :: 0 <= i < |r| ==> !('A' <= r[i] <= 'Z')
  {
    seq(|s|, i requires 0 <= i < |s| => LowerChar(s[i]))
  }

  predicate HasAttribute(attrs: seq<Attr>, name: string) {
    exists i :: 0 <= i < |attrs| && attrs[i].name == name
  }

  /** Past a first attribute with another name, `name` is present exactly when it is present in the rest. */
  lemma HasAttributeTail(attrs: seq<Attr>, name: string)
    requires attrs != [] && attrs[0].name != name
    ensures HasAttribute(attrs, name) <==> HasAttribute(attrs[1..], name)
  {
    if HasAttribute(attrs, name) {
      var k :| 0 <= k < |attrs| && attrs[k].name == name;
      assert attrs[1..][k - 1].name == name;
    }
    if HasAttribute(attrs[1..], name) {
      var k :| 0 <= k < |attrs[1..]| && attrs[1..][k].name == name;
      assert attrs[k + 1].name == name;
    }
  }

  /** The index of the first attribute called `name`. */
  function FirstIndex(attrs: seq<Attr>, name: string): (i: nat)
    requires HasAttribute(attrs, name)
    ensures i < |attrs| && attrs[i].name == name
    ensures forall j :: 0 <= j < i ==> attrs[j].name != name
  {
    if attrs[0].name == name then 0
    else
      HasAttributeTail(attrs, name);
      1 + FirstIndex(attrs[1..], name)
  }

  /** `el.removeAttribute(name)`: removes the first attribute with that name, if any. */
  function RemoveAttribute(attrs: seq<Attr>, name: string): (r: seq<Attr>)
    ensures HasAttribute(attrs, name) ==>
              r == attrs[..FirstIndex(attrs, name)] + attrs[FirstIndex(attrs, name) + 1..]
    ensures !HasAttribute(attrs, name) ==> r == attrs
  {
    if attrs == [] then []
    else if attrs[0].name == name then attrs[1..]
    else
      HasAttributeTail(attrs, name);
      var rest := RemoveAttribute(attrs[1..], name);
      // Both branches give the same list; the first proves it is the splice at the first match.
      if HasAttribute(attrs, name) then
        ConsSplice(attrs, FirstIndex(attrs[1..], name));
        [attrs[0]] + rest
      else
        [attrs[0]] + rest
  }

  /** Cutting index `j` out of the tail and putting the head back cuts index `j + 1` out of the whole. */
  lemma ConsSplice<T>(s: seq<T>, j: nat)
    requires j + 1 < |s|
    ensures [s[0]] + (s[1..][..j] + s[1..][j + 1..]) == s[..j + 1] + s[j + 2..]
  {
    assert s[1..][..j] == s[1..j + 1];
    assert s[1..][j + 1..] == s[j + 2..];
    assert [s[0]] + s[1..j + 1] == s[..j + 1];
  }

  /** Removing a present name leaves one attribute fewer, all of them original ones. */
  lemma RemoveAttributeShrinks(attrs: seq<Attr>, name: string)
    requires HasAttribute(attrs, name)
    ensures |RemoveAttribute(attrs, name)| == |attrs| - 1
    ensures forall a :: a in RemoveAttribute(attrs, name) ==> a in attrs
  {
    var i := FirstIndex(attrs, name);
    forall a | a in RemoveAttribute(attrs, name) ensures a in attrs {
      if a in attrs[..i] {
        var k :| 0 <= k < i && attrs[..i][k] == a;
        assert attrs[k] == a;
      } else {
        assert a in attrs[i + 1..];
        var k :| 0 <= k < |attrs| - i - 1 && attrs[i + 1..][k] == a;
        assert attrs[i + 1 + k] == a;
      }
    }
  }

  /** `parent.removeChild(child)` where `child` sits at index `pos` of the child list. */
  function RemoveChild(childNodes: seq<Node>, pos: nat): (r: seq<Node>)
    requires pos < |childNodes|
    ensures |r| == |childNodes| - 1
    ensures forall i :: 0 <= i < pos ==> r[i] == childNodes[i]
    ensures forall i :: pos <= i < |r| ==> r[i] == childNodes[i + 1]
  {
    childNodes[..pos] + childNodes[pos + 1..]
  }

  /**
   * `parent.insertBefore(child.firstChild, child)` where `child` sits at index
   * `pos`: the first child of `child` leaves it and is inserted just before it.
   */
  function MoveFirstChildBefore(childNodes: seq<Node>, pos: nat): (r: seq<Node>)
    requires pos < |childNodes|
    requires childNodes[pos].Element? && childNodes[pos].childNodes != []
    ensures |r| == |childNodes| + 1
    ensures forall i :: 0 <= i < pos ==> r[i] == childNodes[i]
    ensures r[pos] == childNodes[pos].childNodes[0]
    ensures r[pos + 1].Element? && r[pos + 1].tagName == childNodes[pos].tagName
    ensures r[pos + 1].attributes == childNodes[pos].attributes
    ensures [r[pos]] + r[pos + 1].childNodes == childNodes[pos].childNodes
    ensures forall i :: pos + 1 < i < |r| ==> r[i] == childNodes[i - 1]
  {
    var el := childNodes[pos];
    childNodes[..pos] + [el.childNodes[0], el.(childNodes := el.childNodes[1..])] + childNodes[pos + 1..]
  }
}
