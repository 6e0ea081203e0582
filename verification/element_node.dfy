/**
 The element tree of Aztec's HTML model: element nodes carry a tag name, attributes
 and ordered children, which are elements or text. Equality is structural, and an
 element can be asked for its only child, or its first child, of a given type.
 */
module ElementNodes {
  import opened Wrappers

  datatype AttributeValue = NoValue | StringValue(text: string)

  datatype Attribute = Attribute(name: string, value: AttributeValue)

  datatype Node =
    | Element(element: ElementNode)
    | TextNode(text: string)

  datatype ElementNode = ElementNode(name: string, attributes: seq<Attribute>, children: seq<Node>)

  /** The standard element types the lookups are asked about. */
  datatype ElementType = A | B | Em | Img

  function TagName(t: ElementType): (name: string)
    ensures |name| > 0
  {
    match t
    case A => "a"
    case B => "b"
    case Em => "em"
    case Img => "img"
  }

  /** `ElementNode(type:)`: an element of the given type, without attributes or children. */
  function NewElement(t: ElementType): (e: ElementNode)
    ensures IsOfType(Element(e), t)
    ensures |e.attributes| == 0 && |e.children| == 0
  {
    ElementNode(TagName(t), [], [])
  }

  /** `isNodeType`: the node is an element whose tag name is the type's. */
  predicate IsOfType(n: Node, t: ElementType) {
    n.Element? && n.element.name == TagName(t)
  }

  /** The `==` of element nodes: same name, same attributes and pairwise equal children. */
  predicate ElementEquals(a: ElementNode, b: ElementNode)
    decreases a
  {
    && a.name == b.name
    && a.attributes == b.attributes
    && |a.children| == |b.children|
    && forall k :: 0 <= k < |a.children| ==> NodeEquals(a.children[k], b.children[k])
  }

  /** The `==` of nodes: elements compare as elements, text nodes by their text, and an
      element never equals a text node. */
  predicate NodeEquals(x: Node, y: Node)
    decreases x
  {
    match x
    case Element(a) => y.Element? && ElementEquals(a, y.element)
    case TextNode(s) => y.TextNode? && s == y.text
  }

  /** Structural equality of elements is exactly equality of the values: nodes built apart
      from equal parts are equal, and nodes differing anywhere, children included, are not. */
  lemma {:induction false} ElementEqualsIsEquality(a: ElementNode, b: ElementNode)
    ensures ElementEquals(a, b) <==> a == b
    decreases a
  {
    forall k | 0 <= k < |a.children| && k < |b.children|
      ensures NodeEquals(a.children[k], b.children[k]) <==> a.children[k] == b.children[k]
    {
      NodeEqualsIsEquality(a.children[k], b.children[k]);
    }
    if ElementEquals(a, b) {
      assert a.children == b.children;
    }
  }

  lemma {:induction false} NodeEqualsIsEquality(x: Node, y: Node)
    ensures NodeEquals(x, y) <==> x == y
    decreases x
  {
    if x.Element? && y.Element? {
      ElementEqualsIsEquality(x.element, y.element);
    }
  }

  /** The index of the first child of type `t` at or after `from`. */
  function FirstIndexOfType(children: seq<Node>, t: ElementType, from: nat): (r: Option<nat>)
    ensures r.Some? ==> from <= r.value < |children| && IsOfType(children[r.value], t)
    ensures r.Some? ==> forall j :: from <= j < r.value ==> !IsOfType(children[j], t)
    ensures r.None? ==> forall j :: from <= j < |children| ==> !IsOfType(children[j], t)
    decreases |children| - from
  {
    if from >= |children| then None
    else if IsOfType(children[from], t) then Some(from)
    else FirstIndexOfType(children, t, from + 1)
  }

  /** `firstChild(ofType:)`: the first child, in order, that is an element of type `t`. */
  function FirstChild(e: ElementNode, t: ElementType): (r: Option<ElementNode>)
    ensures r.None? <==> forall j :: 0 <= j < |e.children| ==> !IsOfType(e.children[j], t)
    ensures r.Some? ==> exists k :: (
      && 0 <= k < |e.children|
      && e.children[k] == Element(r.value)
      && IsOfType(e.children[k], t)
      && forall j :: 0 <= j < k ==> !IsOfType(e.children[j], t))
  {
    match FirstIndexOfType(e.children, t, 0)
    case None => None
    case Some(k) => Some(e.children[k].element)
  }

  /** `onlyChild(ofType:)`: the single child, when there is exactly one and it is an element
      of type `t`. */
  function OnlyChild(e: ElementNode, t: ElementType): (r: Option<ElementNode>)
    ensures r.Some? <==> |e.children| == 1 && IsOfType(e.children[0], t)
    ensures r.Some? ==> e.children == [Element(r.value)]
  {
    if |e.children| == 1 && IsOfType(e.children[0], t) then Some(e.children[0].element)
    else None
  }

  /** The only child is the first child when there is just one child, and there is none
      otherwise, however many children match. */
  lemma OnlyChildIsFirstOfOne(e: ElementNode, t: ElementType)
    ensures OnlyChild(e, t) == if |e.children| == 1 then FirstChild(e, t) else None
  {
    if |e.children| == 1 {
      match FirstChild(e, t)
      case None =>
      case Some(c) =>
        var k :| 0 <= k < |e.children| && e.children[k] == Element(c) && IsOfType(e.children[k], t);
        assert k == 0;
    }
  }

  /** Reference definition: the children that are elements of type `t`, in order. */
  function ChildrenOfType(cs: seq<Node>, t: ElementType): seq<ElementNode>
    decreases |cs|
  {
    if |cs| == 0 then []
    else (if IsOfType(cs[0], t) then [cs[0].element] else []) + ChildrenOfType(cs[1..], t)
  }

  /** The search from `from` finds the head of the matching children of `cs[from..]`. */
  lemma {:induction false} FirstIndexIsHeadOfMatches(cs: seq<Node>, t: ElementType, from: nat)
    requires from <= |cs|
    ensures FirstIndexOfType(cs, t, from).None? <==> ChildrenOfType(cs[from..], t) == []
    ensures FirstIndexOfType(cs, t, from).Some? ==>
      ChildrenOfType(cs[from..], t)[0] == cs[FirstIndexOfType(cs, t, from).value].element
    decreases |cs| - from
  {
    if from < |cs| {
      assert cs[from..][1..] == cs[from + 1..];
      FirstIndexIsHeadOfMatches(cs, t, from + 1);
    }
  }

  /** `firstChild(ofType:)` answers the first of the children of type `t`, and nothing
      exactly when there are none. */
  lemma FirstChildIsFirstOfType(e: ElementNode, t: ElementType)
    ensures var m := ChildrenOfType(e.children, t);
      FirstChild(e, t) == if |m| == 0 then None else Some(m[0])
  {
    FirstIndexIsHeadOfMatches(e.children, t, 0);
    assert e.children[0..] == e.children;
  }
}
