/**
 The element trees the behaviour of `ElementNode` equality and child lookups is
 illustrated with.
 */
module ElementNodeExamples {
  import opened Wrappers
  import opened ElementNodes

  const Some1: Attribute := Attribute("some", StringValue("value"))

  /** Same name and attributes but different text children: not equal; a node equals
      itself. */
  lemma DifferentChildrenExample()
    ensures var style1 := ElementNode("strong", [Some1], [TextNode("First Children Here")]);
      var style2 := ElementNode("strong", [Some1], [TextNode("Second Child!")]);
      !ElementEquals(style1, style2) && ElementEquals(style1, style1)
  {
    var style1 := ElementNode("strong", [Some1], [TextNode("First Children Here")]);
    var style2 := ElementNode("strong", [Some1], [TextNode("Second Child!")]);
    ElementEqualsIsEquality(style1, style2);
    ElementEqualsIsEquality(style1, style1);
    assert style1.children[0] != style2.children[0];
  }

  /** Nodes built separately from equal parts are equal. */
  lemma EqualPartsExample()
    ensures ElementEquals(
      ElementNode("strong", [Attribute("some", StringValue("value"))], [TextNode("First Children Here")]),
      ElementNode("strong", [Some1], [TextNode("First Children Here")]))
  {
    ElementEqualsIsEquality(
      ElementNode("strong", [Attribute("some", StringValue("value"))], [TextNode("First Children Here")]),
      ElementNode("strong", [Some1], [TextNode("First Children Here")]));
  }

  /** An anchor holding just an image: the image is its only child of type image. */
  lemma OnlyImageExample()
    ensures OnlyChild(ElementNode("a", [], [Element(NewElement(Img))]), Img) == Some(NewElement(Img))
  {
  }

  /** Two images: no only child, although both match. */
  lemma TwoImagesExample()
    ensures OnlyChild(ElementNode("a", [], [Element(NewElement(Img)), Element(NewElement(Img))]), Img).None?
  {
  }

  /** One image, asked for bold: neither an only nor a first child. */
  lemma NoMatchingChildExample()
    ensures OnlyChild(ElementNode("a", [], [Element(NewElement(Img))]), B).None?
    ensures FirstChild(ElementNode("a", [], [Element(NewElement(Img))]), B).None?
  {
    assert !IsOfType(Element(NewElement(Img)), B);
  }

  /** An image then an emphasis: the first child of type emphasis is the second child. */
  lemma FirstEmphasisExample()
    ensures FirstChild(ElementNode("a", [], [Element(NewElement(Img)), Element(NewElement(Em))]), Em)
      == Some(NewElement(Em))
  {
    var cs := [Element(NewElement(Img)), Element(NewElement(Em))];
    assert !IsOfType(cs[0], Em);
  }
}
