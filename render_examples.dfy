/**
 * Concrete page bodies and what the link renderer makes of them. Each
 * example is an instance of a general lemma about bodies of that shape,
 * proved from the lemmas of `LinkRender`. The expected outputs are written
 * with `Anchor`; `AnchorText` spells out one anchor character by character.
 */
module RenderExamples {
  import opened LinkRender

  /** The exact text of the anchors for the pages `Home` and `Foo2`. */
  lemma AnchorText()
    ensures Anchor("Home") == "<a href=\"/view/Home\">Home</a>"
    ensures Anchor("Foo2") == "<a href=\"/view/Foo2\">Foo2</a>"
  {
  }

  /** A text without an opening bracket renders as itself. */
  lemma PlainText(t: string)
    requires '[' !in t
    ensures Render(t) == t
  {
    NoBracketNoLink(t);
    RenderNoLink(t);
  }

  /** Two links in plain text, each replaced by its anchor. */
  lemma TwoLinksIn(t1: string, n1: string, t2: string, n2: string, t3: string)
    requires '[' !in t1 && '[' !in t2 && '[' !in t3 && IsName(n1) && IsName(n2)
    ensures Render(t1 + "[" + n1 + "]" + (t2 + "[" + n2 + "]" + t3))
         == t1 + Anchor(n1) + (t2 + Anchor(n2) + t3)
  {
    RenderTextLink(t1, n1, t2 + "[" + n2 + "]" + t3);
    RenderTextLink(t2, n2, t3);
    PlainText(t3);
  }

  lemma TwoLinks()
    ensures Render("See [Home] and [Foo2].") == "See " + Anchor("Home") + (" and " + Anchor("Foo2") + ".")
  {
    assert "See [Home] and [Foo2]." == "See " + "[" + "Home" + "]" + (" and " + "[" + "Foo2" + "]" + ".");
    TwoLinksIn("See ", "Home", " and ", "Foo2", ".");
  }

  /** Brackets with nothing inside, then a link: only the link is replaced. */
  lemma EmptyBracketsThenLinkIn(t: string, n: string)
    requires '[' !in t && IsName(n)
    ensures Render("[]" + t + ("[" + n + "]")) == "[]" + t + Anchor(n)
  {
    var e, w := "[]", "[" + n + "]";
    assert e == "[" + "" + "]";
    MalformedUntouched("");
    PlainText(t);
    SafeBoundaryNoCrossing(e, t);
    RenderAppend(e, t);
    assert w[0] == '[';
    SafeBoundaryNoCrossing(e + t, w);
    RenderAppend(e + t, w);
    RenderToken(n);
  }

  lemma EmptyBracketsThenLink()
    ensures Render("[] [1a]") == "[]" + " " + Anchor("1a")
  {
    assert "[] [1a]" == "[]" + " " + ("[" + "1a" + "]");
    EmptyBracketsThenLinkIn(" ", "1a");
  }

  /** A link inside a further pair of brackets: the outer brackets stay as text. */
  lemma BracketedLinkIn(n: string)
    requires IsName(n)
    ensures Render("[" + ("[" + n + "]") + "]") == "[" + Anchor(n) + "]"
  {
    var w := "[" + n + "]";
    assert w[0] == '[' && w[|w| - 1] == ']';
    SafeBoundaryNoCrossing("[", w);
    SafeBoundaryNoCrossing("[" + w, "]");
    RenderAppend("[" + w, "]");
    RenderAppend("[", w);
    RenderNoLink("[");
    PlainText("]");
    RenderToken(n);
  }

  lemma NestedBrackets()
    ensures Render("[[a]]") == "[" + Anchor("a") + "]"
  {
    assert "[[a]]" == "[" + ("[" + "a" + "]") + "]";
    BracketedLinkIn("a");
  }

  /** Brackets around text with a space are left verbatim. */
  lemma SpaceInBrackets()
    ensures Render("[a b]") == "[a b]"
  {
    assert !IsAlnum("a b"[1]);
    assert "[a b]" == "[" + "a b" + "]";
    MalformedUntouched("a b");
  }

  /** Brackets around text with a hyphen are left verbatim. */
  lemma HyphenInBrackets()
    ensures Render("[a-b]") == "[a-b]"
  {
    assert !IsAlnum("a-b"[1]);
    assert "[a-b]" == "[" + "a-b" + "]";
    MalformedUntouched("a-b");
  }

  /** Brackets with nothing between them are left verbatim. */
  lemma EmptyBrackets()
    ensures Render("[]") == "[]"
  {
    assert "[]" == "[" + "" + "]";
    MalformedUntouched("");
  }

  /** The empty body renders as the empty text. */
  lemma EmptyBody()
    ensures Render("") == ""
  {
  }
}
