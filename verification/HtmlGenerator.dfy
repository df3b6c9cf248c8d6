/** The HTML generator: elements, attributes and text written to a sink. */
module HtmlGenerator {
  import opened CText
  import opened HtmlText

  const APOS := "&apos;"

  /** An attribute with or without value. */
  datatype Attribute = Attribute(key: string, value: Option<string>)

  /** The calls a program can make on a generator: write, raw, and the overloads of element, of which
      two take an attribute maker and two have no content. */
  datatype Html =
    | Text(text: string)
    | Raw(text: string)
    | Element(name: string, content: seq<Html>)
    | EmptyElement(name: string)
    | AttributedElement(name: string, attributes: seq<Attribute>, content: seq<Html>)
    | EmptyAttributedElement(name: string, attributes: seq<Attribute>)
    | TextElement(name: string, text: string)

  function RenderAttribute(a: Attribute): string {
    match a.value
    case None => " " + a.key
    case Some(v) => " " + a.key + "=\"" + Escape(v, APOS) + "\""
  }

  function RenderAttributes(attributes: seq<Attribute>): string {
    if attributes == [] then "" else RenderAttribute(attributes[0]) + RenderAttributes(attributes[1..])
  }

  function OpenTag(name: string, attributes: seq<Attribute>): string {
    "<" + Escape(name, APOS) + RenderAttributes(attributes) + ">"
  }

  function CloseTag(name: string): string {
    "</" + name + ">"
  }

  function Render(h: Html): string
    decreases h, 0
  {
    match h
    case Text(text) => Escape(text, APOS)
    case Raw(text) => text
    case Element(name, content) => OpenTag(name, []) + RenderAll(content) + CloseTag(name)
    case EmptyElement(name) => "<" + name + "/>"
    case AttributedElement(name, attributes, content) => OpenTag(name, attributes) + RenderAll(content) + CloseTag(name)
    case EmptyAttributedElement(name, attributes) => "<" + Escape(name, APOS) + RenderAttributes(attributes) + "/>"
    case TextElement(name, text) => OpenTag(name, []) + Escape(text, APOS) + CloseTag(name)
  }

  function RenderAll(hs: seq<Html>): string
    decreases hs
  {
    if hs == [] then "" else Render(hs[0]) + RenderAll(hs[1..])
  }

  class Generator {
    const out: Sink

    constructor (sink: Sink)
      ensures out == sink
    {
      out := sink;
    }

    method WriteChar(c: char)
      modifies out
      ensures out.text == old(out.text) + EscapeChar(c, APOS)
    {
      match c
      case '&' => out.Put("&amp;");
      case '<' => out.Put("&lt;");
      case '>' => out.Put("&gt;");
      case '\'' => out.Put("&apos;");
      case '"' => out.Put("&quot;");
      case _ => out.Put([c]);
    }

    method WriteString(text: string)
      modifies out
      ensures out.text == old(out.text) + Escape(text, APOS)
    {
      hide Escape, EscapeChar;
      NothingEscaped(APOS);
      var i := 0;
      while i < |text|
        invariant 0 <= i <= |text|
        invariant out.text == old(out.text) + Escape(text[..i], APOS)
      {
        assert text[..i + 1] == text[..i] + [text[i]];
        EscapeConcat(text[..i], [text[i]], APOS);
        EscapeOne(text[i], APOS);
        WriteChar(text[i]);
        i := i + 1;
      }
      assert text[..i] == text;
    }

    method AddAttribute(a: Attribute)
      modifies out
      ensures out.text == old(out.text) + RenderAttribute(a)
    {
      hide Escape;
      out.Put(" ");
      out.Put(a.key);
      if a.value.Some? {
        out.Put("=\"");
        WriteString(a.value.value);
        out.Put("\"");
      }
    }

    method OpenAttributedElement(name: string)
      modifies out
      ensures out.text == old(out.text) + ("<" + Escape(name, APOS))
    {
      hide Escape;
      ghost var before := out.text;
      out.Put("<");
      WriteString(name);
      Regroup(before, "<", Escape(name, APOS));
    }

    method MakeAttributes(attributes: seq<Attribute>)
      modifies out
      ensures out.text == old(out.text) + RenderAttributes(attributes)
    {
      hide RenderAttribute;
      if attributes != [] {
        ghost var before, first := out.text, RenderAttribute(attributes[0]);
        AddAttribute(attributes[0]);
        MakeAttributes(attributes[1..]);
        Regroup(before, first, RenderAttributes(attributes[1..]));
      }
    }

    method OpenElement(name: string)
      modifies out
      ensures out.text == old(out.text) + OpenTag(name, [])
    {
      OpenAttributedElement(name);
      out.Put(">");
    }

    method CloseElement(name: string)
      modifies out
      ensures out.text == old(out.text) + CloseTag(name)
    {
      out.Put("<");
      out.Put("/");
      out.Put(name);
      out.Put(">");
    }

    method UnpairedElement(name: string)
      modifies out
      ensures out.text == old(out.text) + ("<" + name + "/>")
    {
      out.Put("<");
      out.Put(name);
      out.Put("/");
      out.Put(">");
    }

    /** element with a content maker */
    method ElementWithContent(name: string, content: seq<Html>)
      modifies out
      ensures out.text == old(out.text) + Render(Element(name, content))
      decreases content
    {
      hide Escape, RenderAll;
      OpenElement(name);
      GenerateAll(content);
      CloseElement(name);
    }

    /** `<`, name and attributes: the common start of the overloads with an attribute maker. */
    method OpenWithAttributes(name: string, attributes: seq<Attribute>, end: string)
      modifies out
      ensures out.text == old(out.text) + ("<" + Escape(name, APOS) + RenderAttributes(attributes) + end)
    {
      hide Escape, RenderAttributes;
      OpenAttributedElement(name);
      MakeAttributes(attributes);
      out.Put(end);
    }

    /** element with an attribute maker and a content maker */
    method ElementWithAttributes(name: string, attributes: seq<Attribute>, content: seq<Html>)
      modifies out
      ensures out.text == old(out.text) + Render(AttributedElement(name, attributes, content))
      decreases content
    {
      hide Escape, RenderAttributes, RenderAll;
      OpenWithAttributes(name, attributes, ">");
      GenerateAll(content);
      CloseElement(name);
    }

    /** element with an attribute maker and `empty` */
    method EmptyWithAttributes(name: string, attributes: seq<Attribute>)
      modifies out
      ensures out.text == old(out.text) + Render(EmptyAttributedElement(name, attributes))
    {
      OpenWithAttributes(name, attributes, "/>");
    }

    /** element_with_text */
    method ElementWithText(name: string, text: string)
      modifies out
      ensures out.text == old(out.text) + Render(TextElement(name, text))
    {
      hide Escape;
      OpenElement(name);
      WriteString(text);
      CloseElement(name);
    }

    /** A program of generator calls; content makers are the nested calls. */
    method Generate(h: Html)
      modifies out
      ensures out.text == old(out.text) + Render(h)
      decreases h, 0
    {
      match h
      case Text(text) => WriteString(text);
      case Raw(text) => out.Put(text);
      case Element(name, content) => ElementWithContent(name, content);
      case EmptyElement(name) => UnpairedElement(name);
      case AttributedElement(name, attributes, content) => ElementWithAttributes(name, attributes, content);
      case EmptyAttributedElement(name, attributes) => EmptyWithAttributes(name, attributes);
      case TextElement(name, text) => ElementWithText(name, text);
    }

    method GenerateAll(hs: seq<Html>)
      modifies out
      ensures out.text == old(out.text) + RenderAll(hs)
      decreases hs, 0
    {
      hide Render;
      if hs != [] {
        ghost var before, first := out.text, Render(hs[0]);
        Generate(hs[0]);
        GenerateAll(hs[1..]);
        Regroup(before, first, RenderAll(hs[1..]));
      }
    }
  }
}
