/** Which names and attribute keys can be used: what becomes of all others. */
module HtmlNames {
  import opened CText
  import opened HtmlText
  import opened HtmlGenerator
  import opened HtmlScanner

  // ---------------------------------------------------------------- what a scanner can see at all

  /** Names and keys as the scanner reads them. */
  predicate SoundEvent(e: Event) {
    match e
    case Open(name, attributes) => SoundName(name) && GoodAttributes(attributes)
    case Single(name, attributes) => SoundName(name) && GoodAttributes(attributes)
    case _ => true
  }

  predicate SoundEvents(es: seq<Event>) {
    forall i :: 0 <= i < |es| ==> SoundEvent(es[i])
  }

  lemma {:induction false} KeyLengthStops(s: string)
    ensures forall i :: 0 <= i < KeyLength(s) ==> !EndsKey(s[i])
  {
    if s != "" && !EndsKey(s[0]) {
      KeyLengthStops(s[1..]);
      assert forall i :: 0 < i < |s| ==> s[i] == s[1..][i - 1];
    }
  }

  lemma {:induction false} ScannedKeysAreGood(s: string)
    ensures ScanAttributes(s).Some? ==> GoodAttributes(ScanAttributes(s).value.0)
    decreases |s|
  {
    hide NextAttribute, GoodAttributeKey;
    if s != "" && s[0] == ' ' && NextAttribute(s[1..]).Some? {
      var (a, n) := NextAttribute(s[1..]).value;
      NextKeyIsGood(s[1..]);
      ScannedKeysAreGood(s[1..][n..]);
    }
  }

  lemma NextKeyIsGood(s: string)
    ensures NextAttribute(s).Some? ==> GoodAttributeKey(NextAttribute(s).value.0.key)
  {
    hide ScanValue;
    KeyLengthStops(s);
  }

  lemma NextEventIsSound(s: string)
    requires s != ""
    ensures NextEvent(s).Some? ==> SoundEvent(NextEvent(s).value.0)
  {
    hide ScanAttributes, NameLength, FirstChar, IndexOf, GoodAttributes;
    if s[0] == '<' {
      var body := s[1..];
      NameLengthStops(body);
      ScannedKeysAreGood(body[NameLength(body)..]);
    }
  }

  lemma {:induction false} ScannedIsSound(s: string)
    ensures Scan(s).Some? ==> SoundEvents(Scan(s).value)
    decreases |s|
  {
    hide NextEvent, SoundEvent;
    if s != "" && NextEvent(s).Some? {
      NextEventIsSound(s);
      ScannedIsSound(s[NextEvent(s).value.1..]);
    }
  }

  // ---------------------------------------------------------------- the exact condition

  predicate NoRaw(h: Html)
    decreases h, 0
  {
    match h
    case Raw(_) => false
    case Element(_, content) => NoneRaw(content)
    case AttributedElement(_, _, content) => NoneRaw(content)
    case _ => true
  }

  predicate NoneRaw(hs: seq<Html>)
    decreases hs
  {
    hs == [] || (NoRaw(hs[0]) && NoneRaw(hs[1..]))
  }

  /** Calls that are seen as they were said have names and keys that hold together. */
  lemma {:induction false} SaidIsSound(h: Html)
    requires NoRaw(h) && SoundEvents(Events(h))
    ensures Sound(h)
    decreases h, 0
  {
    hide SoundName, GoodAttributes;
    match h
    case Element(name, content) =>
      ElementSaidIsSound(name, [], content);
    case AttributedElement(name, attributes, content) =>
      ElementSaidIsSound(name, attributes, content);
    case EmptyElement(name) =>
      assert SoundEvent(Events(h)[0]);
    case EmptyAttributedElement(name, attributes) =>
      assert SoundEvent(Events(h)[0]);
    case TextElement(name, text) =>
      assert Events(h)[0] == Open(name, []);
      assert SoundEvent(Events(h)[0]);
    case Text(_) =>
  }

  lemma {:induction false} ElementSaidIsSound(name: string, attributes: seq<Attribute>, content: seq<Html>)
    requires NoneRaw(content) && SoundEvents([Open(name, attributes)] + EventsOfAll(content) + [Close(name)])
    ensures SoundName(name) && GoodAttributes(attributes) && AllSound(content)
    decreases content, 1
  {
    hide SoundName, GoodAttributes;
    var es := [Open(name, attributes)] + EventsOfAll(content) + [Close(name)];
    assert SoundEvent(es[0]);
    assert forall i :: 0 <= i < |EventsOfAll(content)| ==> EventsOfAll(content)[i] == es[i + 1];
    AllSaidIsSound(content);
  }

  lemma {:induction false} AllSaidIsSound(hs: seq<Html>)
    requires NoneRaw(hs) && SoundEvents(EventsOfAll(hs))
    ensures AllSound(hs)
    decreases hs, 0
  {
    hide SoundEvent;
    if hs != [] {
      var first, more, es := Events(hs[0]), EventsOfAll(hs[1..]), EventsOfAll(hs);
      assert forall i :: 0 <= i < |first| ==> first[i] == es[i];
      assert forall i :: 0 <= i < |more| ==> more[i] == es[|first| + i];
      SaidIsSound(hs[0]);
      AllSaidIsSound(hs[1..]);
    }
  }

  /** Without raw text, the scanner sees exactly what the calls said if and only if every name and attribute key
      ends where it is meant to, and every name that is escaped needs no escaping. */
  lemma {:induction false} SeenAsSaidIff(hs: seq<Html>)
    requires NoneRaw(hs)
    ensures Scan(RenderAll(hs)) == Some(EventsOfAll(hs)) <==> AllGood(hs)
  {
    hide Scan, SoundEvents;
    if AllGood(hs) {
      GeneratedIsWellNested(hs);
    } else if Scan(RenderAll(hs)) == Some(EventsOfAll(hs)) {
      ScannedIsSound(RenderAll(hs));
      AllSaidIsSound(hs);
      ScanWholeTree(hs);
      AllWrittenIsSaidIff(hs);
    }
  }

  /** Keys are written raw: one with a '>' ends the tag, under a good name and without content. */
  lemma RawKeyBreaksNesting()
    ensures !WellNested(Render(AttributedElement("a", [Attribute(">", Some("x"))], [])))
  {
    hide Scan, Escape;
    var more, attributes := "=\"x\"></a>", [Attribute(">", Some("x"))];
    EscapePlain("x", APOS);
    EscapePlain("a", APOS);
    assert RenderAttributes(attributes) == " >=\"x\"" by {
      assert RenderAttributes(attributes[1..]) == "";
    }
    assert OpenTag("a", attributes) == "<a >=\"x\">";
    assert Render(AttributedElement("a", attributes, [])) == "<a >" + more;
    RawKeyEndsTag(more);
    StrayQuote("x\"></a>");
    assert more == "=\"" + "x\"></a>";
  }

  lemma RawKeyEndsTag(more: string)
    ensures Scan(more) == None ==> Scan("<a >" + more) == None
  {
    hide Scan, ScanTag, ScanAttributes;
    var t := " " + (">" + more);
    ScanTagBody("a", t);
    KeyEndsTag(">" + more);
    AttributeBehindSpace(">" + more);
    assert ("a" + t)[3..] == more && "<" + ("a" + t) == "<a >" + more;
    ScanBehindLess("a" + t, ScanTag("a" + t).value.0, 3);
  }

  lemma KeyEndsTag(s: string)
    requires s != "" && s[0] == '>'
    ensures NextAttribute(s) == Some((Attribute("", None), 0))
    ensures ScanAttributes(s) == Some(([], false, 1)) && s[0..] == s
  {
    assert KeyLength(s) == 0 && s[..0] == "" && s[0..] == s;
  }

  lemma StrayQuote(t: string)
    ensures Scan("=\"" + t) == None
  {
    hide Scan;
    var s := "=\"" + t;
    ScanUnfold(s);
    ScanUnfold(s[1..]);
  }

  // ---------------------------------------------------------------- one element with any name

  lemma {:induction false} NameLengthAtLeast(a: string, s: string)
    requires a <= s && forall i :: 0 <= i < |a| ==> !EndsName(a[i])
    ensures NameLength(s) >= |a|
  {
    if a != "" {
      assert a[0] == s[0];
      NameLengthAtLeast(a[1..], s[1..]);
    }
  }

  lemma {:induction false} NameLengthStops(s: string)
    ensures forall i :: 0 <= i < NameLength(s) ==> !EndsName(s[i])
    ensures NameLength(s) < |s| ==> EndsName(s[NameLength(s)])
  {
    if s != "" && !EndsName(s[0]) {
      NameLengthStops(s[1..]);
      assert forall i :: 0 < i < |s| ==> s[i] == s[1..][i - 1];
    }
  }

  lemma {:induction false} KeyLengthInside(u: string, t: string)
    requires t != "" && EndsKey(t[0])
    ensures KeyLength(u + t) == KeyLength(u)
    ensures KeyLength(u) < |u| ==> EndsKey(u[KeyLength(u)])
  {
    if u == "" {
      assert u + t == t;
    } else {
      assert (u + t)[1..] == u[1..] + t;
      KeyLengthInside(u[1..], t);
    }
  }

  /** A rest of an escaped name holds no raw delimiter. */
  predicate IsEscaped(u: string) {
    '"' !in u && '>' !in u
  }

  lemma EscapedTail(u: string, k: nat)
    requires IsEscaped(u) && k <= |u|
    ensures IsEscaped(u[k..])
  {
  }

  /** The rest of a name in front of the attributes, whatever it holds: the scanner gives up, or takes it for
      more attributes, and reads on behind the tag. */
  lemma {:induction false} ScanNameRest(u: string, attributes: seq<Attribute>, more: string)
    requires IsEscaped(u) && GoodAttributes(attributes)
    ensures var r := ScanAttributes(u + (RenderAttributes(attributes) + (">" + more)));
            r.Some? ==> r.value.2 == |u| + |RenderAttributes(attributes)| + 1
    decreases |u|
  {
    hide RenderAttributes, ScanAttributes, NextAttribute, KeyLength, GoodAttributes, IsEscaped;
    var tail := RenderAttributes(attributes) + (">" + more);
    ScanRendered(attributes, ">", more);
    if u == "" {
      assert u + tail == tail;
    } else if u[0] == ' ' {
      var v := u[1..];
      assert u == " " + v;
      EscapedTail(u, 1);
      var k := NameRestBehindSpace(v, tail);
      EscapedTail(v, k);
      ScanNameRest(v[k..], attributes, more);
    } else {
      NoAttribute(u, tail);
      RenderedStartsWith(attributes, ">" + more);
    }
  }

  /** A word of the name is taken for an attribute. */
  lemma NameRestBehindSpace(v: string, tail: string) returns (k: nat)
    requires IsEscaped(v) && tail != "" && EndsName(tail[0])
    ensures k <= |v|
    ensures ScanAttributes(" " + v + tail) == WithAttribute(Attribute(v[..k], None), k + 1, ScanAttributes(v[k..] + tail))
  {
    hide ScanAttributes, NextAttribute, KeyLength, WithAttribute, IsEscaped;
    k := KeyLength(v);
    KeyLengthInside(v, tail);
    BareAttribute(v, tail);
    assert (v + tail)[k..] == v[k..] + tail;
    Regroup(" ", v, tail);
    AttributeBehindSpace(v + tail);
  }

  lemma AttributeBehindSpace(t: string)
    ensures NextAttribute(t) == None ==> ScanAttributes(" " + t) == None
    ensures NextAttribute(t).Some? ==>
              var next := NextAttribute(t).value;
              ScanAttributes(" " + t) == WithAttribute(next.0, next.1 + 1, ScanAttributes(t[next.1..]))
  {
    hide NextAttribute, WithAttribute;
    assert (" " + t)[1..] == t;
  }

  /** A key that is no value's: no raw double quote follows. */
  lemma BareAttribute(v: string, tail: string)
    requires IsEscaped(v) && tail != "" && EndsName(tail[0]) && KeyLength(v + tail) == KeyLength(v)
    ensures NextAttribute(v + tail) == Some((Attribute(v[..KeyLength(v)], None), KeyLength(v)))
  {
    hide KeyLength, ScanValue;
    var k := KeyLength(v);
    var t := (v + tail)[k..];
    assert t == v[k..] + tail && (v + tail)[..k] == v[..k];
    if |t| > 1 && t[0] == '=' {
      assert k + 1 < |v| ==> t[1] == v[k + 1] && v[k + 1] in v;
    }
  }

  /** Where no attribute starts, only a slash in front of the end of the tag is understood. */
  lemma NoAttribute(u: string, tail: string)
    requires u != "" && u[0] != ' ' && IsEscaped(u) && tail != ""
    ensures var r := ScanAttributes(u + tail);
            r.Some? ==> u == "/" && tail[0] == '>' && r.value.2 == 2
  {
    var s := u + tail;
    assert |u| > 1 ==> s[1] == u[1] && u[1] in u;
    assert |u| == 1 ==> u == [u[0]] && s[1] == tail[0];
  }

  /** In front of attributes there is a space. */
  lemma RenderedStartsWith(attributes: seq<Attribute>, t: string)
    requires t != ""
    ensures (RenderAttributes(attributes) + t)[0] == if attributes == [] then t[0] else ' '
    ensures attributes == [] ==> RenderAttributes(attributes) == ""
  {
    if attributes != [] {
      assert RenderAttribute(attributes[0])[0] == ' ';
    }
  }

  /** The first event of an element with any name, if there is one, and the text behind it. */
  lemma FirstEventOfElement(name: string, attributes: seq<Attribute>, more: string) returns (first: Event)
    requires GoodAttributes(attributes)
    ensures var s, e := OpenTag(name, attributes) + more, Escape(name, APOS);
            Scan(s).None? ||
            if e != "" && e[0] == '/' then Scan(s).value != [] && Scan(s).value[0].Close?
            else
              && Scan(s) == Prepended([first], Scan(more))
              && (first.Single? || (first.Open? && first.name != "" && first.name == e[..NameLength(e)]))
  {
    hide Scan, ScanTag, Escape, NameLength, GoodAttributes, RenderAttributes;
    var e := Escape(name, APOS);
    EscapeHidesDelimiters(name, APOS);
    var tail := RenderAttributes(attributes) + (">" + more);
    var body := e + tail;
    assert OpenTag(name, attributes) + more == "<" + body;
    first := Single(name, []);
    if e != "" && e[0] == '/' {
      FirstEventIsClose(body);
    } else {
      RenderedStartsWith(attributes, ">" + more);
      ScanEscapedTag(e, attributes, more);
      if ScanTag(body) == None {
        ScanStops(body);
      } else {
        first := ScanTag(body).value.0;
        var n := ScanTag(body).value.1;
        ScanBehindLess(body, first, n);
        assert body[n..] == more;
      }
    }
  }

  lemma ScanStops(body: string)
    requires body != "" && body[0] != '/' && ScanTag(body) == None
    ensures Scan("<" + body) == None
  {
    assert ("<" + body)[1..] == body;
  }

  lemma FirstEventIsClose(body: string)
    requires body != "" && body[0] == '/'
    ensures var r := Scan("<" + body); r.None? || (r.value != [] && r.value[0].Close?)
  {
  }

  /** An opening tag with an escaped name: the name ends where a space or slash is, and the tag where it was
      meant to. */
  lemma ScanEscapedTag(e: string, attributes: seq<Attribute>, more: string)
    requires IsEscaped(e) && GoodAttributes(attributes)
    ensures var r := ScanTag(e + (RenderAttributes(attributes) + (">" + more)));
            r.Some? ==>
              && r.value.1 == |e| + |RenderAttributes(attributes)| + 1
              && NameLength(e) > 0
              && (r.value.0.Single? || (r.value.0.Open? && r.value.0.name == e[..NameLength(e)]))
  {
    hide ScanAttributes, NameLength, RenderAttributes;
    var tail := RenderAttributes(attributes) + (">" + more);
    ScanRendered(attributes, ">", more);
    NameLengthInside(e, tail);
    var n := NameLength(e);
    assert (e + tail)[..n] == e[..n] && (e + tail)[n..] == e[n..] + tail;
    EscapedTail(e, n);
    ScanNameRest(e[n..], attributes, more);
  }

  lemma {:induction false} NameLengthInside(e: string, t: string)
    requires t != "" && EndsName(t[0])
    ensures NameLength(e + t) == NameLength(e)
  {
    if e == "" {
      assert e + t == t;
    } else {
      assert (e + t)[1..] == e[1..] + t;
      NameLengthInside(e[1..], t);
    }
  }

  /** The closing tag of a name is read, if at all, as the name up to its first '>'. */
  lemma FirstEventOfClosing(name: string) returns (rest: Option<seq<Event>>)
    ensures var seen := name[..IndexOf(name, '>')];
            Scan(CloseTag(name)).None? || Scan(CloseTag(name)) == Prepended([Close(seen)], rest)
  {
    var s := CloseTag(name);
    assert s[2..] == name + ">";
    var n := IndexOf(name, '>');
    assert (name + ">")[..n] == name[..n];
    IndexOfIs(s[2..], '>', n);
    rest := if n == 0 then None else Scan(s[n + 3..]);
  }

  /** An opening and a closing tag of the same name agree only on a good name. */
  lemma TagsAgree(name: string)
    requires var e := Escape(name, APOS);
             e[..NameLength(e)] == name[..IndexOf(name, '>')] && NameLength(e) > 0
    ensures GoodName(name)
  {
    hide Escape, NameLength, IndexOf;
    var e, m := Escape(name, APOS), IndexOf(name, '>');
    var seen, more := name[..m], name[m..];
    NameLengthStops(e);
    assert name == seen + more;
    EscapeConcat(seen, more, APOS);
    forall i | 0 <= i < |seen|
      ensures !EndsName(seen[i])
    {
      assert seen[i] == e[i];
    }
    EscapeKeepsNameTogether(seen);
    NameLengthAtLeast(Escape(seen, APOS), e);
    EscapeGrows(seen, APOS);
    if more != "" {
      LongerName(seen, more);
    } else {
      assert seen == name;
    }
  }

  lemma LongerName(seen: string, more: string)
    requires (forall i :: 0 <= i < |seen| ==> !EndsName(seen[i])) && IsPlain(seen) && more != "" && more[0] == '>'
    ensures NameLength(seen + Escape(more, APOS)) > |seen|
  {
    var e := Escape(more, APOS);
    assert e[0] == '&';
    assert forall i :: 0 <= i < |seen + "&"| ==> !EndsName((seen + "&")[i]);
    NameLengthAtLeast(seen + "&", seen + e);
  }

  /** No stack discipline makes up for an opening tag that is none, or is not closed by its own name. */
  lemma Mismatch(first: Event, content: seq<Html>, seen: string, rest: seq<Event>)
    requires first.Single? || (first.Open? && first.name != seen)
    ensures !Balanced([first] + (WrittenAll(content) + ([Close(seen)] + rest)), [])
  {
    hide Balanced;
    var more := [Close(seen)] + rest;
    var es := WrittenAll(content) + more;
    var stack := if first.Single? then [] else [first.name];
    BalancedBehind(first, es);
    AllWrittenBalances(content, more, stack);
    BalancedClose(seen, rest, stack);
  }

  lemma BalancedBehind(first: Event, es: seq<Event>)
    requires first.Single? || first.Open?
    ensures Balanced([first] + es, []) == Balanced(es, if first.Single? then [] else [first.name])
  {
    assert ([first] + es)[1..] == es;
    assert first.Open? ==> [first.name] + [] == [first.name];
  }

  /** An element with any name, around content whose names and keys hold together: it is well nested exactly
      when its name reads the same in both tags, and so does every name inside. */
  lemma {:induction false} NameMustBeGood(name: string, attributes: seq<Attribute>, content: seq<Html>)
    requires GoodAttributes(attributes) && AllSound(content)
    ensures WellNested(Render(AttributedElement(name, attributes, content))) <==> GoodName(name) && AllPairsMatch(content)
  {
    hide WellNested;
    var h := AttributedElement(name, attributes, content);
    if GoodName(name) {
      assert [h][1..] == [] && RenderAll([h][1..]) == "" && RenderAll([h]) == Render(h);
      assert Sound(h) && AllSound([h]);
      SoundIsWellNestedIff([h]);
      assert AllPairsMatch([h]) == PairsMatch(h);
    } else {
      BadNameIsNotNested(name, attributes, content);
    }
  }

  /** The same for elements without attributes, and with a text for content. */
  lemma {:induction false} PlainNameMustBeGood(name: string, content: seq<Html>, text: string)
    requires AllSound(content)
    ensures WellNested(Render(Element(name, content))) <==> GoodName(name) && AllPairsMatch(content)
    ensures WellNested(Render(TextElement(name, text))) <==> GoodName(name)
  {
    hide WellNested, GoodName;
    NameMustBeGood(name, [], content);
    assert [Text(text)][1..] == [] && AllSound([Text(text)]) && AllPairsMatch([Text(text)]);
    NameMustBeGood(name, [], [Text(text)]);
    assert RenderAll([Text(text)]) == Escape(text, APOS) by {
      assert RenderAll([Text(text)][1..]) == "";
    }
  }

  lemma BadNameIsNotNested(name: string, attributes: seq<Attribute>, content: seq<Html>)
    requires GoodAttributes(attributes) && AllSound(content) && !GoodName(name)
    ensures !WellNested(Render(AttributedElement(name, attributes, content)))
  {
    hide Scan, Balanced, Escape, GoodName, IndexOf, NameLength, AllSound, GoodAttributes, WrittenAll;
    var close := CloseTag(name);
    var e, seen, more := Escape(name, APOS), name[..IndexOf(name, '>')], RenderAll(content) + close;
    var s := OpenTag(name, attributes) + more;
    Regroup(OpenTag(name, attributes), RenderAll(content), close);
    if Scan(s).Some? {
      var first := FirstEventOfElement(name, attributes, more);
      if e != "" && e[0] == '/' {
        CloseIsNotBalanced(Scan(s).value);
      } else {
        ScanAllGenerated(content, close);
        var rest := FirstEventOfClosing(name);
        if first.Open? && first.name == seen {
          TagsAgree(name);
        }
        Mismatch(first, content, seen, if rest.Some? then rest.value else []);
      }
    }
  }

  lemma CloseIsNotBalanced(es: seq<Event>)
    requires es != [] && es[0].Close?
    ensures !Balanced(es, [])
  {
  }
}
