/** A tag scanner that knows nothing of the generator, and what it sees in generated HTML. */
module HtmlScanner {
  import opened CText
  import opened HtmlText
  import opened HtmlGenerator

  datatype Event =
    | Char(c: char)
    | Open(name: string, attributes: seq<Attribute>)
    | Close(name: string)
    | Single(name: string, attributes: seq<Attribute>)

  // ---------------------------------------------------------------- the scanner

  predicate EndsName(c: char) {
    c == ' ' || c == '/' || c == '>'
  }

  function NameLength(s: string): (n: nat)
    ensures n <= |s|
  {
    if s == "" || EndsName(s[0]) then 0 else 1 + NameLength(s[1..])
  }

  predicate EndsKey(c: char) {
    EndsName(c) || c == '='
  }

  function KeyLength(s: string): (n: nat)
    ensures n <= |s|
  {
    if s == "" || EndsKey(s[0]) then 0 else 1 + KeyLength(s[1..])
  }

  /** The quoted value that `s` starts with behind its opening quote, and its bytes with the closing one. */
  function ScanValue(s: string): (r: Option<(string, nat)>)
    ensures r.Some? ==> r.value.1 <= |s|
  {
    var n := IndexOf(s, '"');
    if n == |s| then None
    else
      match Decode(s[..n])
      case None => None
      case Some(v) => Some((v, n + 1))
  }

  /** The attribute that `s` starts with behind a space, and its bytes. */
  function NextAttribute(s: string): (r: Option<(Attribute, nat)>)
    ensures r.Some? ==> r.value.1 <= |s|
  {
    var k := KeyLength(s);
    var key, t := s[..k], s[k..];
    if StartsWith(t, '=', '"') then
      match ScanValue(t[2..])
      case None => None
      case Some((v, n)) => Some((Attribute(key, Some(v)), k + 2 + n))
    else Some((Attribute(key, None), k))
  }

  /** The attributes up to the end of the tag, whether it is a single tag, and the bytes they take. */
  function ScanAttributes(s: string): (r: Option<(seq<Attribute>, bool, nat)>)
    ensures r.Some? ==> r.value.2 <= |s|
    decreases |s|
  {
    if s == "" then None
    else if s[0] == '>' then Some(([], false, 1))
    else if StartsWith(s, '/', '>') then Some(([], true, 2))
    else if s[0] != ' ' then None
    else
      match NextAttribute(s[1..])
      case None => None
      case Some((a, n)) => WithAttribute(a, n + 1, ScanAttributes(s[1..][n..]))
  }

  function WithAttribute(a: Attribute, n: nat, r: Option<(seq<Attribute>, bool, nat)>): Option<(seq<Attribute>, bool, nat)> {
    match r
    case None => None
    case Some((more, single, m)) => Some(([a] + more, single, n + m))
  }

  /** An opening or single tag behind its first character; it has a name. */
  function ScanTag(s: string): (r: Option<(Event, nat)>)
    ensures r.Some? ==> r.value.1 <= |s|
  {
    var n := NameLength(s);
    var name, t := s[..n], s[n..];
    if name == "" then None
    else
      match ScanAttributes(t)
      case None => None
      case Some((attributes, single, m)) =>
        Some((if single then Single(name, attributes) else Open(name, attributes), |name| + m))
  }

  /** The event that a non-empty text starts with, and its bytes. */
  function NextEvent(s: string): (r: Option<(Event, nat)>)
    requires s != ""
    ensures r.Some? ==> 1 <= r.value.1 <= |s|
  {
    if s[0] != '<' then
      match FirstChar(s)
      case None => None
      case Some((c, n)) => Some((Char(c), n))
    else if StartsWith(s, '<', '/') then
      var n := IndexOf(s[2..], '>');
      if n == |s| - 2 || n == 0 then None else Some((Close(s[2..][..n]), n + 3))
    else
      match ScanTag(s[1..])
      case None => None
      case Some((e, n)) => Some((e, n + 1))
  }

  function Prepended(es: seq<Event>, r: Option<seq<Event>>): Option<seq<Event>> {
    match r
    case None => None
    case Some(more) => Some(es + more)
  }

  /** All events of a text; None when it is not made of tags and escaped text. */
  function Scan(s: string): Option<seq<Event>>
    decreases |s|
  {
    if s == "" then Some([])
    else
      match NextEvent(s)
      case None => None
      case Some((e, n)) => Prepended([e], Scan(s[n..]))
  }

  /** The stack discipline: every closing tag closes the last tag still open, and none stays open. */
  predicate Balanced(es: seq<Event>, stack: seq<string>) {
    if es == [] then stack == []
    else
      match es[0]
      case Char(_) => Balanced(es[1..], stack)
      case Single(_, _) => Balanced(es[1..], stack)
      case Open(name, _) => Balanced(es[1..], [name] + stack)
      case Close(name) => stack != [] && stack[0] == name && Balanced(es[1..], stack[1..])
  }

  predicate WellNested(s: string) {
    Scan(s).Some? && Balanced(Scan(s).value, [])
  }

  // ---------------------------------------------------------------- what a program of calls stands for

  function Chars(s: string): seq<Event> {
    if s == "" then [] else [Char(s[0])] + Chars(s[1..])
  }

  function Events(h: Html): seq<Event>
    decreases h, 0
  {
    match h
    case Text(text) => Chars(text)
    case Raw(_) => []
    case Element(name, content) => [Open(name, [])] + EventsOfAll(content) + [Close(name)]
    case EmptyElement(name) => [Single(name, [])]
    case AttributedElement(name, attributes, content) => [Open(name, attributes)] + EventsOfAll(content) + [Close(name)]
    case EmptyAttributedElement(name, attributes) => [Single(name, attributes)]
    case TextElement(name, text) => [Open(name, [])] + Chars(text) + [Close(name)]
  }

  function EventsOfAll(hs: seq<Html>): seq<Event>
    decreases hs
  {
    if hs == [] then [] else Events(hs[0]) + EventsOfAll(hs[1..])
  }

  /** A name that ends where it is meant to. */
  predicate SoundName(name: string) {
    name != "" && forall i :: 0 <= i < |name| ==> !EndsName(name[i])
  }

  /** A name that also reads the same in its opening and its closing tag. */
  predicate GoodName(name: string) {
    SoundName(name) && IsPlain(name)
  }

  predicate GoodAttributeKey(key: string) {
    forall i :: 0 <= i < |key| ==> !EndsKey(key[i])
  }

  predicate GoodAttributes(attributes: seq<Attribute>) {
    forall i :: 0 <= i < |attributes| ==> GoodAttributeKey(attributes[i].key)
  }

  /** Calls without raw text, with names and keys that end where they are meant to. Texts and attribute
      values are arbitrary. */
  predicate Sound(h: Html)
    decreases h, 0
  {
    match h
    case Text(_) => true
    case Raw(_) => false
    case Element(name, content) => SoundName(name) && AllSound(content)
    case EmptyElement(name) => SoundName(name)
    case AttributedElement(name, attributes, content) => SoundName(name) && GoodAttributes(attributes) && AllSound(content)
    case EmptyAttributedElement(name, attributes) => SoundName(name) && GoodAttributes(attributes)
    case TextElement(name, _) => SoundName(name)
  }

  predicate AllSound(hs: seq<Html>)
    decreases hs
  {
    hs == [] || (Sound(hs[0]) && AllSound(hs[1..]))
  }

  /** Every name that is escaped in its tag needs no escaping: all names but those of empty elements
      without attributes. */
  predicate PlainNames(h: Html)
    decreases h, 0
  {
    match h
    case Element(name, content) => IsPlain(name) && AllPlainNames(content)
    case AttributedElement(name, _, content) => IsPlain(name) && AllPlainNames(content)
    case EmptyAttributedElement(name, _) => IsPlain(name)
    case TextElement(name, _) => IsPlain(name)
    case _ => true
  }

  predicate AllPlainNames(hs: seq<Html>)
    decreases hs
  {
    hs == [] || (PlainNames(hs[0]) && AllPlainNames(hs[1..]))
  }

  predicate AllGood(hs: seq<Html>) {
    AllSound(hs) && AllPlainNames(hs)
  }

  /** What stands in the tags: names are escaped where an opening or attributed tag is written. */
  function Written(h: Html): seq<Event>
    decreases h, 0
  {
    match h
    case Text(text) => Chars(text)
    case Raw(_) => []
    case Element(name, content) => [Open(Escape(name, APOS), [])] + WrittenAll(content) + [Close(name)]
    case EmptyElement(name) => [Single(name, [])]
    case AttributedElement(name, attributes, content) =>
      [Open(Escape(name, APOS), attributes)] + WrittenAll(content) + [Close(name)]
    case EmptyAttributedElement(name, attributes) => [Single(Escape(name, APOS), attributes)]
    case TextElement(name, text) => [Open(Escape(name, APOS), [])] + Chars(text) + [Close(name)]
  }

  function WrittenAll(hs: seq<Html>): seq<Event>
    decreases hs
  {
    if hs == [] then [] else Written(hs[0]) + WrittenAll(hs[1..])
  }

  /** What is written is what was said exactly if every escaped name is plain. */
  lemma {:induction false} WrittenIsSaidIff(h: Html)
    ensures |Written(h)| == |Events(h)|
    ensures Written(h) == Events(h) <==> PlainNames(h)
    decreases h, 0
  {
    match h
    case Element(name, content) =>
      ElementIsSaidIff(name, [], content);
    case AttributedElement(name, attributes, content) =>
      ElementIsSaidIff(name, attributes, content);
    case EmptyAttributedElement(name, attributes) =>
      EscapeGrows(name, APOS);
    case TextElement(name, text) =>
      EscapeGrows(name, APOS);
      SameEnds(Open(Escape(name, APOS), []), Open(name, []), Chars(text), Chars(text), Close(name));
    case _ =>
  }

  lemma {:induction false} ElementIsSaidIff(name: string, attributes: seq<Attribute>, content: seq<Html>)
    ensures var w, e := WrittenAll(content), EventsOfAll(content);
            && |w| == |e|
            && ([Open(Escape(name, APOS), attributes)] + w + [Close(name)] == [Open(name, attributes)] + e + [Close(name)]
                <==> IsPlain(name) && AllPlainNames(content))
    decreases content, 1
  {
    AllWrittenIsSaidIff(content);
    EscapeGrows(name, APOS);
    SameEnds(Open(Escape(name, APOS), attributes), Open(name, attributes), WrittenAll(content), EventsOfAll(content), Close(name));
  }

  lemma {:induction false} AllWrittenIsSaidIff(hs: seq<Html>)
    ensures |WrittenAll(hs)| == |EventsOfAll(hs)|
    ensures WrittenAll(hs) == EventsOfAll(hs) <==> AllPlainNames(hs)
    decreases hs, 0
  {
    if hs != [] {
      WrittenIsSaidIff(hs[0]);
      AllWrittenIsSaidIff(hs[1..]);
      SameParts(Written(hs[0]), WrittenAll(hs[1..]), Events(hs[0]), EventsOfAll(hs[1..]));
    }
  }

  lemma SameEnds(a: Event, b: Event, w: seq<Event>, e: seq<Event>, close: Event)
    requires |w| == |e|
    ensures [a] + w + [close] == [b] + e + [close] <==> a == b && w == e
  {
    SameParts([a] + w, [close], [b] + e, [close]);
    SameParts([a], w, [b], e);
  }

  lemma SameParts(a: seq<Event>, b: seq<Event>, c: seq<Event>, d: seq<Event>)
    requires |a| == |c|
    ensures a + b == c + d <==> a == c && b == d
  {
    assert a == (a + b)[..|a|] && b == (a + b)[|a|..];
    assert c == (c + d)[..|c|] && d == (c + d)[|c|..];
  }

  // ---------------------------------------------------------------- scanning generated text

  lemma {:induction false} NameLengthIs(name: string, t: string)
    requires (forall i :: 0 <= i < |name| ==> !EndsName(name[i])) && t != "" && EndsName(t[0])
    ensures NameLength(name + t) == |name|
  {
    if name == "" {
      assert name + t == t;
    } else {
      assert (name + t)[1..] == name[1..] + t;
      NameLengthIs(name[1..], t);
    }
  }

  lemma {:induction false} KeyLengthIs(key: string, t: string)
    requires GoodAttributeKey(key) && t != "" && EndsKey(t[0])
    ensures KeyLength(key + t) == |key|
  {
    if key == "" {
      assert key + t == t;
    } else {
      assert (key + t)[1..] == key[1..] + t;
      KeyLengthIs(key[1..], t);
    }
  }

  /** The end of a tag: ">" or "/>". */
  predicate IsTagEnd(end: string) {
    end == ">" || end == "/>"
  }

  lemma NextBareAttribute(key: string, t: string)
    requires GoodAttributeKey(key) && t != "" && EndsName(t[0])
    ensures NextAttribute(key + t) == Some((Attribute(key, None), |key|))
  {
    KeyLengthIs(key, t);
    assert (key + t)[..|key|] == key && (key + t)[|key|..] == t;
  }

  lemma ScanQuoted(v: string, e: string, t: string)
    requires Decode(e) == Some(v) && '"' !in e
    ensures ScanValue(e + ("\"" + t)) == Some((v, |e| + 1))
  {
    hide Decode, IndexOf;
    var s := e + ("\"" + t);
    assert s[..|e|] == e;
    IndexOfIs(s, '"', |e|);
  }

  lemma NextValuedAttribute(key: string, v: string, e: string, t: string)
    requires GoodAttributeKey(key) && Decode(e) == Some(v) && '"' !in e
    ensures NextAttribute(key + ("=\"" + (e + ("\"" + t)))) == Some((Attribute(key, Some(v)), |key| + |e| + 3))
  {
    hide ScanValue, Decode, KeyLength, GoodAttributeKey;
    var value := e + ("\"" + t);
    var u := "=\"" + value;
    KeyLengthIs(key, u);
    ScanQuoted(v, e, t);
    assert (key + u)[..|key|] == key && (key + u)[|key|..] == u;
    assert u[2..] == value && StartsWith(u, '=', '"');
  }

  lemma ScanAttributeBehindSpace(a: Attribute, s: string, n: nat, t: string)
    requires n <= |s| && NextAttribute(s) == Some((a, n)) && s[n..] == t
    ensures ScanAttributes(" " + s) == WithAttribute(a, n + 1, ScanAttributes(t))
  {
    hide NextAttribute, WithAttribute;
    assert (" " + s)[1..] == s;
  }

  lemma ScanOneAttribute(a: Attribute, t: string)
    requires GoodAttributeKey(a.key) && t != "" && EndsName(t[0])
    ensures ScanAttributes(RenderAttribute(a) + t) == WithAttribute(a, |RenderAttribute(a)|, ScanAttributes(t))
  {
    hide *;
    match a.value
    case None =>
      RenderBareAttribute(a, t);
      NextBareAttribute(a.key, t);
      ScanAttributeBehindSpace(a, a.key + t, |a.key|, t);
    case Some(v) =>
      var e := Escape(v, APOS);
      RenderValuedAttribute(a, t);
      DecodeEscape(v, APOS);
      EscapeHidesDelimiters(v, APOS);
      NextValuedAttribute(a.key, v, e, t);
      ScanAttributeBehindSpace(a, a.key + ("=\"" + (e + ("\"" + t))), |a.key| + |e| + 3, t);
  }

  lemma RenderBareAttribute(a: Attribute, t: string)
    requires a.value == None
    ensures RenderAttribute(a) + t == " " + (a.key + t) && |RenderAttribute(a)| == |a.key| + 1
    ensures (a.key + t)[|a.key|..] == t
  {
  }

  lemma RenderValuedAttribute(a: Attribute, t: string)
    requires a.value.Some?
    ensures var e := Escape(a.value.value, APOS);
            var s := a.key + ("=\"" + (e + ("\"" + t)));
            && RenderAttribute(a) + t == " " + s && |RenderAttribute(a)| == |a.key| + |e| + 4
            && |a.key| + |e| + 3 <= |s| && s[|a.key| + |e| + 3..] == t
            && IsApos(APOS)
  {
    hide Escape;
  }

  lemma ScanTagEnd(end: string, rest: string)
    requires IsTagEnd(end)
    ensures var s := RenderAttributes([]) + (end + rest);
            s != "" && EndsName(s[0]) && ScanAttributes(s) == Some(([], end == "/>", |RenderAttributes([])| + |end|))
  {
    hide NextAttribute;
    assert RenderAttributes([]) + (end + rest) == end + rest;
    assert (end + rest)[0] == end[0];
  }

  lemma {:induction false} ScanRendered(attributes: seq<Attribute>, end: string, rest: string)
    requires GoodAttributes(attributes) && IsTagEnd(end)
    ensures var s := RenderAttributes(attributes) + (end + rest);
            && s != "" && EndsName(s[0])
            && ScanAttributes(s) == Some((attributes, end == "/>", |RenderAttributes(attributes)| + |end|))
    decreases |attributes|
  {
    hide *;
    if attributes == [] {
      ScanTagEnd(end, rest);
    } else {
      AttributesUnfold(attributes);
      var a, more := attributes[0], RenderAttributes(attributes[1..]);
      var t, single := more + (end + rest), end == "/>";
      ScanRendered(attributes[1..], end, rest);
      ScanOneAttribute(a, t);
      RenderedStart(a, t);
      Regroup(RenderAttribute(a), more, end + rest);
      OneMoreAttribute(a, |RenderAttribute(a)|, attributes[1..], single, |more| + |end|);
    }
  }

  lemma AttributesUnfold(attributes: seq<Attribute>)
    requires attributes != []
    ensures RenderAttributes(attributes) == RenderAttribute(attributes[0]) + RenderAttributes(attributes[1..])
    ensures [attributes[0]] + attributes[1..] == attributes
    ensures GoodAttributes(attributes) ==> GoodAttributeKey(attributes[0].key) && GoodAttributes(attributes[1..])
  {
  }

  lemma OneMoreAttribute(a: Attribute, n: nat, more: seq<Attribute>, single: bool, m: nat)
    ensures WithAttribute(a, n, Some((more, single, m))) == Some(([a] + more, single, n + m))
  {
  }

  lemma RenderedStart(a: Attribute, t: string)
    ensures RenderAttribute(a) + t != "" && EndsName((RenderAttribute(a) + t)[0])
  {
  }

  lemma ScanTagBody(name: string, t: string)
    requires name != "" && (forall i :: 0 <= i < |name| ==> !EndsName(name[i])) && t != "" && EndsName(t[0])
    ensures ScanTag(name + t) ==
            match ScanAttributes(t)
            case None => None
            case Some((attributes, single, m)) =>
              Some((if single then Single(name, attributes) else Open(name, attributes), |name| + m))
  {
    hide ScanAttributes, NameLength;
    NameLengthIs(name, t);
    assert (name + t)[..|name|] == name && (name + t)[|name|..] == t;
  }

  lemma ScanUnfold(s: string)
    requires s != ""
    ensures NextEvent(s) == None ==> Scan(s) == None
    ensures NextEvent(s).Some? ==> Scan(s) == Prepended([NextEvent(s).value.0], Scan(s[NextEvent(s).value.1..]))
  {
    hide NextEvent, Prepended;
  }

  lemma ScanBehindLess(body: string, e: Event, n: nat)
    requires body != "" && body[0] != '/' && n <= |body| && ScanTag(body) == Some((e, n))
    ensures Scan("<" + body) == Prepended([e], Scan(body[n..]))
  {
    hide ScanTag, FirstChar, IndexOf, Scan, Prepended;
    var s := "<" + body;
    assert s[1..] == body && s[n + 1..] == body[n..];
    ScanUnfold(s);
  }

  lemma ScanOpeningTag(name: string, attributes: seq<Attribute>, end: string, rest: string)
    requires SoundName(name) && GoodAttributes(attributes) && IsTagEnd(end)
    ensures var tag := "<" + name + RenderAttributes(attributes) + end;
            Scan(tag + rest) == Prepended([if end == ">" then Open(name, attributes) else Single(name, attributes)], Scan(rest))
  {
    hide Scan, ScanTag, ScanAttributes, RenderAttributes;
    var r := RenderAttributes(attributes);
    var t := r + (end + rest);
    ScanRendered(attributes, end, rest);
    ScanTagBody(name, t);
    var n := |name| + |r| + |end|;
    TagParts(name, r, end, rest);
    ScanBehindLess(name + t, if end == ">" then Open(name, attributes) else Single(name, attributes), n);
  }

  lemma TagParts(name: string, r: string, end: string, rest: string)
    requires name != ""
    ensures var body := name + (r + (end + rest));
            && body != "" && body[0] == name[0]
            && "<" + name + r + end + rest == "<" + body
            && |name| + |r| + |end| <= |body| && body[|name| + |r| + |end|..] == rest
  {
  }

  lemma ScanClosingTag(name: string, rest: string)
    requires SoundName(name)
    ensures Scan(CloseTag(name) + rest) == Prepended([Close(name)], Scan(rest))
  {
    var s := CloseTag(name) + rest;
    assert s[2..] == name + ">" + rest;
    assert s[2..][..|name|] == name;
    IndexOfIs(s[2..], '>', |name|);
    assert s[|CloseTag(name)|..] == rest;
  }

  lemma {:induction false} ScanText(text: string, rest: string)
    ensures Scan(Escape(text, APOS) + rest) == Prepended(Chars(text), Scan(rest))
  {
    if text == "" {
      assert Escape(text, APOS) + rest == rest;
      NothingPrepended(Scan(rest));
    } else {
      var e, t := EscapeChar(text[0], APOS), Escape(text[1..], APOS) + rest;
      assert Escape(text, APOS) + rest == e + t;
      FirstCharOfEscaped(text[0], APOS, t);
      assert (e + t)[|e|..] == t;
      ScanText(text[1..], rest);
      PrependedTwice([Char(text[0])], Chars(text[1..]), Scan(rest));
    }
  }

  lemma NothingPrepended(r: Option<seq<Event>>)
    ensures Prepended([], r) == r
  {
    if r.Some? {
      assert [] + r.value == r.value;
    }
  }

  lemma PrependedTwice(a: seq<Event>, b: seq<Event>, r: Option<seq<Event>>)
    ensures Prepended(a, Prepended(b, r)) == Prepended(a + b, r)
  {
    if r.Some? {
      assert a + (b + r.value) == a + b + r.value;
    }
  }

  lemma {:induction false} EscapeKeepsNameTogether(name: string)
    requires forall i :: 0 <= i < |name| ==> !EndsName(name[i])
    ensures forall i :: 0 <= i < |Escape(name, APOS)| ==> !EndsName(Escape(name, APOS)[i])
  {
    if name != "" {
      EscapeKeepsNameTogether(name[1..]);
      var e := EscapeChar(name[0], APOS);
      assert forall i :: 0 <= i < |e| ==> !EndsName(e[i]);
    }
  }

  lemma EscapedNameIsSound(name: string)
    requires SoundName(name)
    ensures SoundName(Escape(name, APOS))
  {
    EscapeKeepsNameTogether(name);
    EscapeGrows(name, APOS);
  }

  /** An element around anything that scans well. */
  lemma ScanElement(name: string, attributes: seq<Attribute>, inner: string, events: seq<Event>, rest: string)
    requires SoundName(name) && GoodAttributes(attributes)
    requires Scan(inner + (CloseTag(name) + rest)) == Prepended(events, Scan(CloseTag(name) + rest))
    ensures Scan(OpenTag(name, attributes) + inner + CloseTag(name) + rest)
            == Prepended([Open(Escape(name, APOS), attributes)] + events + [Close(name)], Scan(rest))
  {
    hide Scan, Escape, SoundName, GoodAttributes, RenderAttributes, CloseTag;
    EscapedNameIsSound(name);
    var open := Open(Escape(name, APOS), attributes);
    var more := inner + (CloseTag(name) + rest);
    ScanOpeningTag(Escape(name, APOS), attributes, ">", more);
    RegroupFour(OpenTag(name, attributes), inner, CloseTag(name), rest);
    ScanClosingTag(name, rest);
    PrependedTwice(events, [Close(name)], Scan(rest));
    PrependedTwice([open], events + [Close(name)], Scan(rest));
    Regroup([open], events, [Close(name)]);
  }

  /** The scanner sees exactly what stands in the tags: the same attributes and characters, and the names as
      they are written. */
  lemma {:induction false} ScanGenerated(h: Html, rest: string)
    requires Sound(h)
    ensures Scan(Render(h) + rest) == Prepended(Written(h), Scan(rest))
    decreases h, 0
  {
    hide Scan, SoundName;
    match h
    case Text(text) =>
      ScanText(text, rest);
    case Element(name, content) =>
      ScanAllGenerated(content, CloseTag(name) + rest);
      ScanElement(name, [], RenderAll(content), WrittenAll(content), rest);
    case EmptyElement(name) =>
      ScanOpeningTag(name, [], "/>", rest);
      assert "<" + name + RenderAttributes([]) + "/>" == Render(h);
    case AttributedElement(name, attributes, content) =>
      ScanAllGenerated(content, CloseTag(name) + rest);
      ScanElement(name, attributes, RenderAll(content), WrittenAll(content), rest);
    case EmptyAttributedElement(name, attributes) =>
      EscapedNameIsSound(name);
      ScanOpeningTag(Escape(name, APOS), attributes, "/>", rest);
    case TextElement(name, text) =>
      ScanText(text, CloseTag(name) + rest);
      ScanElement(name, [], Escape(text, APOS), Chars(text), rest);
  }

  lemma {:induction false} ScanAllGenerated(hs: seq<Html>, rest: string)
    requires AllSound(hs)
    ensures Scan(RenderAll(hs) + rest) == Prepended(WrittenAll(hs), Scan(rest))
    decreases hs
  {
    hide Scan;
    if hs == [] {
      assert "" + rest == rest;
      NothingPrepended(Scan(rest));
    } else {
      var more := RenderAll(hs[1..]) + rest;
      Regroup(Render(hs[0]), RenderAll(hs[1..]), rest);
      ScanGenerated(hs[0], more);
      ScanAllGenerated(hs[1..], rest);
      PrependedTwice(Written(hs[0]), WrittenAll(hs[1..]), Scan(rest));
    }
  }

  lemma ScanWholeTree(hs: seq<Html>)
    requires AllSound(hs)
    ensures Scan(RenderAll(hs)) == Some(WrittenAll(hs))
  {
    ScanAllGenerated(hs, "");
    assert RenderAll(hs) + "" == RenderAll(hs);
    assert WrittenAll(hs) + [] == WrittenAll(hs);
  }

  // ---------------------------------------------------------------- nesting

  lemma {:induction false} CharsBalance(text: string, rest: seq<Event>, stack: seq<string>)
    ensures Balanced(Chars(text) + rest, stack) == Balanced(rest, stack)
  {
    if text == "" {
      assert Chars(text) + rest == rest;
    } else {
      assert (Chars(text) + rest)[1..] == Chars(text[1..]) + rest;
      CharsBalance(text[1..], rest, stack);
    }
  }

  /** The names of all elements with a closing tag need no escaping. */
  predicate PairsMatch(h: Html)
    decreases h, 0
  {
    match h
    case Element(name, content) => IsPlain(name) && AllPairsMatch(content)
    case AttributedElement(name, _, content) => IsPlain(name) && AllPairsMatch(content)
    case TextElement(name, _) => IsPlain(name)
    case _ => true
  }

  predicate AllPairsMatch(hs: seq<Html>)
    decreases hs
  {
    hs == [] || (PairsMatch(hs[0]) && AllPairsMatch(hs[1..]))
  }

  lemma BalancedOpen(open: Event, es: seq<Event>, stack: seq<string>)
    requires open.Open?
    ensures Balanced([open] + es, stack) == Balanced(es, [open.name] + stack)
  {
    assert ([open] + es)[1..] == es;
  }

  lemma BalancedClose(name: string, es: seq<Event>, stack: seq<string>)
    ensures Balanced([Close(name)] + es, stack) == (stack != [] && stack[0] == name && Balanced(es, stack[1..]))
  {
    assert ([Close(name)] + es)[1..] == es;
  }

  /** An element is closed by its own name, if its content leaves the stack as it was. */
  lemma ElementBalances(name: string, attributes: seq<Attribute>, inner: seq<Event>, matches: bool, rest: seq<Event>, stack: seq<string>)
    requires forall s: seq<string> ::
               Balanced(inner + ([Close(name)] + rest), s) == (matches && Balanced([Close(name)] + rest, s))
    ensures Balanced([Open(Escape(name, APOS), attributes)] + inner + [Close(name)] + rest, stack)
            == (IsPlain(name) && matches && Balanced(rest, stack))
  {
    hide Balanced, Escape, IsPlain;
    var open := Open(Escape(name, APOS), attributes);
    EscapeGrows(name, APOS);
    RegroupFour([open], inner, [Close(name)], rest);
    Regroup(inner, [Close(name)], rest);
    BalancedOpen(open, inner + ([Close(name)] + rest), stack);
    BalancedClose(name, rest, [open.name] + stack);
    assert ([open.name] + stack)[1..] == stack;
  }

  /** What is written for any calls leaves the stack as it was, exactly if the names of all pairs match; no
      other name makes up for a mismatch. */
  lemma {:induction false} WrittenBalances(h: Html, rest: seq<Event>, stack: seq<string>)
    ensures Balanced(Written(h) + rest, stack) == (PairsMatch(h) && Balanced(rest, stack))
    decreases h, 0
  {
    hide Escape, IsPlain;
    match h
    case Text(text) =>
      CharsBalance(text, rest, stack);
    case Raw(_) =>
      assert [] + rest == rest;
    case Element(name, content) =>
      ContentBalances(name, [], content, rest, stack);
    case EmptyElement(name) =>
      assert ([Single(name, [])] + rest)[1..] == rest;
    case AttributedElement(name, attributes, content) =>
      ContentBalances(name, attributes, content, rest, stack);
    case EmptyAttributedElement(name, attributes) =>
      assert ([Single(Escape(name, APOS), attributes)] + rest)[1..] == rest;
    case TextElement(name, text) =>
      forall s: seq<string>
        ensures Balanced(Chars(text) + ([Close(name)] + rest), s) == Balanced([Close(name)] + rest, s)
      {
        CharsBalance(text, [Close(name)] + rest, s);
      }
      ElementBalances(name, [], Chars(text), true, rest, stack);
  }

  lemma {:induction false} ContentBalances(name: string, attributes: seq<Attribute>, content: seq<Html>, rest: seq<Event>,
                                           stack: seq<string>)
    ensures Balanced([Open(Escape(name, APOS), attributes)] + WrittenAll(content) + [Close(name)] + rest, stack)
            == (IsPlain(name) && AllPairsMatch(content) && Balanced(rest, stack))
    decreases content, 1
  {
    hide Escape, IsPlain;
    forall s: seq<string>
      ensures Balanced(WrittenAll(content) + ([Close(name)] + rest), s)
              == (AllPairsMatch(content) && Balanced([Close(name)] + rest, s))
    {
      AllWrittenBalances(content, [Close(name)] + rest, s);
    }
    ElementBalances(name, attributes, WrittenAll(content), AllPairsMatch(content), rest, stack);
  }

  lemma {:induction false} AllWrittenBalances(hs: seq<Html>, rest: seq<Event>, stack: seq<string>)
    ensures Balanced(WrittenAll(hs) + rest, stack) == (AllPairsMatch(hs) && Balanced(rest, stack))
    decreases hs, 0
  {
    if hs == [] {
      assert [] + rest == rest;
    } else {
      var more := WrittenAll(hs[1..]) + rest;
      Regroup(Written(hs[0]), WrittenAll(hs[1..]), rest);
      WrittenBalances(hs[0], more, stack);
      AllWrittenBalances(hs[1..], rest, stack);
    }
  }

  /** Calls whose names and keys hold together give well nested text exactly if the names of all elements with
      a closing tag need no escaping, in whatever tree they stand. */
  lemma SoundIsWellNestedIff(hs: seq<Html>)
    requires AllSound(hs)
    ensures WellNested(RenderAll(hs)) <==> AllPairsMatch(hs)
  {
    hide Scan;
    ScanWholeTree(hs);
    assert WrittenAll(hs) + [] == WrittenAll(hs);
    AllWrittenBalances(hs, [], []);
  }

  lemma {:induction false} PlainNamesMatch(h: Html)
    ensures PlainNames(h) ==> PairsMatch(h)
    decreases h, 0
  {
    match h
    case Element(_, content) => AllPlainNamesMatch(content);
    case AttributedElement(_, _, content) => AllPlainNamesMatch(content);
    case _ =>
  }

  lemma {:induction false} AllPlainNamesMatch(hs: seq<Html>)
    ensures AllPlainNames(hs) ==> AllPairsMatch(hs)
    decreases hs
  {
    if hs != [] {
      PlainNamesMatch(hs[0]);
      AllPlainNamesMatch(hs[1..]);
    }
  }

  /** Good calls give well nested text that says what the calls said. */
  lemma GeneratedIsWellNested(hs: seq<Html>)
    requires AllGood(hs)
    ensures Scan(RenderAll(hs)) == Some(EventsOfAll(hs)) && WellNested(RenderAll(hs))
  {
    hide WellNested, Scan;
    ScanWholeTree(hs);
    AllWrittenIsSaidIff(hs);
    AllPlainNamesMatch(hs);
    SoundIsWellNestedIff(hs);
  }
}
