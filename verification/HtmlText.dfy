/** Escaped text: the five entities that the shell and the HTML generator write, and their decoder. */
module HtmlText {
  import opened CText

  /** The characters that are never written raw. */
  predicate IsSpecial(c: char) {
    c == '&' || c == '<' || c == '>' || c == '\'' || c == '"'
  }

  predicate IsPlain(s: string) {
    forall i :: 0 <= i < |s| ==> !IsSpecial(s[i])
  }

  /** The two writers differ in the entity for the apostrophe only. */
  predicate IsApos(apos: string) {
    apos == "&apos;" || apos == "&#39;"
  }

  function EscapeChar(c: char, apos: string): string {
    if c == '&' then "&amp;"
    else if c == '<' then "&lt;"
    else if c == '>' then "&gt;"
    else if c == '"' then "&quot;"
    else if c == '\'' then apos
    else [c]
  }

  function Escape(s: string, apos: string): string {
    if s == "" then "" else EscapeChar(s[0], apos) + Escape(s[1..], apos)
  }

  lemma {:induction false} EscapeConcat(s: string, t: string, apos: string)
    ensures Escape(s + t, apos) == Escape(s, apos) + Escape(t, apos)
  {
    if s == "" {
      assert s + t == t;
    } else {
      assert (s + t)[1..] == s[1..] + t;
      EscapeConcat(s[1..], t, apos);
    }
  }

  lemma {:induction false} EscapePlain(s: string, apos: string)
    requires IsPlain(s)
    ensures Escape(s, apos) == s
  {
    if s != "" {
      EscapePlain(s[1..], apos);
    }
  }

  lemma EscapeOne(c: char, apos: string)
    ensures Escape([c], apos) == EscapeChar(c, apos)
  {
    assert Escape([c][1..], apos) == "";
  }

  /** Whether the four bytes behind the first one are these. */
  predicate Behind(s: string, b: char, c: char, d: char, e: char) {
    |s| > 4 && s[1] == b && s[2] == c && s[3] == d && s[4] == e
  }

  /** The character and the length of the entity that `s` starts with. */
  function Entity(s: string): (r: Option<(char, nat)>)
    requires s != ""
    ensures r.Some? ==> 1 <= r.value.1 <= |s|
  {
    if Behind(s, 'a', 'm', 'p', ';') then Some(('&', 5))
    else if |s| > 3 && s[1] == 'l' && s[2] == 't' && s[3] == ';' then Some(('<', 4))
    else if |s| > 3 && s[1] == 'g' && s[2] == 't' && s[3] == ';' then Some(('>', 4))
    else if Behind(s, 'q', 'u', 'o', 't') && |s| > 5 && s[5] == ';' then Some(('"', 6))
    else if Behind(s, 'a', 'p', 'o', 's') && |s| > 5 && s[5] == ';' then Some(('\'', 6))
    else if Behind(s, '#', '3', '9', ';') then Some(('\'', 5))
    else None
  }

  /** The first character of an escaped text and the bytes it takes; None for a raw special character
      and for an unknown entity. */
  function FirstChar(s: string): (r: Option<(char, nat)>)
    requires s != ""
    ensures r.Some? ==> 1 <= r.value.1 <= |s|
  {
    if s[0] == '&' then Entity(s)
    else if IsSpecial(s[0]) then None
    else Some((s[0], 1))
  }

  function Decode(s: string): Option<string> {
    if s == "" then Some("")
    else
      match FirstChar(s)
      case None => None
      case Some((c, n)) =>
        match Decode(s[n..])
        case None => None
        case Some(t) => Some([c] + t)
  }

  lemma FirstCharOfEscaped(c: char, apos: string, rest: string)
    requires IsApos(apos)
    ensures FirstChar(EscapeChar(c, apos) + rest) == Some((c, |EscapeChar(c, apos)|))
  {
    var e := EscapeChar(c, apos);
    assert forall i :: 0 <= i < |e| ==> (e + rest)[i] == e[i];
  }

  /** Decoding gives back the text, so escaping is injective. */
  lemma {:induction false} DecodeEscape(s: string, apos: string)
    requires IsApos(apos)
    ensures Decode(Escape(s, apos)) == Some(s)
  {
    if s != "" {
      var e, rest := EscapeChar(s[0], apos), Escape(s[1..], apos);
      FirstCharOfEscaped(s[0], apos, rest);
      assert (e + rest)[|e|..] == rest;
      DecodeEscape(s[1..], apos);
      assert [s[0]] + s[1..] == s;
    }
  }

  /** Escaped text holds no character that could end a tag or an attribute value. */
  lemma {:induction false} EscapeHidesDelimiters(s: string, apos: string)
    requires IsApos(apos)
    ensures '<' !in Escape(s, apos) && '>' !in Escape(s, apos) && '"' !in Escape(s, apos)
  {
    if s != "" {
      hide EscapeChar;
      EscapeHidesDelimiters(s[1..], apos);
      EscapeCharHidesDelimiters(s[0], apos);
    }
  }

  lemma EscapeCharHidesDelimiters(c: char, apos: string)
    requires IsApos(apos)
    ensures '<' !in EscapeChar(c, apos) && '>' !in EscapeChar(c, apos) && '"' !in EscapeChar(c, apos)
  {
  }

  lemma {:induction false} EscapeGrows(s: string, apos: string)
    requires IsApos(apos)
    ensures |Escape(s, apos)| >= |s|
    ensures Escape(s, apos) == s <==> IsPlain(s)
  {
    if s != "" {
      EscapeGrows(s[1..], apos);
      if !IsSpecial(s[0]) {
        assert Escape(s, apos)[1..] == Escape(s[1..], apos);
        assert s == [s[0]] + s[1..];
        assert IsPlain(s) <==> IsPlain(s[1..]) by {
          if IsPlain(s[1..]) {
            assert forall i :: 1 <= i < |s| ==> s[i] == s[1..][i - 1];
          }
        }
      }
    }
  }

  /** The scan for the next special character. */
  method PlainLength(s: string) returns (i: nat)
    ensures i <= |s| && IsPlain(s[..i]) && (i < |s| ==> IsSpecial(s[i]))
  {
    i := 0;
    while i < |s| && s[i] != '<' && s[i] != '&' && s[i] != '>' && s[i] != '"' && s[i] != '\''
      invariant 0 <= i <= |s| && IsPlain(s[..i])
    {
      assert s[..i + 1] == s[..i] + [s[i]];
      i := i + 1;
    }
  }

  lemma EscapeChunk(s: string, i: nat, apos: string)
    requires i <= |s| && IsPlain(s[..i])
    ensures Escape(s, apos) == if i == |s| then s else s[..i] + EscapeChar(s[i], apos) + Escape(s[i + 1..], apos)
  {
    assert s == s[..i] + s[i..];
    EscapePlain(s[..i], apos);
    EscapeConcat(s[..i], s[i..], apos);
    if i < |s| {
      assert s[i..][1..] == s[i + 1..];
    }
  }

  lemma NothingEscaped(apos: string)
    ensures Escape("", apos) == ""
  {
  }

  /** One turn of output_html_string: a chunk of plain characters and the entity behind it. */
  method PutChunk(out: Sink, s: string) returns (rest: string)
    requires s != ""
    modifies out
    ensures |rest| < |s|
    ensures out.text + Escape(rest, "&#39;") == old(out.text) + Escape(s, "&#39;")
  {
    hide Escape, EscapeChar, IsPlain;
    NothingEscaped("&#39;");
    var i := PlainLength(s);
    EscapeChunk(s, i, "&#39;");
    if i > 0 {
      out.Put(s[..i]);
    }
    if i == |s| {
      return "";
    }
    PutEntity(out, s[i]);
    rest := s[i + 1..];
  }

  /** output_html_string; a null pointer prints nothing. */
  method OutputHtmlString(out: Sink, z: Option<string>)
    requires z.Some? ==> NulFree(z.value)
    modifies out
    ensures out.text == old(out.text) + Escape(if z.Some? then z.value else "", "&#39;")
  {
    var s := if z.Some? then z.value else "";
    ghost var whole := s;
    while s != ""
      invariant out.text + Escape(s, "&#39;") == old(out.text) + Escape(whole, "&#39;")
      decreases |s|
    {
      s := PutChunk(out, s);
    }
  }

  /** The five branches behind a chunk. */
  method PutEntity(out: Sink, c: char)
    requires IsSpecial(c)
    modifies out
    ensures out.text == old(out.text) + EscapeChar(c, "&#39;")
  {
    if c == '<' {
      out.Put("&lt;");
    } else if c == '&' {
      out.Put("&amp;");
    } else if c == '>' {
      out.Put("&gt;");
    } else if c == '"' {
      out.Put("&quot;");
    } else {
      out.Put("&#39;");
    }
  }
}
