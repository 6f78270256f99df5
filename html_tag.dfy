/** Start tags as the renderers write them: `<name` followed by
    `name="value"` attributes, each after one space, and a closing `>`.
    `Parse` reads such a tag back; `ParseRender` shows that it recovers
    exactly what `Render` wrote, which is how the renderers' attribute
    choices are stated. */
module HtmlTag {
  import opened JsString

  datatype Attribute = Attribute(name: string, value: string)

  datatype StartTag = StartTag(name: string, attributes: seq<Attribute>)

  /** Characters that may appear in a tag or attribute name. */
  predicate IsNameChar(c: char) {
    c != ' ' && c != '\n' && c != '>' && c != '<' && c != '=' && c != '"' && c != '/'
  }

  predicate IsName(s: string) {
    |s| > 0 && forall i :: 0 <= i < |s| ==> IsNameChar(s[i])
  }

  predicate WellFormedAttribute(a: Attribute) {
    IsName(a.name) && '"' !in a.value
  }

  predicate WellFormed(t: StartTag) {
    IsName(t.name) && forall i :: 0 <= i < |t.attributes| ==> WellFormedAttribute(t.attributes[i])
  }

  function RenderAttributes(attrs: seq<Attribute>): string {
    if attrs == [] then ""
    else " " + attrs[0].name + "=\"" + attrs[0].value + "\"" + RenderAttributes(attrs[1..])
  }

  function Render(t: StartTag): string {
    "<" + t.name + RenderAttributes(t.attributes) + ">"
  }

  /** The attribute called `name`, if the list has one. */
  function Lookup(attrs: seq<Attribute>, name: string): Option<string> {
    if attrs == [] then None
    else if attrs[0].name == name then Some(attrs[0].value)
    else Lookup(attrs[1..], name)
  }

  /** The longest prefix of `s` made of name characters. */
  function NamePrefix(s: string): (r: string)
    ensures |r| <= |s| && r == s[..|r|]
    ensures forall i :: 0 <= i < |r| ==> IsNameChar(r[i])
    ensures |r| < |s| ==> !IsNameChar(s[|r|])
  {
    if s == [] || !IsNameChar(s[0]) then [] else [s[0]] + NamePrefix(s[1..])
  }

  /** Reads one ` name="value"` pair at the front of `s` and returns it
      with the text after its closing quote. */
  function ParseAttribute(s: string): (r: Option<(Attribute, string)>)
    ensures r.Some? ==> |r.value.1| < |s|
  {
    if s == [] || s[0] != ' ' then None
    else
      var name := NamePrefix(s[1..]);
      var k := 1 + |name|;
      if name == [] || k + 2 > |s| || s[k] != '=' || s[k + 1] != '"' || '"' !in s[k + 2..] then None
      else
        var v := FirstIndexOfChar(s[k + 2..], '"');
        Some((Attribute(name, s[k + 2..k + 2 + v]), s[k + 3 + v..]))
  }

  /** Reads ` name="value"` pairs up to and including the closing `>`. */
  function ParseAttributes(s: string): Option<(seq<Attribute>, string)>
    decreases |s|
  {
    if s == [] then None
    else if s[0] == '>' then Some(([], s[1..]))
    else
      match ParseAttribute(s)
      case None => None
      case Some((a, after)) =>
        match ParseAttributes(after)
        case None => None
        case Some((attrs, rest)) => Some(([a] + attrs, rest))
  }

  /** Reads one start tag at the front of `s` and returns it with the text
      that follows it. */
  function Parse(s: string): Option<(StartTag, string)> {
    if s == [] || s[0] != '<' then None
    else
      var name := NamePrefix(s[1..]);
      if name == [] then None
      else
        match ParseAttributes(s[1 + |name|..])
        case None => None
        case Some((attrs, rest)) => Some((StartTag(name, attrs), rest))
  }

  lemma {:induction false} NamePrefixOf(name: string, rest: string)
    requires forall i :: 0 <= i < |name| ==> IsNameChar(name[i])
    requires rest != [] && !IsNameChar(rest[0])
    ensures NamePrefix(name + rest) == name
  {
    if name != [] {
      assert (name + rest)[1..] == name[1..] + rest;
      NamePrefixOf(name[1..], rest);
    }
  }

  /** One written attribute is read back, and the text after it is
      what remains. */
  lemma ParseOneAttribute(a: Attribute, tail: string)
    requires WellFormedAttribute(a)
    ensures ParseAttribute(" " + a.name + "=\"" + a.value + "\"" + tail) == Some((a, tail))
  {
    var s := " " + a.name + "=\"" + a.value + "\"" + tail;
    var k := 1 + |a.name|;
    AttributeFields(s, a.name, a.value, tail);
    NamePrefixOf(a.name, "=\"" + a.value + "\"" + tail);
    ParseAttributeAt(s, a.name, a.value, tail);
  }

  lemma ParseAttributeAt(s: string, name: string, value: string, tail: string)
    requires |s| > 2 + |name| && s[0] == ' ' && name != [] && NamePrefix(s[1..]) == name
    requires s[1 + |name|] == '=' && s[2 + |name|] == '"'
    requires s[3 + |name|..] == value + "\"" + tail && '"' !in value
    requires s[3 + |name|..3 + |name| + |value|] == value && s[4 + |name| + |value|..] == tail
    ensures ParseAttribute(s) == Some((Attribute(name, value), tail))
  {
    ValueEnd(value, tail);
  }

  /** Where the parts of one written attribute lie. */
  lemma AttributeFields(s: string, name: string, value: string, tail: string)
    requires s == " " + name + "=\"" + value + "\"" + tail
    ensures s[0] == ' ' && s[1..] == name + ("=\"" + value + "\"" + tail)
    ensures s[1 + |name|] == '=' && s[2 + |name|] == '"'
    ensures s[3 + |name|..] == value + "\"" + tail
    ensures s[3 + |name|..3 + |name| + |value|] == value
    ensures s[4 + |name| + |value|..] == tail
  {
    var p := " " + name + "=\"";
    assert s == p + (value + "\"" + tail);
    assert s[|p|..] == value + "\"" + tail;
  }

  lemma ValueEnd(value: string, tail: string)
    requires '"' !in value
    ensures '"' in value + "\"" + tail
    ensures FirstIndexOfChar(value + "\"" + tail, '"') == |value|
  {
    var u := value + "\"" + tail;
    assert u[|value|] == '"';
    assert u[..|value|] == value;
  }

  lemma {:induction false} ParseRenderAttributes(attrs: seq<Attribute>, rest: string)
    requires forall i :: 0 <= i < |attrs| ==> WellFormedAttribute(attrs[i])
    ensures ParseAttributes(RenderAttributes(attrs) + ">" + rest) == Some((attrs, rest))
  {
    if attrs == [] {
      assert RenderAttributes(attrs) + ">" + rest == ">" + rest;
    } else {
      var a := attrs[0];
      var tail := RenderAttributes(attrs[1..]) + ">" + rest;
      assert RenderAttributes(attrs) + ">" + rest == " " + a.name + "=\"" + a.value + "\"" + tail;
      ParseOneAttribute(a, tail);
      ParseRenderAttributes(attrs[1..], rest);
      assert [a] + attrs[1..] == attrs;
    }
  }

  lemma RenderOneAttribute(a: Attribute)
    ensures RenderAttributes([a]) == " " + a.name + "=\"" + a.value + "\""
  {
    assert [a][1..] == [];
    assert RenderAttributes([a]) == " " + a.name + "=\"" + a.value + "\"" + "";
  }

  lemma RenderBare(name: string)
    ensures Render(StartTag(name, [])) == "<" + name + ">"
  {
  }

  lemma RenderSingle(name: string, a: Attribute)
    ensures Render(StartTag(name, [a])) == "<" + name + " " + a.name + "=\"" + a.value + "\"" + ">"
  {
    assert [a][1..] == [];
    assert RenderAttributes([a]) == " " + a.name + "=\"" + a.value + "\"" + "";
  }

  lemma {:induction false} RenderAttributesConcat(x: seq<Attribute>, y: seq<Attribute>)
    ensures RenderAttributes(x + y) == RenderAttributes(x) + RenderAttributes(y)
  {
    if x != [] {
      assert (x + y)[0] == x[0];
      assert (x + y)[1..] == x[1..] + y;
      RenderAttributesConcat(x[1..], y);
    } else {
      assert x + y == y;
    }
  }

  /** A name spelled with lower-case ASCII letters and digits. */
  predicate IsPlainName(s: string) {
    |s| > 0 && forall i :: 0 <= i < |s| ==> 'a' <= s[i] <= 'z' || '0' <= s[i] <= '9'
  }

  lemma PlainNameIsName(s: string)
    requires IsPlainName(s)
    ensures IsName(s)
  {
  }

  /** Reading back a well-formed start tag gives the tag and the text after
      it. */
  lemma ParseRender(t: StartTag, rest: string)
    requires WellFormed(t)
    ensures Parse(Render(t) + rest) == Some((t, rest))
  {
    var s := Render(t) + rest;
    var tail := RenderAttributes(t.attributes) + ">" + rest;
    assert s == "<" + t.name + tail;
    assert s[1..] == t.name + tail;
    assert tail[0] == ' ' || tail[0] == '>';
    NamePrefixOf(t.name, tail);
    assert s[1 + |t.name|..] == tail;
    ParseRenderAttributes(t.attributes, rest);
  }
}
