/** Reading a link-format document (RFC 6690) back: what the printer writes are the paths, attributes and marks of
    the resources. */
module CoapLinksReading {
  import opened CoapLinks

  // ---- a reader ----

  /** The characters of `s` up to the first one in `stops`. */
  function Before(s: string, stops: string): (t: string)
    ensures t <= s
  {
    if s == "" || s[0] in stops then "" else [s[0]] + Before(s[1..], stops)
  }

  function From(s: string, stops: string): string {
    s[|Before(s, stops)|..]
  }

  datatype Link = Link(target: string, attributes: seq<Attribute>)

  /** The attributes at the head of `s`, and what follows them. */
  function ReadAttributes(s: string): (seq<Attribute>, string)
    decreases |s|
  {
    if s == "" || s[0] != ';' then ([], s)
    else
      var name, rest := Before(s[1..], "=;,"), From(s[1..], "=;,");
      if rest != "" && rest[0] == '=' then
        var (more, end) := ReadAttributes(From(rest[1..], ";,"));
        ([Attribute(name, true, Before(rest[1..], ";,"))] + more, end)
      else
        var (more, end) := ReadAttributes(rest);
        ([Attribute(name, false, "")] + more, end)
  }

  /** The links of a document; reading stops at anything else. */
  function ReadLinks(s: string): seq<Link>
    decreases |s|
  {
    if |s| < 2 || s[..2] != "</" then []
    else
      var target, rest := Before(s[2..], ">"), From(s[2..], ">");
      if rest == "" then []
      else
        var (attributes, end) := ReadAttributes(rest[1..]);
        ReadShorter(rest[1..]);
        [Link(target, attributes)] + (if end != "" && end[0] == ',' then ReadLinks(end[1..]) else [])
  }

  lemma {:induction false} ReadShorter(s: string)
    ensures |ReadAttributes(s).1| <= |s|
    decreases |s|
  {
    if s != "" && s[0] == ';' {
      var rest := From(s[1..], "=;,");
      if rest != "" && rest[0] == '=' {
        ReadShorter(From(rest[1..], ";,"));
      } else {
        ReadShorter(rest);
      }
    }
  }

  const MARK := Attribute("obs", false, "")

  /** A link whose last attribute is "obs" is one of an observable resource. */
  function ResourceOf(l: Link): Resource {
    var n := |l.attributes|;
    if n > 0 && l.attributes[n - 1] == MARK then Resource(l.target, l.attributes[..n - 1], true)
    else Resource(l.target, l.attributes, false)
  }

  function ReadDocument(s: string): seq<Resource> {
    var links := ReadLinks(s);
    seq(|links|, i requires 0 <= i < |links| => ResourceOf(links[i]))
  }

  // ---- what can be read back ----

  predicate Free(s: string, stops: string) {
    forall c :: c in s ==> c !in stops
  }

  predicate PlainAttribute(a: Attribute) {
    Free(a.name, "=;,") && Free(a.value, ";,") && (!a.hasValue ==> a.value == "")
  }

  predicate PlainResource(r: Resource) {
    Free(r.uri, ">") && forall a :: a in r.attributes ==> PlainAttribute(a)
  }

  /** It does not look like an observable resource without being one. */
  predicate Unmistakable(r: Resource) {
    r.observable || r.attributes == [] || r.attributes[|r.attributes| - 1] != MARK
  }

  /** The link that stands for a resource. */
  function LinkOf(r: Resource): Link {
    Link(r.uri, r.attributes + if r.observable then [MARK] else [])
  }

  function LinksOf(resources: seq<Resource>): seq<Link> {
    seq(|resources|, i requires 0 <= i < |resources| => LinkOf(resources[i]))
  }

  lemma {:induction false} BeforeStop(t: string, rest: string, stops: string)
    requires Free(t, stops) && (rest == "" || rest[0] in stops)
    ensures Before(t + rest, stops) == t && From(t + rest, stops) == rest
    decreases t
  {
    if t == "" {
      assert t + rest == rest;
    } else {
      assert (t + rest)[1..] == t[1..] + rest;
      BeforeStop(t[1..], rest, stops);
      assert t == [t[0]] + t[1..];
    }
  }

  /** The attributes from the front. */
  function Texts(attributes: seq<Attribute>): string {
    if attributes == [] then "" else AttributeText(attributes[0]) + Texts(attributes[1..])
  }

  lemma {:induction false} TextsSnoc(attributes: seq<Attribute>, a: Attribute)
    ensures Texts(attributes + [a]) == Texts(attributes) + AttributeText(a)
    decreases attributes
  {
    hide AttributeText;
    if attributes == [] {
      assert [] + [a] == [a] && [a][1..] == [];
      assert AttributeText(a) + "" == AttributeText(a) && "" + AttributeText(a) == AttributeText(a);
    } else {
      assert (attributes + [a])[1..] == attributes[1..] + [a];
      TextsSnoc(attributes[1..], a);
      assert AttributeText(attributes[0]) + (Texts(attributes[1..]) + AttributeText(a))
          == AttributeText(attributes[0]) + Texts(attributes[1..]) + AttributeText(a);
    }
  }

  lemma {:induction false} TextsAre(attributes: seq<Attribute>)
    ensures AttributesText(attributes) == Texts(attributes)
    decreases |attributes|
  {
    hide AttributeText;
    if attributes != [] {
      var n := |attributes| - 1;
      TextsAre(attributes[..n]);
      TextsSnoc(attributes[..n], attributes[n]);
      assert attributes[..n] + [attributes[n]] == attributes;
    }
  }

  lemma LinkTextIs(r: Resource)
    ensures LinkText(r) == "</" + r.uri + ">" + Texts(LinkOf(r).attributes)
  {
    hide AttributesText;
    TextsAre(r.attributes);
    if r.observable {
      TextsSnoc(r.attributes, MARK);
      assert ";" + "obs" + "" == ";obs";
      assert "</" + r.uri + ">" + Texts(r.attributes) + ";obs" == "</" + r.uri + ">" + (Texts(r.attributes) + ";obs");
    } else {
      assert r.attributes + [] == r.attributes;
    }
  }

  predicate LinkEnd(s: string) {
    s == "" || s[0] == ','
  }

  lemma TextStart(a: Attribute, s: string)
    ensures AttributeText(a) + s != "" && (AttributeText(a) + s)[0] == ';'
  {
  }

  lemma AfterAttribute(attributes: seq<Attribute>, s: string)
    requires LinkEnd(s)
    ensures Texts(attributes) + s == "" || (Texts(attributes) + s)[0] in ";,"
  {
    hide AttributeText;
    if attributes != [] {
      TextStart(attributes[0], Texts(attributes[1..]) + s);
      assert AttributeText(attributes[0]) + Texts(attributes[1..]) + s
          == AttributeText(attributes[0]) + (Texts(attributes[1..]) + s);
    }
  }

  lemma ReadValued(t: string, name: string, rest: string, value: string, s: string)
    requires t != "" && t[0] == ';' && Before(t[1..], "=;,") == name && From(t[1..], "=;,") == rest
    requires rest != "" && rest[0] == '=' && Before(rest[1..], ";,") == value && From(rest[1..], ";,") == s
    ensures ReadAttributes(t) == ([Attribute(name, true, value)] + ReadAttributes(s).0, ReadAttributes(s).1)
  {
    hide Before, From;
  }

  lemma ReadBare(t: string, name: string, s: string)
    requires t != "" && t[0] == ';' && Before(t[1..], "=;,") == name && From(t[1..], "=;,") == s
    requires s == "" || s[0] != '='
    ensures ReadAttributes(t) == ([Attribute(name, false, "")] + ReadAttributes(s).0, ReadAttributes(s).1)
  {
    hide Before, From;
  }

  lemma OneAttribute(a: Attribute, s: string)
    requires PlainAttribute(a) && (s == "" || s[0] in ";,")
    ensures ReadAttributes(AttributeText(a) + s) == ([a] + ReadAttributes(s).0, ReadAttributes(s).1)
  {
    hide ReadAttributes, Before, From, Free;
    AttributeParts(a, s);
    var t := AttributeText(a) + s;
    if a.hasValue {
      var rest := "=" + a.value + s;
      BeforeStop(a.name, rest, "=;,");
      BeforeStop(a.value, s, ";,");
      ReadValued(t, a.name, rest, a.value, s);
    } else {
      BeforeStop(a.name, s, "=;,");
      ReadBare(t, a.name, s);
    }
  }

  lemma AttributeParts(a: Attribute, s: string)
    ensures var t, rest := AttributeText(a) + s, "=" + a.value + s;
            && t != "" && t[0] == ';' && rest[0] == '=' && rest[1..] == a.value + s
            && t[1..] == a.name + if a.hasValue then rest else s
  {
  }

  lemma NoAttributes(s: string)
    requires LinkEnd(s)
    ensures ReadAttributes(s) == ([], s)
  {
  }

  lemma {:induction false} AttributesRead(attributes: seq<Attribute>, s: string)
    requires (forall a :: a in attributes ==> PlainAttribute(a)) && LinkEnd(s)
    ensures ReadAttributes(Texts(attributes) + s) == (attributes, s)
    decreases attributes
  {
    hide AttributeText, PlainAttribute, ReadAttributes, LinkEnd;
    if attributes == [] {
      assert Texts(attributes) + s == s;
      NoAttributes(s);
    } else {
      AttributesRead(attributes[1..], s);
      AfterAttribute(attributes[1..], s);
      OneAttribute(attributes[0], Texts(attributes[1..]) + s);
      assert AttributeText(attributes[0]) + Texts(attributes[1..]) + s
          == AttributeText(attributes[0]) + (Texts(attributes[1..]) + s);
      assert [attributes[0]] + attributes[1..] == attributes;
    }
  }

  lemma LinkRead(r: Resource, s: string)
    requires PlainResource(r) && LinkEnd(s)
    ensures ReadLinks(LinkText(r) + s) == [LinkOf(r)] + if s == "" then [] else ReadLinks(s[1..])
  {
    hide LinkText, PlainAttribute, Before, From, ReadAttributes, ReadLinks, Texts;
    var l, t := LinkOf(r), LinkText(r) + s;
    var texts := Texts(l.attributes);
    LinkTextIs(r);
    MarkIsPlain();
    LinkParts(r.uri, texts, s);
    BeforeStop(r.uri, ">" + (texts + s), ">");
    AttributesRead(l.attributes, s);
    ReadLink(t, r.uri, ">" + (texts + s), l.attributes, s);
  }

  lemma LinkParts(uri: string, texts: string, s: string)
    ensures var t := "</" + uri + ">" + texts + s;
            |t| >= 2 && t[..2] == "</" && t[2..] == uri + (">" + (texts + s))
    ensures (">" + (texts + s))[1..] == texts + s
  {
  }

  lemma ReadLink(t: string, target: string, rest: string, attributes: seq<Attribute>, end: string)
    requires |t| >= 2 && t[..2] == "</" && Before(t[2..], ">") == target && From(t[2..], ">") == rest && rest != ""
    requires ReadAttributes(rest[1..]) == (attributes, end) && LinkEnd(end)
    ensures ReadLinks(t) == [Link(target, attributes)] + if end == "" then [] else ReadLinks(end[1..])
  {
    hide Before, From, ReadAttributes;
  }

  lemma MarkIsPlain()
    ensures PlainAttribute(MARK)
  {
  }

  // ---- the document ----

  /** The document from the front. */
  lemma {:induction false} DocumentFront(r: Resource, more: seq<Resource>)
    ensures Document([r] + more) == LinkText(r) + if more == [] then "" else "," + Document(more)
    decreases more
  {
    hide LinkText;
    var all, n := [r] + more, |more|;
    if more == [] {
      assert all[..0] == [] && Document([]) == "";
      assert "" + "" + LinkText(r) == LinkText(r) + "";
    } else {
      assert all[..n] == [r] + more[..n - 1];
      DocumentFront(r, more[..n - 1]);
      if n == 1 {
        assert more[..0] == [];
        assert LinkText(r) + "" + "," + LinkText(more[0]) == LinkText(r) + ("," + ("" + "" + LinkText(more[0])));
      } else {
        var d, l := Document(more[..n - 1]), LinkText(more[n - 1]);
        assert LinkText(r) + ("," + d) + "," + l == LinkText(r) + ("," + (d + "," + l));
      }
    }
  }

  lemma {:induction false} LinksRead(resources: seq<Resource>)
    requires forall r :: r in resources ==> PlainResource(r)
    ensures ReadLinks(Document(resources)) == LinksOf(resources)
    decreases resources
  {
    hide LinkText, PlainResource, Document, ReadLinks;
    if resources == [] {
      NoLinks();
    } else {
      var r, more := resources[0], resources[1..];
      assert resources == [r] + more;
      LinksRead(more);
      DocumentFront(r, more);
      var s := if more == [] then "" else "," + Document(more);
      LinkRead(r, s);
      if more != [] {
        assert s[1..] == Document(more);
      }
    }
  }

  lemma NoLinks()
    ensures ReadLinks(Document([])) == []
  {
  }

  /** Reading the document gives back the resources, with paths, attributes, values and marks, in order, exactly if no
      resource that is not observable has "obs" without value as its last attribute. */
  lemma ReadsBack(resources: seq<Resource>)
    requires forall r :: r in resources ==> PlainResource(r)
    ensures ReadDocument(Document(resources)) == resources
            <==> forall r :: r in resources ==> Unmistakable(r)
  {
    hide Document, ReadLinks, PlainResource, Unmistakable;
    LinksRead(resources);
    var read := ReadDocument(Document(resources));
    forall i | 0 <= i < |resources|
      ensures read[i] == resources[i] <==> Unmistakable(resources[i])
    {
      MarkRead(resources[i]);
    }
    if read == resources {
      forall r | r in resources
        ensures Unmistakable(r)
      {
        var i :| 0 <= i < |resources| && resources[i] == r;
        assert read[i] == r;
      }
    }
  }

  lemma MarkRead(r: Resource)
    ensures ResourceOf(LinkOf(r)) == r <==> Unmistakable(r)
  {
    if r.observable {
      assert (r.attributes + [MARK])[..|r.attributes|] == r.attributes;
    } else {
      assert r.attributes + [] == r.attributes;
    }
  }
}
