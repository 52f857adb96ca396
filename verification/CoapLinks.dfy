/** The link-format document of /.well-known/core (RFC 6690), printed through a window: the first `offset`
    characters are skipped, and no more is written than the buffer holds. */
module CoapLinks {
  import opened Arithmetic
  import opened CoapBlock

  datatype Attribute = Attribute(name: string, hasValue: bool, value: string)
  datatype Resource = Resource(uri: string, attributes: seq<Attribute>, observable: bool)

  // ---- the whole document ----

  function AttributeText(a: Attribute): string {
    ";" + a.name + (if a.hasValue then "=" + a.value else "")
  }

  function AttributesText(attributes: seq<Attribute>): string {
    if attributes == [] then ""
    else AttributesText(attributes[..|attributes| - 1]) + AttributeText(attributes[|attributes| - 1])
  }

  function LinkText(r: Resource): string {
    "</" + r.uri + ">" + AttributesText(r.attributes) + (if r.observable then ";obs" else "")
  }

  function Document(resources: seq<Resource>): string {
    if resources == [] then ""
    else
      var n := |resources| - 1;
      Document(resources[..n]) + (if n == 0 then "" else ",") + LinkText(resources[n])
  }

  // ---- the window ----

  function Beyond(a: nat, b: nat): nat {
    if a < b then 0 else a - b
  }

  /** Printing `t` from position `p` on, with `offset` characters still to be skipped, has moved to `p'` and
      `offset'`: what has been written is the part of `t` behind the offset, up to the end of the buffer. */
  ghost predicate Windowed(s: string, s': string, p: nat, bufend: nat, offset: nat, t: string, p': nat, offset': nat) {
    && p <= p' <= bufend <= |s| == |s'|
    && (if p == bufend then p' == p && offset' == offset
        else p' == p + Min(bufend - p, Beyond(|t|, offset)) && offset' == Beyond(offset, |t|))
    && (p < p' ==> offset + (p' - p) <= |t| && s'[p..p'] == t[offset..offset + (p' - p)])
    && s'[..p] == s[..p] && s'[p'..] == s[p'..]
  }

  lemma WindowedTrans(s0: string, s1: string, s2: string, p: nat, bufend: nat, offset: nat, t: string, p1: nat,
                      offset1: nat,
                      u: string, p2: nat, offset2: nat)
    requires Windowed(s0, s1, p, bufend, offset, t, p1, offset1)
    requires Windowed(s1, s2, p1, bufend, offset1, u, p2, offset2)
    ensures Windowed(s0, s2, p, bufend, offset, t + u, p2, offset2)
  {
    SamePrefix(s0, s1, s2, p, p1);
    SameSuffix(s0, s1, s2, p1, p2);
    if p < p1 < p2 {
      BothWritten(s0, s1, s2, p, bufend, offset, t, p1, offset1, u, p2, offset2);
    } else if p < p1 {
      SliceKept(s1, s2, p, p1);
      AcrossConcat(t, u, offset, offset + (p1 - p));
    } else if p < p2 {
      AcrossConcat(t, u, offset, offset + (p2 - p));
    }
  }

  lemma BothWritten(s0: string, s1: string, s2: string, p: nat, bufend: nat, offset: nat, t: string, p1: nat,
                    offset1: nat, u: string, p2: nat, offset2: nat)
    requires p < p1 < p2
    requires Windowed(s0, s1, p, bufend, offset, t, p1, offset1)
    requires Windowed(s1, s2, p1, bufend, offset1, u, p2, offset2)
    ensures offset + (p2 - p) <= |t + u| && s2[p..p2] == (t + u)[offset..offset + (p2 - p)]
  {
    SliceKept(s1, s2, p, p1);
    AcrossConcat(t, u, offset, offset + (p2 - p));
    assert s2[p..p2] == s2[p..p1] + s2[p1..p2];
  }

  lemma AcrossConcat(t: string, u: string, i: nat, j: nat)
    requires i <= j <= |t + u|
    ensures j <= |t| ==> (t + u)[i..j] == t[i..j]
    ensures |t| <= i ==> (t + u)[i..j] == u[i - |t|..j - |t|]
    ensures i <= |t| <= j ==> (t + u)[i..j] == t[i..|t|] + u[0..j - |t|]
  {
  }

  lemma SamePrefix(s0: string, s1: string, s2: string, p: nat, p1: nat)
    requires p <= p1 <= |s0| == |s1| == |s2| && s1[..p] == s0[..p] && s2[..p1] == s1[..p1]
    ensures s2[..p] == s0[..p]
  {
    assert s2[..p] == s2[..p1][..p] && s1[..p] == s1[..p1][..p];
  }

  lemma SameSuffix(s0: string, s1: string, s2: string, p1: nat, p2: nat)
    requires p1 <= p2 <= |s0| == |s1| == |s2| && s1[p1..] == s0[p1..] && s2[p2..] == s1[p2..]
    ensures s2[p2..] == s0[p2..]
  {
    assert s1[p2..] == s1[p1..][p2 - p1..] && s0[p2..] == s0[p1..][p2 - p1..];
  }

  lemma SliceKept(s1: string, s2: string, p: nat, p1: nat)
    requires p <= p1 <= |s1| == |s2| && s2[..p1] == s1[..p1]
    ensures s2[p..p1] == s1[p..p1]
  {
    assert s2[p..p1] == s2[..p1][p..] && s1[p..p1] == s1[..p1][p..];
  }

  /** `PRINT_COND_WITH_OFFSET` */
  method PrintCond(buf: array<char>, p: nat, bufend: nat, offset: nat, c: char, result: nat)
    returns (p': nat, offset': nat, result': nat)
    requires p <= bufend <= buf.Length
    modifies buf
    ensures Windowed(old(buf[..]), buf[..], p, bufend, offset, [c], p', offset') && result' == result + 1
  {
    p', offset' := p, offset;
    if p < bufend {
      if offset == 0 {
        buf[p] := c;
        p' := p + 1;
      } else {
        offset' := offset - 1;
      }
    }
    result' := result + 1;
  }

  /** `COPY_COND_WITH_OFFSET` */
  method CopyCond(buf: array<char>, p: nat, bufend: nat, offset: nat, t: string, result: nat)
    returns (p': nat, offset': nat, result': nat)
    requires p <= bufend <= buf.Length
    modifies buf
    ensures Windowed(old(buf[..]), buf[..], p, bufend, offset, t, p', offset') && result' == result + |t|
  {
    hide Windowed;
    p', offset', result' := p, offset, result;
    Nothing(buf[..], p, bufend, offset);
    for i := 0 to |t|
      invariant p <= p' <= bufend
      invariant Windowed(old(buf[..]), buf[..], p, bufend, offset, t[..i], p', offset') && result' == result + i
    {
      ghost var s1, p1, o1 := buf[..], p', offset';
      p', offset', result' := PrintCond(buf, p', bufend, offset', t[i], result');
      WindowedTrans(old(buf[..]), s1, buf[..], p, bufend, offset, t[..i], p1, o1, [t[i]], p', offset');
      assert t[..i + 1] == t[..i] + [t[i]];
      Bounds(old(buf[..]), buf[..], p, bufend, offset, t[..i + 1], p', offset');
    }
    assert t[..|t|] == t;
  }

  lemma Nothing(s: string, p: nat, bufend: nat, offset: nat)
    requires p <= bufend <= |s|
    ensures Windowed(s, s, p, bufend, offset, "", p, offset)
  {
  }

  lemma Bounds(s: string, s': string, p: nat, bufend: nat, offset: nat, t: string, p': nat, offset': nat)
    requires Windowed(s, s', p, bufend, offset, t, p', offset')
    ensures p <= p' <= bufend
  {
  }

  /** One attribute of a link. */
  method PrintAttribute(buf: array<char>, p: nat, bufend: nat, offset: nat, a: Attribute, result: nat)
    returns (p': nat, offset': nat, result': nat)
    requires p <= bufend <= buf.Length
    modifies buf
    ensures Windowed(old(buf[..]), buf[..], p, bufend, offset, AttributeText(a), p', offset')
    ensures p <= p' <= bufend && result' == result + |AttributeText(a)|
  {
    hide Windowed;
    ghost var s0 := buf[..];
    p', offset', result' := PrintCond(buf, p, bufend, offset, ';', result);
    Bounds(s0, buf[..], p, bufend, offset, ";", p', offset');
    ghost var s1, p1, o1 := buf[..], p', offset';
    p', offset', result' := CopyCond(buf, p', bufend, offset', a.name, result');
    WindowedTrans(s0, s1, buf[..], p, bufend, offset, ";", p1, o1, a.name, p', offset');
    Bounds(s0, buf[..], p, bufend, offset, ";" + a.name, p', offset');
    if a.hasValue {
      s1, p1, o1 := buf[..], p', offset';
      p', offset', result' := PrintCond(buf, p', bufend, offset', '=', result');
      Bounds(s1, buf[..], p1, bufend, o1, "=", p', offset');
      ghost var s2, p2, o2 := buf[..], p', offset';
      p', offset', result' := CopyCond(buf, p', bufend, offset', a.value, result');
      WindowedTrans(s1, s2, buf[..], p1, bufend, o1, "=", p2, o2, a.value, p', offset');
      WindowedTrans(s0, s1, buf[..], p, bufend, offset, ";" + a.name, p1, o1, "=" + a.value, p', offset');
      Bounds(s0, buf[..], p, bufend, offset, AttributeText(a), p', offset');
    } else {
      assert ";" + a.name + "" == ";" + a.name;
    }
  }

  /** The beginning of a link: the path in angle brackets. */
  method PrintTarget(buf: array<char>, p: nat, bufend: nat, offset: nat, uri: string, result: nat)
    returns (p': nat, offset': nat, result': nat)
    requires p <= bufend <= buf.Length
    modifies buf
    ensures Windowed(old(buf[..]), buf[..], p, bufend, offset, "</" + uri + ">", p', offset')
    ensures p <= p' <= bufend && result' == result + |uri| + 3
  {
    hide Windowed;
    ghost var s0 := buf[..];
    p', offset', result' := PrintCond(buf, p, bufend, offset, '<', result);
    Bounds(s0, buf[..], p, bufend, offset, "<", p', offset');
    ghost var s1, p1, o1 := buf[..], p', offset';
    p', offset', result' := PrintCond(buf, p', bufend, offset', '/', result');
    WindowedTrans(s0, s1, buf[..], p, bufend, offset, "<", p1, o1, "/", p', offset');
    assert "<" + "/" == "</";
    Bounds(s0, buf[..], p, bufend, offset, "</", p', offset');
    s1, p1, o1 := buf[..], p', offset';
    p', offset', result' := CopyCond(buf, p', bufend, offset', uri, result');
    WindowedTrans(s0, s1, buf[..], p, bufend, offset, "</", p1, o1, uri, p', offset');
    Bounds(s0, buf[..], p, bufend, offset, "</" + uri, p', offset');
    s1, p1, o1 := buf[..], p', offset';
    p', offset', result' := PrintCond(buf, p', bufend, offset', '>', result');
    WindowedTrans(s0, s1, buf[..], p, bufend, offset, "</" + uri, p1, o1, ">", p', offset');
    Bounds(s0, buf[..], p, bufend, offset, "</" + uri + ">", p', offset');
  }

  /** `coap_print_link`; `written` is the output length, `len` the length of the whole link. */
  method PrintLink(r: Resource, buf: array<char>, p: nat, bufend: nat, offset: nat)
    returns (written: nat, len: nat, offset': nat, truncated: bool)
    requires p <= bufend <= buf.Length
    modifies buf
    ensures Windowed(old(buf[..]), buf[..], p, bufend, offset, LinkText(r), p + written, offset')
    ensures p + written <= bufend && len == |LinkText(r)| && offset' <= offset
    ensures truncated <==> written + (offset - offset') < len
  {
    hide Windowed, AttributesText;
    AttributesText0();
    ghost var s0 := buf[..];
    var p', result;
    p', offset', result := PrintTarget(buf, p, bufend, offset, r.uri, 0);
    ghost var head := "</" + r.uri + ">";
    assert head + "" == head && r.attributes[..0] == [];
    for i := 0 to |r.attributes|
      invariant p <= p' <= bufend && result == |head + AttributesText(r.attributes[..i])|
      invariant Windowed(s0, buf[..], p, bufend, offset, head + AttributesText(r.attributes[..i]), p', offset')
    {
      ghost var s1, p1, o1, text := buf[..], p', offset', AttributesText(r.attributes[..i]);
      var a := r.attributes[i];
      p', offset', result := PrintAttribute(buf, p', bufend, offset', a, result);
      WindowedTrans(s0, s1, buf[..], p, bufend, offset, head + text, p1, o1, AttributeText(a), p', offset');
      MoreAttributes(r.attributes, i);
      assert head + text + AttributeText(a) == head + (text + AttributeText(a));
    }
    assert r.attributes[..|r.attributes|] == r.attributes;
    ghost var all := head + AttributesText(r.attributes);
    if r.observable {
      ghost var s1, p1, o1 := buf[..], p', offset';
      p', offset', result := CopyCond(buf, p', bufend, offset', ";obs", result);
      WindowedTrans(s0, s1, buf[..], p, bufend, offset, all, p1, o1, ";obs", p', offset');
      Bounds(s0, buf[..], p, bufend, offset, all + ";obs", p', offset');
    } else {
      assert all + "" == all;
    }
    written := p' - p;
    len := result;
    OffsetFalls(s0, buf[..], p, bufend, offset, LinkText(r), p', offset');
    truncated := written + offset - offset' < len;
  }

  lemma OffsetFalls(s: string, s': string, p: nat, bufend: nat, offset: nat, t: string, p': nat, offset': nat)
    requires Windowed(s, s', p, bufend, offset, t, p', offset')
    ensures offset' <= offset && p <= p'
  {
  }

  lemma AttributesText0()
    ensures AttributesText([]) == ""
  {
  }

  lemma MoreAttributes(attributes: seq<Attribute>, i: nat)
    requires i < |attributes|
    ensures AttributesText(attributes[..i + 1]) == AttributesText(attributes[..i]) + AttributeText(attributes[i])
  {
    assert attributes[..i + 1][..i] == attributes[..i];
  }

  lemma MoreLinks(resources: seq<Resource>, i: nat)
    requires i < |resources|
    ensures Document(resources[..i + 1])
              == Document(resources[..i]) + (if i == 0 then "" else ",") + LinkText(resources[i])
  {
    hide LinkText;
    assert resources[..i + 1][..i] == resources[..i];
  }

  /** `print_wellknown` without a query filter, into the first `size` characters of the buffer: it writes
      the part of the document that lies in the window, returns the length of the whole document, and
      reports truncation exactly when text remains behind the window. */
  method PrintWellknown(resources: seq<Resource>, buf: array<char>, size: nat, offset: nat)
    returns (written: nat, total: nat, truncated: bool)
    requires size <= buf.Length
    modifies buf
    ensures var d := Document(resources);
            && total == |d|
            && (0 < size ==> written == Min(size, Beyond(|d|, offset)) && (truncated <==> offset + size < |d|))
            && (0 < size && offset <= |d| ==> buf[..written] == d[offset..offset + written])
            && (size == 0 ==> written == 0 && (truncated <==> 0 < |d|))
    ensures written <= size && buf[written..] == old(buf[written..])
  {
    hide Windowed, LinkText, Document;
    ghost var s0 := buf[..];
    var p: nat, left := 0, offset;
    total := 0;
    Nothing(s0, 0, size, offset);
    assert resources[..0] == [] && Document([]) == "" by { EmptyDocument(); }
    for i := 0 to |resources|
      invariant 0 <= p <= size && total == |Document(resources[..i])|
      invariant Windowed(s0, buf[..], 0, size, offset, Document(resources[..i]), p, left)
    {
      ghost var text, sep := Document(resources[..i]), if i == 0 then "" else ",";
      ghost var s1, p1, o1 := buf[..], p, left;
      if i != 0 {
        p, left, total := PrintCond(buf, p, size, left, ',', total);
        WindowedTrans(s0, s1, buf[..], 0, size, offset, text, p1, o1, ",", p, left);
      } else {
        assert text + "" == text;
      }
      Bounds(s0, buf[..], 0, size, offset, text + sep, p, left);
      s1, p1, o1 := buf[..], p, left;
      var n, len, trunc;
      n, len, left, trunc := PrintLink(resources[i], buf, p, size, left);
      p := p + n;
      total := total + len;
      WindowedTrans(s0, s1, buf[..], 0, size, offset, text + sep, p1, o1, LinkText(resources[i]), p, left);
      MoreLinks(resources, i);
    }
    assert resources[..|resources|] == resources;
    written := p;
    OffsetFalls(s0, buf[..], 0, size, offset, Document(resources), p, left);
    truncated := written + offset - left < total;
    WindowSeen(s0, buf[..], size, offset, Document(resources), p, left);
  }

  lemma EmptyDocument()
    ensures Document([]) == ""
  {
  }

  lemma WindowSeen(s: string, s': string, size: nat, offset: nat, d: string, p: nat, offset': nat)
    requires Windowed(s, s', 0, size, offset, d, p, offset')
    ensures p <= size && s'[p..] == s[p..]
    ensures 0 < size ==> p == Min(size, Beyond(|d|, offset)) && (p + offset - offset' < |d| <==> offset + size < |d|)
    ensures 0 < size && offset <= |d| ==> s'[..p] == d[offset..offset + p]
    ensures size == 0 ==> p == 0 && offset' == offset
  {
    assert s'[..p] == s'[0..p];
  }

  /** What is printed for the offset of block `k`, with room for one block, is block `k` of the document. */
  method PrintBlock(resources: seq<Resource>, buf: array<char>, k: nat, szx: nat)
    returns (written: nat, total: nat, truncated: bool)
    requires BlockSize(szx) <= buf.Length
    modifies buf
    ensures written <= buf.Length && buf[..written] == BlockAt(Document(resources), k, szx)
    ensures total == |Document(resources)| && (truncated <==> BlockStart(k + 1, szx) < total)
  {
    hide Document, BlockSize, BlockStart;
    written, total, truncated := PrintWellknown(resources, buf, BlockSize(szx), BlockStart(k, szx));
    NextStart(k, szx);
  }

  lemma FirstStart(szx: nat)
    ensures BlockStart(0, szx) == 0
  {
  }

  /** The blocks that are printed make up the document. */
  lemma BlocksOfDocument(resources: seq<Resource>, szx: nat)
    ensures BlocksFrom(Document(resources), 0, szx) == Document(resources)
  {
    hide Document, BlockStart;
    FirstStart(szx);
    BlocksAreData(Document(resources), 0, szx);
  }
}
