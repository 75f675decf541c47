/** The XML the generator writes, as a tree: elements with attributes in the
    order they are written, and raw markup copied verbatim from the
    documentation files (`XmlWriter.WriteRaw`). */
module XmlTree {
  import opened Wrappers

  datatype Attr = Attr(name: string, value: string)

  datatype Node =
    | Element(tag: string, attrs: seq<Attr>, children: seq<Node>)
    | Raw(markup: string)

  /** The value of the first attribute called `name`. */
  function AttrValue(attrs: seq<Attr>, name: string): (r: Option<string>)
    ensures r.Some? <==> exists i :: 0 <= i < |attrs| && attrs[i].name == name
    ensures r.Some? ==> exists i :: 0 <= i < |attrs| && attrs[i] == Attr(name, r.value)
    decreases |attrs|
  {
    if |attrs| == 0 then None
    else if attrs[0].name == name then Some(attrs[0].value)
    else
      var rest := AttrValue(attrs[1..], name);
      assert forall i :: 0 <= i < |attrs| - 1 ==> attrs[1..][i] == attrs[i + 1];
      assert forall i :: 1 <= i < |attrs| ==> attrs[i] == attrs[1..][i - 1];
      rest
  }

  /** The attribute at `i` is the first one called `name`. */
  lemma {:induction false} AttrValueAt(attrs: seq<Attr>, name: string, i: nat)
    requires i < |attrs| && attrs[i].name == name
    requires forall j :: 0 <= j < i ==> attrs[j].name != name
    ensures AttrValue(attrs, name) == Some(attrs[i].value)
    decreases i
  {
    if i > 0 {
      AttrValueAt(attrs[1..], name, i - 1);
    }
  }

  /** The first `name` attribute of `a + b` is `a`'s if it has one. */
  lemma {:induction false} AttrValueConcat(a: seq<Attr>, b: seq<Attr>, name: string)
    ensures AttrValue(a + b, name) == if AttrValue(a, name).Some? then AttrValue(a, name) else AttrValue(b, name)
    decreases |a|
  {
    if |a| > 0 {
      assert (a + b)[1..] == a[1..] + b;
      AttrValueConcat(a[1..], b, name);
    } else {
      assert a + b == b;
    }
  }

  predicate IsElement(n: Node, tag: string) {
    n.Element? && n.tag == tag
  }

  /** Some node of `ns` is an element called `tag`. */
  predicate SomeElement(ns: seq<Node>, tag: string) {
    exists i :: 0 <= i < |ns| && IsElement(ns[i], tag)
  }

  /** `n` is, or contains at any depth, an element called `tag`. */
  predicate Mentions(n: Node, tag: string)
    decreases n
  {
    n.Element? && (n.tag == tag || exists i :: 0 <= i < |n.children| && Mentions(n.children[i], tag))
  }

  predicate MentionsAny(ns: seq<Node>, tag: string) {
    exists i :: 0 <= i < |ns| && Mentions(ns[i], tag)
  }

  lemma MentionsAnyConcat(a: seq<Node>, b: seq<Node>, tag: string)
    ensures MentionsAny(a + b, tag) <==> MentionsAny(a, tag) || MentionsAny(b, tag)
  {
    if MentionsAny(a + b, tag) {
      var i :| 0 <= i < |a + b| && Mentions((a + b)[i], tag);
      if i >= |a| {
        assert b[i - |a|] == (a + b)[i];
      }
    }
    if MentionsAny(a, tag) {
      var i :| 0 <= i < |a| && Mentions(a[i], tag);
      assert (a + b)[i] == a[i];
    }
    if MentionsAny(b, tag) {
      var i :| 0 <= i < |b| && Mentions(b[i], tag);
      assert (a + b)[|a| + i] == b[i];
    }
  }

  /** A list of at most one element, called `have` if present. */
  lemma SomeElementOfOne(ns: seq<Node>, tag: string, have: string)
    requires |ns| <= 1 && (|ns| == 1 ==> IsElement(ns[0], have))
    ensures SomeElement(ns, tag) <==> |ns| == 1 && tag == have
  {
    if |ns| == 1 && tag == have {
      assert IsElement(ns[0], tag);
    }
  }

  lemma SomeElementConcat(a: seq<Node>, b: seq<Node>, tag: string)
    ensures SomeElement(a + b, tag) <==> SomeElement(a, tag) || SomeElement(b, tag)
  {
    if SomeElement(a + b, tag) {
      var i :| 0 <= i < |a + b| && IsElement((a + b)[i], tag);
      if i >= |a| {
        assert b[i - |a|] == (a + b)[i];
      }
    }
    if SomeElement(a, tag) {
      var i :| 0 <= i < |a| && IsElement(a[i], tag);
      assert (a + b)[i] == a[i];
    }
    if SomeElement(b, tag) {
      var i :| 0 <= i < |b| && IsElement(b[i], tag);
      assert (a + b)[|a| + i] == b[i];
    }
  }
}
