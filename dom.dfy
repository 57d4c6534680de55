/** The slice of the HTML5 document tree that the comparator looks at.
    Parsing and serialization are not part of this model: they are parameters
    of `HtmlComparator.GetDelta`. */
module Dom {
  import opened Wrappers

  /** One attribute of an element, as the serializer prints it. */
  datatype Attribute = Attribute(name: string, value: string)

  /** A node of the parsed tree: an element with its attributes in document order,
      a comment (whose data may be null), or any other kind of node (text, document
      type, ...), which the comparator never inspects but the serializer prints:
      `content` stands for everything that node contributes to the output. */
  datatype Node =
    | Element(name: string, attrs: seq<Attribute>, children: seq<Node>)
    | Comment(data: Option<string>)
    | Other(content: string)

  /** A node known to be an element, such as a document element. */
  type ElementNode = n: Node | n.Element? witness Element("", [], [])

  /** `Element.removeAttribute(name)`: the attribute list without that name; the
      others keep their values and their order. */
  function RemoveAttribute(attrs: seq<Attribute>, name: string): (r: seq<Attribute>)
    ensures |r| <= |attrs|
    ensures forall a :: a in r ==> a.name != name
  {
    if attrs == [] then []
    else (if attrs[0].name == name then [] else [attrs[0]]) + RemoveAttribute(attrs[1..], name)
  }

  /** An attribute is kept exactly when it has another name. */
  lemma {:induction false} InRemoveAttribute(attrs: seq<Attribute>, name: string, a: Attribute)
    ensures a in RemoveAttribute(attrs, name) <==> a in attrs && a.name != name
  {
    if attrs != [] {
      InRemoveAttribute(attrs[1..], name, a);
      assert attrs == [attrs[0]] + attrs[1..];
    }
  }

  /** An attribute with the removed name, wherever it stands, leaves no trace. */
  lemma RemoveAttributeDropsNamed(before: seq<Attribute>, a: Attribute, after: seq<Attribute>)
    ensures RemoveAttribute(before + [a] + after, a.name) == RemoveAttribute(before + after, a.name)
  {
    var n := a.name;
    var p, q := RemoveAttribute(before, n), RemoveAttribute(after, n);
    assert RemoveAttribute([a], n) == [] by {
      assert [a][1..] == [];
    }
    calc {
      RemoveAttribute(before + [a] + after, n);
      { RemoveAttributeAppend(before + [a], after, n); }
      RemoveAttribute(before + [a], n) + q;
      { RemoveAttributeAppend(before, [a], n); }
      p + RemoveAttribute([a], n) + q;
      p + [] + q;
      { assert p + [] == p; }
      p + q;
      { RemoveAttributeAppend(before, after, n); }
      RemoveAttribute(before + after, n);
    }
  }

  /** Removing a name that no attribute has changes nothing. */
  lemma {:induction false} RemoveAbsentAttribute(attrs: seq<Attribute>, name: string)
    requires forall a :: a in attrs ==> a.name != name
    ensures RemoveAttribute(attrs, name) == attrs
  {
    if attrs != [] {
      assert attrs[0] in attrs;
      assert forall a :: a in attrs[1..] ==> a in attrs;
      RemoveAbsentAttribute(attrs[1..], name);
      assert attrs == [attrs[0]] + attrs[1..];
    }
  }

  /** Removal works piece by piece, so the remaining attributes keep their order. */
  lemma {:induction false} RemoveAttributeAppend(a: seq<Attribute>, b: seq<Attribute>, name: string)
    ensures RemoveAttribute(a + b, name) == RemoveAttribute(a, name) + RemoveAttribute(b, name)
  {
    if a == [] {
      assert a + b == b;
    } else {
      assert (a + b)[1..] == a[1..] + b;
      RemoveAttributeAppend(a[1..], b, name);
    }
  }

  /** A parsed document: the nodes directly under the document node. */
  datatype Document = Document(children: seq<Node>)

  /** Index of the document element (the first element child of the document),
      or None where `getDocumentElement()` would return null. */
  function DocumentElementIndex(d: Document): (r: Option<nat>)
    ensures r.Some? ==> r.value < |d.children| && d.children[r.value].Element?
                        && forall j :: 0 <= j < r.value ==> !d.children[j].Element?
    ensures r.None? ==> forall j :: 0 <= j < |d.children| ==> !d.children[j].Element?
  {
    FirstElementFrom(d.children, 0)
  }

  function FirstElementFrom(s: seq<Node>, from: nat): (r: Option<nat>)
    requires from <= |s|
    ensures r.Some? ==> from <= r.value < |s| && s[r.value].Element?
                        && forall j :: from <= j < r.value ==> !s[j].Element?
    ensures r.None? ==> forall j :: from <= j < |s| ==> !s[j].Element?
    decreases |s| - from
  {
    if from == |s| then None
    else if s[from].Element? then Some(from)
    else FirstElementFrom(s, from + 1)
  }

  /** `d` lies strictly below `n` in the tree. */
  ghost predicate IsDescendant(d: Node, n: Node)
    decreases n
  {
    n.Element? &&
    exists i :: 0 <= i < |n.children| && (n.children[i] == d || IsDescendant(d, n.children[i]))
  }

  /** Concatenation of a sequence of sequences. */
  function Flatten<T>(ss: seq<seq<T>>): seq<T>
  {
    if ss == [] then [] else ss[0] + Flatten(ss[1..])
  }

  /** An item is in the concatenation exactly when it is in one of the parts. */
  lemma {:induction false} InFlatten<T>(ss: seq<seq<T>>, x: T)
    ensures x in Flatten(ss) <==> exists i :: 0 <= i < |ss| && x in ss[i]
  {
    if ss != [] {
      InFlatten(ss[1..], x);
      assert forall i :: 1 <= i < |ss| ==> ss[i] == ss[1..][i - 1];
    }
  }

  /** `Element.getElementsByTagName(tag)`: the elements strictly below `n`
      whose name is `tag`, in document (pre-)order. */
  function ElementsByTagName(n: Node, tag: string): (r: seq<Node>)
    ensures forall e :: e in r ==> e.Element? && e.name == tag
    decreases n
  {
    match n
    case Element(_, _, children) =>
      var parts := seq(|children|, i requires 0 <= i < |children| =>
        (if children[i].Element? && children[i].name == tag then [children[i]] else [])
        + ElementsByTagName(children[i], tag));
      var r := Flatten(parts);
      assert forall e :: e in r ==> e.Element? && e.name == tag by {
        forall e | e in r ensures e.Element? && e.name == tag { InFlatten(parts, e); }
      }
      r
    case _ => []
  }

  /** The elements found by `ElementsByTagName` are exactly the descendants with that name. */
  lemma {:induction false} ElementsByTagNameIsDescendants(n: Node, tag: string, e: Node)
    ensures e in ElementsByTagName(n, tag) <==> e.Element? && e.name == tag && IsDescendant(e, n)
    decreases n
  {
    if n.Element? {
      var children := n.children;
      var parts := seq(|children|, i requires 0 <= i < |children| =>
        (if children[i].Element? && children[i].name == tag then [children[i]] else [])
        + ElementsByTagName(children[i], tag));
      assert ElementsByTagName(n, tag) == Flatten(parts);
      InFlatten(parts, e);
      forall i | 0 <= i < |children|
        ensures e in parts[i] <==> (children[i] == e && e.Element? && e.name == tag)
                                   || (e.Element? && e.name == tag && IsDescendant(e, children[i]))
      {
        ElementsByTagNameIsDescendants(children[i], tag, e);
      }
    }
  }

  /** Below an element with a single child, the search sees that child and what lies under it. */
  lemma ElementsByTagNameOneChild(n: Node, tag: string)
    requires n.Element? && |n.children| == 1
    ensures ElementsByTagName(n, tag)
            == (if n.children[0].Element? && n.children[0].name == tag then [n.children[0]] else [])
               + ElementsByTagName(n.children[0], tag)
  {
    var c := n.children[0];
    var part := (if c.Element? && c.name == tag then [c] else []) + ElementsByTagName(c, tag);
    var parts := seq(|n.children|, i requires 0 <= i < |n.children| =>
      (if n.children[i].Element? && n.children[i].name == tag then [n.children[i]] else [])
      + ElementsByTagName(n.children[i], tag));
    assert parts == [part];
    assert Flatten(parts) == part + Flatten([]);
  }
}
