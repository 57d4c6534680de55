/** The HTML-aware equivalence check of the artifact comparator: recognise HTML
    written by the javadoc tool, strip the parts of its head that change from
    build to build, serialize, normalize whitespace and compare ignoring case;
    in every other case defer to the plain text comparison. */
module HtmlComparator {
  import opened Wrappers
  import opened JavaStrings
  import opened Dom
  import opened Normalize

  const META_ELEMENT := "meta"
  const LINK_ELEMENT := "link"
  const SCRIPT_ELEMENT := "script"
  const HEAD_ELEMENT := "head"
  const HINT := "html"
  /** The attribute removed from the document element. */
  const LANG_ATTRIBUTE := "lang"
  /** The marker that javadoc writes as a comment into the head. */
  const JAVADOC_MARKER := "generated by javadoc"

  // ---------------------------------------------------------------------------
  // Recognising javadoc output
  // ---------------------------------------------------------------------------

  /** Comment text that, trimmed and lower-cased, starts with the marker. */
  predicate IsMarkerText(data: string) {
    StartsWith(ToLower(Trim(data)), JAVADOC_MARKER)
  }

  /** A comment with non-null data that is marker text. */
  predicate IsJavadocMarker(node: Node) {
    node.Comment? && node.data.Some? && IsMarkerText(node.data.value)
  }

  /** Some direct child of `head` is a javadoc marker comment. */
  predicate HasMarkerChild(head: Node) {
    head.Element? && exists c :: c in head.children && IsJavadocMarker(c)
  }

  /** Some element of `heads` has a marker comment as a direct child. */
  predicate SomeHeadHasMarker(heads: seq<Node>) {
    exists h :: h in heads && HasMarkerChild(h)
  }

  /** The classification computed by `IsJavadocHtml`: some element found by
      `getElementsByTagName("head")` has a marker comment as a direct child. */
  predicate JavadocHtml(root: Node) {
    SomeHeadHasMarker(ElementsByTagName(root, HEAD_ELEMENT))
  }

  /** `isJavadocHtml`: collect the head elements, then scan them. */
  method IsJavadocHtml(root: ElementNode) returns (found: bool)
    ensures found <==> JavadocHtml(root)
  {
    var heads := ElementsByTagName(root, HEAD_ELEMENT);
    found := ScanHeads(heads);
  }

  /** The nested loop of `isJavadocHtml`: over the head elements and over each
      one's child nodes, returning as soon as a marker comment is seen. */
  method ScanHeads(heads: seq<Node>) returns (found: bool)
    requires forall h :: h in heads ==> h.Element?
    ensures found <==> SomeHeadHasMarker(heads)
  {
    for k := 0 to |heads|
      invariant forall j :: 0 <= j < k ==> !HasMarkerChild(heads[j])
    {
      var children := heads[k].children;
      for m := 0 to |children|
        invariant forall j :: 0 <= j < m ==> !IsJavadocMarker(children[j])
      {
        var node := children[m];
        if node.Comment? {
          var data := node.data;
          if data.Some? && IsMarkerText(data.value) {
            assert IsJavadocMarker(node) && HasMarkerChild(heads[k]);
            return true;
          }
        }
      }
    }
    return false;
  }

  /** The classification in terms of the tree alone: some element named `head`
      anywhere below the root has a marker comment among its direct children.
      Comments elsewhere, comments nested deeper, and comments without data do not count. */
  lemma JavadocHtmlIffHeadWithMarker(root: Node)
    ensures JavadocHtml(root) <==>
            exists h :: IsDescendant(h, root) && h.Element? && h.name == HEAD_ELEMENT
                        && exists c :: c in h.children && IsJavadocMarker(c)
  {
    if h :| IsDescendant(h, root) && h.Element? && h.name == HEAD_ELEMENT
            && exists c :: c in h.children && IsJavadocMarker(c) {
      ElementsByTagNameIsDescendants(root, HEAD_ELEMENT, h);
    }
    if JavadocHtml(root) {
      var h :| h in ElementsByTagName(root, HEAD_ELEMENT) && HasMarkerChild(h);
      ElementsByTagNameIsDescendants(root, HEAD_ELEMENT, h);
    }
  }

  // ---------------------------------------------------------------------------
  // Cleaning javadoc output
  // ---------------------------------------------------------------------------

  /** A direct child of `head` that `cleanJavaDoc` removes: a comment, an element
      named "script" or "link" in any case, or an element named exactly "meta". */
  predicate IsGeneratorChurn(node: Node) {
    || node.Comment?
    || (node.Element? && (EqualsIgnoreCase(SCRIPT_ELEMENT, node.name)
                          || EqualsIgnoreCase(LINK_ELEMENT, node.name)
                          || META_ELEMENT == node.name))
  }

  /** The children of a head that survive cleaning, in their original order. */
  function KeepHeadChildren(s: seq<Node>): (r: seq<Node>)
    ensures |r| <= |s|
  {
    if s == [] then []
    else (if IsGeneratorChurn(s[0]) then [] else [s[0]]) + KeepHeadChildren(s[1..])
  }

  /** A child survives exactly when it is not churn. */
  lemma {:induction false} InKeepHeadChildren(s: seq<Node>, x: Node)
    ensures x in KeepHeadChildren(s) <==> x in s && !IsGeneratorChurn(x)
  {
    if s != [] {
      InKeepHeadChildren(s[1..], x);
      assert s == [s[0]] + s[1..];
    }
  }

  /** The inner loop of `cleanJavaDoc` for one head: walk a snapshot of the child
      list and remove each churn node from the live list. */
  method CleanHeadChildren(snapshot: seq<Node>) returns (live: seq<Node>)
    ensures live == KeepHeadChildren(snapshot)
  {
    live := snapshot;
    var kept := 0;
    for i := 0 to |snapshot|
      invariant kept <= i
      invariant live == KeepHeadChildren(snapshot[..i]) + snapshot[i..]
      invariant kept == |KeepHeadChildren(snapshot[..i])|
    {
      ghost var done := KeepHeadChildren(snapshot[..i]);
      var node := snapshot[i];
      KeepHeadChildrenStep(snapshot, i);
      LiveListAt(done, snapshot, i);
      var removed := false;
      if node.Element? {
        var nodeName := node.name;
        if EqualsIgnoreCase(SCRIPT_ELEMENT, nodeName) || EqualsIgnoreCase(LINK_ELEMENT, nodeName)
           || META_ELEMENT == nodeName {
          live := live[..kept] + live[kept + 1..];
          removed := true;
        }
      }
      if node.Comment? {
        live := live[..kept] + live[kept + 1..];
        removed := true;
      }
      assert removed <==> IsGeneratorChurn(node);
      if !removed {
        kept := kept + 1;
        assert live == (done + [node]) + snapshot[i + 1..];
      } else {
        assert live == done + snapshot[i + 1..];
      }
    }
    assert snapshot[..|snapshot|] == snapshot;
  }

  /** The live list while the loop is at snapshot position `i`: the node at `i` sits
      right after the survivors so far, and removing it leaves them followed by the
      rest of the snapshot. */
  lemma LiveListAt(done: seq<Node>, snapshot: seq<Node>, i: nat)
    requires i < |snapshot|
    ensures var live := done + snapshot[i..];
            && live[|done|] == snapshot[i]
            && live[..|done|] + live[|done| + 1..] == done + snapshot[i + 1..]
            && live == done + [snapshot[i]] + snapshot[i + 1..]
  {
    var live := done + snapshot[i..];
    assert live[..|done|] == done;
    assert live[|done| + 1..] == snapshot[i + 1..];
    assert snapshot[i..] == [snapshot[i]] + snapshot[i + 1..];
  }

  /** One more element of the snapshot is kept or dropped according to `IsGeneratorChurn`. */
  lemma KeepHeadChildrenStep(s: seq<Node>, i: nat)
    requires i < |s|
    ensures KeepHeadChildren(s[..i + 1])
            == KeepHeadChildren(s[..i]) + (if IsGeneratorChurn(s[i]) then [] else [s[i]])
  {
    assert s[..i + 1] == s[..i] + [s[i]];
    KeepHeadChildrenAppend(s[..i], [s[i]]);
    assert [s[i]][1..] == [];
  }

  /** Filtering distributes over concatenation: relative order is kept. */
  lemma {:induction false} KeepHeadChildrenAppend(a: seq<Node>, b: seq<Node>)
    ensures KeepHeadChildren(a + b) == KeepHeadChildren(a) + KeepHeadChildren(b)
  {
    if a == [] {
      assert a + b == b;
    } else {
      assert (a + b)[1..] == a[1..] + b;
      KeepHeadChildrenAppend(a[1..], b);
    }
  }

  /** A node below the document element after cleaning: the children of a `head`
      lose their churn nodes, and every surviving child is cleaned in turn.
      Cleaning changes nothing but child lists: kinds, names and attributes stay. */
  function CleanSubtree(n: Node): (r: Node)
    ensures r.Element? <==> n.Element?
    ensures r.Element? ==> r.name == n.name && r.attrs == n.attrs
    ensures !n.Element? ==> r == n
    ensures IsGeneratorChurn(r) <==> IsGeneratorChurn(n)
    decreases n
  {
    match n
    case Element(name, attrs, children) =>
      var kept := if name == HEAD_ELEMENT then KeepHeadChildren(children) else children;
      assert forall x :: x in kept ==> x in children by {
        forall x | x in kept ensures x in children { InKeepHeadChildren(children, x); }
      }
      Element(name, attrs, seq(|kept|, i requires 0 <= i < |kept| =>
        assert kept[i] in kept; CleanSubtree(kept[i])))
    case _ => n
  }

  /** `cleanJavaDoc(root)`: clean every head below the root, then remove the
      root's "lang" attribute; every other root attribute stays, in order. */
  function CleanJavaDoc(root: ElementNode): (r: ElementNode)
    ensures r.name == root.name
    ensures forall a :: a in r.attrs <==> a in root.attrs && a.name != LANG_ATTRIBUTE
    ensures |r.children| == |root.children|
  {
    var children := root.children;
    var attrs := RemoveAttribute(root.attrs, LANG_ATTRIBUTE);
    assert forall a :: a in attrs <==> a in root.attrs && a.name != LANG_ATTRIBUTE by {
      forall a ensures a in attrs <==> a in root.attrs && a.name != LANG_ATTRIBUTE {
        InRemoveAttribute(root.attrs, LANG_ATTRIBUTE, a);
      }
    }
    Element(root.name, attrs,
            seq(|children|, i requires 0 <= i < |children| => CleanSubtree(children[i])))
  }

  /** No element named `head` at or below `n` has a churn node as a direct child. */
  ghost predicate ChurnFree(n: Node)
    decreases n
  {
    n.Element? ==>
      && (n.name == HEAD_ELEMENT ==> forall c :: c in n.children ==> !IsGeneratorChurn(c))
      && forall i :: 0 <= i < |n.children| ==> ChurnFree(n.children[i])
  }

  /** Cleaning leaves no churn under any head. */
  lemma {:induction false} CleanSubtreeIsChurnFree(n: Node)
    ensures ChurnFree(CleanSubtree(n))
    decreases n
  {
    if n.Element? {
      var r := CleanSubtree(n);
      var kept := if n.name == HEAD_ELEMENT then KeepHeadChildren(n.children) else n.children;
      assert |r.children| == |kept|;
      forall i | 0 <= i < |kept| ensures r.children[i] == CleanSubtree(kept[i]) && ChurnFree(r.children[i]) {
        InKeepHeadChildren(n.children, kept[i]);
        assert kept[i] in n.children;
        CleanSubtreeIsChurnFree(kept[i]);
      }
      if n.name == HEAD_ELEMENT {
        forall c | c in r.children ensures !IsGeneratorChurn(c) {
          var i :| 0 <= i < |r.children| && r.children[i] == c;
          InKeepHeadChildren(n.children, kept[i]);
        }
      }
    }
  }

  /** A tree with no churn under any head is left as it is: cleaning removes churn and nothing else. */
  lemma {:induction false} ChurnFreeIsUnchanged(n: Node)
    requires ChurnFree(n)
    ensures CleanSubtree(n) == n
    decreases n
  {
    if n.Element? {
      var kept := if n.name == HEAD_ELEMENT then KeepHeadChildren(n.children) else n.children;
      if n.name == HEAD_ELEMENT {
        KeepWithoutChurnIsIdentity(n.children);
      }
      assert kept == n.children;
      forall i | 0 <= i < |n.children| ensures CleanSubtree(n.children[i]) == n.children[i] {
        ChurnFreeIsUnchanged(n.children[i]);
      }
      assert CleanSubtree(n).children == n.children;
    }
  }

  /** Filtering a child list that holds no churn returns it unchanged. */
  lemma {:induction false} KeepWithoutChurnIsIdentity(s: seq<Node>)
    requires forall c :: c in s ==> !IsGeneratorChurn(c)
    ensures KeepHeadChildren(s) == s
  {
    if s != [] {
      assert forall c :: c in s[1..] ==> c in s;
      KeepWithoutChurnIsIdentity(s[1..]);
    }
  }

  /** Every element named `head` that `getElementsByTagName` can find in a churn-free
      tree, however deep, has no churn among its direct children. */
  lemma {:induction false} ChurnFreeHeads(n: Node, h: Node)
    requires ChurnFree(n) && IsDescendant(h, n) && h.Element? && h.name == HEAD_ELEMENT
    ensures forall c :: c in h.children ==> !IsGeneratorChurn(c)
    decreases n
  {
    var i :| 0 <= i < |n.children| && (n.children[i] == h || IsDescendant(h, n.children[i]));
    if n.children[i] != h {
      ChurnFreeHeads(n.children[i], h);
    }
  }

  /** After `cleanJavaDoc`, no head element below the root has a comment, a script
      or link element (any case) or a meta element (exact case) as a direct child. */
  lemma CleanedHeadsHaveNoChurn(root: ElementNode, h: Node)
    requires h in ElementsByTagName(CleanJavaDoc(root), HEAD_ELEMENT)
    ensures forall c :: c in h.children ==> !IsGeneratorChurn(c)
  {
    var r := CleanJavaDoc(root);
    ElementsByTagNameIsDescendants(r, HEAD_ELEMENT, h);
    forall i | 0 <= i < |r.children| ensures ChurnFree(r.children[i]) {
      CleanSubtreeIsChurnFree(root.children[i]);
    }
    var i :| 0 <= i < |r.children| && (r.children[i] == h || IsDescendant(h, r.children[i]));
    if r.children[i] != h {
      ChurnFreeHeads(r.children[i], h);
    }
  }

  /** Below an element not named `head`, every child is kept in its place and only
      cleaned in turn. */
  lemma NonHeadChildrenKept(n: Node, i: nat)
    requires n.Element? && n.name != HEAD_ELEMENT && i < |n.children|
    ensures |CleanSubtree(n).children| == |n.children|
    ensures CleanSubtree(n).children[i] == CleanSubtree(n.children[i])
  {
  }

  /** Under a head, every child that is not churn survives (cleaned in turn), and the
      survivors keep their relative order. */
  lemma HeadChildrenSurvive(attrs: seq<Attribute>, a: seq<Node>, c: Node, b: seq<Node>)
    requires !IsGeneratorChurn(c)
    ensures var r := CleanSubtree(Element(HEAD_ELEMENT, attrs, a + [c] + b));
            |KeepHeadChildren(a)| < |r.children|
            && r.children[|KeepHeadChildren(a)|] == CleanSubtree(c)
  {
    var kept := KeepHeadChildren(a + [c] + b);
    KeepHeadChildrenStep(a + [c], |a|);
    assert (a + [c])[..|a| + 1] == a + [c] && (a + [c])[..|a|] == a;
    KeepHeadChildrenAppend(a + [c], b);
    assert kept == KeepHeadChildren(a) + [c] + KeepHeadChildren(b);
    assert kept[|KeepHeadChildren(a)|] == c;
  }

  /** Cleaning twice gives the same tree as cleaning once. */
  lemma CleanJavaDocIdempotent(root: ElementNode)
    ensures CleanJavaDoc(CleanJavaDoc(root)) == CleanJavaDoc(root)
  {
    var once := CleanJavaDoc(root);
    var twice := CleanJavaDoc(once);
    forall i | 0 <= i < |once.children| ensures twice.children[i] == once.children[i] {
      CleanSubtreeIsChurnFree(root.children[i]);
      ChurnFreeIsUnchanged(once.children[i]);
    }
    RemoveAbsentAttribute(once.attrs, LANG_ATTRIBUTE);
  }

  /** A churn node inserted anywhere among a head's children makes no difference once cleaned. */
  lemma InsertedChurnIsInvisible(attrs: seq<Attribute>, s: seq<Node>, i: nat, x: Node)
    requires i <= |s| && IsGeneratorChurn(x)
    ensures CleanSubtree(Element(HEAD_ELEMENT, attrs, s[..i] + [x] + s[i..]))
            == CleanSubtree(Element(HEAD_ELEMENT, attrs, s))
  {
    KeepHeadChildrenAppend(s[..i] + [x], s[i..]);
    KeepHeadChildrenAppend(s[..i], [x]);
    KeepHeadChildrenAppend(s[..i], s[i..]);
    assert [x][1..] == [];
    assert s[..i] + s[i..] == s;
  }

  /** A "lang" attribute on the root, with any value and at any place among the
      attributes, makes no difference once cleaned. */
  lemma LangIsInvisible(name: string, before: seq<Attribute>, lang: string, after: seq<Attribute>,
                        children: seq<Node>)
    ensures CleanJavaDoc(Element(name, before + [Attribute(LANG_ATTRIBUTE, lang)] + after, children))
            == CleanJavaDoc(Element(name, before + after, children))
  {
    RemoveAttributeDropsNamed(before, Attribute(LANG_ATTRIBUTE, lang), after);
  }

  /** The case rule of the removal test: "SCRIPT" and "Link" are removed, "META" is not. */
  lemma ChurnCaseRule(attrs: seq<Attribute>, children: seq<Node>, text: string)
    ensures IsGeneratorChurn(Element("SCRIPT", attrs, children))
    ensures IsGeneratorChurn(Element("Link", attrs, children))
    ensures IsGeneratorChurn(Element("meta", attrs, children))
    ensures !IsGeneratorChurn(Element("META", attrs, children))
    ensures !IsGeneratorChurn(Element("Meta", attrs, children))
    ensures !IsGeneratorChurn(Element("title", attrs, children))
    ensures IsGeneratorChurn(Comment(None))
    ensures !IsGeneratorChurn(Other(text))
  {
    assert EqualsIgnoreCase(SCRIPT_ELEMENT, "SCRIPT");
    assert EqualsIgnoreCase(LINK_ELEMENT, "Link");
    assert !CharsEqualIgnoreCase(LINK_ELEMENT[0], "META"[0]) && META_ELEMENT[0] != "META"[0];
    assert !CharsEqualIgnoreCase(LINK_ELEMENT[0], "Meta"[0]) && META_ELEMENT[0] != "Meta"[0];
  }

  /** Comment text carries the javadoc marker exactly when, once trimmed, it starts
      with "generated by javadoc" in any mix of cases. */
  lemma MarkerInAnyCase(text: string)
    ensures IsMarkerText(text)
            <==> |Trim(text)| >= |JAVADOC_MARKER|
                 && EqualsIgnoreCase(Trim(text)[..|JAVADOC_MARKER|], JAVADOC_MARKER)
  {
    var t := Trim(text);
    var m := |JAVADOC_MARKER|;
    if |t| >= m {
      var p := t[..m];
      ToLowerAt(t);
      ToLowerAt(p);
      MarkerIsLowerCase();
      assert EqualsIgnoreCase(p, JAVADOC_MARKER) <==> ToLower(t)[..m] == JAVADOC_MARKER by {
        forall i | 0 <= i < m
          ensures CharsEqualIgnoreCase(p[i], JAVADOC_MARKER[i]) <==> ToLower(t)[i] == JAVADOC_MARKER[i]
        {
          assert p[i] == t[i];
        }
      }
    }
  }

  /** The marker constant is already in lower case. */
  lemma MarkerIsLowerCase()
    ensures forall i :: 0 <= i < |JAVADOC_MARKER| ==> LowerChar(JAVADOC_MARKER[i]) == JAVADOC_MARKER[i]
  {
  }

  /** The marker test ignores case and what follows the marker. */
  lemma MarkerExampleMixedCase()
    ensures IsMarkerText("Generated By JAVADOC (release 21)")
  {
    var a := "Generated By JAVADOC (release 21)";
    TrimUntouched(a);
    assert a[..20] == "Generated By JAVADOC";
    assert EqualsIgnoreCase("Generated By JAVADOC", "generated by javadoc");
    MarkerInAnyCase(a);
  }

  /** The marker words must come first: trimmed text that starts with anything but
      a "g" in either case is not the marker. */
  lemma MarkerMustComeFirst(text: string)
    requires |Trim(text)| > 0 && LowerChar(Trim(text)[0]) != 'g'
    ensures !IsMarkerText(text)
  {
    ToLowerAt(Trim(text));
  }

  /** A truncated marker does not count. */
  lemma MarkerExampleTruncated()
    ensures !IsMarkerText("generated by java")
  {
    TrimIsBlankFreeInfix("generated by java");
  }

  /** A marker comment directly under a head makes the document javadoc output. */
  lemma MarkerUnderHeadCounts(marker: Node, attrs: seq<Attribute>)
    requires IsJavadocMarker(marker)
    ensures JavadocHtml(Element("html", attrs, [Element(HEAD_ELEMENT, [], [marker])]))
  {
    var head := Element(HEAD_ELEMENT, [], [marker]);
    var root := Element("html", attrs, [head]);
    assert root.children[0] == head && IsDescendant(head, root);
    ElementsByTagNameIsDescendants(root, HEAD_ELEMENT, head);
    assert head in ElementsByTagName(root, HEAD_ELEMENT) && marker in head.children;
  }

  /** A marker comment nested inside a child of the head does not count. */
  lemma NestedMarkerIgnored(marker: Node, attrs: seq<Attribute>)
    requires marker.Comment?
    ensures !JavadocHtml(Element("html", attrs, [Element(HEAD_ELEMENT, [], [Element("title", [], [marker])])]))
  {
    var title := Element("title", [], [marker]);
    var head := Element(HEAD_ELEMENT, [], [title]);
    var root := Element("html", attrs, [head]);
    ElementsByTagNameOneChild(title, HEAD_ELEMENT);
    ElementsByTagNameOneChild(head, HEAD_ELEMENT);
    ElementsByTagNameOneChild(root, HEAD_ELEMENT);
    assert ElementsByTagName(root, HEAD_ELEMENT) == [head];
    assert !IsJavadocMarker(title);
  }

  /** A marker comment outside any head does not count. */
  lemma MarkerOutsideHeadIgnored(marker: Node, attrs: seq<Attribute>)
    requires marker.Comment?
    ensures !JavadocHtml(Element("html", attrs, [Element("body", [], [marker])]))
  {
    var body := Element("body", [], [marker]);
    var root := Element("html", attrs, [body]);
    ElementsByTagNameOneChild(body, HEAD_ELEMENT);
    ElementsByTagNameOneChild(root, HEAD_ELEMENT);
    assert ElementsByTagName(root, HEAD_ELEMENT) == [];
  }

  /** A comment whose data is null does not count. */
  lemma NullCommentIgnored(attrs: seq<Attribute>)
    ensures !JavadocHtml(Element("html", attrs, [Element(HEAD_ELEMENT, [], [Comment(None)])]))
  {
    var head := Element(HEAD_ELEMENT, [], [Comment(None)]);
    var root := Element("html", attrs, [head]);
    ElementsByTagNameOneChild(head, HEAD_ELEMENT);
    ElementsByTagNameOneChild(root, HEAD_ELEMENT);
    assert ElementsByTagName(root, HEAD_ELEMENT) == [head];
  }

  // ---------------------------------------------------------------------------
  // The comparison
  // ---------------------------------------------------------------------------

  /** `serializeAndNormalize`: serialize (which may fail), then normalize. */
  function SerializeAndNormalize(doc: Document, serialize: Document -> Outcome<string>): (r: Outcome<string>)
    ensures r.Ok? <==> serialize(doc).Ok?
    ensures r.Ok? ==> Normalized(r.value)
    ensures r.Ok? ==> NonWhitespace(r.value) == NonWhitespace(serialize(doc).value)
  {
    match serialize(doc)
    case Ok(text) =>
      NormalizeSerializationIsNormalized(text);
      NormalizeSerializationKeepsText(text);
      Ok(NormalizeSerialization(text))
    case Failed => Failed
  }

  /** `cleanJavaDoc(doc.getDocumentElement())` on a whole document; a document without
      a document element fails, as the null dereference would. */
  function CleanDocument(doc: Document): (r: Outcome<Document>)
    ensures r.Ok? <==> DocumentElementIndex(doc).Some?
    ensures r.Ok? ==> |r.value.children| == |doc.children|
    ensures r.Ok? ==> var i := DocumentElementIndex(doc).value;
                      && r.value.children[i] == CleanJavaDoc(doc.children[i])
                      && forall j :: 0 <= j < |doc.children| && j != i ==> r.value.children[j] == doc.children[j]
  {
    match DocumentElementIndex(doc)
    case Some(i) => Ok(Document(doc.children[i := CleanJavaDoc(doc.children[i])]))
    case None => Failed
  }

  /** `isJavadocHtml(doc)`; a document without a document element fails. */
  function IsJavadocDocument(doc: Document): (r: Outcome<bool>)
    ensures r.Ok? <==> DocumentElementIndex(doc).Some?
    ensures r.Ok? ==> (r.value <==> JavadocHtml(doc.children[DocumentElementIndex(doc).value]))
  {
    match DocumentElementIndex(doc)
    case Some(i) => Ok(JavadocHtml(doc.children[i]))
    case None => Failed
  }

  /** The body of the `try` block of `getDelta`: `Ok(true)` where it returns
      NO_DIFFERENCE, `Ok(false)` where it falls through, `Failed` where it throws. */
  function TryHtmlCompare<Input>(baseline: Input, reactor: Input,
                                 parse: Input -> Outcome<Document>,
                                 serialize: Document -> Outcome<string>): (r: Outcome<bool>)
    ensures parse(baseline).Failed? || parse(reactor).Failed? ==> r.Failed?
    ensures r == Ok(true) <==> JavadocEquivalent(baseline, reactor, parse, serialize)
    ensures (parse(baseline).Ok? && parse(reactor).Ok?
             && IsJavadocDocument(parse(baseline).value) == Ok(false)) ==> r == Ok(false)
  {
    match (parse(baseline), parse(reactor))
    case (Ok(baselineDoc), Ok(reactorDoc)) =>
      (match IsJavadocDocument(baselineDoc)
       case Failed => Failed
       case Ok(false) => Ok(false)
       case Ok(true) =>
         match (CleanDocument(baselineDoc), CleanDocument(reactorDoc))
         case (Ok(cleanBaseline), Ok(cleanReactor)) =>
           (match (SerializeAndNormalize(cleanBaseline, serialize), SerializeAndNormalize(cleanReactor, serialize))
            case (Ok(serializeBaseline), Ok(serializeReactor)) =>
              Ok(EqualsIgnoreCase(serializeBaseline, serializeReactor))
            case _ => Failed)
         case _ => Failed)
    case _ => Failed
  }

  /** The condition under which the comparator itself decides "no difference": both inputs
      parse, the baseline is javadoc output, both documents can be cleaned and serialized,
      and the normalized serializations are equal ignoring case. The reactor's own
      classification plays no part. */
  predicate JavadocEquivalent<Input>(baseline: Input, reactor: Input,
                                     parse: Input -> Outcome<Document>,
                                     serialize: Document -> Outcome<string>)
  {
    && parse(baseline).Ok? && parse(reactor).Ok?
    && DocumentElementIndex(parse(baseline).value).Some?
    && DocumentElementIndex(parse(reactor).value).Some?
    && JavadocHtml(parse(baseline).value.children[DocumentElementIndex(parse(baseline).value).value])
    && serialize(CleanDocument(parse(baseline).value).value).Ok?
    && serialize(CleanDocument(parse(reactor).value).value).Ok?
    && EqualsIgnoreCase(NormalizeSerialization(serialize(CleanDocument(parse(baseline).value).value).value),
                        NormalizeSerialization(serialize(CleanDocument(parse(reactor).value).value).value))
  }

  /** `getDelta`: NO_DIFFERENCE exactly when the HTML comparison says so; in every other
      case, a failure at any step included, the text comparison's result on the same inputs. */
  function GetDelta<Input, Delta(==)>(baseline: Input, reactor: Input,
                                      parse: Input -> Outcome<Document>,
                                      serialize: Document -> Outcome<string>,
                                      compareText: Delta, noDifference: Delta): (r: Delta)
    ensures r == noDifference || r == compareText
    ensures JavadocEquivalent(baseline, reactor, parse, serialize) ==> r == noDifference
    ensures !JavadocEquivalent(baseline, reactor, parse, serialize) ==> r == compareText
    ensures parse(baseline).Failed? || parse(reactor).Failed? ==> r == compareText
  {
    match TryHtmlCompare(baseline, reactor, parse, serialize)
    case Ok(true) => noDifference
    case _ => compareText
  }

  /** Two byte-identical inputs that parse as javadoc output and serialize are reported as
      no difference. */
  lemma IdenticalJavadocInputsMatch<Input, Delta>(input: Input,
                                                      parse: Input -> Outcome<Document>,
                                                      serialize: Document -> Outcome<string>,
                                                      compareText: Delta, noDifference: Delta)
    requires parse(input).Ok? && IsJavadocDocument(parse(input).value) == Ok(true)
    requires serialize(CleanDocument(parse(input).value).value).Ok?
    ensures GetDelta(input, input, parse, serialize, compareText, noDifference) == noDifference
  {
    var text := NormalizeSerialization(serialize(CleanDocument(parse(input).value).value).value);
    EqualsIgnoreCaseIsEquivalence(text, text, text);
  }

  /** When the baseline is javadoc output and both documents clean to the same tree that
      serializes, the result is no difference, whatever the reactor's own classification:
      documents that differ only in head churn or in the root's "lang" attribute match. */
  lemma SameCleanedDocumentsMatch<Input, Delta>(baseline: Input, reactor: Input,
                                                    parse: Input -> Outcome<Document>,
                                                    serialize: Document -> Outcome<string>,
                                                    compareText: Delta, noDifference: Delta)
    requires parse(baseline).Ok? && parse(reactor).Ok?
    requires IsJavadocDocument(parse(baseline).value) == Ok(true)
    requires CleanDocument(parse(baseline).value) == CleanDocument(parse(reactor).value)
    requires serialize(CleanDocument(parse(baseline).value).value).Ok?
    ensures GetDelta(baseline, reactor, parse, serialize, compareText, noDifference) == noDifference
  {
    var text := NormalizeSerialization(serialize(CleanDocument(parse(baseline).value).value).value);
    EqualsIgnoreCaseIsEquivalence(text, text, text);
  }

  // ---------------------------------------------------------------------------
  // Selecting the comparator
  // ---------------------------------------------------------------------------

  /** `matches`: the name or extension is "html" or "htm", in any case. */
  function Matches(nameOrExtension: string): (r: bool)
    ensures r <==> ToLower(nameOrExtension) == "html" || ToLower(nameOrExtension) == "htm"
  {
    EqualsIgnoreCaseIffLowerEqual(HINT, nameOrExtension);
    EqualsIgnoreCaseIffLowerEqual("htm", nameOrExtension);
    assert ToLower(HINT) == HINT && ToLower("htm") == "htm";
    EqualsIgnoreCase(HINT, nameOrExtension) || EqualsIgnoreCase("htm", nameOrExtension)
  }

  lemma MatchesExamples()
    ensures Matches("HTML") && Matches("htm") && Matches("HTM") && Matches("Html")
    ensures !Matches("xml") && !Matches("xhtml") && !Matches("ht") && !Matches("")
  {
    assert ToLower("HTML") == "html" && ToLower("HTM") == "htm" && ToLower("Html") == "html";
    assert ToLower("xml")[0] == 'x';
  }
}
