# HTML comparator of the Tycho artifact comparator

This project models the `HtmlComparator` of Tycho's artifact comparator in Dafny.
The comparator decides whether two HTML files from a baseline build and from a
new build count as equal. It handles one special case, HTML generated by the
javadoc tool. When the baseline file carries javadoc's "Generated by javadoc"
comment in a `head`, both documents are cleaned and serialized, and then compared
ignoring case:

- cleaning drops the scripts, links, `meta` elements and comments under every
  `head`, and the `lang` attribute of the root element;
- the serialized text has its whitespace normalized before the comparison.

Two such files that are equal after this count as "no difference". Every other
case falls back to the plain text comparison, including a parse failure, a file
that is not javadoc output, and a difference that survives the cleaning.

The model consists of these modules:

- `Wrappers` (`wrappers.dfy`): `Option` and `Outcome`. `Outcome.Failed` stands
  for any exception thrown inside the comparator's `try` block.
- `JavaStrings` (`java_strings.dfy`): the parts of `java.lang.String` the
  comparator uses, with ASCII case rules:
  - the `\s` whitespace class;
  - `toLowerCase` and `equalsIgnoreCase`;
  - `trim`, which strips characters up to U+0020;
  - `startsWith`.
- `Dom` (`dom.dfy`): the parsed document as a tree value. Elements carry
  their attributes in document order. Text, document types and other nodes
  carry the content the serializer prints. `ElementsByTagName` is the
  library's `getElementsByTagName`: the proper descendants with that name, in
  document order. `RemoveAttribute` is the library's `removeAttribute`.
- `Normalize` (`normalize.dfy`): the text pipeline of `serializeAndNormalize`
  and the "normalized" shape of its results.
- `HtmlComparator` (`html_comparator.dfy`): the parts of the comparator itself.
  - the tag-name constants;
  - the javadoc test, as a predicate and as the nested scanning loop, proved
    equal to it;
  - the head cleaning. The inner loop walks a snapshot of the child list and
    removes nodes from the live list. It is a method proved equal to a
    functional filter.
  - `getDelta`, with the HTML parser, the serializer and the text comparison's
    result as parameters;
  - `matches`.

## Model

All source paths are relative to `tycho-artifactcomparator/src/main/java/org/eclipse/tycho/zipcomparator/internal/`, written in full in the table.

| member | source | states |
|---|---|---|
| JavaStrings.ToLowerAt | tycho-artifactcomparator/src/main/java/org/eclipse/tycho/zipcomparator/internal/HtmlComparator.java:97 | `toLowerCase` maps every position to its lower-case character and changes nothing else |
| JavaStrings.EqualsIgnoreCaseIffLowerEqual | tycho-artifactcomparator/src/main/java/org/eclipse/tycho/zipcomparator/internal/HtmlComparator.java:77-78 | two strings are `equalsIgnoreCase` exactly when their lower-case forms are equal |
| JavaStrings.EqualsIgnoreCaseIsEquivalence | tycho-artifactcomparator/src/main/java/org/eclipse/tycho/zipcomparator/internal/HtmlComparator.java:54 | the final `equalsIgnoreCase` comparison is reflexive, symmetric and transitive |
| JavaStrings.TrimUntouched | tycho-artifactcomparator/src/main/java/org/eclipse/tycho/zipcomparator/internal/HtmlComparator.java:97 | `trim` returns text unchanged when it starts and ends with a character above U+0020 |
| JavaStrings.TrimIsBlankFreeInfix | tycho-artifactcomparator/src/main/java/org/eclipse/tycho/zipcomparator/internal/HtmlComparator.java:97 | `trim` returns the contiguous middle part of the text, with no character up to U+0020 at either end, after removing only such characters; it is empty exactly when the text is all blanks |
| Dom.DocumentElementIndex | tycho-artifactcomparator/src/main/java/org/eclipse/tycho/zipcomparator/internal/HtmlComparator.java:50-51 | `getDocumentElement` finds the first element child of the document; none exists exactly when no child is an element |
| Dom.ElementsByTagName | tycho-artifactcomparator/src/main/java/org/eclipse/tycho/zipcomparator/internal/HtmlComparator.java:73 | every node the lookup returns is an element with the requested name |
| Dom.ElementsByTagNameIsDescendants | tycho-artifactcomparator/src/main/java/org/eclipse/tycho/zipcomparator/internal/HtmlComparator.java:92 | a node is returned by the lookup exactly when it is an element with that name and a proper descendant of the start element |
| Dom.RemoveAttribute | tycho-artifactcomparator/src/main/java/org/eclipse/tycho/zipcomparator/internal/HtmlComparator.java:88 | `removeAttribute` never lengthens the attribute list and leaves no attribute with the removed name |
| Dom.InRemoveAttribute | tycho-artifactcomparator/src/main/java/org/eclipse/tycho/zipcomparator/internal/HtmlComparator.java:88 | an attribute stays exactly when it was there and has another name |
| Dom.RemoveAttributeAppend | tycho-artifactcomparator/src/main/java/org/eclipse/tycho/zipcomparator/internal/HtmlComparator.java:88 | removal works piece by piece, so the remaining attributes keep their order |
| Dom.RemoveAbsentAttribute | tycho-artifactcomparator/src/main/java/org/eclipse/tycho/zipcomparator/internal/HtmlComparator.java:88 | removing a name that no attribute has changes nothing |
| Dom.RemoveAttributeDropsNamed | tycho-artifactcomparator/src/main/java/org/eclipse/tycho/zipcomparator/internal/HtmlComparator.java:88 | an attribute with the removed name leaves no trace, wherever it stands in the list |
| HtmlComparator.IsMarkerText | tycho-artifactcomparator/src/main/java/org/eclipse/tycho/zipcomparator/internal/HtmlComparator.java:97 | the marker test on non-null comment data: trimmed and lower-cased, it starts with "generated by javadoc". `MarkerInAnyCase` restates it as a case-insensitive prefix test |
| HtmlComparator.JavadocHtml | tycho-artifactcomparator/src/main/java/org/eclipse/tycho/zipcomparator/internal/HtmlComparator.java:91-104 | the javadoc test as a predicate: some head the lookup returns has a direct comment child carrying the marker. `JavadocHtmlIffHeadWithMarker` restates it over descendants |
| HtmlComparator.ScanHeads | tycho-artifactcomparator/src/main/java/org/eclipse/tycho/zipcomparator/internal/HtmlComparator.java:93-103 | the nested loop returns true exactly when some head has a direct comment child whose non-null text, trimmed and lower-cased, starts with "generated by javadoc" |
| HtmlComparator.IsJavadocHtml | tycho-artifactcomparator/src/main/java/org/eclipse/tycho/zipcomparator/internal/HtmlComparator.java:91-104 | the javadoc test on a root element agrees with the javadoc predicate over its `head` descendants |
| HtmlComparator.JavadocHtmlIffHeadWithMarker | tycho-artifactcomparator/src/main/java/org/eclipse/tycho/zipcomparator/internal/HtmlComparator.java:91-104 | a document is javadoc output exactly when some `head` element below its root has a direct comment child carrying the marker |
| HtmlComparator.MarkerInAnyCase | tycho-artifactcomparator/src/main/java/org/eclipse/tycho/zipcomparator/internal/HtmlComparator.java:97 | comment text counts as the marker exactly when its trimmed text is at least as long as "generated by javadoc" and starts with it ignoring case |
| HtmlComparator.MarkerExampleMixedCase | tycho-artifactcomparator/src/main/java/org/eclipse/tycho/zipcomparator/internal/HtmlComparator.java:97 | "Generated By JAVADOC (release 21)" counts as the marker, because case is folded |
| HtmlComparator.MarkerMustComeFirst | tycho-artifactcomparator/src/main/java/org/eclipse/tycho/zipcomparator/internal/HtmlComparator.java:97 | trimmed comment text whose first character is not "g" in either case is not the marker: the phrase must start the text |
| HtmlComparator.MarkerExampleTruncated | tycho-artifactcomparator/src/main/java/org/eclipse/tycho/zipcomparator/internal/HtmlComparator.java:97 | "generated by java", which stops short of the phrase, is not the marker |
| HtmlComparator.MarkerUnderHeadCounts | tycho-artifactcomparator/src/main/java/org/eclipse/tycho/zipcomparator/internal/HtmlComparator.java:92-99 | a marker comment directly under a `head` below the root makes the document javadoc output |
| HtmlComparator.NestedMarkerIgnored | tycho-artifactcomparator/src/main/java/org/eclipse/tycho/zipcomparator/internal/HtmlComparator.java:94-95 | a marker comment nested one level deeper inside the head's child element does not count |
| HtmlComparator.MarkerOutsideHeadIgnored | tycho-artifactcomparator/src/main/java/org/eclipse/tycho/zipcomparator/internal/HtmlComparator.java:92 | a marker comment under an element not named `head` does not count |
| HtmlComparator.NullCommentIgnored | tycho-artifactcomparator/src/main/java/org/eclipse/tycho/zipcomparator/internal/HtmlComparator.java:96-97 | a comment with null data under a head does not count |
| HtmlComparator.IsGeneratorChurn | tycho-artifactcomparator/src/main/java/org/eclipse/tycho/zipcomparator/internal/HtmlComparator.java:75-84 | the removal test of the inner loop: a comment, an element named "script" or "link" in any case, or an element named exactly "meta". `ChurnCaseRule` states its cases |
| HtmlComparator.KeepHeadChildren | tycho-artifactcomparator/src/main/java/org/eclipse/tycho/zipcomparator/internal/HtmlComparator.java:74-85 | the children of a head that survive cleaning: never more than there were. `InKeepHeadChildren` says which ones survive and `KeepHeadChildrenAppend` says in what order |
| HtmlComparator.InKeepHeadChildren | tycho-artifactcomparator/src/main/java/org/eclipse/tycho/zipcomparator/internal/HtmlComparator.java:74-85 | a head child survives cleaning exactly when it is not a comment, not a "script" or "link" element in any case, and not an element named exactly "meta" |
| HtmlComparator.CleanHeadChildren | tycho-artifactcomparator/src/main/java/org/eclipse/tycho/zipcomparator/internal/HtmlComparator.java:74-85 | removing churn nodes one by one from the live list, while walking a snapshot, leaves exactly the filtered child list |
| HtmlComparator.KeepHeadChildrenAppend | tycho-artifactcomparator/src/main/java/org/eclipse/tycho/zipcomparator/internal/HtmlComparator.java:74-85 | the filter works piece by piece over concatenation, so surviving children keep their relative order |
| HtmlComparator.KeepWithoutChurnIsIdentity | tycho-artifactcomparator/src/main/java/org/eclipse/tycho/zipcomparator/internal/HtmlComparator.java:74-85 | a child list with no churn node is left unchanged |
| HtmlComparator.CleanSubtree | tycho-artifactcomparator/src/main/java/org/eclipse/tycho/zipcomparator/internal/HtmlComparator.java:73-86 | cleaning keeps every node's kind, name and attributes, leaves non-element nodes unchanged, and keeps whether a node is churn |
| HtmlComparator.CleanJavaDoc | tycho-artifactcomparator/src/main/java/org/eclipse/tycho/zipcomparator/internal/HtmlComparator.java:71-89 | the cleaned root keeps its name and the same number of children. An attribute is on the cleaned root exactly when it was on the root and is not named `lang`. `Dom.RemoveAttributeAppend` shows that the attributes keep their order |
| HtmlComparator.CleanSubtreeIsChurnFree | tycho-artifactcomparator/src/main/java/org/eclipse/tycho/zipcomparator/internal/HtmlComparator.java:73-86 | after cleaning, no `head` anywhere in the subtree has a churn child |
| HtmlComparator.ChurnFreeIsUnchanged | tycho-artifactcomparator/src/main/java/org/eclipse/tycho/zipcomparator/internal/HtmlComparator.java:73-86 | cleaning a subtree that has no head with churn children changes nothing |
| HtmlComparator.ChurnFreeHeads | tycho-artifactcomparator/src/main/java/org/eclipse/tycho/zipcomparator/internal/HtmlComparator.java:73 | in a subtree without churn under its heads, no `head` descendant has a churn child |
| HtmlComparator.CleanedHeadsHaveNoChurn | tycho-artifactcomparator/src/main/java/org/eclipse/tycho/zipcomparator/internal/HtmlComparator.java:71-89 | after `cleanJavaDoc`, no `head` below the root has a comment, script, link or exact "meta" child |
| HtmlComparator.NonHeadChildrenKept | tycho-artifactcomparator/src/main/java/org/eclipse/tycho/zipcomparator/internal/HtmlComparator.java:73 | below an element not named `head`, every child stays in its place and is only cleaned in turn |
| HtmlComparator.HeadChildrenSurvive | tycho-artifactcomparator/src/main/java/org/eclipse/tycho/zipcomparator/internal/HtmlComparator.java:74-85 | a non-churn child of a head survives at the position given by the survivors before it, cleaned in turn |
| HtmlComparator.CleanJavaDocIdempotent | tycho-artifactcomparator/src/main/java/org/eclipse/tycho/zipcomparator/internal/HtmlComparator.java:71-89 | cleaning an already cleaned root changes nothing |
| HtmlComparator.InsertedChurnIsInvisible | tycho-artifactcomparator/src/main/java/org/eclipse/tycho/zipcomparator/internal/HtmlComparator.java:74-85 | inserting a churn node anywhere among a head's children makes no difference after cleaning |
| HtmlComparator.LangIsInvisible | tycho-artifactcomparator/src/main/java/org/eclipse/tycho/zipcomparator/internal/HtmlComparator.java:88 | a `lang` attribute on the root, with any value and at any place among the attributes, makes no difference after cleaning |
| HtmlComparator.ChurnCaseRule | tycho-artifactcomparator/src/main/java/org/eclipse/tycho/zipcomparator/internal/HtmlComparator.java:77-78 | "SCRIPT", "Link", "meta" and comments, even null ones, are churn. "META", "Meta", "title" and text or other nodes are not, because the meta test is case-sensitive |
| Normalize.NormalizeSerialization | tycho-artifactcomparator/src/main/java/org/eclipse/tycho/zipcomparator/internal/HtmlComparator.java:67-68 | the four string operations of `serializeAndNormalize`, in source order. `NormalizeSerializationIsNormalized`, `NormalizeSerializationKeepsText` and `NormalizeSerializationIdempotent` state what it guarantees |
| Normalize.CollapseWhitespace | tycho-artifactcomparator/src/main/java/org/eclipse/tycho/zipcomparator/internal/HtmlComparator.java:67 | `replaceAll("\\s+", " ")` leaves only plain spaces as whitespace and never two in a row. The result is empty exactly when the input is, and starts with a space exactly when the input starts with whitespace. |
| Normalize.DeleteChar | tycho-artifactcomparator/src/main/java/org/eclipse/tycho/zipcomparator/internal/HtmlComparator.java:67 | `replace(c, "")` never lengthens the text |
| Normalize.InDeleteChar | tycho-artifactcomparator/src/main/java/org/eclipse/tycho/zipcomparator/internal/HtmlComparator.java:67 | a character is in the result exactly when it is in the text and is not the deleted one |
| Normalize.DeleteCharAppend | tycho-artifactcomparator/src/main/java/org/eclipse/tycho/zipcomparator/internal/HtmlComparator.java:67 | deletion works piece by piece, so the kept characters keep their order and their number |
| Normalize.ReplaceTagGaps | tycho-artifactcomparator/src/main/java/org/eclipse/tycho/zipcomparator/internal/HtmlComparator.java:68 | `replace("> <", "><")` never lengthens the text and keeps its first character |
| Normalize.ReplaceTagGapsShape | tycho-artifactcomparator/src/main/java/org/eclipse/tycho/zipcomparator/internal/HtmlComparator.java:68 | after the replacement no "> <" is left and no character is introduced. Text whose only whitespace is single plain spaces keeps that shape |
| Normalize.ReplaceTagGapsAtGap | tycho-artifactcomparator/src/main/java/org/eclipse/tycho/zipcomparator/internal/HtmlComparator.java:68 | at a "> <", the replacement writes "><". The text before it and the text after it are replaced on their own, so one pass never creates a new gap from the brackets it keeps |
| Normalize.ReplaceTagGapsAppend | tycho-artifactcomparator/src/main/java/org/eclipse/tycho/zipcomparator/internal/HtmlComparator.java:68 | where no "> <" can straddle the seam, the replacement works piece by piece. So every space outside a tag gap stays, and so does the order of the text |
| Normalize.CollapseWhitespaceFixpoint | tycho-artifactcomparator/src/main/java/org/eclipse/tycho/zipcomparator/internal/HtmlComparator.java:67 | collapsing text that already has only single plain spaces changes nothing |
| Normalize.DeleteAbsentChar | tycho-artifactcomparator/src/main/java/org/eclipse/tycho/zipcomparator/internal/HtmlComparator.java:67 | removing a character that does not occur changes nothing |
| Normalize.ReplaceTagGapsFixpoint | tycho-artifactcomparator/src/main/java/org/eclipse/tycho/zipcomparator/internal/HtmlComparator.java:68 | replacing tag gaps in text with no "> <" changes nothing |
| Normalize.NormalizeSerializationIsNormalized | tycho-artifactcomparator/src/main/java/org/eclipse/tycho/zipcomparator/internal/HtmlComparator.java:66-69 | the output of the pipeline has no CR, no LF, no whitespace but single spaces, and no "> <". The two deletions leave the collapsed text unchanged |
| Normalize.NormalizedIsFixpoint | tycho-artifactcomparator/src/main/java/org/eclipse/tycho/zipcomparator/internal/HtmlComparator.java:66-69 | running the pipeline on text that is already normalized changes nothing |
| Normalize.NormalizeSerializationIdempotent | tycho-artifactcomparator/src/main/java/org/eclipse/tycho/zipcomparator/internal/HtmlComparator.java:66-69 | running the pipeline twice gives the same text as once |
| Normalize.CollapseWhitespaceKeepsText | tycho-artifactcomparator/src/main/java/org/eclipse/tycho/zipcomparator/internal/HtmlComparator.java:67 | collapsing whitespace keeps the non-whitespace characters and their order |
| Normalize.ReplaceTagGapsKeepsText | tycho-artifactcomparator/src/main/java/org/eclipse/tycho/zipcomparator/internal/HtmlComparator.java:68 | the tag-gap replacement keeps the non-whitespace characters and their order |
| Normalize.NormalizeSerializationKeepsText | tycho-artifactcomparator/src/main/java/org/eclipse/tycho/zipcomparator/internal/HtmlComparator.java:66-69 | the whole pipeline keeps the non-whitespace characters and their order, so it can only merge texts that differ in whitespace |
| Normalize.CollapseRun | tycho-artifactcomparator/src/main/java/org/eclipse/tycho/zipcomparator/internal/HtmlComparator.java:67 | a non-empty whitespace run collapses the same way as a single space in front of the same rest |
| Normalize.CollapsePrefixCongruence | tycho-artifactcomparator/src/main/java/org/eclipse/tycho/zipcomparator/internal/HtmlComparator.java:67 | two texts that collapse alike, and both do or both do not start with whitespace, still collapse alike after the same prefix is put in front |
| Normalize.WhitespaceRunsAreInterchangeable | tycho-artifactcomparator/src/main/java/org/eclipse/tycho/zipcomparator/internal/HtmlComparator.java:66-69 | any two non-empty whitespace runs at the same place normalize to the same text |
| HtmlComparator.SerializeAndNormalize | tycho-artifactcomparator/src/main/java/org/eclipse/tycho/zipcomparator/internal/HtmlComparator.java:66-69 | fails exactly when serialization fails; otherwise returns normalized text with the serialization's non-whitespace characters in order |
| HtmlComparator.CleanDocument | tycho-artifactcomparator/src/main/java/org/eclipse/tycho/zipcomparator/internal/HtmlComparator.java:50-51 | cleaning a document fails exactly when it has no document element. Otherwise that element is replaced by its cleaned form, and every other top-level node stays unchanged |
| HtmlComparator.IsJavadocDocument | tycho-artifactcomparator/src/main/java/org/eclipse/tycho/zipcomparator/internal/HtmlComparator.java:49 | the javadoc test on a document fails exactly when there is no document element; otherwise it is the test on that element |
| HtmlComparator.TryHtmlCompare | tycho-artifactcomparator/src/main/java/org/eclipse/tycho/zipcomparator/internal/HtmlComparator.java:45-62 | the `try` block: it fails whenever either input fails to parse. It returns true exactly when `JavadocEquivalent` holds, and false when the baseline parses but is not javadoc output (the empty `else` branch) |
| HtmlComparator.JavadocEquivalent | tycho-artifactcomparator/src/main/java/org/eclipse/tycho/zipcomparator/internal/HtmlComparator.java:46-55 | the condition under which `getDelta` reports no difference. Both inputs parse and have a document element, and the baseline passes the javadoc test. Both cleaned documents serialize, and the normalized texts are equal ignoring case |
| HtmlComparator.GetDelta | tycho-artifactcomparator/src/main/java/org/eclipse/tycho/zipcomparator/internal/HtmlComparator.java:43-64 | the result is "no difference" exactly when both parse, the baseline is javadoc output, both clean and serialize, and the normalized texts are equal ignoring case; otherwise it is the text comparison's result, always so when either input fails to parse |
| HtmlComparator.IdenticalJavadocInputsMatch | tycho-artifactcomparator/src/main/java/org/eclipse/tycho/zipcomparator/internal/HtmlComparator.java:43-64 | a javadoc file compared with itself is "no difference" when its cleaned document serializes |
| HtmlComparator.SameCleanedDocumentsMatch | tycho-artifactcomparator/src/main/java/org/eclipse/tycho/zipcomparator/internal/HtmlComparator.java:49-56 | two javadoc files whose documents are equal after cleaning are "no difference", however their churn nodes and `lang` differed |
| HtmlComparator.Matches | tycho-artifactcomparator/src/main/java/org/eclipse/tycho/zipcomparator/internal/HtmlComparator.java:106-109 | the comparator handles a name or extension exactly when it is "html" or "htm" in any case |
| HtmlComparator.MatchesExamples | tycho-artifactcomparator/src/main/java/org/eclipse/tycho/zipcomparator/internal/HtmlComparator.java:106-109 | "HTML", "htm", "HTM" and "Html" are handled; "xml", "xhtml", "ht" and "" are not |

## Left out

- The HTML parser and serializer (JFiveParse) are not part of this model. They are parameters of `GetDelta`: a parse function that may fail and a serializer that may fail. The model does not claim that real differences in a document body are always reported, because that depends on what the serializer prints.
- HtmlComparator.SameCleanedDocumentsMatch: the serializer is a function of the tree value. That value holds element names, attributes in order, comment data and the printed content of every other node. Anything else a library node carries, such as namespaces or parser bookkeeping, is assumed not to reach the output.
- Reading the streams as UTF-8 text (`asString`) is folded into the parse parameter.
- `TextComparator.compareText` is not part of this model. Its result is an opaque value passed to `GetDelta`, and the `IOException` it can throw is not modelled.
- Every exception inside the `try` block is one `Failed` outcome. The model covers an unparsable input, a document without a document element, and a serializer failure. Which exception was thrown is not kept, because the source discards it.
- The Plexus `@Component` registration and the `ComparisonData` argument are not modelled: neither takes part in the decision.
- JavaStrings.ToLower and JavaStrings.EqualsIgnoreCase: case folding covers ASCII letters only. Java's Unicode and locale-dependent case rules are not modelled. `Trim` and the `\s` class are exact.
- HtmlComparator.Matches: a null `nameOrExtension` is not modelled. Java returns false for it, and the Dafny string type has no null.
- `getElementsByTagName` is modelled as an exact, case-sensitive name match over proper descendants in document order, so the root itself never matches. The parser lowercases HTML tag names, and the library's own case rule is not part of this model.
- HtmlComparator.CleanSubtree: the outer loop over the heads mutates the shared DOM in place. It is modelled as a transformation of a tree value, so node identity and aliasing are not modelled. The inner per-head loop is modelled imperatively as `CleanHeadChildren`, with a snapshot and a live list.
- `replace("> <", "><")` removes only the space between `>` and `<`; both brackets stay. The model does the same.
- The two `replace` calls for CR and LF can never change anything, because the earlier `replaceAll("\\s+", " ")` already turns them into spaces. `Normalize.NormalizeSerializationIsNormalized` proves this. The calls are modelled as written.
