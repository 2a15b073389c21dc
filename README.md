# XDoc, modelled in Dafny

XDoc (`com.budjb.xml.XDoc`) is a fluent cursor over a W3C DOM document. A cursor
holds the document, a root node, and a selection: an array of nodes plus an index
into it. Its current node is either the selected node or, when there is no
selection, the Document node. With the cursor you build a document
(`start`/`end`/`attr`/`value`/`elem`), move through it (`at`,
`getFirst`/`getNext`, `getParent`, `end(marker)`/`endAll`), edit it in place
(`remove`, `replace`, `rename`, `replaceValue`, `removeNodes`, `removeAttr`), splice in
copies of other documents (`add`, `addAfter`/`addBefore`, `addNodes*`, `addAll*`,
`replaceWithNodes`), write values along simple paths (`insertValueAt`), and compare
documents (`equals`, backed by `compareNode`).

The model has these parts:

- **Node store.** The DOM is a value (`Dom.Store`): a map from node ids to node data,
  that is, kind, name, value, attribute list, child list, parent link and a rank that
  rules out cycles. A well-formedness predicate keeps parent and child links in step.
- **DOM primitives.** Each primitive XDoc relies on is a function on the store:
  create, appendChild, insertBefore, removeChild, replaceChild, setNodeValue,
  importNode, and setNamedItemNS and removeNamedItem on a name-ordered attribute map.
- **Tree view.** `Dom.ToTree` reads any node's subtree as an immutable `Trees.Tree`
  value. Most contracts state an edit's effect on that tree.
- **Cursors and documents.** `XDocs.Document` is a class holding a store that XDoc's
  methods update in place. `XDocs.XDoc` is a class with the cursor's fields `doc`,
  `root`, `list` and `index`.
- **Errors.** Each exception the source throws on purpose is an `Outcome` or `Result`
  error of the same kind: `IllegalState`, `IllegalArgument`, `IndexOutOfBounds`,
  `NotFound` or `NumberFormat`. Two DOM failures it does not guard against are
  errors too: `InvalidCharacter` for a name that is not an XML name (section 2.3
  of XML 1.0, Fifth Edition), and `NullPointer` for a missing document element.
- **Loops.** A loop in the source is a `method` with a `while` loop that is proved
  equal to a recursive specification function. The lemmas about the loop's effect
  are stated on that function.
- **Selections.** A selection entry is a `NodeRef(owner, id)`, because one selection
  may mix nodes of several documents (`createSelection`).
- **Empty cursors.** A cursor is empty when its `doc` is null, and there are two
  kinds. The shared `empty` instance has no selection and no root. A cursor rooted at
  a Document node is empty too, because a Document node has no owner document, but
  it keeps its selection and its root. `new XDoc(x)` makes one when x stands on the
  Document node. `getRoot`, `equals` and `insertValueAt` do not begin with the
  emptiness test, so the model keeps the two kinds apart for them.

`insertValueAt` is modelled as written. For a name without an index it queries
`name[last()]` against the working cursor's root. When that root is the working node,
the step reuses the last child with that name instead of creating a new one. The
test suite's four indexed writes (`foo[3]/c`, `bar[3]/d`, `foo[5]/e`, `foo[5]/f`)
are proved to give the expected children. The proof starts from the state the
suite's earlier writes leave: one `foo` child and no `bar` child.

## Model

| member | source | states |
|---|---|---|
| Trees.CompareNodeIsNormalEquality | src/com/budjb/xml/XDoc.java:115-206 | compareNode holds if and only if the two trees are equal once each field compareNode ignores for the node's kind is blanked out. Values count only for value-bearing kinds, names for named kinds, attributes for elements, and children for elements and documents. |
| Trees.CompareListsIsNormalEquality | src/com/budjb/xml/XDoc.java:166-174 | The length test plus the pairwise loop over two node lists holds exactly when the normalised lists are equal. |
| Trees.CompareFromIsNormalEquality | src/com/budjb/xml/XDoc.java:198-202 | The index loop from position i succeeds exactly when every later position holds equal normalised trees. |
| Trees.CompareNodeReflexive | src/com/budjb/xml/XDoc.java:115-206 | Every tree equals itself under compareNode, by structure and not only by identity. |
| Trees.CompareNodeSymmetric | src/com/budjb/xml/XDoc.java:115-206 | compareNode gives the same answer whichever side is the receiver. |
| Trees.CompareNodeTransitive | src/com/budjb/xml/XDoc.java:115-206 | Trees equal to a common tree are equal to each other. |
| Trees.CompareNodeSeesChildValue | src/com/budjb/xml/XDoc.java:129-131 | Two elements that differ only in one text child's value are unequal. |
| Dom.Import | src/com/budjb/xml/XDoc.java:2167 | importNode(node, true): a detached deep copy made only of new nodes, whose subtree equals the source subtree. |
| Dom.Link | src/com/budjb/xml/XDoc.java:1793-1801 | insertBefore/appendChild of a detached node: it enters the parent's child list at the given position and gains that parent. Nothing else changes and the store stays well formed. |
| Dom.Unlink | src/com/budjb/xml/XDoc.java:1728 | removeChild: the child leaves the list, loses its parent link and nothing else changes. |
| Dom.SetValue | src/com/budjb/xml/XDoc.java:1256-1264 | setNodeValue changes that node's value and nothing else, keeping the store well formed. |
| Dom.ParentNode | src/com/budjb/xml/XDoc.java:866 | getParentNode: a parent lists the node among its children and has a lower rank. Attributes and detached nodes have none. |
| Views.EmptyDocument | src/com/budjb/xml/XDoc.java:214-226 | getNewDocument: a store holding only a childless Document node. |
| Views.NewDocument | src/com/budjb/xml/XDoc.java:233-236 | new XDoc(tag): the Document node has exactly one child, an element named tag with no attributes or children. |
| Views.NewDocumentTree | src/com/budjb/xml/XDoc.java:233-236 | The new document's subtree is one empty element named tag. |
| Views.CloneDocument | src/com/budjb/xml/XDoc.java:963-984 | clone(): a new document whose Document node has a single element child. |
| Views.CloneDocumentTree | src/com/budjb/xml/XDoc.java:963-984 | The clone's element equals the cloned root as a tree, and compareNode holds between them. |
| Views.FirstElement | src/com/budjb/xml/XDoc.java:270-284 | getDocumentElement: the result is an element among the Document's children and no element precedes it. None means there is no element child. |
| Views.DocumentHasNoParent | src/com/budjb/xml/XDoc.java:869 | A Document node never has a parent node. |
| Views.LeadingLoop | src/com/budjb/xml/XDoc.java:727-734 | asText's loop returns the concatenated texts of the leading text children, up to the first node without text. |
| Views.LeadingTextTrees | src/com/budjb/xml/XDoc.java:727-734 | The leading-text reading over nodes equals the same reading over their subtree values. |
| Views.AsTextOfTree | src/com/budjb/xml/XDoc.java:698-740 | asText reads only the subtree of the node the cursor stands on. |
| Views.TreesTextStops | src/com/budjb/xml/XDoc.java:728-732 | Nodes after the first child without text never affect the result. |
| Views.EqualTreesReadAlike | src/com/budjb/xml/XDoc.java:698-740 | Two subtrees that compareNode finds equal give the same asText. |
| Views.Up | src/com/budjb/xml/XDoc.java:1494-1504 | One end() step goes to the parent node, or to the Document when the parent is the Document, and lowers the height. There is no step exactly when the node has no parent node. |
| Views.OnClimbHeight | src/com/budjb/xml/XDoc.java:1533-1536 | Every node on a climb is strictly lower than the start, so repeated end() never cycles. |
| Views.OnClimbAntisymmetric | src/com/budjb/xml/XDoc.java:1533-1536 | Two nodes that lie on each other's climbs are the same node. |
| Views.Climb | src/com/budjb/xml/XDoc.java:1525-1539 | end(marker): success lands on the marker, which lies on the climb. Failure is IllegalState with root on the climb. |
| Views.ClimbSucceeds | src/com/budjb/xml/XDoc.java:1525-1539 | end(marker) succeeds if and only if the marker is on the climb and root does not come strictly before it. |
| Views.ClimbToRoot | src/com/budjb/xml/XDoc.java:1546-1559 | endAll's climb, which has no marker, always reaches root. |
| Views.DetachAll | src/com/budjb/xml/XDoc.java:1704-1709 | removeAll on one document keeps every node and every node's kind. |
| Views.DetachAllDetaches | src/com/budjb/xml/XDoc.java:1704-1709 | After removeAll every listed node is detached, and nodes that were already detached stay detached. |
| Views.DetachAllSnoc | src/com/budjb/xml/XDoc.java:1706-1707 | Removing one more node after a run is one more remove() on the result. |
| Paths.ClassifyPath | src/com/budjb/xml/XDoc.java:376-382 | The classifier loop says "simple" exactly for a non-empty run of `[A-Za-z0-9.-]`, with `@` allowed first. Otherwise it names a rejected character. |
| Paths.SimplePathsHaveNoSyntax | src/com/budjb/xml/XDoc.java:376-382 | A simple path has no '/', brackets, '*', ':', '_' or non-leading '@', so path syntax always goes to the query engine. |
| Paths.LastQueryIsNotSimple | src/com/budjb/xml/XDoc.java:1370 | `name[last()]` never takes the fast lookup. |
| Paths.StripSlashes | src/com/budjb/xml/XDoc.java:1310 | Removing leading and trailing '/' runs leaves a slice with no '/' at either end and only '/' outside it. |
| Paths.StripSlashesIdempotent | src/com/budjb/xml/XDoc.java:1310 | Stripping twice is stripping once. |
| Paths.Split | src/com/budjb/xml/XDoc.java:1310 | split("/") gives at least one piece and no piece holds '/'. The last piece of a string that does not end in '/' is non-empty. |
| Paths.JoinSplit | src/com/budjb/xml/XDoc.java:1310 | Splitting loses nothing: the pieces rejoin to the input. |
| Paths.SplitJoin | src/com/budjb/xml/XDoc.java:1310 | Joining slash-free pieces and splitting again returns the same pieces. |
| Paths.Segments | src/com/budjb/xml/XDoc.java:1310 | insertValueAt's segments: at least one, none containing '/'. |
| Paths.DecimalRoundTrip | src/com/budjb/xml/XDoc.java:1320 | Integer.parseInt of a numeral gives back its number. |
| Paths.Find | src/com/budjb/xml/XDoc.java:1318-1319 | Matcher.find for `(.+)\[(\d+)\]`: the leftmost start that admits a match, with the longest first group. None means no start admits a match. |
| Paths.ParseSegment | src/com/budjb/xml/XDoc.java:1314-1327 | A parsed segment has a non-empty token and an index of at least -1. |
| Paths.ParsePlain | src/com/budjb/xml/XDoc.java:1315-1322 | A segment without '[' is its own token, with no index. |
| Paths.ParseNameBracket | src/com/budjb/xml/XDoc.java:1318-1322 | For `name[digits]`, group 1 is the whole name and group 2 the digits. |
| Paths.ParseIndexed | src/com/budjb/xml/XDoc.java:1318-1322 | `name[N]` with N in int range reads as token name and index N - 1. |
| Paths.ParseOverflow | src/com/budjb/xml/XDoc.java:1320 | An index past Integer.MAX_VALUE is a NumberFormat error. |
| Paths.ParseGreedy | src/com/budjb/xml/XDoc.java:1292 | The greedy group takes the last bracket: `x[2][3]` reads as token `x[2]`, index 2. |
| Paths.ParseIgnoresTail | src/com/budjb/xml/XDoc.java:1318-1322 | Text after the closing bracket is dropped: `a[2]b` reads as token `a`, index 1. |
| Paths.ParseZeroIndex | src/com/budjb/xml/XDoc.java:1320 | `name[0]` gives index -1, the same as no index. |
| Paths.ParseBareBracket | src/com/budjb/xml/XDoc.java:1292 | `[3]` does not match, because `.+` needs a character, so the whole text is the token. |
| Paths.ParseEmptySegment | src/com/budjb/xml/XDoc.java:1325-1327 | An empty segment, as in `a//b`, is an IllegalArgument error. |
| Edits.NamedAmong | src/com/budjb/xml/XDoc.java:405-411 | Exactly the Element nodes of the list with that name, and no more of them than the list has. |
| Edits.LastNamed | src/com/budjb/xml/XDoc.java:1370 | `name[last()]`: the last Element child with that name. None exactly when there is none. |
| Edits.AttrPairs | src/com/budjb/xml/XDoc.java:1916-1920 | An element's attribute map as (name, value) pairs, position by position. |
| Edits.Get | src/com/budjb/xml/XDoc.java:394 | getAttribute finds a value exactly when some pair has that name. |
| Edits.NamePoint | src/com/budjb/xml/XDoc.java:1046 | The map's name search, in String.compareTo order: every earlier name sorts before n, and the name found does not. |
| Edits.GetPut | src/com/budjb/xml/XDoc.java:1040-1046 | After setting n to v, n reads back as v. |
| Edits.GetPutOther | src/com/budjb/xml/XDoc.java:1040-1046 | Setting n leaves every other name's value unchanged. |
| Edits.PutMembers | src/com/budjb/xml/XDoc.java:1046 | After setting n to v, the map holds the old pairs not named n, plus (n, v). |
| Edits.PutUnique | src/com/budjb/xml/XDoc.java:1046 | setNamedItemNS, read as attr means it, never creates a second attribute with the same name. |
| Edits.PutAsWritten | src/com/budjb/xml/XDoc.java:1046 | The as-written insertion never replaces: the map always grows by one attribute. |
| Edits.PutAsWrittenDuplicates | src/com/budjb/xml/XDoc.java:1040-1046 | setNamedItemNS as the JDK's DOM applies it to a createAttribute node (PutAsWritten) adds a second attribute when the name is already held, and the new value reads first. Put keeps the names unique. |
| Edits.PutSorted | src/com/budjb/xml/XDoc.java:1046 | setNamedItemNS keeps a name-ordered map in name order. |
| Edits.SortedSame | src/com/budjb/xml/XDoc.java:1046 | Two name-ordered maps holding the same pairs are the same map. |
| Edits.PutCommutes | src/com/budjb/xml/XDoc.java:1046 | Setting two different names in either order gives the same map. |
| Edits.GetDrop | src/com/budjb/xml/XDoc.java:1696 | After removeNamedItem(n) on a map with unique names, n reads as absent. |
| Edits.GetDropOther | src/com/budjb/xml/XDoc.java:1696 | Removing n leaves every other name's value unchanged. |
| Edits.DropSorted | src/com/budjb/xml/XDoc.java:1696 | removeNamedItem keeps the map in name order. |
| Edits.NameLessUtf16 | src/com/budjb/xml/XDoc.java:1046 | The map's name order is String.compareTo's: NameLess holds exactly when the names' UTF-16 code units compare less, the first differing unit deciding and a proper prefix first. |
| Edits.NameLessIrreflexive | src/com/budjb/xml/XDoc.java:1046 | The String.compareTo order used by the map is irreflexive. |
| Edits.NameLessTransitive | src/com/budjb/xml/XDoc.java:1046 | That order is transitive. |
| Edits.NameLessTotal | src/com/budjb/xml/XDoc.java:1046 | That order is total on distinct names. |
| Edits.AttributeNamed | src/com/budjb/xml/XDoc.java:394 | getAttributeNode finds a node exactly when the map has the name. The node is that attribute of the element and carries the value getAttribute reads. |
| Edits.AttrTrees | src/com/budjb/xml/XDoc.java:155-174 | An element's attribute subtrees are exactly the leaves of its attribute map, in map order. |
| Edits.SetAttr | src/com/budjb/xml/XDoc.java:1040-1046 | createAttribute + setNamedItemNS, read as overwriting: the element's map becomes the map with the name set. Everything outside the element's attributes is unchanged. |
| Edits.AddAttr | src/com/budjb/xml/XDoc.java:1046 | A new name joins the map at its place in name order. |
| Edits.OverwriteAttr | src/com/budjb/xml/XDoc.java:1046 | A name already held is overwritten in place, by a new attribute node. |
| Edits.SetAttrTree | src/com/budjb/xml/XDoc.java:1022-1049 | attr changes only the element's attribute subtrees, and the name reads back as the value. |
| Edits.SetAttrCommutes | src/com/budjb/xml/XDoc.java:1022-1049 | Setting two different attributes in either order gives the same subtree, which compareNode finds equal. |
| Edits.RemoveAttr | src/com/budjb/xml/XDoc.java:1696 | removeNamedItem fails with NotFound exactly when the name is absent. Otherwise the map loses that pair and nothing else changes. |
| Edits.RemoveAttrTree | src/com/budjb/xml/XDoc.java:1683-1699 | removeAttr drops that attribute from the element's subtree. With unique names, none with that name is left. |
| Edits.AppendNew | src/com/budjb/xml/XDoc.java:1094-1101 | create*Node + appendChild: a fresh node of that kind becomes the parent's last child. No other node changes. |
| Edits.AppendNewTree | src/com/budjb/xml/XDoc.java:1177-1196 | The parent's subtree gains exactly that leaf after its existing children. |
| Edits.SetValueTree | src/com/budjb/xml/XDoc.java:1256-1264 | setNodeValue changes that leaf's value and nothing else in its subtree. |
| Edits.InsertPos | src/com/budjb/xml/XDoc.java:1793-1801 | The insertion point lies within the child list. |
| Edits.InsertAfter | src/com/budjb/xml/XDoc.java:1777-1804 | IllegalState without a parent. IllegalArgument when ref is not a child of the parent. Otherwise the node is linked at the insertion point. |
| Edits.InsertAfterChildren | src/com/budjb/xml/XDoc.java:1793-1801 | The new child list is the old one with the node at the insertion point. |
| Edits.InsertAfterPlacement | src/com/budjb/xml/XDoc.java:1793-1801 | The node goes first when there is no ref, otherwise immediately after ref. |
| Edits.InsertAfterKeepsOrder | src/com/budjb/xml/XDoc.java:1777-1804 | Taking the inserted node out again gives the old child list, so the others keep their order. |
| Edits.InsertAfterTree | src/com/budjb/xml/XDoc.java:1777-1804 | The parent's subtree gains the inserted node's subtree at the insertion point. |
| Edits.Detach | src/com/budjb/xml/XDoc.java:1655-1668 | remove(): an attribute leaves its owner's map, any other node its parent's child list. A node without parent or owner stays as it is. Only the node and its former parent change. |
| Edits.DetachKeepsSubtree | src/com/budjb/xml/XDoc.java:1655-1668 | A removed node keeps its whole subtree. |
| Edits.DetachChildTree | src/com/budjb/xml/XDoc.java:1667 | Removing a child takes exactly its subtree out of the parent's subtree, at its position. |
| Edits.DetachAttrPairs | src/com/budjb/xml/XDoc.java:1662 | Removing an attribute takes exactly its pair out of the owner's map. |
| Edits.ReplaceChild | src/com/budjb/xml/XDoc.java:1987 | replaceChild: the new node takes the old one's position, the old node is detached, and nothing else changes. |
| Edits.ReplaceChildTree | src/com/budjb/xml/XDoc.java:1987 | Exactly one subtree of the parent is swapped, and the replaced node keeps its own subtree. |
| Edits.RemoveChildren | src/com/budjb/xml/XDoc.java:1727-1729 | removeNodes' loop leaves the node without children and the shape of every other node unchanged. |
| Edits.RemoveChildrenTree | src/com/budjb/xml/XDoc.java:1716-1732 | After removeNodes the node has no children, and every former child keeps its own subtree. |
| Edits.NonText | src/com/budjb/xml/XDoc.java:1247 | Exactly the listed nodes that are not text or CDATA. |
| Edits.RemoveTexts | src/com/budjb/xml/XDoc.java:1244-1251 | replaceValue's child walk keeps exactly the non-text children, in order, and changes no other node's shape. |
| Edits.RemoveTextsTree | src/com/budjb/xml/XDoc.java:1243-1252 | The walk drops exactly the text and CDATA subtrees and keeps the rest in order. |
| Edits.NonTextTrees | src/com/budjb/xml/XDoc.java:1247 | Every subtree it keeps was in the list and is neither text nor CDATA. |
| Renames.PutAllSorted | src/com/budjb/xml/XDoc.java:1916-1920 | Re-setting the attributes of a name-ordered map one by one, in order, on an element that has none gives back the same map. |
| Renames.CopyAttrs | src/com/budjb/xml/XDoc.java:1916-1920 | The copy loop sets each pair in turn on the new element. Nothing outside its attributes changes. |
| Renames.CopyAttrsTree | src/com/budjb/xml/XDoc.java:1916-1920 | The copy loop changes only the new element's attribute subtrees. |
| Renames.MoveChildren | src/com/budjb/xml/XDoc.java:1923-1925 | appendChild of each child of the old element, over a snapshot of the list: the old element is left childless, and the new one gains the children after its own. |
| Renames.MoveChildrenTree | src/com/budjb/xml/XDoc.java:1923-1925 | The new element gains the old element's child subtrees, in order. |
| Renames.MoveEmptiesTree | src/com/budjb/xml/XDoc.java:1923-1925 | The old element is left with no subtrees below it. |
| Renames.NewElement | src/com/budjb/xml/XDoc.java:1913-1920 | createElement(name) plus the copied attributes. Every existing node is unchanged. |
| Renames.Staged | src/com/budjb/xml/XDoc.java:1913-1925 | After allocation, attribute copy and child move, the new element can take the old one's place. Only the old element's children changed. |
| Renames.NewElementTree | src/com/budjb/xml/XDoc.java:1913-1920 | The new element is a leaf with the old element's attributes, and the old element is untouched. |
| Renames.StagedTree | src/com/budjb/xml/XDoc.java:1913-1925 | The staged element holds the old element's children below its copied attributes. |
| Renames.Rename | src/com/budjb/xml/XDoc.java:1910-1928 | rename: a new element with that name takes the old one's position in its parent. The old one is left detached and childless, and the shape of every other node except the parent is unchanged. |
| Renames.RenameTree | src/com/budjb/xml/XDoc.java:1910-1928 | The replacement carries the old subtree under the new name, with the attributes re-set in order. |
| Renames.RenameTreeSorted | src/com/budjb/xml/XDoc.java:1910-1928 | For a name-ordered attribute map, only the name changes. |
| Renames.ReplacementTree | src/com/budjb/xml/XDoc.java:1987 | replaceChild does not change the replacement's subtree. |
| Inserts.Deposit | src/com/budjb/xml/XDoc.java:1383-1385 | The final value(v): one text child holding v, appended only when v is non-empty. |
| Inserts.DepositTree | src/com/budjb/xml/XDoc.java:1383-1385 | The working node's subtree gains that one text leaf, or nothing. |
| Inserts.AppendElements | src/com/budjb/xml/XDoc.java:1353-1364 | k new empty elements with that name are appended to the working node in creation order, and no other node changes. |
| Inserts.AppendedNamed | src/com/budjb/xml/XDoc.java:1353-1364 | The created elements are exactly the new same-named children. |
| Inserts.Indexed | src/com/budjb/xml/XDoc.java:1342-1368 | The `name[N]` step leaves a well-formed store and only adds to it. |
| Inserts.IndexedChildren | src/com/budjb/xml/XDoc.java:1342-1368 | name[N] leaves at least N children with that name. Existing ones come first, only the missing ones are created, at the end, and the cursor stands on the N-th. A match found becomes the root and changes nothing. |
| Inserts.IndexedCreates | src/com/budjb/xml/XDoc.java:1353-1364 | When fewer than N exist, the missing ones are appended and the cursor stands on the last. |
| Inserts.Step | src/com/budjb/xml/XDoc.java:1342-1378 | A non-final segment leaves a well-formed store, only adds to it, and stands on an element. |
| Inserts.StepUnindexed | src/com/budjb/xml/XDoc.java:1369-1378 | A bare name reuses the last element with that name under the root and makes it the root, or appends exactly one new element to the working node. |
| Inserts.Finish | src/com/budjb/xml/XDoc.java:1330-1341 | The final segment leaves a well-formed store and only adds to it. |
| Inserts.FinishTree | src/com/budjb/xml/XDoc.java:1330-1341 | `@name` sets that attribute to the value. A `#` token only deposits text. Any other token appends a new element holding the value's text. |
| Inserts.FirstError | src/com/budjb/xml/XDoc.java:1318-1327 | No error exactly when every segment parses. |
| Inserts.Walk | src/com/budjb/xml/XDoc.java:1313-1379 | The segment loop leaves a well-formed store that only gained nodes, including what earlier segments created before a failure. |
| Inserts.WalkOutcome | src/com/budjb/xml/XDoc.java:1313-1379 | The walk fails exactly with the error of the first segment that does not parse. |
| Inserts.WalkNext | src/com/budjb/xml/XDoc.java:1342-1378 | One turn of the loop: a parsed non-final segment steps, then the rest of the walk follows from there. |
| Inserts.InsertValueAt | src/com/budjb/xml/XDoc.java:1305-1387 | insertValueAt on a selection only adds to the store. An empty path appends the value's text to the working node. |
| Inserts.EmptyWalk | src/com/budjb/xml/XDoc.java:1313-1379 | On the empty cursor, success is possible only for a single segment and an empty value. |
| Inserts.EmptyInsert | src/com/budjb/xml/XDoc.java:1289-1388 | On the empty cursor a non-empty value never succeeds. |
| Inserts.DocRootedInsert | src/com/budjb/xml/XDoc.java:1305-1387 | On a cursor rooted at a Document node the store only gains nodes, and the call differs from the empty cursor's only when the path has a first unindexed non-final segment whose `name[last()]` lookup against that Document node finds an element. |
| Inserts.DocRootedPair | src/com/budjb/xml/XDoc.java:1366-1377 | On such a cursor, `a/b` puts the final segment b on the element the `a[last()]` lookup finds, and fails with IllegalState, changing nothing, when the lookup finds none. |
| Inserts.DocRootedSegments | src/com/budjb/xml/XDoc.java:1313-1377 | The same for any path whose segments are a and b, both unindexed. |
| Inserts.DocRootedFindsElement | src/com/budjb/xml/XDoc.java:1366-1377 | Rooted at the Document node of `<a/>`, `a/b` gives the element a new `b` child holding the value, where the shared empty cursor fails with IllegalState. |
| Inserts.DocRootedMisses | src/com/budjb/xml/XDoc.java:1366-1377 | Rooted at the Document node of `<a/>`, `c/b` with c other than a fails with IllegalState and changes nothing. |
| Inserts.TwoSegments | src/com/budjb/xml/XDoc.java:1310 | `a/b` with slash-free parts has the segments a and b. |
| Inserts.IndexedPathParse | src/com/budjb/xml/XDoc.java:1310-1322 | `name[n]/tag` reads as (name, n - 1) followed by (tag, no index). |
| Inserts.WalkIndexedThenPlain | src/com/budjb/xml/XDoc.java:1313-1379 | Walking an indexed segment and then a plain one is one Indexed step followed by Finish. |
| Inserts.TwoSegmentInsert | src/com/budjb/xml/XDoc.java:1305-1387 | insertValueAt over `name[N]/tag` is one Indexed step followed by Finish. |
| Inserts.CreatedPathTree | src/com/budjb/xml/XDoc.java:1330-1368 | With fewer than N elements `name`, the missing ones are appended empty and the last holds a new `tag` element with the value. |
| Inserts.CreatedPathCount | src/com/budjb/xml/XDoc.java:1342-1368 | Afterwards the working node has exactly N children `name`. |
| Inserts.CreatedPath | src/com/budjb/xml/XDoc.java:1330-1368 | Both facts at once, for the store the two steps leave. |
| Inserts.IndexedPathTextCreates | src/com/budjb/xml/XDoc.java:1289-1388 | insertValueAt(`name[N]/tag`, v), stated on the path text, passes. It leaves N children `name`, appending the missing empties and the one holding `<tag>v</tag>`. |
| Inserts.NewDocumentStart | src/com/budjb/xml/XDoc.java:233-236 | The new document `<root/>` is a usable starting point with no children. |
| Inserts.IndexedPathSteps | src/com/budjb/xml/XDoc.java:1310-1322 | `name[n]/tag` made of two step names passes the walk's check on its non-final names. |
| Inserts.AppendedKeepsOthers | src/com/budjb/xml/XDoc.java:1353-1364 | Appending elements named `name` leaves the list of children with any other name as it was. |
| Inserts.IndexedKeepsOthers | src/com/budjb/xml/XDoc.java:1330-1368 | The creating `name[N]` step followed by the final segment leaves the list of children with any other name as it was. |
| Inserts.CreatedPathKeepsOthers | src/com/budjb/xml/XDoc.java:1289-1388 | insertValueAt(`name[N]/tag`) that has to create elements leaves the working node's children with any other name as they were. |
| Inserts.CreatingWrite | src/com/budjb/xml/XDoc.java:1289-1388 | One creating write `name[N]/tag`, given its result: it passes and leaves N children `name`. The k missing empties and the holder of `<tag>v</tag>` are appended, and the children with any other name are kept. |
| Inserts.ReusedIndexedWrite | src/com/budjb/xml/XDoc.java:1342-1368 | When an N-th child `name` exists, the write finds it and creates nothing. The list of `name` children is unchanged, and no node but that child changes. Only that child's subtree grows, by `<tag>v</tag>`. |
| Inserts.TwoLeavesFinish | src/com/budjb/xml/XDoc.java:1330-1341 | Two final segments on one empty element leave it holding exactly the two new elements with their values, and touch no other node. |
| Inserts.TwiceLastCreated | src/com/budjb/xml/XDoc.java:1330-1368 | Two final segments on the last of a run of new empty elements leave the run as empties followed by one holding both new elements. |
| Inserts.IndexedTwiceTree | src/com/budjb/xml/XDoc.java:1330-1368 | After a creating `name[N]` step and a first final segment, the N-th `name` child is the node it stood on. A second final segment on that node leaves the working node's subtree grown by the empties and one holder of both elements. |
| Inserts.IndexedWriteTwice | src/com/budjb/xml/XDoc.java:1289-1388 | Two writes `name[N]/a` then `name[N]/b`, where at most N - 1 children `name` exist, both pass. The first creates, and the second reuses the N-th child. The subtree gains the empties and one `name` element holding `<a>x</a><b>y</b>`. |
| Inserts.SameIndexTwice | src/com/budjb/xml/XDocTest.java:169-170 | The same two writes, stated with the path's 1-based N and the number of empties given outright. This is the form the test's `foo[5]/e` and `foo[5]/f` take. |
| Inserts.XPostThirdWrites | src/com/budjb/xml/XDocTest.java:167-168 | `foo[3]/c` then `bar[3]/d`, on a node holding one `foo` and no `bar`, both pass. The node ends with three `foo` children and gains `<foo/><foo><c/></foo><bar/><bar/><bar><d/></bar>` with the values. |
| Inserts.XPostIndexedWrites | src/com/budjb/xml/XDocTest.java:167-171 | The test's four indexed writes, from that starting state, all pass. The node gains exactly the seven children the expected output shows after `<foo key>`, in order: `<foo/>`, `<foo><c/></foo>`, `<bar/>`, `<bar/>`, `<bar><d/></bar>`, `<foo/>`, `<foo><e/><f/></foo>`, each with its value. |
| Inserts.IndexedPathsExample | src/com/budjb/xml/XDoc.java:1289-1388 | On a new document `<root/>`, `name[3]/a` and then `name[5]/b` both pass. They leave exactly five children, in order: empty, empty, `<a>x</a>`, empty, `<b>y</b>`. |
| Names.SimpleTokenName | src/com/budjb/xml/XDoc.java:1095 | A token of the fast-lookup alphabet is an XML name, and so one createElement accepts, exactly when it starts with a letter. |
| Splices.Repeat | src/com/budjb/xml/XDoc.java:2139-2141 | The same source for every copied child. |
| Splices.SourceTrees | src/com/budjb/xml/XDoc.java:2139-2141 | The source subtrees, in order. |
| Splices.AppendCopies | src/com/budjb/xml/XDoc.java:2139-2141 | addNodes' loop: each copy is appended, in order, below p. Only p's child list grows and no kind changes. With foreign sources the copies hold the source subtrees. |
| Splices.AppendCopiesTree | src/com/budjb/xml/XDoc.java:2124-2145 | p's subtree gains exactly the source subtrees, in order, after its own children. |
| Splices.ChainCopies | src/com/budjb/xml/XDoc.java:1962-1965 | The insertAfter chain: the copies land together, in order, first (no ref) or right after ref. Only p's child list changes. |
| Splices.ChainCopiesTree | src/com/budjb/xml/XDoc.java:1937-1969 | p's subtree gains exactly the source subtrees, in order, at the insertion point. |
| Splices.CopiesBefore | src/com/budjb/xml/XDoc.java:2368-2382 | Repeated insertBefore(copy, cur): the copies land together, in order, right before cur. |
| Splices.CopiesBeforeTree | src/com/budjb/xml/XDoc.java:2368-2382 | The source subtrees appear, in order, right before cur's subtree. |
| Splices.CopiesRightAfter | src/com/budjb/xml/XDoc.java:2409-2411 | Repeated insertAfter(copy, cur): the last copy made ends up first, so the copies hold the sources in reverse. |
| Splices.CopiesRightAfterTree | src/com/budjb/xml/XDoc.java:2390-2414 | addAllAfter reverses the list and then inserts each right after cur, which leaves the sources in their own order right after cur's subtree. |
| Splices.ReversedReversed | src/com/budjb/xml/XDoc.java:2402-2406 | Reversing twice gives the list back. |
| Splices.LastPlaced | src/com/budjb/xml/XDoc.java:2061-2066 | The marker after the chain is the last copy, or ref when nothing was copied. |
| Splices.AppendLoop | src/com/budjb/xml/XDoc.java:2139-2141 | The appendChild loop computes AppendCopies. |
| Splices.ChainLoop | src/com/budjb/xml/XDoc.java:2061-2066 | The insertAfter loop with a moving marker computes ChainCopies and returns the last copy. |
| Splices.BeforeLoop | src/com/budjb/xml/XDoc.java:2368-2382 | The insertBefore loop computes CopiesBefore. |
| Splices.RightAfterLoop | src/com/budjb/xml/XDoc.java:2409-2411 | The addAfter loop computes CopiesRightAfter. |
| XDocs.Document.constructor | src/com/budjb/xml/XDoc.java:214-258 | For a tag that is an XML name, the document of new XDoc(tag) holds exactly `<tag/>`. |
| XDocs.Document.Clone | src/com/budjb/xml/XDoc.java:963-984 | The document clone() makes holds a deep copy of the element. |
| XDocs.Document.RemoveChildNodes | src/com/budjb/xml/XDoc.java:1727-1729 | The removeNodes loop on the document's store computes RemoveChildren and keeps every kind. |
| XDocs.Document.RemoveTextChildren | src/com/budjb/xml/XDoc.java:1244-1251 | replaceValue's child walk computes RemoveTexts over the original child list. |
| XDocs.Document.RemoveNode | src/com/budjb/xml/XDoc.java:1655-1668 | remove()'s DOM step updates the store to Detach of the node. |
| XDocs.Document.DocumentElement | src/com/budjb/xml/XDoc.java:270-284 | getDocumentElement: an element child of the Document node, or None when there is no element child. |
| XDocs.Refs | src/com/budjb/xml/XDoc.java:405-418 | One reference per listed node, in order, into the same document. |
| XDocs.ReplacedByNew | src/com/budjb/xml/XDoc.java:1987 | A node made in an extended store takes x's place: the parent holds the new subtree where x's stood and nothing else of it changes. |
| XDocs.NewLeaf | src/com/budjb/xml/XDoc.java:1860 | createTextNode: a fresh detached leaf that can go below the parent. |
| XDocs.ImportFor | src/com/budjb/xml/XDoc.java:1764 | importNode for replace(XDoc): a fresh detached copy of the source subtree that can take x's place. |
| XDocs.Replaced | src/com/budjb/xml/XDoc.java:1987 | The parent's subtrees with one replaced keep their number. |
| XDocs.IdsIn | src/com/budjb/xml/XDoc.java:1706-1707 | Only ids of entries owned by that document. |
| XDocs.DetachEach | src/com/budjb/xml/XDoc.java:1706-1707 | removeAll's loop: each document ends with exactly its own entries removed, in list order. |
| XDocs.ImportUnder | src/com/budjb/xml/XDoc.java:2167 | importNode for add: a fresh copy of the source subtree that can go below q. |
| XDocs.Placed | src/com/budjb/xml/XDoc.java:2167 | appendChild/insertBefore of a new node: q's subtree gains its subtree at that position, and no other node of the old store changes. |
| XDocs.CopyPlaced | src/com/budjb/xml/XDoc.java:2167 | A deep copy put at a position: q gains one new child there, whose subtree is the source's, and nothing else changes. |
| XDocs.SiblingPos | src/com/budjb/xml/XDoc.java:2247 | The slot right before, or right after, c among its parent's children. |
| XDocs.CopyBeside | src/com/budjb/xml/XDoc.java:2232-2251 | addAfter/addBefore(XDoc): the copy placed in the slot beside c. |
| XDocs.TextPlaced | src/com/budjb/xml/XDoc.java:2198 | A new text node at a position: q gains a text leaf there and nothing else changes. |
| XDocs.TextBeside | src/com/budjb/xml/XDoc.java:2179-2201 | addAfter/addBefore(String): the text leaf placed in the slot beside c. |
| XDocs.MarkedCopies | src/com/budjb/xml/XDoc.java:2057-2069 | addNodesBefore's splice keeps the store well formed and every kind unchanged. |
| XDocs.MarkedLoop | src/com/budjb/xml/XDoc.java:2057-2069 | The marker, the insertAfter loop and the marker's removal compute MarkedCopies. |
| XDocs.WithMarker | src/com/budjb/xml/XDoc.java:2058 | The `#` text marker goes in right before x, below its element parent. |
| XDocs.NodesReplaced | src/com/budjb/xml/XDoc.java:1812-1839 | replaceWithNodes' splice keeps every kind, and the returned node is in the store. |
| XDocs.NodesReplacedLands | src/com/budjb/xml/XDoc.java:1812-1839 | The returned cursor stands on a node that may sit below an element. |
| XDocs.NodesReplacedStore | src/com/budjb/xml/XDoc.java:1812-1839 | The splice is the copy chain after c followed by c's removal. |
| XDocs.NodesReplacedTree | src/com/budjb/xml/XDoc.java:1812-1839 | With another document as the source, c's slot holds the source root's child subtrees, in order. |
| XDocs.ChainedDetachTree | src/com/budjb/xml/XDoc.java:1812-1839 | Chaining copies after c and then removing c swaps c's subtree for the copies. |
| XDocs.ReplacedLoop | src/com/budjb/xml/XDoc.java:1825-1836 | replaceWithNodes' loop computes NodesReplaced. |
| XDocs.Copyable | src/com/budjb/xml/XDoc.java:2006-2022 | The toList entries that give non-empty cursors: every live non-Document entry and nothing else. |
| XDocs.SourcesOf | src/com/budjb/xml/XDoc.java:2167 | Per entry, copied live from this document or from the owner's store. |
| XDocs.AppendEntries | src/com/budjb/xml/XDoc.java:2346-2360 | addAll's splice keeps the store well formed and every kind unchanged. |
| XDocs.BeforeEntries | src/com/budjb/xml/XDoc.java:2368-2382 | addAllBefore's splice keeps the store well formed and every kind unchanged. |
| XDocs.AfterEntries | src/com/budjb/xml/XDoc.java:2390-2414 | addAllAfter's splice keeps the store well formed and every kind unchanged. |
| XDocs.AfterLoop | src/com/budjb/xml/XDoc.java:2409-2411 | addAllAfter's loop over the reversed entries computes AfterEntries. |
| XDocs.CollectNamed | src/com/budjb/xml/XDoc.java:405-411 | at()'s child scan collects exactly the Element children with that name, in document order. |
| XDocs.XDoc.CurrentLive | src/com/budjb/xml/XDoc.java:618-624 | getCurrentNode is a node of the document: a non-Document node with a selection, the Document node without one. |
| XDocs.XDoc.Empty | src/com/budjb/xml/XDoc.java:320 | The empty cursor has no document and no selection. |
| XDocs.XDoc.constructor | src/com/budjb/xml/XDoc.java:233-262 | new XDoc(tag), for a tag that is an XML name: a fresh `<tag/>` document with the element as root and only selection. |
| XDocs.XDoc.Select | src/com/budjb/xml/XDoc.java:329-347 | initialize: root is the given node or the selected one, and the cursor is empty exactly when that root is a Document node. |
| XDocs.XDoc.OfDocument | src/com/budjb/xml/XDoc.java:270-284 | IllegalArgument for null or for a document without an element. Otherwise a cursor on its element. |
| XDocs.XDoc.OfCursor | src/com/budjb/xml/XDoc.java:291-303 | IllegalArgument for a null or empty cursor. Otherwise a cursor rooted at its current node. |
| XDocs.XDoc.AtIndex | src/com/budjb/xml/XDoc.java:355-362 | at(int): the i-th child of root, as the start of a selection of root's children. An out-of-range index gives an empty cursor. |
| XDocs.XDoc.AtNode | src/com/budjb/xml/XDoc.java:471-489 | at(Node): IllegalArgument for null. The empty cursor, with no document and no selection, unless the node is a non-Document node of this document; a Document node has no owner document, so this document's own Document node gives the empty cursor too. Otherwise a cursor on that one node, as its root. |
| XDocs.XDoc.GetFirst | src/com/budjb/xml/XDoc.java:555-562 | The same selection at index 0. |
| XDocs.XDoc.GetNext | src/com/budjb/xml/XDoc.java:569-578 | The same selection at the next index, or empty after the last entry. |
| XDocs.XDoc.Length | src/com/budjb/xml/XDoc.java:2421-2432 | 0 when empty, 1 on the Document node, else the selection's size. |
| XDocs.XDoc.GetName | src/com/budjb/xml/XDoc.java:605-611 | IndexOutOfBounds when empty, else the current node's name. |
| XDocs.XDoc.Copy | src/com/budjb/xml/XDoc.java:1007-1013 | The same selection and root in a fresh cursor. An empty cursor returns itself. IllegalArgument without a selection. |
| XDocs.XDoc.Start | src/com/budjb/xml/XDoc.java:1082-1105 | IllegalState when empty, IllegalArgument for a null tag, and InvalidCharacter for a tag that is not an XML name, all without change. Otherwise a new empty element becomes the current node's last child and the only selection, and root is kept. |
| XDocs.XDoc.End | src/com/budjb/xml/XDoc.java:1482-1507 | IllegalState when empty or at root. Otherwise the cursor moves one step up, onto the Document node when the parent is the Document. |
| XDocs.XDoc.EndAt | src/com/budjb/xml/XDoc.java:1525-1539 | Lands on the marker when the climb reaches it. Otherwise fails with IllegalState, standing on root. |
| XDocs.XDoc.EndAll | src/com/budjb/xml/XDoc.java:1546-1559 | Ends on root. The selection is unchanged when already there. |
| XDocs.XDoc.Attr | src/com/budjb/xml/XDoc.java:1022-1049 | IllegalState when empty, IllegalArgument for a null tag, and no change for a null value. With a value, a name that is not an XML name gives InvalidCharacter without change. Otherwise the attribute is set in place or added, reads back as the value, and only the attribute subtrees change. |
| XDocs.XDoc.Value | src/com/budjb/xml/XDoc.java:1177-1196 | IllegalState when empty, no change for null. On an element a text child holding v is appended; on an attribute, whose text child takes the new text, v is added to the end of its value. |
| XDocs.XDoc.CDataSection | src/com/budjb/xml/XDoc.java:1396-1415 | As value, with a CDATA section. |
| XDocs.XDoc.Elem | src/com/budjb/xml/XDoc.java:1150-1153 | start then end: start's failures (including InvalidCharacter) leave everything as it was. Otherwise an empty child element is appended, and the cursor stays on the same node. |
| XDocs.XDoc.ElemValue | src/com/budjb/xml/XDoc.java:1162-1169 | No change for a null value, even when empty. Otherwise start's failures leave everything as it was, and on success a child element holding one text node is appended. |
| XDocs.XDoc.GetRoot | src/com/budjb/xml/XDoc.java:1514-1517 | IllegalArgument without a selection. Otherwise a fresh cursor with the same document, selection, index and root, also for a cursor rooted at a Document node. |
| XDocs.XDoc.InsertValueAt | src/com/budjb/xml/XDoc.java:1289-1388 | IllegalArgument for a null path, no change for a null value. On a selection the store becomes the walk's result. On a cursor rooted at a Document node, the store of that node's document becomes Inserts.DocRootedInsert's result. The cursor itself is unchanged. |
| XDocs.XDoc.DocRootedAt | src/com/budjb/xml/XDoc.java:1305-1387 | Past the null checks on a cursor rooted at a Document node, the cursor on the element the first lookup finds walks the rest of the path. The result is Inserts.DocRootedInsert. |
| XDocs.XDoc.InsertAt | src/com/budjb/xml/XDoc.java:1305-1387 | Past the null checks, the working copy's walk computes Inserts.InsertValueAt. |
| XDocs.XDoc.WalkSegments | src/com/budjb/xml/XDoc.java:1313-1379 | The segment loop computes Walk. |
| XDocs.XDoc.Remove | src/com/budjb/xml/XDoc.java:1648-1675 | The current node is detached with its subtree kept, the selection is dropped, and the empty cursor is returned. |
| XDocs.XDoc.RemoveAll | src/com/budjb/xml/XDoc.java:1704-1709 | Each document ends as DetachAll of its own selected nodes. No change when empty. |
| XDocs.XDoc.RemoveAttr | src/com/budjb/xml/XDoc.java:1683-1699 | No change when empty, IllegalArgument for null, NotFound when absent. Otherwise that attribute is removed. |
| XDocs.XDoc.RemoveNodes | src/com/budjb/xml/XDoc.java:1716-1732 | No change when empty. On an attribute, the value becomes "" and the attribute stays, because its only child is its text. On any other node all children are removed. |
| XDocs.XDoc.ReplaceValue | src/com/budjb/xml/XDoc.java:1227-1269 | An element loses its text and CDATA children and gains one text child holding v. A text, CDATA or attribute node takes v as its value. Other kinds fail with IllegalState. |
| XDocs.XDoc.ReplaceCurrentNode | src/com/budjb/xml/XDoc.java:1978-1999 | The node takes the current node's place in its parent and in the selection, and becomes root when the current node was root. |
| XDocs.XDoc.ReplaceText | src/com/budjb/xml/XDoc.java:1847-1861 | IllegalState when empty. For null, remove() and a new empty cursor are returned. Otherwise a text leaf takes the current node's place in the parent's subtree, and the same cursor is returned. |
| XDocs.XDoc.ReplaceWith | src/com/budjb/xml/XDoc.java:1740-1768 | IllegalState when empty. A null or empty other gives remove() and a new empty cursor. NullPointer without change when this document has no element. Otherwise a copy of the other cursor's root element takes the current node's place, the parent's subtree changes only there, and the same cursor is returned. |
| XDocs.XDoc.ReplaceWithNodes | src/com/budjb/xml/XDoc.java:1812-1839 | remove() when the other cursor's current node has no first child; an attribute counts as having one exactly when its value is non-empty. Without a parent: IllegalState from the first insertAfter, or NullPointer from removeChild when the other root has no children. When it has none under a parent, the current node is only detached and the result is a cursor on it. Otherwise the current node is replaced by copies of the other root's children, and a cursor on the last copy is returned. |
| XDocs.XDoc.Rename | src/com/budjb/xml/XDoc.java:1892-1929 | IllegalState when empty, IllegalArgument for null, and no change for the same name. A different name that is not an XML name gives InvalidCharacter without change. Otherwise the renamed element replaces the current node in its parent, the selection and root. |
| XDocs.XDoc.ChainChildren | src/com/budjb/xml/XDoc.java:1962-1965 | The insertAfter loop over the source children computes ChainCopies and returns the last copy. |
| XDocs.XDoc.AppendChildren | src/com/budjb/xml/XDoc.java:2139-2141 | The appendChild loop over the source children computes AppendCopies. |
| XDocs.XDoc.AddNodesInFront | src/com/budjb/xml/XDoc.java:1937-1969 | IllegalState when empty or when root is not an element. No change for a null or empty other, or when the other root has no children. Otherwise the copies go first, in order. |
| XDocs.XDoc.AddNodesAfter | src/com/budjb/xml/XDoc.java:2081-2116 | As addNodesInFront, plus IllegalState without a parent, which is checked before the other root's children are read. Otherwise the copies go right after the current node, in order. |
| XDocs.XDoc.AddNodes | src/com/budjb/xml/XDoc.java:2124-2145 | IllegalState when empty. No change for a null or empty other, or when the other root has no children, whatever the current node is. Otherwise the copies are appended in order. |
| XDocs.XDoc.AddNodesBefore | src/com/budjb/xml/XDoc.java:2030-2073 | As addNodesAfter's checks. Otherwise the copies go, in order, right before the current node, via the `#` marker. |
| XDocs.XDoc.MarkedChain | src/com/budjb/xml/XDoc.java:2057-2069 | Below the parent, once the checks have passed, the store becomes MarkedCopies. |
| XDocs.XDoc.Add | src/com/budjb/xml/XDoc.java:2153-2171 | IllegalState when empty, no change for a null or empty other. Otherwise a copy of the other's root becomes the last child. |
| XDocs.XDoc.AddAfter | src/com/budjb/xml/XDoc.java:2232-2251 | IllegalState when empty or without a parent, even for a null other. Otherwise a copy goes right after the current node. |
| XDocs.XDoc.AddBefore | src/com/budjb/xml/XDoc.java:2314-2338 | IllegalState when empty, no change for null, IllegalState without a parent. Otherwise a copy goes right before the current node. |
| XDocs.XDoc.AddTextAfter | src/com/budjb/xml/XDoc.java:2179-2201 | No change for a null or empty value, IllegalState without a parent. Otherwise a text node goes right after the current node. |
| XDocs.XDoc.AddTextBefore | src/com/budjb/xml/XDoc.java:2259-2283 | The same, right before the current node. |
| XDocs.XDoc.AddAll | src/com/budjb/xml/XDoc.java:2346-2360 | Every copyable entry of other's toList is appended, in order. Document-node entries are skipped. |
| XDocs.XDoc.AddAllBefore | src/com/budjb/xml/XDoc.java:2368-2382 | IllegalState without a parent on a non-empty list. Otherwise copies of the entries go right before the current node, in order. |
| XDocs.XDoc.AddAllAfter | src/com/budjb/xml/XDoc.java:2390-2414 | IllegalState without a parent on a non-empty list. Otherwise the reversed list is inserted right after the current node. |
| XDocs.XDoc.GetParent | src/com/budjb/xml/XDoc.java:848-874 | The owner element of an attribute, or else the parent node. Empty exactly when there is none or it is the Document node. |
| XDocs.XDoc.ToList | src/com/budjb/xml/XDoc.java:2006-2022 | One cursor per selected node, each rooted at that node, with its own index. |
| XDocs.XDoc.SelectedNodes | src/com/budjb/xml/XDoc.java:2508-2512 | createSelection's loop collects asNode of every non-empty cursor, in order. |
| XDocs.XDoc.CreateSelection | src/com/budjb/xml/XDoc.java:2501-2519 | IllegalArgument for null, empty when no cursor is non-empty. Otherwise a selection of those nodes at index 0. |
| XDocs.XDoc.At | src/com/budjb/xml/XDoc.java:370-426 | The fast lookup: `@name` selects that attribute node, and any other name the element children with exactly that name, in document order. Empty when nothing matches. |
| XDocs.XDoc.AsText | src/com/budjb/xml/XDoc.java:698-740 | None when empty. Otherwise the reading of the current node's subtree. |
| XDocs.XDoc.Equals | src/com/budjb/xml/XDoc.java:2440-2452 | False for null, true for the same cursor. Otherwise true exactly when the roots are equal trees once the parts compareNode ignores are cleared. This includes roots that are Document nodes. |
| XDocs.XDoc.Clone | src/com/budjb/xml/XDoc.java:963-984 | The empty cursor returns itself. Otherwise a cursor on a new document whose element equals the root and is compareNode-equal to it. |
| Dom.Without | src/com/budjb/xml/XDoc.java:1667 | The child list after removeChild holds every other child and not the removed one, and stays free of duplicates. Removing a node that is not listed changes nothing. |
| Dom.IndexOf | src/com/budjb/xml/XDoc.java:1796-1797 | A node's position among its siblings: the first place it occurs. |
| Dom.InsertFacts | src/com/budjb/xml/XDoc.java:1793-1801 | Inserting a node that was not listed gives a list free of duplicates holding exactly the old nodes and the new one. |
| Dom.Alloc | src/com/budjb/xml/XDoc.java:1095 | createElement/createTextNode: a new detached node with a fresh id, with no other node changed. |
| Dom.LinkAttr | src/com/budjb/xml/XDoc.java:1046 | setNamedItemNS of a new attribute node: the element's map gains it at the given position and the node's owner becomes the element. Nothing else changes. |
| Dom.UnlinkAttr | src/com/budjb/xml/XDoc.java:1662 | removeAttributeNode: the element's map loses the node and the node loses its owner. Nothing else changes. |
| Dom.Materialize | src/com/budjb/xml/XDoc.java:2167 | importNode(node, true) of a subtree given as a value: a detached copy of new nodes whose subtree is exactly that value. |
| Edits.FirstNamed | src/com/budjb/xml/XDoc.java:1046 | The position of the attribute a name already has: the first pair with that name. None exactly when no pair has it. |
| Edits.Drop | src/com/budjb/xml/XDoc.java:1696 | removeNamedItem shortens the map by one exactly when the name is present. |
| Edits.AttrLeaves | src/com/budjb/xml/XDoc.java:166-174 | One attribute leaf per pair, with the pair's name and value, in map order. |
| Edits.DetachChild | src/com/budjb/xml/XDoc.java:1667 | removeChild cuts the child out at its index in the parent's list, and nothing below the parent changes. |
| Edits.LinkTree | src/com/budjb/xml/XDoc.java:1793-1801 | Linking a detached node at a position splices its subtree into the parent's subtree at that position. |
| Edits.RemoveChildrenNext | src/com/budjb/xml/XDoc.java:1727-1729 | One turn of removeNodes removes the first child, and the rest of the loop finishes the job. |
| Edits.RemoveTextsNext | src/com/budjb/xml/XDoc.java:1244-1251 | One turn of replaceValue's walk: a text or CDATA child is removed, any other child is kept, and the rest of the walk follows. |
| Inserts.FinishElsewhere | src/com/budjb/xml/XDoc.java:1330-1341 | The final segment changes no existing node except the working node. |
| Inserts.FinishKeepsNamed | src/com/budjb/xml/XDoc.java:1330-1341 | The final segment leaves the named children of every other node as they were. |
| Splices.Reversed | src/com/budjb/xml/XDoc.java:2406 | Collections.reverse: position k holds the element from the opposite end. |
| Splices.RightAfterSlot | src/com/budjb/xml/XDoc.java:1796-1800 | The slot right after cur comes just behind cur's subtree. |
| Splices.ReversedSources | src/com/budjb/xml/XDoc.java:2402-2406 | Reading the reversed list reads the source subtrees backwards. |
| XDocs.RepeatTrees | src/com/budjb/xml/XDoc.java:1829-1832 | Copying every child of a node from one source gives that node's child subtrees, in order. |
| XDocs.ChainKeeps | src/com/budjb/xml/XDoc.java:1829-1836 | After the copy chain the replaced node is still under its parent at its old index, so the final removeChild finds it. |
| XDocs.XDoc.DepositHere | src/com/budjb/xml/XDoc.java:1383-1385 | insertValueAt's final value(v) on an empty path appends the text only when v is non-empty. |
| XDocs.XDoc.ReplaceWithLeaf | src/com/budjb/xml/XDoc.java:1860 | replace(String): a new text leaf takes the current node's place in the parent, the selection and root, and the parent's subtree changes only there. |
| XDocs.XDoc.ReplaceWithCopy | src/com/budjb/xml/XDoc.java:1764-1767 | replace(XDoc): an imported copy of the other root takes the current node's place in the parent, the selection and root. |
| XDocs.XDoc.CommitOn | src/com/budjb/xml/XDoc.java:1838 | this.at(insertNode) after the edit: a fresh cursor on that one node, as its root. |
| XDocs.XDoc.DetachedOn | src/com/budjb/xml/XDoc.java:1829-1838 | With nothing to copy, removeChild only detaches the current node, and the result is a fresh cursor on the removed node, as its root. |
| XDocs.XDoc.RenameCurrent | src/com/budjb/xml/XDoc.java:1910-1928 | rename for a new name: the store becomes Renames.Rename, and the selection entry and root follow the new element. |
| XDocs.XDoc.SourceFor | src/com/budjb/xml/XDoc.java:2167 | Copies are read live from this document when the other cursor shares it, and from the other's store otherwise. |

## Left out

- Parsing and serialisation (`load`, `toString`, `getContents`) are not modelled: they are I/O on text and are handled by the JDK parser and transformer.
- XPath evaluation (`atPath`, and `at` on paths that are not simple) is not modelled: it runs the JDK XPath engine.
- These operations are not modelled: the value converters (`asInt`, `asLong` and the like), `comment`/`conditionalComment`, `setLanguage`, `hasName`/`hasAttr` and `getElements`. They are string conversions or thin wrappers outside the structural core.
- Namespaces are not modelled. `start(tag, namespace)` is absent, and compareNode's namespace-URI test is dropped, because no modelled operation creates a namespaced node.
- Trees.CompareNode: compares names and values by value equality, where the source uses `!=` on strings (reference identity), which for parsed documents can report equal strings as different.
- XDocs.XDoc.Empty: the shared `empty` instance is a fresh cursor without document each time, so identity comparisons with it are not modelled.
- XDocs.XDoc.ReplaceCurrentNode: the selection array is a sequence value, so cursors made by `copy()` that share the array do not see the replaced entry.
- XDocs.XDoc.End: requires that a current node other than root has a parent node. On an attribute or a detached node the source leaves a selection holding null instead of failing.
- XDocs.XDoc.EndAt: requires `Climbable`. A climb that passes through a node without a parent makes the source fail with a null pointer later.
- XDocs.XDoc.EndAll: requires `Climbable` for the same reason.
- XDocs.XDoc.AddBefore: requires, once a parent exists, a non-empty other cursor whose root may sit below an element, and an element parent. On the shared empty cursor as the other cursor, the source throws a null pointer exception. On another cursor rooted at a Document node, importNode refuses the Document node. The DOM rejects the remaining cases.
- XDocs.XDoc.AddNodesInFront: requires, for a non-empty other cursor, an element root in it; the cast in getRootElement (XDoc.java:911) fails on other roots. When that root has children it also requires an element current node that is not that root. In the source the last case loops forever, because the live child list grows with every insertion. On a text, CDATA or comment current node the DOM throws HIERARCHY_REQUEST_ERR, which is not modelled. After remove() the cursor keeps its document but no selection, so its current node is the Document node (XDoc.java:621, 1671). The DOM then accepts comment copies, and one element copy once the document has lost its element; it refuses text and CDATA copies and a second element. The model places copies below an element only, so copies under a Document node are not modelled. A childless other root is a no-op for any current node, as in the source.
- XDocs.XDoc.InsertValueAt: requires an element current node on a selection. On a selection, and on a cursor rooted at a Document node, it also requires non-final segments whose names stay within the fast-lookup alphabet (`StepNames`). Other tokens go through the XPath engine.
- XDocs.XDoc.Equals: requires both cursors to have a root when other is a distinct cursor. Only the shared `empty` instance has none (XDoc.java:87, 320). The source then hands compareNode a null root and throws. Empty cursors rooted at a Document node are compared like any other.
- XDocs.XDoc.Clone: requires the root to be an element. A text, CDATA or attribute root is refused by `doc.appendChild` (HIERARCHY_REQUEST_ERR). A comment root is appended, and then `new XDoc(doc)` throws IllegalArgumentException because the new document has no element (XDoc.java:278-279). Neither failure is modelled.
- XDocs.XDoc.Attr: requires the current node to be an element, where the source's getAttributes() yields null.
- XDocs.XDoc.At: requires a non-empty simple path and an element current node. `charAt(0)` and the cast fail otherwise.
- XDocs.XDoc.Start: requires the current node to accept a new element: an element, or a Document without one. Otherwise the DOM throws HIERARCHY_REQUEST_ERR, which is not modelled. The same holds for XDocs.XDoc.Elem and XDocs.XDoc.ElemValue.
- XDocs.XDoc.Elem: requires what XDocs.XDoc.Start requires.
- XDocs.XDoc.ElemValue: requires what XDocs.XDoc.Start requires.
- XDocs.XDoc.Value: requires an element or attribute current node for a non-null value. On a text, CDATA or comment node, or on the Document node, appendChild throws HIERARCHY_REQUEST_ERR, which is not modelled.
- XDocs.XDoc.CDataSection: requires an element current node for a non-null value, as for value.
- XDocs.XDoc.RemoveAttr: requires an element current node for a non-null name. Other nodes have no attribute map, and the source throws a null pointer exception.
- XDocs.XDoc.ReplaceText: requires, for a non-null value, a current node that has an element parent. A node at the top or under the Document is rejected by the DOM.
- XDocs.XDoc.ReplaceWith: requires, for a non-empty other cursor, an element root in that cursor and, while this document still has an element, a replaceable current node (one with a parent that can take the copy). In the source a node without a parent throws a null pointer exception, and the root cast fails on other roots.
- XDocs.XDoc.ReplaceWithNodes: requires, when the other cursor's node has a first child, an element root in the other cursor; the cast in getRootElement (XDoc.java:911) fails on other roots. When that root has children and the current node has a parent, it also requires an element parent. A Document parent (the current node is the document element) accepts copies that are all comments and refuses element copies, which would be a second element, and text copies. Copies under a Document node are not modelled, so the comment-only case is excluded as well. With a childless root nothing is inserted, and the current node is detached under any parent, as in the source. One more exclusion is a fault of the source itself, and the model does not describe it:
  - A same-document other cursor whose root is the current node's parent never finishes. The loop at XDoc.java:1829-1832 walks that parent's live child list while inserting each copy after the previous one, so it keeps reaching its own copies.
- XDocs.XDoc.AtIndex: on a cursor whose root is an attribute, at(i) gives the empty cursor. In the DOM the attribute's value is a Text child that at(0) would select, but the model keeps the value on the attribute node and gives it no children.
- XDocs.XDoc.RemoveNodes: an attribute counts as having one text child exactly when its value is non-empty. An attribute set to "" is taken to hold no text node, and the same reading is used by XDocs.XDoc.ReplaceWithNodes.
- XDocs.XDoc.Rename: requires, for a new name, an element current node with a parent that can hold it. On any other node `getAttributes()` yields null and `list.getLength()` throws a null pointer exception (XDoc.java:1916-1917). An element without a parent fails at `parent.replaceChild` (XDoc.java:1987). Neither failure is modelled.
- XDocs.XDoc.AddNodesAfter: requires, when this root is an element, the other cursor is non-empty and the current node has a parent, an element root in the other cursor; the cast in getRootElement (XDoc.java:911) fails on other roots. When that root has children it also requires an element parent. A Document parent (the current node is the document element) accepts copies that are all comments and refuses element copies, which would be a second element, and text copies. Copies under a Document node are not modelled, so the comment-only case is excluded as well. A childless other root leaves the document unchanged under any parent, as in the source.
- XDocs.XDoc.AddNodesBefore: requires, when this root is an element and the other cursor is non-empty, an element root in the other cursor, a live current node and, when that node has a parent, an element parent, even when the other root has no children. The `#` marker goes under the parent before the copy loop (XDoc.java:2058), and the DOM refuses a text node under the Document node.
- XDocs.XDoc.AddNodes: requires, for a non-empty other cursor, an element root in it; the cast in getRootElement (XDoc.java:911) fails on other roots. When that root has children it also requires an element current node. On an attribute current node the DOM would accept copies that are all text, adding them to the attribute's value; the model keeps an attribute's value on the node and does not model appending copied text to it. On a text, CDATA or comment current node appendChild throws HIERARCHY_REQUEST_ERR, which is not modelled. After remove() the cursor keeps its document but no selection, so its current node is the Document node (XDoc.java:621, 1671). The DOM then accepts comment copies, and one element copy once the document has lost its element; it refuses text and CDATA copies and a second element. The model places copies below an element only, so copies under a Document node are not modelled. A childless other root is a no-op for any current node, as in the source.
- XDocs.XDoc.Add: requires, for a non-empty other cursor, an element current node and an other root that may sit below an element. After remove() the cursor keeps its document but no selection, so its current node is the Document node (XDoc.java:621, 1671). The DOM then accepts comment copies, and one element copy once the document has lost its element; it refuses text and CDATA copies and a second element. The model places copies below an element only, so copies under a Document node are not modelled.
- XDocs.XDoc.AddAfter: requires, once a parent exists and the other cursor is non-empty, an element parent and an other root that may sit below an element.
- XDocs.XDoc.AddTextAfter: requires an element parent for a non-empty value. A text node under the Document is rejected by the DOM.
- XDocs.XDoc.AddTextBefore: requires an element parent for a non-empty value, as for addAfter.
- XDocs.XDoc.AddAll: requires, when something is copyable, an element current node and copyable entries that are live and may sit below an element. After remove() the cursor keeps its document but no selection, so its current node is the Document node (XDoc.java:621, 1671). The DOM then accepts comment copies, and one element copy once the document has lost its element; it refuses text and CDATA copies and a second element. The model places copies below an element only, so copies under a Document node are not modelled.
- XDocs.XDoc.AddAllBefore: requires, for a non-empty selection under a parent, an element parent and entries that are all live and may sit below an element. A Document-node entry is not modelled here.
- XDocs.XDoc.AddAllAfter: requires, when something is copyable under a parent, an element parent and copyable entries that are live and may sit below an element.
- Inserts.Finish: accepts names the DOM rejects (for example `a/@` sets an attribute with an empty name), where createAttribute or createElement would throw INVALID_CHARACTER_ERR.
- Paths.StripSlashes: strips '/' runs only at the very ends of the path. Java's `$` without MULTILINE also matches just before a final line terminator, so `a/b/\n` gives the segments `a`, `b\n` in the source but `a`, `b`, `\n` here. Line terminators in a path are left out; every such token fails as an XML name, so the difference stays inside the Inserts.Finish gap above.
- Inserts.Step: creates elements for tokens of the fast-lookup alphabet that are not XML names (`1a`, `.`, `-x`), where createElement would throw INVALID_CHARACTER_ERR. Names.SimpleTokenName pins down those tokens: the ones that do not start with a letter.
- XDocs.XDoc.InsertValueAt: inherits the two lines above. The cursor methods that create named nodes directly (start, elem, attr, rename) do check the name.
- Names.IsXmlName: follows the Name production of XML 1.0, Fifth Edition. A JDK parser built on the older character tables may accept or refuse a few non-ASCII names differently.
- Inserts.XPostIndexedWrites: starts from any working node with one `foo` child and no `bar` child. The test's five earlier writes (`""`, `@id`, `foo/a`, `foo/b`, `foo/@key`) are not chained into the proof, so the text child and the first `foo`'s contents are not derived.
- Splices.AppendCopiesTree: the tree-level placement lemmas (also ChainCopiesTree, CopiesBeforeTree, CopiesRightAfterTree and XDocs.NodesReplacedTree) cover sources from another document only. For same-document sources, the store-level contracts still fix positions and frames but not the copies' contents.
- Inserts.EmptyWalk: on the empty cursor only the outcome is stated (no store exists). Which failure arises for each path shape is given by the function, not by its ensures.
- The `exclusive` flag and its branch in clone() are not modelled; no modelled operation sets it.
- XDocs.XDoc.constructor: requires the tag to be an XML name (`Names.IsXmlName`). For any other tag, createElement at XDoc.java:254 throws INVALID_CHARACTER_ERR, and that failure is not modelled.
- XDocs.Document.constructor: requires an XML name for the same reason.
- Edits.OverwriteAttr: models attr on a name the element already holds as replacing that attribute, which is what attr is meant to do. The source hands setNamedItemNS (XDoc.java:1046) a node made by the namespace-unaware createAttribute, and the JDK's DOM then inserts a second attribute of that name. See Findings. Edits.SetAttr, XDocs.XDoc.Attr and Inserts.Finish use the overwriting reading too.
- Edits.NameLess: a Java string may hold unpaired surrogates, but a Dafny string holds Unicode scalar values only, so such names are not modelled. For every other name the order is String.compareTo's (`Edits.NameLessUtf16`).

## Findings

| source | as written | input that shows it | evidently intended | confidence | as-written member | corrected member |
|---|---|---|---|---|---|---|
| src/com/budjb/xml/XDoc.java:1040-1046 | attr hands a node from the namespace-unaware createAttribute to setNamedItemNS. The JDK's DOM gives such a node no local name, so no held attribute matches, and the new node is inserted at the name's place beside the old one. | `new XDoc("r").attr("a", "1").attr("a", "2")` leaves the element holding `a="2"` and `a="1"`. getAttribute still reads "2". | attr creates or overwrites: the element holds one attribute `a`, with value "2". | not executed; medium, because the duplicate comes from the JDK's attribute map, which is not part of this model | Edits.PutAsWritten, with Edits.PutAsWrittenDuplicates | Edits.Put, with Edits.PutUnique, used by Edits.SetAttr and XDocs.XDoc.Attr |
