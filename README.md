# gomod dependency-graph core, modelled in Dafny

gomod analyses the dependency graph of a Go module. It reads the graph from
the Go toolchain, lets the user select part of it with a small query
language, prunes it with filters, and prints it as a DOT graph whose nodes
are grouped into clusters. The repository holds three generations of the
graph logic: `depgraph/` (the oldest), `lib/` and `internal/` (the
current one). This project models the parts of all three that work on the
graph alone, without the toolchain, the file system or a subprocess:

- **Query language** (`internal/query`): the tokenizer over a rune cursor
  (`QueryTokenizer.Tokenizer`), the token and AST types with their
  canonical renderings (`QueryTokens`, `QueryGrammar`), and the
  shift-reduce parser with its expression and rule stacks
  (`QueryParser.Parser`, proved equal to the pure functions of
  `QueryParser` and `QueryParserLaws`).
- **Query evaluation** (`internal/depgraph/query.go`): the set algebra, the
  depth-bounded `deps`/`rdeps` traversal, the `shared` fixpoint and
  `ApplyQuery` (`QueryEval`, `DepGraphObject`).
- **Hierarchical graph** (`internal/graph`): the weighted reference sets
  `NodeRefs` (`GraphNode`) and the `HierarchicalDigraph`. In it, packages
  are children of modules, edges propagate to ancestors with weights, and
  deletions cascade. It is modelled as pure values (`Graph`, `GraphEdges`,
  `GraphLaws`, `GraphPared`) and as a class whose methods are proved
  against them (`GraphObject`).
- **Module graph** (`internal/depgraph`): modules, packages, their hashes
  and DOT attributes (`DepGraphNodes`), and the `DepGraph` that wraps the
  hierarchical graph (`DepGraphObject`).
- **Filters** in three generations:
  - the internal filters `NonSharedModules`, `TargetModules` and
    `ArbitraryModules` (`ModuleFilters`, `TargetModules`);
  - the lib graph with its ordered containers `Edges`/`DependencyMap`
    (`LibContainers`, `LibGraph`) and its filters (`LibFilters`);
  - the oldest graph with its deep copy, pruning and offending-edge
    marking (`LegacyGraph`). `lib/depgraph/graph.go` repeats its
    `createNewNode` (:31-37), `SelectedVersion` (:124-129), `Timestamp`
    (:131-136) and `DeepCopy` (:191-212) line for line, so
    `LegacyGraph.CreateNewNode`, `SelectedVersion`, `Timestamp` and
    `DepGraph.DeepCopy` model both files.
- **Replacement report** (`lib/reveal/replacements.go`): the filters over
  sorted lists, the aligned report and the aggregation of the declared
  replacements (`Reveal`).
- **Cluster layout** (`internal/printer/clustering.go` and
  `lib/printer/clustering.go`): the cluster hashes, the grouping of a level
  into clusters, member order, and the integer width, height, dependency
  count and representative (`Clustering`).
- **Small utilities**: the style option parser (`Style`), the generator of
  the shell-completion sources (`CompletionGen`) and the integer parts of
  the dependency analysis (`Analysis`).

Version comparisons (`semver`, `moduleMoreRecentThan`), glob matching and the
depth-first search behind cluster depth maps are foreign code. They are
function parameters of the members that use them, and nothing is assumed of
them. Go map iteration order is a nondeterministic choice in the methods
that iterate over maps.

## Model

| member | source | states |
|---|---|---|
| `QueryTokens.PositionStringRoundTrip` | internal/query/tokens.go:23-28 | a position renders 1-based, as `start-end` or as one number when the range is empty; for offsets below 2^63-1 reading the text back gives the position again |
| `QueryTokens.TokenString` | internal/query/tokens.go:51-114 | every kind's rendering: a boolean as `true` or `false`; an integer in decimal, which `Atoi` reads back to the same 64-bit value; a string as its text; `, `, `(` and `)`; the operators as ` delta `, ` inter `, ` - ` and ` + ` (with `QueryTokenizer.RenderedTokenRelexes`, the tokenizer reads each rendering back to the token) |
| `QueryTokenizer.BareEqualsStalls` | internal/query/tokenizer.go:97-107 | `next` as written returns an empty string token and leaves the cursor where it was exactly when the next non-space rune is `=` (finding 1) |
| `QueryTokenizer.NextSpec` | internal/query/tokenizer.go:51-130 | the corrected `next` always moves the cursor forward unless it reports the end of the input, and it reports the end only when everything left is white space |
| `QueryTokenizer.NextSpecAgrees` | internal/query/tokenizer.go:51-130 | the corrected `next` and `next` as written give the same token and cursor whenever the next non-space rune is not `=` |
| `QueryTokenizer.TokenSpan` | internal/query/tokenizer.go:69-127 | a token from `next` starts at the byte offset of the first non-space rune and ends at the byte offset of the new cursor |
| `QueryTokenizer.TokenizePositions` | internal/query/tokenizer.go:51-130 | the tokens of a whole query have non-empty byte ranges inside the query, in increasing order, without overlap |
| `QueryTokenizer.IntRelexes` | internal/query/tokenizer.go:120-126 | the decimal text of a non-negative 64-bit integer lexes to an integer token with that value covering the whole text |
| `QueryTokenizer.OperatorRelexes` | internal/query/tokenizer.go:75-119 | the text of an operator token lexes back to the same operator |
| `QueryTokenizer.RenderedTokenRelexes` | internal/query/tokenizer.go:69-127 | a token rendered with `String()` lexes back to a token of the same kind and value (plain words, non-negative integers, booleans, punctuation, operators) |
| `QueryTokenizer.Tokenizer.constructor` | internal/query/tokenizer.go:46-48 | a new tokenizer reads the given query from its first rune |
| `QueryTokenizer.Tokenizer.ReadString` | internal/query/tokenizer.go:132-160 | reads up to the first rune in `eos`, which stays unread, or to the end; returns exactly the runes read and their byte range |
| `QueryTokenizer.Tokenizer.ReadQuoted` | internal/query/tokenizer.go:83-94 | a quoted string runs to the next matching quote and its range covers both quotes; without a closing quote it is an unclosed-string error |
| `QueryTokenizer.Tokenizer.ReadWord` | internal/query/tokenizer.go:96-128 | a bare word becomes a keyword, an integer or a string token as `LexWord` says; a word stopped at once by `=` consumes that rune and is an error |
| `QueryTokenizer.Tokenizer.Next` | internal/query/tokenizer.go:51-130 | skips white space, then yields the token, the end of input or the error of the corrected `next`, leaving the cursor after it |
| `QueryGrammar.Operands` | internal/query/grammar.go:74-77 | `Operands()` gives the two embedded operands, each a strict sub-expression |
| `QueryGrammar.RenderIgnoresPositions` | internal/query/grammar.go:35-126 | `String()` does not depend on positions: trees of the same shape render to the same text |
| `QueryParser.RuleLen` | internal/query/parser.go:402-413 | `ruleStackLength` counts at most every rule, and counts all of them exactly when no `groupRule` is pending |
| `QueryParser.TokenAt` | internal/query/parser.go:84-86 | an error position read from `stream[i]` is that token when `i` is in range; out of range it is a panic unless the nearest token is used |
| `QueryParser.ErrAt` | internal/query/parser.go:282-285 | a `parserError` at `stream[i]` carries the given error, and it is an index-out-of-range panic exactly when no token can be read at `i` |
| `QueryParser.ValueOf` | internal/query/parser.go:154-165 | a value token becomes a value expression at the token's position; it is an invalid operand exactly when it is not a string |
| `QueryParser.Shift` | internal/query/parser.go:140-256 | `shift` never panics; a plain shift keeps the stream index and pushes at most one rule; a shift that asks for a reduce leaves both stacks alone, with a rule pending, and steps back by at most one token |
| `QueryParser.Binary` | internal/query/parser.go:354-363 | an operator rule builds the binary expression of that kind over exactly the two operands, at the given position |
| `QueryParser.Reduce` | internal/query/parser.go:258-396 | `reduce` with no rule changes nothing; otherwise it pops exactly the top rule and takes one expression off the stack, or none for a group, which leaves the expressions untouched |
| `QueryParser.Step` | internal/query/parser.go:71-90 | one iteration of the main loop keeps the stream index in range, leaves the stacks balanced, and strictly decreases the loop measure, so the loop terminates |
| `QueryParser.Loop` | internal/query/parser.go:71-90 | the main loop ends at the end of the stream and keeps the stacks balanced |
| `QueryParser.Drain` | internal/query/parser.go:92-96 | the second loop ends with no rule pending and does not move in the stream |
| `QueryParser.Finish` | internal/query/parser.go:98-113 | the parse succeeds exactly when an expression is left and the first one is not a bare integer or boolean, and then returns it; no expression gives `ErrEmptyExpression` at position 0 |
| `QueryParser.Parser.constructor` | internal/query/parser.go:39-45 | a parser starts at stream index 0 with both stacks empty |
| `QueryParser.Parser.RuleStackLength` | internal/query/parser.go:402-413 | the counting loop returns the number of rules other than `groupRule` |
| `QueryParser.Parser.Shift` | internal/query/parser.go:140-152 | dispatches to the three shifts; on success the stacks and index are those of the `Shift` function, on error nothing changes |
| `QueryParser.Parser.ShiftValue` | internal/query/parser.go:154-165 | pushes the token's value expression and asks for no reduce |
| `QueryParser.Parser.ShiftPunctuation` | internal/query/parser.go:168-226 | a leading comma is `ErrUnexpectedComma`, a `)` with no group or func rule pending is `ErrUnexpectedParenthesis`; otherwise the stacks become those of the `Shift` function |
| `QueryParser.Parser.ShiftOperator` | internal/query/parser.go:228-256 | an operator with no left operand is `ErrUnexpectedOperator`; a pending rule that binds at least as tightly triggers a reduce with the token re-processed; otherwise the operator's rule is pushed |
| `QueryParser.Parser.Reduce` | internal/query/parser.go:258-277 | applies the top rule's reduction as the `Reduce` function says; on error the stacks are unchanged |
| `QueryParser.Parser.ReduceFuncRule` | internal/query/parser.go:280-314 | fewer than two expressions is `ErrEmptyFuncCall`, a name that is not a string is `ErrInvalidFuncName`, a single argument is wrapped into a one-element list, and the call replaces name and arguments |
| `QueryParser.Parser.ReduceGroupRule` | internal/query/parser.go:316-327 | an empty group is `ErrEmptyParenthesis`; otherwise only the rule is popped, so `(e)` adds no node |
| `QueryParser.Parser.ReduceOperatorRule` | internal/query/parser.go:329-370 | fewer than two operands is `ErrMissingArgument`, a boolean or integer operand is `ErrInvalidArgument`; otherwise the two operands become one binary expression |
| `QueryParser.Parser.ReduceArgsListRule` | internal/query/parser.go:372-396 | fewer than two expressions is `ErrMissingArgument`; otherwise the second expression is prepended to the top one's arguments, or to the top one itself |
| `QueryParser.Parser.Advance` | internal/query/parser.go:71-90 | one loop iteration changes the stacks and index as `Step` says, reporting its error otherwise |
| `QueryParser.Parser.Parse` | internal/query/parser.go:70-114 | the main loop, the draining loop and the final checks return exactly `ParseTokens` of the stream |
| `QueryParserLaws.ParseLeavesOneExpression` | internal/query/parser.go:83-96 | because every iteration checks the stack balance, at most one expression is left once every rule is reduced, and a successful parse returns exactly that one |
| `QueryParserLaws.ParseClampedNeverPanics` | internal/query/parser.go:280-396 | when an error position past the stream reads the nearest token, parsing any token stream ends in a tree or an error, never a panic (corrected half of finding 2) |
| `QueryParserLaws.OpenParenPanics` | internal/query/parser.go:316-322 | as written, the query `(` reads `stream[len(stream)]` for its error position and panics; with the nearest token it is `ErrEmptyParenthesis` (finding 2) |
| `QueryParserLaws.OpenCallOnIntegerPanics` | internal/query/parser.go:288-297 | as written, `1(foo` panics while reporting the invalid function name; with the nearest token it is `ErrInvalidFuncName` (finding 2) |
| `QueryParserLaws.TwoOperators` | internal/query/parser.go:228-256 | `a op1 b op2 c` groups to the left exactly when `op1` binds at least as tightly as `op2`, so equal operators associate to the left |
| `QueryParserLaws.GroupedRightOperand` | internal/query/parser.go:188-221 | in `a op1 (b op2 c)` the group becomes the right operand of `op1` whatever the operators, without an extra node |
| `QueryParserLaws.LeadingTokenErrors` | internal/query/parser.go:98-234 | an empty query fails with `ErrEmptyExpression` at position 0; a query that opens with a comma, a `)` or an operator fails with `ErrUnexpectedComma`, `ErrUnexpectedParenthesis` or `ErrUnexpectedOperator` at that token |
| `QueryParserLaws.SingleValue` | internal/query/parser.go:105-113 | a lone string is the query; a lone integer or boolean is `ErrInvalidArgument` spanning the query |
| `QueryParserLaws.MissingOperator` | internal/query/parser.go:83-88 | two values in a row give `ErrMissingOperator` at the second |
| `QueryParserLaws.TrailingOperator` | internal/query/parser.go:331-336 | an operator at the end of the query is `ErrMissingArgument` at the operator |
| `QueryParserLaws.TrailingComma` | internal/query/parser.go:373-378 | a comma at the end of the query is `ErrMissingArgument` at the comma |
| `QueryParserLaws.SingleOperator` | internal/query/parser.go:329-363 | `a op b` is the binary expression over both strings spanning them; a boolean or integer operand is `ErrInvalidArgument` at that operand, the left one checked first |
| `QueryParserLaws.CallOneArg` | internal/query/parser.go:299-308 | `f(v)` is a call of `f` whose argument list is the single value `v` |
| `QueryParserLaws.CallTwoArgs` | internal/query/parser.go:280-314 | `f(a, b)` is a call of `f` with both arguments, spanning from the name to the last argument |
| `QueryParserLaws.ArgsFlatten` | internal/query/parser.go:372-396 | `a, b, c` is one flat argument list of the three values, not a nested one |
| `QueryParserLaws.GroupIsTransparent` | internal/query/parser.go:316-327 | `(e)` parses to `e` itself |
| `QueryParserLaws.EmptyParenthesis` | internal/query/parser.go:316-322 | `()` is `ErrEmptyParenthesis` at the `)` |
| `QueryParserLaws.EmptyFuncCall` | internal/query/parser.go:280-286 | `f()` is `ErrEmptyFuncCall` at the `(` |
| `QueryParserLaws.InvalidFuncName` | internal/query/parser.go:288-297 | a call whose name is an integer or boolean is `ErrInvalidFuncName` at the `)` |
| `QueryParse.ParseQuery` | internal/query/parser.go:25-47 | a parsed query is never a bare integer or boolean |
| `QueryParse.Parse` | internal/query/parser.go:25-47 | reads tokens with the corrected `next` until the end of the query, stops at the first tokenizer error, then parses the stream: the result is `ParseQuery` of the query |
| `GraphNode.NodeDepth` | internal/graph/node.go:16-23 | the parent-walking loop returns -1 for nil and otherwise the number of ancestors, which is where the chain of parents ends |
| `GraphNode.IsChild` | internal/graph/graph.go:257-268 | `isChild(n, p)` holds exactly when both are non-nil and `p`'s hash is that of `n` or of one of its ancestors |
| `GraphNode.RemoveFirstMembers` | internal/graph/node.go:77-82 | in a list without duplicate hashes, cutting out the first node with hash `h` keeps exactly the nodes of other hashes |
| `GraphNode.AddPreservesValid` | internal/graph/node.go:43-54 | `Add` keeps the invariant: map keys, weight keys and listed hashes coincide, each hash listed once, every weight at least 1 |
| `GraphNode.DeletePreservesValid` | internal/graph/node.go:60-83 | `Delete` keeps the same invariant |
| `GraphNode.WipePreservesValid` | internal/graph/graph.go:234-235 | `Wipe` keeps the same invariant |
| `GraphNode.MappedIffWeighted` | internal/graph/node.go:56-58 | in a valid set a hash is mapped exactly when its weight is positive, and weights are never negative |
| `GraphNode.AddWeight` | internal/graph/node.go:48-49 | `Add` increments the weight of the node's hash and of no other hash, and the hash is then mapped |
| `GraphNode.AddListsOnce` | internal/graph/node.go:50-53 | `Add` of a referenced hash leaves list and count alone; a new hash is appended once and the count grows by one; no hash is ever listed twice |
| `GraphNode.DeleteWeight` | internal/graph/node.go:65-75 | `Delete` decrements a positive weight by one, touches no other weight, and keeps the hash exactly when its weight was above 1 |
| `GraphNode.DeleteAbsent` | internal/graph/node.go:65-67 | deleting or wiping an absent hash changes nothing |
| `GraphNode.DeleteUndoesAdd` | internal/graph/node.go:43-83 | `Delete` of a node's hash right after `Add` of the node restores the reference set |
| `GraphNode.WipeWeight` | internal/graph/graph.go:234-235 | `Wipe` drops the hash whatever its weight and leaves every other hash's node and weight as they were |
| `GraphNode.CountIsListLength` | internal/graph/node.go:39-41 | `Len` is the number of distinct hashes, which is the list length whatever the weights |
| `GraphNode.ListSortedCopy` | internal/graph/node.go:85-90 | `List` returns a permutation of the listed nodes, sorted by name |
| `GraphNode.ListHoldsMapped` | internal/graph/node.go:85-90 | in a valid set, `List` holds exactly the mapped nodes |
| `GraphNode.NodeRefs.constructor` | internal/graph/node.go:31-37 | `NewNodeRefs` is the empty reference set |
| `GraphNode.NodeRefs.Len` | internal/graph/node.go:39-41 | in a valid set, `Len` is the number of listed nodes |
| `GraphNode.NodeRefs.Get` | internal/graph/node.go:56-58 | `Get` finds a node exactly for a mapped hash; in a valid set that is exactly when its weight is positive |
| `GraphNode.NodeRefs.Add` | internal/graph/node.go:43-54 | updates the three fields in place to `AddRef` of the old value |
| `GraphNode.NodeRefs.Delete` | internal/graph/node.go:60-83 | updates the three fields in place to `DeleteRef` of the old value |
| `GraphNode.NodeRefs.Wipe` | internal/graph/graph.go:234-235 | updates the three fields in place to `WipeRef` of the old value |
| `GraphNode.NodeRefs.Splice` | internal/graph/node.go:77-82 | the list loop cuts out the first node with the hash and leaves map and weights alone |
| `GraphNode.NodeRefs.List` | internal/graph/node.go:85-90 | returns a name-sorted permutation of the listed nodes |
| `Graph.GetNode` | internal/graph/graph.go:46-55 | `GetNode` finds a node exactly for a member hash, and then it is the listed member of that hash; otherwise it is `ErrNodeNotFound` |
| `Graph.AddNode` | internal/graph/graph.go:57-84 | a duplicate hash is `ErrNodeAlreadyExists`, a non-member parent is `ErrNodeNotFound`, and otherwise the node becomes the member of its hash with the edges unchanged |
| `Graph.LinkUp` | internal/graph/graph.go:155-168 | the loop of `AddEdge` changes edges only: members and children stay as they were |
| `Graph.UnlinkUp` | internal/graph/graph.go:193-206 | the ancestor loop of `DeleteEdge` changes edges only |
| `Graph.Disconnect` | internal/graph/graph.go:220-239 | `disconnectNodeFromTarget` changes edges only, recursing over the children of `n` |
| `Graph.WipeSuccessors` | internal/graph/graph.go:231-238 | the successor loop of `disconnectNodeFromTarget` changes edges only |
| `Graph.RemoveSubtree` | internal/graph/graph.go:241-255 | `deleteNode` removes the node and its descendants and keeps every other member, leaves the edges alone and keeps the hierarchy well formed |
| `Graph.Detach` | internal/graph/graph.go:102-110 | disconnecting a member and deleting its subtree removes it, keeps every member that does not descend from it, and keeps the hierarchy well formed |
| `Graph.DeleteNode` | internal/graph/graph.go:86-127 | the corrected `DeleteNode` is `ErrNodeNotFound` exactly for a non-member; otherwise it removes that member, removes only members, and keeps the hierarchy well formed (corrected half of finding 4) |
| `Graph.DeleteNodeAsWritten` | internal/graph/graph.go:86-127 | `DeleteNode` as written, whose parent loop goes on to the grandparent after the recursive call; when it succeeds it removes the member and keeps the hierarchy well formed (finding 4) |
| `Graph.DisconnectPreds` | internal/graph/graph.go:102-104 | the predecessor loop of `DeleteNode` changes edges only |
| `Graph.DisconnectSuccs` | internal/graph/graph.go:106-108 | the successor loop of `DeleteNode` changes edges only |
| `Graph.DepthBelow` | internal/graph/node.go:16-23 | in a well-formed hierarchy a member is at least as deep as every member it descends from |
| `GraphEdges.WipeRefsMirror` | internal/graph/graph.go:234-235 | wiping every edge from `a` to `b` on both sides keeps the edge invariant: valid reference sets, successors and predecessors mirrored with equal weights |
| `GraphEdges.WipeSuccessorsClears` | internal/graph/graph.go:231-238 | run over every listed successor of `n`, the successor loop leaves `n` with no successor under the target |
| `GraphEdges.DisconnectMirror` | internal/graph/graph.go:220-239 | `disconnectNodeFromTarget` keeps the edge invariant |
| `GraphEdges.DisconnectKeeps` | internal/graph/graph.go:220-239 | disconnecting keeps every successor entry except those from `n` or below it to the target or below it |
| `GraphEdges.DisconnectClears` | internal/graph/graph.go:220-239 | after disconnecting, nothing at or below `n` has a successor at or below the target |
| `GraphEdges.LinkRefsLaws` | internal/graph/graph.go:161-162 | one more edge `a -> b`, recorded as a successor of `a` and a predecessor of `b`, keeps the edge invariant |
| `GraphEdges.UnlinkRefsLaws` | internal/graph/graph.go:204-205 | one edge `a -> b` fewer, on both sides, keeps the edge invariant |
| `GraphEdges.LinkUpLaws` | internal/graph/graph.go:155-168 | the loop of `AddEdge` keeps the edge invariant and adds to each edge weight the number of times the walk up the two parent chains visits that pair |
| `GraphEdges.UnlinkUpLaws` | internal/graph/graph.go:193-206 | the loop of `DeleteEdge` keeps the edge invariant and takes one from each edge weight per visit of the walk, never below zero |
| `GraphEdges.AddEdgeLaws` | internal/graph/graph.go:129-170 | `AddEdge` is `ErrNodeNotFound` exactly when an end is not a member and `ErrEdgeCrossLevel` exactly when the ends are members at different depths; otherwise only edges change, each pair of ancestors up to a common ancestor gains one edge, and the edge invariant holds |
| `GraphEdges.AddSelfEdge` | internal/graph/graph.go:155-158 | an edge from a member to itself is accepted and changes nothing, so `ErrEdgeSelf` is never returned |
| `GraphEdges.DeleteEdgeLaws` | internal/graph/graph.go:172-208 | `DeleteEdge` is refused exactly for a non-member end; otherwise every edge from `src` or below to `dst` or below is removed whole, every other edge kept, each ancestor pair above loses one edge, and the edge invariant holds |
| `GraphLaws.AddNodeLaws` | internal/graph/graph.go:57-84 | a successful `AddNode` keeps the hierarchy well formed, makes the node a member and a listed child of its parent, and keeps the edge invariant |
| `GraphLaws.GetLevelExact` | internal/graph/graph.go:210-218 | `GetLevel(k)` is a valid reference set listing exactly the members at depth `k`, in the members' order |
| `GraphLaws.SameDepthApart` | internal/graph/graph.go:148-153 | two distinct members at the same depth lie in disjoint subtrees, so an edge between same-level nodes never links a node to its own ancestor |
| `GraphLaws.DeleteNodeLaws` | internal/graph/graph.go:86-127 | the corrected `DeleteNode` removes the node and everything below it, keeps every member neither below nor above it, and leaves every remaining ancestor with a child |
| `GraphLaws.DeleteNodeEdges` | internal/graph/graph.go:102-110 | the corrected `DeleteNode` keeps the edge invariant and only removes successor entries |
| `GraphLaws.DeleteNodeUnlinks` | internal/graph/graph.go:102-110 | after the corrected `DeleteNode` the deleted node has no successor or predecessor and appears in no member's successor or predecessor set |
| `GraphLaws.BuildLaws` | internal/graph/graph.go:57-84 | adding new nodes whose parents come first keeps the hierarchy well formed and makes them all members |
| `GraphLaws.ChainBuilt` | internal/graph/graph.go:57-84 | adding the nodes A, B and C of a chain A <- B <- C in order succeeds and builds exactly that chain |
| `GraphLaws.ChainAsWritten` | internal/graph/graph.go:112-125 | as written, deleting the leaf of any three-level chain deletes everything and then fails with `ErrNodeNotFound` on the grandparent (finding 4) |
| `GraphLaws.ChainDeleteAsWritten` | internal/graph/graph.go:112-125 | on the chain A <- B <- C, `DeleteNode("C")` as written returns `ErrNodeNotFound` (finding 4) |
| `GraphLaws.ChainRemoved` | internal/graph/graph.go:112-125 | the corrected cascade deletes the whole three-level chain and succeeds |
| `GraphLaws.ChainDelete` | internal/graph/graph.go:112-125 | on the chain A <- B <- C, the corrected `DeleteNode("C")` succeeds and leaves no member |
| `GraphPared.DeleteNodePared` | internal/graph/graph.go:102-110 | the corrected `DeleteNode` removes predecessor entries whole and keeps every other predecessor entry with its node and weight |
| `GraphObject.HierarchicalDigraph.constructor` | internal/graph/graph.go:39-44 | `NewHierarchicalDigraph` has no members and no edges |
| `GraphObject.HierarchicalDigraph.GetNode` | internal/graph/graph.go:46-55 | finds a node exactly for a member hash, and then it is that member |
| `GraphObject.HierarchicalDigraph.AddNode` | internal/graph/graph.go:57-84 | updates the graph in place to `Graph.AddNode`, or returns its error and changes nothing |
| `GraphObject.HierarchicalDigraph.AddEdge` | internal/graph/graph.go:129-170 | the checks and the loop up the parent chains update the graph in place to `Graph.AddEdge`, or return its error and change nothing |
| `GraphObject.HierarchicalDigraph.DeleteEdge` | internal/graph/graph.go:172-208 | updates the graph in place to `Graph.DeleteEdge`, or returns its error and changes nothing |
| `GraphObject.HierarchicalDigraph.GetLevel` | internal/graph/graph.go:210-218 | the loop over the members returns `Graph.GetLevel` of the graph |
| `GraphObject.HierarchicalDigraph.DisconnectNodeFromTarget` | internal/graph/graph.go:220-239 | the recursive disconnection leaves the graph as `Graph.Disconnect` says |
| `GraphObject.HierarchicalDigraph.DisconnectSuccessors` | internal/graph/graph.go:231-238 | the successor loop leaves the graph as `Graph.WipeSuccessors` over the listed successors says |
| `GraphObject.HierarchicalDigraph.DeleteSubtree` | internal/graph/graph.go:241-255 | `deleteNode` leaves the graph as `Graph.RemoveSubtree` says |
| `GraphObject.HierarchicalDigraph.UnlistNode` | internal/graph/graph.go:250-254 | the node leaves the members and its parent's children set |
| `GraphObject.HierarchicalDigraph.DetachNode` | internal/graph/graph.go:94-110 | the predecessor and successor loops and `deleteNode` leave the graph as `Graph.Detach` says |
| `GraphObject.HierarchicalDigraph.DeleteNode` | internal/graph/graph.go:86-127 | updates the graph in place to the corrected `Graph.DeleteNode`, or returns `ErrNodeNotFound` and changes nothing |
| `QueryEval.Union` | internal/depgraph/query.go:346-355 | `union` is set union, a fresh value |
| `QueryEval.Subtract` | internal/depgraph/query.go:357-365 | `subtract` is set difference |
| `QueryEval.Inter` | internal/depgraph/query.go:367-375 | `inter` is set intersection |
| `QueryEval.Delta` | internal/depgraph/query.go:377-390 | `delta` holds the names in exactly one of the two sets |
| `QueryEval.DeltaLaws` | internal/depgraph/query.go:346-390 | `delta` is the union of the two differences and is symmetric; intersection and `delta` partition the union |
| `QueryEval.NameMatch` | internal/depgraph/query.go:88-136 | a name pattern with more than one `:`, or an annotation other than `test`, is an error; matches lie in the level; without `:test` no test dependency is matched |
| `QueryEval.MatchLevel` | internal/depgraph/query.go:117-130 | the loop over the level collects exactly the matching names, skipping test dependencies unless they are asked for |
| `QueryEval.Enqueue` | internal/depgraph/query.go:259-270 | the inner loop marks every listed name seen and queues, at the next depth and in list order, exactly those not seen before |
| `QueryEval.Expand` | internal/depgraph/query.go:259-270 | the loop over a node's list leaves `seen` and the queue as `Enqueue` says |
| `QueryEval.Traverse` | internal/depgraph/query.go:244-271 | the breadth-first walk from one source adds exactly the names reachable in at most `maxDepth` steps, and terminates on cycles |
| `QueryEval.WalkComplete` | internal/depgraph/query.go:249-271 | once the queue is empty the names recorded are exactly those within the depth bound |
| `QueryEval.Traversal` | internal/depgraph/query.go:233-273 | `computeSetGraphTraversal` returns exactly the names reachable from the sources in at most `maxDepth` steps |
| `QueryEval.ReachWithinLevel` | internal/depgraph/query.go:249-271 | the traversal result contains its sources and stays within the level |
| `QueryEval.SharedLoop` | internal/depgraph/query.go:316-327 | the corrected worklist loop only removes names from the set |
| `QueryEval.SharedSpec` | internal/depgraph/query.go:276-333 | the corrected `shared(S)` is a subset of `S` |
| `QueryEval.Shared` | internal/depgraph/query.go:290-332 | the seeding loop and the worklist loop return the corrected `shared` of the set |
| `QueryEval.SharedLoopStable` | internal/depgraph/query.go:316-327 | what the corrected loop leaves has no member with no successor and exactly one predecessor in it |
| `QueryEval.SharedDropsRun` | internal/depgraph/query.go:316-327 | from a worklist that holds every dangling member, the corrected loop leaves the set less the members it drops, and each of them has no successor and exactly one predecessor in the set at the moment it goes |
| `QueryEval.QueuedAfterDrop` | internal/depgraph/query.go:316-327 | dropping the head keeps the worklist invariant: every member that now dangles is queued, and every queued member still in the set still dangles |
| `QueryEval.SharedLaws` | internal/depgraph/query.go:276-333 | `shared(S)` is `S` less members dropped one at a time, each with no successor and exactly one predecessor in the set when it goes, and no member of the result has no successor and exactly one predecessor in it |
| `QueryEval.SharedTurnAsWritten` | internal/depgraph/query.go:316-327 | one turn of the loop as written removes the head of the queue from the set (finding 3) |
| `QueryEval.CycleDangling` | internal/depgraph/query.go:323-326 | in the example graph, `a` and `b` each have no successor and one predecessor in `{w}`, though neither is in it (finding 3) |
| `QueryEval.CycleSeeds` | internal/depgraph/query.go:300-314 | of `{t, w}` only `t` is queued at the start (finding 3) |
| `QueryEval.SharedAsWrittenLoops` | internal/depgraph/query.go:316-327 | as written, `shared({t, w})` drops `t`, then queues `a`, `b`, `a`, ... forever because the first predecessor is taken whether or not it is in the set (finding 3) |
| `QueryEval.SharedCorrectedStops` | internal/depgraph/query.go:316-327 | the corrected loop on the same input stops after one turn with `{w}` |
| `QueryEval.ComputeSet` | internal/depgraph/query.go:61-86 | the recursive dispatch returns `Eval` of the expression |
| `QueryEval.EvalLaws` | internal/depgraph/query.go:61-86 | integers, booleans and argument lists are not sets; every result lies within the level; `deps`/`rdeps` contain their sources and `shared` is within its argument's set |
| `QueryEval.FuncArguments` | internal/depgraph/query.go:170-217 | `deps`/`rdeps` need one or two arguments, the second an integer, and give the reach from the first argument's set to that depth or without bound; `shared` needs exactly one; other names are unknown functions |
| `DepGraphNodes.NewModule` | internal/depgraph/module.go:29-38 | a new module carries its information, no indirect requirements, no version constraints, and is not yet reached by a non-test import |
| `DepGraphNodes.HashesDistinct` | internal/depgraph/module.go:45-51 | module hashes and package hashes never coincide, and each hash determines its name, so a hash names at most one node |
| `DepGraphNodes.ModuleGraphNode` | internal/depgraph/module.go:71-73 | a module sits at the top of the hierarchy under its path and module hash |
| `DepGraphNodes.GraphNodeOf` | internal/depgraph/package.go:58-60 | a module is a root at depth 0; a package's parent is its module and it sits at depth 1 |
| `DepGraphNodes.SelectedVersion` | internal/depgraph/module.go:55-60 | the selected version is the replacement's when the module is replaced and the module's own otherwise |
| `DepGraphNodes.TimestampOf` | internal/depgraph/module.go:64-69 | the timestamp is the replacement's when the module is replaced and the module's own otherwise |
| `DepGraphNodes.LabelShape` | internal/depgraph/module.go:87-100 | an annotation label opens with the module's path and closes with its selected version |
| `DepGraphNodes.NodeAttributes` | internal/depgraph/module.go:87-100 | at most one attribute, present exactly for a module with a known selected version when annotating; packages have none |
| `DepGraphNodes.EdgeAttributes` | internal/depgraph/module.go:102-113 | an edge is dashed exactly when the target is an indirect requirement, labelled exactly when annotating and a constraint on the target is known; package edges carry nothing |
| `DepGraphObject.FindModule` | internal/depgraph/graph.go:35-44 | a lookup succeeds exactly when the name, resolved through the replacement aliases, is a module of the graph, and then yields that module |
| `DepGraphObject.LevelView` | internal/depgraph/query.go:233-242 | a query sees the level's nodes in list order, and the successor and predecessor names of exactly those nodes |
| `DepGraphObject.DepGraph.GetModule` | internal/depgraph/graph.go:35-44 | `getModule` on the object agrees with the lookup through the aliases |
| `DepGraphObject.DepGraph.constructor` | internal/depgraph/graph.go:25-33 | a new graph is empty, or holds only the main module when one is given, with its replacement recorded as an alias |
| `DepGraphObject.DepGraph.AddModule` | internal/depgraph/graph.go:46-60 | nil adds nothing; a known path returns the existing module unchanged; a new module is added as a root and its replacement path becomes an alias |
| `DepGraphObject.DepGraph.ApplyQuery` | internal/depgraph/query.go:32-51 | a rejected query reports its error and leaves the graph unchanged; otherwise a node of the level stays exactly when its name is selected, and only nodes are removed |
| `DepGraphObject.DepGraph.KeepSelected` | internal/depgraph/query.go:40-50 | after the deletions every node of the level is still a member exactly when its name is selected |
| `DepGraphObject.DepGraph.DeleteUnselected` | internal/depgraph/query.go:41-49 | the deletion loop, node by node in list order, deletes exactly the unselected nodes and keeps the graph valid |
| `DepGraphObject.EmptyValid` | internal/depgraph/graph.go:25-33 | the empty graph is well formed and holds no modules |
| `DepGraphObject.AddModuleValid` | internal/depgraph/graph.go:52-55 | adding a module with an unknown hash succeeds and keeps the graph well formed and every member the projection of its module |
| `DepGraphObject.AddedModuleFound` | internal/depgraph/graph.go:46-60 | after a module is added, its replacement's path finds it, and so does its own path unless that path is itself an alias |
| `DepGraphObject.DeleteFacts` | internal/depgraph/query.go:46-48 | deleting one node of a level's list succeeds, removes it and keeps every other listed node, since nodes of one depth never descend from each other |
| `DepGraphObject.SweepDone` | internal/depgraph/query.go:41-49 | once every listed node is swept, each member of the level remains exactly when its name is selected |
| `DepGraphObject.LevelListed` | internal/depgraph/query.go:41 | the level's list holds distinct members of that depth and every member of that depth |
| `ModuleFilters.EmptySound` | internal/depgraph/graph.go:25-33 | a new dependency graph satisfies the edge invariant of the filters |
| `ModuleFilters.AddModuleSound` | internal/depgraph/graph.go:46-60 | adding a module keeps the edge invariant |
| `ModuleFilters.ParedSound` | internal/graph/graph.go:86-127 | a deletion that only drops predecessor entries and keeps the edge sets valid keeps the edge invariant |
| `ModuleFilters.LevelZeroIsModule` | internal/depgraph/module.go:71-73 | a member of the module level is a module, a root, under the hash of its own path |
| `ModuleFilters.DeleteModuleStep` | internal/depgraph/filters/arbitrary_modules.go:15 | deleting `"module " + x` is refused only when `x` is not a member; otherwise it removes `x`, keeps the edge invariant and spares every other module |
| `ModuleFilters.DeleteSound` | internal/graph/graph.go:86-127 | any successful deletion keeps the edge invariant |
| `ModuleFilters.DeleteModuleSpares` | internal/depgraph/filters/arbitrary_modules.go:15 | deleting one module's node spares every other member of the module level |
| `ModuleFilters.PredIsModule` | internal/depgraph/filters/non_shared_modules.go:50 | a predecessor of a module is a module under its own module hash, so the type assertion of `pruneUnsharedChain` cannot fail |
| `ModuleFilters.PredHasSucc` | internal/depgraph/filters/non_shared_modules.go:50-53 | a predecessor has at least one successor, the other end of the same edge |
| `ModuleFilters.DeleteModule` | internal/depgraph/filters/arbitrary_modules.go:15-17 | the new graph is the spec deletion of the module's node: the module and its subtree go and every other module stays; a module that is not a member leaves the graph unchanged |
| `ModuleFilters.ArbitraryModulesApply` | internal/depgraph/filters/arbitrary_modules.go:13-20 | afterwards no listed module is a member, every unlisted module is, and only nodes were removed |
| `ModuleFilters.DropStep` | internal/depgraph/filters/arbitrary_modules.go:14-18 | one deletion moves the loop's invariant on by one module |
| `ModuleFilters.FindUnshared` | internal/depgraph/filters/non_shared_modules.go:26-34 | the result is the first unshared module in list order, or none when no module is unshared |
| `ModuleFilters.PruneUnsharedChain` | internal/depgraph/filters/non_shared_modules.go:44-58 | exactly the walk is deleted, in order: the leaf, then each time the first predecessor, in `List` order, of the module just deleted, as long as that predecessor is not excluded and, once the module is gone, has no successor and at most one predecessor; the walk stops at the first predecessor that fails this, or at a module with no predecessor; nothing else is deleted, excluded modules stay and the edge invariant holds |
| `ModuleFilters.ChainStep` | internal/depgraph/filters/non_shared_modules.go:46-56 | one turn deletes the leaf and either goes on to its first predecessor, which then passes the test, or ends the walk exactly when there is no predecessor or the first one fails the test |
| `ModuleFilters.DeleteLeaf` | internal/depgraph/filters/non_shared_modules.go:47-51 | deleting the leaf is one deletion of the graph: the leaf and its subtree go, excluded modules stay and the edge invariant holds |
| `ModuleFilters.ChainWalkUnshared` | internal/depgraph/filters/non_shared_modules.go:44-58 | a walk that starts at an unshared module deletes only modules that are unshared (not excluded, no successor, at most one predecessor) when they go |
| `ModuleFilters.ChainStepKept` | internal/depgraph/filters/non_shared_modules.go:51-55 | deleting a module that is not excluded keeps every excluded module |
| `ModuleFilters.NonSharedModulesApply` | internal/depgraph/filters/non_shared_modules.go:14-42 | the result is the graph with a sequence of modules deleted in turn, each unshared when it goes; on return no module is unshared, excluded modules all stay, and only nodes were removed |
| `ModuleFilters.UnsharedRunAppend` | internal/depgraph/filters/non_shared_modules.go:25-41 | a run of unshared deletions followed by another run is one run, ending in the same graph |
| `LibContainers.RemoveNamedMembers` | lib/depgraph/map.go:52-63 | cutting the named element out of a list with distinct names keeps every other element and nothing else |
| `LibContainers.RemoveNamedDistinct` | lib/depgraph/map.go:57-62 | cutting an element out keeps the names distinct |
| `LibContainers.IndexedSize` | lib/depgraph/map.go:22-24 | the map has exactly one entry per listed element, so `Len` of the map is the length of the list |
| `LibContainers.IndexedRemove` | lib/depgraph/map.go:52-63 | removing the name from both the map and the list keeps the two in step |
| `LibContainers.SortedDistinct` | lib/depgraph/map.go:65-70 | a sorted permutation of a list with distinct names has strictly rising names |
| `LibContainers.Edges.constructor` | lib/depgraph/map.go:15-20 | a new map lists nothing and indexes nothing |
| `LibContainers.Edges.Len` | lib/depgraph/map.go:22-24 | the count of indexed names equals the length of the list |
| `LibContainers.Edges.Get` | lib/depgraph/map.go:47-50 | a lookup succeeds exactly for an indexed name and yields a listed element of that name |
| `LibContainers.Edges.Copy` | lib/depgraph/map.go:26-36 | a fresh object with the same map and the same list |
| `LibContainers.Edges.Add` | lib/depgraph/map.go:38-45 | a known name changes nothing; a new one is indexed and appended at the end |
| `LibContainers.Edges.Delete` | lib/depgraph/map.go:52-63 | an absent name changes nothing; otherwise the name leaves the map and its element is cut out of the list, the rest in order |
| `LibContainers.Edges.Position` | lib/depgraph/map.go:57-61 | the scan stops at the first element bearing the name |
| `LibContainers.Edges.List` | lib/depgraph/map.go:65-70 | the result is a permutation of the list, sorted, with strictly rising names |
| `LibContainers.NewDependencyMap` | lib/depgraph/map.go:15-20 | a fresh, empty dependency map keyed by the reference's name |
| `LibContainers.CopyThenAdd` | lib/depgraph/map.go:26-45 | a copy does not share state: adding to the original afterwards leaves the copy unchanged |
| `LegacyGraph.CreateNewNode` | depgraph/graph.go:28-34 | a node exists exactly for a module with information, and starts with that information and no edges |
| `LegacyGraph.SelectedVersion` | depgraph/graph.go:122-127 | the first generation selects the same version as the current one for the same module information |
| `LegacyGraph.Timestamp` | depgraph/graph.go:129-134 | the first generation reports the same time as the current one for the same module information |
| `LegacyGraph.Keep` | depgraph/filter.go:106-111 | an edge is kept exactly when it was listed and the removal does not cut it |
| `LegacyGraph.KeepEdges` | depgraph/filter.go:106-120 | the loop that rebuilds one edge list yields exactly the kept edges, in order |
| `LegacyGraph.RemoveEdgeLaws` | depgraph/filter.go:98-121 | removing an edge between two nodes drops exactly the edges from `start` to `end`, from both lists, and keeps every node |
| `LegacyGraph.RemoveEdgeMirrored` | depgraph/filter.go:98-121 | removing an edge keeps every edge listed at both of its ends |
| `LegacyGraph.CutMirrored` | depgraph/filter.go:106-120 | cutting the same (begin, end) pairs from both ends keeps the graph mirrored |
| `LegacyGraph.RemoveEdgesLaws` | depgraph/filter.go:89-94 | removing a list of edges drops exactly the edges with one of the listed pairs |
| `LegacyGraph.CutIncident` | depgraph/filter.go:82-96 | cutting every pair of a node's own edges cuts exactly the edges at that node |
| `LegacyGraph.RemoveNodeUnlinks` | depgraph/filter.go:82-96 | removing a node removes it and exactly the edges at it, no remaining list refers to it, and the graph stays mirrored |
| `LegacyGraph.UnlinkedInduced` | depgraph/filter.go:82-96 | what remains after removing a node is the subgraph induced by the other nodes |
| `LegacyGraph.CopiedLaws` | depgraph/graph.go:189-211 | a copy of a mirrored graph is mirrored, keyed by name and induced by all the original's nodes |
| `LegacyGraph.UpstreamMarkedCopied` | depgraph/filter.go:53-59 | marks placed on the copy describe the original's edges too |
| `LegacyGraph.LinkingStep` | depgraph/graph.go:203-207 | adding the next outgoing edge of a node at both of its ends moves the copy's invariant one edge on |
| `LegacyGraph.LinkedCopied` | depgraph/graph.go:202-208 | once every node has its outgoing edges, the copy holds the original's edges |
| `LegacyGraph.CopyNodes` | depgraph/graph.go:195-200 | the first loop yields every node with its information and no edges |
| `LegacyGraph.LinkNode` | depgraph/graph.go:203-207 | one round of the second loop adds exactly the node's outgoing edges, at both ends |
| `LegacyGraph.LinkAll` | depgraph/graph.go:202-208 | after the second loop every node has all its outgoing and incoming edges |
| `LegacyGraph.Stale` | depgraph/filter.go:56-61 | the edges cut when pruning are exactly those whose version is not more recent than the target |
| `LegacyGraph.StaleCut` | depgraph/filter.go:54-63 | after the stale edges are cut, every edge left into the dependency was there before and is more recent than the target |
| `LegacyGraph.OffendingLaws` | depgraph/filter.go:53-64 | copy, then cut or mark, then sub-graph: the result stays within the original, and is an induced subgraph when marking |
| `LegacyGraph.OffChainMeans` | depgraph/filter.go:28-37 | a node escapes the sub-graph's pruning exactly when it has successors, or it is the dependency and has predecessors |
| `LegacyGraph.OffChainFixpoint` | depgraph/filter.go:28-37 | when nothing more can be pruned, every node has successors or is the dependency with predecessors |
| `LegacyGraph.DepGraph.constructor` | depgraph/graph.go:78-87 | a new graph has no module name, no nodes and no marks |
| `LegacyGraph.DepGraph.Empty` | depgraph/filter.go:21-27 | an unknown dependency gives a graph with the same module name and no nodes |
| `LegacyGraph.DepGraph.Nodes` | depgraph/graph.go:97-105 | every node once: as many entries as nodes, each a node, every node present |
| `LegacyGraph.DepGraph.RemoveEdge` | depgraph/filter.go:98-121 | the nodes become the edge-removed nodes; marks and module name unchanged |
| `LegacyGraph.DepGraph.RemoveNode` | depgraph/filter.go:82-96 | the node and every edge at it go; an unknown name changes nothing |
| `LegacyGraph.DepGraph.RemoveEdges` | depgraph/filter.go:89-94 | removing each edge of the list in turn |
| `LegacyGraph.DepGraph.MarkAsOffending` | depgraph/filter.go:123-134 | the edge and its start are marked; every newly marked module has all edges into it and their starts marked; every newly marked module lies in every upward-closed set holding the start, and every newly marked edge is the given edge or an edge into a newly marked module; no edge or node is changed |
| `LegacyGraph.DepGraph.DeepCopy` | depgraph/graph.go:189-211 | a fresh graph with the same name and marks, holding a copy of the nodes and edges |
| `LegacyGraph.DepGraph.PrunePass` | depgraph/filter.go:71-77 | one pass removes a sequence of nodes in turn, each prunable in the graph as it stands when it goes, and nothing else; it reports a removal exactly when that sequence is non-empty, and a pass that removes nothing finds no prunable node |
| `LegacyGraph.DepGraph.Prune` | depgraph/filter.go:67-80 | the result is a fresh graph: a copy of the nodes with a sequence of nodes removed in turn, each prunable when it goes; no node left is prunable |
| `LegacyGraph.PrunedRunAppend` | depgraph/filter.go:69-78 | the removals of one pass followed by those of the next form one sequence of removals, each prunable when it goes, ending in the same graph |
| `LegacyGraph.RemovedInduced` | depgraph/filter.go:82-96 | removing any sequence of nodes from a mirrored graph leaves a mirrored subgraph induced by the nodes left |
| `LegacyGraph.DepGraph.PruneLoop` | depgraph/filter.go:69-78 | passes repeat until no node is prunable; the graph is the old one with a sequence of nodes removed in turn, each prunable when it goes |
| `LegacyGraph.DepGraph.PruneUnsharedDeps` | depgraph/filter.go:5-14 | the copy with a sequence of modules removed in turn, each without dependencies and with fewer than two dependents when it goes; every module left has dependencies or at least two dependents |
| `LegacyGraph.DepGraph.SubGraph` | depgraph/filter.go:19-38 | an unknown module gives an empty graph; otherwise the copy with a sequence of nodes removed in turn, each without dependencies and not the module with dependents when it goes; every node on a chain of requirements to the module stays, and every node left has dependencies, except the module itself, which has dependents |
| `LegacyGraph.CopiedChain` | depgraph/graph.go:189-211 | a chain of requirements to the module in the original is one in the copy |
| `LegacyGraph.ChainHeld` | depgraph/filter.go:28-37 | while every node of a chain to the module is present, none of them is pruned by `SubGraph` |
| `LegacyGraph.ChainStays` | depgraph/filter.go:28-37 | removing nodes that `SubGraph` would prune, one at a time, never removes a node on a chain of requirements to the module |
| `LegacyGraph.DepGraph.OffendingGraph` | depgraph/filter.go:44-65 | when marking, every edge into the dependency that is more recent than the target is marked with everything upstream of it, and nothing else: new node marks lie upstream of those edges' starts and new edge marks are those edges or edges into newly marked modules; when pruning, the edges left into it are all more recent; the result lies within the original; when marking, every node on a chain of requirements to the dependency stays, and when pruning, so does every node on such a chain that reaches the dependency only at its end through requirements more recent than the target |
| `LegacyGraph.CutKeepsChain` | depgraph/filter.go:54-62 | cutting the edges into the dependency that are not more recent than the target keeps every chain whose last edges are more recent |
| `LegacyGraph.CutKeepsLink` | depgraph/filter.go:54-62 | the cut keeps every requirement except those into the dependency that are not more recent than the target |
| `LegacyGraph.OffendingChain` | depgraph/filter.go:53-64 | after the copy and the cut or the marks, every chain that the final `SubGraph` must keep is a chain of the graph it is given |
| `LegacyGraph.DepGraph.CutOlder` | depgraph/filter.go:54-62 | the loop cuts exactly the stale edges into the dependency |
| `LegacyGraph.DepGraph.MarkNewer` | depgraph/filter.go:54-62 | the loop marks every more-recent edge into the dependency and its start, with their upstream; it marks nothing outside every upward-closed set holding those starts, and no edge other than those edges and edges into newly marked modules; it changes no edge |
| `TargetModules.TrimLeftV` | internal/depgraph/filters/target_modules.go:93-94 | trimming removes the whole leading run of `v`s and nothing else |
| `TargetModules.Matching` | internal/depgraph/filters/target_modules.go:68-74 | a predecessor is a seed exactly when the version filter accepts its version |
| `TargetModules.Enqueue` | internal/depgraph/filters/target_modules.go:78-84 | one turn of the walk marks every listed name seen and queues exactly the names that were not seen before |
| `TargetModules.EnqueueShrinks` | internal/depgraph/filters/target_modules.go:76-86 | a turn that queues something sees a new name, so the walk terminates |
| `TargetModules.WalkGrows` | internal/depgraph/filters/target_modules.go:76-86 | the walk only adds names |
| `TargetModules.WalkClosed` | internal/depgraph/filters/target_modules.go:76-86 | every name the walk queued or newly saw has all its predecessors in the result |
| `TargetModules.WalkWithin` | internal/depgraph/filters/target_modules.go:76-86 | the walk stays inside any set that holds its queue and is closed under predecessors up to the names already seen |
| `TargetModules.ChainsClosed` | internal/depgraph/filters/target_modules.go:61-86 | the chains of a target hold the target and its matching predecessors, and the predecessors of every name in them except the target itself, whose predecessors are walked only when it is one of its own matching predecessors |
| `TargetModules.ChainsLeast` | internal/depgraph/filters/target_modules.go:61-86 | the chains are the least such set: any set holding the target and the matching predecessors, closed under predecessors except at the target, holds them |
| `TargetModules.TargetKeepChains` | internal/depgraph/filters/target_modules.go:32-38 | a name is kept exactly when it is in the chains of a target on the module level: the target itself, or a name on a chain of predecessors up from one of its matching predecessors that does not go on up through the target |
| `TargetModules.SkipFirstAsWritten` | internal/depgraph/filters/target_modules.go:55-87 | in the counterexample, the first target keeps only itself |
| `TargetModules.SkipSecondAsWritten` | internal/depgraph/filters/target_modules.go:76-86 | in the counterexample, the second walk stops at the name the first target kept |
| `TargetModules.SkippedChainAsWritten` | internal/depgraph/filters/target_modules.go:76-86 | as written, a module on a chain to the second target is not kept because the walk skips names kept for the first (finding 6) |
| `TargetModules.SkippedChainKept` | internal/depgraph/filters/target_modules.go:13-16 | corrected, the same module is kept |
| `TargetModules.CycleThroughTarget` | internal/depgraph/filters/target_modules.go:61-86 | a chain that comes back to the target stops there: with `a` at v1.0 the target, `b` at v0.9 and `d` its predecessors, and `a` a predecessor of `d`, exactly `a` and `d` are kept |
| `TargetModules.OneTargetAsWritten` | internal/depgraph/filters/target_modules.go:55-87 | for a single target the corrected filter keeps exactly what `applyFilter` as written keeps |
| `TargetModules.PredsRead` | internal/depgraph/filters/target_modules.go:68-69 | the predecessors read off the graph are known modules, named as in the view, with the view's versions |
| `TargetModules.FilterNodeFound` | internal/depgraph/filters/target_modules.go:56-59 | the lookup on the module level finds a node exactly when the target is on the level, and that node carries the target's path |
| `TargetModules.EnqueuePreds` | internal/depgraph/filters/target_modules.go:78-84 | the inner loop computes one turn of the walk over the predecessors' names |
| `TargetModules.EnqueueNames` | internal/depgraph/filters/target_modules.go:78-84 | the loop over names computes one turn of the walk |
| `TargetModules.WalkPreds` | internal/depgraph/filters/target_modules.go:76-86 | the walk on the graph computes the walk over the graph's view |
| `TargetModules.MatchingPreds` | internal/depgraph/filters/target_modules.go:67-74 | the seeds loop yields the matching predecessors of the target, in list order, all known modules |
| `TargetModules.ApplyFilter` | internal/depgraph/filters/target_modules.go:55-87 | the names kept after one more target are the corrected filter step: the walk starts with the target and its matching predecessors seen, so it never climbs through the target |
| `TargetModules.CollectKeep` | internal/depgraph/filters/target_modules.go:32-38 | the first loop collects the names kept for every target, in order, each target's walk stopping at the target itself |
| `TargetModules.DeleteUnkept` | internal/depgraph/filters/target_modules.go:41-46 | every listed module that was not kept is deleted, and every kept module stays |
| `TargetModules.UnkeptStep` | internal/depgraph/filters/target_modules.go:42-45 | one deletion moves the loop's invariant one node on |
| `TargetModules.PrunedDone` | internal/depgraph/filters/target_modules.go:41-46 | after the loop, a module stays exactly when its name was kept |
| `TargetModules.TargetModulesApply` | internal/depgraph/filters/target_modules.go:27-48 | no targets leave the graph as it is; otherwise a module stays exactly when its name is in the chains of some target, which do not climb through that target |
| `LibGraph.Without` | lib/depgraph/map.go:52-63 | a reference survives exactly when it does not name the removed dependency |
| `LibGraph.RemovedDrops` | lib/depgraph/filter.go:102 | removing a dependency drops it and every reference to it, and nothing else |
| `LibGraph.DroppedTwice` | lib/depgraph/filter.go:99-104 | two rounds of dropping are one round dropping both sets |
| `LibGraph.DroppedOne` | lib/depgraph/filter.go:102 | removing one known dependency drops exactly what went, and the graph shrinks |
| `LibGraph.DroppedChain` | lib/depgraph/filter.go:97-105 | successive removals compose into one removal of everything that went |
| `LibGraph.DroppedMirrored` | lib/depgraph/filter.go:102 | dropping dependencies together with the references to them keeps every reference mirrored at its other end |
| `LibGraph.NoSelfPred` | lib/depgraph/filters/non_shared.go:50 | in a mirrored graph a dependency without successors is not its own predecessor, so the chain walk moves to another dependency |
| `LibGraph.DepGraph.constructor` | lib/depgraph/filter.go:94-95 | a graph over mirrored dependencies |
| `LibGraph.DepGraph.RemoveDependency` | lib/depgraph/filter.go:102 | the dependency and every reference to it go; an unknown name drops nothing |
| `LibGraph.DepGraph.DeepCopy` | lib/depgraph/filter.go:95 | a fresh graph with the same dependencies and references |
| `LibGraph.DepGraph.DependencyNames` | lib/depgraph/filter.go:99 | the names of the dependencies, each once, sorted |
| `LibFilters.NamesOf` | lib/depgraph/filter.go:83 | the names of the references, position by position |
| `LibFilters.ViewPreds` | lib/depgraph/filter.go:83 | the walk's view of a dependency's predecessors is the names of its predecessor references |
| `LibFilters.Seeds` | lib/depgraph/filter.go:74-79 | the seeds are exactly the names of the predecessor references the matcher accepts |
| `LibFilters.FilterStepKept` | lib/depgraph/filter.go:58-92 | after one more filter, a name is kept exactly when it was kept before or is in the filter's chains, which stop at the target itself |
| `LibFilters.KeepChains` | lib/depgraph/filter.go:35-38 | a name is kept exactly when some filter's target is a dependency and the name is that target or on a chain up from one of its matching predecessors that does not go on up through the target |
| `LibFilters.UnknownTargetIgnored` | lib/depgraph/filter.go:59-62 | corrected, a filter naming an unknown dependency changes nothing |
| `LibFilters.UnknownTargetAsWritten` | lib/depgraph/filter.go:59-62 | as written, a last filter naming an unknown dependency leaves nothing kept (finding 8) |
| `LibFilters.KnownThenUnknown` | lib/depgraph/filters/target_dependency.go:61-64 | a known target then an unknown one: corrected the first target is kept, as written nothing is |
| `LibFilters.LibSkipFirst` | lib/depgraph/filter.go:58-92 | in the counterexample, the first filter keeps only its target |
| `LibFilters.LibSkipSecond` | lib/depgraph/filter.go:81-90 | in the counterexample, the second walk stops at the name the first filter kept |
| `LibFilters.WalkStops` | lib/depgraph/filter.go:84-87 | a walk whose one predecessor is already kept sees nothing new |
| `LibFilters.SkippedChainAsWritten` | lib/depgraph/filter.go:81-90 | as written, a dependency on a chain to the second target is not kept because the walk skips names kept for the first (finding 7) |
| `LibFilters.SkippedChainKept` | lib/depgraph/filter.go:18-21 | corrected, the same dependency is kept |
| `LibFilters.MatchersOnSkip` | lib/depgraph/filters/target_dependency.go:96-103 | both matchers reject a reference whose version is not more recent and accept any reference to a target without a version |
| `LibFilters.MatchingPreds` | lib/depgraph/filter.go:74-79 | the seeds loop yields the matching predecessors in list order |
| `LibFilters.WalkPreds` | lib/depgraph/filter.go:81-90 | the walk on the graph computes the walk over the graph's view |
| `LibFilters.ApplyFilter` | lib/depgraph/filter.go:58-92 | the names kept after one more filter are the corrected filter step, whose walk starts with the target and its matching predecessors seen |
| `LibFilters.CollectKeep` | lib/depgraph/filter.go:35-38 | the first loop collects the names kept for every filter, each walk stopping at its target |
| `LibFilters.RemoveUnkept` | lib/depgraph/filter.go:42-47 | the pruning loop drops exactly the listed names that were not kept |
| `LibFilters.FilterByTargets` | lib/depgraph/filter.go:30-49 | no filters return the graph itself; otherwise a fresh copy without exactly the dependencies no filter keeps, the walks never climbing through a target |
| `LibFilters.SubGraph` | lib/depgraph/filter.go:30-49 | `SubGraph` with `matchesFilter`: a copy that drops exactly the dependencies no filter keeps, the walks never climbing through a target |
| `LibFilters.TargetDependenciesApply` | lib/depgraph/filters/target_dependency.go:26-48 | `TargetDependencies.Apply` with `dependencyMatchesFilter`: a copy that drops exactly the dependencies no target keeps, the walks never climbing through a target |
| `LibFilters.PruneOne` | lib/depgraph/filter.go:100-103 | a dependency is removed exactly when it is still there and prunable |
| `LibFilters.PruneStep` | lib/depgraph/filter.go:99-104 | one turn of a pass extends the run by the name exactly when it is still there and prunable, and keeps the pass's record that nothing seen so far was prunable while nothing went |
| `LibFilters.PrunePass` | lib/depgraph/filter.go:99-104 | one pass removes a sequence of dependencies in turn, each prunable in the graph as it stands when it goes, and nothing else; it reports a removal exactly when that sequence is non-empty, and a pass that removes nothing finds no prunable dependency |
| `LibFilters.PruneLoop` | lib/depgraph/filter.go:97-105 | passes repeat until no dependency is prunable; the graph is the old one with a sequence of dependencies removed in turn, each prunable when it goes |
| `LibGraph.PrunedRunAppend` | lib/depgraph/filter.go:97-105 | the removals of one pass followed by those of the next form one sequence of removals, each prunable when it goes, ending in the same graph |
| `LibFilters.Prune` | lib/depgraph/filter.go:94-107 | a fresh copy with a sequence of dependencies removed in turn, each prunable when it goes; no dependency left is prunable |
| `LibFilters.PruneUnsharedDeps` | lib/depgraph/filter.go:5-16 | the copy with a sequence of dependencies removed in turn, each without successors and with fewer than two predecessors when it goes; every dependency left has a successor or at least two predecessors |
| `LibFilters.ArbitraryDependenciesApply` | lib/depgraph/filters/arbitrary_dependency.go:13-19 | a fresh copy without the named dependencies and the references to them |
| `LibFilters.FindUnshared` | lib/depgraph/filters/non_shared.go:26-34 | the first prunable dependency by name, or none when no dependency is prunable |
| `LibFilters.PruneUnsharedChain` | lib/depgraph/filters/non_shared.go:44-58 | exactly the walk is removed, in order: the leaf, then each time the first predecessor of the dependency just removed, as long as that predecessor is not excluded and, once the dependency is gone, has no successor and at most one predecessor; the walk stops at the first predecessor that fails this, or at a dependency with no predecessor; nothing else is removed and excluded dependencies stay |
| `LibFilters.ChainStep` | lib/depgraph/filters/non_shared.go:46-56 | one turn removes the leaf and either goes on to its first predecessor, which then passes the test, or ends the walk exactly when there is no predecessor or the first one fails the test |
| `LibFilters.FirstPred` | lib/depgraph/filters/non_shared.go:50 | the first entry of `Predecessors.List()` is a predecessor whose name sorts before every other predecessor's |
| `LibFilters.ChainWalkPruned` | lib/depgraph/filters/non_shared.go:44-58 | every dependency of a walk is unshared and not excluded at the moment it is removed |
| `LibFilters.ChainsPruned` | lib/depgraph/filters/non_shared.go:25-41 | a walk taken after earlier removals extends the sequence of unshared, non-excluded removals |
| `LibFilters.NonSharedApply` | lib/depgraph/filters/non_shared.go:13-42 | a fresh copy with a sequence of dependencies removed in turn, each unshared and not excluded when it goes; excluded dependencies stay and no other dependency left is unshared |
| `Reveal.SortInPlace` | lib/reveal/replacements.go:59 | `sort.Strings` leaves the array holding the sorted permutation of its old contents |
| `Reveal.Merge` | lib/reveal/replacements.go:74-89 | the two-index loop keeps only replacements whose offender is among the offenders |
| `Reveal.Kept` | lib/reveal/replacements.go:70-94 | the plain filter: a replacement is kept exactly when its offender is among the offenders |
| `Reveal.MergeKeeps` | lib/reveal/replacements.go:74-89 | with offenders sorted and each origin's offenders strictly increasing, the two-index loop keeps exactly the replacements the plain filter keeps, in order |
| `Reveal.MergeNeedsOrder` | lib/reveal/replacements.go:84-87 | when an origin's replacements are not ordered by offender the loop drops one the plain filter keeps |
| `Reveal.MergePairs` | lib/reveal/replacements.go:74-89 | with offenders sorted and each origin's replacements sorted by offender, equal paths allowed on both sides, the two-index loop keeps exactly the replacements paired, in order, with a still unused listing of their offender |
| `Reveal.MergePairsOnce` | lib/reveal/replacements.go:80-83 | an offender listed once pairs with one replacement: of two replacements by it, only the first is kept, where the plain filter keeps both |
| `Reveal.Paired` | lib/reveal/replacements.go:74-89 | each replacement pairing keeps is by an offender that is listed |
| `Reveal.PairedEmpty` | lib/reveal/replacements.go:74-89 | pairing keeps nothing exactly when no replacement is by a listed offender |
| `Reveal.PairedSorted` | lib/reveal/replacements.go:74-89 | the paired replacements stay sorted by offender |
| `Reveal.KeptSorted` | lib/reveal/replacements.go:70-94 | filtering keeps the order by offender |
| `Reveal.OffendingOrigins` | lib/reveal/replacements.go:90-93 | an origin stays exactly when some of its replacements survive the filter |
| `Reveal.MergeOffenders` | lib/reveal/replacements.go:73-89 | the loop computes the merge |
| `Reveal.FilterOrigins` | lib/reveal/replacements.go:61-95 | the loop over origins computes the filtered replacements |
| `Reveal.FilterOnOffendingModule` | lib/reveal/replacements.go:55-96 | no offenders return the replacements unchanged; otherwise the offenders are sorted in place and the filtered replacements returned |
| `Reveal.OffendingOriginsSorted` | lib/reveal/replacements.go:70-93 | the surviving origins stay sorted |
| `Reveal.FilterOffendingMeans` | lib/reveal/replacements.go:55-96 | on well-formed replacements and sorted offenders: the filter keeps main and top-level replaces, keeps exactly the origins with a replacement by a listed offender, under each the replacements paired one-to-one with listings of their offender, which is all those by a listed offender when the origin's offenders strictly increase, and is well-formed |
| `Reveal.RequestedOrigins` | lib/reveal/replacements.go:112-116 | an original stays exactly when it is requested and has replacements |
| `Reveal.SelectOrigins` | lib/reveal/replacements.go:104-121 | the loop over originals computes the selected replacements |
| `Reveal.FilterOnReplacedModule` | lib/reveal/replacements.go:98-122 | no originals return the replacements unchanged; otherwise the originals are sorted in place and the selected replacements returned |
| `Reveal.RequestedOriginsSorted` | lib/reveal/replacements.go:112-120 | the selected origins stay sorted |
| `Reveal.FilterReplacedMeans` | lib/reveal/replacements.go:98-122 | the selection keeps main and top-level replaces, exactly the requested origins with replacements, and their replacements unchanged |
| `Reveal.MaxLen` | lib/reveal/replacements.go:135-145 | each column width is the greatest byte length in its column, and zero for no replacements |
| `Reveal.LineSeparators` | lib/reveal/replacements.go:146-159 | a report line is as wide as the three columns plus 11, opens with its mark and has ` -> ` and ` @ ` at the column boundaries |
| `Reveal.LineFields` | lib/reveal/replacements.go:146-158 | the offender and override stand left-aligned at the start of their columns |
| `Reveal.LineVersion` | lib/reveal/replacements.go:146-159 | the version stands right-aligned at the end of the line, before the newline |
| `Reveal.ColumnWidths` | lib/reveal/replacements.go:135-145 | the loop computes the three column widths |
| `Reveal.ReportLines` | lib/reveal/replacements.go:150-160 | the loop yields the report lines and whether any replacement matches a top-level replace |
| `Reveal.PrintModuleReplacements` | lib/reveal/replacements.go:124-162 | the module's report: heading, lines, blank line, and whether a line matched |
| `Reveal.Print` | lib/reveal/replacements.go:32-53 | both argument arrays end sorted in place, and the output is the reports of the twice-filtered replacements with the footer |
| `Reveal.WriteReports` | lib/reveal/replacements.go:39-47 | the loop over origins and the footer compute the output |
| `Reveal.ReportsEnd` | lib/reveal/replacements.go:161 | every report ends in a blank line |
| `Reveal.FooterIffMatch` | lib/reveal/replacements.go:45-47 | the output ends with the top-level footer exactly when some report line matched |
| `Reveal.TopLevelOf` | lib/reveal/replacements.go:181-183 | the top-level map has exactly the originals the main module replaces |
| `Reveal.TopLevelLast` | lib/reveal/replacements.go:181-183 | for an original replaced more than once, the last override wins |
| `Reveal.OfOriginAppend` | lib/reveal/replacements.go:191-197 | the replacements of an origin in two lists are those of each, in order |
| `Reveal.Record` | lib/reveal/replacements.go:191-197 | recording a module's replaces appends each to its origin's list and lists each new origin once |
| `Reveal.TopLevelReplaces` | lib/reveal/replacements.go:181-183 | the loop computes the top-level map |
| `Reveal.Aggregate` | lib/reveal/replacements.go:185-198 | every origin is listed once and holds its replacements from all modules, in module order |
| `Reveal.GroupedWellFormed` | lib/reveal/replacements.go:199-203 | after sorting, the origins rise strictly and each holds a permutation of its replacements sorted by offender |
| `Reveal.FindReplacementsFrom` | lib/reveal/replacements.go:170-205 | the result names the main module and its top-level replaces, lists each replaced origin once in sorted order, and under each a permutation of all its replacements |
| `Style.StyleOptions.constructor` | internal/parsers/style.go:13 | new options are the zero options: no scaling, clustering off |
| `Style.StyleOptions.ParseStyleScaleNodes` | internal/parsers/style.go:45-56 | the call succeeds exactly for an accepted value and then sets only the scaling field to that value's meaning; an error changes nothing |
| `Style.StyleOptions.ParseStyleCluster` | internal/parsers/style.go:58-71 | the call succeeds exactly for an accepted value and then sets only the cluster level; an error changes nothing |
| `Style.StyleOptions.Apply` | internal/parsers/style.go:19-40 | one setting succeeds exactly when its key and value are accepted, and leaves the options as the setting prescribes |
| `Style.ParseVisualConfig` | internal/parsers/style.go:12-43 | fails exactly when the configuration is an error, and otherwise returns fresh options filled in by the settings in order |
| `Style.SettingsAppend` | internal/parsers/style.go:14-41 | settings apply left to right: a concatenation applies the first part, then the second unless the first failed |
| `Style.LastClusterWins` | internal/parsers/style.go:58-65 | a later valid `cluster` setting overrides every earlier one |
| `Style.ValuesIgnoreCase` | internal/parsers/style.go:46 | values are compared without regard to case |
| `Style.EmptyIsDefault` | internal/parsers/style.go:13-17 | the empty configuration gives the zero options |
| `Style.PairKey` | internal/parsers/style.go:19-26 | a setting splits at its first `=` into a trimmed, lower-cased key and value |
| `Style.BareSetting` | internal/parsers/style.go:19-26 | a key without `=` has an empty value, which turns scaling on or selects shared clustering |
| `Style.SettingIgnoresCaseAndSpace` | internal/parsers/style.go:25-26 | two settings whose keys and values agree after trimming and lower-casing have the same effect |
| `Style.ErrorIndependent` | internal/parsers/style.go:28-37 | whether a setting is an error does not depend on the options it is applied to |
| `Style.SettingErrorFails` | internal/parsers/style.go:38-40 | one erroneous setting anywhere makes the whole configuration an error |
| `Clustering.Sanitized` | internal/printer/clustering.go:206-216 | the hash of a name has one rune per rune of the name: letters and digits kept, anything else `_` |
| `Clustering.NodeNameToHash` | internal/printer/clustering.go:206-216 | the rune loop computes the sanitized name |
| `Clustering.SanitizedIdempotent` | internal/printer/clustering.go:206-216 | sanitizing twice changes nothing more |
| `Clustering.PredHashes` | internal/printer/clustering.go:54-57 | one sanitized name per predecessor |
| `Clustering.ComputeClusterHash` | internal/printer/clustering.go:53-66 | the loop computes the cluster hash: sanitized predecessor names, sorted, joined, tagged with the node's name when required |
| `Clustering.HashOrderIndependent` | internal/printer/clustering.go:58-59 | the order in which predecessors are listed does not change the hash |
| `Clustering.SamePredsShareHash` | internal/printer/clustering.go:61-64 | without the name tag, nodes with the same predecessors share a cluster |
| `Clustering.SharedSinglePred` | internal/printer/clustering.go:61-64 | shared clustering puts roots in one cluster and groups nodes by their single predecessor |
| `Clustering.TaggedHashNamesNode` | internal/printer/clustering.go:62-64 | a tagged hash starts with the node's name and `_from_` (internal) or ends with `_to_` and the name (lib) |
| `Clustering.MemberOrder` | internal/printer/clustering.go:38-45 | members sort with those without successors first, then by name |
| `Clustering.MembersWithDeps` | internal/printer/clustering.go:193-196 | the count covers the last member and the run of members with successors just before it, and stops at a member without |
| `Clustering.DepsRunLeast` | internal/printer/clustering.go:194-196 | the loop stops exactly at the first member without successors, counting back from the end |
| `Clustering.ISqrt` | internal/printer/clustering.go:198 | the floor of the square root: its square is at most the size and the next square exceeds it |
| `Clustering.Width` | internal/printer/clustering.go:188-204 | the width is at least one, so the height's division is defined |
| `Clustering.WidthBounds` | internal/printer/clustering.go:157 | a non-empty cluster is at most as wide as it has members, so half the width indexes a member |
| `Clustering.GroupedWidth` | internal/printer/clustering.go:188-204 | once members are sorted, the width is at least the number of members with successors, and the loop counts exactly those when there is one |
| `Clustering.GroupedCount` | internal/printer/clustering.go:33-45 | once members are sorted, exactly the last ones have successors |
| `Clustering.ComputeWidth` | internal/printer/clustering.go:193-201 | the loop and the square root compute the width |
| `Clustering.Rows` | internal/printer/clustering.go:178-181 | the rows are the size divided by the width, rounded up |
| `Clustering.Height` | internal/printer/clustering.go:176-186 | no members give height 0, one row gives 1, more rows get a spacing row, and 2 never occurs |
| `Clustering.GroupedDepCount` | internal/printer/clustering.go:160-174 | once members are sorted, the trailing count of successors is the count over the whole cluster |
| `Clustering.ComputeDepCount` | internal/printer/clustering.go:165-171 | the loop sums the successors of the trailing members that have successors |
| `Clustering.Representative` | internal/printer/clustering.go:153-158 | an empty cluster has no representative; otherwise it is a member's name |
| `Clustering.GraphCluster.Name` | internal/printer/clustering.go:146-151 | the name ends with the hash and is the bare hash exactly for a cluster of at most one member |
| `Clustering.GraphCluster.GetWidth` | internal/printer/clustering.go:188-204 | the result is the width, cached afterwards, and the members are unchanged |
| `Clustering.GraphCluster.GetDepCount` | internal/printer/clustering.go:160-174 | the result is the trailing count of successors, cached afterwards |
| `Clustering.GraphCluster.GetHeight` | internal/printer/clustering.go:176-186 | the result is the height for the size and width |
| `Clustering.GraphCluster.GetRepresentative` | internal/printer/clustering.go:153-158 | the result is the representative of the members |
| `Clustering.GraphCluster.AddMember` | internal/printer/clustering.go:29 | the node is appended to the members, caches untouched |
| `Clustering.GraphCluster.SortMembers` | internal/printer/clustering.go:38-45 | the members become their sorted permutation |
| `Clustering.NewGraphCluster` | internal/printer/clustering.go:134-142 | a fresh cluster with the next id, the given hash, no members and unset caches |
| `Clustering.FilterMembers` | internal/printer/clustering.go:21-31 | a node is among those with a hash exactly when it has that hash |
| `Clustering.SortedClustersStrict` | internal/printer/clustering.go:47-49 | sorting the cluster list by hash orders it strictly |
| `Clustering.GraphClusters.ClusterDepthMap` | internal/printer/clustering.go:78-121 | the depth map is the traversal's for the node, and is cached under its key |
| `Clustering.GroupingNew` | internal/printer/clustering.go:24-28 | a new cluster for an unused hash keeps the grouping |
| `Clustering.NumberedDistinct` | internal/printer/clustering.go:132-137 | clusters numbered in creation order are listed once each |
| `Clustering.AddToCluster` | internal/printer/clustering.go:29-30 | appending the node to its hash's cluster extends the grouping by that node |
| `Clustering.OpenCluster` | internal/printer/clustering.go:24-28 | a fresh cluster for a new hash is numbered from the counter, filed under its hash and listed last |
| `Clustering.PlaceNode` | internal/printer/clustering.go:22-30 | the node goes to its hash's cluster, which is created on first use; earlier clusters stay put |
| `Clustering.GroupNodes` | internal/printer/clustering.go:20-31 | every node goes to the cluster of its hash, clusters are numbered in creation order, and the cluster map points each node to its cluster |
| `Clustering.SortClusterMembers` | internal/printer/clustering.go:36-46 | every cluster's members end sorted |
| `Clustering.ClusterIdsFresh` | internal/printer/clustering.go:132-137 | the listed clusters carry distinct ids handed out by the counter |
| `Clustering.ClusterHashesCovered` | internal/printer/clustering.go:20-31 | the clusters' hashes are exactly the nodes' hashes |
| `Clustering.ClusterMapExact` | internal/printer/clustering.go:30 | the cluster map sends each node to the one cluster of its hash |
| `Clustering.SortedFilterMembers` | internal/printer/clustering.go:36-46 | a cluster's sorted members are exactly the nodes of its hash |
| `Clustering.SortedClusters` | internal/printer/clustering.go:36-46 | each cluster holds the sorted nodes of its hash and nothing cached |
| `Clustering.MembersExact` | internal/printer/clustering.go:20-31 | a node is a member of exactly the cluster the map gives for it |
| `Clustering.FinishedClusters` | internal/printer/clustering.go:12-51 | the sorted clusters are the level's clusters with distinct counter ids |
| `Clustering.ComputeGraphClusters` | internal/printer/clustering.go:12-51 | every node of the level is a member of exactly the cluster of its hash, the clusters are sorted by hash with sorted members and fresh distinct ids, and no depth map is cached |
| `CompletionGen.TrimSlashes` | internal/completion/gen/gen.go:72 | the path loses exactly its trailing separators and nothing else |
| `CompletionGen.LastSegment` | internal/completion/gen/gen.go:72 | the last element is a separator-free suffix of the path, preceded by a separator when shorter than the path |
| `CompletionGen.Base` | internal/completion/gen/gen.go:72 | the base name is never empty and holds no separator, except the root itself |
| `CompletionGen.Ext` | internal/completion/gen/gen.go:72 | the extension is a suffix that starts with a dot and holds no other dot or separator; it is empty exactly when the last element has no dot |
| `CompletionGen.JoinDirEndsWith` | internal/completion/gen/gen.go:73 | the joined output path ends with the generated file's name |
| `CompletionGen.GetFilename` | internal/completion/gen/gen.go:71-74 | the output path ends with the input's lower-cased stem and `.go` |
| `CompletionGen.GetVariableName` | internal/completion/gen/gen.go:76-91 | the rune loop with its underscore flag computes the constant name of the stem |
| `CompletionGen.CamelStep` | internal/completion/gen/gen.go:80-88 | each rune appends nothing for an underscore, its upper case after an underscore or at the start, its lower case otherwise |
| `CompletionGen.StemAndExt` | internal/completion/gen/gen.go:72 | the stem followed by the extension is the base name |
| `CompletionGen.ShellExt` | internal/completion/gen/gen.go:52 | a path ending in `.sh` has exactly that extension |
| `CompletionGen.ProcessesShellOnly` | internal/completion/gen/gen.go:51-69 | an input is skipped, without error, exactly when its name does not end in `.sh` |
| `CompletionGen.ShellFilename` | internal/completion/gen/gen.go:71-74 | a shell script's output file is its lower-cased name with `.go`, in the output directory |
| `CompletionGen.ShellVariableName` | internal/completion/gen/gen.go:76-91 | a shell script's constant name is built from its name without the extension |
| `CompletionGen.CamelDropsUnderscores` | internal/completion/gen/gen.go:80-82 | the constant name has no underscore and one rune per non-underscore rune of the stem |
| `CompletionGen.CamelAt` | internal/completion/gen/gen.go:83-87 | each kept rune is upper-cased exactly when it starts the stem or follows an underscore, and lower-cased otherwise |
| `CompletionGen.LowerFoldsCase` | internal/completion/gen/gen.go:85-87 | lower-casing undoes upper-casing |
| `CompletionGen.CamelLowered` | internal/completion/gen/gen.go:76-91 | lower-cased, the constant name is the lower-cased stem without underscores |
| `CompletionGen.NamesAgree` | internal/completion/gen/gen.go:71-91 | the file name and the constant name derive from the same stem: the constant, lower-cased, is the file name's stem without underscores |
| `CompletionGen.CamelIgnoresCase` | internal/completion/gen/gen.go:76-91 | stems that differ only in case give the same constant name |
| `CompletionGen.GeneratedHolds` | internal/completion/gen/gen.go:45-49 | the generated file starts with the generated-code banner and holds the contents verbatim inside the raw string literal |
| `Analysis.Quot` | lib/analysis/analysis.go:120-122 | Go's integer division truncates toward zero, for either sign of the dividend |
| `Analysis.HumanDurationSplits` | lib/analysis/analysis.go:119-124 | a non-negative duration is shown as whole months of 30 days and fewer than 30 remaining days, covering its whole days |
| `Analysis.HumanDurationNegative` | lib/analysis/analysis.go:119-124 | a negative duration is shown with non-positive months and days, truncated toward zero |
| `Analysis.AgeDistribution.constructor` | lib/analysis/analysis.go:126-137 | a distribution starts as the empty slice |
| `Analysis.AgeDistribution.Insert` | lib/analysis/analysis.go:126-137 | reslicing within the capacity or copying into a larger array both give the distribution grown with zeros to hold the entry, which is then incremented |
| `Analysis.InsertedEntries` | lib/analysis/analysis.go:126-137 | after an insertion the distribution is long enough for the entry, the entry went up by one and every other entry kept its value or is a new zero |
| `Analysis.HistogramLength` | lib/analysis/analysis.go:126-137 | the distribution built by a sequence of insertions is exactly long enough for the largest index |
| `Analysis.HistogramCounts` | lib/analysis/analysis.go:126-137 | each entry of the built distribution counts how often its index was inserted |
| `Analysis.HistogramStep` | lib/analysis/analysis.go:126-137 | one more insertion extends the built distribution by that insertion |
| `Analysis.ColumnCount` | lib/analysis/analysis.go:144-147 | the number of columns is the entries divided by the grouping factor, rounded up |
| `Analysis.GroupingFactor` | lib/analysis/analysis.go:234-237 | the grouping factor is the entries divided by 50, rounded up, and 0 for an empty distribution |
| `Analysis.PrintPanicsWhenEmpty` | lib/analysis/analysis.go:144 | the column count divides by zero exactly for an empty distribution (finding 5) |
| `Analysis.SafeGroupingFactor` | lib/analysis/analysis.go:234-237 | the corrected grouping factor is at least one |
| `Analysis.ColumnsFit` | lib/analysis/analysis.go:144-147 | grouped by the corrected factor, every distribution fits in at most 50 columns that cover all its entries, none of them empty |
| `Analysis.GroupedTotal` | lib/analysis/analysis.go:151-156 | grouping keeps the total count |
| `Analysis.GroupedLength` | lib/analysis/analysis.go:144-148 | the grouping has as many columns as needed to cover the entries, and no more |
| `Analysis.GroupedColumns` | lib/analysis/analysis.go:144-148 | the grouping has the preallocated number of columns |
| `Analysis.GroupedColumn` | lib/analysis/analysis.go:152-154 | column `i` sums the entries from `i` times the factor, up to the factor's count or the end |
| `Analysis.GroupedCount` | lib/analysis/analysis.go:144-147 | the number of groups is the division rounded up as the source writes it |
| `Analysis.AddColumn` | lib/analysis/analysis.go:152-155 | the inner loop sums one column and extends the running total over it |
| `Analysis.GroupCounts` | lib/analysis/analysis.go:140-156 | the loops compute the column sums and the total count of the distribution |
| `Analysis.GroupDistribution` | lib/analysis/analysis.go:231-239 | with the empty case corrected, the distribution is grouped into at most 50 columns that keep its total |
| `Analysis.Row` | lib/analysis/analysis.go:194-200 | a row has one character per chart line |
| `Analysis.RotateDistributionLines` | lib/analysis/analysis.go:191-203 | the loops compute the rotated rows |
| `Analysis.RotatedShape` | lib/analysis/analysis.go:191-203 | the rotation has one more row than the display height, each as wide as there are lines |
| `Analysis.RotationKeepsLines` | lib/analysis/analysis.go:191-203 | read bottom-up, a column of the rotation is its line padded with spaces to the display height plus one |
| `Analysis.RotationCutsLongLines` | lib/analysis/analysis.go:191-203 | read bottom-up, a column of the rotation is its line cut to the display height plus one |

## Left out

- Code driven by the Go toolchain is not part of this model: running `go list` and `go mod graph`, decoding their JSON, reading `go.mod` files and querying the module proxy. The graphs it builds are the inputs of the model.
- The DOT printers, node sizing with floating-point logarithms and node colours are not part of this model.
- File creation, `exec.Command`, logging, the command-line interface and the test harnesses are not part of this model. Log messages that accompany errors or deletions are not modelled.
- Reveal's scanning of `go.mod` files with regular expressions is not part of this model. `Reveal.FindReplacementsFrom` takes each module's declared replacements, in graph order, as its input.
- Version comparisons (`semver.GT`, `moduleMoreRecentThan`) and `doublestar.Match` are uninterpreted function parameters.
- `TargetModules.MatchesFilter`: `semver.MustParse` panics on a version that is not valid semantic versioning (internal/depgraph/filters/target_modules.go:93-94, lib/depgraph/filters/target_dependency.go:100-101). The model passes the trimmed versions to the comparison parameter whatever they are, so that panic is not modelled.
- Query text is a sequence of runes. Go's `ReadRune` turns each byte of invalid UTF-8 into U+FFFD and advances one byte, but the model's byte offsets (`QueryTokenizer.Offset`) assume well-formed UTF-8. Positions reported for invalid UTF-8 are not modelled.
- `QueryEval.Shared`: Go seeds the worklist by ranging over the set, a Go map whose iteration order varies from run to run. The model seeds it in level order. `QueryEval.SharedLaws` holds for that order, and the claim that every seeding order gives the same result is not proved.
- `LegacyGraph`: an edge is identified by its (begin, end) pair. Go can hold two edge objects with the same two ends. `removeEdge` drops both, as the model does, but `markAsOffending` marks only the object it is given, while the model marks the pair. Parallel edges collapse in the model.
- Letters and digits: `unicode.IsLetter` and `unicode.IsNumber` are exact for ASCII and Latin-1. Other runes count as neither, which affects cluster hashes of non-Latin names.
- Case mapping: `strings.ToLower`, `unicode.ToUpper` and `unicode.ToLower` map ASCII letters only. Other runes are left unchanged.
- `Clustering.Width`: the floating-point square root of `getWidth` is modelled by the integer square root `Clustering.ISqrt`. They agree on every size a cluster can reach, but the equality is not proved.
- `Clustering.GraphClusters.ClusterDepthMap`: the depth-first search of `computeClusterDepthMap`, with its cycle counter, is a function parameter. Only the caching is modelled.
- The internal and lib clustering files share one model. The generation selects whether the node's name is tagged as a prefix (internal) or a suffix (lib) of the cluster hash.
- The package-level cluster counter is the class `Clustering.ClusterIds`, passed to the members that number clusters.
- `GraphNode.NodeRefs.List` and `LibContainers.Edges.List`: both sort their backing slice in place. The model returns the sorted list and leaves the stored order alone. Names are unique within a list, so only the list's own order is affected. `List` is called on children, predecessor and successor sets, which are read only through `List` or by hash. The one direct read of a stored order is `GetLevel`, which ranges over `members.nodeList` (internal/graph/graph.go:212), and nothing calls `List` on the members, so the level order the model gives is the one Go sees.
- `Graph.AddNode`: the parent passed to `AddNode` is taken to be the graph's member under that hash. Go adds the child to the object it was given, and a stale copy of the parent with the same hash is not modelled.
- The `nil` graph and `nil` node errors (`ErrNilGraph`, `ErrNilNode`) are not modelled: Dafny values are never null.
- `NodeRefs.Wipe`, called by `DeleteNode`, is not defined in the modelled source. It is modelled as removing the hash whatever its weight.
- `LegacyGraph.DepGraph.MarkAsOffending` requires every predecessor named by a node to be in the graph, which the source's callers ensure. It does not require the full mirrored-edge invariant.
- `LegacyGraph.DepGraph.DeepCopy` is proved to build a copy with the same nodes and edges. The order of the copied edge lists follows the source, but it is stated only as membership.
- `LibGraph.DepGraph.RemoveDependency`, `LibGraph.DepGraph.DeepCopy` and `LibGraph.DepGraph.DependencyNames`: the lib filters call a graph API whose source is not part of this model. These members model it by the contracts the filters rely on.
- `Reveal.Print` requires the offender and target arrays to be two different arrays, because it sorts both in place.
- `CompletionGen.GetFilename`: `filepath.Join` also cleans the output directory (it collapses `//`, `.` and `..`). The model only joins with one separator.
- Reading and writing files in `processFile` are modelled as the input `raw` (absent when reading fails) and the outcome `CompletionGen.Outcome`. A failure to write is not modelled.
- `Analysis.RotateDistributionLines`: Go indexes the chart lines by byte. The lines are made of ASCII characters, so the model indexes them by rune.
- The floating-point percentages, `distributionToLines`, `annotateDistributionPrintout`, means and `Analyse` itself, which reads the clock, are not part of this model.
- `Analysis.AgeDistribution.Insert` requires a non-negative index. Ages are never negative in the source.
- `Analysis.GroupCounts` keeps a running start index instead of computing `i * groupingFactor`. `Analysis.ColumnStartProduct` proves the two equal.

## Findings

| source | as written | input that shows it | evidently intended | confidence | as-written member | corrected member |
|---|---|---|---|---|---|---|
| internal/query/tokenizer.go:97-127 | a bare `=` is read as a word of no runes, returned as an empty string token, and nothing is consumed | the query `=` | report an error and move past the rune, so that `Parse` does not loop forever | not executed | `QueryTokenizer.BareEqualsStalls` | `QueryTokenizer.NextSpec` |
| internal/query/parser.go:316-322 | an unclosed parenthesis reads `stream[len(stream)]` for the error position | the query `(` | report `ErrEmptyParenthesis` at the last token | not executed | `QueryParserLaws.OpenParenPanics` | `QueryParserLaws.ParseClampedNeverPanics` |
| internal/depgraph/query.go:316-327 | `shared` queues the first predecessor of a removed node even when that predecessor is not in the set | `shared({t, w})` on the cyclic graph of `QueryEval.CycleView` | queue only predecessors that are in the set | not executed | `QueryEval.SharedAsWrittenLoops` | `QueryEval.SharedCorrectedStops` |
| internal/graph/graph.go:112-125 | `DeleteNode` returns `ErrNodeNotFound` once its cascade has removed the parent it goes on to delete | deleting C on the chain A <- B <- C | stop after the recursive call and succeed | not executed | `GraphLaws.ChainDeleteAsWritten` | `GraphLaws.ChainDelete` |
| lib/analysis/analysis.go:144 | the grouping factor of an empty distribution is 0 and the column count divides by it | an analysis with no dated dependency | use a grouping factor of one and print no column | not executed | `Analysis.PrintPanicsWhenEmpty` | `Analysis.ColumnsFit` |
| internal/depgraph/filters/target_modules.go:76-86 | the walk up from a target stops at every module already kept for an earlier target | targets `a` at v1.0 then `c`, on the chain `b -> a -> d -> c`, where `b` is at v0.9 | keep every module on a chain to any target, each walk stopping only at its own target, as it does for a single target | not executed | `TargetModules.SkippedChainAsWritten` | `TargetModules.SkippedChainKept` |
| lib/depgraph/filter.go:81-90 | the same walk in the lib filter stops at dependencies already kept | the same chain and targets | keep every dependency on a chain to any target, each walk stopping only at its own target, as it does for a single target | not executed | `LibFilters.SkippedChainAsWritten` | `LibFilters.SkippedChainKept` |
| lib/depgraph/filter.go:59-62 | a filter naming a dependency that is not in the graph returns `nil`, which discards what earlier filters kept | a known target followed by an unknown one | ignore the unknown target | not executed | `LibFilters.UnknownTargetAsWritten` | `LibFilters.UnknownTargetIgnored` |
