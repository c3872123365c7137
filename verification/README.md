# Piconaut: routing, JSON building and request plumbing, verified

Piconaut is a small C++ web framework. This project models its stateful core in Dafny and proves
what that core keeps over every run.

* **Routing** (`StringUtils`, `RoutePattern`, `RouteLog`, `TrieViews`, `Routers`). The route trie
  is a graph of heap nodes with child maps, grown in place by `AddRoute` and walked by
  `MatchRoute`. Next to it stands a ghost log of the accepted routes. The class invariant says that
  the nodes are exactly the prefixes of logged shapes, that a node's key and handler come from the
  last route of its own shape, and that its parameter name comes from the last route through it.
* **What the walk finds** (`RouteMatching`, `Bindings`, `Templates`, `RouteOrder`). Laws of the
  greedy walk over the log: soundness, priority of static segments, its end and its parameters in
  closed form, the exact condition under which no route is hidden, the exact conditions under which
  simple string expansion (section 3.2.2 of RFC 6570) reaches the template's node and is bound
  exactly there, and the exact condition under which registration order is irrelevant.
  `Routers.Router.LawsHold` and `NodeIsReached` carry them over to the heap trie, and `SpelledOut`
  states what the patterns accept and match in characters and texts alone.
* **Dispatching** (`Dispatchers`). The second index `routes_` and how it combines with the trie.
* **JSON builder** (`Json`, `JsonRuns`, `JsonHeads`, `ValueBuilders`). The builder is a cursor over
  heap cells. Adding a member moves all members of that one object to new cells and kills the old
  ones, so that a dangling pointer would show. Every run of statements is the fold of nested
  updates of a document value, and the laws of that fold are proved separately.
* **Middleware chain and query strings** (`Middlewares`, `QueryStrings`).

Four claims of the code turn out to hold only under a condition; the code is kept as it is, and
the condition is proved to be exact.

* A comment in the dispatcher says that a match needs no check before `routes_.at`. A request that
  stops at a node which ends no route throws instead (`PrefixRequestThrows`); this never happens
  exactly when every such prefix is registered too (`NeverThrows`).
* The router never goes back to a parameter child once it took a static one, so it can miss a
  registered route that fits: with `/a/b` and `/{x}/c`, it misses `/a/c` (`HiddenRouteIsMissed`).
  No route is missed exactly under the condition of `GreedyIsExhaustive`.
* The router's comment claims conformance to RFC 6570. Already simple string expansion fails for a
  variable that is part of a segment, as in `/x{a}`, which is accepted and read as a literal
  (`PartialVariableIsMissed`). `ExpansionReaches` says exactly which expansions reach the
  template's node, `MatchUndoesExpand` and `BindingIsExact` which are bound exactly.
* A query parameter is found by the first place where its name occurs as text, be it inside
  another key or value (`EarlierKeyAnswers`, `InvertsPrinting`).

How the models are to be read:

* The first part of an accepted path is empty, and the code takes the first character of that
  empty string; the model treats the empty part as static.
* Exceptions are results: `AddRoute` and `RegisterRouteHandler` return whether they accepted the
  path, and `HandleImpl` returns an outcome that names the exception.
* `std::hash` is a function given to the dispatcher. A `std::function` and a handler pointer are
  either empty or an identity.
* A default-constructed `std::regex` matches nothing. The two fixed patterns are character-class
  predicates, each proved equal to the characters written out; the path pattern is also proved equal
  to its grammar.
* Keys and strings of the builder go through `c_str()`, so they end at the first NUL.
* The byte behind a query string is taken to be no `=`.
* `AssignNumber` stands for the four numeric assignments, which differ only in the number they
  store; `AssignString` stands for both string assignments.

## Model

| member | source | states |
|---|---|---|
| StringUtils.SplitString | src/piconaut/utils/string_utils.h:13-27 | the loop over `find` returns the tokens of the string |
| StringUtils.SplitStringEach | src/piconaut/utils/string_utils.h:29-42 | the callback receives exactly the tokens that `SplitString` returns, in the same order; `AddRoute` collects them cleaned |
| StringUtils.JoinSplit | src/piconaut/utils/string_utils.h:13-27 | joining the tokens of any string with the delimiter gives the string back |
| StringUtils.SplitJoin | src/piconaut/utils/string_utils.h:13-27 | splitting the join of any nonempty list of delimiter-free tokens gives the list back |
| StringUtils.RemoveSpacesUnchanged | src/piconaut/utils/string_utils.h:50-52 | cleaning leaves a string as it is exactly when it has none of the six characters of `isspace` |
| StringUtils.RemoveSpacesKeeps | src/piconaut/utils/string_utils.h:50-52 | each character that is no space stays, in order, and nothing else does |
| RoutePattern.RegexIsGrammar | src/piconaut/routers/router.cc:90-94 | the regular expression accepts exactly the zero or more groups of a slash and a nonempty allowed segment |
| RoutePattern.IsValidRoute | src/piconaut/routers/router.cc:89-118 | a path is accepted iff it fits the grammar, its braces alternate over the whole path starting with an opening one and ending with a closing one, and no closing brace touches an opening one |
| SpelledOut.ValidRouteExactly | src/piconaut/routers/router.cc:89-118 | the accepted paths, written out: the listed characters, a slash in front, none at the end, no two in a row, and texts with variables in braces between them, none inside another and no two touching |
| SpelledOut.OneCharacterRoute | src/piconaut/routers/router.cc:90-94 | a path of a slash and one character is accepted exactly when the character is a listed one and no brace |
| SpelledOut.TouchingIsRefused | src/piconaut/routers/router.cc:109-113 | a path with `}{` in it is refused |
| RoutePattern.ValidRouteParts | src/piconaut/routers/router.cc:14-24 | an accepted path splits into one empty part and then good segments, and cleaning changes none of them |
| Routers.Router.AddRoute | src/piconaut/routers/router.cc:8-51 | a rejected path changes nothing; an accepted one appends one route to the log, with which every node then agrees |
| Routers.Router.AddParts | src/piconaut/routers/router.cc:26-47 | the insertion loop makes and labels exactly the nodes on the route's way and keeps all others |
| Routers.Router.MatchRoute | src/piconaut/routers/router.cc:60-87 | the walk over the trie ends like the greedy search over the log: same failure, node, key, handler and parameters, kept also on failure |
| SpelledOut.ParamTextExactly | src/piconaut/routers/router.cc:42 | a parameter takes exactly the nonempty texts of the listed letters, digits, `_` and `-` |
| SpelledOut.ParamPartExactly | src/piconaut/routers/router.cc:31-41 | a part is a parameter exactly when it is a name in braces; its key is `{}` and its name what the braces hold |
| SpelledOut.OneRoute | src/piconaut/routers/router.cc:26-87 | with one route alone, a request ends at a node exactly when its parts fit as many parts of the template, with the names bound as written, and is answered exactly when those are all |
| SpelledOut.UsersRoute | src/piconaut/routers/router.cc:60-87 | with `/users/{id}` alone, the request for any user binds `id` to a nonempty text of word characters, `_` and `-`, and anything else is missed |
| TrieViews.AddedAgrees | src/piconaut/routers/router.cc:26-50 | the nodes that an insertion touches turn a trie that agrees with a log into one that agrees with the longer log, with names from the last route through and keys from the last route at a node |
| RouteMatching.TrieShape | src/piconaut/routers/router.cc:28-50 | in every reachable trie the empty key occurs only directly below the root, and every leaf below the root ends a route |
| RouteMatching.ReachedPath | src/piconaut/routers/router.cc:67-83 | a path that reaches a node has nothing before its first slash, no empty later part and no part `{}` |
| RouteMatching.GreedyFits | src/piconaut/routers/router.cc:67-86 | a walk that ends does so at an existing node whose shape fits the path segment by segment |
| RouteMatching.GreedyIsMostStatic | src/piconaut/routers/router.cc:67-86 | no node whose shape fits the path is more static, lexicographically, than the one reached |
| RouteMatching.ServedShape | src/piconaut/routers/router.cc:60-87 | a handler-carrying match is a registered shape that fits the path and the most static of all that fit |
| RouteMatching.GreedyIsExhaustive | src/piconaut/routers/router.cc:67-86 | every path that some registered shape fits is served, exactly when whatever is registered below a parameter child is covered below each static sibling that could hide it |
| RouteMatching.HiddenRouteIsMissed | src/piconaut/routers/router.cc:67-86 | with the routes `/a/b` and `/{x}/c`, both accepted, the request `/a/c` fits the second and is not served, so the condition of `GreedyIsExhaustive` fails |
| RouteMatching.PathToNode | src/piconaut/routers/router.cc:67-86 | every node below the root is where the walk of some request ends |
| RouteOrder.OrderIsIrrelevant | src/piconaut/routers/router.cc:26-50 | every order of the same routes gives the same key, handler and parameters for every path, exactly when routes of one shape agree on key and handler and routes through one parameter node agree on its name |
| Routers.Router.LawsHold | src/piconaut/routers/router.cc:8-87 | every reachable router serves each request that some registered shape fits exactly when no route is hidden, and answers alike for every order of its routes exactly when they agree on keys, handlers and names |
| Routers.Router.NodeIsReached | src/piconaut/routers/router.cc:8-87 | each node below the root of a reachable router is where the walk of some request ends |
| Bindings.WalkInClosedForm | src/piconaut/routers/router.cc:67-83 | every walk passes some shape that nothing hides, holds what that shape, with the names that the latest routes give it, binds to the parts passed, and has either used all parts or is stuck at the next one |
| Bindings.HitBinds | src/piconaut/routers/router.cc:67-86 | a walk that ends at a node has bound the node's own names, as the latest routes spell them, to the parts of the path |
| Templates.SplitExpansion | src/piconaut/routers/router.cc:63-64 | the simple string expansion of a template whose variables span no slash splits into the expansions of its segments |
| Templates.ExpansionReaches | src/piconaut/routers/router.cc:28-83 | the expansion of a registered template reaches its node exactly when each segment with variables is read as one parameter, its text passes the parameter pattern, and no such text names a static sibling |
| Templates.PartialVariableIsMissed | src/piconaut/routers/router.h:31-33 | the template `/x{a}` is accepted, but no expansion of it reaches its node |
| Bindings.GreedyReaches | src/piconaut/routers/router.cc:67-83 | among the nodes whose shape fits, the walk ends at a given one exactly when no static node hides a parameter on the way |
| Templates.MatchUndoesExpand | src/piconaut/routers/router.cc:28-83 | where the routes agree on names and the expansion reaches the template's node, the walk binds exactly the variables to their values, if and only if every parameter of the template is one whole variable |
| Templates.BindingIsExact | src/piconaut/routers/router.cc:28-83 | for a template of whole variables with distinct names, every expansion that reaches the node is bound exactly if and only if the routes spell the way there with the template's own names |
| Bindings.AgreementGivesNames | src/piconaut/routers/router.cc:40-43 | when routes through one parameter node agree on its name, every registered template finds its own names in the trie |
| Templates.ExpandUndoesMatch | src/piconaut/routers/router.cc:67-83 | expanding a template with the bindings of a matched path gives the path back exactly when parts of one name hold one text |
| Dispatchers.GlobalDispatcherHandler.RegisterRouteHandler | src/piconaut/handlers/global_dispatcher_handler.h:17-23 | a registration extends both indexes in step, and a rejected path changes neither |
| Dispatchers.GlobalDispatcherHandler.Emplace | src/piconaut/handlers/global_dispatcher_handler.h:22 | an entry of `routes_` that is already there stays |
| Dispatchers.GlobalDispatcherHandler.HandleImpl | src/piconaut/handlers/global_dispatcher_handler.h:29-47 | a request ends as the registrations determine: not found, one of two exceptions, or a handler and its parameters |
| Dispatchers.OutcomeExactly | src/piconaut/handlers/global_dispatcher_handler.h:29-47 | 404 exactly when the walk fails, a handler exactly when it ends at a node that ends a route; at any other node the two exceptions, told apart by whether some registered path has the hash 0 |
| Dispatchers.FirstOfHashRuns | src/piconaut/handlers/global_dispatcher_handler.h:39-46 | with collisions too, the first registration whose hash is the key of the matched node runs, with the parameters of the walk |
| Dispatchers.IndexesAgree | src/piconaut/handlers/global_dispatcher_handler.h:17-46 | `routes_` has exactly the hashes of the registered paths, each entry has its own key, and the key of each handler-carrying node is in it |
| Dispatchers.LatestPathFirstHandler | src/piconaut/handlers/global_dispatcher_handler.h:17-47 | without collisions, the handler that runs is the first one registered under the latest registered path of the matched shape |
| Dispatchers.ReRegistration | src/piconaut/handlers/global_dispatcher_handler.h:21-22 | a new registration takes effect exactly when its path is new or was first registered with the same handler |
| Dispatchers.ThrowsExactly | src/piconaut/handlers/global_dispatcher_handler.h:39-46 | a request throws exactly when its walk ends at a node that ends no route |
| Dispatchers.NeverThrows | src/piconaut/handlers/global_dispatcher_handler.h:39-46 | no request of at least n parts throws, exactly when every trie node that deep ends a route |
| Dispatchers.PrefixRequestThrows | src/piconaut/handlers/global_dispatcher_handler.h:39-46 | with `/a/b` as the only route, the request `/a` throws |
| ValueBuilders.Cell.AddMember | src/piconaut/formats/json/value_builder.cc:76-81 | adding a member moves all members of the object to live new cells with the old contents and adds a null member |
| ValueBuilders.ValueBuilder.constructor | src/piconaut/formats/json/value_builder.cc:5-11 | a new builder is at rest and holds the empty object |
| ValueBuilders.ValueBuilder.Copy | src/piconaut/formats/json/value_builder.cc:13-20 | a copy holds the same document in cells of its own |
| ValueBuilders.CopyFrom | src/piconaut/formats/json/value_builder.cc:19 | the deep copy has one new cell for each cell at or below its source, with the same contents and links |
| ValueBuilders.CopyIsIndependent | src/piconaut/formats/json/value_builder.cc:13-20 | after a copy, a run on the original and a run on the copy do not see each other |
| ValueBuilders.ValueBuilder.GetNodeValue | src/piconaut/formats/json/value_builder.cc:24-30 | the top of the stack, or the document, is the live cell at the path reached so far |
| ValueBuilders.ValueBuilder.Index | src/piconaut/formats/json/value_builder.cc:65-89 | descending keeps every stack entry and the cursor on live cells that spell the path; a missing member is added as a null and remembered as new |
| ValueBuilders.ValueBuilder.AssignString | src/piconaut/formats/json/value_builder.cc:108-127 | sets the value of a new or string member to the text up to its first NUL, keeps any other, and clears the stack |
| ValueBuilders.ValueBuilder.AssignNumber | src/piconaut/formats/json/value_builder.cc:129-211 | sets the value of a new or number member, keeps any other, and clears the stack |
| ValueBuilders.ValueBuilder.AssignBool | src/piconaut/formats/json/value_builder.cc:213-232 | sets the value of a new or boolean member, keeps any other, and clears the stack |
| ValueBuilders.ValueBuilder.CreateJsonObject | src/piconaut/formats/json/value_builder.cc:93-106 | makes a new member an object, keeps any other with all its members, and clears the stack |
| ValueBuilders.Execute | src/piconaut/formats/json/value_builder.cc:65-252 | a whole statement is one nested update that never changes the kind of an existing value |
| ValueBuilders.RunStatements | src/piconaut/formats/json/value_builder.cc:65-252 | a disciplined run of statements is the fold of their nested updates and leaves the builder at rest |
| ValueBuilders.Document | src/piconaut/formats/json/value_builder.cc:254-266 | the walk over the cells that serialisation starts sees exactly the document |
| Json.LookupReplace | src/piconaut/formats/json/value_builder.cc:65-89 | a nested update shows its value at its path, keeps everything beside it, and updates the objects on the way |
| Json.CStrWhole | src/piconaut/formats/json/value_builder.cc:120 | what is stored of a text is all that precedes its first NUL; it is whole exactly without one |
| Json.CStatementWhole | src/piconaut/formats/json/value_builder.cc:65-127 | a statement whose keys and text have no NUL reaches the document as it is |
| JsonRuns.StatementIsLocal | src/piconaut/formats/json/value_builder.cc:65-127 | a statement changes the value at its own path, at most adds its key to the end of its parent's, and changes nothing else |
| JsonRuns.PutExactly | src/piconaut/formats/json/value_builder.cc:93-252 | the outcome of a statement for each value that was there and each write: a text over a text, a number over a number, a boolean over a boolean; any other write on an existing value leaves the document as it is |
| JsonRuns.RunKeepsKind | src/piconaut/formats/json/value_builder.cc:93-252 | whatever a run does, a text stays a text, a number a number, a boolean a boolean and an object an object |
| JsonRuns.UnchangedExactly | src/piconaut/formats/json/value_builder.cc:93-252 | a statement leaves the document as it is exactly when its member exists and the write is refused or repeats the value |
| JsonRuns.RunValue | src/piconaut/formats/json/value_builder.cc:93-252 | after a run, the value at a path is the last write there whose kind is that of the first |
| JsonRuns.RunKeys | src/piconaut/formats/json/value_builder.cc:76-85 | after a run, the keys of each object are those mentioned below its path, in order of first mention |
| JsonRuns.MentionsAreDistinct | src/piconaut/formats/json/value_builder.cc:77-85 | no object has a key twice |
| JsonRuns.RunLeavesNoNull | src/piconaut/formats/json/value_builder.cc:76-81 | between the statements of a run no null remains |
| JsonRuns.StatementsCommute | src/piconaut/formats/json/value_builder.cc:65-127 | statements at paths that do not extend each other commute up to member order, and exactly unless both add a member to one object |
| Middlewares.MiddlewareManager.Add | src/piconaut/middleware/middleware_manager.cc:5-8 | the new middleware is last |
| Middlewares.MiddlewareManager.Handle | src/piconaut/middleware/middleware_manager.cc:10-17 | handling terminates with the trace of the chain started at 0 |
| Middlewares.ExecutedIsNested | src/piconaut/middleware/middleware_manager.cc:11-15 | whatever the middlewares do, the trace is well bracketed and each entry is one level below its caller |
| Middlewares.HandleEntries | src/piconaut/middleware/middleware_manager.cc:10-17 | middleware k is entered as often as the product of the counts of the ones before it |
| Middlewares.AtMostOnce | src/piconaut/middleware/middleware_manager.cc:10-17 | if none calls `next` twice, the entries are a prefix of the chain and the exits their reverse, and the chain stops early only behind one that did not call it |
| QueryStrings.GetQueryString | src/piconaut/http/request.cc:46-73 | the text from behind the first mention of the name and its `=` up to the next `&`; the empty string without a query, a mention or an `=` |
| QueryStrings.OccursExactly | src/piconaut/http/request.cc:54-56 | a name is found exactly when the text is something, the name, and something |
| QueryStrings.AnswersPrinted | src/piconaut/http/request.cc:54-72 | on any printed query the answer is the value of the answering pair: the first pair that mentions the name, if its key ends with the first mention |
| QueryStrings.AnswersExactly | src/piconaut/http/request.cc:54-72 | a pair answers for a name exactly when its key ends with the first mention in it and no earlier pair mentions the name |
| QueryStrings.EndsKeyExactly | src/piconaut/http/request.cc:54-63 | the first mention ends a key exactly when the key is some text and the name, and no shorter text does |
| QueryStrings.InvertsPrinting | src/piconaut/http/request.cc:54-72 | the pair that answers for a key is its own exactly when no earlier key or value has the key as a part, and then its value is the answer |
| QueryStrings.EarlierKeyAnswers | src/piconaut/http/request.cc:54-63 | asking `xid=1&id=2` for `id` gives 1 |

## Left out

- Sockets, event loops, signal handling, logging, responses, headers, configuration and the CSRF token: input and output around libraries, or plain accessors.
- Concurrency between `AddRoute` and the lock-free `MatchRoute`: the shared map has no sequential meaning in the source; each call is one atomic step here.
- Routes added through the router that the dispatcher exposes: they bypass `routes_`, so the dispatcher's invariant is about registrations made through it.
- `PrintRouterTree` and `PrintNode`: printing.
- `ValueBuilder::operator=(const ValueBuilder&)` and an assignment with no `[]` in front of it: they act on a stale cursor, outside the statement discipline.
- The value that `current_type_` keeps after a statement: the next `[]` overwrites it.
- A `[]` on a value that is no object: RapidJSON's assertion stops the program there, so `Index` requires an object.
- JSON text, allocators and the rounding of floating-point numbers: RapidJSON's part; the model stops at the document tree.
- `formats/json/value.cc`: a flat wrapper with single-branch claims.
- SplitExpansion: is about simple string expansion; the operators, lists and modifiers of RFC 6570 are not modelled, and the router reads them as part of a name.
- Document: ends at the document tree, since the text is written by RapidJSON.
