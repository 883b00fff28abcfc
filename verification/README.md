# A verified model of the Silent routing engine

This project models, in Dafny, how the Silent web framework builds a tree of routes, compiles it, resolves a
request path in it and runs the handler inside its middlewares, and proves that the fast forms the framework uses
agree with the simple things they stand for. Beside the router it covers the OpenAPI path collector, the task
scheduler and the body state machines.

* **Building.** `Routes` says what merging two routes computes, `RouteTables` reads a route as a table from segments
  and method to handler, `Builder` models `Route::new` and the calls that have to find the tail of its chain again.
  `BuilderCalls` says what whole sequences of calls leave.
  `RouteNodes` is the same builder as it runs: nodes with mutable fields, merged in place, each method proved
  against the value functions. A getter that hands out a mutable reference to a nested node is a method that walks
  down and acts there.
* **Compiling.** `Compiling` turns a route into an indexed tree whose nodes store the whole middleware chain;
  `BuiltRoutes` holds what constructors and merging guarantee; `Freezing` is the shared self-copy of every node.
* **Resolving.** `Slices` and `Segments` cut and match one segment, with the addresses that captured ranges are
  computed from; `Utf8` is well-formedness of UTF-8 (section 4 of RFC 3629). `RouteTrees` states resolution as a
  full backtracking search and characterises it by traces; `Resolver` is the look-ahead over the hash index.
* **Serving.** `Serving` states what a request does along a trace; `Dispatcher` is the descent as it runs, with a
  mutable request, a chain of `Next` and a commitment to the first child that resolves; `Onion` proves what is
  logged and what the handler sees; `RouteCalls` is a route used as a handler; `Tables` is the end-to-end theorem for
  static routes and `SingleRoutes` the one for routes that end in a full path or a typed parameter;
  `Reordering` shows that the order of static siblings does not matter; `LostRequests` says which requests the
  commitment loses; `ReadingBack` is what a handler reads from its parameters; `Witnesses` holds two surprising requests.
* **Elsewhere.** `States` (typed state container), `PathFormat`, `PathCollector` and `CollectedNodes` (OpenAPI),
  `Scheduling`, `Bodies`.

Conventions: a string holds one byte of the UTF-8 text per character. Handlers, middlewares, types and values are
identifiers. Number and UUID parsing, cron schedules and the decision of a middleware to answer by itself are
arbitrary functions passed as parameters. Wherever Silent iterates over a hash map, the model picks entries in
an arbitrary order, so a proved result does not depend on that order.

Where code and documentation differ, the code is followed: `path_can_resolve` looks at structure only, so a
committed node without a handler still answers NotFound (`LostRequests.LostIff`, with an input in `Witnesses.HiddenRoute`
and a condition on the tree under which it cannot happen in `LostRequests.NothingIsLost`);
`remove_task_sub` keeps the tasks its name says it removes; `FullPath` captures the whole remainder but lets its
children continue after one segment.

Some promises turned out false of the code, each with a concrete input and the exact condition:

* Reading back a `Path` capture (`Segments.PathCaptureReadsBack`, `Witnesses.PathCaptureCanFail`). Behind a trailing
  slash the router captures the literal `""` instead of a piece of the path, so whether reading works depends on where
  that literal is stored in memory relative to the path.
* Extending a route made from a pattern with an empty segment (`Builder.ExtendNewIff`,
  `Builder.DoubledAndTrailingSlashFail`).
* A one-shot task firing at most once (`Scheduling.FiresTwiceIff`, `Scheduling.OneShotCanFireTwice`): it holds exactly
  for a task that is due when it is added.
* The size limit of a request body (`Bodies.LimitHoldsIff`), once its counter wraps.
* A request body that says it has ended yields no further frame (`Bodies.ReqEndStreamIff`): an empty `Once` does,
  an empty one.
* An OpenAPI path has every parameter in braces (`PathFormat.ConvertOfPieces`, `PathFormat.UntypedStopsTheLoop`):
  `<name>`, a string parameter to the router, is not rewritten and stops the loop, so that typed parameters behind it
  are left as well unless the same one also stands before it.

Small facts the theorems rest on are left out of the table below, among them `Slices.StaticMatchIsCut`,
`Segments.OffsetIsRemainder`, `Segments.BindAfterMatch`, `Segments.PlainPattern`, `SingleRoutes.RootChildStep`,
`States.OverlayLookup`, `Compiling.IndexPartitionsChildren` and
`PathCollector.TagsGrow`.

## Model

| member | source | states |
|---|---|---|
| RouteTrees.SearchIsLeast | silent/src/route/route_tree.rs:345-423 | The node found is the end of the lexicographically least accepting trace (static child, then the others in order, stopping last), and one is found whenever any trace accepts, for every tree and path |
| RouteTrees.SearchAccepts | silent/src/route/route_tree.rs:398-423 | What is found does consume the path: every hop matches and the last node may stop |
| RouteTrees.BeforeIsStrict | silent/src/route/route_tree.rs:358-364 | The order on traces is strict, so "least" names one trace |
| Serving.LeafServes | silent/src/route/route_tree.rs:382-395 | At any offset a node without children answers if and only if it has a handler and either nothing is left of the path or it takes a full path; otherwise NotFound |
| Serving.StopsHere | silent/src/route/route_tree.rs:382-395 | The same for any node none of whose children takes the request |
| SingleRoutes.FullPathServes | silent/src/route/route_tree.rs:391-393 | A request for `/s1/../sn/tail` to `s1/../sn/<key:**>` is served by its handler, and `key` reads back `tail`, for every tail |
| SingleRoutes.FullPathTakesSegments | silent/src/route/route_tree.rs:252-259 | In segments: `key` reads back `x1/../xm`, for every `m` above 0 |
| SingleRoutes.TypedServes | silent/src/route/route_tree.rs:195-244 | A request for `/s1/../sn/x` to `s1/../sn/<key:type>` is served if and only if the parser of the type reads `x`, and the handler finds what was read under `key`, as a value of that type |
| SingleRoutes.EmptyGroup | silent/src/route/route_tree.rs:172-180 | Routes grouped once more under an empty path answer every request as they do ungrouped |
| Segments.TypedStep | silent/src/route/route_tree.rs:195-244 | Each typed segment matches exactly when the next segment is not empty and its own parser reads it, captures what was read and consumes that segment |
| RouteTrees.WalkCutsAfterSlashes | silent/src/route/route_tree.rs:345-371 | Along every trace offsets never decrease and always stand after a slash, at the start or at the end, so slicing a well-formed UTF-8 path there is on a character boundary |
| RouteTrees.PiecesRebuild | silent/src/route/route_tree.rs:366-371 | What the steps of a trace matched (stored texts, parsed texts, captured texts), with the slashes dropped before and after each, rebuilds exactly the part of the path that was consumed |
| Segments.HopConsumesPiece | silent/src/route/route_tree.rs:171-261 | The same for one step: the consumed text is the matched text between at most one slash on either side |
| Resolver.PathCanResolve | silent/src/route/route_tree.rs:398-423 | The look-ahead over the index, with hash order arbitrary, answers exactly whether the full search succeeds |
| Resolver.CandidateIndices | silent/src/route/route_tree.rs:354-364 | The indexed candidates give the same first resolving child as scanning all children, static ones first |
| Resolver.IndexAgreesInside | silent/src/route/route_tree.rs:358-364 | Asking the index for the next segment refines the linear scan |
| Resolver.IndexAgreesAtEnd | silent/src/route/route_tree.rs:355-357 | On an empty remainder no static child can match, in whatever order the index lists them |
| Reordering.StaticOrderIrrelevant | silent/src/route/route_tree.rs:354-364 | Two built routes that differ only in the order of static siblings, at any depth, answer every request alike after compiling and freezing, events included |
| Reordering.HandleAlike | silent/src/route/route_tree.rs:427-449 | The same for any two indexed trees: children compared by segment where static and by position otherwise |
| Reordering.ServeAlike | silent/src/route/route_tree.rs:345-396 | The same at every node and offset |
| Reordering.CompileReordered | silent/src/route/route_service.rs:25-79 | Such routes compile to such trees, whatever chain they inherit |
| Reordering.SwapIsSameButOrder | silent/src/route/mod.rs:310-319 | Exchanging two static siblings is such a change of order |
| Segments.PatternRoundTrip | silent/src/route/route_tree.rs:49-87 | Parsing the documented pattern of any segment gives the segment back |
| Segments.TypedPattern | silent/src/route/handler_match.rs:16-38 | Which segment each type name in a bracketed pattern stands for, aliases included; an unknown or missing type is a string |
| Segments.StringCaptureReadsBack | silent/src/route/route_tree.rs:184-194 | A string capture reads back as a non-empty, slash-free, well-formed segment taken at the offset |
| Segments.FullCaptureReadsBack | silent/src/route/route_tree.rs:252-259 | A full-path capture reads back as the whole remainder minus one leading slash |
| Segments.PathCaptureReadsBack | silent/src/route/route_tree.rs:245-251 | A path capture reads back if and only if something is left after one slash, or the literal empty string is stored before the path or at one of its character boundaries |
| ReadingBack.ServedParamsReadBack | silent/src/route/route_tree.rs:366-380 | Every text parameter that dispatching bound for a served request reads back exactly the text its segment matched, deeper bindings winning; only the literal of a path segment behind a trailing slash may be out of reach |
| ReadingBack.CaptureReads | silent/src/core/path_param.rs:177-180 | The same for any single text capture at any offset after a slash |
| Witnesses.PathCaptureCanFail | silent/src/core/path_param.rs:177-180 | A request for `/a/` to the route `a/<rest:*>` reaches the handler with a parameter that panics when read, whenever the literal is stored after the path |
| Utf8.CutAtAscii | silent/src/route/route_tree.rs:484-496 | Cutting well-formed text at an ASCII byte leaves well-formed text on both sides |
| Utf8.WellFormedEncodes | silent/src/core/path_param.rs:177-180 | Well-formed text is the UTF-8 encoding of some scalar values |
| Utf8.EncodedIsWellFormed | silent/src/core/path_param.rs:177-180 | Every such encoding is well-formed |
| Utf8.BoundaryCuts | silent/src/core/path_param.rs:177-180 | In well-formed text the character boundaries are exactly the places that cut it into well-formed text |
| Dispatcher.CallChildren | silent/src/route/route_tree.rs:345-396 | Committing without backtracking does exactly what serving along the searched trace means, for outcome and events |
| Dispatcher.CallWithPath | silent/src/route/route_tree.rs:312-343 | State overlay, own middlewares and the shared copy of the node compose to serving that node |
| Dispatcher.CallNext | silent/src/core/next.rs:41-52 | Running a built chain nests its middlewares around the continuation |
| Dispatcher.BuildNext | silent/src/core/next.rs:19-38 | The loop over the reversed list builds the chain with the first middleware outermost |
| Dispatcher.Call | silent/src/route/route_tree.rs:427-449 | A whole request from the root, with the root's state replacing the request's |
| Dispatcher.Request.BindParams | silent/src/route/route_tree.rs:263-310 | Binding updates the request's parameters and nothing else, and reports whether the capture fitted |
| Onion.OnionTheorem | silent/src/route/route_tree.rs:312-343 | For a resolving request the log is the bracket of the terminal node's stored middlewares around its answer, post-events in exact reverse, cut at the first middleware that stops |
| Onion.UnresolvedRunsRootOnly | silent/src/route/route_tree.rs:451-452 | A path that does not resolve runs only the root's own middlewares around NotFound |
| LostRequests.LostIff | silent/src/route/route_tree.rs:422 | A request that some trace would bring to a handler is answered NotFound if and only if no middleware on the way stops it and the node committed to has no handler; that node's trace then comes before the other one |
| LostRequests.NothingIsLost | silent/src/route/route_tree.rs:366-388 | No such request is lost in a tree where each child with a handler-less node below it has no rival: no other child after it that could match too, and no handler of its parent |
| LostRequests.CommitsToHandler | silent/src/route/route_tree.rs:398-423 | In such a tree the search ends at a node with a handler whenever some accepting trace does, at every node and offset |
| LostRequests.StaticHidesNothing | silent/src/route/route_tree.rs:358-364 | A tree without parameters is such a tree, whichever of its nodes have handlers |
| Witnesses.HiddenRoute | silent/src/route/route_tree.rs:382-388 | With routes `a/b` and `<x>`, a request for `/a` is lost that way |
| Onion.WrapIsBracket | silent/src/core/next.rs:19-50 | Any chain's log in closed form, with or without a short circuit |
| Onion.StoredChainRuns | silent/src/route/route_service.rs:41-55 | What runs along a trace is the terminal node's stored chain after what the top inherited |
| Onion.HandlerSeesTrace | silent/src/route/route_tree.rs:318-320 | State and parameters at the handler are decided by the resolved trace alone, the deepest node winning, over the root's state or else the request's |
| Onion.ArrivalState | silent/src/configs/mod.rs:172-179 | The state at the end of a trace is the right-biased overlay of all its nodes' states |
| Onion.ArrivalParams | silent/src/route/route_tree.rs:366-380 | The parameters at the end of a trace are its captures, deeper ones overwriting; skipped children bind nothing |
| Freezing.FreezeErases | silent/src/route/route_tree.rs:141-165 | Freezing adds nothing but copies, at every depth, and each copy is its node |
| Freezing.FreezeIsFrozen | silent/src/route/route_tree.rs:141-165 | Every node of a frozen tree, at every depth, shares a copy of exactly itself |
| Freezing.EraseUnfrozen | silent/src/route/route_tree.rs:141-165 | Erasing the copies of a tree that has none gives the tree itself |
| Serving.EraseServe | silent/src/route/route_tree.rs:472-478 | Serving through a shared copy gives the same reply as serving the node |
| Serving.FreezeServe | silent/src/route/route_tree.rs:141-165 | A frozen tree answers every request like the tree it was made from |
| Routes.MergeFromAssociative | silent/src/route/mod.rs:321-354 | Merging three routes in either grouping gives the same tree: children order, handlers, middlewares and state |
| Routes.MergeChildAfter | silent/src/route/mod.rs:310-319 | Merging a child into a list before or after that list is merged into another makes no difference |
| Routes.MergeChildrenCommutes | silent/src/route/mod.rs:310-319 | Merging a child whose key is present commutes with merging children of other keys |
| Routes.MergeFromWellFormed | silent/src/route/mod.rs:310-354 | Merging keeps sibling keys distinct at every depth |
| Routes.MergedInOrder | silent/src/route/mod.rs:310-319 | Merged siblings keep their places and new ones follow in the order they had |
| RouteTables.MergeIsUnion | silent/src/route/mod.rs:321-337 | The merged table is the receiver's, with the other's entries where it has none, at every depth |
| RouteTables.RouteOfMerge | silent/src/route/mod.rs:310-354 | The merged node along any list of keys is the merge of what the two routes had there |
| RouteTables.MergeChildIsUnion | silent/src/route/mod.rs:310-319 | Merging a child adds its table under its own key and nowhere else |
| RouteTables.MergedNode | silent/src/route/mod.rs:321-345 | Where both have a node, middlewares are concatenated, the receiver's handlers and the other's state win |
| RouteNodes.RouteNode.MergeChild | silent/src/route/mod.rs:310-319 | The in-place merge of a child into a node computes the value-level merge and keeps ownership |
| RouteNodes.RouteNode.MergeFrom | silent/src/route/mod.rs:321-354 | The in-place merge of a whole node computes the value-level merge and keeps ownership |
| RouteNodes.RouteNode.New | silent/src/route/mod.rs:95-116 | The constructor builds the chain of the pattern |
| RouteNodes.RouteNode.ExtendAt | silent/src/route/mod.rs:122-150 | Walking to the real node and merging there changes the tree as `Builder.ExtendAt` says, or nothing where Silent panics |
| RouteNodes.RouteNode.SetHandler | silent/src/route/handler_append.rs:37-60 | Inserting into the handler map of the tail, in place |
| Builder.NewRouteIsChain | silent/src/route/mod.rs:95-116 | A pattern without empty segments behind its leading slashes becomes a chain of its segments whose paths, joined, give the trimmed pattern back |
| Builder.ExtendNewIff | silent/src/route/mod.rs:122-136 | Adding children to a fresh route works if and only if the trimmed pattern neither ends in a slash nor doubles one |
| Builder.DoubledAndTrailingSlashFail | silent/src/route/mod.rs:133 | Two concrete patterns for which it fails |
| Builder.SetHandlerNewIff | silent/src/route/handler_append.rs:37-51 | The same condition for adding a handler |
| Builder.ExtendFindsTail | silent/src/route/mod.rs:122-150 | On a well-formed chain only the children of its tail change |
| Builder.SetHandlerFindsTail | silent/src/route/handler_append.rs:37-60 | On a well-formed chain only the handlers of its tail change |
| Builder.BuilderNeverLosesTail | silent/src/route/mod.rs:117-207 | After any sequence of builder calls on a well-formed chain the tail is still found |
| Builder.AllCallsWorkIff | silent/src/route/mod.rs:117-207 | On the fresh route of any pattern, every sequence of builder calls works if and only if the trimmed pattern has no empty segment |
| BuilderCalls.CallsLeave | silent/src/route/mod.rs:151-240 | After any calls the node has the `hook_first` middlewares, last call first, then the old ones, then the `hook` middlewares in order; for each type the last value given, and for each method the last handler inserted |
| BuilderCalls.HooksAreOutermost | silent/src/route/route_tree.rs:312-343 | When such a route is dispatched, those middlewares in that order are the outermost bracket of the log, cut at the first that answers by itself |
| BuiltRoutes.ApplyKeepsBuilt | silent/src/route/mod.rs:310-319 | Builder calls keep sibling keys distinct and special marks right at every node |
| BuiltRoutes.NewRouteBuilt | silent/src/route/mod.rs:95-116 | So does the constructor, for every pattern |
| Compiling.CompileIsIndexed | silent/src/route/route_service.rs:57-65 | Every node of a compiled route is correctly indexed |
| Compiling.CompiledNode | silent/src/route/route_service.rs:25-79 | Each node keeps its route's handlers and state and stores the middlewares of all its ancestors before its own |
| Compiling.CompileInherits | silent/src/route/route_service.rs:39-55 | Children store their parent's chain in front, and know where their own begins |
| Compiling.RouteOnion | silent/src/route/route_tree.rs:312-343 | A request that resolves in a compiled, frozen route logs one bracket over the middlewares of all routes along the trace, as they were built, around the last one's handlers, cut at the first middleware that stops |
| Compiling.UnresolvedRoute | silent/src/route/route_tree.rs:427-453 | One that does not resolve runs the route's own middlewares around NotFound, or nothing if the route itself does not match |
| Compiling.FrozenCompileErases | silent/src/route/route_tree.rs:141-165 | The frozen compiled tree without its copies is the compiled tree |
| Compiling.IntoRouteTree | silent/src/route/route_service.rs:25-79 | The recursion and its loops compute the compiled tree |
| Compiling.FreezeIsIndexed | silent/src/route/route_tree.rs:141-165 | Freezing keeps the index, and every copy agrees with its node |
| RouteCalls.Call | silent/src/route/mod.rs:360-371 | A built route, compiled, frozen and dispatched, serves the request as its tree does |
| Tables.DispatchIsTable | silent/src/route/route_tree.rs:345-396 | Dispatching any request path in the compiled tree of static registrations answers as the table does for the segments the path is cut into: first handler registered for the method, HEAD through GET, 405 or NotFound |
| Tables.JoinedSegments | silent/src/route/route_tree.rs:484-496 | The path `/s1/.../sn` is cut into exactly `s1`, ..., `sn` |
| Tables.RegisterAndDispatch | silent/src/route/mod.rs:137-150 | The same from the builder calls, in any grouping into append, push and extend |
| Tables.NewWithHandler | silent/src/route/handler_append.rs:56-60 | A new route with one handler, leading slashes ignored, is the branch the table registers |
| Tables.RootTable | silent/src/route/mod.rs:310-334 | The merged root holds for every segments and method the handler registered first |
| Tables.FoundIsEntry | silent/src/route/mod.rs:322-324 | That handler belongs to the first matching registration |
| Tables.ServeStatic | silent/src/route/route_tree.rs:345-396 | Serving a static route at any offset is looking the segments of the remaining path up in it |
| States.OverlayAssociative | silent/src/configs/mod.rs:172-179 | Extending in either grouping gives the same container |
| States.State.ExtendFrom | silent/src/configs/mod.rs:172-179 | The loop over the other's entries, in any order, computes the overlay |
| States.State.Insert | silent/src/configs/mod.rs:73-78 | Insertion returns the previous value and overlays one entry |
| States.State.Remove | silent/src/configs/mod.rs:112-117 | Removal returns the previous value and changes no other type |
| PathFormat.ConvertPathFormat | silent-openapi/src/route.rs:252-279 | The rewriting loop terminates on every string and computes the conversion |
| PathFormat.StepShrinks | silent-openapi/src/route.rs:262-276 | Each turn of the loop makes the path strictly shorter |
| PathFormat.ConvertIsIdempotent | silent-openapi/src/route.rs:252-279 | The result starts with a slash and converting it again changes nothing, for every string |
| PathFormat.ConvertOfPieces | silent-openapi/src/route.rs:248-279 | On every path of text, `<name:type>` and `<name>` parameters: a slash in front if there is none, and behind it the path with each parameter that also stands before the first untyped one rewritten once; a `<` is left if and only if some parameter is untyped |
| PathFormat.ConvertOfTyped | silent-openapi/src/route.rs:248-279 | When all parameters are typed, each is rewritten once and no `<` is left |
| PathFormat.UntypedStopsTheLoop | silent-openapi/src/route.rs:268-272 | `/<key>/<id:i64>` is left as it is |
| CollectedNodes.CollectorLosesNothing | silent-openapi/src/route.rs:169-246 | One entry per converted path, an entry exactly for the paths of nodes with handlers, and under each supported method the operation of the first node in pre-order that offers it, made from that node's joined path, tags, handler and middlewares |
| CollectedNodes.VisitsAt | silent-openapi/src/route.rs:169-246 | The k-th visit is that of the k-th node: its handlers and middlewares, the non-empty paths that lead to it joined behind the base, and the tags they make |
| CollectedNodes.PositionsAreNodes | silent-openapi/src/route.rs:243-246 | Every node of the tree has a position and every position is one of a node |
| CollectedNodes.PositionsInOrder | silent-openapi/src/route.rs:243-246 | The positions are in strict pre-order, so each node is visited once |
| CollectedNodes.CollectOpenApiPaths | silent-openapi/src/route.rs:122-128 | The walk from an empty table makes the table the theorem is about |
| PathCollector.PathTable.Collect | silent-openapi/src/route.rs:169-246 | The recursive walk, whatever the order of handler maps, enters all nodes in pre-order |
| PathCollector.PathTable.AddHandlers | silent-openapi/src/route.rs:200-240 | Visiting one node's handlers in any order gives the same table |
| PathCollector.EnterTwice | silent-openapi/src/route.rs:233-239 | Entering two items under a path is entering their merge |
| PathCollector.FullPathIsJoined | silent-openapi/src/route.rs:175-185 | Descending one segment appends it to the joined path |
| Scheduling.SchedulerSafety | silent/src/scheduler/mod.rs:39-112 | Over any interleaving: distinct ids, nothing fires before its time, only due one-shots are dropped, and a dropped one whose execution has run has fired |
| Scheduling.StepIsSafe | silent/src/scheduler/mod.rs:39-112 | Every single step keeps those promises |
| Scheduling.ExecutionsFire | silent/src/scheduler/process_time.rs:63-70 | On every run an execution of a one-shot fires if and only if its time has come, one of a cron task if and only if the schedule includes the moment, and what fires is the task's own action |
| Scheduling.StepChangesTasks | silent/src/scheduler/mod.rs:39-97 | Which tasks there are after each kind of step: adding, removing by id or by prefix, and a tick |
| Scheduling.StepChangesWork | silent/src/scheduler/mod.rs:68-97 | A tick sets one more execution of each task in motion, an execution is done once, and no other step touches either |
| Scheduling.DroppedIsRecorded | silent/src/scheduler/mod.rs:94-97 | Whatever a tick takes off the list is recorded with the reading that found it due |
| Scheduling.StopEndsLoop | silent/src/scheduler/mod.rs:99-112 | After `stop` a running loop ticks at most once more |
| Scheduling.StopAllowsOneTick | silent/src/scheduler/mod.rs:103-112 | A loop stopped while it waits ticks once, ends, and leaves the flag as a new loop needs it |
| Scheduling.LoopGoesOn | silent/src/scheduler/mod.rs:103-112 | A loop that is not stopped goes on, on every run |
| Scheduling.TickKeepsCron | silent/src/scheduler/task.rs:101-106 | A tick never drops a cron task |
| Scheduling.TickDropsDue | silent/src/scheduler/mod.rs:68-97 | A tick drops exactly the one-shots it found due |
| Scheduling.FiresTwiceIff | silent/src/scheduler/task.rs:38-67 | After any run, adding a one-shot task can lead to its firing twice, without adding it again, if and only if it is not due yet when it is added |
| Scheduling.DueWhenAdded | silent/src/scheduler/mod.rs:68-97 | A task that is due when it is added fires at most once, however the run goes on |
| Scheduling.FiresOnceIff | silent/src/scheduler/task.rs:38-67 | Of one finished run: a one-shot added once, dropped and with no execution left to run has fired, and exactly once if and only if no execution spawned before its time ran at or after it |
| Scheduling.RunsKeepOneLate | silent/src/scheduler/mod.rs:68-97 | On every run, of the executions of a task added once at most one was spawned by a tick that found it due |
| Scheduling.OneShotCanFireTwice | silent/src/scheduler/mod.rs:68-97 | A concrete task that can fire twice |
| Scheduling.Scheduler.Run | silent/src/scheduler/mod.rs:68-97 | The two loops of a tick spawn one execution per task and remove the due ones |
| Scheduling.Scheduler.AddTask | silent/src/scheduler/mod.rs:39-49 | A task is added exactly when its id is free |
| Scheduling.Scheduler.RemoveTaskSub | silent/src/scheduler/mod.rs:56-59 | Tasks whose id starts with the argument are kept and all others removed |
| Bodies.LimitHolds | silent/src/core/req_body.rs:151-172 | Over any polls, errors included, what is delivered of a body whose length the counter can hold is a prefix of the inner data and never longer than the limit |
| Bodies.LimitHoldsIff | silent/src/core/req_body.rs:151-172 | For bodies up to a given total length the limit holds if and only if that total is below the range of `usize`; past it the counter wraps |
| Bodies.LimitIsIdentityIff | silent/src/core/req_body.rs:151-172 | For every body, the limit is invisible if and only if the count, as it wraps, is never above the limit |
| Bodies.LimitInvisibleIfFits | silent/src/core/req_body.rs:151-172 | For a body whose length the counter can hold: if and only if everything fits |
| Bodies.LimitedAnswers | silent/src/core/req_body.rs:151-172 | Every answer of the limited body: an error exactly where the count goes above the limit at a data frame, and otherwise the inner answer |
| Bodies.TooLongIsReported | silent/src/core/req_body.rs:162-165 | A body that the counter can hold and that does not fail by itself fails if and only if it is too long |
| Bodies.LimitedIncoming.PollAll | silent/src/core/req_body.rs:151-172 | Polling the mutable body to the end of the inner one gives the run |
| Bodies.ReqEndStreamIff | silent/src/core/req_body.rs:53-83 | All later polls answer End exactly for `Empty`, so the end is reported too early by an empty `Once` and by no other plain request body |
| Bodies.ReqBytesAreConserved | silent/src/core/req_body.rs:53-93 | Over any number of polls the delivered bytes followed by the remaining ones are the body, and delivered length and size hint add up to its length |
| Bodies.BytesAreConserved | silent/src/core/res_body.rs:83-129 | Delivered bytes followed by the remaining ones are the original body, and the size hint is the remaining length in 64 bits |
| Bodies.HintConservedIff | silent/src/core/res_body.rs:117-129 | Delivered length plus size hint is constant over all polls if and only if the length of the body fits 64 bits |
| Bodies.EndStreamIff | silent/src/core/res_body.rs:83-115 | A response body reports its end exactly when all later polls answer End |
| Bodies.ChunksInOrder | silent/src/core/res_body.rs:97-99 | Chunks are delivered one by one, unchanged and in order, and then the body has ended |
| Bodies.OnceInOneFrame | silent/src/core/res_body.rs:89-96 | A plain body is one frame, unless it is empty |

## Left out

- A middleware that rewrites the request before passing it on, calls the next one more than once, or fails: a middleware either wraps or answers by itself, deciding on the request as it sees it.
- Asynchrony inside one dispatch: futures are erased, and a request is served by one thread of control.
- The responses handlers build: an outcome names the handler, the request it saw and whether the body was cleared.
- Removing nodes from memory: a merged-away node stays in the ghost footprint of the node that absorbed it.
- Debug builds: where an addition of lengths overflows, the model wraps as a release build does, and a debug build panics.
- Parameters, middlewares and state in the end-to-end table theorem: the search, onion and merge theorems cover them separately.
- Streaming, incoming and boxed bodies other than through the size limit: they delegate to other crates.
- Route state `session_set` and the feature-gated helpers that only push one middleware.
- `Route::new_root`, direct edits of the public `path` and `children` fields, and paths with a slash inside one node: outside the builder's invariants.
- The contents of an operation document (schemas, examples, inferred responses): an operation is identified by what it is made from.
- Reading parameters as typed values, cookies, sessions, extractors, servers and listeners: I/O or thin wrappers.
- Several `schedule` loops sharing one scheduler, and the one-second pause between ticks.
