# PEAK components and stock-prediction scripts in Dafny

This project models, in Dafny, the small stateful components of the PEAK
application framework (release 0.5a4) and the stock-prediction scripts that
ship next to it, and proves properties about those models. Each modelled
source file is a Dafny module in its own `.dfy` file:

- `undo.dfy`: deltas with `active`/`done` flags that can be finished,
  undone, redone and merged; a `History` that merges deltas by key; an
  `UndoManager` with undo and redo stacks (`peak/storage/undo.py`).
- `conflict.dfy`: `ConflictManager`, settings keyed by name in which the
  shallower inclusion path wins (`peak/util/ConflictManager.py`).
- `graph.dfy`: `Graph`, a binary relation with inverse, composition,
  restriction, difference, union and reachability (`peak/util/Graph.py`).
- `sql.dfy` and `commands.dfy`: the n2 SQL shell, including its named
  buffers, the lexer that finds the first top-level `;`, the `\source` line
  queue, the prompt, pipe and quote splitting, redirection tokens and the
  argument-count check (`peak/tools/n2`).
- `sox.dfy`: the negotiating XML processor, with its per-prefix namespace
  stacks, per-element caches and attribute validation (`peak/util/SOX.py`).
- `config.dfy`: `XMLKey` wildcard lookup, `ConfigMap` registration and
  lookup, `lookup` and `iterKeys` along a parent chain, `LazyRule` and
  `Namespace` (`peak/config/config_components.py`).
- `components.dfy`: the component tree (parent chains, roots, component
  paths and their traversal, acquisition, setting the parent once,
  assembly notification, plugin keys); `attributes.dfy`: `initAttrs`
  (`peak/binding`).
- `environ.dfy`, `places.dfy`, `resources.dfy`, `sitemaps.dfy` and
  `templates.dfy`: the web layer (`peak/web`):
  - traversal contexts, relative URLs and the `@@`/`++ns++` name syntax;
  - place URLs and container precedence;
  - the file-resource index;
  - the site-map reader;
  - template elements, covering the parameter registry, static-text
    coalescing, tag strings, `List` rendering and `URLTag`.
- `options.dfy`: option metadata, repeat counting and parser assembly
  (`peak/running/options.py`).
- `sqlstorage.dfy`: quote escaping, the transaction-state rule, row
  converters, the second-result-set check, the Sybase procedure mode and
  the Oracle commit rule (`peak/storage/SQL.py`).
- `security.dfy`: the default permission rules and `Denial`
  (`peak/security/rules.py`).
- `unittrace.dfy`: call tracing with depth accounting
  (`peak/util/unittrace.py`).
- `stockdata.dfy`, `tree.dfy`, `bst.dfy` and `stockmain.dfy`: the stock
  scripts. They cover the windowing of CSV rows and contiguous sub-lists
  (`StockData.py`), the n-ary tree built level by level and searched
  breadth first (`TreeTraversal.py`), the binary search tree
  (`BSTsearch.py`), and the rule-based retry of the predictor
  (`StockPredictionMain.py`).
- `base.dfy` holds the shared `Option`/`Result` types and sequence and
  string helpers.

The model follows the form of the source. Objects whose methods update
their fields are classes, and their methods' postconditions tie the new
state to specification functions of the old state. Pure helpers are
functions. Loops are methods with loop invariants. The promised properties
are proved as lemmas about the specification functions. Python's
exceptions become `Err` values that name the exception.

## Model

| member | source | states |
|---|---|---|
| Attributes.ApplyLastWins | PEAK-0.5a4dev_r2085/build/lib.macosx-10.6-x86_64-2.7/peak/binding/attributes.py:94-96 | after setting the pairs in order, a name is set iff it was before or a pair sets it, and holds the value of the last pair setting it |
| Attributes.ApplyKeys | PEAK-0.5a4dev_r2085/build/lib.macosx-10.6-x86_64-2.7/peak/binding/attributes.py:94-96 | setting the pairs touches only the names they give |
| Attributes.Instance.constructor | PEAK-0.5a4dev_r2085/build/lib.macosx-10.6-x86_64-2.7/peak/binding/attributes.py:93 | an object of a class with its attribute names and nothing set on it |
| Attributes.Instance.InitAttrs | PEAK-0.5a4dev_r2085/build/lib.macosx-10.6-x86_64-2.7/peak/binding/attributes.py:83-100 | `initAttrs` succeeds iff every name is an attribute of the class, applying every pair; otherwise the `TypeError` names the first unknown name and the pairs before it stay set |
| Attributes.ApplyExample | PEAK-0.5a4dev_r2085/build/lib.macosx-10.6-x86_64-2.7/peak/binding/attributes.py:94-96 | a later pair for the same name wins |
| BstSearch.BNode.constructor | BSTsearch.py:2-6 | a node with its value and data set and no subtrees |
| BstSearch.BNode.SetLeft | BSTsearch.py:26-27 | `setLeft` replaces the left subtree only |
| BstSearch.BNode.SetRight | BSTsearch.py:29-30 | `setRight` replaces the right subtree only |
| BstSearch.Put | BSTsearch.py:45-56 | inserting a value adds it with its data set unless it is already stored, and keeps every stored value's data set |
| BstSearch.PutAllSnoc | BSTsearch.py:58-63 | inserting one more entry of the dictionary |
| BstSearch.PutAllContents | BSTsearch.py:58-63 | after `insert(dic)` the values stored are those before and those of the entries, the old ones unchanged |
| BstSearch.PutAllFirstWins | BSTsearch.py:58-63 | a new value keeps the data set of the first entry carrying it |
| BstSearch.InsertKeys | BSTsearch.py:45-56 | `_insert` stores exactly the values before plus the new one |
| BstSearch.InsertOrdered | BSTsearch.py:45-56 | `_insert` keeps the order: left subtree smaller than the node, right subtree larger |
| BstSearch.InsertContents | BSTsearch.py:45-56 | `_insert` adds the new value with its data set; a value already present keeps its own and nothing changes |
| BstSearch.InsertNodes | BSTsearch.py:45-56 | the leaf becomes a node of the tree exactly when its value is new |
| BstSearch.InsertApart | BSTsearch.py:45-56 | after `_insert` no node is linked twice |
| BstSearch.AddCard | BSTsearch.py:46-48 | the count grows by one exactly for a value not yet stored |
| BstSearch.InsertFacts | BSTsearch.py:45-56 | `_insert` keeps the tree ordered and apart, stores the new value, and grows the count by one only for a new value |
| BstSearch.ContentsKeys | BSTsearch.py:45-56 | the stored values with their data sets have exactly the tree's values as keys |
| BstSearch.PutUnionLeft | BSTsearch.py:49-52 | a value below a node's is inserted in its left subtree |
| BstSearch.PutUnionRight | BSTsearch.py:53-56 | a value above a node's is inserted in its right subtree |
| BstSearch.BinaryTree.constructor | BSTsearch.py:33-35 | an empty tree with count 0 |
| BstSearch.BinaryTree.Size | BSTsearch.py:37-38 | `size` is the number of distinct values stored |
| BstSearch.BinaryTree.IsEmptyAsWritten | BSTsearch.py:40-43 | `isEmpty` as written is true exactly when something is stored |
| BstSearch.BinaryTree.IsEmpty | BSTsearch.py:40-43 | `isEmpty` as named is true exactly when nothing is stored |
| BstSearch.BinaryTree.InsertAt | BSTsearch.py:45-56 | `_insert`: below an empty spot the node is counted and handed back; otherwise it is linked where the search ends, or nothing changes for a value present |
| BstSearch.BinaryTree.Insert | BSTsearch.py:58-63 | `insert(dic)` stores each entry's value with its key as data set, in order, the first insertion of a value winning |
| BstSearch.BinaryTree.InsertEntry | BSTsearch.py:60-63 | one entry inserted from the root, the root replaced in an empty tree |
| BstSearch.BinaryTree.Commit | BSTsearch.py:61-63 | the new root hung in place when the tree was empty |
| BstSearch.BinaryTree.Find | BSTsearch.py:66-80 | `find`: the node of equal value if stored; otherwise the nearer of the closest smaller and larger values, the larger on a tie, or an error when one of them is missing |
| BstSearch.FindFound | BSTsearch.py:72-77 | a stored value is found at its node |
| BstSearch.FindMissing | BSTsearch.py:66-70 | a value not stored fails exactly when no stored value lies on one of its sides |
| BstSearch.FindCandidate | BSTsearch.py:66-77 | the node returned is a bound met on the way or a node of the subtree |
| BstSearch.FindNearest | BSTsearch.py:66-75 | for a value not stored the node returned is the nearer of the closest values below and above |
| BstSearch.FindFromRoot | BSTsearch.py:79-80 | `_find` from the root with no bounds has all of the above over the whole tree |
| BstSearch.NodeContents | BSTsearch.py:45-56 | in an ordered tree a node's value is stored with its own data set |
| Commands.PipeLexOf | PEAK-0.5a4dev_r2085/src/peak/tools/n2/commands.py:104-116 | the scanner of `pipesplit`: a pending backslash escape only ever happens inside quotes |
| Commands.FirstPipe | PEAK-0.5a4dev_r2085/src/peak/tools/n2/commands.py:104-118 | the split position is the first `|` met outside double quotes, if any |
| Commands.PipeSplit | PEAK-0.5a4dev_r2085/src/peak/tools/n2/commands.py:99-118 | `pipesplit` gives `(s, None)` when no `|` lies outside double quotes, else the text before the first such `|` and the text after it (the `|` dropped) |
| Commands.EscapedQuoteStaysQuoted | PEAK-0.5a4dev_r2085/src/peak/tools/n2/commands.py:107-112 | inside quotes a backslash makes the next `"` not close the span |
| Commands.InsideQuotedSpan | PEAK-0.5a4dev_r2085/src/peak/tools/n2/commands.py:107-113 | at every position inside a `"`-span the scanner is quoted |
| Commands.NoPipeInQuotes | PEAK-0.5a4dev_r2085/src/peak/tools/n2/commands.py:107-114 | no `|` inside a closed `"`-span is split at, whatever follows |
| Commands.SplitOff | PEAK-0.5a4dev_r2085/src/peak/tools/n2/commands.py:121-125 | one step of the regular-expression split: its three pieces make up the text, losing nothing |
| Commands.SplitOffShape | PEAK-0.5a4dev_r2085/src/peak/tools/n2/commands.py:121-125 | the pieces are leading whitespace, a run with no whitespace, and a rest that is empty when the run is and otherwise starts with whitespace |
| Commands.Chunks | PEAK-0.5a4dev_r2085/src/peak/tools/n2/commands.py:125-126 | the `(separator, word)` pairs: every word but the last (empty) one is non-empty |
| Commands.ChunksCover | PEAK-0.5a4dev_r2085/src/peak/tools/n2/commands.py:125-126 | the pairs concatenated give back the text |
| Commands.ChunksShape | PEAK-0.5a4dev_r2085/src/peak/tools/n2/commands.py:121-126 | every separator is whitespace and no word holds whitespace |
| Commands.QArgs | PEAK-0.5a4dev_r2085/src/peak/tools/n2/commands.py:124-148 | `qsplit` drops empty arguments |
| Commands.UnquotedSplitsAtWhitespace | PEAK-0.5a4dev_r2085/src/peak/tools/n2/commands.py:124-148 | without any `"`, `qsplit` gives exactly the whitespace-separated words |
| Commands.GroupUnquoted | PEAK-0.5a4dev_r2085/src/peak/tools/n2/commands.py:128-146 | with no quote in any word the grouping never enters a quoted span and yields one argument per word |
| Commands.ToggleQuotes | PEAK-0.5a4dev_r2085/src/peak/tools/n2/commands.py:137-144 | the inner loop toggles the quoted flag at each unescaped `"` |
| Commands.QSplit | PEAK-0.5a4dev_r2085/src/peak/tools/n2/commands.py:124-148 | the loop computes `QArgs`, whose properties are the lemmas around it: no argument is empty |
| Commands.GroupRun | PEAK-0.5a4dev_r2085/src/peak/tools/n2/commands.py:128-146 | the grouping of the pairs is the loop's state carried from the start over the pairs in order |
| Commands.ChunksAppend | PEAK-0.5a4dev_r2085/src/peak/tools/n2/commands.py:121-126 | text starting with whitespace appended to a text keeps that text's pairs but the last, whose whitespace it joins |
| Commands.QuotedRun | PEAK-0.5a4dev_r2085/src/peak/tools/n2/commands.py:128-144 | inside a quoted span, text up to a closing `"` with no other `"` and no backslash joins the current argument whole, whitespace included, and closes the span |
| Commands.QuotedSpanRun | PEAK-0.5a4dev_r2085/src/peak/tools/n2/commands.py:128-144 | outside quotes, whitespace then such a `"`-span finishes the current argument and makes the whole span the next one, with the span closed after it |
| Commands.QuotedSpanOneArg | PEAK-0.5a4dev_r2085/src/peak/tools/n2/commands.py:124-148 | after text whose quoting ends closed, a space and a `"`-span with no other `"` and no backslash add exactly one argument: the whole span, the whitespace inside it kept |
| Commands.QuotedLine | PEAK-0.5a4dev_r2085/src/peak/tools/n2/commands.py:124-148 | a line that is one such `"`-span after a space gives that span as its only argument |
| Commands.Kind | PEAK-0.5a4dev_r2085/src/peak/tools/n2/commands.py:31-54 | tokens are matched in the order `>>`, `>`, `2>>`, `2>`, `<`; the token starts with its operator; anything else is a plain argument |
| Commands.TargetOf | PEAK-0.5a4dev_r2085/src/peak/tools/n2/commands.py:33-51 | the stream name is the token with its operator removed |
| Commands.PlainArgs | PEAK-0.5a4dev_r2085/src/peak/tools/n2/commands.py:53-54 | plain arguments keep their order |
| Commands.RedirectTokens | PEAK-0.5a4dev_r2085/src/peak/tools/n2/commands.py:33-52 | the redirection tokens, in order |
| Commands.RedirectSucceeds | PEAK-0.5a4dev_r2085/src/peak/tools/n2/commands.py:31-60 | when no opening fails, argv is the plain arguments in order and one stream is opened per redirection token, of the operator's kind |
| Commands.NoRedirectKeepsDefaults | PEAK-0.5a4dev_r2085/src/peak/tools/n2/commands.py:21-24 | without redirections the default streams are kept |
| Commands.RedirectAll | PEAK-0.5a4dev_r2085/src/peak/tools/n2/commands.py:32-54 | the token loop computes `Redirect`, stopping at the first opening that raises |
| Commands.RedirectStopsAtFailure | PEAK-0.5a4dev_r2085/src/peak/tools/n2/commands.py:31-65 | after a failing opening the later tokens are not processed |
| Commands.ParseCmd | PEAK-0.5a4dev_r2085/src/peak/tools/n2/commands.py:17-69 | `parseCmd`: argv is the plain tokens; if any opening raises, every stream already opened is closed before the error propagates |
| Commands.RunArgs | PEAK-0.5a4dev_r2085/src/peak/tools/n2/commands.py:160-172 | `run` calls the command iff getopt succeeded and the argument count lies in `[minarg, maxarg]`; otherwise usage is printed and None returned |
| Components.Chain | PEAK-0.5a4dev_r2085/src/peak/binding/components.py:42-54 | the items `iterParents` yields, each followed by its parent, and whether it raises `RuntimeError` after `max_depth` items |
| Components.ChainLinks | PEAK-0.5a4dev_r2085/src/peak/binding/components.py:42-54 | the chain starts at the component, each item is followed by its parent, and a chain that does not overflow ends at a root |
| Components.IterParents | PEAK-0.5a4dev_r2085/src/peak/binding/components.py:42-54 | the generator's loop, consumed to the end, yields the chain and raises exactly when it overflows |
| Components.HasParent | PEAK-0.5a4dev_r2085/src/peak/binding/components.py:57-62 | `hasParent` is true iff the parent is on the chain, the search stopping when it is found |
| Components.GetRootComponent | PEAK-0.5a4dev_r2085/src/peak/binding/components.py:247-254 | `getRootComponent` is the last item of the chain |
| Components.HasParentSelfAndRoot | PEAK-0.5a4dev_r2085/src/peak/binding/components.py:57-62 | every component is within its own hierarchy and within its root's |
| Components.GetComponentPath | PEAK-0.5a4dev_r2085/src/peak/binding/components.py:124-148 | `getComponentPath`: the names from just below `relativeTo` (or the root, marked by a leading empty segment) down to the component, `*` for unnamed ones |
| Components.PathSegsAt | PEAK-0.5a4dev_r2085/src/peak/binding/components.py:137-145 | one pass of the loop over the chain |
| Components.CollectPath | PEAK-0.5a4dev_r2085/src/peak/binding/components.py:132-148 | the loop of `getComponentPath` then the reversal give the path segments |
| Components.Segs | PEAK-0.5a4dev_r2085/src/peak/binding/components.py:137-145 | the segments are the names of the chain items before the root |
| Components.AbsoluteSegs | PEAK-0.5a4dev_r2085/src/peak/binding/components.py:137-140 | along a chain that reaches a root only the last item is parentless |
| Components.AbsolutePath | PEAK-0.5a4dev_r2085/src/peak/binding/components.py:124-148 | a path relative to the root is an empty segment then the names from below the root down to the component |
| Components.AcquireComponent | PEAK-0.5a4dev_r2085/src/peak/binding/components.py:288-316 | `acquireComponent`: the value from the first chain member that has the attribute, otherwise what the root's `nameNotFound` answers when asked from the last member |
| Components.Acquire | PEAK-0.5a4dev_r2085/src/peak/binding/components.py:299-316 | the chain search finds a value, overflows, or defers the same name from a complete chain |
| Components.Acquired | PEAK-0.5a4dev_r2085/src/peak/binding/components.py:288-316 | acquisition ends at a value, a too-deep chain, or the failure of `nameNotFound` for that name |
| Components.AcquiredFallsBack | PEAK-0.5a4dev_r2085/src/peak/binding/components.py:308-316 | with no chain member holding the name, `nameNotFound` of the root decides, asked with the starting component |
| Components.AcquireNearest | PEAK-0.5a4dev_r2085/src/peak/binding/components.py:299-306 | the nearest chain member having the attribute supplies it |
| Components.AcquireMissing | PEAK-0.5a4dev_r2085/src/peak/binding/components.py:308-316 | with no member having it, the lookup is deferred from the last member |
| Components.Walk | PEAK-0.5a4dev_r2085/src/peak/binding/components.py:386-391 | the walk over the later segments ends at an object or after the segments that succeeded |
| Components.WalkStuck | PEAK-0.5a4dev_r2085/src/peak/binding/components.py:386-402 | the walk fails exactly at the first segment that does not resolve, those before it succeeding |
| Components.FindComponent | PEAK-0.5a4dev_r2085/src/peak/binding/components.py:370-404 | `findComponent`: the empty name is the component; the first segment via `''`, `.`, `..` or acquisition (falling back to the root's `nameNotFound`), the rest via `''`, `.`, `..` or attributes walked from there; a failed later segment gives the default or `NameNotFound` with resolved and remaining parts |
| Components.FindThroughRoot | PEAK-0.5a4dev_r2085/src/peak/binding/components.py:378-404 | a first segment no chain member holds is answered by `nameNotFound` and the later segments are walked from its answer; its failure is not replaced by the default |
| Components.WalkRest | PEAK-0.5a4dev_r2085/src/peak/binding/components.py:386-391 | the loop of `findComponent` computes the walk |
| Components.StaySegments | PEAK-0.5a4dev_r2085/src/peak/binding/components.py:418-422 | `''` and `.` after the first segment change nothing |
| Components.WalkDown | PEAK-0.5a4dev_r2085/src/peak/binding/components.py:386-391 | walking the names down a consistently named chain reaches its bottom |
| Components.PathRoundTrip | PEAK-0.5a4dev_r2085/src/peak/binding/components.py:124-148 | following the path `getComponentPath` gives leads back to the component |
| Components.Component.constructor | PEAK-0.5a4dev_r2085/src/peak/binding/components.py:881-882 | no parent set yet |
| Components.Component.SetParentComponent | PEAK-0.5a4dev_r2085/src/peak/binding/components.py:862-879 | only the first setting before a read takes effect; later ones are ignored when suggested and raise `AlreadyRead` otherwise |
| Components.Component.GetParentComponent | PEAK-0.5a4dev_r2085/src/peak/binding/components.py:884-904 | reading the parent locks the setting, an unset one becoming None |
| Components.Notified | PEAK-0.5a4dev_r2085/src/peak/binding/components.py:995-1001 | the children notified, last queued first, up to the first that raises |
| Components.NotifiedOrder | PEAK-0.5a4dev_r2085/src/peak/binding/components.py:995-998 | children are notified last queued first and all but the last succeed |
| Components.NotifiedFails | PEAK-0.5a4dev_r2085/src/peak/binding/components.py:995-1001 | the last child notified fails iff some child fails; otherwise every child is notified |
| Components.NotifiedLastFirst | PEAK-0.5a4dev_r2085/src/peak/binding/components.py:995-996 | the child queued last is notified first |
| Components.Assembly.constructor | PEAK-0.5a4dev_r2085/src/peak/binding/components.py:1010 | an empty queue of children awaiting assembly |
| Components.Assembly.NotifyUponAssembly | PEAK-0.5a4dev_r2085/src/peak/binding/components.py:958-972 | after assembly the child is notified at once; before it the child is queued, the first one also asking the parent to notify this component |
| Components.Assembly.UponAssembly | PEAK-0.5a4dev_r2085/src/peak/binding/components.py:985-1008 | `uponAssembly` notifies queued children last first; on a failure the remaining children and the failed one are queued again and the error passes on |
| Components.PluginKeys | PEAK-0.5a4dev_r2085/src/peak/binding/components.py:522-532 | `PluginKeys.findComponent`: the keys as `iterKeys` yields them, or sorted by `(sortBy(k), k)` |
| Components.ByKeyTotal | PEAK-0.5a4dev_r2085/src/peak/binding/components.py:527-528 | the order `sort()` uses on the pairs `(sortBy(k), k)` relates any two keys, so the sorted keys are in order |
| Components.PairTotal | PEAK-0.5a4dev_r2085/src/peak/binding/components.py:528-529 | the pair order is total |
| Components.Step | PEAK-0.5a4dev_r2085/src/peak/binding/components.py:386-391 | a later segment: only an attribute name can fail to resolve; `''` and `.` stay at the object |
| Components.Find | PEAK-0.5a4dev_r2085/src/peak/binding/components.py:370-404 | `findComponent` as a specification function: the empty name is the component; a miss is never left deferred; a failed acquisition names the first segment; `NameNotFound` comes only without a default and splits the later segments into the resolved ones and a non-empty remainder |
| Config.ParseKind | PEAK-0.5a4dev_r2085/build/lib.macosx-10.6-x86_64-2.7/peak/config/config_components.py:62-66 | only `element` and `attribute` are kinds of XML key |
| Config.MakeXMLKey | PEAK-0.5a4dev_r2085/build/lib.macosx-10.6-x86_64-2.7/peak/config/config_components.py:114-119 | an `XMLKey` keeps its kind, namespace and name |
| Config.RegistrationKeys | PEAK-0.5a4dev_r2085/build/lib.macosx-10.6-x86_64-2.7/peak/config/config_components.py:121-122 | an XML key registers under itself at depth 0 |
| Config.ParentKeys | PEAK-0.5a4dev_r2085/build/lib.macosx-10.6-x86_64-2.7/peak/config/config_components.py:124-125 | an XML key lies in no namespace |
| Config.LookupKeys | PEAK-0.5a4dev_r2085/build/lib.macosx-10.6-x86_64-2.7/peak/config/config_components.py:127-137 | the key, then any name in its namespace, then its name in any namespace, then both wildcards, leaving out what its own wildcards already cover |
| Config.LookupKeysCover | PEAK-0.5a4dev_r2085/build/lib.macosx-10.6-x86_64-2.7/peak/config/config_components.py:91-101 | the lookup keys are exactly the keys of the same kind that cover the key: element and attribute keys never meet |
| Config.LookupKeysOrder | PEAK-0.5a4dev_r2085/build/lib.macosx-10.6-x86_64-2.7/peak/config/config_components.py:95-98 | more specific keys are searched first |
| Config.Pin | PEAK-0.5a4dev_r2085/build/lib.macosx-10.6-x86_64-2.7/peak/config/config_components.py:601-602 | every name without a rule gets the empty rule; existing rules stay |
| Config.SearchFirstHit | PEAK-0.5a4dev_r2085/build/lib.macosx-10.6-x86_64-2.7/peak/config/config_components.py:583-595 | the search finds a value iff some name's rule answers, and then it is the first such answer in lookup order |
| Config.SearchNotFoundPins | PEAK-0.5a4dev_r2085/build/lib.macosx-10.6-x86_64-2.7/peak/config/config_components.py:583-602 | when nothing is found the names pinned are exactly the lookup keys without a rule |
| Config.SearchAfterPin | PEAK-0.5a4dev_r2085/build/lib.macosx-10.6-x86_64-2.7/peak/config/config_components.py:597-602 | pinning changes no later answer: a second lookup gives the same result |
| Config.FirstHitIndex | PEAK-0.5a4dev_r2085/build/lib.macosx-10.6-x86_64-2.7/peak/config/config_components.py:583-595 | the position of the first name whose rule answers |
| Config.ConfigMap.constructor | PEAK-0.5a4dev_r2085/build/lib.macosx-10.6-x86_64-2.7/peak/config/config_components.py:495 | empty rules, depths, index and locked namespaces |
| Config.ConfigMap.IndexUnder | PEAK-0.5a4dev_r2085/build/lib.macosx-10.6-x86_64-2.7/peak/config/config_components.py:516-517 | the key is indexed under each of its namespaces |
| Config.ConfigMap.RegisterProvider | PEAK-0.5a4dev_r2085/build/lib.macosx-10.6-x86_64-2.7/peak/config/config_components.py:501-519 | `registerProvider`: each registration key at a depth no deeper than the stored one gets the rule and depth, indexed under its namespaces; a locked namespace raises `AlreadyRead`, and so does a cell already read or pinned, after the key was indexed; what was done before is kept |
| Config.ConfigMap.KeysMatching | PEAK-0.5a4dev_r2085/build/lib.macosx-10.6-x86_64-2.7/peak/config/config_components.py:534-553 | `_configKeysMatching`: the keys indexed under the registration keys, locking those namespaces; an empty index yields nothing and locks nothing |
| Config.ConfigMap.GetConfigData | PEAK-0.5a4dev_r2085/build/lib.macosx-10.6-x86_64-2.7/peak/config/config_components.py:575-604 | `_getConfigData`: the first value in lookup order, the keys seen without a rule pinned to the empty rule, every rule cell asked marked read, existing rules unchanged |
| Config.ConfigMap.PinAll | PEAK-0.5a4dev_r2085/build/lib.macosx-10.6-x86_64-2.7/peak/config/config_components.py:601-602 | the pinning loop |
| Config.SearchKeepsHit | PEAK-0.5a4dev_r2085/build/lib.macosx-10.6-x86_64-2.7/peak/config/config_components.py:594-595 | after a hit the search stops |
| Config.RegisterFailed | PEAK-0.5a4dev_r2085/build/lib.macosx-10.6-x86_64-2.7/peak/config/config_components.py:511-515 | after `AlreadyRead` the registration stops |
| Config.RegisterDepths | PEAK-0.5a4dev_r2085/build/lib.macosx-10.6-x86_64-2.7/peak/config/config_components.py:504-519 | after registration each registration key has a rule at a depth no greater than its own, and no stored depth grows |
| Config.RegisterOthers | PEAK-0.5a4dev_r2085/build/lib.macosx-10.6-x86_64-2.7/peak/config/config_components.py:504-519 | keys that are not registration keys keep their rule and depth |
| Config.LockedNamespaceRejects | PEAK-0.5a4dev_r2085/build/lib.macosx-10.6-x86_64-2.7/peak/config/config_components.py:506-515 | a registration into a namespace already examined raises `AlreadyRead` and changes nothing |
| Config.UnlockedRegisters | PEAK-0.5a4dev_r2085/build/lib.macosx-10.6-x86_64-2.7/peak/config/config_components.py:504-519 | with no namespace locked and no registration key read or pinned, registration never raises |
| Config.RegisterKeepsFrozen | PEAK-0.5a4dev_r2085/build/lib.macosx-10.6-x86_64-2.7/peak/config/config_components.py:504-519 | registration makes no cell read or pinned |
| Config.SearchReads | PEAK-0.5a4dev_r2085/build/lib.macosx-10.6-x86_64-2.7/peak/config/config_components.py:583-595 | the cells read are lookup keys with a rule, include the one that answered, and are all of them when nothing answered |
| Config.TooLate | PEAK-0.5a4dev_r2085/src/peak/config/tests/test_keys.py:149-154 | a key looked up without a rule is pinned, and registering it afterwards raises `AlreadyRead` |
| Config.SearchPinsFirst | PEAK-0.5a4dev_r2085/build/lib.macosx-10.6-x86_64-2.7/peak/config/config_components.py:586-589 | the first lookup key, when it has no rule, is pinned |
| Config.ReadRejects | PEAK-0.5a4dev_r2085/build/lib.macosx-10.6-x86_64-2.7/peak/config/config_components.py:590-592 | a rule that answered a lookup is read, so registering over it raises `AlreadyRead` |
| Config.XMLKeyRegisters | PEAK-0.5a4dev_r2085/build/lib.macosx-10.6-x86_64-2.7/peak/config/config_components.py:121-125 | an XML key whose cell is neither read nor pinned registers, indexes nothing and leaves a rule at depth 0; otherwise it raises `AlreadyRead` and changes nothing |
| Config.Lookup | PEAK-0.5a4dev_r2085/build/lib.macosx-10.6-x86_64-2.7/peak/config/config_components.py:394-404 | `lookup`: the first value found along the parent chain, else the default, else `NameNotFound` |
| Config.IterKeys | PEAK-0.5a4dev_r2085/build/lib.macosx-10.6-x86_64-2.7/peak/config/config_components.py:433-444 | `iterKeys` yields each key of the sources once, where it first occurs |
| Config.AddUnseen | PEAK-0.5a4dev_r2085/build/lib.macosx-10.6-x86_64-2.7/peak/config/config_components.py:440-444 | the keys of one source not yielded yet, in order |
| Config.IterKeysMembers | PEAK-0.5a4dev_r2085/build/lib.macosx-10.6-x86_64-2.7/peak/config/config_components.py:433-444 | the keys yielded are distinct and exactly those some source yields |
| Config.LazyRule.constructor | PEAK-0.5a4dev_r2085/build/lib.macosx-10.6-x86_64-2.7/peak/config/config_components.py:623-628 | a rule whose loader has not run |
| Config.LazyRule.Call | PEAK-0.5a4dev_r2085/build/lib.macosx-10.6-x86_64-2.7/peak/config/config_components.py:631-643 | the first call runs the loader; a failure re-arms it; later calls answer `NOT_FOUND` |
| Config.Suffix | PEAK-0.5a4dev_r2085/build/lib.macosx-10.6-x86_64-2.7/peak/config/config_components.py:877-881 | a key after the prefix: a trailing `?` stripped, a trailing `*` dropped |
| Config.Namespace.constructor | PEAK-0.5a4dev_r2085/build/lib.macosx-10.6-x86_64-2.7/peak/config/config_components.py:816-819 | a namespace with its prefix and target and an empty cache |
| Config.Namespace.Get | PEAK-0.5a4dev_r2085/build/lib.macosx-10.6-x86_64-2.7/peak/config/config_components.py:845-859 | `get`: a cached key answered from the cache; otherwise the lookup, cached when caching and not the default; no target gives the default |
| Config.Namespace.Keys | PEAK-0.5a4dev_r2085/build/lib.macosx-10.6-x86_64-2.7/peak/config/config_components.py:866-886 | `keys`: the suffixes of the keys found, once each, in order |
| Config.NamespaceKeys | PEAK-0.5a4dev_r2085/build/lib.macosx-10.6-x86_64-2.7/peak/config/config_components.py:866-886 | the keys of a namespace are distinct and a key is listed iff some key found yields it |
| Config.RegisterOne | PEAK-0.5a4dev_r2085/build/lib.macosx-10.6-x86_64-2.7/peak/config/config_components.py:504-519 | one registration key: no cell is marked read; a key registered at an equal or better depth in an unlocked namespace, when neither read nor pinned, now holds the provider's rule; a pinned empty cell is never created |
| Config.Register | PEAK-0.5a4dev_r2085/build/lib.macosx-10.6-x86_64-2.7/peak/config/config_components.py:504-519 | registering under all keys marks no cell read; what each key then holds is stated by `Config.RegisterDepths`, `Config.RegisterOthers` and `Config.RegisterKeepsFrozen` |
| Config.Search | PEAK-0.5a4dev_r2085/build/lib.macosx-10.6-x86_64-2.7/peak/config/config_components.py:583-595 | the lookup loop as a specification function: the value found, the names to pin and the cells read; stated by `Config.SearchFirstHit`, `Config.SearchNotFoundPins` and `Config.SearchReads` |
| ConflictManager.Resolve | PEAK-0.5a4dev_r2085/build/lib.macosx-10.6-x86_64-2.7/peak/util/ConflictManager.py:44-52 | the new setting replaces the stored one iff the new path is a proper prefix of the stored path; the call is a no-op iff the stored path is a proper prefix of the new one; equal or unrelated paths conflict |
| ConflictManager.Assign | PEAK-0.5a4dev_r2085/build/lib.macosx-10.6-x86_64-2.7/peak/util/ConflictManager.py:42-53 | a key not yet present gets `(path, value)` unconditionally |
| ConflictManager.AssignKeepsShortestPath | PEAK-0.5a4dev_r2085/build/lib.macosx-10.6-x86_64-2.7/peak/util/ConflictManager.py:42-53 | after a successful assignment the stored path is a prefix of both the old and the new path, and no other key changes |
| ConflictManager.AssignConflicts | PEAK-0.5a4dev_r2085/build/lib.macosx-10.6-x86_64-2.7/peak/util/ConflictManager.py:49-50 | for a present key, the assignment raises KeyError exactly when the paths are equal or neither is a prefix of the other |
| ConflictManager.AssignOrderIndependent | PEAK-0.5a4dev_r2085/build/lib.macosx-10.6-x86_64-2.7/peak/util/ConflictManager.py:42-53 | two settings with different, prefix-related paths give the same table in either order: the shorter path wins |
| ConflictManager.ShallowerPathWins | PEAK-0.5a4dev_r2085/src/peak/util/tests/test_conflict.py:6-23 | the three cases of the module's tests: shorter path replaces, longer path is ignored, unrelated paths raise KeyError |
| ConflictManager.ConflictManager.constructor | PEAK-0.5a4dev_r2085/build/lib.macosx-10.6-x86_64-2.7/peak/util/ConflictManager.py:29-30 | a new manager starts empty |
| ConflictManager.ConflictManager.Get | PEAK-0.5a4dev_r2085/build/lib.macosx-10.6-x86_64-2.7/peak/util/ConflictManager.py:32-33 | `cm[key]` is the value part of the stored entry; KeyError iff the key is absent |
| ConflictManager.ConflictManager.Values | PEAK-0.5a4dev_r2085/build/lib.macosx-10.6-x86_64-2.7/peak/util/ConflictManager.py:35-36 | `values()` has exactly one value per stored key |
| ConflictManager.ConflictManager.Clear | PEAK-0.5a4dev_r2085/build/lib.macosx-10.6-x86_64-2.7/peak/util/ConflictManager.py:38-39 | `clear` empties the table |
| ConflictManager.ConflictManager.Set | PEAK-0.5a4dev_r2085/build/lib.macosx-10.6-x86_64-2.7/peak/util/ConflictManager.py:42-53 | `cm[key] = (path, value)` updates the table as `Assign` says, or raises KeyError and leaves it unchanged |
| Environ.Same | PEAK-0.5a4dev_r2085/build/lib.macosx-10.6-x86_64-2.7/peak/web/environ.py:45-53 | the counting loop: the number of leading segments the base and the URL share |
| Environ.Repeat | PEAK-0.5a4dev_r2085/build/lib.macosx-10.6-x86_64-2.7/peak/web/environ.py:61 | `['..'] * n`, empty for a negative count |
| Environ.RelativeURL | PEAK-0.5a4dev_r2085/build/lib.macosx-10.6-x86_64-2.7/peak/web/environ.py:42-63 | `relativeURL` with its counting loop computes the relative form |
| Environ.RelativeResolves | PEAK-0.5a4dev_r2085/build/lib.macosx-10.6-x86_64-2.7/peak/web/environ.py:42-63 | fewer than three shared segments return the URL unchanged; otherwise the result climbs from the base's directory with `..` and then follows a tail that ends at the URL |
| Environ.RelativeSplits | PEAK-0.5a4dev_r2085/build/lib.macosx-10.6-x86_64-2.7/peak/web/environ.py:63 | splitting the result at `/` gives back its segments, unless it is the `./` for no segment |
| Environ.RelPartsClimb | PEAK-0.5a4dev_r2085/build/lib.macosx-10.6-x86_64-2.7/peak/web/environ.py:57-62 | the parts are the climbs then the tail, and the tail completes the base's directory to the URL |
| Environ.RelPartsNoSep | PEAK-0.5a4dev_r2085/build/lib.macosx-10.6-x86_64-2.7/peak/web/environ.py:57-62 | no part contains `/` |
| Environ.WordRun | PEAK-0.5a4dev_r2085/build/lib.macosx-10.6-x86_64-2.7/peak/web/environ.py:83 | the longest run of word characters at the start |
| Environ.ParseNameInverse | PEAK-0.5a4dev_r2085/build/lib.macosx-10.6-x86_64-2.7/peak/web/environ.py:85-97 | `parseName` gives either no namespace and the whole name, or a namespace from which the name is rebuilt: `@@` for `view`, or `++ns++` |
| Environ.ParseNameForms | PEAK-0.5a4dev_r2085/build/lib.macosx-10.6-x86_64-2.7/peak/web/environ.py:94-97 | `@@x` parses to `('view', x)` and `++ident++rest` to `(ident, rest)` |
| Environ.WordRunIdent | PEAK-0.5a4dev_r2085/build/lib.macosx-10.6-x86_64-2.7/peak/web/environ.py:83 | the word run of an identifier followed by a non-word character is the identifier |
| Environ.Get | PEAK-0.5a4dev_r2085/build/lib.macosx-10.6-x86_64-2.7/peak/web/environ.py:130-142 | an attribute read: what the instance sets; otherwise the delegated settings are read from `previous` |
| Environ.CopyFrom | PEAK-0.5a4dev_r2085/build/lib.macosx-10.6-x86_64-2.7/peak/web/environ.py:186-191 | each `_clone_attrs` setting not given is copied from `clone_from`; a failed read fails |
| Environ.Setup | PEAK-0.5a4dev_r2085/build/lib.macosx-10.6-x86_64-2.7/peak/web/environ.py:185-201 | `_setup`: after the copying every keyword must name a class attribute, else `TypeError` naming it |
| Environ.InstanceAttrs | PEAK-0.5a4dev_r2085/build/lib.macosx-10.6-x86_64-2.7/peak/web/environ.py:144-150 | the attributes the constructor sets: the keywords, then `current`, `name`, `environ` |
| Environ.New | PEAK-0.5a4dev_r2085/build/lib.macosx-10.6-x86_64-2.7/peak/web/environ.py:144-153 | the constructor: keywords set up, `current`/`name`/`environ` set, a given `previous` set, and a differing `rootURL` re-clones the previous context |
| Environ.CloneArgs | PEAK-0.5a4dev_r2085/build/lib.macosx-10.6-x86_64-2.7/peak/web/environ.py:178-183 | `clone` passes `name`, `current`, `environ` defaulting to the context's and `clone_from` defaulting to the context |
| Environ.PreviousLower | PEAK-0.5a4dev_r2085/build/lib.macosx-10.6-x86_64-2.7/peak/web/environ.py:151-153 | the previous context re-cloned is lower than the values it was built from, so re-cloning ends |
| Environ.CloneBounds | PEAK-0.5a4dev_r2085/build/lib.macosx-10.6-x86_64-2.7/peak/web/environ.py:178-183 | what `clone` passes on is bounded by the context cloned |
| Environ.CloneCopies | PEAK-0.5a4dev_r2085/build/lib.macosx-10.6-x86_64-2.7/peak/web/environ.py:178-191 | cloning keeps every setting of `_clone_attrs` and `name`, `current`, `environ`; a keyword given replaces the one setting it names |
| Environ.CopiedSetting | PEAK-0.5a4dev_r2085/build/lib.macosx-10.6-x86_64-2.7/peak/web/environ.py:178-191 | the value `clone` passes on for one copied setting |
| Environ.SharedSetting | PEAK-0.5a4dev_r2085/build/lib.macosx-10.6-x86_64-2.7/peak/web/environ.py:186-191 | for a `_clone_attrs` setting other than `previous`: the keyword given, else the context's |
| Environ.CloneAttrsApart | PEAK-0.5a4dev_r2085/build/lib.macosx-10.6-x86_64-2.7/peak/web/environ.py:140-144 | no `_clone_attrs` name is one the constructor takes apart |
| Environ.SetupUnknown | PEAK-0.5a4dev_r2085/build/lib.macosx-10.6-x86_64-2.7/peak/web/environ.py:193-201 | a keyword that names no class attribute makes `_setup` fail with `TypeError` naming it, once the copying succeeds |
| Environ.CopyAllReadable | PEAK-0.5a4dev_r2085/build/lib.macosx-10.6-x86_64-2.7/peak/web/environ.py:186-191 | copying succeeds when every setting can be read from the context |
| Environ.CloneUnknown | PEAK-0.5a4dev_r2085/build/lib.macosx-10.6-x86_64-2.7/peak/web/environ.py:178-201 | an unknown keyword makes `clone` fail with `TypeError` naming it |
| Environ.RestUnknown | PEAK-0.5a4dev_r2085/build/lib.macosx-10.6-x86_64-2.7/peak/web/environ.py:178-191 | the keywords `clone` hands to `_setup` keep the unknown one, and copying succeeds |
| Environ.ParentContext | PEAK-0.5a4dev_r2085/build/lib.macosx-10.6-x86_64-2.7/peak/web/environ.py:161-162 | a start context is its own parent; another's parent is its `previous` |
| Environ.ChildDelegates | PEAK-0.5a4dev_r2085/build/lib.macosx-10.6-x86_64-2.7/peak/web/environ.py:155-156 | a child context has this context as parent and reads the settings it does not set from it |
| Environ.ViewService | PEAK-0.5a4dev_r2085/build/lib.macosx-10.6-x86_64-2.7/peak/web/environ.py:247-255 | `viewService`: a value set on the instance wins; otherwise the current object's `IViewService` adaptation when there is one; otherwise delegated to `previous` (`None` when `previous` is `None`) |
| Environ.ViewServiceWithoutViews | PEAK-0.5a4dev_r2085/build/lib.macosx-10.6-x86_64-2.7/peak/web/environ.py:247-255 | when no object adapts to `IViewService`, `viewService` is exactly the delegated value that `Get` reads |
| Environ.ChildViewService | PEAK-0.5a4dev_r2085/build/lib.macosx-10.6-x86_64-2.7/peak/web/environ.py:155-156 | a child context's view service is its object's adaptation when there is one, else its parent's view service |
| Environ.PeerCopies | PEAK-0.5a4dev_r2085/build/lib.macosx-10.6-x86_64-2.7/peak/web/environ.py:158-159 | a peer context has the given name and object and this context's environment and settings |
| Environ.TraverseName | PEAK-0.5a4dev_r2085/build/lib.macosx-10.6-x86_64-2.7/peak/web/environ.py:217-229 | `traverseName`: a namespaced name to its handler (not found without one), `..` to the parent, empty or `.` to itself, else the object's traversal |
| Environ.TraverseSpecial | PEAK-0.5a4dev_r2085/build/lib.macosx-10.6-x86_64-2.7/peak/web/environ.py:224-227 | `@@name` goes to the view handler, `..` gives the parent, `''` and `.` the context itself |
| Environ.TraverseNamespaced | PEAK-0.5a4dev_r2085/build/lib.macosx-10.6-x86_64-2.7/peak/web/environ.py:218-223 | `++ns++rest` goes to the handler for `ns` with `rest`, or is not found |
| Environ.Environment.constructor | PEAK-0.5a4dev_r2085/build/lib.macosx-10.6-x86_64-2.7/peak/web/environ.py:144-148 | the shared environment dictionary |
| Environ.Shift | PEAK-0.5a4dev_r2085/build/lib.macosx-10.6-x86_64-2.7/peak/web/environ.py:206-215 | `shift`: the next path segment; an empty one becomes the default method, also appended to `SCRIPT_NAME` |
| Environ.SimpleRedirect | PEAK-0.5a4dev_r2085/build/lib.macosx-10.6-x86_64-2.7/peak/web/environ.py:305-310 | `302 Found` below HTTP/1.1 (HTTP/1.0 by default), else `303 See Other`, one `Location` header and no body |
| Environ.RedirectByVersion | PEAK-0.5a4dev_r2085/build/lib.macosx-10.6-x86_64-2.7/peak/web/environ.py:306-309 | for a one-digit `HTTP/M.m` the status is `302 Found` iff the version is below 1.1 |
| Environ.VersionBelow | PEAK-0.5a4dev_r2085/build/lib.macosx-10.6-x86_64-2.7/peak/web/environ.py:306 | `M.m` sorts below `1.1` iff the version is below 1.1 |
| Environ.StrLtCommonPrefix | PEAK-0.5a4dev_r2085/build/lib.macosx-10.6-x86_64-2.7/peak/web/environ.py:306 | string order ignores a common prefix |
| Environ.Relative | PEAK-0.5a4dev_r2085/build/lib.macosx-10.6-x86_64-2.7/peak/web/environ.py:42-63 | a URL sharing fewer than three `/`-segments with the base (another scheme or host) comes back unchanged; a related one never gives the empty string (`./` stands for it) |
| Environ.ParseName | PEAK-0.5a4dev_r2085/build/lib.macosx-10.6-x86_64-2.7/peak/web/environ.py:85-97 | a plain name is returned whole with an empty namespace; otherwise the name part is a proper suffix of the input, and for `++id++rest` the input is exactly `++`, the namespace, `++` and the rest |
| Environ.Clone | PEAK-0.5a4dev_r2085/build/lib.macosx-10.6-x86_64-2.7/peak/web/environ.py:178-183 | `clone` fails exactly as reading the missing `name`, `current` or `environ` fails; a clone is of the same class (start or plain) and has the given or copied `name`, `current` and `environ` |
| Environ.ChildContext | PEAK-0.5a4dev_r2085/build/lib.macosx-10.6-x86_64-2.7/peak/web/environ.py:155-156 | `childContext` fails only when `environ` cannot be read; the child is a plain context whose previous context is this one, holding just `current`, `name` and the inherited `environ` |
| Environ.PeerContext | PEAK-0.5a4dev_r2085/build/lib.macosx-10.6-x86_64-2.7/peak/web/environ.py:158-159 | a peer context is of the same class as this one and holds the given name and object |
| Graph.InverseMembership | PEAK-0.5a4dev_r2085/src/peak/util/Graph.py:73-74 | `(k, v)` is in `~g` iff `(v, k)` is in `g` |
| Graph.InverseInvolution | PEAK-0.5a4dev_r2085/src/peak/util/Graph.py:73-74 | `~~g` has the same pairs as `g` |
| Graph.ComposeMembership | PEAK-0.5a4dev_r2085/src/peak/util/Graph.py:89-93 | `(k, w)` is in `g * h` iff some `v` has `(k, v)` in `g` and `(v, w)` in `h` |
| Graph.InverseOfCompose | PEAK-0.5a4dev_r2085/src/peak/util/Graph.py:73-93 | the inverse of `g * h` is `~h * ~g` |
| Graph.RestrictIsIdentityCompose | PEAK-0.5a4dev_r2085/src/peak/util/Graph.py:13-27 | `g.restrict(keys)` equals `fromkeys(keys) * g` |
| Graph.IdentityIsLeftUnit | PEAK-0.5a4dev_r2085/src/peak/util/Graph.py:13-15 | `fromkeys(g.keys()) * g` equals `g` |
| Graph.ClosedContainsWalk | PEAK-0.5a4dev_r2085/src/peak/util/Graph.py:41-54 | a set of nodes closed under edges contains every node on a walk from one of its members |
| Graph.PairsUnderGrow | PEAK-0.5a4dev_r2085/src/peak/util/Graph.py:38-39 | the pair count grows by the length of each key's duplicate-free value list |
| Graph.Graph.constructor | PEAK-0.5a4dev_r2085/src/peak/util/Graph.py:7-11 | `Graph(iterable)` holds exactly the given pairs |
| Graph.Graph.Add | PEAK-0.5a4dev_r2085/src/peak/util/Graph.py:66-71 | adding a pair adds exactly that pair; adding a pair already present changes nothing, so value lists have no duplicates |
| Graph.Graph.Contains | PEAK-0.5a4dev_r2085/src/peak/util/Graph.py:95-96 | `(k, v) in g` iff the pair was added |
| Graph.Graph.Neighbors | PEAK-0.5a4dev_r2085/src/peak/util/Graph.py:17-18 | `neighbors(k)` lists exactly the values paired with `k` |
| Graph.Graph.First | PEAK-0.5a4dev_r2085/src/peak/util/Graph.py:20-21 | `g[k]` is a value paired with `k`, and fails iff `k` has none |
| Graph.Graph.Keys | PEAK-0.5a4dev_r2085/src/peak/util/Graph.py:98-99 | `keys()` is the domain of the relation |
| Graph.Graph.Items | PEAK-0.5a4dev_r2085/src/peak/util/Graph.py:61-64 | iteration yields every pair exactly once |
| Graph.Graph.Values | PEAK-0.5a4dev_r2085/src/peak/util/Graph.py:101-104 | `values()` has one entry per pair and holds exactly the values of the relation |
| Graph.Graph.Len | PEAK-0.5a4dev_r2085/src/peak/util/Graph.py:38-39 | `len(g)` is the number of distinct pairs |
| Graph.Graph.Invert | PEAK-0.5a4dev_r2085/src/peak/util/Graph.py:73-74 | `~g` holds exactly the swapped pairs |
| Graph.Graph.Mul | PEAK-0.5a4dev_r2085/src/peak/util/Graph.py:89-93 | `g * h` is relational composition |
| Graph.Graph.Restrict | PEAK-0.5a4dev_r2085/src/peak/util/Graph.py:23-27 | `restrict(h)` keeps exactly the pairs whose key is a key of `h` |
| Graph.Graph.Sub | PEAK-0.5a4dev_r2085/src/peak/util/Graph.py:29-30 | `g - h` is pair-set difference |
| Graph.Graph.Union | PEAK-0.5a4dev_r2085/src/peak/util/Graph.py:76-87 | `g + h` and `g or h` hold the union of the pairs |
| Graph.Graph.AddAll | PEAK-0.5a4dev_r2085/src/peak/util/Graph.py:79-84 | `g += h` adds every pair of `h` |
| Graph.Graph.Equals | PEAK-0.5a4dev_r2085/src/peak/util/Graph.py:32-36 | `g == h` iff the pair sets are equal |
| Graph.Graph.Reachable | PEAK-0.5a4dev_r2085/src/peak/util/Graph.py:41-54 | `reachable(k)` is the set of nodes reachable from `k` along one or more edges, minus `k` itself |
| Graph.ReachSet | PEAK-0.5a4dev_r2085/src/peak/util/Graph.py:41-54 | the nodes reachable from `k` (with `k`) form a set closed under edges |
| Graph.SearchDone | PEAK-0.5a4dev_r2085/src/peak/util/Graph.py:47-53 | when the stack is empty the visited set is exactly the reachable set |
| Graph.VisitKeepsInv | PEAK-0.5a4dev_r2085/src/peak/util/Graph.py:48-52 | visiting a new node and pushing its neighbours keeps the search invariant and leaves fewer nodes to visit |
| Graph.SkipKeepsInv | PEAK-0.5a4dev_r2085/src/peak/util/Graph.py:48-49 | popping an already visited node keeps the search invariant |
| Graph.FromKeys | PEAK-0.5a4dev_r2085/src/peak/util/Graph.py:13-15 | `fromkeys(keys)` is the identity relation on `keys` |
| Options.FirstInvalid | PEAK-0.5a4dev_r2085/src/peak/running/options.py:139-144 | the first name not beginning with `-` or beginning with `---`, none iff all are valid |
| Options.DeclareRules | PEAK-0.5a4dev_r2085/src/peak/running/options.py:127-162 | an option declaration succeeds iff it has names, all valid, exactly one of a type and a value, and no `metavar` without a type; a typed option takes one argument, its `metavar` defaulting to the type's name in upper case, and an option with a value takes none; it is repeatable as its `repeatable` keyword says, and without one as its class says (`Add`, `Append` yes, `Set`, `Handler` no) |
| Options.NameExamples | PEAK-0.5a4dev_r2085/src/peak/running/options.py:140 | `-x` and `--long` are valid names; `---x`, `x` and the empty name are not |
| Options.KeyCounter.constructor | PEAK-0.5a4dev_r2085/src/peak/running/options.py:23 | the creation counter starts at 0 |
| Options.KeyCounter.GenKey | PEAK-0.5a4dev_r2085/src/peak/running/options.py:25-28 | `_gen_key` returns one more than the last key drawn |
| Options.Convert | PEAK-0.5a4dev_r2085/src/peak/running/options.py:179-189 | `convert`: the constant when there is one; otherwise the converted argument, or the "not a valid" error iff the type rejects it |
| Options.OptionParser.constructor | PEAK-0.5a4dev_r2085/src/peak/running/options.py:195-196 | a parser with no use counts yet |
| Options.OptionParser.CheckRepeat | PEAK-0.5a4dev_r2085/src/peak/running/options.py:192-203 | `check_repeat` counts uses of non-repeatable options and refuses the second |
| Options.OptionParser.Use | PEAK-0.5a4dev_r2085/src/peak/running/options.py:206-244 | the callbacks of `Set` (assign), `Add` (add), `Append` (append) and `Handler` (call), each after the repeat check and conversion |
| Options.UsedSnoc | PEAK-0.5a4dev_r2085/src/peak/running/options.py:192-203 | an option is used in a longer run iff it was before or is the last use |
| Options.RepeatStep | PEAK-0.5a4dev_r2085/src/peak/running/options.py:198-203 | the last use is refused iff it is of a non-repeatable option used before |
| Options.OnlyOnce | PEAK-0.5a4dev_r2085/src/peak/running/options.py:192-244 | within one parse a non-repeatable option is refused at its second use, the first such use is the one refused, and a repeatable one is never refused |
| Options.KeysIdentifyPrefix | PEAK-0.5a4dev_r2085/src/peak/running/options.py:162 | distinct options keep distinct keys in any prefix of the uses |
| Options.NoRepeatPrefix | PEAK-0.5a4dev_r2085/src/peak/running/options.py:192-203 | a run without a refused use has none in any prefix |
| Options.OptMapLastWins | PEAK-0.5a4dev_r2085/src/peak/running/options.py:329 | the option map sends a name to the option of its last registration that has one, and only registered names |
| Options.KeptNames | PEAK-0.5a4dev_r2085/src/peak/running/options.py:165-169 | `makeOption` with an option map keeps exactly the names still mapped to the option |
| Options.RegisteredSnoc | PEAK-0.5a4dev_r2085/src/peak/running/options.py:332-338 | an option is registered in a longer list iff it was before or is the last |
| Options.CollectedOptions | PEAK-0.5a4dev_r2085/src/peak/running/options.py:332-338 | exactly the registered options are collected |
| Options.CollectedOnce | PEAK-0.5a4dev_r2085/src/peak/running/options.py:333-338 | no option is collected twice |
| Options.CollectedEntries | PEAK-0.5a4dev_r2085/src/peak/running/options.py:332-338 | each collected entry has its option's kept names and the attribute of its first registration |
| Base.Sort | PEAK-0.5a4dev_r2085/src/peak/running/options.py:348 | `list.sort()` under a comparison: a permutation of the input, sorted whenever the comparison orders any two elements |
| Base.Insert | PEAK-0.5a4dev_r2085/src/peak/running/options.py:348 | one insertion: adds exactly the element, and keeps a sorted list sorted under a total comparison |
| Base.SortMembers | PEAK-0.5a4dev_r2085/src/peak/running/options.py:348 | sorting keeps exactly the members |
| Base.SortKeepsDistinct | PEAK-0.5a4dev_r2085/src/peak/running/options.py:348 | sorting a list without repeats gives one without repeats |
| Base.InsertKeepsDistinct | PEAK-0.5a4dev_r2085/src/peak/running/options.py:348 | inserting a new element keeps a list without repeats |
| Options.InGroupSnoc | PEAK-0.5a4dev_r2085/src/peak/running/options.py:335-337 | one more entry joins its group's list only |
| Options.InGroupMembers | PEAK-0.5a4dev_r2085/src/peak/running/options.py:335-337 | a group's list holds exactly the collected entries of that group |
| Options.CollectLists | PEAK-0.5a4dev_r2085/src/peak/running/options.py:329-338 | the registration loop builds, per group, the collected entries of that group, and no empty list |
| Options.GroupLists | PEAK-0.5a4dev_r2085/src/peak/running/options.py:340-350 | each group appears once with its options sorted by key |
| Options.MakeParser | PEAK-0.5a4dev_r2085/src/peak/running/options.py:288-356 | `make_parser`: the parser's own options sorted by key, then the groups sorted by key, each with its options sorted by key |
| Options.ShownOnce | PEAK-0.5a4dev_r2085/src/peak/running/options.py:329-354 | every option shown is registered, shown once in its own group with the names still mapped to it, and every registered option is shown |
| Options.InGroupDistinct | PEAK-0.5a4dev_r2085/src/peak/running/options.py:335-338 | a group's list has no option twice |
| Options.Strip | PEAK-0.5a4dev_r2085/src/peak/running/options.py:315 | `strip` never lengthens the text |
| Options.ExitRules | PEAK-0.5a4dev_r2085/src/peak/running/options.py:310-317 | `_exit_parser`: a message becomes an `InvocationError` without the program prefix, stripped; without one only a nonzero status exits |
| Options.Declare | PEAK-0.5a4dev_r2085/src/peak/running/options.py:127-162 | an option declaration as a specification function; what it accepts and builds is stated by `Options.DeclareRules` |
| Options.Repeat | PEAK-0.5a4dev_r2085/src/peak/running/options.py:192-203 | `check_repeat`: repeatable options are not counted; any other option's count goes up by one, and the use is refused, naming the option string, exactly when it had been used before; no other option's count changes |
| Options.Callback | PEAK-0.5a4dev_r2085/src/peak/running/options.py:206-244 | the callbacks count uses as `check_repeat` does; a refused or failed callback, and any `Handler`, change no value; only the option's attribute can change, and it holds a value after a successful `Set`, `Add` or `Append` |
| Options.OptMap | PEAK-0.5a4dev_r2085/src/peak/running/options.py:329-329 | the option map as a specification function; `Options.OptMapLastWins` states that a name maps to the option of its last registration |
| Options.Collected | PEAK-0.5a4dev_r2085/src/peak/running/options.py:332-338 | `make_parser` collects no more entries than there are registrations; which ones is stated by `Options.CollectedOptions`, `Options.CollectedOnce` and `Options.CollectedEntries` |
| Options.ExitParser | PEAK-0.5a4dev_r2085/src/peak/running/options.py:310-317 | `_exit_parser` as a specification function; its three outcomes are stated by `Options.ExitRules` |
| Places.PosixJoin | PEAK-0.5a4dev_r2085/build/lib.macosx-10.6-x86_64-2.7/peak/web/places.py:134 | `posixpath.join`: an absolute second part wins; otherwise the parts are joined with a `/` unless the first is empty or ends in one |
| Places.PlaceUrlRules | PEAK-0.5a4dev_r2085/build/lib.macosx-10.6-x86_64-2.7/peak/web/places.py:124-139 | `place_url`: no name or a parent that is no place gives the root `''`; the name `''` shares the parent's URL; any other relative name extends the parent's URL and ends it |
| Places.Names | PEAK-0.5a4dev_r2085/build/lib.macosx-10.6-x86_64-2.7/peak/web/places.py:124-139 | the non-empty names from the root place down to the component |
| Places.NamesPlain | PEAK-0.5a4dev_r2085/build/lib.macosx-10.6-x86_64-2.7/peak/web/places.py:124-139 | on a plain chain no name holds `/` |
| Places.PlaceUrlJoins | PEAK-0.5a4dev_r2085/build/lib.macosx-10.6-x86_64-2.7/peak/web/places.py:124-139 | on a plain chain `place_url` is the names from the root joined by `/` |
| Places.JoinLast | PEAK-0.5a4dev_r2085/build/lib.macosx-10.6-x86_64-2.7/peak/web/places.py:134 | names without `/`, none empty, join to a text that is empty iff there are none and never ends in `/` |
| Places.FirstHitIsFirst | PEAK-0.5a4dev_r2085/build/lib.macosx-10.6-x86_64-2.7/peak/web/places.py:177-187 | the first container that may be searched and resolves the name gives the result; no such container means no hit |
| Places.FirstHitAppend | PEAK-0.5a4dev_r2085/build/lib.macosx-10.6-x86_64-2.7/peak/web/places.py:177-187 | searching `front` then `back` finds `front`'s hit when there is one, else `back`'s |
| Places.Location.constructor | PEAK-0.5a4dev_r2085/build/lib.macosx-10.6-x86_64-2.7/peak/web/places.py:173 | a location with no containers, known by its own object |
| Places.Location.AddContainer | PEAK-0.5a4dev_r2085/build/lib.macosx-10.6-x86_64-2.7/peak/web/places.py:197-199 | `addContainer` puts the container with its permission in front of those already added |
| Places.Location.TraverseTo | PEAK-0.5a4dev_r2085/build/lib.macosx-10.6-x86_64-2.7/peak/web/places.py:175-189 | `traverseTo`: the first permitted container resolving the name gives the context found; then the parent context of the clone made for that container (the clone itself from a start context, the caller's `previous` otherwise) is re-pointed from the container to the location; with no such container, `traverseDefault` on the location |
| Places.Up | PEAK-0.5a4dev_r2085/build/lib.macosx-10.6-x86_64-2.7/peak/web/places.py:181-186 | from a start context the clone at the container is re-pointed: a context found keeps its object, and its parent becomes the location exactly when it was the container |
| Places.TraversedFound | PEAK-0.5a4dev_r2085/build/lib.macosx-10.6-x86_64-2.7/peak/web/places.py:177-189 | traversal ends at the default exactly when no searchable container resolves the name, and otherwise at the context of the first one that does, re-pointed as `Repointed` says for the kind of context traversal starts from |
| Places.Repointed | PEAK-0.5a4dev_r2085/build/lib.macosx-10.6-x86_64-2.7/peak/web/places.py:184-186 | the re-pointing step: from a start context the found context's parent moves from the container to the location; from an ordinary context the found context is left as it is and the caller's `previous` moves to the location exactly when it was at the container |
| Places.WithinKeepsParent | PEAK-0.5a4dev_r2085/build/lib.macosx-10.6-x86_64-2.7/peak/web/places.py:181-187 | from an ordinary context the context returned is the one the container gave, so a parent at the container stays there |
| Places.AddedLastWins | PEAK-0.5a4dev_r2085/build/lib.macosx-10.6-x86_64-2.7/peak/web/tests/test_resources.py:94-108 | a container added last is searched first; from a start context, as in the test, a context found with the container as parent has `..` leading back to the location; from an ordinary context the context is returned unchanged and only the caller's `previous` is re-pointed when it was at the container |
| Places.Resolved | PEAK-0.5a4dev_r2085/build/lib.macosx-10.6-x86_64-2.7/peak/web/places.py:303-310 | the results of the items that resolve the name, in item order |
| Places.MultiTraverse | PEAK-0.5a4dev_r2085/build/lib.macosx-10.6-x86_64-2.7/peak/web/places.py:299-321 | `MultiTraverser.traverseTo`: nothing resolving raises `NotFound` or gives the default; one gives its result; several give a new traverser over them |
| Places.ResolvedMembers | PEAK-0.5a4dev_r2085/build/lib.macosx-10.6-x86_64-2.7/peak/web/places.py:303-310 | the results are exactly what the items resolve to |
| Places.ResolvedAppend | PEAK-0.5a4dev_r2085/build/lib.macosx-10.6-x86_64-2.7/peak/web/places.py:303-310 | traversing two lists of items in turn resolves what each resolves, in order |
| Places.MultiOutcomes | PEAK-0.5a4dev_r2085/build/lib.macosx-10.6-x86_64-2.7/peak/web/places.py:312-321 | no result is `NotFound` or the default, one is itself, several a traverser that resolves further names as its results do |
| Places.PlaceUrl | PEAK-0.5a4dev_r2085/build/lib.macosx-10.6-x86_64-2.7/peak/web/places.py:124-139 | `place_url` as a specification function; its cases are stated by `Places.PlaceUrlRules` and its joined form by `Places.PlaceUrlJoins` |
| Places.FirstHit | PEAK-0.5a4dev_r2085/build/lib.macosx-10.6-x86_64-2.7/peak/web/places.py:177-187 | the container search loop as a specification function; `Places.FirstHitIsFirst` and `Places.FirstHitAppend` state which container answers |
| Places.Traversed | PEAK-0.5a4dev_r2085/build/lib.macosx-10.6-x86_64-2.7/peak/web/places.py:175-189 | the context `traverseTo` returns and the caller's parent context afterwards, as a specification function; `Places.TraversedFound`, `Places.WithinKeepsParent` and `Places.AddedLastWins` state where they come from |
| Resources.NonEmpty | PEAK-0.5a4dev_r2085/src/peak/web/resources.py:31 | `filter(None, parts)` keeps exactly the non-empty parts, in order |
| Resources.NonEmptyKeeps | PEAK-0.5a4dev_r2085/src/peak/web/resources.py:31 | a list with no empty part is kept as it is |
| Resources.PropertyParts | PEAK-0.5a4dev_r2085/src/peak/web/resources.py:29-33 | `filenameAsProperty`: the filename's non-empty dot-separated parts, reversed; none empty, none holding a dot |
| Resources.PropertyRoundTrip | PEAK-0.5a4dev_r2085/src/peak/web/resources.py:29-33 | reversing the property's parts gives back the filename with its empty parts dropped, and the filename itself when it has none |
| Resources.Prefixes | PEAK-0.5a4dev_r2085/src/peak/web/resources.py:112-114 | the dot-prefixes of a filename: its first one, two, ... parts joined again, shortest first |
| Resources.PrefixesGrow | PEAK-0.5a4dev_r2085/src/peak/web/resources.py:112-114 | a longer dot-prefix is a longer string |
| Resources.PrefixesDistinct | PEAK-0.5a4dev_r2085/src/peak/web/resources.py:112-114 | a filename's dot-prefixes are distinct, so each filename is listed once under each |
| Resources.AddPrefixes | PEAK-0.5a4dev_r2085/src/peak/web/resources.py:112-114 | a filename added under each of its dot-prefixes |
| Resources.Filenames | PEAK-0.5a4dev_r2085/src/peak/web/resources.py:107-115 | `filenames`: every dot-prefix of each listed filename, except `.` and `..`, with the filenames that have it, in listing order |
| Resources.MatchesMembers | PEAK-0.5a4dev_r2085/src/peak/web/resources.py:107-115 | the index holds a filename under a key iff the filename is listed and has the key as a dot-prefix |
| Resources.OwnPrefix | PEAK-0.5a4dev_r2085/src/peak/web/resources.py:112-114 | every listed filename is its own longest dot-prefix |
| Resources.Choose | PEAK-0.5a4dev_r2085/src/peak/web/resources.py:125-142 | the name itself when it is a target, the only target when there is one, none when there are none or several and the name is not among them |
| Resources.ChooseListed | PEAK-0.5a4dev_r2085/src/peak/web/resources.py:124-142 | a listed filename selects itself; a prefix of one filename selects it; an ambiguous prefix selects nothing |
| Resources.LookupCached | PEAK-0.5a4dev_r2085/src/peak/web/resources.py:133-137 | a second lookup answers from the cache as the first did: a name found invisible stays missing, a found object is returned as is |
| Resources.LookupRules | PEAK-0.5a4dev_r2085/src/peak/web/resources.py:124-163 | a lookup fails iff the name selects no file or the file is not visible; otherwise the object built for the file, unless cached; only the name asked for is cached |
| Resources.ResourceDirectory.constructor | PEAK-0.5a4dev_r2085/src/peak/web/resources.py:107-117 | a directory with its filename index and an empty cache |
| Resources.ResourceDirectory.GetItem | PEAK-0.5a4dev_r2085/src/peak/web/resources.py:124-163 | `__getitem__` computes the lookup and leaves the cache as it says |
| Resources.MethodGating | PEAK-0.5a4dev_r2085/src/peak/web/resources.py:299-326 | a file has no sub-objects; only `GET` and `HEAD`, in any case, are answered, `304` when the client has it, only `GET` sends data, and the length header comes first |
| Resources.MethodExamples | PEAK-0.5a4dev_r2085/src/peak/web/resources.py:300-315 | `get` is served with data, `head` without, `post` is refused, a path below the file is not found |
| Resources.FilenameAsProperty | PEAK-0.5a4dev_r2085/src/peak/web/resources.py:29-33 | `filenameAsProperty` as a specification function; what it gives is stated by `Resources.PropertyParts` and `Resources.PropertyRoundTrip` |
| Resources.MatchesListed | PEAK-0.5a4dev_r2085/src/peak/web/resources.py:107-115 | the index entry for a key: only listed filenames (not `.` or `..`) that have the key as a dot-prefix, and no more entries than the listing has |
| Resources.Lookup | PEAK-0.5a4dev_r2085/src/peak/web/resources.py:124-163 | a failed lookup raises with the name asked for; the cache only ever gains or changes the entry for that name |
| Resources.HandleHttp | PEAK-0.5a4dev_r2085/src/peak/web/resources.py:299-326 | a path below a file is not found and nothing else is; a served reply is never one the client already has, and its first header is the length |
| Security.DenialProperties | PEAK-0.5a4dev_r2085/build/lib.macosx-10.6-x86_64-2.7/peak/security/rules.py:83-99 | a `Denial` is false, has length 0 and shows as its message |
| Security.FirstDeclared | PEAK-0.5a4dev_r2085/build/lib.macosx-10.6-x86_64-2.7/peak/security/rules.py:124-139 | the permission of the most specific class in the method resolution order that declares one, or none iff none does |
| Security.AttrDecls | PEAK-0.5a4dev_r2085/build/lib.macosx-10.6-x86_64-2.7/peak/security/rules.py:133-139 | the classes declaring a permission for the attribute, with that permission |
| Security.PermissionForDefaults | PEAK-0.5a4dev_r2085/build/lib.macosx-10.6-x86_64-2.7/peak/security/rules.py:51-57 | with no declaration, the object itself needs `Anybody` and an attribute needs nothing (None) |
| Security.DeclaredPermission | PEAK-0.5a4dev_r2085/build/lib.macosx-10.6-x86_64-2.7/peak/security/rules.py:124-139 | a permission declared on the subject's own class, for the object or an attribute, is what `permissionFor` returns |
| Security.InheritedPermission | PEAK-0.5a4dev_r2085/build/lib.macosx-10.6-x86_64-2.7/peak/security/rules.py:133-139 | a base class's declaration applies when no more specific class overrides it |
| Security.HasPermissionRules | PEAK-0.5a4dev_r2085/build/lib.macosx-10.6-x86_64-2.7/peak/security/rules.py:64-74 | `Anybody` is always granted; `Nobody` is denied "Access forbidden"; anything else without an application rule is denied "Access denied." |
| Security.DefaultAccess | PEAK-0.5a4dev_r2085/build/lib.macosx-10.6-x86_64-2.7/peak/security/rules.py:51-74 | an undeclared attribute is never accessible and an undeclared object is always visible |
| Security.PermissionFor | PEAK-0.5a4dev_r2085/build/lib.macosx-10.6-x86_64-2.7/peak/security/rules.py:48-57 | `permissionFor`: the subject itself (no attribute name) always needs some permission, `Anybody` unless declared otherwise |
| Security.HasPermission | PEAK-0.5a4dev_r2085/build/lib.macosx-10.6-x86_64-2.7/peak/security/rules.py:60-74 | `hasPermission` grants only for `Anybody` or when the application's rule for a declared permission grants; no permission, or `Nobody`, is always a denial |
| SiteMaps.Nearest | PEAK-0.5a4dev_r2085/src/peak/web/sitemaps.py:12-19 | the nearest dictionary, from the current one outwards, that holds the key |
| SiteMaps.AcquireNearest | PEAK-0.5a4dev_r2085/src/peak/web/sitemaps.py:12-19 | `acquire` gives the value of the nearest dictionary holding the key, and the default iff none does |
| SiteMaps.FindComponentData | PEAK-0.5a4dev_r2085/src/peak/web/sitemaps.py:34-38 | `findComponentData`: the nearest enclosing dictionary that holds a component, or none when no enclosing one does |
| SiteMaps.Choose | PEAK-0.5a4dev_r2085/src/peak/web/sitemaps.py:67-81 | `choose`: the loop's result, or the "exactly one" error |
| SiteMaps.ChooseExactlyOne | PEAK-0.5a4dev_r2085/src/peak/web/sitemaps.py:67-81 | `choose` succeeds iff exactly one listed name is present, giving that name with its value |
| SiteMaps.ChooseExamples | PEAK-0.5a4dev_r2085/src/peak/web/sitemaps.py:67-81 | no name present and two names present are errors; one gives that name |
| SiteMaps.LocationNaming | PEAK-0.5a4dev_r2085/src/peak/web/sitemaps.py:247-271 | a location must sit directly inside the element holding the enclosing component; the root location has no name of its own; every other one has a non-empty name |
| SiteMaps.StartedEntries | PEAK-0.5a4dev_r2085/src/peak/web/sitemaps.py:247-276 | a started location holds its component and an empty container queue, keeping its other entries, with the permission its `permission` attribute evaluates to |
| SiteMaps.ContainerAdded | PEAK-0.5a4dev_r2085/src/peak/web/sitemaps.py:329-347 | `doContainer`: attributes other than `lookup`, `object` and `permission` are refused; then the container is queued with the permission in force on the enclosing location's queue |
| SiteMaps.ContainerAttributesListed | PEAK-0.5a4dev_r2085/src/peak/web/sitemaps.py:329-331 | a container with an unlisted attribute is refused before anything changes; an accepted one had only listed attributes |
| SiteMaps.ContainerValidated | PEAK-0.5a4dev_r2085/src/peak/web/sitemaps.py:332-347 | after validation the result keeps one dictionary per open element |
| SiteMaps.LocationAttributes | PEAK-0.5a4dev_r2085/src/peak/web/sitemaps.py:206-207 | a location with an attribute other than `name`, `class`, `id`, `permission`, `extends` and `config` is refused before anything changes; an accepted one had only those |
| SiteMaps.WithPermission | PEAK-0.5a4dev_r2085/src/peak/web/sitemaps.py:46-50 | `acquirePermission`: a `permission` attribute is evaluated and stored; without one nothing changes |
| SiteMaps.ContainerAttributes | PEAK-0.5a4dev_r2085/src/peak/web/sitemaps.py:337-346 | a container needs exactly one of `object` and `lookup`, and then joins the end of its location's queue |
| SiteMaps.AsContainers | PEAK-0.5a4dev_r2085/src/peak/web/sitemaps.py:21-25 | the containers a queue registers, in queue order |
| SiteMaps.QueueOrderSearched | PEAK-0.5a4dev_r2085/src/peak/web/sitemaps.py:21-25 | once registered, a location searches its containers in document order, before those it had |
| SiteMaps.ContainerSequence | PEAK-0.5a4dev_r2085/src/peak/web/sitemaps.py:21-25 | of two containers resolving the same name the one declared first is found |
| SiteMaps.SiteMapReader.constructor | PEAK-0.5a4dev_r2085/src/peak/web/sitemaps.py:421-428 | the dictionaries of a site map being read |
| SiteMaps.SiteMapReader.Acquire | PEAK-0.5a4dev_r2085/src/peak/web/sitemaps.py:12-19 | the loop of `acquire` computes the nearest value |
| SiteMaps.SiteMapReader.StartLocation | PEAK-0.5a4dev_r2085/src/peak/web/sitemaps.py:247-276 | `startLocation`: attribute validation against the location attributes, the naming rules, the conflict manager taken over for an included root, and the new component with an empty queue |
| SiteMaps.SiteMapReader.Start | PEAK-0.5a4dev_r2085/src/peak/web/sitemaps.py:249-276 | the rest of `startLocation` once the attributes are validated |
| SiteMaps.SiteMapReader.DoContainer | PEAK-0.5a4dev_r2085/src/peak/web/sitemaps.py:329-347 | `doContainer`: attribute validation against `lookup`, `object` and `permission`, the one-of rule, and the container queued |
| SiteMaps.SiteMapReader.QueueContainer | PEAK-0.5a4dev_r2085/src/peak/web/sitemaps.py:332-347 | the rest of `doContainer` once the attributes are validated |
| SiteMaps.SiteMapReader.FinishComponent | PEAK-0.5a4dev_r2085/src/peak/web/sitemaps.py:21-29 | `finishComponent`: queued registrations popped last first, so containers end in document order, then the conflict manager's settings applied unless root or `no_resolve` |
| SiteMaps.SiteMapReader.AddSetting | PEAK-0.5a4dev_r2085/src/peak/web/sitemaps.py:150-155 | `addSetting`: a setting conflicting with one made for the key is refused |
| SiteMaps.AsContainersSnoc | PEAK-0.5a4dev_r2085/src/peak/web/sitemaps.py:21-25 | one more queued container |
| SiteMaps.SameSettingConflicts | PEAK-0.5a4dev_r2085/src/peak/web/sitemaps.py:150-155 | two settings for one key from the same include path conflict: the first is made and the second refused |
| SiteMaps.AcquireAtFound | PEAK-0.5a4dev_r2085/src/peak/web/sitemaps.py:12-19 | `acquire(data, key, default)`: the current dictionary's value when it holds the key, the default when no dictionary out to the document's holds it, and otherwise a value some enclosing dictionary holds |
| SiteMaps.LocationStarted | PEAK-0.5a4dev_r2085/src/peak/web/sitemaps.py:247-248 | `startLocation` fails with the validation error exactly when the attributes are not among `locOptional` (with none required), and then leaves the element's dictionary as it was |
| SiteMaps.SiteMapReader.FindComponent | PEAK-0.5a4dev_r2085/src/peak/web/sitemaps.py:34-38 | the loop of `findComponentData` computes `SiteMaps.FindComponentData` for the innermost dictionary |
| SiteMaps.SiteMapReader.Register | PEAK-0.5a4dev_r2085/src/peak/web/sitemaps.py:21-25 | the pop loop of `finishComponent`: the queued containers are added last first, so the location's container list becomes the queue in order ahead of what it held |
| Sox.Find | PEAK-0.5a4dev_r2085/src/peak/util/SOX.py:531-532 | the first `:` splits a name: the index found holds `c` and no earlier position does; none means `c` does not occur |
| Sox.SplitName | PEAK-0.5a4dev_r2085/src/peak/util/SOX.py:530-538 | `splitName`: an unprefixed name uses the default prefix `''`; a prefix with declared URIs resolves to the innermost one; otherwise `(None, name)` with the whole name |
| Sox.SplitPrefixed | PEAK-0.5a4dev_r2085/src/peak/util/SOX.py:531-536 | `p:local` with a URI declared for `p` resolves to that URI and the local part |
| Sox.Prefixes | PEAK-0.5a4dev_r2085/src/peak/util/SOX.py:596-598 | the prefixes a frame declared, one per declaration, in order |
| Sox.PushAllGet | PEAK-0.5a4dev_r2085/src/peak/util/SOX.py:522-523 | after the declarations each prefix's URI list is extended by the URIs declared for it, in order |
| Sox.PrefixesCount | PEAK-0.5a4dev_r2085/src/peak/util/SOX.py:522-524 | the number of URIs pushed for a prefix equals the number of times the frame lists it |
| Sox.PopAllGet | PEAK-0.5a4dev_r2085/src/peak/util/SOX.py:596-598 | popping once per listed prefix drops that many URIs from the end of the prefix's list |
| Sox.NamespacesRestored | PEAK-0.5a4dev_r2085/src/peak/util/SOX.py:522-598 | `endElement` undoes the namespace declarations of `startElement`: every prefix resolves as before |
| Sox.SplitNameRestored | PEAK-0.5a4dev_r2085/src/peak/util/SOX.py:530-598 | so `splitName` gives the same answer after an element closes as before it opened |
| Sox.Pairs | PEAK-0.5a4dev_r2085/src/peak/util/SOX.py:544-550 | the flat attribute list read two at a time: pair `i` is items `2i` and `2i+1` |
| Sox.Declaration | PEAK-0.5a4dev_r2085/src/peak/util/SOX.py:551-555 | only `xmlns` and `xmlns:p` attributes declare a namespace |
| Sox.ScanNegotiated | PEAK-0.5a4dev_r2085/src/peak/util/SOX.py:548-557 | the negotiated attributes are exactly the prefixed ones that are not `xmlns:` declarations |
| Sox.ScanDeclarations | PEAK-0.5a4dev_r2085/src/peak/util/SOX.py:548-557 | the declarations are exactly those made by `xmlns` (prefix `''`) and `xmlns:p` attributes (prefix `p`) |
| Sox.CachedLookup | PEAK-0.5a4dev_r2085/src/peak/util/SOX.py:559-573 | a cached negotiator wins and leaves the cache as it was; otherwise the lookup's answer is returned and stored; older entries are kept |
| Sox.OpenedFrame | PEAK-0.5a4dev_r2085/src/peak/util/SOX.py:541-580 | the frame `startElement` pushes keeps name and attributes in order, lists its declared prefixes, saves the caches exactly when it declares some, and closing it restores name resolution |
| Sox.NegotiatingParser.constructor | PEAK-0.5a4dev_r2085/src/peak/util/SOX.py:514-519 | empty caches and namespaces, one root frame, lookups that find nothing |
| Sox.NegotiatingParser.ResetCachesOf | PEAK-0.5a4dev_r2085/src/peak/util/SOX.py:607-613 | `resetCaches` saves the caches once per frame and empties both |
| Sox.NegotiatingParser.ResetCaches | PEAK-0.5a4dev_r2085/src/peak/util/SOX.py:607-613 | the same on the top frame; the rest of the stack is untouched |
| Sox.NegotiatingParser.Declare | PEAK-0.5a4dev_r2085/src/peak/util/SOX.py:522-527 | `addNamespace` on a frame: the URI pushed for the prefix, the prefix recorded, the caches reset |
| Sox.NegotiatingParser.AddNamespace | PEAK-0.5a4dev_r2085/src/peak/util/SOX.py:522-527 | `addNamespace` on the top frame, the frames below untouched |
| Sox.NegotiatingParser.SetLookups | PEAK-0.5a4dev_r2085/src/peak/util/SOX.py:638-652 | `setLookups`: caches reset, the old lookups saved once per frame, each given lookup installed and an omitted one kept |
| Sox.NegotiatingParser.ScanAttributes | PEAK-0.5a4dev_r2085/src/peak/util/SOX.py:548-557 | the attribute loop keeps every pair, applies the declarations and collects the negotiated pairs; caches are reset iff something is declared |
| Sox.NegotiatingParser.StartElement | PEAK-0.5a4dev_r2085/src/peak/util/SOX.py:541-580 | `startElement`: an error inside an element marked empty; otherwise the frame is pushed, declarations applied, the element then its attributes negotiated, and the `start` callback returned |
| Sox.NegotiatingParser.OpenFrame | PEAK-0.5a4dev_r2085/src/peak/util/SOX.py:543-576 | the frame-building part of `startElement` equals the functional `Opened` |
| Sox.NegotiatingParser.NegotiateFrame | PEAK-0.5a4dev_r2085/src/peak/util/SOX.py:559-576 | element then attribute negotiation on the element's frame |
| Sox.NegotiatingParser.LookupElement | PEAK-0.5a4dev_r2085/src/peak/util/SOX.py:559-563 | the element negotiator through the element cache |
| Sox.NegotiatingParser.NegotiateAttributes | PEAK-0.5a4dev_r2085/src/peak/util/SOX.py:567-575 | the attribute negotiation loop through the attribute cache; it changes only the frame's callbacks |
| Sox.NegotiatingParser.PopNamespaces | PEAK-0.5a4dev_r2085/src/peak/util/SOX.py:596-598 | one URI popped per declared prefix |
| Sox.NegotiatingParser.EndElement | PEAK-0.5a4dev_r2085/src/peak/util/SOX.py:582-604 | `endElement`: the frame popped, a wrong name an assertion failure, the `finish` result handed to the parent's `child`, declarations undone and saved caches and lookups restored |
| Sox.NegotiatingParser.Text | PEAK-0.5a4dev_r2085/src/peak/util/SOX.py:664-667 | the top frame's `text` callback gets the text iff it has one |
| Sox.NegotiatingParser.Literal | PEAK-0.5a4dev_r2085/src/peak/util/SOX.py:669-672 | the top frame's `literal` callback gets the text iff it has one |
| Sox.NegotiatingParser.Comment | PEAK-0.5a4dev_r2085/src/peak/util/SOX.py:674-677 | a comment goes to `literal` wrapped as `<!--text-->`, the text intact inside |
| Sox.Node.constructor | PEAK-0.5a4dev_r2085/src/peak/util/SOX.py:253-258 | a node starts with no children and its attributes in its dictionary |
| Sox.Node.Get | PEAK-0.5a4dev_r2085/src/peak/util/SOX.py:273-274 | `_get`: the dictionary entry, or an empty list |
| Sox.Node.AddNode | PEAK-0.5a4dev_r2085/src/peak/util/SOX.py:260-265 | `_addNode` appends to both child lists and to the list under the name, creating it; an attribute of that name makes the last step fail |
| Sox.Node.AddText | PEAK-0.5a4dev_r2085/src/peak/util/SOX.py:270-271 | `_addText` appends the text to the list of everything |
| Sox.Unprefixed | PEAK-0.5a4dev_r2085/src/peak/util/SOX.py:477 | the unprefixed attributes, as a dictionary |
| Sox.FirstMissing | PEAK-0.5a4dev_r2085/src/peak/util/SOX.py:478-480 | the first required attribute that is absent, or none when all are present |
| Sox.FirstUnlisted | PEAK-0.5a4dev_r2085/src/peak/util/SOX.py:481-483 | an unprefixed attribute that is neither required nor optional, and none when every unprefixed attribute is listed |
| Sox.ValidatedAttributes | PEAK-0.5a4dev_r2085/src/peak/util/SOX.py:469-484 | `validatedAttributes` succeeds iff every required attribute is present and every unprefixed one is listed, returning the unprefixed attributes; missing ones are reported before unlisted ones |
| Sox.Scan | PEAK-0.5a4dev_r2085/src/peak/util/SOX.py:548-557 | the attribute scan picks out no more entries than there are attributes, and every negotiated entry is one of them with a prefixed, non-`xmlns` name; which ones exactly is stated by `Sox.ScanNegotiated` and `Sox.ScanDeclarations` |
| Sox.Negotiate | PEAK-0.5a4dev_r2085/src/peak/util/SOX.py:559-576 | element and attribute negotiation change only the frame's handlers; the name, attributes and everything else of the frame stay |
| Sql.BufName | PEAK-0.5a4dev_r2085/build/lib.macosx-10.6-x86_64-2.7/peak/tools/n2/sql.py:17-26 | `!.` and `!!` are kept; any other name loses exactly one leading `!`; a name without one is unchanged |
| Sql.Name | PEAK-0.5a4dev_r2085/build/lib.macosx-10.6-x86_64-2.7/peak/tools/n2/sql.py:907-946 | every lexer state is one of the source's state strings `''`, `'`, `"`, `/`, `C`, `*`, `D'`, `D"` |
| Sql.NameInjective | PEAK-0.5a4dev_r2085/build/lib.macosx-10.6-x86_64-2.7/peak/tools/n2/sql.py:907-946 | distinct lexer states have distinct state strings |
| Sql.Step | PEAK-0.5a4dev_r2085/build/lib.macosx-10.6-x86_64-2.7/peak/tools/n2/sql.py:911-944 | one character of the lexer: a `;` is recorded only while no `;` is recorded and only in a top-level state (outside literals and comments) |
| Sql.CorrectedDiffers | PEAK-0.5a4dev_r2085/build/lib.macosx-10.6-x86_64-2.7/peak/tools/n2/sql.py:909-944 | the corrected lexer takes the source's transition everywhere except in the three cases listed under Findings: `*` after `*` in a comment, a quote after `/`, a quote after a closed literal of the other kind |
| Sql.SlashRules | PEAK-0.5a4dev_r2085/build/lib.macosx-10.6-x86_64-2.7/peak/tools/n2/sql.py:917-923 | both lexers: after `/` a second `/` returns to the top level (so `//*;` records its `;`), and a `;` is recorded without leaving the `/` state (so `/;*` opens a comment) |
| Sql.Scan | PEAK-0.5a4dev_r2085/build/lib.macosx-10.6-x86_64-2.7/peak/tools/n2/sql.py:907-946 | a recorded index points at a `;` of the line, and only when none was recorded before |
| Sql.Extend | PEAK-0.5a4dev_r2085/build/lib.macosx-10.6-x86_64-2.7/peak/tools/n2/sql.py:911-944 | a recorded `;` is never changed afterwards |
| Sql.ScanRecordsFirstTopLevel | PEAK-0.5a4dev_r2085/build/lib.macosx-10.6-x86_64-2.7/peak/tools/n2/sql.py:907-946 | the recorded `;` is the first `;` met in a top-level state |
| Sql.ScanRecordsTopLevel | PEAK-0.5a4dev_r2085/build/lib.macosx-10.6-x86_64-2.7/peak/tools/n2/sql.py:907-946 | every `;` met at top level is recorded unless an earlier one was |
| Sql.ScanAppend | PEAK-0.5a4dev_r2085/build/lib.macosx-10.6-x86_64-2.7/peak/tools/n2/sql.py:907-946 | the lexer state carries across lines: lexing `a + b` is lexing `a` and then `b` from where `a` ended |
| Sql.ScanInsideQuote | PEAK-0.5a4dev_r2085/build/lib.macosx-10.6-x86_64-2.7/peak/tools/n2/sql.py:932-934 | inside a quoted string nothing but its closing quote changes the state, so a `;` there is never recorded |
| Sql.QuotedLiteral | PEAK-0.5a4dev_r2085/build/lib.macosx-10.6-x86_64-2.7/peak/tools/n2/sql.py:912-944 | a quoted literal opened in any top-level state records no `;` and ends just after its closing quote |
| Sql.ScanInsideComment | PEAK-0.5a4dev_r2085/build/lib.macosx-10.6-x86_64-2.7/peak/tools/n2/sql.py:924-931 | inside an unterminated comment the state is `*` exactly when the last character was `*` |
| Sql.CommentCloses | PEAK-0.5a4dev_r2085/build/lib.macosx-10.6-x86_64-2.7/peak/tools/n2/sql.py:917-931 | a `/* ... */` comment opened at the top level or after a closed literal records no `;` and returns to the top-level state |
| Sql.CommentOpens | PEAK-0.5a4dev_r2085/build/lib.macosx-10.6-x86_64-2.7/peak/tools/n2/sql.py:909-919 | `/` then `*` at the top level or after a closed literal opens a comment |
| Sql.CommentEnds | PEAK-0.5a4dev_r2085/build/lib.macosx-10.6-x86_64-2.7/peak/tools/n2/sql.py:927-929 | `*` then `/` inside a comment closes it |
| Sql.AsWrittenStarStarStaysInComment | PEAK-0.5a4dev_r2085/build/lib.macosx-10.6-x86_64-2.7/peak/tools/n2/sql.py:927-931 | as written, `/***/` leaves the lexer inside a comment; the corrected lexer ends outside it |
| Sql.AsWrittenQuoteAfterLiteral | PEAK-0.5a4dev_r2085/build/lib.macosx-10.6-x86_64-2.7/peak/tools/n2/sql.py:935-943 | as written, a `"` right after a closed `'a'` does not open a literal, so the `;` in `"b;c"` is recorded |
| Sql.CorrectedQuoteAfterLiteral | PEAK-0.5a4dev_r2085/build/lib.macosx-10.6-x86_64-2.7/peak/tools/n2/sql.py:935-943 | with the corrected lexer the same input records no `;` |
| Sql.AsWrittenQuoteAfterSlash | PEAK-0.5a4dev_r2085/build/lib.macosx-10.6-x86_64-2.7/peak/tools/n2/sql.py:917-923 | as written, a `'` right after a `/` does not open a literal, so the `;` in `'a;'` is recorded |
| Sql.CorrectedQuoteAfterSlash | PEAK-0.5a4dev_r2085/build/lib.macosx-10.6-x86_64-2.7/peak/tools/n2/sql.py:917-923 | with the corrected lexer the same input records no `;` |
| Sql.SourceLines | PEAK-0.5a4dev_r2085/build/lib.macosx-10.6-x86_64-2.7/peak/tools/n2/sql.py:611-619 | `\source` drops one trailing newline and splits at newlines; no line holds a newline |
| Sql.SourceLinesRoundTrip | PEAK-0.5a4dev_r2085/build/lib.macosx-10.6-x86_64-2.7/peak/tools/n2/sql.py:614-617 | the lines rejoined with newlines (plus the dropped one) give back the file |
| Sql.Pending | PEAK-0.5a4dev_r2085/build/lib.macosx-10.6-x86_64-2.7/peak/tools/n2/sql.py:950-952 | `readline` hands out `pushbuf` from its end |
| Sql.BeforeSemicolon | PEAK-0.5a4dev_r2085/build/lib.macosx-10.6-x86_64-2.7/peak/tools/n2/sql.py:93-94 | the text before the first `;`: a prefix of the line without `;`, followed by `;` when shorter |
| Sql.FirstWord | PEAK-0.5a4dev_r2085/build/lib.macosx-10.6-x86_64-2.7/peak/tools/n2/sql.py:96-97 | the first word has no whitespace and is empty iff the text is blank |
| Sql.CommandWord | PEAK-0.5a4dev_r2085/build/lib.macosx-10.6-x86_64-2.7/peak/tools/n2/sql.py:92-99 | the command word looked up is a non-empty word without `;`; there is none iff the text before the first `;` is blank |
| Sql.Interactor.constructor | PEAK-0.5a4dev_r2085/build/lib.macosx-10.6-x86_64-2.7/peak/tools/n2/sql.py:29-40 | a new interactor: top-level state, line 1, no `;` recorded, no buffers, nothing queued |
| Sql.Interactor.GetBuf | PEAK-0.5a4dev_r2085/build/lib.macosx-10.6-x86_64-2.7/peak/tools/n2/sql.py:139-147 | `getBuf` reads the shell variable for a `$` name and the buffer otherwise; a missing one reads as '' |
| Sql.Interactor.SetBuf | PEAK-0.5a4dev_r2085/build/lib.macosx-10.6-x86_64-2.7/peak/tools/n2/sql.py:151-163 | `setBuf` writes (or appends to) the shell variable for a `$` name and the buffer table otherwise; no other buffer changes |
| Sql.Interactor.ResetBuf | PEAK-0.5a4dev_r2085/build/lib.macosx-10.6-x86_64-2.7/peak/tools/n2/sql.py:167-169 | `resetBuf` sets state '', line 1, semi -1 and empties the current buffer `!.` |
| Sql.Interactor.UpdateState | PEAK-0.5a4dev_r2085/build/lib.macosx-10.6-x86_64-2.7/peak/tools/n2/sql.py:907-947 | `updateState` appends the line to the current buffer, keeps a recorded `semi`, and otherwise records the buffer index of the line's first top-level `;`, which points at a `;` of the new buffer; top-level is decided by the corrected lexer, which differs from the source's only in the three transitions under Findings (`Sql.CorrectedDiffers`) |
| Sql.Interactor.Feed | PEAK-0.5a4dev_r2085/build/lib.macosx-10.6-x86_64-2.7/peak/tools/n2/sql.py:102-112 | a non-command line bumps the line count and is lexed by the corrected lexer; once a `;` is recorded the buffer is cut before it and the text after it goes to `go` |
| Sql.Interactor.CutAtSemi | PEAK-0.5a4dev_r2085/build/lib.macosx-10.6-x86_64-2.7/peak/tools/n2/sql.py:107-112 | the cut keeps the text before the `;` plus a newline and returns the text after it |
| Sql.Interactor.ReadLine | PEAK-0.5a4dev_r2085/build/lib.macosx-10.6-x86_64-2.7/peak/tools/n2/sql.py:950-956 | `readline` pops the next queued line, else reads from the shell |
| Sql.Interactor.Source | PEAK-0.5a4dev_r2085/build/lib.macosx-10.6-x86_64-2.7/peak/tools/n2/sql.py:611-624 | `\source` queues the file's lines, in file order, after the lines already queued; an empty file queues nothing |
| Sql.PromptPlain | PEAK-0.5a4dev_r2085/build/lib.macosx-10.6-x86_64-2.7/peak/tools/n2/sql.py:61-66 | a prompt template without `$` is shown unchanged |
| Sql.PromptLineNumber | PEAK-0.5a4dev_r2085/build/lib.macosx-10.6-x86_64-2.7/peak/tools/n2/sql.py:61-66 | the template `$L> ` shows the current line number |
| SqlStorage.SafeStrCons | PEAK-0.5a4dev_r2085/build/lib.macosx-10.6-x86_64-2.7/peak/storage/SQL.py:15-16 | `sqlsafestr` escapes character by character from the left |
| SqlStorage.SafeStrLength | PEAK-0.5a4dev_r2085/build/lib.macosx-10.6-x86_64-2.7/peak/storage/SQL.py:15-16 | every `'` gains a partner and nothing else is added |
| SqlStorage.SafeStrNoQuotes | PEAK-0.5a4dev_r2085/build/lib.macosx-10.6-x86_64-2.7/peak/storage/SQL.py:15-16 | text without quotes passes through unchanged |
| SqlStorage.UnescapeSafeStr | PEAK-0.5a4dev_r2085/build/lib.macosx-10.6-x86_64-2.7/peak/storage/SQL.py:15-16 | the escaped text reads back as the original and holds no lone quote |
| SqlStorage.SafeStrUnique | PEAK-0.5a4dev_r2085/build/lib.macosx-10.6-x86_64-2.7/peak/storage/SQL.py:15-16 | the escaping is the only text with no lone quote that reads back as the original |
| SqlStorage.SafeStrExamples | PEAK-0.5a4dev_r2085/build/lib.macosx-10.6-x86_64-2.7/peak/storage/SQL.py:15-16 | `it's` becomes `it''s` |
| SqlStorage.SafeStrQuotesOnly | PEAK-0.5a4dev_r2085/build/lib.macosx-10.6-x86_64-2.7/peak/storage/SQL.py:15-16 | a text of quotes doubles in length |
| SqlStorage.SetTxnRules | PEAK-0.5a4dev_r2085/build/lib.macosx-10.6-x86_64-2.7/peak/storage/SQL.py:274-283 | `setTxnState`: outside a transaction with one started raises `TransactionInProgress`; inside one a database transaction is started iff none was; `None` changes nothing |
| SqlStorage.StartsOnce | PEAK-0.5a4dev_r2085/build/lib.macosx-10.6-x86_64-2.7/peak/storage/SQL.py:281-283 | once started, later statements start no second transaction |
| SqlStorage.SqlConnection.constructor | PEAK-0.5a4dev_r2085/build/lib.macosx-10.6-x86_64-2.7/peak/storage/SQL.py:271 | a connection's transaction flag, `True` generically and `False` on Sybase |
| SqlStorage.SqlConnection.SetTxnState | PEAK-0.5a4dev_r2085/build/lib.macosx-10.6-x86_64-2.7/peak/storage/SQL.py:274-283 | `setTxnState` joins the transaction first, then follows the rules |
| SqlStorage.ErrCodePrefix | PEAK-0.5a4dev_r2085/build/lib.macosx-10.6-x86_64-2.7/peak/storage/SQL.py:898-899 | `_errCode` is the longest prefix without `:` |
| SqlStorage.ErrCodeOf | PEAK-0.5a4dev_r2085/build/lib.macosx-10.6-x86_64-2.7/peak/storage/SQL.py:898-899 | the code of `code:detail` is `code` |
| SqlStorage.OracleCommitRule | PEAK-0.5a4dev_r2085/build/lib.macosx-10.6-x86_64-2.7/peak/storage/SQL.py:811-820 | a failed commit closes the connection and re-raises unless the code is `ORA-24756` |
| SqlStorage.OracleConnection.constructor | PEAK-0.5a4dev_r2085/build/lib.macosx-10.6-x86_64-2.7/peak/storage/SQL.py:791-792 | no transaction and no read-only transaction open |
| SqlStorage.OracleConnection.SetTxnState | PEAK-0.5a4dev_r2085/build/lib.macosx-10.6-x86_64-2.7/peak/storage/SQL.py:795-808 | the generic rule, then a read-only transaction whenever neither kind is open |
| SqlStorage.OracleConnection.CommitTransaction | PEAK-0.5a4dev_r2085/build/lib.macosx-10.6-x86_64-2.7/peak/storage/SQL.py:811-820 | `commitTransaction` follows the commit rule |
| SqlStorage.Converters | PEAK-0.5a4dev_r2085/build/lib.macosx-10.6-x86_64-2.7/peak/storage/SQL.py:250-255 | one converter per column, the null converter for an unknown type |
| SqlStorage.GetRowConverter | PEAK-0.5a4dev_r2085/build/lib.macosx-10.6-x86_64-2.7/peak/storage/SQL.py:247-269 | `getRowConverter`: a row converter when some converter is not the null one, else the bare post-processor |
| SqlStorage.ZipConvert | PEAK-0.5a4dev_r2085/build/lib.macosx-10.6-x86_64-2.7/peak/storage/SQL.py:261-266 | each column converted by its converter, stopping at the shorter |
| SqlStorage.RowConverterSound | PEAK-0.5a4dev_r2085/build/lib.macosx-10.6-x86_64-2.7/peak/storage/SQL.py:247-269 | on a row that fits the description the bare post-processor behaves as converting every column |
| SqlStorage.FetchedCount | PEAK-0.5a4dev_r2085/build/lib.macosx-10.6-x86_64-2.7/peak/storage/SQL.py:146-151 | the batches before the first empty `fetchmany` |
| SqlStorage.ConvertRows | PEAK-0.5a4dev_r2085/build/lib.macosx-10.6-x86_64-2.7/peak/storage/SQL.py:148-149 | every row converted, in fetch order |
| SqlStorage.IterateCursor | PEAK-0.5a4dev_r2085/build/lib.macosx-10.6-x86_64-2.7/peak/storage/SQL.py:124-155 | iterating a cursor: nothing without a result set; otherwise every row of every batch converted in order, then `TooManyResults` iff more sets remain and they are not allowed |
| SqlStorage.ConvertBatch | PEAK-0.5a4dev_r2085/build/lib.macosx-10.6-x86_64-2.7/peak/storage/SQL.py:148-149 | one batch's rows converted after those yielded before |
| SqlStorage.ModeBits | PEAK-0.5a4dev_r2085/build/lib.macosx-10.6-x86_64-2.7/peak/storage/SQL.py:462 | `sysstat2 >> 4 & 0x3` with Python's floor shift and two's-complement mask |
| SqlStorage.ModeBitsOnly | PEAK-0.5a4dev_r2085/build/lib.macosx-10.6-x86_64-2.7/peak/storage/SQL.py:462 | only bits 4 and 5 matter |
| SqlStorage.ProcModeValues | PEAK-0.5a4dev_r2085/build/lib.macosx-10.6-x86_64-2.7/peak/storage/SQL.py:462-463 | 0, 1, 2 name `unchained`, `chained`, `anymode`; 3 names none |
| SqlStorage.ModeOfNegative | PEAK-0.5a4dev_r2085/build/lib.macosx-10.6-x86_64-2.7/peak/storage/SQL.py:462 | a negative `sysstat2` decodes as in Python |
| SqlStorage.Unescape | PEAK-0.5a4dev_r2085/build/lib.macosx-10.6-x86_64-2.7/peak/storage/SQL.py:15-16 | reading an escaped literal back, the partner of `sqlsafestr`: never longer than the literal, and text without quotes reads as itself |
| SqlStorage.ConvertCol | PEAK-0.5a4dev_r2085/build/lib.macosx-10.6-x86_64-2.7/peak/storage/SQL.py:250-252 | a column bound to `NullConverter` passes through unchanged |
| SqlStorage.ApplyRow | PEAK-0.5a4dev_r2085/build/lib.macosx-10.6-x86_64-2.7/peak/storage/SQL.py:255-266 | calling the row converter: it can fail only when it is the bare `None` post-processor; a bare post-processor gets the row as fetched; a column-wise converter posts exactly when a post-processor was given, and on a row of the description's width keeps every column |
| StockData.WindowDays | StockData.py:23-28 | the copied window holds one consecutive day per row from `startDay`, up to `endDay` when it is not before the start, each with its row's closing price |
| StockData.DataCsvDays | StockData.py:14-29 | after the header and `startDay` skipped rows, day `d` maps to the closing price of data row `d`, for every day from `startDay` to `endDay` the file has a row for |
| StockData.WindowStep | StockData.py:24-28 | one pass of the copying loop moves one row's price into the dictionary |
| StockData.CopyWindow | StockData.py:23-29 | the copying loop computes the window |
| StockData.GetDataCsv | StockData.py:14-29 | `getDataCsv`, skipping loop then copying loop, gives the window, or the `StopIteration` of a file too short to skip |
| StockData.GetDayOffsetCsv | StockData.py:32-42 | `getDayOffsetCsv`: the 0-based index of the first data row with the date, 0 when none has it, and `StopIteration` for a file without header |
| StockData.DateValueShift | StockData.py:103-104 | `getDateValueCsv` shifts both ends of the range by `dateOffset` and reads the shifted days |
| StockData.Ends | StockData.py:89 | the inner comprehension: the slices starting at `i`, shortest first |
| StockData.OffsetTotal | StockData.py:89 | the slices starting before `i` number `i(2n-i+1)/2` |
| StockData.StartsIndex | StockData.py:89 | each slice `[t..j]` sits at its place in start-then-end order |
| StockData.StartsMembers | StockData.py:89 | every listed slice is a non-empty contiguous run |
| StockData.ContigSubsetsSpec | StockData.py:87-90 | `getAllContigSubsetsList`: n(n+1)/2 slices, every `alist[i..j]` at its place ordered by start then end, nothing else, none empty |
| StockData.ContigSubsetsExample | StockData.py:82-85 | the documented example for `['a','b','c']` |
| StockData.WithValues | StockData.py:74-75 | a run of keys paired with their values, in order |
| StockData.LongRunsMembers | StockData.py:68-77 | every kept run has at least two entries and is a listed slice with its values |
| StockData.SubsetsInMap | StockData.py:57-60 | every slice of the table's keys has its values in the table |
| StockData.ContigSubsetsDict | StockData.py:57-78 | `getAllContigSubsetsDict`: the slices longer than one, each as its keys with their values, in slice order |
| StockData.ContigSubsetsDictRuns | StockData.py:57-90 | each run returned has two or more entries whose keys are consecutive in the table's key order, with their values |
| StockPredictionMain.BetterPrediction | StockPredictionMain.py:39-59 | a rule applies iff `try1` holds and `try3` implies `try2`: (T,F,F) gives 10 days, (T,T,F) 20, (T,T,T) 30; otherwise no rule matches |
| StockPredictionMain.PyIndex | StockPredictionMain.py:36 | a list index is valid iff it lies in `[-len, len)`, negative ones counting from the end |
| StockPredictionMain.FireNext | StockPredictionMain.py:35-59 | with the rules before `k` tried, `tryRule(k)` fires rule `k+1` with `10(k+1)` days |
| StockPredictionMain.RetryTried | StockPredictionMain.py:187-196 | from `k` tried rules the loop never fails, tries rules in order, stops at the first difference within tolerance or after three tries |
| StockPredictionMain.RetryAfterReset | StockPredictionMain.py:192-196 | after a reset the loop tries rules 1, 2, 3 (10, 20, 30 days) in order and stops at the first result within tolerance, at most three tries |
| StockPredictionMain.RuleBased.constructor | StockPredictionMain.py:28-30 | `KB` is `numRules` false flags |
| StockPredictionMain.RuleBased.Reset | StockPredictionMain.py:32-33 | `reset` makes every flag false and keeps the length |
| StockPredictionMain.RuleBased.TryRule | StockPredictionMain.py:35-37 | `tryRule(n)` sets flag `n` and no other, then asks the rule table; a bad index changes nothing |
| StockPredictionMain.RetryLoop | StockPredictionMain.py:187-196 | the retry loop computes `Retry` from the flags it starts with |
| Templates.OptimizeChildren | PEAK-0.5a4dev_r2085/build/lib.macosx-10.6-x86_64-2.7/peak/web/templates.py:370-393 | the loop of `optimizedChildren` with its flushing buffer computes the coalesced children |
| Templates.CoalesceExpands | PEAK-0.5a4dev_r2085/build/lib.macosx-10.6-x86_64-2.7/peak/web/templates.py:370-393 | coalescing keeps what the children stand for: the same static characters and the same dynamic children, in order |
| Templates.CoalesceUnfold | PEAK-0.5a4dev_r2085/build/lib.macosx-10.6-x86_64-2.7/peak/web/templates.py:384-390 | one pass of the loop |
| Templates.CharsNoDyn | PEAK-0.5a4dev_r2085/build/lib.macosx-10.6-x86_64-2.7/peak/web/templates.py:377-382 | a flushed literal holds no dynamic child |
| Templates.CoalesceMaximal | PEAK-0.5a4dev_r2085/build/lib.macosx-10.6-x86_64-2.7/peak/web/templates.py:377-392 | no two literals end up side by side: each run of static children becomes one literal |
| Templates.CoalesceKeptDynamic | PEAK-0.5a4dev_r2085/build/lib.macosx-10.6-x86_64-2.7/peak/web/templates.py:384-388 | the children kept as they are are exactly the dynamic ones |
| Templates.CoalesceAllStatic | PEAK-0.5a4dev_r2085/build/lib.macosx-10.6-x86_64-2.7/peak/web/templates.py:370-393 | with every child static the result is one literal of all their texts, or nothing without children |
| Templates.StaticTexts | PEAK-0.5a4dev_r2085/build/lib.macosx-10.6-x86_64-2.7/peak/web/templates.py:354 | the static texts of children that all have one |
| Templates.QuoteEntities | PEAK-0.5a4dev_r2085/build/lib.macosx-10.6-x86_64-2.7/peak/web/templates.py:506 | every `"` replaced by `&quot;` |
| Templates.QuoteAttrDelimited | PEAK-0.5a4dev_r2085/build/lib.macosx-10.6-x86_64-2.7/peak/web/templates.py:506 | `quoteattr`: the delimiter, a body free of it, the delimiter again; `"` unless the value needs `'` |
| Templates.AttrTextAppend | PEAK-0.5a4dev_r2085/build/lib.macosx-10.6-x86_64-2.7/peak/web/templates.py:505-507 | attribute text is built pair by pair, in order |
| Templates.OpenTag | PEAK-0.5a4dev_r2085/build/lib.macosx-10.6-x86_64-2.7/peak/web/templates.py:503-509 | `_openTag`: `<tag attrs>`, or empty without a tag name |
| Templates.CloseTag | PEAK-0.5a4dev_r2085/build/lib.macosx-10.6-x86_64-2.7/peak/web/templates.py:499-501 | `_closeTag`: `</tag>`, or empty without a tag name |
| Templates.EmptyTag | PEAK-0.5a4dev_r2085/build/lib.macosx-10.6-x86_64-2.7/peak/web/templates.py:495-497 | `_emptyTag`: the open tag with its `>` replaced by ` />` |
| Templates.TagShapes | PEAK-0.5a4dev_r2085/build/lib.macosx-10.6-x86_64-2.7/peak/web/templates.py:495-509 | the three tag strings of a named element and their shapes |
| Templates.StaticTextDynamic | PEAK-0.5a4dev_r2085/build/lib.macosx-10.6-x86_64-2.7/peak/web/templates.py:350-357 | an element has no static text iff one of its children is dynamic |
| Templates.StaticTextJoined | PEAK-0.5a4dev_r2085/build/lib.macosx-10.6-x86_64-2.7/peak/web/templates.py:350-364 | with every child static the text is open tag, child texts, close tag, or the empty tag when there are no children and `nonEmpty` is off |
| Templates.AddParam | PEAK-0.5a4dev_r2085/build/lib.macosx-10.6-x86_64-2.7/peak/web/templates.py:452-480 | `addParameter`: deferred to the parent without accepted names; an unknown name is an error; multi-valued names collect, single ones are set once |
| Templates.AddAll | PEAK-0.5a4dev_r2085/build/lib.macosx-10.6-x86_64-2.7/peak/web/templates.py:452-480 | registering a name for several elements in turn |
| Templates.AddParamRejects | PEAK-0.5a4dev_r2085/build/lib.macosx-10.6-x86_64-2.7/peak/web/templates.py:455-460 | an element accepting no parameters hands every one to its parent; an unaccepted name without `*` is an error |
| Templates.MultiAccumulates | PEAK-0.5a4dev_r2085/build/lib.macosx-10.6-x86_64-2.7/peak/web/templates.py:462-477 | a multi-valued parameter collects its elements in call order |
| Templates.SingleOnce | PEAK-0.5a4dev_r2085/build/lib.macosx-10.6-x86_64-2.7/peak/web/templates.py:467-480 | a single-valued parameter is defined once; a second definition is an error and changes nothing |
| Templates.Element.constructor | PEAK-0.5a4dev_r2085/build/lib.macosx-10.6-x86_64-2.7/peak/web/templates.py:336-346 | an element with no children and no parameters |
| Templates.Element.AddChild | PEAK-0.5a4dev_r2085/build/lib.macosx-10.6-x86_64-2.7/peak/web/templates.py:433-440 | `addChild` appends the node, refused once the optimised children exist |
| Templates.Element.OptimizedChildren | PEAK-0.5a4dev_r2085/build/lib.macosx-10.6-x86_64-2.7/peak/web/templates.py:370-395 | computed once, then kept |
| Templates.Element.StaticText | PEAK-0.5a4dev_r2085/build/lib.macosx-10.6-x86_64-2.7/peak/web/templates.py:350-366 | `staticText`, computing the optimised children |
| Templates.Element.AddParameter | PEAK-0.5a4dev_r2085/build/lib.macosx-10.6-x86_64-2.7/peak/web/templates.py:452-480 | `addParameter` on the element's registry |
| Templates.Allowed | PEAK-0.5a4dev_r2085/build/lib.macosx-10.6-x86_64-2.7/peak/web/templates.py:880-883 | the items the context allows, in order |
| Templates.Numbered | PEAK-0.5a4dev_r2085/build/lib.macosx-10.6-x86_64-2.7/peak/web/templates.py:873-891 | the entries for the allowed items numbered from `ct`, patterns taken round-robin |
| Templates.RenderList | PEAK-0.5a4dev_r2085/build/lib.macosx-10.6-x86_64-2.7/peak/web/templates.py:867-901 | `List.renderFor` with its counting loop; a missing `listItem` fails after the open tag |
| Templates.ListBodyEntries | PEAK-0.5a4dev_r2085/build/lib.macosx-10.6-x86_64-2.7/peak/web/templates.py:880-891 | the entries written are the allowed items numbered in order, with the patterns used round-robin |
| Templates.ListBodyHeaders | PEAK-0.5a4dev_r2085/build/lib.macosx-10.6-x86_64-2.7/peak/web/templates.py:885-887 | the header is written once, only when some item is allowed |
| Templates.ListBodyHeaderFirst | PEAK-0.5a4dev_r2085/build/lib.macosx-10.6-x86_64-2.7/peak/web/templates.py:880-891 | the header comes before the first entry |
| Templates.ListEnding | PEAK-0.5a4dev_r2085/build/lib.macosx-10.6-x86_64-2.7/peak/web/templates.py:893-901 | the list ends with the empty-list text iff nothing is allowed and there is one, else the footer when there is one, then the close tag |
| Templates.UrlAttributes | PEAK-0.5a4dev_r2085/build/lib.macosx-10.6-x86_64-2.7/peak/web/templates.py:836-846 | the attributes with `%` doubled and the named one given the URL |
| Templates.PropertyParts | PEAK-0.5a4dev_r2085/build/lib.macosx-10.6-x86_64-2.7/peak/web/templates.py:826 | the dotted parts of the property, none given counting as `''` |
| Templates.FormatDoubled | PEAK-0.5a4dev_r2085/build/lib.macosx-10.6-x86_64-2.7/peak/web/templates.py:837 | formatting undoes the doubling |
| Templates.UrlAttributesFormat | PEAK-0.5a4dev_r2085/build/lib.macosx-10.6-x86_64-2.7/peak/web/templates.py:836-849 | once formatted, the named attribute holds the URL and every other its given value |
| Templates.UrlItemsPlace | PEAK-0.5a4dev_r2085/build/lib.macosx-10.6-x86_64-2.7/peak/web/templates.py:836-846 | the URL replaces the named attribute in place or is appended; others keep name, place and value |
| Templates.UrlTagChoice | PEAK-0.5a4dev_r2085/build/lib.macosx-10.6-x86_64-2.7/peak/web/templates.py:821-849 | `URLTag`: one part or `text` gives URL text, `notag` gives it without tags, any other last part names the attribute (`+` for `:`) |
| Templates.OptimizeFacts | PEAK-0.5a4dev_r2085/build/lib.macosx-10.6-x86_64-2.7/peak/web/templates.py:370-393 | the optimised children stand for the same static characters and dynamic children, in order, and no two literals are side by side |
| Templates.Escape | PEAK-0.5a4dev_r2085/build/lib.macosx-10.6-x86_64-2.7/peak/web/templates.py:506 | the escaping `quoteattr` applies: never shorter than the input, and no `<`, `>`, newline, return or tab is left |
| Templates.Format | PEAK-0.5a4dev_r2085/build/lib.macosx-10.6-x86_64-2.7/peak/web/templates.py:837 | the `%` formatting of an attribute value: text without `%` comes out unchanged (its partner is `Templates.FormatDoubled`) |
| TreeTraversal.Node.constructor | TreeTraversal.py:6-9 | a node with its dataset and value and no children |
| TreeTraversal.Node.AddChild | TreeTraversal.py:14-15 | `addChild` appends the node to `children` |
| TreeTraversal.Node.GetRevChildren | TreeTraversal.py:20-23 | `getRevChildren` returns the children reversed and leaves `children` unchanged |
| TreeTraversal.KidsSnoc | TreeTraversal.py:87-93 | the children queued after one more node are those before plus its children |
| TreeTraversal.KidsPrefix | TreeTraversal.py:87-93 | the children of earlier nodes are queued first |
| TreeTraversal.QueueStart | TreeTraversal.py:82-83 | the queue starts holding only the root |
| TreeTraversal.QueueStep | TreeTraversal.py:87-93 | taking node `c` out of the queue and putting its children in gives the queue after `c` |
| TreeTraversal.QueueSlices | TreeTraversal.py:87-93 | the queue after `c` is the nodes of breadth-first order after `c` that were already received |
| TreeTraversal.QueueEnd | TreeTraversal.py:87 | the queue empties exactly when every node was taken out |
| TreeTraversal.Enqueue | TreeTraversal.py:90-92 | the loop over `childIndex` appends the children in order |
| TreeTraversal.CountOfAllTreeNodes | TreeTraversal.py:81-94 | `countOfAllTreeNodes` is the number of nodes in breadth-first order from the root |
| TreeTraversal.Dist | TreeTraversal.py:108 | `abs(value - node.value)` is non-negative |
| TreeTraversal.Dists | TreeTraversal.py:115 | the distance of each node from the target, in order |
| TreeTraversal.BestStep | TreeTraversal.py:115-119 | a strictly smaller distance replaces the best; a tie keeps the earlier node |
| TreeTraversal.BestFirstMin | TreeTraversal.py:112-121 | at the end, or at a difference of 0, the best is the first smallest distance |
| TreeTraversal.SearchNext | TreeTraversal.py:112-126 | the search stops at a difference of 0 and otherwise goes on with the next node |
| TreeTraversal.SearchFirstMin | TreeTraversal.py:112-126 | the search finds the first node with the smallest distance |
| TreeTraversal.BreadthFirstSearch | TreeTraversal.py:102-130 | `breadthFirstSearch` returns the node closest to the value, the first in breadth-first order among equally close ones, stopping at a difference of 0 |
| TreeTraversal.Lo | TreeTraversal.py:42-52 | in the complete tree node `j`'s first child is at `1 + j k` |
| TreeTraversal.LoMono | TreeTraversal.py:42-52 | later parents have later children |
| TreeTraversal.LoAbove | TreeTraversal.py:42-52 | a child comes after its parent |
| TreeTraversal.KAryKids | TreeTraversal.py:42-52 | the children of the first `c` nodes are the nodes after the root up to node `c`'s first child |
| TreeTraversal.KAryBfs | TreeTraversal.py:34-53 | a complete `k`-ary layout is the breadth-first order of its root |
| TreeTraversal.LayoutStep | TreeTraversal.py:45-52 | a parent receives up to `k` next entries as children, which have none yet |
| TreeTraversal.LayoutDone | TreeTraversal.py:42-53 | when every entry has a node the layout is the complete `k`-ary tree |
| TreeTraversal.AttachChildren | TreeTraversal.py:46-52 | the `childIndex` loop creates up to `numOfChildren` new nodes from the next entries, in order, appended to the parent |
| TreeTraversal.BuiltStep | TreeTraversal.py:44-52 | one parent taking its children keeps the construction invariant |
| TreeTraversal.Grow | TreeTraversal.py:49-51 | the children lists after a parent receives new nodes |
| TreeTraversal.ParentStep | TreeTraversal.py:44-52 | one pass of the `parentIndex` loop: the parent at the head of the queue takes the next entries |
| TreeTraversal.QueueNext | TreeTraversal.py:45-51 | the queue after a parent leaves and its children join |
| TreeTraversal.Level | TreeTraversal.py:43-52 | one pass of the `while` loop: each queued parent, in order, takes its children |
| TreeTraversal.CreateTree | TreeTraversal.py:34-53 | `createTree`: the first key is the root, each key has exactly one new node with its value, the tree is the complete `numOfChildren`-ary tree in key order, and an empty table is the `IndexError` |
| TreeTraversal.SearchAnswer | TreeTraversal.py:112-126 | the search's answer is the best so far or a later node strictly closer than the best distance so far |
| TreeTraversal.SearchFromRoot | TreeTraversal.py:102-126 | started at the root with the root as best, the search finds the first node whose value is closest |
| TreeTraversal.VisitStep | TreeTraversal.py:112-125 | one pass of the loop takes the first listed node not yet visited and leaves the breadth-first queue of the next pass; its difference either stops the search at 0 with the answer or leaves the same answer to the rest of the search |
| Undo.FinishOnce | PEAK-0.5a4dev_r2085/build/lib.macosx-10.6-x86_64-2.7/peak/storage/undo.py:12-39 | a new delta is active and done; finish clears only `active`; a second finish raises "already checkpointed" |
| Undo.UndoThenRedo | PEAK-0.5a4dev_r2085/build/lib.macosx-10.6-x86_64-2.7/peak/storage/undo.py:15-32 | undo of an active, done, undoable delta finishes it and clears `done`; a second undo raises "Repeated undo"; redo after undo sets `done` again |
| Undo.UndoNotUndoable | PEAK-0.5a4dev_r2085/build/lib.macosx-10.6-x86_64-2.7/peak/storage/undo.py:18-23 | undo of a delta that is not undoable raises "Can't undo" and `done` stays set |
| Undo.RedoOnlyAfterUndo | PEAK-0.5a4dev_r2085/build/lib.macosx-10.6-x86_64-2.7/peak/storage/undo.py:27-32 | redo succeeds exactly when `done` is clear; afterwards `done` is set either way |
| Undo.InactiveAfterAnyStep | PEAK-0.5a4dev_r2085/build/lib.macosx-10.6-x86_64-2.7/peak/storage/undo.py:15-46 | after finish, undo or (on an inactive delta) redo the delta is inactive, so `merge` raises "Delta no longer active" |
| Undo.RunAll | PEAK-0.5a4dev_r2085/build/lib.macosx-10.6-x86_64-2.7/peak/storage/undo.py:108-118 | a History's `_finish`/`_undo`/`_redo`: the operation on each delta in list order, stopping at the first that raises; only the listed deltas' flags change |
| Undo.RunAllStops | PEAK-0.5a4dev_r2085/build/lib.macosx-10.6-x86_64-2.7/peak/storage/undo.py:108-118 | once one delta raises, the later deltas are untouched |
| Undo.FinishAllDeltas | PEAK-0.5a4dev_r2085/build/lib.macosx-10.6-x86_64-2.7/peak/storage/undo.py:108-110 | finishing all deltas succeeds iff they are distinct and all active; afterwards none is active and nothing else changed |
| Undo.UndoAllDeltas | PEAK-0.5a4dev_r2085/build/lib.macosx-10.6-x86_64-2.7/peak/storage/undo.py:116-118 | undoing distinct finished, done, undoable deltas succeeds and clears only their `done` flags |
| Undo.RedoAllDeltas | PEAK-0.5a4dev_r2085/build/lib.macosx-10.6-x86_64-2.7/peak/storage/undo.py:112-114 | redoing distinct deltas that are not done succeeds and sets only their `done` flags |
| Undo.UndoAllThenRedoAll | PEAK-0.5a4dev_r2085/build/lib.macosx-10.6-x86_64-2.7/peak/storage/undo.py:112-118 | undo of every delta followed by redo of every delta restores every flag |
| Undo.HistFinish | PEAK-0.5a4dev_r2085/build/lib.macosx-10.6-x86_64-2.7/peak/storage/undo.py:34-110 | a History's finish: its own flags and its deltas' flags together; the set of deltas is unchanged |
| Undo.HistUndo | PEAK-0.5a4dev_r2085/build/lib.macosx-10.6-x86_64-2.7/peak/storage/undo.py:15-118 | a History's undo: finish first if active, then undo of every delta |
| Undo.HistRedo | PEAK-0.5a4dev_r2085/build/lib.macosx-10.6-x86_64-2.7/peak/storage/undo.py:27-114 | a History's redo: refused when done, else redo of every delta |
| Undo.HistoryUndoRedo | PEAK-0.5a4dev_r2085/build/lib.macosx-10.6-x86_64-2.7/peak/storage/undo.py:15-118 | undo of an active undoable history of distinct fresh deltas finishes and undoes them all; redo then makes every delta done again |
| Undo.AbsorbAllFrom | PEAK-0.5a4dev_r2085/build/lib.macosx-10.6-x86_64-2.7/peak/storage/undo.py:92-103 | merging only ever appends the merged deltas themselves |
| Undo.AbsorbAllKeepsIndex | PEAK-0.5a4dev_r2085/build/lib.macosx-10.6-x86_64-2.7/peak/storage/undo.py:92-103 | merging keeps earlier entries in place (only appends), keeps `by_key` consistent with `data`, and never lets two entries share a non-None key |
| Undo.MergeHistoryExample | PEAK-0.5a4dev_r2085/build/lib.macosx-10.6-x86_64-2.7/peak/storage/undo.py:98-103 | keys a, b, a, None: the second `a` is merged into the first and not appended, the None-keyed delta is appended (first-insertion order) |
| Undo.Delta.constructor | PEAK-0.5a4dev_r2085/build/lib.macosx-10.6-x86_64-2.7/peak/storage/undo.py:12-13 | a new delta is active and done |
| Undo.Delta.Finish | PEAK-0.5a4dev_r2085/build/lib.macosx-10.6-x86_64-2.7/peak/storage/undo.py:34-39 | `finish` as the step function on the flags, with its error |
| Undo.Delta.Undo | PEAK-0.5a4dev_r2085/build/lib.macosx-10.6-x86_64-2.7/peak/storage/undo.py:15-25 | `undo` as the step function on the flags, with its error |
| Undo.Delta.Redo | PEAK-0.5a4dev_r2085/build/lib.macosx-10.6-x86_64-2.7/peak/storage/undo.py:27-32 | `redo` as the step function on the flags, with its error |
| Undo.Delta.Merge | PEAK-0.5a4dev_r2085/build/lib.macosx-10.6-x86_64-2.7/peak/storage/undo.py:42-46 | `merge` succeeds and hands the delta to `_merge` exactly while active; otherwise raises "Delta no longer active" and changes nothing |
| Undo.History.constructor | PEAK-0.5a4dev_r2085/build/lib.macosx-10.6-x86_64-2.7/peak/storage/undo.py:87-90 | a new history is active, done and empty |
| Undo.History.Contains | PEAK-0.5a4dev_r2085/build/lib.macosx-10.6-x86_64-2.7/peak/storage/undo.py:127-128 | `key in history` iff some merged delta has that key |
| Undo.History.Len | PEAK-0.5a4dev_r2085/build/lib.macosx-10.6-x86_64-2.7/peak/storage/undo.py:130-131 | `len` is the number of entries |
| Undo.History.Absorb | PEAK-0.5a4dev_r2085/build/lib.macosx-10.6-x86_64-2.7/peak/storage/undo.py:92-106 | `_merge` of a plain delta: merged into the first delta with the same non-None key, else appended and indexed; any non-undoable delta makes the history non-undoable |
| Undo.History.Merge | PEAK-0.5a4dev_r2085/build/lib.macosx-10.6-x86_64-2.7/peak/storage/undo.py:42-106 | `merge` of a plain delta: refused once inactive, otherwise `_merge` |
| Undo.History.MergeHistory | PEAK-0.5a4dev_r2085/build/lib.macosx-10.6-x86_64-2.7/peak/storage/undo.py:92-96 | merging a History flattens it: its deltas are merged one by one, stopping at the first that raises |
| Undo.History.RunLoop | PEAK-0.5a4dev_r2085/build/lib.macosx-10.6-x86_64-2.7/peak/storage/undo.py:108-118 | the loop over `data` computes exactly `RunAll` |
| Undo.History.Finish | PEAK-0.5a4dev_r2085/build/lib.macosx-10.6-x86_64-2.7/peak/storage/undo.py:34-110 | finish of the history equals the specification `HistFinish` |
| Undo.History.Undo | PEAK-0.5a4dev_r2085/build/lib.macosx-10.6-x86_64-2.7/peak/storage/undo.py:15-118 | undo of the history equals the specification `HistUndo` |
| Undo.History.Redo | PEAK-0.5a4dev_r2085/build/lib.macosx-10.6-x86_64-2.7/peak/storage/undo.py:27-114 | redo of the history equals the specification `HistRedo` |
| Undo.UndoManager.constructor | PEAK-0.5a4dev_r2085/build/lib.macosx-10.6-x86_64-2.7/peak/storage/undo.py:169-172 | a fresh empty history and empty undo and redo stacks |
| Undo.UndoManager.Record | PEAK-0.5a4dev_r2085/build/lib.macosx-10.6-x86_64-2.7/peak/storage/undo.py:174-177 | `record` merges the delta into the current history (its error is the history's `merge` error) and then clears the redo stack; the undo stack, the flags of every history and every delta are untouched, and the history stays undoable only if the merged delta is |
| Undo.UndoManager.HasDeltaFor | PEAK-0.5a4dev_r2085/build/lib.macosx-10.6-x86_64-2.7/peak/storage/undo.py:179-180 | `has_delta_for(key)` iff the current history holds a delta with that key |
| Undo.UndoManager.Checkpoint | PEAK-0.5a4dev_r2085/build/lib.macosx-10.6-x86_64-2.7/peak/storage/undo.py:182-191 | `checkpoint`: the current history and its deltas end exactly as the history's `finish` leaves them, nothing else changes state; on success the history is pushed when undoable (else the undo stack is emptied), a fresh empty history starts and the redo stack is cleared; on error the stacks and the history stay |
| Undo.UndoManager.Revert | PEAK-0.5a4dev_r2085/build/lib.macosx-10.6-x86_64-2.7/peak/storage/undo.py:193-195 | `revert`: the current history and its deltas end exactly as the history's `undo` leaves them, no other history or delta changes; on success a fresh empty history starts; the stacks are untouched |
| Undo.UndoManager.UndoLast | PEAK-0.5a4dev_r2085/build/lib.macosx-10.6-x86_64-2.7/peak/storage/undo.py:206-211 | `undoLast` raises while the current history is non-empty and on an empty undo stack; otherwise the top undo entry is popped and ends exactly as its `undo` leaves it, nothing else changes state, and it is pushed on the redo stack when the undo succeeded |
| Undo.UndoManager.RedoNext | PEAK-0.5a4dev_r2085/build/lib.macosx-10.6-x86_64-2.7/peak/storage/undo.py:213-219 | `redoNext` raises on an empty redo stack; otherwise the top redo entry is popped and ends exactly as its `redo` leaves it, nothing else changes state, and it is pushed on the undo stack when the redo succeeded |
| Undo.UndoManager.FinishHeld | PEAK-0.5a4dev_r2085/build/lib.macosx-10.6-x86_64-2.7/peak/storage/undo.py:183-183 | `self.history.finish()` inside the manager: the history and its deltas end as `finish` specifies, its `undoable` flag is kept, and no other history or delta changes |
| Undo.UndoManager.UndoHeld | PEAK-0.5a4dev_r2085/build/lib.macosx-10.6-x86_64-2.7/peak/storage/undo.py:194-194 | `self.history.undo()` (and `last.undo()`) inside the manager: the history and its deltas end as `undo` specifies; no other history or delta changes |
| Undo.UndoManager.RedoHeld | PEAK-0.5a4dev_r2085/build/lib.macosx-10.6-x86_64-2.7/peak/storage/undo.py:215-215 | `next.redo()` inside the manager: the history and its deltas end as `redo` specifies; no other history or delta changes |
| Undo.UndoManager.Rotate | PEAK-0.5a4dev_r2085/build/lib.macosx-10.6-x86_64-2.7/peak/storage/undo.py:184-191 | the stack moves of `checkpoint` after a successful finish: push when undoable else empty the undo stack, a fresh empty history, an empty redo stack; the finished history and its deltas are untouched |
| Undo.UndoManager.StartHistory | PEAK-0.5a4dev_r2085/build/lib.macosx-10.6-x86_64-2.7/peak/storage/undo.py:190-190 | `self.history = History()`: a fresh history that is active, done, undoable and empty |
| Undo.UndoManager.MoveUndone | PEAK-0.5a4dev_r2085/build/lib.macosx-10.6-x86_64-2.7/peak/storage/undo.py:209-211 | the pop from the undo stack, and the push on the redo stack only when the undo succeeded |
| Undo.UndoManager.MoveRedone | PEAK-0.5a4dev_r2085/build/lib.macosx-10.6-x86_64-2.7/peak/storage/undo.py:214-217 | the pop from the redo stack, and the push on the undo stack only when the redo succeeded |
| Undo.History.Append | PEAK-0.5a4dev_r2085/build/lib.macosx-10.6-x86_64-2.7/peak/storage/undo.py:101-103 | a delta with a key not yet indexed is appended to `data` and indexed under its key, as `_merge` does, keeping the history valid |
| UnitTrace.HadArgs | PEAK-0.5a4dev_r2085/src/peak/util/unittrace.py:48-53 | `hadArgs` is true iff every given keyword is among the recorded arguments with an equal value |
| UnitTrace.Calls | PEAK-0.5a4dev_r2085/src/peak/util/unittrace.py:28-33 | `iterCalls` selects, in log order, exactly the calls equal to the function and (when keywords are given) having those arguments |
| UnitTrace.CallsFirst | PEAK-0.5a4dev_r2085/src/peak/util/unittrace.py:28-33 | the first call selected is the first log entry that matches |
| UnitTrace.CallsNone | PEAK-0.5a4dev_r2085/src/peak/util/unittrace.py:28-33 | a log with no matching entry gives nothing |
| UnitTrace.OtherCodeIgnored | PEAK-0.5a4dev_r2085/src/peak/util/unittrace.py:55-67 | a call with another code object never compares equal to the function, so it is never selected |
| UnitTrace.RunDepth | PEAK-0.5a4dev_r2085/src/peak/util/unittrace.py:149-163 | without exceptions the depth counts calls entered minus calls returned, and the log only grows |
| UnitTrace.DeepCallsUnlogged | PEAK-0.5a4dev_r2085/src/peak/util/unittrace.py:151-154 | calls deeper than `max_depth` are not logged |
| UnitTrace.ExceptionCountedOnce | PEAK-0.5a4dev_r2085/src/peak/util/unittrace.py:159-163 | an exception lowers the depth once per frame, not once per exception event of the same frame |
| UnitTrace.History.constructor | PEAK-0.5a4dev_r2085/src/peak/util/unittrace.py:126-130 | an empty log, depth 0, no current frame |
| UnitTrace.History.TraceEvent | PEAK-0.5a4dev_r2085/src/peak/util/unittrace.py:149-163 | `trace_event` moves the recorder's state as the step function says |
| UnitTrace.History.Called | PEAK-0.5a4dev_r2085/src/peak/util/unittrace.py:138-141 | `called`: the first selected call, or None iff none is selected |
| UnitTrace.History.CalledOnce | PEAK-0.5a4dev_r2085/src/peak/util/unittrace.py:143-147 | `calledOnce`: the call iff exactly one is selected |
| UnitTrace.CallsTo | PEAK-0.5a4dev_r2085/src/peak/util/unittrace.py:135-136 | `callsTo` filters the log in order |
| UnitTrace.Step | PEAK-0.5a4dev_r2085/src/peak/util/unittrace.py:149-163 | `trace_event`: a call goes one deeper and is logged iff it is within `max_depth`; nothing else is logged; a return goes one up; an exception goes one up only for a frame other than the current one; the event's frame becomes current |
| UnitTrace.Run | PEAK-0.5a4dev_r2085/src/peak/util/unittrace.py:149-163 | a run of events only extends the log, by at most one call per event, and leaves the last event's frame current |

## Left out

- I/O, clocks and the host framework are parameters of the model, not modelled code: files, streams, the network, the shell's `getopt`, `shift_path_info`, `urljoin`/`posixpath.join`, adaptation, lookup callbacks, SOX negotiators and rule providers. Objects are compared by identity through numbers or object references.
- The generic-function dispatch, metaclass and descriptor machinery of PEAK. The default security rules and permission declarations are data, and the configuration rules are plain maps.
- `dequote` in `commands.py` evaluates a Python string literal, so it is not modelled: the model keeps the raw tokens that `qsplit` returns.
- The `eval`/`exec` paths of the n2 shell (`substVar` with `=`, `cmd_python`, the editor and file commands) are not modelled. The connection calls that `go` makes on the text after the `;` are not modelled either.
- Environ.Get: reads `viewService` as if no object adapted to `IViewService`. The adaptation of the current object, which `environ.py:248-250` tries first, is modelled by `Environ.ViewService`; `Environ.ViewServiceWithoutViews` connects the two.
- Environ.ChildDelegates: its `viewService` clause holds for `Get`, that is, without the `IViewService` adaptation of the child's object; `Environ.ChildViewService` states the child's view service with it.
- Environ.ClassAttrs: holds only the names defined in the body of `Context`. Names inherited from its base classes, and the dunder attributes every Python class has, are not in the set, so `_setup` keywords naming them are refused in the model.
- Resources.FilenameAsProperty: gives the joined name without the `PropertyName.fromString` validation of `resources.py:33`. A name that validation would reject is not an error in the model.
- Options.Callback: a `Handler`'s function call (`options.py:241-243`) has no modelled effect; only the use count and the conversion error are kept.
- Options.Callback: `Append` appends to the list in place in the source, so every other holder of that list sees the new item. The model gives the attribute a new list value and models no such sharing.
- Commands.Kind: classifies the tokens as the model's `qsplit` leaves them, quotes included. The source dequotes first (`commands.py:148`), so a quoted `">out"` is a redirection there and a plain argument in the model.
- Sox.FirstUnlisted: when several attributes are unlisted, the source reports the first in the iteration order of its attribute dictionary (`SOX.py:477-483`); the model reports the first in document order, and its contract only promises that the one reported is unlisted.
- Sox.Node: the instance dictionary is modelled without the `_name`, `_subNodes` and `_allNodes` entries the constructor puts in it; those are the separate fields `name`, `subNodes` and `allNodes`.
- Config: the rule cells are values. `EigenCell` (`peak.util.EigenData`) is not part of this model; the rule that a cell refuses a new value after it has been read is taken from its use in `config_components.py:24-32`.
- Places.Location.TraverseTo: the source sets `current` in place on the parent context of the clone (`places.py:184-186`), and every holder of that context sees the change. The model passes the caller's context as a value (`From`): a start context, or an ordinary one with the object of its `previous`. From a start context, it reads "the found context's parent is the clone" as "the found context's `up` is the container". It does not model a found context that is itself the caller's `previous` (as `..` gives), which the source would re-point as well.
- Undo.History.MergeHistory: requires the merged history to be another one. Merging a history into itself, where `_merge` would loop over the list it appends to, is not modelled.
- Undo.History: the `_undo`/`_redo`/`_finish` hooks of application deltas have no modelled effect beyond their flags. An exception from a hook is modelled only as the `UndoError` of the flag checks.
- Undo.UndoManager.UndoLast: the entry is undone before it is popped. The final stacks are the ones the source leaves, including when `undo` raises.
- Components.IterParents: requires `max_depth >= 1`. A `max_depth` of zero or less, which counts down without ever reaching zero, is not modelled.
- Options: a `Group` is kept only as the value that orders options (title, sort key, creation key). `reject_inheritance`, `parse`, `get_help` and `option_handler` are not modelled; the parser is reduced to its option table and its usage counts.
- SQL.py: opening connections, the SQL text of `listObjects` and `getDDLForObject`, and the driver calls are not modelled. Driver errors are values given to the model.
- Resources.HandleHttp: `resources.py:309` calls `clientHas` without its `environ` argument. The model takes the answer of `clientHas` as a boolean parameter.
- StockData: the quote downloads, the CSV writing with `to_csv` float formatting and `getTodaysDateCsv` are not modelled. The CSV file is its list of parsed rows.
- TreeTraversal: pickle persistence (`writeTreeToFile`/`readTreeFromFile`) and `printAllTreeNodes` (output only) are not modelled.
- TreeTraversal.CreateTree: requires at least one child per parent when there are two or more keys. With `numOfChildren == 0` the source never terminates.
- StockPredictionMain: the driver outside the retry loop is not modelled: argument handling, regression, plotting and CSV reading. Re-processing is the parameter `differenceFor`.
- The SVR regression, matplotlib plotting and all floating-point arithmetic are not modelled. Prices are `real`, and only compared and subtracted.

## Findings

| source | as written | input that shows it | evidently intended | confidence | as-written member | corrected member |
|---|---|---|---|---|---|---|
| PEAK-0.5a4dev_r2085/build/lib.macosx-10.6-x86_64-2.7/peak/tools/n2/sql.py:927-931 | in state `*` (a `*` inside a comment) a second `*` goes back to state `C`, so a comment's closing `*/` after a run of stars is missed | `/***/` leaves the lexer inside a comment, and a later `;` on the line is ignored | a `*` after a `*` stays in state `*`, so `/***/` closes the comment | high; not executed | Sql.AsWrittenStarStarStaysInComment | Sql.CommentCloses |
| PEAK-0.5a4dev_r2085/build/lib.macosx-10.6-x86_64-2.7/peak/tools/n2/sql.py:935-943 | in state `D'` (just after a closed `'...'` literal) a `"` is not recognised as opening a literal and the state becomes `''` | `'a'"b;c"` records the `;` inside the double-quoted literal, at position 5 | a quote after a closed literal of the other kind opens a new literal, so that `;` is not recorded | high; not executed | Sql.AsWrittenQuoteAfterLiteral | Sql.CorrectedQuoteAfterLiteral |
| PEAK-0.5a4dev_r2085/build/lib.macosx-10.6-x86_64-2.7/peak/tools/n2/sql.py:917-923 | in state `/` (just after a `/`) a quote is not recognised as opening a literal and the state becomes `''` | `/'a;'` records the `;` inside the literal, at position 3 | a quote after a `/` opens a literal, as it does in the top-level state, so that `;` is not recorded | high; not executed | Sql.AsWrittenQuoteAfterSlash | Sql.CorrectedQuoteAfterSlash |
| BSTsearch.py:40-43 | `isEmpty` returns True when `num` is nonzero | a tree holding one value answers that it is empty | true exactly when the tree holds no value | high; not executed | BstSearch.BinaryTree.IsEmptyAsWritten | BstSearch.BinaryTree.IsEmpty |
