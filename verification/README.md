# nj DOM wrapper — a Dafny model of its list, string and path logic

`nj` is a small jQuery-like wrapper around the browser DOM, shipped in four
near-identical versions: `no_jquery_3.0.1.js`, its commented twin
`no_jquery_3.0.1_commented.js`, `no_jquery_3.0.2.js` and `no_jquery_3.0.3.js`.
This project models the parts of it that are plain computation. The model
takes one `Version` parameter (`V301`, `V302`, `V303`); the commented 3.0.1
file shares the 3.0.1 code paths, except that its `selectValues` uses a `Set`.
That variant is modelled separately and proved equal to the other.

The modelled parts:

- **Values** (`js.dfy`, module `Js`). JavaScript values are a datatype:
  undefined, null, booleans, integer numbers and NaN, strings, opaque node
  identities, node lists, arrays, plain objects, wrappers and the window.
  The module also gives truthiness, `String(v)` and property reads.
- **The document** (`dom.dfy`, module `Document`). Every DOM lookup the code
  makes is an uninterpreted total function: `getElementById`,
  `getElementsByClassName`, `getElementsByTagName`, `querySelectorAll`,
  `parentElement`, the sibling links, `children`, `dataset`, `tagName`, the node kind and
  `options`. Parent chains are finite: a depth rank decreases toward the top.
- **Strings** (`text.dfy`, module `Text`). `trim`, `split` on one character
  and its inverse join, whitespace tokenising (`split(/\s+/).filter(Boolean)`)
  and `includes`.
- **Selector dispatch** (`selector.dfy`, module `Selector`). This is
  `select`: the ID, class and tag fast paths, the `querySelectorAll`
  fallback, the per-version guards and the normalising of non-string
  selectors.
- **The wrapper** (`wrapper.dfy`, module `Wrapper`). It covers `toArray`,
  `new NJ`, `nj`, `first`, `last`, `eq`, `next`, `prev`, `nEl`, `parent`,
  `children`, the `e`, `length` and `isE` views, `_each`, and the rule that
  `html`, `text` and `val` read the first element or write every element.
- **Lists** (`lists.dfy`, module `Lists`). `indexOf`, the deduplication used
  by `parent`, and `arrayRemove`/`rAE`.
- **Forms** (`forms.dfy`, module `Forms`). `selectValues`, in both its
  `includes` and its `Set` variant, and `getSelected`.
- **Classes** (`classes.dfy`, module `Classes`). `addClass` and
  `removeClass`, over each element's class set.
- **Browser detection** (`browser.dfy`, module `Browser`). `detectBrowser`.
- **Data paths** (`datapath.dfy`, module `DataPath`). `gDV`, `Dia`, `gRO`
  and `bDV`: the climb to the first ancestor whose `dataset` carries the
  key, and the dot-path walk through the window's values.
- **Cookies** (`cookie.dfy`, module `Cookie`). `cookie.set`, `remove` and
  `get`. The assignment string is modelled as an attribute list (Expires,
  Path, Domain and Secure, named as in section 4.1.2 of RFC 6265, plus
  SameSite). It comes with a parser that reads a well-formed assignment back.
- **Configuration** (`config.dfy`, module `Config`). 3.0.3's `nj.config`
  defaults, the AJAX timeout resolution with its abort-timer guard, and the
  animation duration resolution.

Errors the code throws, a `SyntaxError` from an invalid selector in 3.0.1 or
a `TypeError` from a property read on null, are `Err` results, not
preconditions.

## Model

| member | source | states |
|---|---|---|
| Js.NodesIn | library/javascript/no_jquery_3.0.3.js:30 | filtering a list to nodes keeps exactly the node members and never lengthens it |
| Js.NodesInAppend | library/javascript/no_jquery_3.0.3.js:30 | filtering distributes over concatenation |
| Js.NodesInAllNodes | library/javascript/no_jquery_3.0.3.js:30 | filtering a list made only of nodes returns it unchanged |
| Text.TrimCharacterised | library/javascript/no_jquery_3.0.3.js:68 | `trim` is the unique slice left after removing all-whitespace ends, the slice that starts and ends on non-whitespace |
| Text.TrimShape | library/javascript/no_jquery_3.0.3.js:68 | a trimmed string is a slice of the input, bordered only by whitespace, and starts and ends on non-whitespace |
| Text.TrimIdempotent | library/javascript/no_jquery_3.0.3.js:68 | trimming twice equals trimming once |
| Text.SplitOn | library/javascript/no_jquery_3.0.3.js:457 | `split` on a character gives at least one part and no part contains the separator |
| Text.JoinSplit | library/javascript/no_jquery_3.0.3.js:457 | joining the parts of a split with the separator restores the string |
| Text.SplitJoin | library/javascript/no_jquery_3.0.3.js:457 | splitting a join of separator-free parts gives those parts back |
| Text.Words | library/javascript/no_jquery_3.0.3.js:254 | whitespace tokenising yields only non-empty, whitespace-free tokens |
| Text.WordsAllWs | library/javascript/no_jquery_3.0.3.js:254 | an empty or all-whitespace string has no tokens |
| Text.WordsSkipWs | library/javascript/no_jquery_3.0.3.js:254 | leading whitespace does not change the tokens |
| Text.WordsConcatWs | library/javascript/no_jquery_3.0.3.js:254 | two strings joined by any non-empty whitespace run tokenise to the tokens of the first followed by those of the second |
| Text.WordsOfJoin | library/javascript/no_jquery_3.0.3.js:254 | tokenising a single-space join of tokens gives those tokens back |
| Text.ContainsIff | library/javascript/no_jquery_3.0.3.js:430-433 | `includes` holds exactly when the pattern occurs at some position |
| Selector.Classify | library/javascript/no_jquery_3.0.3.js:68-102 | a trimmed selector takes the ID path iff it is `#` plus no space, comma, `[` or `:`; the class path iff the same with `.`; the tag path iff it is made of `[a-zA-Z0-9-]` only; otherwise the fallback; each route carries the text it queries with |
| Selector.Select | library/javascript/no_jquery_3.0.3.js:59-110 | never throws in 3.0.2/3.0.3; falsy selectors, 3.0.3's `'0'` and unsupported kinds give []; a node gives [node]; a list gives its nodes; an array gives its nodes (3.0.1: []); an ID-shaped selector yields at most one element |
| Selector.ZeroGuardBeforeTrim | library/javascript/no_jquery_3.0.3.js:61-68 | 3.0.3 returns [] for `'0'` but sends `' 0'` to the tag path, because its guard runs before `trim`; 3.0.2 sends `'0'` to the tag path |
| Selector.VersionsAgreeOnStrings | library/javascript/no_jquery_3.0.2.js:97-139 | for every string other than `'0'`, 3.0.2 and 3.0.3 select the same nodes; 3.0.1 agrees where it does not throw, and where it throws the others give [] |
| Selector.InvalidSelector | library/javascript/no_jquery_3.0.3.js:105-109 | an invalid selector on the fallback path throws `SyntaxError` in 3.0.1 and yields [] in 3.0.2 and 3.0.3 |
| Selector.FastPathsIgnoreContext | library/javascript/no_jquery_3.0.1_commented.js:91-121 | the ID, class and tag paths give the same result whatever the context |
| Selector.FastPathMatchesQuery | library/javascript/no_jquery_3.0.1_commented.js:91-121 | on a document whose lookups agree with `querySelectorAll`, a fast path selecting a plain identifier returns what the fallback would |
| Selector.CompoundClassTakesFastPath | library/javascript/no_jquery_3.0.3.js:82-91 | `.a.b` passes the class guard and is looked up as the class name `a.b`, so it finds nothing where `querySelectorAll` finds a node |
| Lists.IndexOf | library/javascript/no_jquery_3.0.3.js:497 | `indexOf` is -1 iff the value is absent, else the position of its first occurrence |
| Lists.IndexOfIs | library/javascript/no_jquery_3.0.3.js:497 | the first occurrence is the only position `indexOf` can return |
| Lists.Dedup | library/javascript/no_jquery_3.0.3.js:216 | deduplication has no repeats and has the same members as its input |
| Lists.DedupOrder | library/javascript/no_jquery_3.0.3.js:216 | deduplication keeps the order of first occurrences |
| Lists.DedupNoDup | library/javascript/no_jquery_3.0.3.js:216 | a list without repeats is left as it is |
| Lists.ArrayRemove | library/javascript/no_jquery_3.0.2.js:967-971 | an absent value leaves the array unchanged; a present one shortens it by one |
| Lists.ArrayRemoveCount | library/javascript/no_jquery_3.0.2.js:967-971 | exactly one occurrence of a present value disappears and every other element stays |
| Lists.ArrayRemoveFirst | library/javascript/no_jquery_3.0.1_commented.js:475 | `arrayRemove` equals an independent remove-first-occurrence definition |
| Lists.ArrayRemoveRestore | library/javascript/no_jquery_3.0.2.js:990-994 | re-inserting the value at its former index restores the array |
| Wrapper.ToArray | library/javascript/no_jquery_3.0.2.js:45-51 | arrays are filtered to nodes (3.0.1 returns them unchanged); a node becomes [node]; a list becomes its nodes; anything else becomes []; 3.0.2/3.0.3 results hold only nodes |
| Wrapper.ToArrayIdempotent | library/javascript/no_jquery_3.0.1_commented.js:62-72 | converting an already converted list changes nothing |
| Wrapper.ConstructValid | library/javascript/no_jquery_3.0.3.js:115-119 | rebuilding a valid wrapper from its elements gives the same wrapper |
| Wrapper.Nj | library/javascript/no_jquery_3.0.3.js:145-152 | a wrapper is returned as it is; undefined, null and `''` give an empty wrapper; a non-empty string goes through `select`, with its error in 3.0.1; a node and a node list give their nodes; an array gives its nodes; the window is kept only in 3.0.1; never throws in 3.0.2/3.0.3; the result is a valid wrapper |
| Wrapper.FromSelect | library/javascript/no_jquery_3.0.1.js:87 | a successful `select` becomes a wrapper of exactly the selected nodes, in order; a `select` error passes through unchanged |
| Wrapper.NjSelects | library/javascript/no_jquery_3.0.1.js:82-94 | `nj` of a non-empty string wraps exactly the nodes `select` finds for it, and throws exactly the error `select` throws |
| Wrapper.NjIdempotent | library/javascript/no_jquery_3.0.3.js:146 | `nj(nj(p))` is `nj(p)` |
| Wrapper.NjWindow | library/javascript/no_jquery_3.0.3.js:150 | `nj(window)` holds the window in 3.0.1 and is empty in 3.0.2 and 3.0.3, because the new wrapper filters it out |
| Wrapper.EqSelects | library/javascript/no_jquery_3.0.3.js:227 | `eq(n)` for -length <= n < length holds exactly the element at n (counted from the end when negative), else nothing |
| Wrapper.EqNegative | library/javascript/no_jquery_3.0.1.js:173 | `eq(n)` for negative n is `eq(length + n)` |
| Wrapper.FirstLastAsEq | library/javascript/no_jquery_3.0.3.js:225-227 | `first()` is `eq(0)` and, on a valid wrapper, `last()` is `eq(-1)`, so both hold at most one element |
| Wrapper.Siblings | library/javascript/no_jquery_3.0.3.js:228-229 | `next()`/`prev()` hold exactly the existing siblings of the node elements |
| Wrapper.NElOneBased | library/javascript/no_jquery_3.0.3.js:719 | `nEl(k)` selects the k-th element counting from one |
| Wrapper.ParentsMembers | library/javascript/no_jquery_3.0.3.js:214-217 | the collected parents are exactly the existing parents of the elements |
| Wrapper.Parent | library/javascript/no_jquery_3.0.1_commented.js:296-299 | `parent()` holds each existing parent exactly once, and only nodes |
| Wrapper.ChildList | library/javascript/no_jquery_3.0.3.js:219-223 | collecting children succeeds exactly when every element is an element, document or fragment node, and otherwise throws a TypeError (the window, text and comment nodes have no `children`) |
| Wrapper.ChildListAppend | library/javascript/no_jquery_3.0.1_commented.js:308-312 | the children of a concatenation are the concatenated children, in order |
| Wrapper.ChildrenKeepRepeats | library/javascript/no_jquery_3.0.1_commented.js:308-312 | a node held twice contributes its children twice, with no deduplication; the call succeeds iff the node has a `children` collection |
| Wrapper.E | library/javascript/no_jquery_3.0.3.js:120-132 | `e` is null for no elements, the element itself for one, and an index-preserving copy with the right length otherwise |
| Wrapper.IsEIff | library/javascript/no_jquery_3.0.1_commented.js:703 | `isE()` holds iff `length > 0` iff `e` is not null |
| Wrapper.Each | library/javascript/no_jquery_3.0.1_commented.js:147-150 | `_each` calls the callback once per element, in order, with its index, and returns the same wrapper |
| Wrapper.Access | library/javascript/no_jquery_3.0.1.js:99-114 | called with undefined, reads the first element's property when there is a first element, and undefined otherwise; otherwise writes the value to every element, changes no other object, and returns the wrapper |
| Wrapper.AccessSetThenGet | library/javascript/no_jquery_3.0.1.js:99-114 | reading after writing a value gives that value back |
| Forms.WantedOfJoined | library/javascript/no_jquery_3.0.2.js:597 | a comma-join of trimmed, comma-free values is split back into those values |
| Forms.Reselect | library/javascript/no_jquery_3.0.2.js:597-600 | with clearing, an option ends up selected iff its value is wanted; without, iff it was selected or is wanted |
| Forms.SelectValues | library/javascript/no_jquery_3.0.2.js:595-602 | a no-op unless the first element is a SELECT; for a SELECT it always re-selects (throwing only when its options cannot be read), every option of that SELECT in order, by the rule above, keeping each option's value and text |
| Forms.ReselectSameWanted | library/javascript/no_jquery_3.0.1_commented.js:445-454 | two membership tests that agree on the option values select the same options |
| Forms.SelectValuesSetAgrees | library/javascript/no_jquery_3.0.1_commented.js:445-454 | the `Set` variant gives the same selection as the `includes` variant |
| Forms.SelectedLabelsMembers | library/javascript/no_jquery_3.0.2.js:608-616 | a label is collected iff some selected option has that value, or that text when its value is empty |
| Forms.GetSelected | library/javascript/no_jquery_3.0.2.js:608-616 | the loop collects, in option order, the label of each selected option; an empty wrapper gives [] |
| Forms.GetAfterSelect | library/javascript/no_jquery_3.0.2.js:595-616 | after `selectValues` with clearing, `getSelected` reports exactly the wanted values among the options |
| Classes.ClassTokens | library/javascript/no_jquery_3.0.2.js:422-441 | a falsy argument changes nothing; a string is split into non-empty, whitespace-free tokens; any other value throws |
| Classes.ClassTokensOfJoined | library/javascript/no_jquery_3.0.2.js:424 | a space-join of class names is tokenised back into those names |
| Classes.AddClass | library/javascript/no_jquery_3.0.2.js:422-433 | throws for a non-string truthy argument, and past the guard on a wrapper holding anything that is not an element node (3.0.1's window, `document`, a text node), since only elements have a class list; otherwise every element gains the tokens, nothing else changes and the wrapper is returned |
| Classes.RemoveClass | library/javascript/no_jquery_3.0.2.js:435-441 | throws in the same cases as `addClass`; otherwise every element loses the tokens, nothing else changes and the wrapper is returned |
| Classes.AddThenRemove | library/javascript/no_jquery_3.0.2.js:422-441 | adding then removing the same classes leaves each element with its old classes minus those |
| Classes.WindowClassThrows | library/javascript/no_jquery_3.0.1.js:201-205 | in 3.0.1 `nj(window).addClass('a')` throws, because the window has no class list; in 3.0.3 the window was filtered out and the call succeeds |
| Classes.NonElementClassThrows | library/javascript/no_jquery_3.0.2.js:422-441 | `addClass` and `removeClass` throw a TypeError on a wrapper of a node that is not an element |
| Classes.BlankClassIsNoOp | library/javascript/no_jquery_3.0.2.js:424-427 | a whitespace-only argument yields no tokens and changes no class |
| Browser.DetectBrowserIff | library/javascript/no_jquery_3.0.2.js:867-874 | ChromiumEdge iff `Edg/`; Chrome iff `Chrome` and no `Edg`; Safari iff `Safari`, no `Chrome` and no `Edg/`; Firefox iff `Firefox` and none of the earlier rules; Unknown otherwise |
| Browser.EdgeAgent | library/javascript/no_jquery_3.0.2.js:869 | an agent string naming Chrome, Safari and `Edg/` is ChromiumEdge |
| DataPath.FindFromAncestors | library/javascript/no_jquery_3.0.1.js:344-349 | the climb returns the first non-empty dataset entry on the ancestor chain |
| DataPath.FirstData | library/javascript/no_jquery_3.0.1.js:344-349 | an entry is found iff some ancestor carries a non-empty one, and the entry found is that of the nearest such ancestor |
| DataPath.FirstDataNearest | library/javascript/no_jquery_3.0.1.js:344-349 | if ancestor i carries an entry and no nearer one does, the climb returns ancestor i's entry |
| DataPath.GDV | library/javascript/no_jquery_3.0.1.js:344-349 | `gDV` returns false or a non-empty string, and a string is the entry the climb from the first element finds |
| DataPath.GDVNearest | library/javascript/no_jquery_3.0.3.js:440-447 | `gDV` returns the entry of the nearest ancestor of the first element (itself included) that carries the key |
| DataPath.GDVFalseIff | library/javascript/no_jquery_3.0.3.js:440-447 | `gDV` is false iff the wrapper is empty or no ancestor of its first element carries the key |
| DataPath.KeysWithin | library/javascript/no_jquery_3.0.3.js:457-459 | a depth within the path walks exactly segments 1 to depth-1 |
| DataPath.UndefinedStays | library/javascript/no_jquery_3.0.3.js:460-462 | once undefined, the guarded walks stay undefined |
| DataPath.NullishIsGuardedStrict | library/javascript/no_jquery_3.0.3.js:460-462 | the null-guarded walk is the unguarded walk made total: it gives undefined exactly where the unguarded one would throw |
| DataPath.StrictErrFalsyUndefined | library/javascript/no_jquery_3.0.1.js:372-374 | where 3.0.1's unguarded `bDV` throws, the falsy-guarded walk gives undefined |
| DataPath.NullishFalsyAgree | library/javascript/no_jquery_3.0.3.js:476-481 | the null guard and the falsy guard agree on paths with no `length` segment |
| DataPath.EmptyStringLength | library/javascript/no_jquery_3.0.3.js:460-462 | they disagree on `''.length`: 0 under the null guard, undefined under the falsy guard |
| DataPath.WalkNullishAppend | library/javascript/no_jquery_3.0.3.js:459-463 | walking a path in two pieces equals walking it at once, under the null guard |
| DataPath.WalkFalsyAppend | library/javascript/no_jquery_3.0.1.js:361 | walking a path in two pieces equals walking it at once, under the falsy guard |
| DataPath.Dia | library/javascript/no_jquery_3.0.3.js:449-465 | `Dia` is false when no ancestor carries the key |
| DataPath.DiaShallowIsGRO | library/javascript/no_jquery_3.0.3.js:449-474 | a depth of at most 1 gives the root object, which is what `gRO` returns |
| DataPath.DiaDepth | library/javascript/no_jquery_3.0.1_commented.js:586-596 | a depth k within the path walks exactly segments 1 to k-1 (falsy-guarded in 3.0.1, null-guarded later), and the walk without a depth continues from that value through the rest of the path |
| DataPath.DiaVersions | library/javascript/no_jquery_3.0.2.js:900-919 | 3.0.1's falsy-guarded `Dia` and the null-guarded one of 3.0.2/3.0.3 agree on paths with no `length` segment |
| DataPath.BDV | library/javascript/no_jquery_3.0.3.js:476-481 | `bDV` never throws in 3.0.2 and 3.0.3 |
| DataPath.BDVVersions | library/javascript/no_jquery_3.0.1.js:372-374 | where 3.0.1 throws, 3.0.3 yields undefined; where 3.0.1 succeeds on a path without a `length` segment, both agree |
| Cookie.ParseSerialize | library/javascript/no_jquery_3.0.3.js:639 | an assignment whose fields hold no `;` (and a name with no `=`) reads back to the same name, value and attributes |
| Cookie.Set303 | library/javascript/no_jquery_3.0.3.js:627-640 | `set` writes `name=value`, then an expiry iff days is a number >= 0, `path` (default `/`), `Secure` iff truthy, `SameSite` iff a non-empty string, `Domain` iff truthy, in that order |
| Cookie.SetLegacy | library/javascript/no_jquery_3.0.2.js:709-717 | 3.0.1/3.0.2 `set` writes `name=value`, an expiry iff days is truthy, and `path=/` |
| Cookie.ParseLegacy | library/javascript/no_jquery_3.0.1.js:238 | the 3.0.1/3.0.2 assignment reads back as the value, the expiry for truthy days, and `path=/` |
| Cookie.ExpiryRules | library/javascript/no_jquery_3.0.3.js:630 | 0 days expires only in 3.0.3, -1 days only in 3.0.1/3.0.2, NaN in neither |
| Cookie.Remove302Expires | library/javascript/no_jquery_3.0.2.js:723-725 | 3.0.2's `remove` writes an empty value with an expiry and `path=/` |
| Cookie.Remove303NeverExpires | library/javascript/no_jquery_3.0.3.js:642-645 | 3.0.3's `remove` writes an empty value and, whatever the options, no expiry |
| Cookie.SetFixedAgrees | library/javascript/no_jquery_3.0.3.js:627-640 | the corrected `set` agrees with 3.0.3 except on negative days |
| Cookie.RemoveFixedExpires | library/javascript/no_jquery_3.0.3.js:642-645 | the corrected `remove` reads back as an empty value with an expiry, followed by the attributes 3.0.3 writes for those options |
| Cookie.CookieGet | library/javascript/no_jquery_3.0.3.js:612-615 | `get` returns '' iff no cookie of that name has a non-empty value; otherwise the value of the first such cookie |
| Cookie.CookieGetFirst | library/javascript/no_jquery_3.0.3.js:612-615 | if cookie i is the first of that name with a non-empty value, `get` returns its value |
| Config.Merge | library/javascript/no_jquery_3.0.3.js:521-528 | the merged configuration has the defaults' keys and the user's; user values win and defaults fill the rest |
| Config.AjaxTimeout | library/javascript/no_jquery_3.0.3.js:540-543 | throws only for null options; always a number; a numeric `opts.timeout` wins; otherwise the configured `ajaxTimeout` when the configuration is truthy and that value is a number, and 0 in every other case |
| Config.MergedTimeout | library/javascript/no_jquery_3.0.3.js:521-543 | with a merged configuration and no options, the timeout is 8000 when the user sets no `ajaxTimeout`, the user's value when it is a number, and 0 otherwise |
| Config.AnimationDuration | library/javascript/no_jquery_3.0.3.js:360 | a numeric argument is used as it is; otherwise the configured `animation.duration` when the configuration, its `animation` and that duration are all truthy, and 300 in every other case |
| Config.MergedDuration | library/javascript/no_jquery_3.0.3.js:360 | with a merged configuration and no numeric argument, the duration is the user's `animation.duration` when that object and value are truthy, and 300 otherwise |
| Config.DefaultsApply | library/javascript/no_jquery_3.0.3.js:521-528 | without user settings, requests time out after 8000 ms (timer armed iff a controller exists) and animations last 300 ms |
| Config.ZeroDisablesTimer | library/javascript/no_jquery_3.0.3.js:543-548 | a configured `ajaxTimeout` of 0 gives timeout 0, and 0, negative numbers and NaN never arm the timer |
| Config.ZeroDuration | library/javascript/no_jquery_3.0.3.js:360 | an explicit duration 0 is kept, but a configured duration 0 falls back to 300 |
| Config.ConfiguredDuration | library/javascript/no_jquery_3.0.3.js:360 | a positive configured duration is used whenever no number is passed |

## Left out

- DOM effects (`innerHTML`, `insertAdjacentHTML`, `classList`, `style`, `dataset` writes): nodes are opaque, and setters are modelled as a property map per value, not as browser coercion.
- Numbers are integers plus NaN; fractional and infinite numbers, and numeric strings as `days` or `timeout`, are not modelled.
- `arrayRemove`/`rAE` mutate the array in place and return the same object; the model returns the new contents, so array identity is not modelled. `indexOf` uses `===`, so NaN is never found; `NaN` is not an element type of the generic lists here.
- `Lists.ArrayRemove`: states the length and the unchanged-when-absent cases; the contents are stated by `Lists.ArrayRemoveFirst` and `Lists.ArrayRemoveCount`.
- `cookie.get` regular-expression details (whitespace around `=`, names holding regex metacharacters): the cookie jar is a list of name/value pairs.
- Cookie expiry dates: the date text is a parameter, because it comes from the clock (`new Date()`, `toUTCString`).
- AJAX transport (`fetch`, `FormData`, `AbortController`, `setTimeout`, promises), animations and the PHP echo server: network I/O, timers and the Web Animations API. Only the values they are given are modelled (timeout, timer guard, duration); whether an `AbortController` exists is a parameter.
- `Config.Merge`: `Object.assign` from a non-object configuration (a string copies its characters) is not modelled; such a configuration gives the defaults.
- `Forms.Reselect`: options are modelled as in a `<select multiple>`; in a single select, setting `selected` on one option clears the others, so the last wanted option wins, and that exclusive selection is not modelled.
- `Classes.AddClass`: the class lists already changed before a `TypeError` partway through the loop are not modelled; the result is only the error.
- `Classes.RemoveClass`: likewise, the class lists already changed before a `TypeError` partway through the loop are not modelled.
- `Document.Dom`: a node's kind is one of element, document, fragment or other (text, comment and the rest); which kind a given node has is a parameter of the document.
- `Js.PropOf`: a string's `length` is its number of characters here, not its number of UTF-16 code units.
- The alias table (`aCl`, `htm`, ...) and the `$` global: pure renaming.
- `els` (3.0.3's raw-node accessor with its own two fast paths), event binding, `getComputedStyle`, `exec`, JSON helpers: not part of this model.
- `Js.PropOf`: an index segment of a data path (`list.0.name`) reads undefined here, where JavaScript returns the array element or the string's character; only own properties of plain objects and `length` of strings and arrays are read, and every other property (inherited ones, properties of numbers, nodes and wrappers) is undefined.
- `Dia` with a non-numeric `deep` other than undefined: not modelled.
- Wrappers built by hand in 3.0.1 that hold null or other non-node values: the model's `Valid` wrappers hold nodes (and, in 3.0.1, the window).
- `Wrapper.Each`: the callback's `this` binding and side effects are not modelled; its results are collected instead.

## Findings

| source | as written | input that shows it | evidently intended | confidence | as-written member | corrected member |
|---|---|---|---|---|---|---|
| library/javascript/no_jquery_3.0.3.js:627-645 | `remove` calls `set(name, '', -1, opts)`, but `set` writes `expires` only for `days >= 0` | `cookie.remove('sid')` writes `sid=; path=/` with no expiry, so the browser keeps the cookie under an empty value | `remove` writes an expiry in the past, as its comment says and as 3.0.2 does | not executed | Cookie.Remove303NeverExpires | Cookie.RemoveFixedExpires |
