# Menu tree model

A Dafny model of the `Menu` class of the PHP menu system: a navigation tree
in which every `Menu` node is also the subtree it roots. A node has a name
fixed at creation, an optional URL, an optional icon, an optional permission
callback and an ordered list of children. The class offers:

- path-addressed insertion: `navTo` walks a `/`-separated path and creates
  missing children; `add` appends a node below the node `navTo` selects;
- case-insensitive lookup of the first child with a given name;
- active-route detection against the current request URL, ignoring the query string;
- getters, setters and presence tests for URL, icon and permission.

The tree is an immutable value (`Menus.Menu`), and every operation is a pure
function. A PHP method that mutates `$this` returns the updated node here.
`navTo` and `add` return the updated tree and the index path (child
positions from the root) of the node the PHP method returns.

Files:
- `wrappers.dfy`: `Option`, standing for PHP's nullable values.
- `text.dfy`: ASCII lower-casing (`strtolower`), `explode` as `Split`
  (with `Join` as its inverse), and `BeforeQuery`, which keeps the part of
  a URL before its first `?`.
- `menu.dfy`: the node datatype, constructor and factories, accessors,
  child queries, `getChildrenOfName`, `isActive`, and index paths into a tree.
- `navigation.dfy`: `navTo` and `add`, their properties, and a corrected
  `navTo` (see Findings).

Choices in the model:
- Loose `!= null` on a nullable string treats `""` as null, and no other
  string. So a URL or icon counts as present only when it is set and
  non-empty (`Menus.Present`). `navTo` treats an empty path like a missing one.
- `explode('/', $path)` keeps empty segments. `"a//b"` has three segments,
  and the middle one looks up a child named `""`.
- A node that `navTo` creates is named after the whole path argument, not
  the segment. This is what the source does. The model reproduces it in
  `Navigation.NavTo`, and `Navigation.Add` uses that.
- The class has no label, parent link, depth, `hasValidChildrens` or
  `canRender`; neither does the model.

## Model

| member | source | states |
|---|---|---|
| `Menus.New` | src/Menu.php:26-31 | the constructor stores the name and the URL (through `setUrl`); no icon is stored (the field stays null), no permission callback is stored so permission is granted, and there are no children |
| `Menus.Create` | src/Menu.php:16-19 | `create` gives a detached node with the given name and no URL, icon, permission callback or children |
| `Menus.CreateRoot` | src/Menu.php:21-24 | `createRoot` gives an empty node named `_root_` |
| `Menus.GetName` | src/Menu.php:144-147 | returns the name fixed at creation; no setter changes it (see the setters' frame clauses) |
| `Menus.Present` | src/Menu.php:45 | the loose `!= null` on a nullable string: false for null and for `""`, true for every non-empty string |
| `Menus.HasUrl` | src/Menu.php:134-137 | true exactly when a non-empty URL is stored; false for no URL and for `""` |
| `Menus.GetUrl` | src/Menu.php:139-142 | gives the stored URL, the empty one included; it is non-empty exactly when `hasUrl` holds |
| `Menus.SetUrl` | src/Menu.php:128-132 | replaces only the URL; `hasUrl` afterwards holds exactly when the new URL is non-empty, and `getUrl` then returns it |
| `Menus.HasIcon` | src/Menu.php:72-75 | true exactly when a non-empty icon is stored; false for no icon and for `""` |
| `Menus.GetIcon` | src/Menu.php:77-80 | gives the stored icon, the empty one included; it is non-empty exactly when `hasIcon` holds |
| `Menus.SetIcon` | src/Menu.php:66-70 | replaces only the icon; `hasIcon` afterwards holds exactly when the icon is non-empty, and `getIcon` then returns it |
| `Menus.HasPermission` | src/Menu.php:105-109 | granted when no callback is installed, otherwise the callback's answer |
| `Menus.SetPermission` | src/Menu.php:111-115 | installs the callback, replacing any earlier one; `hasPermission` then gives its answer; nothing else changes |
| `Menus.GetLength` | src/Menu.php:87-90 | the number of direct children |
| `Menus.HasChildrens` | src/Menu.php:82-85 | true exactly when the length is positive, i.e. the child list is non-empty |
| `Menus.GetChildren` | src/Menu.php:92-95 | for a position below the length, the child at that position |
| `Menus.FindChild` | src/Menu.php:97-103 | the first position whose child's name equals the given name ignoring ASCII case: every earlier child fails to match; none exactly when no child matches |
| `Menus.GetChildrenOfName` | src/Menu.php:97-103 | none exactly when no child matches the name ignoring case; otherwise the child at the first matching position |
| `Text.SameNameIsEquivalence` | src/Menu.php:100 | comparing lower-cased names is reflexive, symmetric and transitive |
| `Text.SameNameCharwise` | src/Menu.php:100 | two names match exactly when they have the same length and agree at each position after lower-casing ASCII letters |
| `Text.Lower` | src/Menu.php:100 | `strtolower` on ASCII: same length, each character lower-cased on its own |
| `Text.LowerChar` | src/Menu.php:100 | the result is never an ASCII capital; non-capitals are unchanged; a capital moves to its small letter |
| `Text.Split` | src/Menu.php:46 | `explode`: at least one piece, no piece holds the delimiter, joining the pieces with the delimiter gives back the input, and the first piece is the prefix before the first delimiter |
| `Text.SplitJoin` | src/Menu.php:46 | splitting the join of delimiter-free pieces gives the same pieces back |
| `Text.BeforeQuery` | src/Menu.php:125 | `explode('?', $url)[0]` is the longest prefix of the URL without a `?` |
| `Text.PathPartIsBeforeQuery` | src/Menu.php:125 | a string is a `?`-free prefix of the URL followed by its end or by `?` exactly when it is `explode('?', $url)[0]` |
| `Text.BeforeQueryNoQuery` | src/Menu.php:125 | a URL without `?` is its own path part |
| `Text.BeforeQueryWithQuery` | src/Menu.php:125 | the path part of `path?query` is `path` when `path` has no `?` |
| `Menus.OwnUrlMatches` | src/Menu.php:120-125 | the node matches on its own URL exactly when it has a non-empty URL, a current URL is given, and the URL is a `?`-free prefix of the current URL ending where it ends or at a `?` |
| `Menus.IsActive` | src/Menu.php:117-126 | `isActive`, recursively over the children; with no current-URL handle registered, no node of the tree is active |
| `Menus.IsActiveIffSomeNodeMatches` | src/Menu.php:117-126 | a node is active exactly when some node of its subtree, itself included, matches on its own URL |
| `Menus.AnyActive` | src/Menu.php:119 | the loop over the children is true exactly when some child is active |
| `Menus.IsActiveCases` | src/Menu.php:117-126 | active if some child is; otherwise inactive without a URL or without a current URL; otherwise active exactly when the URL equals the current URL up to its first `?` |
| `Menus.QueryUrlNeverMatches` | src/Menu.php:125 | a node whose URL contains `?` never matches on its own URL |
| `Menus.ActiveReachesRoot` | src/Menu.php:119 | an active node anywhere in the tree makes the root active |
| `Menus.ActiveAncestors` | src/Menu.php:117-126 | an active node makes every node on the path from the root down to it active |
| `Navigation.NavSegments` | src/Menu.php:46-54 | one step per segment along a valid index path; the root's own fields stay the same; a matched first segment changes only the matched child; a missing first segment appends one child after the existing ones, which stay in place |
| `Navigation.NavTo` | src/Menu.php:42-57 | an absent or empty path selects the receiver and leaves the tree as it was; otherwise the selected node is one level down per `/`-separated segment |
| `Navigation.NavFromFresh` | src/Menu.php:49-53 | below a created node every later segment creates again, which builds a single-child chain of bare nodes named after the whole path |
| `Navigation.NavMissingAppendsOne` | src/Menu.php:48-53 | when the first segment is missing below the starting node, exactly one child is appended after that node's children; it is named after the whole path, has no URL, icon or permission, and has no children when it is the last segment; earlier children are untouched |
| `Navigation.NavResolvedUnchanged` | src/Menu.php:46-53 | when every segment resolves to an existing child, the tree is unchanged |
| `Navigation.NavCount` | src/Menu.php:46-54 | the walk adds exactly one node per segment that does not resolve |
| `Navigation.NavUnchangedIffResolved` | src/Menu.php:46-54 | the walk leaves the tree unchanged if and only if every segment resolves |
| `Navigation.NavToUnchangedIffResolved` | src/Menu.php:42-57 | for a non-empty path, `navTo` changes nothing iff every segment resolves, and it adds one node per unresolved segment |
| `Navigation.NavNames` | src/Menu.php:46-54 | each node on the selected path matches its segment ignoring case, or is a created node named after the whole path |
| `Navigation.NavToAnswers` | src/Menu.php:42-57 | the same for `navTo` on a non-empty path |
| `Navigation.NavFirstMatches` | src/Menu.php:47-53 | every step through a segment that resolves goes to the first child, in order, whose name matches the segment ignoring case |
| `Navigation.NavToFirstMatches` | src/Menu.php:44-53 | the same for `navTo` on a non-empty path |
| `Navigation.NavReached` | src/Menu.php:47-53 | when the first `d` segments resolve and segment `d` does not, the first `d` steps lead to the node those segments reach, that node has no child matching segment `d`, and step `d` goes to a new position after its existing children |
| `Navigation.NavAppendsChain` | src/Menu.php:47-53 | in the same case the resulting tree is the original with one chain, one node per remaining segment, appended as the last child of that node; nothing else changes |
| `Navigation.NavAppendsChainAt` | src/Menu.php:47-53 | the same, as `AppendAt`, so its frame applies: the nodes above keep their fields and child counts and every subtree off the path is unchanged |
| `Navigation.NavToReached` | src/Menu.php:44-53 | `NavReached` for `navTo` on a non-empty path whose segments do not all resolve |
| `Navigation.NavToPartlyResolved` | src/Menu.php:44-53 | for `navTo` on a non-empty path whose segments do not all resolve, the result is `AppendAt` of the chain below the node the resolved segments reach, with that function's whole-tree frame |
| `Navigation.AppendAt` | src/Menu.php:62 | appending to the children of the node at an index path: that node gets the new node as its last child and keeps its own fields; the new node is reachable one step below it; every node above keeps its own fields and child count; every subtree off the path is unchanged; the tree grows by exactly the new node's size |
| `Menus.ReplaceAtOffPath` | src/Menu.php:62 | changing the node at one index path leaves every subtree reached by a path that leaves it unchanged |
| `Menus.ReplaceAtAncestors` | src/Menu.php:62 | changing the node at one index path keeps the own fields and child count of every node above it |
| `Navigation.Add` | src/Menu.php:59-64 | the returned index path leads to the given node, directly below the node `navTo` selects; that node equals the one `navTo` selected with the given node appended to its children; every node above it keeps its fields and child count; every subtree off the path is as `navTo` left it; the tree grows by exactly the given node's size; with no path the receiver's length grows by one, the node is its last child, and earlier children keep their positions |
| `Navigation.AddToReceiver` | src/Menu.php:59-64 | `add` with a null or empty path appends the node to the receiver's own children and changes nothing else |
| `Navigation.UsersScenario` | src/Menu.php:117-126 | with a child "Users" at "/users" and current URL "/users?page=2", the child (found as "users") is active, and so is the root |
| `Navigation.NavToRepeatDuplicates` | src/Menu.php:50 | as written, calling `navTo("a/b")` twice on a fresh root leaves two children |
| `Navigation.NavSegmentsBySegment` | src/Menu.php:46-54 | the corrected walk: as the source, but a created child is named after its own segment |
| `Navigation.NavToBySegment` | src/Menu.php:42-57 | the corrected `navTo`: an absent or empty path selects the receiver; otherwise one level per segment |
| `Navigation.NavBySegmentStable` | src/Menu.php:46-54 | after the corrected walk, walking the same segments again returns the same tree and the same index path |
| `Navigation.NavToBySegmentIdempotent` | src/Menu.php:42-57 | the corrected `navTo` is idempotent |

## Left out

- The static `$getCurrentURLHandle` is not modelled as global state. `isActive` takes the handle's answer as an `Option<string>` parameter instead; `None` means no handle is registered. A handle that returns `null` is not modelled, and neither is one whose answer changes between calls (the source calls it again for each node it checks) or one that throws.
- Permission callbacks are not modelled as PHP callables. A node stores the callback's answer as `Option<bool>`; `None` means no callback. A callback whose answer changes between calls, or that throws, is not modelled.
- Object identity and aliasing are left out. PHP appends object references, so one node can sit in two places, and a later change to it shows up in both. The model copies values.
- The `renderHandle` argument that `navTo` passes to the constructor is left out. It reads an undefined property and has no effect on the tree.
- The empty `initilize` hook is left out because it does nothing.
- `createRoot` passes `create` an extra argument, which PHP ignores; the model ignores it too.
- Menus.GetUrl: the PHP TypeError when no URL is stored is not modelled; the function requires a stored URL. A stored `""` is returned, as in PHP.
- Menus.GetIcon: the PHP TypeError when no icon is stored is not modelled; the function requires a stored icon. A stored `""` is returned, as in PHP.
- Menus.GetChildren: PHP's undefined-index warning is not modelled; the function requires an index below the length.
- PHP strings are byte strings, while the model uses Dafny `char` sequences. ASCII folding, splitting on `/` and `?`, and equality give the same answers on valid UTF-8, so this changes no behaviour the model states.
- Text.Lower: `strtolower` folds ASCII letters only; locale-dependent folding of other bytes is not modelled.
- Navigation.Add: the source returns the added `Menu` object; the model returns the updated tree and the index path of that node.

## Findings

| source | as written | input that shows it | evidently intended | confidence | as-written member | corrected member |
|---|---|---|---|---|---|---|
| src/Menu.php:50 | a node created for a missing segment is named after the whole `$path` | `navTo("a/b")` twice on a fresh root: the first call creates a child named "a/b", the second does not find "a" and creates another | name the created node after `$part`, so a second call finds the nodes and adds nothing | high; not executed | `Navigation.NavToRepeatDuplicates` | `Navigation.NavToBySegmentIdempotent` |

The model keeps the as-written naming in `Navigation.NavTo` and `Navigation.Add`,
because that is what the class does today. `Navigation.NavToBySegment`
is the corrected walk, and its idempotence is proved.
