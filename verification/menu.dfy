/**
 A menu node, which is also the subtree it roots: a name fixed at creation,
 an optional URL and icon, the outcome of an optional permission callback, and
 an ordered list of children. The class's getters, setters, presence tests,
 child lookup and active-route detection are pure functions here; a setter
 returns the updated node instead of mutating it.
 */
module Menus {
  import opened Wrappers
  import opened Text

  /**
   `perm` is the result the permission callback would give; `None` means no
   callback was installed.
   */
  datatype Menu = Menu(
    name: string,
    url: Option<string>,
    icon: Option<string>,
    perm: Option<bool>,
    children: seq<Menu>)

  /** The name `createRoot` gives the tree's entry node. */
  const RootName: string := "_root_"

  /**
   PHP's loose `$x != null` on a nullable string: the empty string compares
   equal to `null`, so it counts as absent too.
   */
  predicate Present(o: Option<string>)
    ensures o.None? ==> !Present(o)
    ensures o == Some("") ==> !Present(o)
    ensures o.Some? && |o.value| > 0 ==> Present(o)
  {
    o.Some? && o.value != ""
  }

  // ---------------------------------------------------------------- creation

  /** The constructor: the given name and URL, no icon, no permission callback, no children. */
  function New(name: string, url: Option<string>): (m: Menu)
    ensures GetName(m) == name && m.url == url
    ensures HasUrl(m) <==> Present(url)
    ensures m.icon.None? && !HasIcon(m) && m.perm.None? && HasPermission(m)
    ensures !HasChildrens(m)
  {
    Menu(name, url, None, None, [])
  }

  /** `create`: a detached node with the given name and nothing else set. */
  function Create(name: string): (m: Menu)
    ensures GetName(m) == name
    ensures m.url.None? && m.icon.None? && m.perm.None?
    ensures !HasUrl(m) && !HasIcon(m) && HasPermission(m) && GetLength(m) == 0
  {
    New(name, None)
  }

  /** `createRoot`: an empty node named by the root sentinel. */
  function CreateRoot(): (m: Menu)
    ensures GetName(m) == "_root_"
    ensures m.url.None? && m.icon.None? && m.perm.None?
    ensures !HasUrl(m) && !HasIcon(m) && HasPermission(m) && GetLength(m) == 0
  {
    Create(RootName)
  }

  // ------------------------------------------------------ attribute access

  /** The name given at creation. */
  function GetName(m: Menu): (r: string)
    ensures r == m.name
  {
    m.name
  }

  /** `hasUrl`: false both for no URL and for the empty URL. */
  predicate HasUrl(m: Menu)
    ensures HasUrl(m) <==> m.url.Some? && |m.url.value| > 0
    ensures m.url.None? || m.url == Some("") ==> !HasUrl(m)
  {
    Present(m.url)
  }

  /**
   `getUrl`: the stored URL, the empty one included. Its `string` return type
   makes PHP raise a TypeError when no URL is stored, so a URL must be stored.
   */
  function GetUrl(m: Menu): (r: string)
    requires m.url.Some?
    ensures m.url == Some(r)
    ensures HasUrl(m) <==> |r| > 0
  {
    m.url.value
  }

  /** `setUrl`: replaces the URL (possibly with none) and nothing else. */
  function SetUrl(m: Menu, url: Option<string>): (r: Menu)
    ensures r.url == url
    ensures r.name == m.name && r.icon == m.icon && r.perm == m.perm && r.children == m.children
    ensures HasUrl(r) <==> Present(url)
    ensures HasUrl(r) ==> GetUrl(r) == url.value
  {
    m.(url := url)
  }

  /** `hasIcon`: false both for no icon and for the empty icon. */
  predicate HasIcon(m: Menu)
    ensures HasIcon(m) <==> m.icon.Some? && |m.icon.value| > 0
    ensures m.icon.None? || m.icon == Some("") ==> !HasIcon(m)
  {
    Present(m.icon)
  }

  /**
   `getIcon`: the stored icon, the empty one included. Its `string` return
   type makes PHP raise a TypeError when no icon is stored, so one must be.
   */
  function GetIcon(m: Menu): (r: string)
    requires m.icon.Some?
    ensures m.icon == Some(r)
    ensures HasIcon(m) <==> |r| > 0
  {
    m.icon.value
  }

  /** `setIcon`: the source takes a non-null string, so an icon is always stored. */
  function SetIcon(m: Menu, icon: string): (r: Menu)
    ensures r.icon == Some(icon)
    ensures r.name == m.name && r.url == m.url && r.perm == m.perm && r.children == m.children
    ensures HasIcon(r) <==> icon != ""
    ensures HasIcon(r) ==> GetIcon(r) == icon
  {
    m.(icon := Some(icon))
  }

  /** `hasPermission`: granted when no callback is installed, else the callback's answer. */
  predicate HasPermission(m: Menu)
    ensures m.perm.None? ==> HasPermission(m)
    ensures m.perm.Some? ==> (HasPermission(m) <==> m.perm.value)
  {
    m.perm.GetOr(true)
  }

  /** `setPermission`: installs a callback whose outcome is `allowed`, replacing any earlier one. */
  function SetPermission(m: Menu, allowed: bool): (r: Menu)
    ensures r.perm == Some(allowed)
    ensures HasPermission(r) == allowed
    ensures r.name == m.name && r.url == m.url && r.icon == m.icon && r.children == m.children
  {
    m.(perm := Some(allowed))
  }

  // ---------------------------------------------------------------- children

  /** `getLength`: the number of direct children. */
  function GetLength(m: Menu): (r: nat)
    ensures r == |m.children|
  {
    |m.children|
  }

  /** `hasChildrens`: whether there is at least one child. */
  predicate HasChildrens(m: Menu)
    ensures HasChildrens(m) <==> GetLength(m) > 0
    ensures !HasChildrens(m) <==> m.children == []
  {
    GetLength(m) > 0
  }

  /** `getChildren($index)`: the child at a position the caller knows to exist. */
  function GetChildren(m: Menu, index: nat): (r: Menu)
    requires index < GetLength(m)
    ensures r in m.children && r == m.children[index]
  {
    m.children[index]
  }

  /**
   The position of the first child of `cs` whose name matches `name` ignoring
   ASCII case, or none when no child matches.
   */
  function FindChild(cs: seq<Menu>, name: string): (r: Option<nat>)
    ensures r.Some? ==> r.value < |cs| && SameName(cs[r.value].name, name)
    ensures r.Some? ==> forall j :: 0 <= j < r.value ==> !SameName(cs[j].name, name)
    ensures r.None? <==> forall j :: 0 <= j < |cs| ==> !SameName(cs[j].name, name)
  {
    if |cs| == 0 then None
    else if SameName(cs[0].name, name) then Some(0)
    else
      match FindChild(cs[1..], name)
      case None => None
      case Some(k) => Some(k + 1)
  }

  /** `getChildrenOfName`: the first matching child in order, or none. */
  function GetChildrenOfName(m: Menu, name: string): (r: Option<Menu>)
    ensures r.None? <==> forall j :: 0 <= j < |m.children| ==> !SameName(m.children[j].name, name)
    ensures r.Some? ==> exists i :: 0 <= i < |m.children| && r.value == m.children[i]
                                    && SameName(m.children[i].name, name)
                                    && forall j :: 0 <= j < i ==> !SameName(m.children[j].name, name)
  {
    match FindChild(m.children, name)
    case None => None
    case Some(i) => Some(m.children[i])
  }

  // ------------------------------------------------------------ active route

  /**
   Whether the node's own URL is the current route: there is a URL, there is a
   current URL, and the two agree up to the current URL's first `?`.
   */
  predicate OwnUrlMatches(m: Menu, current: Option<string>)
    ensures OwnUrlMatches(m, current) <==>
              HasUrl(m) && current.Some? && IsPathPart(GetUrl(m), current.value)
  {
    PathPartIsBeforeQuery(if m.url.Some? then m.url.value else "", if current.Some? then current.value else "");
    HasUrl(m) && current.Some? && GetUrl(m) == BeforeQuery(current.value)
  }

  /**
   `isActive`, with the registered current-URL handle's answer passed in
   (`None` when no handle is registered): active when some child is active,
   otherwise when the node's own URL matches.
   */
  predicate IsActive(m: Menu, current: Option<string>)
    ensures IsActive(m, current) ==> current.Some?
    decreases m
  {
    AnyActive(m.children, current) || OwnUrlMatches(m, current)
  }

  /**
   What `isActive` decides: a node with an active child is active; otherwise it
   is inactive without a URL or without a current URL, and else active exactly
   when its URL equals the current URL up to the first `?`.
   */
  lemma IsActiveCases(m: Menu, current: Option<string>)
    ensures (exists i :: 0 <= i < |m.children| && IsActive(m.children[i], current)) ==> IsActive(m, current)
    ensures (forall i :: 0 <= i < |m.children| ==> !IsActive(m.children[i], current)) ==>
              (!HasUrl(m) || current.None? ==> !IsActive(m, current))
    ensures (forall i :: 0 <= i < |m.children| ==> !IsActive(m.children[i], current)) ==>
              HasUrl(m) && current.Some? ==>
              (IsActive(m, current) <==> GetUrl(m) == BeforeQuery(current.value))
  {
  }

  /** The source's loop over the children, stopping at the first active one. */
  predicate AnyActive(cs: seq<Menu>, current: Option<string>)
    ensures AnyActive(cs, current) <==> exists i :: 0 <= i < |cs| && IsActive(cs[i], current)
    decreases cs
  {
    |cs| > 0 && (IsActive(cs[0], current) || AnyActive(cs[1..], current))
  }

  /** A URL containing `?` never matches on its own, since the compared prefix has no `?`. */
  lemma QueryUrlNeverMatches(m: Menu, current: Option<string>)
    requires m.url.Some? && '?' in m.url.value
    ensures !OwnUrlMatches(m, current)
  {
  }

  // ------------------------------------------------------------ index paths

  /** `p` names a node of `m`: each step is a valid child position. */
  predicate ValidPath(m: Menu, p: seq<nat>)
    decreases |p|
  {
    |p| == 0 || (p[0] < |m.children| && ValidPath(m.children[p[0]], p[1..]))
  }

  /** The node reached from `m` by following the child positions in `p`. */
  function At(m: Menu, p: seq<nat>): Menu
    requires ValidPath(m, p)
    decreases |p|
  {
    if |p| == 0 then m else At(m.children[p[0]], p[1..])
  }

  /** `m` with the node at `p` replaced by `n`; nothing off that path changes. */
  function ReplaceAt(m: Menu, p: seq<nat>, n: Menu): (r: Menu)
    requires ValidPath(m, p)
    ensures ValidPath(r, p) && At(r, p) == n
    ensures |p| > 0 ==> r.name == m.name && r.url == m.url && r.icon == m.icon && r.perm == m.perm
    ensures |p| > 0 ==> |r.children| == |m.children|
    ensures |p| > 0 ==> forall j :: 0 <= j < |m.children| && j != p[0] ==> r.children[j] == m.children[j]
    decreases |p|
  {
    if |p| == 0 then n
    else m.(children := m.children[p[0] := ReplaceAt(m.children[p[0]], p[1..], n)])
  }

  /** `q` agrees with `p` on its first `k` steps and leaves it at step `k`. */
  predicate LeavesAt(q: seq<nat>, p: seq<nat>, k: nat) {
    k < |p| && k < |q| && q[..k] == p[..k] && q[k] != p[k]
  }

  /** Two nodes agree on everything except what lies below their children. */
  predicate SameFields(a: Menu, b: Menu) {
    a.name == b.name && a.url == b.url && a.icon == b.icon && a.perm == b.perm
    && |a.children| == |b.children|
  }

  /** Replacing the node at `p` leaves every subtree off that path as it was. */
  lemma {:induction false} ReplaceAtOffPath(m: Menu, p: seq<nat>, n: Menu, q: seq<nat>, k: nat)
    requires ValidPath(m, p) && ValidPath(m, q) && LeavesAt(q, p, k)
    ensures ValidPath(ReplaceAt(m, p, n), q) && At(ReplaceAt(m, p, n), q) == At(m, q)
    decreases k
  {
    var r := ReplaceAt(m, p, n);
    if k == 0 {
      assert r.children[q[0]] == m.children[q[0]];
    } else {
      assert q[0] == q[..k][0] == p[..k][0] == p[0];
      assert q[1..][..k - 1] == q[..k][1..] && p[1..][..k - 1] == p[..k][1..];
      ReplaceAtOffPath(m.children[p[0]], p[1..], n, q[1..], k - 1);
      assert r.children[p[0]] == ReplaceAt(m.children[p[0]], p[1..], n);
    }
  }

  /** Replacing the node at `p` keeps the own fields and child count of every node above it. */
  lemma {:induction false} ReplaceAtAncestors(m: Menu, p: seq<nat>, n: Menu, k: nat)
    requires ValidPath(m, p) && k < |p|
    ensures ValidPath(m, p[..k]) && ValidPath(ReplaceAt(m, p, n), p[..k])
    ensures SameFields(At(ReplaceAt(m, p, n), p[..k]), At(m, p[..k]))
    decreases k
  {
    var r := ReplaceAt(m, p, n);
    if k == 0 {
      assert p[..0] == [];
    } else {
      ReplaceAtAncestors(m.children[p[0]], p[1..], n, k - 1);
      assert p[..k] == [p[0]] + p[1..][..k - 1];
      assert p[..k][1..] == p[1..][..k - 1];
      assert r.children[p[0]] == ReplaceAt(m.children[p[0]], p[1..], n);
    }
  }

  /** Following a path in two legs reaches the same node as following it at once. */
  lemma {:induction false} AtConcat(m: Menu, p: seq<nat>, q: seq<nat>)
    requires ValidPath(m, p + q)
    ensures ValidPath(m, p) && ValidPath(At(m, p), q)
    ensures At(At(m, p), q) == At(m, p + q)
    decreases |p|
  {
    if |p| > 0 {
      assert (p + q)[1..] == p[1..] + q;
      AtConcat(m.children[p[0]], p[1..], q);
    } else {
      assert p + q == q;
    }
  }

  /** One more step down from a node reaches one of its children. */
  lemma {:induction false} AtExtend(m: Menu, p: seq<nat>, k: nat)
    requires ValidPath(m, p) && k < |At(m, p).children|
    ensures ValidPath(m, p + [k]) && At(m, p + [k]) == At(m, p).children[k]
    decreases |p|
  {
    if |p| == 0 {
      assert p + [k] == [k];
    } else {
      assert (p + [k])[1..] == p[1..] + [k];
      AtExtend(m.children[p[0]], p[1..], k);
    }
  }

  /** An active node makes the root of any tree containing it active. */
  lemma {:induction false} ActiveReachesRoot(m: Menu, p: seq<nat>, current: Option<string>)
    requires ValidPath(m, p)
    requires IsActive(At(m, p), current)
    ensures IsActive(m, current)
    decreases |p|
  {
    if |p| > 0 {
      ActiveReachesRoot(m.children[p[0]], p[1..], current);
    }
  }

  /** An active node makes every node on the way up to the root active. */
  lemma ActiveAncestors(m: Menu, p: seq<nat>, current: Option<string>)
    requires ValidPath(m, p)
    requires IsActive(At(m, p), current)
    ensures forall k :: 0 <= k <= |p| ==> ValidPath(m, p[..k]) && IsActive(At(m, p[..k]), current)
  {
    forall k | 0 <= k <= |p|
      ensures ValidPath(m, p[..k]) && IsActive(At(m, p[..k]), current)
    {
      assert p[..k] + p[k..] == p;
      AtConcat(m, p[..k], p[k..]);
      ActiveReachesRoot(At(m, p[..k]), p[k..], current);
    }
  }

  /** An active node has a node in its subtree, itself included, that matches on its own URL. */
  lemma {:induction false} ActiveWitness(m: Menu, current: Option<string>) returns (p: seq<nat>)
    requires IsActive(m, current)
    ensures ValidPath(m, p) && OwnUrlMatches(At(m, p), current)
    decreases m
  {
    if OwnUrlMatches(m, current) {
      p := [];
    } else {
      var i :| 0 <= i < |m.children| && IsActive(m.children[i], current);
      var q := ActiveWitness(m.children[i], current);
      p := [i] + q;
      assert p[1..] == q;
    }
  }

  /**
   An independent reading of `isActive`: a node is active exactly when some
   node of its subtree, itself included, matches on its own URL.
   */
  lemma IsActiveIffSomeNodeMatches(m: Menu, current: Option<string>)
    ensures IsActive(m, current) <==> exists p: seq<nat> :: ValidPath(m, p) && OwnUrlMatches(At(m, p), current)
  {
    if IsActive(m, current) {
      var p := ActiveWitness(m, current);
      assert ValidPath(m, p) && OwnUrlMatches(At(m, p), current);
      assert exists p': seq<nat> :: ValidPath(m, p') && OwnUrlMatches(At(m, p'), current);
    }
    if exists p: seq<nat> :: ValidPath(m, p) && OwnUrlMatches(At(m, p), current) {
      var p: seq<nat> :| ValidPath(m, p) && OwnUrlMatches(At(m, p), current);
      assert IsActive(At(m, p), current);
      ActiveReachesRoot(m, p, current);
    }
  }
}
