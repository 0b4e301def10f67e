/**
 Path-addressed insertion. `navTo` walks a `/`-separated path from a node,
 reusing the first child whose name matches each segment (ignoring case) and
 appending a new child where none does; `add` appends a node below the node
 `navTo` selects. Both return the updated tree together with the index path
 of the node the source method returns.
 */
module Navigation {
  import opened Wrappers
  import opened Text
  import opened Menus

  // --------------------------------------------------------------- helpers

  /** The index path that takes the first child `k` times. */
  function Zeros(k: nat): (p: seq<nat>)
    ensures |p| == k && forall i :: 0 <= i < k ==> p[i] == 0
  {
    if k == 0 then [] else [0] + Zeros(k - 1)
  }

  /**
   A bare node named `name` above a line of `k` bare nodes, each the only
   child of the one before and all named `name`: what `navTo` builds below a
   node it had to create, since the source names every created node after
   the whole path.
   */
  function Chain(name: string, k: nat): (c: Menu)
    ensures c.name == name && c.url.None? && c.icon.None? && c.perm.None?
    ensures |c.children| == if k == 0 then 0 else 1
    decreases k
  {
    if k == 0 then Create(name) else Create(name).(children := [Chain(name, k - 1)])
  }

  /** The number of nodes in a tree. */
  function Count(m: Menu): nat
    decreases m
  {
    1 + CountAll(m.children)
  }

  /** The number of nodes in a list of trees. */
  function CountAll(cs: seq<Menu>): nat
    decreases cs
  {
    if |cs| == 0 then 0 else CountAll(cs[..|cs| - 1]) + Count(cs[|cs| - 1])
  }

  lemma CountAllAppend(cs: seq<Menu>, c: Menu)
    ensures CountAll(cs + [c]) == CountAll(cs) + Count(c)
  {
    assert (cs + [c])[..|cs|] == cs;
  }

  lemma {:induction false} CountAllUpdate(cs: seq<Menu>, i: nat, c: Menu)
    requires i < |cs|
    ensures CountAll(cs[i := c]) == CountAll(cs) - Count(cs[i]) + Count(c)
    decreases |cs|
  {
    var n := |cs|;
    if i == n - 1 {
      assert cs[i := c][..n - 1] == cs[..n - 1];
    } else {
      assert cs[i := c][..n - 1] == cs[..n - 1][i := c];
      CountAllUpdate(cs[..n - 1], i, c);
    }
  }

  /** Replacing the subtree at `p` changes the node count by the difference in subtree sizes. */
  lemma {:induction false} CountReplaceAt(m: Menu, p: seq<nat>, n: Menu)
    requires ValidPath(m, p)
    ensures Count(ReplaceAt(m, p, n)) == Count(m) - Count(At(m, p)) + Count(n)
    decreases |p|
  {
    if |p| > 0 {
      var c := ReplaceAt(m.children[p[0]], p[1..], n);
      CountReplaceAt(m.children[p[0]], p[1..], n);
      CountAllUpdate(m.children, p[0], c);
      assert ReplaceAt(m, p, n) == m.(children := m.children[p[0] := c]);
    }
  }

  /** How many leading segments of `segs` already resolve, one child lookup at a time, from `m`. */
  function ResolvedDepth(m: Menu, segs: seq<string>): (d: nat)
    ensures d <= |segs|
    decreases |segs|
  {
    if |segs| == 0 then 0
    else
      match FindChild(m.children, segs[0])
      case None => 0
      case Some(i) => 1 + ResolvedDepth(m.children[i], segs[1..])
  }

  /** Every segment resolves to an existing node. */
  predicate Resolves(m: Menu, segs: seq<string>) {
    ResolvedDepth(m, segs) == |segs|
  }

  // ----------------------------------------------------------------- navTo

  /**
   The loop of `navTo` over the segments `segs` of `path`: reuse the first
   matching child, or append a new child named after the whole `path`, and
   descend into it.
   */
  function NavSegments(m: Menu, segs: seq<string>, path: string): (r: (Menu, seq<nat>))
    ensures ValidPath(r.0, r.1) && |r.1| == |segs|
    ensures r.0.name == m.name && r.0.url == m.url && r.0.icon == m.icon && r.0.perm == m.perm
    ensures |segs| == 0 ==> r.0 == m
    ensures |segs| > 0 && FindChild(m.children, segs[0]).Some? ==>
              r.1[0] == FindChild(m.children, segs[0]).value
              && |r.0.children| == |m.children|
              && forall j :: 0 <= j < |m.children| && j != r.1[0] ==> r.0.children[j] == m.children[j]
    ensures |segs| > 0 && FindChild(m.children, segs[0]).None? ==>
              r.1[0] == |m.children|
              && |r.0.children| == |m.children| + 1
              && r.0.children[..|m.children|] == m.children
    decreases |segs|
  {
    if |segs| == 0 then (m, [])
    else
      match FindChild(m.children, segs[0])
      case Some(i) =>
        var (c, p) := NavSegments(m.children[i], segs[1..], path);
        (m.(children := m.children[i := c]), [i] + p)
      case None =>
        var (c, p) := NavSegments(Create(path), segs[1..], path);
        (m.(children := m.children + [c]), [|m.children|] + p)
  }

  /**
   `navTo`: an absent or empty path selects the receiver itself; otherwise the
   path is split on `/` and walked from the receiver.
   */
  function NavTo(m: Menu, path: Option<string>): (r: (Menu, seq<nat>))
    ensures ValidPath(r.0, r.1)
    ensures !Present(path) ==> r == (m, [])
    ensures Present(path) ==> |r.1| == |Split(path.value, '/')|
    ensures r.0.name == m.name && r.0.url == m.url && r.0.icon == m.icon && r.0.perm == m.perm
  {
    if !Present(path) then (m, [])
    else NavSegments(m, Split(path.value, '/'), path.value)
  }

  /** Walking from a freshly created node only ever creates: it builds a chain. */
  lemma {:induction false} NavFromFresh(segs: seq<string>, path: string)
    ensures NavSegments(Create(path), segs, path) == (Chain(path, |segs|), Zeros(|segs|))
    decreases |segs|
  {
    if |segs| > 0 {
      NavFromFresh(segs[1..], path);
      assert Create(path).children + [Chain(path, |segs| - 1)] == [Chain(path, |segs| - 1)];
    }
  }

  /**
   A missing first segment appends exactly one child after the existing ones:
   named after the whole path, with no URL, icon or permission, bare when it
   is the last segment and otherwise heading a chain of like nodes.
   */
  lemma NavMissingAppendsOne(m: Menu, segs: seq<string>, path: string)
    requires |segs| > 0 && FindChild(m.children, segs[0]).None?
    ensures NavSegments(m, segs, path)
         == (m.(children := m.children + [Chain(path, |segs| - 1)]), [|m.children|] + Zeros(|segs| - 1))
  {
    NavFromFresh(segs[1..], path);
  }

  /** When every segment resolves, the walk leaves the tree exactly as it was. */
  lemma {:induction false} NavResolvedUnchanged(m: Menu, segs: seq<string>, path: string)
    requires Resolves(m, segs)
    ensures NavSegments(m, segs, path).0 == m
    decreases |segs|
  {
    if |segs| > 0 {
      var i := FindChild(m.children, segs[0]).value;
      NavResolvedUnchanged(m.children[i], segs[1..], path);
      assert m.children[i := m.children[i]] == m.children;
    }
  }

  /** The walk adds exactly one node for each segment that does not resolve. */
  lemma {:induction false} NavCount(m: Menu, segs: seq<string>, path: string)
    ensures Count(NavSegments(m, segs, path).0) == Count(m) + |segs| - ResolvedDepth(m, segs)
    decreases |segs|
  {
    if |segs| > 0 {
      var r := NavSegments(m, segs, path);
      match FindChild(m.children, segs[0])
      case Some(i) =>
        var c := NavSegments(m.children[i], segs[1..], path).0;
        NavCount(m.children[i], segs[1..], path);
        assert r.0 == m.(children := m.children[i := c]);
        assert ResolvedDepth(m, segs) == 1 + ResolvedDepth(m.children[i], segs[1..]);
        CountAllUpdate(m.children, i, c);
        assert Count(r.0) == 1 + CountAll(m.children[i := c]);
      case None =>
        var c := NavSegments(Create(path), segs[1..], path).0;
        NavCount(Create(path), segs[1..], path);
        assert r.0 == m.(children := m.children + [c]);
        assert ResolvedDepth(m, segs) == 0;
        assert ResolvedDepth(Create(path), segs[1..]) == 0;
        assert Count(Create(path)) == 1;
        CountAllAppend(m.children, c);
        assert Count(r.0) == 1 + CountAll(m.children + [c]);
    }
  }

  /** The walk leaves the tree unchanged exactly when every segment resolves. */
  lemma {:induction false} NavUnchangedIffResolved(m: Menu, segs: seq<string>, path: string)
    ensures NavSegments(m, segs, path).0 == m <==> Resolves(m, segs)
  {
    NavCount(m, segs, path);
    if Resolves(m, segs) {
      NavResolvedUnchanged(m, segs, path);
    }
  }

  /**
   In the result `r` of a walk, the `j`-th node on the selected path answers
   to the `j`-th segment: its name matches the segment ignoring case, or it is
   a node created for `path` and so named after the whole path.
   */
  predicate AnswersTo(r: (Menu, seq<nat>), segs: seq<string>, path: string, j: nat) {
    1 <= j <= |segs| && j <= |r.1| && ValidPath(r.0, r.1[..j])
    && (SameName(At(r.0, r.1[..j]).name, segs[j - 1]) || At(r.0, r.1[..j]).name == path)
  }

  /** Every node on the selected path answers to its segment. */
  lemma {:induction false} NavNames(m: Menu, segs: seq<string>, path: string)
    ensures forall j :: 1 <= j <= |segs| ==> AnswersTo(NavSegments(m, segs, path), segs, path, j)
    decreases |segs|
  {
    var r := NavSegments(m, segs, path);
    if |segs| > 0 {
      var child := if FindChild(m.children, segs[0]).Some? then m.children[FindChild(m.children, segs[0]).value]
                   else Create(path);
      NavNames(child, segs[1..], path);
      var sub := NavSegments(child, segs[1..], path);
      assert r.1 == [r.1[0]] + sub.1;
      assert r.0.children[r.1[0]] == sub.0;
      forall j | 1 <= j <= |segs|
        ensures AnswersTo(r, segs, path, j)
      {
        assert r.1[..j] == [r.1[0]] + sub.1[..j - 1];
        assert (r.1[..j])[1..] == sub.1[..j - 1];
        if j > 1 {
          assert AnswersTo(sub, segs[1..], path, j - 1);
          assert segs[1..][j - 2] == segs[j - 1];
        } else {
          assert sub.1[..0] == [];
        }
      }
    }
  }

  /** `navTo` on a non-empty path leaves the tree unchanged exactly when every segment resolves. */
  lemma NavToUnchangedIffResolved(m: Menu, path: string)
    requires path != ""
    ensures NavTo(m, Some(path)).0 == m <==> Resolves(m, Split(path, '/'))
    ensures Count(NavTo(m, Some(path)).0) == Count(m) + |Split(path, '/')| - ResolvedDepth(m, Split(path, '/'))
  {
    NavUnchangedIffResolved(m, Split(path, '/'), path);
    NavCount(m, Split(path, '/'), path);
  }

  /** The node `navTo` selects lies one level down per segment, each level answering to its segment. */
  lemma NavToAnswers(m: Menu, path: string)
    requires path != ""
    ensures forall j :: 1 <= j <= |Split(path, '/')| ==> AnswersTo(NavTo(m, Some(path)), Split(path, '/'), path, j)
  {
    NavNames(m, Split(path, '/'), path);
  }

  // ------------------------------------- a miss below resolved segments

  /**
   In a walk that selects `p`, the `j`-th step takes the first child of the
   node reached so far whose name matches segment `j`.
   */
  predicate TakesFirstMatch(m: Menu, p: seq<nat>, segs: seq<string>, j: nat) {
    j < |segs| && j < |p| && ValidPath(m, p[..j])
    && FindChild(At(m, p[..j]).children, segs[j]) == Some(p[j])
  }

  /** Every step through a segment that resolves takes the first matching child. */
  lemma {:induction false} NavFirstMatches(m: Menu, segs: seq<string>, path: string)
    ensures forall j :: 0 <= j < ResolvedDepth(m, segs) ==> TakesFirstMatch(m, NavSegments(m, segs, path).1, segs, j)
    decreases |segs|
  {
    var r := NavSegments(m, segs, path);
    if |segs| > 0 && FindChild(m.children, segs[0]).Some? {
      var i := FindChild(m.children, segs[0]).value;
      var sub := NavSegments(m.children[i], segs[1..], path);
      NavFirstMatches(m.children[i], segs[1..], path);
      assert r.1 == [i] + sub.1;
      forall j | 0 <= j < ResolvedDepth(m, segs)
        ensures TakesFirstMatch(m, r.1, segs, j)
      {
        if j == 0 {
          assert r.1[..0] == [];
        } else {
          assert TakesFirstMatch(m.children[i], sub.1, segs[1..], j - 1);
          assert r.1[..j] == [i] + sub.1[..j - 1];
          assert (r.1[..j])[1..] == sub.1[..j - 1];
          assert segs[1..][j - 1] == segs[j];
        }
      }
    }
  }

  /**
   The deepest node a walk reaches through segments that resolve: the prefix
   of the selected index path of length `ResolvedDepth(m, segs)`.
   */
  function ReachedPath(m: Menu, segs: seq<string>): (p: seq<nat>)
    ensures |p| == ResolvedDepth(m, segs) && ValidPath(m, p)
    decreases |segs|
  {
    if |segs| == 0 then []
    else
      match FindChild(m.children, segs[0])
      case None => []
      case Some(i) => [i] + ReachedPath(m.children[i], segs[1..])
  }

  /** Resolving segment 0 to child `i` takes one step down to `i`. */
  lemma {:induction false} ReachedFound(m: Menu, segs: seq<string>, i: nat)
    requires |segs| > 0 && FindChild(m.children, segs[0]) == Some(i)
    ensures ResolvedDepth(m, segs) == 1 + ResolvedDepth(m.children[i], segs[1..])
    ensures ReachedPath(m, segs) == [i] + ReachedPath(m.children[i], segs[1..])
  {
  }

  /** One step of the walk where segment 0 resolves to child `i`. */
  lemma {:induction false} NavSegmentsFound(m: Menu, segs: seq<string>, path: string, i: nat)
    requires |segs| > 0 && FindChild(m.children, segs[0]) == Some(i)
    ensures var sub := NavSegments(m.children[i], segs[1..], path);
            NavSegments(m, segs, path) == (m.(children := m.children[i := sub.0]), [i] + sub.1)
  {
  }

  /**
   When the first `d` segments resolve and segment `d` does not, the walk
   selects, for its first `d` steps, the path to the deepest node the
   resolved segments reach; that node has no child matching segment `d`, and
   step `d` goes to the position just after its existing children.
   */
  lemma {:induction false} NavReached(m: Menu, segs: seq<string>, path: string)
    requires ResolvedDepth(m, segs) < |segs|
    ensures NavSegments(m, segs, path).1[..ResolvedDepth(m, segs)] == ReachedPath(m, segs)
    ensures FindChild(At(m, ReachedPath(m, segs)).children, segs[ResolvedDepth(m, segs)]).None?
    ensures NavSegments(m, segs, path).1[ResolvedDepth(m, segs)] == |At(m, ReachedPath(m, segs)).children|
    decreases |segs|
  {
    match FindChild(m.children, segs[0])
    case None =>
      NavMissingAppendsOne(m, segs, path);
    case Some(i) =>
      ReachedFound(m, segs, i);
      NavReached(m.children[i], segs[1..], path);
      NavReachedStep(m, segs, path, i);
  }

  /**
   When some segment does not resolve, the walk appends `ch`, the chain it
   builds for the remaining segments, below the deepest node the resolved
   segments reach, and changes nothing else.
   */
  lemma {:induction false} NavAppendsChain(m: Menu, segs: seq<string>, path: string, ch: Menu)
    requires ResolvedDepth(m, segs) < |segs|
    requires ch == Chain(path, |segs| - ResolvedDepth(m, segs) - 1)
    ensures NavSegments(m, segs, path).0 == AppendBelow(m, ReachedPath(m, segs), ch)
    decreases |segs|
  {
    match FindChild(m.children, segs[0])
    case None =>
      NavMissingAppendsOne(m, segs, path);
    case Some(i) =>
      ChainStep(m, segs, path, i);
      NavAppendsChain(m.children[i], segs[1..], path, ch);
      NavAppendStep(m, segs, path, i, ch);
  }

  /** The step of `NavReached` through child `i`. */
  lemma {:induction false} NavReachedStep(m: Menu, segs: seq<string>, path: string, i: nat)
    requires |segs| > 0 && FindChild(m.children, segs[0]) == Some(i)
    requires ResolvedDepth(m.children[i], segs[1..]) < |segs[1..]|
    requires var c, t := m.children[i], segs[1..];
             NavSegments(c, t, path).1[..ResolvedDepth(c, t)] == ReachedPath(c, t)
             && FindChild(At(c, ReachedPath(c, t)).children, t[ResolvedDepth(c, t)]).None?
             && NavSegments(c, t, path).1[ResolvedDepth(c, t)] == |At(c, ReachedPath(c, t)).children|
    ensures ResolvedDepth(m, segs) < |segs|
    ensures NavSegments(m, segs, path).1[..ResolvedDepth(m, segs)] == ReachedPath(m, segs)
    ensures FindChild(At(m, ReachedPath(m, segs)).children, segs[ResolvedDepth(m, segs)]).None?
    ensures NavSegments(m, segs, path).1[ResolvedDepth(m, segs)] == |At(m, ReachedPath(m, segs)).children|
  {
    var c := m.children[i];
    var sub := NavSegments(c, segs[1..], path);
    var d' := ResolvedDepth(c, segs[1..]);
    var q := ReachedPath(c, segs[1..]);
    ReachedFound(m, segs, i);
    NavSegmentsFound(m, segs, path, i);
    assert ([i] + q)[1..] == q;
    ConsPrefix(i, sub.1, d');
    assert segs[1..][d'] == segs[1 + d'];
  }

  /** Taking a prefix of `[i] + s` takes one fewer element of `s`. */
  lemma ConsPrefix(i: nat, s: seq<nat>, k: nat)
    requires k < |s|
    ensures ([i] + s)[..1 + k] == [i] + s[..k] && ([i] + s)[1 + k] == s[k]
  {
  }

  /** The step of `NavAppendsChain` through child `i`. */
  lemma {:induction false} NavAppendStep(m: Menu, segs: seq<string>, path: string, i: nat, ch: Menu)
    requires |segs| > 0 && FindChild(m.children, segs[0]) == Some(i)
    requires NavSegments(m.children[i], segs[1..], path).0
          == AppendBelow(m.children[i], ReachedPath(m.children[i], segs[1..]), ch)
    ensures NavSegments(m, segs, path).0 == AppendBelow(m, ReachedPath(m, segs), ch)
  {
    var c := m.children[i];
    var q := ReachedPath(c, segs[1..]);
    var sub := NavSegments(c, segs[1..], path).0;
    assert sub == AppendBelow(c, q, ch);
    AppendBelowCons(m, i, q, sub, ch);
    ReachedFound(m, segs, i);
    NavSegmentsFound(m, segs, path, i);
  }

  /** The chain left to build is the same one level down. */
  lemma {:induction false} ChainStep(m: Menu, segs: seq<string>, path: string, i: nat)
    requires |segs| > 0 && FindChild(m.children, segs[0]) == Some(i)
    requires ResolvedDepth(m, segs) < |segs|
    ensures ResolvedDepth(m.children[i], segs[1..]) < |segs[1..]|
    ensures Chain(path, |segs| - ResolvedDepth(m, segs) - 1)
         == Chain(path, |segs[1..]| - ResolvedDepth(m.children[i], segs[1..]) - 1)
  {
    ReachedFound(m, segs, i);
  }

  /** `navTo` on a non-empty path takes the first matching child at every segment that resolves. */
  lemma {:induction false} NavToFirstMatches(m: Menu, path: string)
    requires path != ""
    ensures forall j :: 0 <= j < ResolvedDepth(m, Split(path, '/')) ==>
              TakesFirstMatch(m, NavTo(m, Some(path)).1, Split(path, '/'), j)
  {
    NavFirstMatches(m, Split(path, '/'), path);
  }

  /** `NavAppendsChain` with the whole-tree frame of `AppendAt`. */
  lemma {:induction false} NavAppendsChainAt(m: Menu, segs: seq<string>, path: string, ch: Menu)
    requires ResolvedDepth(m, segs) < |segs|
    requires ch == Chain(path, |segs| - ResolvedDepth(m, segs) - 1)
    ensures NavSegments(m, segs, path).0 == AppendAt(m, ReachedPath(m, segs), ch)
  {
    NavAppendsChain(m, segs, path, ch);
    AppendAtIsAppendBelow(NavSegments(m, segs, path).0, m, ReachedPath(m, segs), ch);
  }

  /** On a non-empty path `navTo` is the walk over its segments. */
  lemma {:induction false} NavToWalks(m: Menu, path: string)
    requires path != ""
    ensures NavTo(m, Some(path)) == NavSegments(m, Split(path, '/'), path)
  {
  }

  /**
   `navTo` on a non-empty path whose segments do not all resolve selects the
   deepest node the resolved segments reach, finds no child there matching
   the next segment, and goes on to a new child after the existing ones.
   */
  lemma {:induction false} NavToReached(m: Menu, path: string)
    requires path != "" && !Resolves(m, Split(path, '/'))
    ensures var segs := Split(path, '/');
            NavTo(m, Some(path)).1[..ResolvedDepth(m, segs)] == ReachedPath(m, segs)
            && FindChild(At(m, ReachedPath(m, segs)).children, segs[ResolvedDepth(m, segs)]).None?
            && NavTo(m, Some(path)).1[ResolvedDepth(m, segs)] == |At(m, ReachedPath(m, segs)).children|
  {
    var segs := Split(path, '/');
    assert NavTo(m, Some(path)) == NavSegments(m, segs, path);
    NavReached(m, segs, path);
  }

  /**
   `navTo` on a non-empty path whose segments do not all resolve appends one
   chain below the deepest node the resolved segments reach: that node gains
   one last child, the nodes above it keep their fields and child counts,
   and every other subtree is unchanged.
   */
  lemma {:induction false} NavToPartlyResolved(m: Menu, path: string)
    requires path != "" && !Resolves(m, Split(path, '/'))
    ensures NavTo(m, Some(path)).0
         == AppendAt(m, ReachedPath(m, Split(path, '/')),
                     Chain(path, |Split(path, '/')| - ResolvedDepth(m, Split(path, '/')) - 1))
  {
    var segs := Split(path, '/');
    NavToWalks(m, path);
    NavAppendsChainAt(m, segs, path, Chain(path, |segs| - ResolvedDepth(m, segs) - 1));
  }

  // ------------------------------------------------------------------- add

  /** The tree `t` with `node` appended to the children of the node at `p`. */
  function AppendBelow(t: Menu, p: seq<nat>, node: Menu): Menu
    requires ValidPath(t, p)
  {
    ReplaceAt(t, p, At(t, p).(children := At(t, p).children + [node]))
  }

  /** Appending below `[i] + q` is appending below `q` inside child `i`. */
  lemma {:induction false} AppendBelowCons(m: Menu, i: nat, q: seq<nat>, sub: Menu, n: Menu)
    requires i < |m.children| && ValidPath(m.children[i], q)
    requires sub == AppendBelow(m.children[i], q, n)
    ensures ValidPath(m, [i] + q)
    ensures m.(children := m.children[i := sub]) == AppendBelow(m, [i] + q, n)
  {
    assert ([i] + q)[0] == i && ([i] + q)[1..] == q;
  }

  /**
   `$select->_childrens[] = $menu`: appends `node` to the children of the node
   at `p`. That node keeps its own fields, every node above it keeps its own
   fields and child count, and every subtree off the path is unchanged.
   */
  function AppendAt(t: Menu, p: seq<nat>, node: Menu): (r: Menu)
    requires ValidPath(t, p)
    ensures ValidPath(r, p) && At(r, p) == At(t, p).(children := At(t, p).children + [node])
    ensures ValidPath(r, p + [|At(t, p).children|]) && At(r, p + [|At(t, p).children|]) == node
    ensures Count(r) == Count(t) + Count(node)
    ensures forall q, k :: ValidPath(t, q) && LeavesAt(q, p, k) ==> ValidPath(r, q) && At(r, q) == At(t, q)
    ensures forall k :: 0 <= k < |p| ==>
              (ValidPath(t, p[..k]) && ValidPath(r, p[..k]) && SameFields(At(r, p[..k]), At(t, p[..k])))
    ensures r.name == t.name && r.url == t.url && r.icon == t.icon && r.perm == t.perm
  {
    var sel := At(t, p);
    var n := sel.(children := sel.children + [node]);
    var r := AppendBelow(t, p, node);
    AtExtend(r, p, |sel.children|);
    CountReplaceAt(t, p, n);
    CountAllAppend(sel.children, node);
    forall q, k | ValidPath(t, q) && LeavesAt(q, p, k)
      ensures ValidPath(r, q) && At(r, q) == At(t, q)
    {
      ReplaceAtOffPath(t, p, n, q, k);
    }
    forall k | 0 <= k < |p|
      ensures ValidPath(t, p[..k]) && ValidPath(r, p[..k]) && SameFields(At(r, p[..k]), At(t, p[..k]))
    {
      ReplaceAtAncestors(t, p, n, k);
    }
    r
  }

  /** A tree that is `AppendBelow(t, p, node)` is `AppendAt(t, p, node)`. */
  lemma {:induction false} AppendAtIsAppendBelow(r: Menu, t: Menu, p: seq<nat>, node: Menu)
    requires ValidPath(t, p) && r == AppendBelow(t, p, node)
    ensures r == AppendAt(t, p, node)
  {
  }

  /**
   `add`: selects a node with `navTo(path)` and appends `node` as its last
   child; the index path returned leads to `node`, the object the source
   returns. Only the selected node gains a child: every node above it keeps
   its fields and child count, and every subtree off the path is unchanged.
   */
  function Add(m: Menu, node: Menu, path: Option<string>): (r: (Menu, seq<nat>))
    ensures ValidPath(r.0, r.1) && At(r.0, r.1) == node
    ensures r.0.name == m.name && r.0.url == m.url && r.0.icon == m.icon && r.0.perm == m.perm
    ensures var (t, p) := NavTo(m, path);
            |r.1| == |p| + 1 && r.1[..|p|] == p && r.1[|p|] == |At(t, p).children|
    ensures var (t, p) := NavTo(m, path);
            ValidPath(r.0, p) && At(r.0, p) == At(t, p).(children := At(t, p).children + [node])
            && Count(r.0) == Count(t) + Count(node)
    ensures var (t, p) := NavTo(m, path);
            forall q, k :: ValidPath(t, q) && LeavesAt(q, p, k) ==> ValidPath(r.0, q) && At(r.0, q) == At(t, q)
    ensures var (t, p) := NavTo(m, path);
            forall k :: 0 <= k < |p| ==>
              (ValidPath(t, p[..k]) && ValidPath(r.0, p[..k]) && SameFields(At(r.0, p[..k]), At(t, p[..k])))
    ensures !Present(path) ==>
              GetLength(r.0) == GetLength(m) + 1
              && r.1 == [GetLength(m)]
              && GetChildren(r.0, GetLength(m)) == node
              && forall j :: 0 <= j < GetLength(m) ==> GetChildren(r.0, j) == GetChildren(m, j)
  {
    var (t, p) := NavTo(m, path);
    var q := p + [|At(t, p).children|];
    assert q[..|p|] == p;
    (AppendAt(t, p, node), q)
  }

  /** With no path, `add` makes `node` the receiver's last child and keeps the others. */
  lemma AddToReceiver(m: Menu, node: Menu)
    ensures Add(m, node, None).0 == m.(children := m.children + [node])
    ensures Add(m, node, Some("")).0 == m.(children := m.children + [node])
  {
  }

  /**
   The scenario of a single child "Users" at "/users": with the current URL
   "/users?page=2" the child, found by the lower-case name, is active, and so
   is the root.
   */
  lemma UsersScenario()
    ensures var root := Add(CreateRoot(), SetUrl(Create("Users"), Some("/users")), None).0;
            var current := Some("/users?page=2");
            GetChildrenOfName(root, "users").Some?
            && IsActive(GetChildrenOfName(root, "users").value, current)
            && IsActive(root, current)
  {
    var users := SetUrl(Create("Users"), Some("/users"));
    var root := Add(CreateRoot(), users, None).0;
    assert root.children == [users];
    assert SameName("Users", "users");
    BeforeQueryWithQuery("/users", "page=2");
    assert "/users?page=2" == "/users" + "?" + "page=2";
    assert AnyActive(root.children, Some("/users?page=2"));
  }

  // ---------------------------------------------- naming by segment (corrected)

  /** The walk as it was evidently meant: a created node is named after its own segment. */
  function NavSegmentsBySegment(m: Menu, segs: seq<string>): (r: (Menu, seq<nat>))
    ensures ValidPath(r.0, r.1) && |r.1| == |segs|
    ensures r.0.name == m.name && r.0.url == m.url && r.0.icon == m.icon && r.0.perm == m.perm
    ensures |segs| > 0 && FindChild(m.children, segs[0]).Some? ==>
              r.1[0] == FindChild(m.children, segs[0]).value
              && |r.0.children| == |m.children|
              && forall j :: 0 <= j < |m.children| && j != r.1[0] ==> r.0.children[j] == m.children[j]
    ensures |segs| > 0 && FindChild(m.children, segs[0]).None? ==>
              r.1[0] == |m.children|
              && |r.0.children| == |m.children| + 1
              && r.0.children[..|m.children|] == m.children
              && r.0.children[|m.children|].name == segs[0]
    decreases |segs|
  {
    if |segs| == 0 then (m, [])
    else
      match FindChild(m.children, segs[0])
      case Some(i) =>
        var (c, p) := NavSegmentsBySegment(m.children[i], segs[1..]);
        (m.(children := m.children[i := c]), [i] + p)
      case None =>
        var (c, p) := NavSegmentsBySegment(Create(segs[0]), segs[1..]);
        (m.(children := m.children + [c]), [|m.children|] + p)
  }

  /** `navTo` with the segment-naming correction. */
  function NavToBySegment(m: Menu, path: Option<string>): (r: (Menu, seq<nat>))
    ensures ValidPath(r.0, r.1)
    ensures !Present(path) ==> r == (m, [])
    ensures Present(path) ==> |r.1| == |Split(path.value, '/')|
  {
    if !Present(path) then (m, [])
    else NavSegmentsBySegment(m, Split(path.value, '/'))
  }

  /** The first matching position is the one `FindChild` reports. */
  lemma {:induction false} FindChildIsFirstMatch(cs: seq<Menu>, name: string, k: nat)
    requires k < |cs| && SameName(cs[k].name, name)
    requires forall j :: 0 <= j < k ==> !SameName(cs[j].name, name)
    ensures FindChild(cs, name) == Some(k)
    decreases k
  {
    if k > 0 {
      FindChildIsFirstMatch(cs[1..], name, k - 1);
    }
  }

  /** Changing one child without renaming it keeps the first match where it was. */
  lemma FindChildAfterUpdate(cs: seq<Menu>, i: nat, c: Menu, name: string)
    requires FindChild(cs, name) == Some(i)
    requires c.name == cs[i].name
    ensures FindChild(cs[i := c], name) == Some(i)
  {
    FindChildIsFirstMatch(cs[i := c], name, i);
  }

  /** A matching child appended after children that do not match is the first match. */
  lemma FindChildAfterAppend(cs: seq<Menu>, c: Menu, name: string)
    requires FindChild(cs, name).None?
    requires SameName(c.name, name)
    ensures FindChild(cs + [c], name) == Some(|cs|)
  {
    assert forall j :: 0 <= j < |cs| ==> (cs + [c])[j] == cs[j];
    FindChildIsFirstMatch(cs + [c], name, |cs|);
  }

  /** One step of the corrected walk through an existing child. */
  lemma NavBySegmentFound(m: Menu, segs: seq<string>, i: nat)
    requires |segs| > 0 && FindChild(m.children, segs[0]) == Some(i)
    ensures var sub := NavSegmentsBySegment(m.children[i], segs[1..]);
            NavSegmentsBySegment(m, segs) == (m.(children := m.children[i := sub.0]), [i] + sub.1)
  {
  }

  /** One step of the corrected walk through a created child. */
  lemma NavBySegmentCreated(m: Menu, segs: seq<string>)
    requires |segs| > 0 && FindChild(m.children, segs[0]).None?
    ensures var sub := NavSegmentsBySegment(Create(segs[0]), segs[1..]);
            NavSegmentsBySegment(m, segs) == (m.(children := m.children + [sub.0]), [|m.children|] + sub.1)
  {
  }

  /** After the corrected walk, walking the same segments again changes nothing and selects the same node. */
  lemma {:induction false} NavBySegmentStable(m: Menu, segs: seq<string>)
    ensures var r := NavSegmentsBySegment(m, segs);
            NavSegmentsBySegment(r.0, segs) == r
    decreases |segs|
  {
    if |segs| > 0 {
      match FindChild(m.children, segs[0])
      case Some(i) =>
        var sub := NavSegmentsBySegment(m.children[i], segs[1..]);
        NavBySegmentFound(m, segs, i);
        var t := m.(children := m.children[i := sub.0]);
        NavBySegmentStable(m.children[i], segs[1..]);
        FindChildAfterUpdate(m.children, i, sub.0, segs[0]);
        assert t.children[i] == sub.0;
        NavBySegmentFound(t, segs, i);
        assert t.children[i := sub.0] == t.children;
      case None =>
        var sub := NavSegmentsBySegment(Create(segs[0]), segs[1..]);
        NavBySegmentCreated(m, segs);
        var t := m.(children := m.children + [sub.0]);
        NavBySegmentStable(Create(segs[0]), segs[1..]);
        SameNameIsEquivalence(segs[0], segs[0], segs[0]);
        FindChildAfterAppend(m.children, sub.0, segs[0]);
        assert t.children[|m.children|] == sub.0;
        NavBySegmentFound(t, segs, |m.children|);
        assert t.children[|m.children| := sub.0] == t.children;
    }
  }

  /** The corrected `navTo` is idempotent: a second call with the same path adds nothing. */
  lemma NavToBySegmentIdempotent(m: Menu, path: Option<string>)
    ensures NavToBySegment(NavToBySegment(m, path).0, path) == NavToBySegment(m, path)
  {
    if Present(path) {
      NavBySegmentStable(m, Split(path.value, '/'));
    }
  }

  /**
   The source as written is not idempotent: calling `navTo("a/b")` twice on a
   fresh root leaves two children, because the node created for "a" is named
   "a/b" and so is not found the second time.
   */
  lemma NavToRepeatDuplicates()
    ensures var t1 := NavTo(CreateRoot(), Some("a/b")).0;
            var t2 := NavTo(t1, Some("a/b")).0;
            GetLength(t1) == 1 && GetLength(t2) == 2
  {
    var segs := ["a", "b"];
    assert Join(segs, '/') == "a/b";
    SplitJoin(segs, '/');
    var t1 := NavTo(CreateRoot(), Some("a/b")).0;
    assert t1.children[0].name == "a/b";
    assert !SameName("a/b", "a");
  }
}
