/** Grouping pending events that share plan items or files (ledger/ledger_api.py). */
module Clustering {

  // ---------------------------------------------------------------- what a cluster is

  ghost predicate Overlap(keys: seq<set<string>>, i: nat, j: nat)
    requires i < |keys| && j < |keys|
  {
    i == j || keys[i] * keys[j] != {}
  }

  /** A chain of events, each sharing a key with the next. */
  ghost predicate Chain(keys: seq<set<string>>, c: seq<nat>) {
    && |c| > 0
    && (forall k :: 0 <= k < |c| ==> c[k] < |keys|)
    && (forall k :: 0 <= k < |c| - 1 ==> Overlap(keys, c[k], c[k + 1]))
  }

  ghost predicate Joined(keys: seq<set<string>>, i: nat, j: nat) {
    exists c :: Chain(keys, c) && c[0] == i && c[|c| - 1] == j
  }

  lemma {:induction false} JoinedSelf(keys: seq<set<string>>, i: nat)
    requires i < |keys|
    ensures Joined(keys, i, i)
  {
    assert Chain(keys, [i]);
  }

  lemma {:induction false} JoinedOverlap(keys: seq<set<string>>, i: nat, j: nat)
    requires i < |keys| && j < |keys| && Overlap(keys, i, j)
    ensures Joined(keys, i, j)
  {
    var c := [i, j];
    assert Chain(keys, c) && c[0] == i && c[|c| - 1] == j;
  }

  lemma {:induction false} JoinedSymmetric(keys: seq<set<string>>, i: nat, j: nat)
    requires Joined(keys, i, j)
    ensures Joined(keys, j, i)
  {
    var c :| Chain(keys, c) && c[0] == i && c[|c| - 1] == j;
    var back := seq(|c|, k requires 0 <= k < |c| => c[|c| - 1 - k]);
    forall k | 0 <= k < |back| - 1 ensures Overlap(keys, back[k], back[k + 1]) {
      assert Overlap(keys, c[|c| - 2 - k], c[|c| - 2 - k + 1]);
    }
    assert Chain(keys, back) && back[0] == j && back[|back| - 1] == i;
  }

  lemma {:induction false} JoinedTransitive(keys: seq<set<string>>, i: nat, j: nat, k: nat)
    requires Joined(keys, i, j) && Joined(keys, j, k)
    ensures Joined(keys, i, k)
  {
    var c :| Chain(keys, c) && c[0] == i && c[|c| - 1] == j;
    var d :| Chain(keys, d) && d[0] == j && d[|d| - 1] == k;
    var both := c + d;
    forall n | 0 <= n < |both| - 1 ensures Overlap(keys, both[n], both[n + 1]) {
      if n == |c| - 1 {
      } else if n >= |c| {
        assert Overlap(keys, d[n - |c|], d[n - |c| + 1]);
      }
    }
    assert Chain(keys, both) && both[0] == i && both[|both| - 1] == k;
  }

  // ---------------------------------------------------------------- the forest

  /**
    `root[x]` is the representative that the parent links of `x` lead to, and `depth` bounds the way there.
   */
  ghost predicate Forest(parent: seq<nat>, root: seq<nat>, depth: seq<nat>) {
    && |parent| == |root| == |depth|
    && forall x :: 0 <= x < |parent| ==>
         && parent[x] < |parent| && root[x] < |parent|
         && root[parent[x]] == root[x]
         && (parent[x] == x ==> root[x] == x)
         && (parent[x] != x ==> depth[parent[x]] < depth[x])
  }

  /** A representative is its own parent. */
  lemma {:induction false} RootsAreFixed(parent: seq<nat>, root: seq<nat>, depth: seq<nat>, x: nat)
    requires Forest(parent, root, depth) && x < |parent|
    ensures parent[root[x]] == root[x]
    decreases depth[x]
  {
    if parent[x] != x {
      RootsAreFixed(parent, root, depth, parent[x]);
    }
  }

  /** `find` with path halving: returns the root and keeps every root. */
  method Find(parent: array<nat>, start: nat, ghost root: seq<nat>, ghost depth: seq<nat>) returns (r: nat)
    requires Forest(parent[..], root, depth) && start < parent.Length
    modifies parent
    ensures Forest(parent[..], root, depth)
    ensures r < parent.Length && r == root[start]
  {
    var i: nat := start;
    while parent[i] != i
      invariant Forest(parent[..], root, depth) && i < parent.Length && root[i] == root[start]
      decreases if i < |depth| then depth[i] else 0
    {
      ghost var before := parent[..];
      assert before[before[i]] < |before| && before[i] < |before|;
      parent[i] := parent[parent[i]];
      assert parent[..] == before[i := before[before[i]]];
      i := parent[i];
    }
    r := i;
  }

  ghost function Relinked(root: seq<nat>, from: nat, to: nat): seq<nat> {
    seq(|root|, x requires 0 <= x < |root| => if root[x] == from then to else root[x])
  }

  ghost function Deeper(root: seq<nat>, depth: seq<nat>, from: nat, more: nat): seq<nat>
    requires |root| == |depth|
  {
    seq(|root|, x requires 0 <= x < |root| => if root[x] == from then depth[x] + more else depth[x])
  }

  lemma {:induction false} LinkRoots(parent: seq<nat>, root: seq<nat>, depth: seq<nat>, a: nat, b: nat)
    requires Forest(parent, root, depth) && a < |parent| && b < |parent| && a != b
    requires parent[a] == a && parent[b] == b
    ensures Forest(parent[a := b], Relinked(root, a, b), Deeper(root, depth, a, depth[b] + 1))
  {
  }

  lemma {:induction false} RelinkSelf(root: seq<nat>, a: nat)
    ensures Relinked(root, a, a) == root
  {
  }

  method Union(parent: array<nat>, i: nat, j: nat, ghost root: seq<nat>, ghost depth: seq<nat>)
    returns (ghost root': seq<nat>, ghost depth': seq<nat>)
    requires Forest(parent[..], root, depth) && i < parent.Length && j < parent.Length
    modifies parent
    ensures Forest(parent[..], root', depth')
    ensures root' == Relinked(root, root[i], root[j])
  {
    var a := Find(parent, i, root, depth);
    var b := Find(parent, j, root, depth);
    if a == b {
      RelinkSelf(root, a);
      return root, depth;
    }
    ghost var before := parent[..];
    RootsAreFixed(before, root, depth, i);
    RootsAreFixed(before, root, depth, j);
    LinkRoots(before, root, depth, a, b);
    parent[a] := b;
    assert parent[..] == before[a := b];
    return Relinked(root, a, b), Deeper(root, depth, a, depth[b] + 1);
  }

  // ---------------------------------------------------------------- roots are the clusters

  /** Events with one root really are joined. */
  ghost predicate Sound(keys: seq<set<string>>, root: seq<nat>)
    requires |root| == |keys|
  {
    forall x, y :: 0 <= x < |keys| && 0 <= y < |keys| && root[x] == root[y] ==> Joined(keys, x, y)
  }

  /** Every processed key leads to an event with the same root as the event that carries it. */
  ghost predicate Covers(keys: seq<set<string>>, root: seq<nat>, first: map<string, nat>, i: nat, done: set<string>)
    requires |root| == |keys|
  {
    && (forall k :: k in first ==> first[k] < |keys| && k in keys[first[k]])
    && (forall x, k :: 0 <= x < |keys| && (x < i || (x == i && k in done)) && k in keys[x] ==>
          k in first && root[first[k]] == root[x])
  }

  lemma {:induction false} RelinkSound(keys: seq<set<string>>, root: seq<nat>, i: nat, j: nat)
    requires |root| == |keys| && i < |keys| && j < |keys| && Sound(keys, root) && Overlap(keys, i, j)
    ensures Sound(keys, Relinked(root, root[i], root[j]))
  {
    var next := Relinked(root, root[i], root[j]);
    JoinedOverlap(keys, i, j);
    JoinedSymmetric(keys, i, j);
    forall x, y | 0 <= x < |keys| && 0 <= y < |keys| && next[x] == next[y] ensures Joined(keys, x, y) {
      if root[x] == root[y] {
      } else if root[x] == root[i] {
        assert root[y] == root[j];
        JoinedTransitive(keys, x, i, j);
        JoinedTransitive(keys, x, j, y);
      } else {
        assert root[y] == root[i] && root[x] == root[j];
        JoinedTransitive(keys, x, j, i);
        JoinedTransitive(keys, x, i, y);
      }
    }
  }

  /** When every event is processed, chains stay within one root. */
  lemma {:induction false} ChainHasOneRoot(keys: seq<set<string>>, root: seq<nat>, first: map<string, nat>, c: seq<nat>)
    requires |root| == |keys| && Covers(keys, root, first, |keys|, {}) && Chain(keys, c)
    ensures root[c[0]] == root[c[|c| - 1]]
    decreases |c|
  {
    if |c| > 1 {
      var rest := c[1..];
      forall k | 0 <= k < |rest| - 1 ensures Overlap(keys, rest[k], rest[k + 1]) {
        assert Overlap(keys, c[k + 1], c[k + 1 + 1]);
      }
      ChainHasOneRoot(keys, root, first, rest);
      assert Overlap(keys, c[0], c[0 + 1]);
      if c[0] != c[1] {
        var k :| k in keys[c[0]] * keys[c[1]];
        assert root[first[k]] == root[c[0]] && root[first[k]] == root[c[1]];
      }
    }
  }

  lemma {:induction false} RootsAreClusters(
    keys: seq<set<string>>, root: seq<nat>, first: map<string, nat>, i: nat, j: nat)
    requires |root| == |keys| && Sound(keys, root) && Covers(keys, root, first, |keys|, {})
    requires i < |keys| && j < |keys|
    ensures root[i] == root[j] <==> Joined(keys, i, j)
  {
    if Joined(keys, i, j) {
      var c :| Chain(keys, c) && c[0] == i && c[|c| - 1] == j;
      ChainHasOneRoot(keys, root, first, c);
    }
  }

  lemma {:induction false} RelinkCovers(
    keys: seq<set<string>>, root: seq<nat>, first: map<string, nat>, i: nat, done: set<string>, key: string)
    requires |root| == |keys| && i < |keys| && Covers(keys, root, first, i, done) && key in first && key in keys[i]
    ensures Covers(keys, Relinked(root, root[i], root[first[key]]), first, i, done + {key})
  {
  }

  lemma {:induction false} FirstCovers(
    keys: seq<set<string>>, root: seq<nat>, first: map<string, nat>, i: nat, done: set<string>, key: string)
    requires |root| == |keys| && i < |keys| && Covers(keys, root, first, i, done) && key !in first && key in keys[i]
    ensures Covers(keys, root, first[key := i], i, done + {key})
  {
  }

  /** One key of event `i`: link the event to the first one with that key, or be the first. */
  method LinkKey(
    keys: seq<set<string>>, parent: array<nat>, i: nat, key: string, first: map<string, nat>,
    ghost done: set<string>, ghost root: seq<nat>, ghost depth: seq<nat>)
    returns (next: map<string, nat>, ghost root': seq<nat>, ghost depth': seq<nat>)
    requires Forest(parent[..], root, depth) && |root| == |keys| && i < |keys| && key in keys[i]
    requires Sound(keys, root) && Covers(keys, root, first, i, done)
    modifies parent
    ensures Forest(parent[..], root', depth') && |root'| == |keys|
    ensures Sound(keys, root') && Covers(keys, root', next, i, done + {key})
  {
    if key in first {
      assert key in keys[i] * keys[first[key]];
      RelinkSound(keys, root, i, first[key]);
      RelinkCovers(keys, root, first, i, done, key);
      root', depth' := Union(parent, i, first[key], root, depth);
      next := first;
    } else {
      FirstCovers(keys, root, first, i, done, key);
      next, root', depth' := first[key := i], root, depth;
    }
  }

  /** The loops over events and keys. */
  method LinkAll(keys: seq<set<string>>, parent: array<nat>) returns (ghost root: seq<nat>, ghost depth: seq<nat>)
    requires parent.Length == |keys| && forall x :: 0 <= x < |keys| ==> parent[x] == x
    modifies parent
    ensures Forest(parent[..], root, depth) && |root| == |keys|
    ensures forall i, j :: 0 <= i < |keys| && 0 <= j < |keys| ==> (root[i] == root[j] <==> Joined(keys, i, j))
  {
    root, depth := seq(|keys|, x => x), seq(|keys|, x => 0);
    forall x | 0 <= x < |keys| ensures Joined(keys, x, x) { JoinedSelf(keys, x); }
    var first: map<string, nat> := map[];
    for i := 0 to |keys|
      invariant Forest(parent[..], root, depth) && |root| == |keys|
      invariant Sound(keys, root) && Covers(keys, root, first, i, {})
    {
      var todo := keys[i];
      while todo != {}
        invariant todo <= keys[i]
        invariant Forest(parent[..], root, depth) && |root| == |keys|
        invariant Sound(keys, root) && Covers(keys, root, first, i, keys[i] - todo)
        decreases todo
      {
        var key :| key in todo;
        first, root, depth := LinkKey(keys, parent, i, key, first, keys[i] - todo, root, depth);
        assert keys[i] - todo + {key} == keys[i] - (todo - {key});
        todo := todo - {key};
      }
    }
    forall i, j | 0 <= i < |keys| && 0 <= j < |keys| ensures root[i] == root[j] <==> Joined(keys, i, j) {
      RootsAreClusters(keys, root, first, i, j);
    }
  }

  // ---------------------------------------------------------------- the groups

  ghost predicate Ascending(s: seq<nat>) {
    forall a, b :: 0 <= a < b < |s| ==> s[a] < s[b]
  }

  /** Every index below `n` is in exactly one group, and groups are non-empty and ascending. */
  ghost predicate Partition(groups: seq<seq<nat>>, n: nat) {
    && (forall g :: 0 <= g < |groups| ==> groups[g] != [] && Ascending(groups[g]))
    && (forall g, a :: 0 <= g < |groups| && 0 <= a < |groups[g]| ==> groups[g][a] < n)
    && (forall x :: 0 <= x < n ==> Together(groups, x, x))
    && (forall g, h, a, b :: 0 <= g < h < |groups| && 0 <= a < |groups[g]| && 0 <= b < |groups[h]| ==>
          groups[g][a] != groups[h][b])
  }

  ghost predicate Together(groups: seq<seq<nat>>, i: nat, j: nat) {
    exists g :: 0 <= g < |groups| && i in groups[g] && j in groups[g]
  }

  /** The dictionary of groups after the first `n` indices: one ascending list per root, in order of first use. */
  ghost predicate Collected(order: seq<nat>, groups: map<nat, seq<nat>>, root: seq<nat>, n: nat)
    requires n <= |root|
  {
    && (forall a, b :: 0 <= a < b < |order| ==> order[a] != order[b])
    && (forall r :: r in groups <==> r in order)
    && (forall r :: r in groups ==> groups[r] != [] && Ascending(groups[r]))
    && (forall r, a :: r in groups && 0 <= a < |groups[r]| ==> groups[r][a] < n && root[groups[r][a]] == r)
    && (forall x :: 0 <= x < n ==> root[x] in groups && x in groups[root[x]])
  }

  lemma {:induction false} CollectNext(order: seq<nat>, groups: map<nat, seq<nat>>, root: seq<nat>, i: nat)
    requires i < |root| && Collected(order, groups, root, i)
    ensures root[i] in groups ==> Collected(order, groups[root[i] := groups[root[i]] + [i]], root, i + 1)
    ensures root[i] !in groups ==> Collected(order + [root[i]], groups[root[i] := [i]], root, i + 1)
  {
    if root[i] in groups {
      var next := groups[root[i] := groups[root[i]] + [i]];
      assert Ascending(next[root[i]]);
      forall x | 0 <= x < i + 1 ensures root[x] in next && x in next[root[x]] {
        assert i in next[root[i]];
      }
    } else {
      assert forall k :: 0 <= k < |order| ==> order[k] in order;
    }
  }

  /**
    Union-find clustering: the groups are exactly the connected components of "shares a key".
   */
  method Cluster(keys: seq<set<string>>) returns (groups: seq<seq<nat>>)
    ensures Partition(groups, |keys|)
    ensures forall i, j :: 0 <= i < |keys| && 0 <= j < |keys| ==> (Together(groups, i, j) <==> Joined(keys, i, j))
  {
    var parent := new nat[|keys|](i => i);
    ghost var root, depth := LinkAll(keys, parent);
    var order: seq<nat>, byRoot: map<nat, seq<nat>> := [], map[];
    for i := 0 to |keys|
      invariant Forest(parent[..], root, depth) && |root| == |keys|
      invariant Collected(order, byRoot, root, i)
    {
      var r := Find(parent, i, root, depth);
      CollectNext(order, byRoot, root, i);
      if r in byRoot {
        byRoot := byRoot[r := byRoot[r] + [i]];
      } else {
        order, byRoot := order + [r], byRoot[r := [i]];
      }
    }
    groups := seq(|order|, g requires 0 <= g < |order| && order[g] in byRoot => byRoot[order[g]]);
    GroupsFollowRoots(order, byRoot, root, groups);
  }

  lemma {:induction false} GroupsFollowRoots(
    order: seq<nat>, byRoot: map<nat, seq<nat>>, root: seq<nat>, groups: seq<seq<nat>>)
    requires Collected(order, byRoot, root, |root|)
    requires |groups| == |order| && forall g :: 0 <= g < |order| ==> groups[g] == byRoot[order[g]]
    ensures Partition(groups, |root|)
    ensures forall i, j :: 0 <= i < |root| && 0 <= j < |root| ==> (Together(groups, i, j) <==> root[i] == root[j])
  {
    forall g | 0 <= g < |groups| ensures order[g] in byRoot && groups[g] == byRoot[order[g]] {
      assert order[g] in order;
    }
    forall i, j | 0 <= i < |root| && 0 <= j < |root| ensures Together(groups, i, j) <==> root[i] == root[j] {
      if Together(groups, i, j) {
        var g :| 0 <= g < |groups| && i in groups[g] && j in groups[g];
        var a :| 0 <= a < |groups[g]| && groups[g][a] == i;
        var b :| 0 <= b < |groups[g]| && groups[g][b] == j;
      }
      if root[i] == root[j] {
        var g :| 0 <= g < |order| && order[g] == root[i];
        assert i in groups[g] && j in groups[g];
      }
    }
  }

  /** An event without keys is in a group of its own. */
  lemma {:induction false} EmptyKeysStayAlone(keys: seq<set<string>>, groups: seq<seq<nat>>, i: nat, g: nat)
    requires Partition(groups, |keys|)
    requires forall i, j :: 0 <= i < |keys| && 0 <= j < |keys| ==> (Together(groups, i, j) <==> Joined(keys, i, j))
    requires i < |keys| && keys[i] == {} && g < |groups| && i in groups[g]
    ensures groups[g] == [i]
  {
    var group := groups[g];
    forall x | x in group ensures x == i {
      assert Together(groups, i, x);
      var c :| Chain(keys, c) && c[0] == i && c[|c| - 1] == x;
      LonelyChain(keys, c);
    }
    forall k | 0 <= k < |group| ensures group[k] == i {
      assert group[k] in group;
    }
    var last := |group| - 1;
    assert group[0] == group[last] == i;
  }

  lemma {:induction false} LonelyChain(keys: seq<set<string>>, c: seq<nat>)
    requires Chain(keys, c) && keys[c[0]] == {}
    ensures c[|c| - 1] == c[0]
    decreases |c|
  {
    if |c| > 1 {
      assert Overlap(keys, c[0], c[0 + 1]);
      var rest := c[1..];
      forall k | 0 <= k < |rest| - 1 ensures Overlap(keys, rest[k], rest[k + 1]) {
        assert Overlap(keys, c[k + 1], c[k + 1 + 1]);
      }
      LonelyChain(keys, rest);
    }
  }
}
