/** The cache of parent nodes behind cached key derivation (crypto/bip32.c). */
module DerivationCache {

  datatype Option<T> = None | Some(value: T)

  const CACHE_SIZE: nat := 10
  const MAX_DEPTH: nat := 8

  /**
   * What derivation does to a node, left open: a child with a success flag (a failing derivation may leave the
   * node changed too), a fingerprint (which fills in the public key), and the curve of a node.
   */
  datatype Keys<!Node> = Keys(child: (Node, int) -> (Node, bool), fingerprint: Node -> (int, Node), curve: Node -> int)

  /** What a derivation leaves behind: the node, the fingerprint if it was written, and the success flag. */
  datatype Outcome<Node> = Outcome(node: Node, fingerprint: Option<int>, ok: bool)

  /** Child after child along a path, up to the first failure. */
  function Walk<Node>(keys: Keys<Node>, node: Node, path: seq<int>): (Node, bool)
  {
    if path == [] then (node, true)
    else
      var parent := Walk(keys, node, path[..|path| - 1]);
      if parent.1 then keys.child(parent.0, path[|path| - 1]) else parent
  }

  /** Derivation without a cache: the path without its last step, the fingerprint there, then the last step. */
  function Uncached<Node>(keys: Keys<Node>, node: Node, path: seq<int>, wanted: bool): Outcome<Node>
  {
    if path == [] then Outcome(node, None, true)
    else
      var parent := Walk(keys, node, path[..|path| - 1]);
      if parent.1 then LastStep(keys, parent.0, path[|path| - 1], wanted) else Outcome(parent.0, None, false)
  }

  function LastStep<Node>(keys: Keys<Node>, parent: Node, i: int, wanted: bool): Outcome<Node>
  {
    if wanted then
      var f := keys.fingerprint(parent);
      var c := keys.child(f.1, i);
      Outcome(c.0, Some(f.0), c.1)
    else
      var c := keys.child(parent, i);
      Outcome(c.0, None, c.1)
  }

  /** Without a fingerprint, derivation is child after child along the whole path. */
  lemma UnwantedIsWalk<Node>(keys: Keys<Node>, node: Node, path: seq<int>)
    ensures Uncached(keys, node, path, false) == Outcome(Walk(keys, node, path).0, None, Walk(keys, node, path).1)
  {
  }

  /** A fingerprint is that of the parent, and the last child is derived from the node it leaves behind. */
  lemma WantedIsOfParent<Node>(keys: Keys<Node>, node: Node, path: seq<int>)
    requires path != []
    ensures var parent, result := Walk(keys, node, path[..|path| - 1]), Uncached(keys, node, path, true);
            if parent.1 then
              && result.fingerprint == Some(keys.fingerprint(parent.0).0)
              && (result.node, result.ok) == keys.child(keys.fingerprint(parent.0).1, path[|path| - 1])
            else result == Outcome(parent.0, None, false)
  {
  }

  /** The nodes along a path that derives without failure. */
  lemma {:induction false} WalkIsChain<Node>(keys: Keys<Node>, node: Node, path: seq<int>) returns (nodes: seq<Node>)
    requires Walk(keys, node, path).1
    ensures |nodes| == |path| + 1 && nodes[0] == node && nodes[|path|] == Walk(keys, node, path).0
    ensures forall k :: 0 <= k < |path| ==> keys.child(nodes[k], path[k]) == (nodes[k + 1], true)
    decreases |path|
  {
    if path == [] {
      nodes := [node];
    } else {
      nodes := WalkIsChain(keys, node, path[..|path| - 1]);
      nodes := nodes + [Walk(keys, node, path).0];
    }
  }

  /** Once a step has failed, nothing further along the path happens. */
  lemma {:induction false} WalkStops<Node>(keys: Keys<Node>, node: Node, path: seq<int>, k: nat)
    requires k <= |path| && !Walk(keys, node, path[..k]).1
    ensures Walk(keys, node, path) == Walk(keys, node, path[..k])
    decreases |path|
  {
    if k == |path| {
      assert path[..k] == path;
    } else {
      var prefix := path[..|path| - 1];
      assert prefix[..k] == path[..k];
      WalkStops(keys, node, prefix, k);
    }
  }

  /** One more step of a path that has not failed. */
  lemma WalkStep<Node>(keys: Keys<Node>, node: Node, path: seq<int>, k: nat)
    requires k < |path| && Walk(keys, node, path[..k]).1
    ensures Walk(keys, node, path[..k + 1]) == keys.child(Walk(keys, node, path[..k]).0, path[k])
  {
    assert path[..k + 1][..k] == path[..k];
  }

  datatype Entry<Node> = Unset | Set(depth: nat, i: seq<int>, node: Node)

  /** What a used entry holds: the node reached from the root along its path. */
  ghost predicate Sound<Node>(keys: Keys<Node>, root: Node, e: Entry<Node>)
  {
    e.Set? ==> e.depth <= |e.i| == MAX_DEPTH && Walk(keys, root, e.i[..e.depth]) == (e.node, true)
  }

  predicate Remembers<Node(==)>(e: Entry<Node>, path: seq<int>, node: Node)
  {
    e.Set? && e.depth == |path| <= |e.i| && e.i[..|path|] == path && e.node == node
  }

  /** The static variables of the cache, and the operations on them. */
  class Cache<Node(==)> {
    const keys: Keys<Node>
    var rootSet: bool
    var root: Option<Node>
    var index: nat
    const entries: array<Entry<Node>>

    ghost predicate Valid()
      reads this, entries
    {
      && entries.Length == CACHE_SIZE && index < CACHE_SIZE
      && (rootSet ==> root.Some? && forall j :: 0 <= j < CACHE_SIZE ==> Sound(keys, root.value, entries[j]))
    }

    constructor (keys: Keys<Node>)
      ensures Valid() && fresh(entries) && this.keys == keys && !rootSet
    {
      this.keys := keys;
      rootSet, root, index := false, None, 0;
      entries := new Entry<Node>[CACHE_SIZE](j => Unset);
    }

    /** Forgets the root and every entry (bip32_cache_clear). */
    method Clear()
      requires Valid()
      modifies this, entries
      ensures Valid() && !rootSet && index == 0 && forall j :: 0 <= j < CACHE_SIZE ==> entries[j] == Unset
    {
      rootSet, root, index := false, None, 0;
      Wipe();
    }

    method Wipe()
      requires entries.Length == CACHE_SIZE
      modifies entries
      ensures forall j :: 0 <= j < CACHE_SIZE ==> entries[j] == Unset
    {
      for j := 0 to CACHE_SIZE
        invariant forall m :: 0 <= m < j ==> entries[m] == Unset
      {
        entries[j] := Unset;
      }
    }

    /** Looks for the parent of a path below the root. */
    method Find(inout: Node, path: seq<int>) returns (found: bool, parent: Node)
      requires Valid() && rootSet && root == Some(inout) && path != []
      ensures if found then Walk(keys, inout, path[..|path| - 1]) == (parent, true) else parent == inout
    {
      var n := |path| - 1;
      for j := 0 to CACHE_SIZE {
        var e := entries[j];
        if e.Set? && e.depth == n && n <= |e.i| && e.i[..n] == path[..n] && keys.curve(e.node) == keys.curve(inout) {
          assert Sound(keys, inout, e);
          return true, e.node;
        }
      }
      return false, inout;
    }

    /** Derives the parent of a path step by step, and remembers it when every step succeeds. */
    method DeriveParent(inout: Node, path: seq<int>) returns (ok: bool, parent: Node)
      requires Valid() && rootSet && root == Some(inout) && path != [] && |path| - 1 <= MAX_DEPTH
      modifies this`index, entries
      ensures Valid() && (parent, ok) == Walk(keys, inout, path[..|path| - 1])
      ensures ok ==> index == (old(index) + 1) % 10
                     && Remembers(entries[old(index)], path[..|path| - 1], parent)
      ensures !ok ==> index == old(index)
      ensures forall j :: 0 <= j < CACHE_SIZE && (ok ==> j != old(index)) ==> entries[j] == old(entries[j])
    {
      var n, k := |path| - 1, 0;
      parent := inout;
      assert path[..0] == [];
      while k < n
        invariant Valid() && unchanged(this) && unchanged(entries) && k <= n
          && Walk(keys, inout, path[..k]) == (parent, true)
      {
        var c := keys.child(parent, path[k]);
        WalkStep(keys, inout, path, k);
        if !c.1 {
          assert path[..n][..k + 1] == path[..k + 1];
          WalkStops(keys, inout, path[..n], k + 1);
          return false, c.0;
        }
        parent, k := c.0, k + 1;
      }
      var padded := path[..n] + seq(MAX_DEPTH - n, j => 0);
      assert padded[..n] == path[..n];
      entries[index] := Set(n, padded, parent);
      index := (index + 1) % CACHE_SIZE;
      ok := true;
    }

    /**
     * Cached derivation (hdnode_private_ckd_cached) gives the node, the fingerprint and the flag that derivation
     * without a cache gives, whatever was derived before, and keeps every entry sound.
     */
    method Derive(inout: Node, path: seq<int>, wanted: bool) returns (result: Outcome<Node>)
      requires Valid() && |path| <= 9
      modifies this, entries
      ensures Valid() && result == Uncached(keys, inout, path, wanted)
      ensures |path| >= 2 ==> rootSet && root == Some(inout)
    {
      if |path| == 0 {
        return Outcome(inout, None, true);
      }
      if |path| == 1 {
        assert path[..0] == [];
        result := Finish(inout, path[0], wanted);
        return;
      }
      var found, parent := false, inout;
      if !rootSet || root != Some(inout) {
        index := 0;
        Wipe();
        root, rootSet := Some(inout), true;
      } else {
        found, parent := Find(inout, path);
      }
      if !found {
        var ok;
        ok, parent := DeriveParent(inout, path);
        if !ok {
          return Outcome(parent, None, false);
        }
      }
      result := Finish(parent, path[|path| - 1], wanted);
    }

    /** The fingerprint of the parent, if asked for, and the last step. */
    method Finish(parent: Node, i: int, wanted: bool) returns (result: Outcome<Node>)
      ensures result == LastStep(keys, parent, i, wanted)
    {
      var node, fingerprint := parent, None;
      if wanted {
        var f := keys.fingerprint(node);
        node, fingerprint := f.1, Some(f.0);
      }
      var c := keys.child(node, i);
      result := Outcome(c.0, fingerprint, c.1);
    }
  }

  /** A use of the cache: forgetting everything, or a derivation. */
  datatype Request<Node> = Forget | Ask(node: Node, path: seq<int>, wanted: bool)

  predicate Allowed<Node>(r: Request<Node>) { r.Ask? ==> |r.path| <= 9 }

  /** What a request is answered without a cache. */
  function Answer<Node>(keys: Keys<Node>, r: Request<Node>): Option<Outcome<Node>>
  {
    if r.Ask? then Some(Uncached(keys, r.node, r.path, r.wanted)) else None
  }

  /** Over any sequence of derivations and clears, every answer is the one given without a cache. */
  method AnyRun<Node(==)>(keys: Keys<Node>, requests: seq<Request<Node>>) returns (answers: seq<Option<Outcome<Node>>>)
    requires forall k :: 0 <= k < |requests| ==> Allowed(requests[k])
    ensures |answers| == |requests| && forall k :: 0 <= k < |requests| ==> answers[k] == Answer(keys, requests[k])
  {
    var cache := new Cache<Node>(keys);
    answers := [];
    for k := 0 to |requests|
      invariant cache.Valid() && cache.keys == keys && fresh(cache) && fresh(cache.entries)
      invariant |answers| == k && forall m :: 0 <= m < k ==> answers[m] == Answer(keys, requests[m])
    {
      if requests[k].Ask? {
        var result := cache.Derive(requests[k].node, requests[k].path, requests[k].wanted);
        answers := answers + [Some(result)];
      } else {
        cache.Clear();
        answers := answers + [None];
      }
    }
  }
}
