/** approx_clean_stack of src/approx.c: frames whose zone lies inside the zone
    just added are unlinked from the depth-first stack. */
module WorkStacks {
  import opened Subsumption

  class Frame {
    const work: Work
    var next: Frame?

    constructor (work: Work, next: Frame?)
      ensures this.work == work && this.next == next
    {
      this.work := work;
      this.next := next;
    }
  }

  // The list

  /** Always true: naming a position is what brings its facts into a proof. */
  ghost predicate Looked(k: int) {
    true
  }

  ghost predicate FramesDiffer(nodes: seq<Frame>) {
    forall a, b {:trigger Looked(a), Looked(b)} ::
      Looked(a) && Looked(b) && 0 <= a < b < |nodes| ==> nodes[a] != nodes[b]
  }

  lemma AllDiffer(nodes: seq<Frame>)
    requires FramesDiffer(nodes)
    ensures forall a, b :: 0 <= a < b < |nodes| ==> nodes[a] != nodes[b]
  {
    forall a, b | 0 <= a < b < |nodes|
      ensures nodes[a] != nodes[b]
    {
      assert Looked(a) && Looked(b);
    }
  }

  ghost function Following(nodes: seq<Frame>, a: nat): Frame? {
    if a + 1 < |nodes| then nodes[a + 1] else null
  }

  ghost predicate IsList(head: Frame?, nodes: seq<Frame>)
    reads nodes
  {
    && head == (if nodes == [] then null else nodes[0])
    && forall a {:trigger Following(nodes, a)} :: 0 <= a < |nodes| ==> nodes[a].next == Following(nodes, a)
  }

  /** The frames among the first k that are not gone, in order. */
  ghost function Remaining(nodes: seq<Frame>, gone: seq<bool>, k: nat): seq<Frame>
    requires k <= |nodes| == |gone|
  {
    if k == 0 then [] else Remaining(nodes, gone, k - 1) + if gone[k - 1] then [] else [nodes[k - 1]]
  }

  lemma {:induction false} RemainingAreNodes(nodes: seq<Frame>, gone: seq<bool>, k: nat)
    requires k <= |nodes| == |gone| && FramesDiffer(nodes)
    ensures var rest := Remaining(nodes, gone, k);
      && |rest| <= k && FramesDiffer(rest)
      && forall a :: 0 <= a < |rest| ==> rest[a] in nodes[..k]
  {
    if k > 0 {
      RemainingAreNodes(nodes, gone, k - 1);
      AllDiffer(nodes);
      AllDiffer(Remaining(nodes, gone, k - 1));
      assert nodes[..k] == nodes[..k - 1] + [nodes[k - 1]];
      var rest := Remaining(nodes, gone, k - 1);
      assert forall a :: 0 <= a < |rest| ==> rest[a] != nodes[k - 1];
    }
  }

  /** The chain still linked when idx frames have been looked at. */
  ghost function Chain(nodes: seq<Frame>, gone: seq<bool>, idx: nat): seq<Frame>
    requires idx <= |nodes| == |gone|
  {
    Remaining(nodes, gone, idx) + nodes[idx..]
  }

  lemma ChainKeepsApart(nodes: seq<Frame>, gone: seq<bool>, idx: nat)
    requires idx <= |nodes| == |gone| && FramesDiffer(nodes)
    ensures FramesDiffer(Chain(nodes, gone, idx))
    ensures forall k :: 0 <= k < |Chain(nodes, gone, idx)| ==> Chain(nodes, gone, idx)[k] in nodes
  {
    RemainingAreNodes(nodes, gone, idx);
    var kept, chain := Remaining(nodes, gone, idx), Chain(nodes, gone, idx);
    AllDiffer(nodes);
    AllDiffer(kept);
    forall a, b | 0 <= a < b < |chain|
      ensures chain[a] != chain[b]
    {
      if a < |kept| <= b {
        var c :| 0 <= c < idx && nodes[c] == kept[a];
        assert chain[b] == nodes[idx + b - |kept|];
      } else if |kept| <= a {
        assert chain[a] == nodes[idx + a - |kept|] && chain[b] == nodes[idx + b - |kept|];
      }
    }
    forall k | 0 <= k < |chain|
      ensures chain[k] in nodes
    {
      assert chain[k] == if k < |kept| then kept[k] else nodes[idx + k - |kept|];
    }
  }

  lemma ChainStep(nodes: seq<Frame>, gone: seq<bool>, idx: nat)
    requires idx < |nodes| == |gone|
    ensures var kept, chain := Remaining(nodes, gone, idx), Chain(nodes, gone, idx);
      && |kept| < |chain| && chain[|kept|] == nodes[idx]
      && Following(chain, |kept|) == Following(nodes, idx)
      && (kept != [] ==> chain[|kept| - 1] == kept[|kept| - 1])
      && Chain(nodes, gone, idx + 1) == if gone[idx] then chain[..|kept|] + chain[|kept| + 1..] else chain
  {
  }

  /** Unlinks position a of a list by redirecting its predecessor. */
  method Unlink(
      head: Frame, prev: Frame?, curr: Frame, ghost chain: seq<Frame>, ghost a: nat, ghost nodes: seq<Frame>)
      returns (head': Frame?)
    requires forall k :: 0 <= k < |chain| ==> chain[k] in nodes
    requires FramesDiffer(chain) && IsList(head, chain) && a < |chain| && curr == chain[a]
    requires a > 0 ==> prev == chain[a - 1]
    modifies nodes`next
    ensures IsList(head', chain[..a] + chain[a + 1..])
  {
    AllDiffer(chain);
    assert curr.next == Following(chain, a);
    if curr == head {
      head' := head.next;
    } else {
      prev.next := curr.next;
      head' := head;
    }
    ghost var rest := chain[..a] + chain[a + 1..];
    forall i | 0 <= i < |rest|
      ensures rest[i].next == Following(rest, i)
    {
      var k := if i < a then i else i + 1;
      assert rest[i] == chain[k] && old(chain[k].next) == Following(chain, k);
      assert i + 1 < |rest| ==> rest[i + 1] == if i + 1 < a then chain[i + 1] else chain[i + 2];
    }
  }

  /** The pointers prev and curr stand at position a of the chain. */
  ghost predicate At(chain: seq<Frame>, a: nat, prev: Frame?, curr: Frame?) {
    && curr == (if a < |chain| then chain[a] else null)
    && (0 < a <= |chain| ==> prev == chain[a - 1])
  }

  /** The list that the test on position a leaves, and where the pointers are. */
  ghost predicate Advanced(
      chain: seq<Frame>, a: nat, superset: bool, chain': seq<Frame>, a': nat, prev': Frame?, curr': Frame?)
  {
    && a < |chain|
    && chain' == (if superset then chain[..a] + chain[a + 1..] else chain)
    && a' == (if superset then a else a + 1)
    && At(chain', a', prev', curr')
  }

  /** What happens to the pointers after the test on one frame. */
  method Advance(
      head: Frame, prev: Frame?, curr: Frame, superset: bool, ghost chain: seq<Frame>, ghost a: nat,
      ghost nodes: seq<Frame>)
      returns (head': Frame?, prev': Frame?, curr': Frame?, ghost chain': seq<Frame>, ghost a': nat)
    requires forall k :: 0 <= k < |chain| ==> chain[k] in nodes
    requires FramesDiffer(chain) && IsList(head, chain) && a < |chain| && At(chain, a, prev, curr)
    modifies nodes`next
    ensures Advanced(chain, a, superset, chain', a', prev', curr') && IsList(head', chain')
  {
    assert curr.next == Following(chain, a);
    assert curr == head <==> a == 0 by { AllDiffer(chain); }
    if superset {
      curr' := curr.next;
      head' := Unlink(head, prev, curr, chain, a, nodes);
      prev' := if curr == head then head' else prev;
      chain', a' := chain[..a] + chain[a + 1..], a;
    } else {
      head', prev', curr' := head, curr, curr.next;
      chain', a' := chain, a + 1;
    }
  }

  // The sweep over the stack

  ghost predicate AllValid(nodes: seq<Frame>) {
    forall a {:trigger Looked(a)} :: 0 <= a < |nodes| && Looked(a) ==> nodes[a].work.Valid()
  }

  /** The frames from skip on that are subsumed. */
  ghost predicate AreSubsumed(nodes: seq<Frame>, cur: Work, skip: nat, gone: seq<bool>)
    requires AllValid(nodes) && cur.Valid()
  {
    && |gone| == |nodes|
    && forall k {:trigger Looked(k)} :: 0 <= k < |nodes| && Looked(k) ==>
         (gone[k] <==> k >= skip && Subsumed(nodes[k].work, cur))
  }

  /** nodes lists the stack from its top and gone says which frames have to go:
      a frame just pushed stays, of the others exactly the subsumed ones go. */
  method CleanStack(
      workstack: Frame?, cur: Work, pushed: bool, stackDepth: nat, ghost nodes: seq<Frame>, ghost gone: seq<bool>)
      returns (head: Frame?, removed: nat)
    requires cur.Valid() && AllValid(nodes) && FramesDiffer(nodes) && IsList(workstack, nodes)
    requires stackDepth == |nodes| && AreSubsumed(nodes, cur, if pushed then 1 else 0, gone)
    modifies nodes`next
    ensures IsList(head, Remaining(nodes, gone, |nodes|))
    ensures removed == |nodes| - |Remaining(nodes, gone, |nodes|)|
    ensures forall k :: 0 <= k < |nodes| ==>
      (nodes[k] in Remaining(nodes, gone, |nodes|) <==> (pushed && k == 0) || !IsInside(nodes[k].work, cur))
  {
    WhichRemain(nodes, cur, if pushed then 1 else 0, gone);
    head, removed := workstack, 0;
    if workstack == null {
      assert nodes == [] && Remaining(nodes, gone, 0) == [];
      return;
    }
    ghost var skip := if pushed then 1 else 0;
    var prev, curr: Frame? := workstack, workstack;
    if pushed && stackDepth > 1 {
      curr := workstack.next;
      assert curr == Following(nodes, 0);
    }
    assert Looked(0);
    TopStays(nodes, gone, skip);
    if pushed && stackDepth == 1 {
      assert Remaining(nodes, gone, |nodes|) == nodes;
      return;
    }
    var rounds := if pushed then stackDepth - 1 else stackDepth;
    head, removed := Scan(workstack, prev, curr, cur, rounds, nodes, gone, skip);
  }

  /** Of the frames from skip on, those that are not subsumed. */
  lemma WhichRemain(nodes: seq<Frame>, cur: Work, skip: nat, gone: seq<bool>)
    requires cur.Valid() && AllValid(nodes) && FramesDiffer(nodes) && AreSubsumed(nodes, cur, skip, gone)
    ensures forall k :: 0 <= k < |nodes| ==>
      (nodes[k] in Remaining(nodes, gone, |nodes|) <==> k < skip || !IsInside(nodes[k].work, cur))
  {
    AllDiffer(nodes);
    forall k | 0 <= k < |nodes|
      ensures nodes[k] in Remaining(nodes, gone, |nodes|) <==> k < skip || !IsInside(nodes[k].work, cur)
    {
      assert Looked(k);
      RemainsUnlessGone(nodes, gone, |nodes|, k);
    }
  }

  lemma {:induction false} RemainsUnlessGone(nodes: seq<Frame>, gone: seq<bool>, n: nat, k: nat)
    requires n <= |nodes| == |gone| && k < |nodes|
    requires forall a, b :: 0 <= a < b < |nodes| ==> nodes[a] != nodes[b]
    ensures nodes[k] in Remaining(nodes, gone, n) <==> k < n && !gone[k]
  {
    if n > 0 {
      RemainsUnlessGone(nodes, gone, n - 1, k);
    }
  }

  lemma TopStays(nodes: seq<Frame>, gone: seq<bool>, skip: nat)
    requires |gone| == |nodes| > 0 && skip <= 1 && (skip == 1 ==> !gone[0])
    ensures Chain(nodes, gone, skip) == nodes
    ensures Remaining(nodes, gone, skip) == nodes[..skip]
  {
    if skip == 1 {
      assert Remaining(nodes, gone, 1) == Remaining(nodes, gone, 0) + [nodes[0]];
    }
  }

  method LookAt(
      curr: Frame, cur: Work, matching: array<nat>, ghost nodes: seq<Frame>, ghost gone: seq<bool>, ghost skip: nat,
      ghost idx: nat)
      returns (superset: bool)
    requires cur.Valid() && AllValid(nodes) && AreSubsumed(nodes, cur, skip, gone)
    requires skip <= idx < |nodes| && curr == nodes[idx]
    requires matching.Length == cur.numClocks + 1 && matching[0] == 0
    modifies matching
    ensures matching[0] == 0 && superset == gone[idx]
  {
    assert Looked(idx);
    superset := IsSuperset(curr.work, cur, matching);
  }

  /** The chain and the position in it when idx frames have been looked at. */
  ghost predicate Reached(nodes: seq<Frame>, gone: seq<bool>, idx: nat, chain: seq<Frame>, a: nat)
    requires idx <= |nodes| == |gone|
  {
    chain == Chain(nodes, gone, idx) && a == |Remaining(nodes, gone, idx)|
  }

  lemma ReachedNext(
      nodes: seq<Frame>, gone: seq<bool>, idx: nat, chain: seq<Frame>, a: nat, chain': seq<Frame>, a': nat,
      prev': Frame?, curr': Frame?)
    requires idx < |nodes| == |gone| && Reached(nodes, gone, idx, chain, a)
    requires Advanced(chain, a, gone[idx], chain', a', prev', curr')
    ensures Reached(nodes, gone, idx + 1, chain', a')
  {
    ChainStep(nodes, gone, idx);
  }

  /** The pointer part of one round. */
  method Relink(
      head: Frame?, prev: Frame?, curr: Frame?, superset: bool, ghost nodes: seq<Frame>, ghost gone: seq<bool>,
      ghost idx: nat, ghost chain: seq<Frame>, ghost a: nat)
      returns (head': Frame?, prev': Frame?, curr': Frame?, ghost chain': seq<Frame>, ghost a': nat)
    requires idx < |nodes| == |gone| && superset == gone[idx] && FramesDiffer(nodes)
    requires Reached(nodes, gone, idx, chain, a) && IsList(head, chain) && At(chain, a, prev, curr)
    modifies nodes`next
    ensures Reached(nodes, gone, idx + 1, chain', a') && IsList(head', chain') && At(chain', a', prev', curr')
    ensures a' == if superset then a else a + 1
  {
    ChainKeepsApart(nodes, gone, idx);
    ChainStep(nodes, gone, idx);
    head', prev', curr', chain', a' := Advance(head, prev, curr, superset, chain, a, nodes);
    ReachedNext(nodes, gone, idx, chain, a, chain', a', prev', curr');
  }

  lemma CurrentFrame(
      nodes: seq<Frame>, gone: seq<bool>, idx: nat, chain: seq<Frame>, a: nat, prev: Frame?, curr: Frame?)
    requires idx < |nodes| == |gone| && Reached(nodes, gone, idx, chain, a) && At(chain, a, prev, curr)
    ensures curr == nodes[idx]
  {
  }

  /** idx frames have been looked at: the list holds those of them that stay and
      all later ones, and the pointers stand at the next. */
  ghost predicate Scanning(
      nodes: seq<Frame>, gone: seq<bool>, idx: nat, chain: seq<Frame>, a: nat,
      head: Frame?, prev: Frame?, curr: Frame?, removed: nat)
    requires idx <= |nodes| == |gone|
    reads chain
  {
    Reached(nodes, gone, idx, chain, a) && IsList(head, chain) && At(chain, a, prev, curr) && removed + a == idx
  }

  lemma AllScanned(
      nodes: seq<Frame>, gone: seq<bool>, chain: seq<Frame>, a: nat,
      head: Frame?, prev: Frame?, curr: Frame?, removed: nat)
    requires |nodes| == |gone| && Scanning(nodes, gone, |nodes|, chain, a, head, prev, curr, removed)
    ensures IsList(head, Remaining(nodes, gone, |nodes|))
    ensures removed == |nodes| - |Remaining(nodes, gone, |nodes|)|
  {
    assert chain == Remaining(nodes, gone, |nodes|);
  }

  /** What stays the same during the scan. */
  ghost predicate IsTask(nodes: seq<Frame>, cur: Work, skip: nat, gone: seq<bool>) {
    cur.Valid() && AllValid(nodes) && FramesDiffer(nodes) && AreSubsumed(nodes, cur, skip, gone)
  }

  /** One round of the loop over the frames. */
  method Visit(
      head: Frame?, prev: Frame?, curr: Frame?, cur: Work, removed: nat, matching: array<nat>,
      ghost nodes: seq<Frame>, ghost gone: seq<bool>, ghost skip: nat, ghost idx: nat,
      ghost chain: seq<Frame>, ghost a: nat)
      returns (head': Frame?, prev': Frame?, curr': Frame?, removed': nat, ghost chain': seq<Frame>, ghost a': nat)
    requires IsTask(nodes, cur, skip, gone)
    requires matching.Length == cur.numClocks + 1 && matching[0] == 0 && skip <= idx < |nodes|
    requires Scanning(nodes, gone, idx, chain, a, head, prev, curr, removed)
    modifies matching, nodes`next
    ensures matching[0] == 0 && Scanning(nodes, gone, idx + 1, chain', a', head', prev', curr', removed')
  {
    CurrentFrame(nodes, gone, idx, chain, a, prev, curr);
    var superset := LookAt(curr, cur, matching, nodes, gone, skip, idx);
    head', prev', curr', chain', a' := Relink(head, prev, curr, superset, nodes, gone, idx, chain, a);
    removed' := if superset then removed + 1 else removed;
  }

  /** The loop over the frames. */
  method Scan(
      workstack: Frame?, prev0: Frame?, curr0: Frame?, cur: Work, rounds: nat, ghost nodes: seq<Frame>,
      ghost gone: seq<bool>, ghost skip: nat)
      returns (head: Frame?, removed: nat)
    requires cur.Valid() && AllValid(nodes) && FramesDiffer(nodes) && skip + rounds == |nodes|
    requires AreSubsumed(nodes, cur, skip, gone)
    requires Scanning(nodes, gone, skip, nodes, skip, workstack, prev0, curr0, 0)
    modifies nodes`next
    ensures IsList(head, Remaining(nodes, gone, |nodes|))
    ensures removed == |nodes| - |Remaining(nodes, gone, |nodes|)|
  {
    var matching := new nat[cur.numClocks + 1](_ => 0);
    var prev, curr;
    ghost var chain, a;
    head, prev, curr, removed, chain, a :=
      ScanRounds(workstack, prev0, curr0, cur, rounds, matching, nodes, gone, skip);
    AllScanned(nodes, gone, chain, a, head, prev, curr, removed);
  }

  method ScanRounds(
      workstack: Frame?, prev0: Frame?, curr0: Frame?, cur: Work, rounds: nat, matching: array<nat>,
      ghost nodes: seq<Frame>, ghost gone: seq<bool>, ghost skip: nat)
      returns (head: Frame?, prev: Frame?, curr: Frame?, removed: nat, ghost chain: seq<Frame>, ghost a: nat)
    requires IsTask(nodes, cur, skip, gone) && skip + rounds == |nodes|
    requires matching.Length == cur.numClocks + 1 && matching[0] == 0
    requires Scanning(nodes, gone, skip, nodes, skip, workstack, prev0, curr0, 0)
    modifies matching, nodes`next
    ensures Scanning(nodes, gone, |nodes|, chain, a, head, prev, curr, removed)
  {
    head, prev, curr, removed := workstack, prev0, curr0, 0;
    chain, a := nodes, skip;
    ghost var idx := skip;
    for x := 0 to rounds
      invariant idx == skip + x <= |nodes| && matching[0] == 0
      invariant InScan(nodes, gone, idx, chain, a, head, prev, curr, removed)
    {
      ghost var next := idx + 1;
      head, prev, curr, removed, chain, a :=
        Visit(head, prev, curr, cur, removed, matching, nodes, gone, skip, idx, chain, a);
      Rescan(nodes, gone, next, chain, a, head, prev, curr, removed);
      idx := next;
    }
  }

  /** Where the loop stands, as one fact. */
  ghost predicate InScan(
      nodes: seq<Frame>, gone: seq<bool>, idx: nat, chain: seq<Frame>, a: nat,
      head: Frame?, prev: Frame?, curr: Frame?, removed: nat)
    reads chain
  {
    idx <= |nodes| == |gone| && Scanning(nodes, gone, idx, chain, a, head, prev, curr, removed)
  }

  lemma Rescan(
      nodes: seq<Frame>, gone: seq<bool>, idx: nat, chain: seq<Frame>, a: nat,
      head: Frame?, prev: Frame?, curr: Frame?, removed: nat)
    requires idx <= |nodes| == |gone| && Scanning(nodes, gone, idx, chain, a, head, prev, curr, removed)
    ensures InScan(nodes, gone, idx, chain, a, head, prev, curr, removed)
  {
  }
}
