/**
 * The `SkipList` template of src/db/skiplist.h, with the concurrency taken out.
 *
 * Nodes live in a pool `seq<Node>` addressed by index; index 0 is the head
 * sentinel and -1 is the null link. A node's height is the length of its
 * forward-link sequence, so "a node on level k is on every level below k" holds
 * by construction. Keys are `int` ordered numerically; `Compare` plays the
 * comparator. The random source is an infinite stream `rnd: nat -> nat`; the
 * state remembers how many draws have been taken from it.
 *
 * The acquire/release accessors `Next`/`SetNext` and the relaxed
 * `NoBarrier_Next`/`NoBarrier_SetNext` are the same plain read and write here.
 */
module SkipList {

  /** kMaxHeight: the head's height and the bound on every node's height. */
  const MaxHeight: int := 20
  /** kBranching: a level is added when a draw is a multiple of this. */
  const Branching: int := 4
  /** The null link. */
  const Null: int := -1
  /** Pool index of the head sentinel. */
  const Head: int := 0
  /** A link whose memory was never written (only the constructor as written produces one). */
  const Unset: int := -2

  /** A node: its key and one forward link per level it is on. */
  datatype Node = Node(key: int, nexts: seq<int>)

  /**
   * The list: the node pool (head first), `cur_height_`, and the number of
   * draws taken so far from the random source.
   */
  datatype State = State(nodes: seq<Node>, curHeight: int, draws: nat)

  /** The comparator: a three-way comparison consistent with `<` on keys. */
  function Compare(a: int, b: int): (r: int)
    ensures r < 0 <==> a < b
    ensures r == 0 <==> a == b
    ensures r > 0 <==> a > b
  {
    if a < b then -1 else if a == b then 0 else 1
  }

  /** `Equal`: the comparator reports the keys as the same. */
  function Equal(a: int, b: int): (r: bool)
    ensures r <==> a == b
  {
    Compare(a, b) == 0
  }

  // ---------------------------------------------------------------------------
  // The invariant

  /** Node `k` is a real node (not the head) and is on level `l`. */
  ghost predicate OnLevel(s: State, k: int, l: int) {
    1 <= k < |s.nodes| && 0 <= l < |s.nodes[k].nexts|
  }

  /** Node `k` comes after node `i` in key order; the head precedes every node. */
  ghost predicate Precedes(s: State, i: int, k: int) {
    0 <= i < |s.nodes| && 1 <= k < |s.nodes| && (i == Head || s.nodes[i].key < s.nodes[k].key)
  }

  /**
   * `j` is the right link for node `i` at level `l`: the level-`l` node with
   * the smallest key after `i`, or null when there is none.
   */
  ghost predicate IsSucc(s: State, i: int, l: int, j: int) {
    if j == Null then
      forall k :: OnLevel(s, k, l) ==> !Precedes(s, i, k)
    else
      && OnLevel(s, j, l) && Precedes(s, i, j)
      && forall k :: OnLevel(s, k, l) && Precedes(s, i, k) ==> s.nodes[j].key <= s.nodes[k].key
  }

  /**
   * The list's invariant. The head has `MaxHeight` levels, `cur_height_` is in
   * [1, MaxHeight] and bounds every node's height, keys are unique, and every
   * link of every node is its successor at that level. The last clause makes
   * each level a strictly increasing chain from the head holding exactly the
   * nodes of that height, and makes every head link above `cur_height_` null.
   */
  ghost predicate Valid(s: State) {
    && |s.nodes| >= 1 && |s.nodes[Head].nexts| == MaxHeight
    && 1 <= s.curHeight <= MaxHeight
    && (forall k :: 1 <= k < |s.nodes| ==> 1 <= |s.nodes[k].nexts| <= s.curHeight)
    && (forall j, k :: 1 <= j < k < |s.nodes| ==> s.nodes[j].key != s.nodes[k].key)
    && (forall i, l :: 0 <= i < |s.nodes| && 0 <= l < |s.nodes[i].nexts| ==> IsSucc(s, i, l, s.nodes[i].nexts[l]))
  }

  /** The keys in the list. */
  ghost function Keys(s: State): set<int> {
    set k | 1 <= k < |s.nodes| :: s.nodes[k].key
  }

  /** The keys of the nodes on level `l`. */
  ghost function LevelSet(s: State, l: int): set<int> {
    set k | 1 <= k < |s.nodes| && OnLevel(s, k, l) :: s.nodes[k].key
  }

  /** The nodes after node `i`: the measure every forward walk decreases. */
  ghost function Beyond(s: State, i: int): set<int> {
    set k | 1 <= k < |s.nodes| && Precedes(s, i, k)
  }

  /**
   * `p` is the last node on level `l` whose key is below `key`, or the head
   * when there is none: the predecessor an insertion of `key` splices after.
   */
  ghost predicate LastBefore(s: State, p: int, l: int, key: int) {
    && 0 <= p < |s.nodes| && 0 <= l < |s.nodes[p].nexts|
    && (p == Head || s.nodes[p].key < key)
    && forall k :: OnLevel(s, k, l) && s.nodes[k].key < key ==> !Precedes(s, p, k)
  }

  lemma BeyondShrinks(s: State, i: int, j: int)
    requires Precedes(s, i, j)
    ensures Beyond(s, j) < Beyond(s, i)
  {
    assert j in Beyond(s, i) && j !in Beyond(s, j);
  }

  lemma KeyNotIn(s: State, key: int, k: int)
    requires key !in Keys(s) && 1 <= k < |s.nodes|
    ensures s.nodes[k].key != key
  {
    assert s.nodes[k].key in Keys(s);
  }

  // ---------------------------------------------------------------------------
  // Construction

  /**
   * The constructor with every head link null. `Insert` reads the head links
   * of levels it brings into use (skiplist.h:61-69) and relies on them being
   * null there. ASSUMPTION: the constructor as written nulls only the head
   * links below `cur_height_` (level 0) and leaves levels 1..19 as whatever the
   * arena's memory held; this model takes them to be null (see `CreateAsWritten`).
   */
  function Create(): (s: State)
    ensures Valid(s) && Keys(s) == {} && s.curHeight == 1
    ensures forall l :: 0 <= l < MaxHeight ==> s.nodes[Head].nexts[l] == Null
  {
    State([Node(0, seq(MaxHeight, _ => Null))], 1, 0)
  }

  /** The constructor as written: only head level 0 is given a value. */
  function CreateAsWritten(): (s: State)
    ensures |s.nodes| == 1 && |s.nodes[Head].nexts| == MaxHeight && s.curHeight == 1
    ensures s.nodes[Head].nexts[0] == Null
    ensures forall l :: 1 <= l < MaxHeight ==> s.nodes[Head].nexts[l] == Unset
  {
    State([Node(0, [Null] + seq(MaxHeight - 1, _ => Unset))], 1, 0)
  }

  /**
   * As written, the fresh list's head holds an unwritten link at level 1, which
   * the first `Insert` drawing a height of 2 or more copies into its new node:
   * the fresh list does not satisfy the invariant `Create` establishes.
   */
  lemma CreateAsWrittenLeavesHeadLinksUnset()
    ensures CreateAsWritten().nodes[Head].nexts[1] == Unset
    ensures !Valid(CreateAsWritten())
  {
    var s := CreateAsWritten();
    assert !IsSucc(s, Head, 1, s.nodes[Head].nexts[1]);
  }

  // ---------------------------------------------------------------------------
  // Node accessors

  /** `Node::Next` (and `NoBarrier_Next`): reading a link yields the successor. */
  function Next(s: State, n: int, level: int): (r: int)
    requires 0 <= n < |s.nodes| && 0 <= level < |s.nodes[n].nexts|
    ensures Valid(s) ==> IsSucc(s, n, level, r)
    ensures Valid(s) ==> r == Null || OnLevel(s, r, level)
  {
    s.nodes[n].nexts[level]
  }

  /** `Node::SetNext` (and `NoBarrier_SetNext`): overwrites one link and nothing else. */
  function SetNext(s: State, n: int, level: int, x: int): (r: State)
    requires 0 <= n < |s.nodes| && 0 <= level < |s.nodes[n].nexts|
    ensures |r.nodes| == |s.nodes| && r.curHeight == s.curHeight && r.draws == s.draws
    ensures forall i :: 0 <= i < |s.nodes| ==>
              r.nodes[i].key == s.nodes[i].key && |r.nodes[i].nexts| == |s.nodes[i].nexts|
    ensures forall i, l :: 0 <= i < |s.nodes| && 0 <= l < |s.nodes[i].nexts| ==>
              r.nodes[i].nexts[l] == if i == n && l == level then x else s.nodes[i].nexts[l]
  {
    s.(nodes := s.nodes[n := s.nodes[n].(nexts := s.nodes[n].nexts[level := x])])
  }

  /**
   * `NewNode`: a node holding `key` with room for `height` links, appended to
   * the pool. Its links are placeholders that `Insert` overwrites one by one.
   */
  function NewNode(s: State, key: int, height: int): (r: (State, int))
    requires 1 <= height <= MaxHeight
    ensures r.1 == |s.nodes| && |r.0.nodes| == |s.nodes| + 1
    ensures r.0.nodes[r.1].key == key && |r.0.nodes[r.1].nexts| == height
    ensures forall i :: 0 <= i < |s.nodes| ==> r.0.nodes[i] == s.nodes[i]
    ensures r.0.curHeight == s.curHeight && r.0.draws == s.draws
  {
    (s.(nodes := s.nodes + [Node(key, seq(height, _ => Null))]), |s.nodes|)
  }

  // ---------------------------------------------------------------------------
  // Search

  /**
   * `KeyIsAfterNode` as written: `Compare(key, n->key) < 0`, which holds when
   * `key` is BELOW the node's key, the opposite of what the name, the search
   * that uses it and `FindLessThan` expect.
   */
  function KeyIsAfterNodeAsWritten(s: State, key: int, n: int): (r: bool)
    requires n == Null || 0 <= n < |s.nodes|
    ensures r <==> n != Null && key < s.nodes[n].key
  {
    n != Null && Compare(key, s.nodes[n].key) < 0
  }

  /** `KeyIsAfterNode` corrected: the node exists and its key is below `key`. */
  function KeyIsAfterNode(s: State, key: int, n: int): (r: bool)
    requires n == Null || 0 <= n < |s.nodes|
    ensures r <==> n != Null && s.nodes[n].key < key
  {
    n != Null && Compare(s.nodes[n].key, key) < 0
  }

  /**
   * The two disagree on every node whose key differs from `key`; concretely,
   * against a node holding 1, key 3 is not "after" it as written, so a search
   * for 3 would stop in front of 1.
   */
  lemma KeyIsAfterNodeAsWrittenIsReversed(s: State, key: int, n: int)
    requires 0 <= n < |s.nodes| && s.nodes[n].key != key
    ensures KeyIsAfterNodeAsWritten(s, key, n) <==> !KeyIsAfterNode(s, key, n)
    ensures var t := State([Node(0, [1]), Node(1, [Null])], 1, 0);
            !KeyIsAfterNodeAsWritten(t, 3, 1) && KeyIsAfterNode(t, 3, 1)
  {
  }

  /**
   * `FindGreaterOrEqual`: the first node whose key is at least `key` (null if
   * none), and, for every level below `cur_height_`, the last node on that
   * level whose key is below `key` (or the head). Levels from `cur_height_` up
   * are left null, as in `Insert`'s `prev` array.
   */
  method FindGreaterOrEqual(s: State, key: int) returns (r: int, prev: seq<int>)
    requires Valid(s)
    ensures r == Null || (1 <= r < |s.nodes| && s.nodes[r].key >= key)
    ensures forall k :: 1 <= k < |s.nodes| && s.nodes[k].key >= key ==>
              r != Null && s.nodes[r].key <= s.nodes[k].key
    ensures |prev| == MaxHeight
    ensures forall l :: 0 <= l < s.curHeight ==> LastBefore(s, prev[l], l, key)
    ensures forall l :: s.curHeight <= l < MaxHeight ==> prev[l] == Null
  {
    prev := seq(MaxHeight, _ => Null);
    var cur := Head;
    var level := s.curHeight - 1;
    while true
      invariant 0 <= level < s.curHeight
      invariant 0 <= cur < |s.nodes| && level < |s.nodes[cur].nexts|
      invariant cur == Head || s.nodes[cur].key < key
      invariant forall k :: OnLevel(s, k, level + 1) && s.nodes[k].key < key ==> !Precedes(s, cur, k)
      invariant |prev| == MaxHeight
      invariant forall l :: level < l < s.curHeight ==> LastBefore(s, prev[l], l, key)
      invariant forall l :: s.curHeight <= l < MaxHeight ==> prev[l] == Null
      decreases level, Beyond(s, cur)
    {
      var next := Next(s, cur, level);
      if KeyIsAfterNode(s, key, next) {
        BeyondShrinks(s, cur, next);
        cur := next;
      } else {
        assert LastBefore(s, cur, level, key);
        prev := prev[level := cur];
        if level == 0 {
          r := next;
          forall k | 1 <= k < |s.nodes| && s.nodes[k].key >= key
            ensures r != Null && s.nodes[r].key <= s.nodes[k].key
          {
            assert OnLevel(s, k, 0) && Precedes(s, cur, k);
          }
          return;
        }
        level := level - 1;
      }
    }
  }

  /**
   * `FindGreaterOrEqual` as written, with `KeyIsAfterNodeAsWritten`: the search
   * moves forward only past nodes ABOVE `key`, so it stops at the first level-0
   * link, from the head or a node above `key`, whose target is null or at most
   * `key`. On a list in ascending order that is not the first node at or above
   * `key` (see `AsWrittenSearchStopsEarly`).
   */
  method FindGreaterOrEqualAsWritten(s: State, key: int) returns (r: int)
    requires Valid(s)
    ensures r == Null || (1 <= r < |s.nodes| && s.nodes[r].key <= key)
    ensures exists p :: 0 <= p < |s.nodes| && (p == Head || key < s.nodes[p].key)
                        && 0 < |s.nodes[p].nexts| && r == s.nodes[p].nexts[0]
  {
    var cur := Head;
    var level := s.curHeight - 1;
    while true
      invariant 0 <= level < s.curHeight
      invariant 0 <= cur < |s.nodes| && level < |s.nodes[cur].nexts|
      invariant cur == Head || key < s.nodes[cur].key
      decreases level, Beyond(s, cur)
    {
      var next := Next(s, cur, level);
      if KeyIsAfterNodeAsWritten(s, key, next) {
        BeyondShrinks(s, cur, next);
        cur := next;
      } else {
        if level == 0 {
          return next;
        }
        level := level - 1;
      }
    }
  }

  /** The one-node list holding 1, built by either version of `Insert`. */
  function OneKeyList(): (s: State)
    ensures Valid(s) && Keys(s) == {1}
  {
    var s := State([Node(0, [1] + seq(MaxHeight - 1, _ => Null)), Node(1, [Null])], 1, 0);
    assert s.nodes[1].key in Keys(s);
    assert forall i, l :: 0 <= i < |s.nodes| && 0 <= l < |s.nodes[i].nexts| ==>
             s.nodes[i].nexts[l] == if i == Head && l == 0 then 1 else Null;
    s
  }

  /**
   * Searching the list {1} for 3: as written the search returns node 1, a node
   * BELOW the key, where the corrected search rightly finds nothing.
   */
  method AsWrittenSearchStopsEarly() returns (asWritten: int, corrected: int)
    ensures asWritten == 1 && corrected == Null
  {
    var s := OneKeyList();
    asWritten := FindGreaterOrEqualAsWritten(s, 3);
    var prev;
    corrected, prev := FindGreaterOrEqual(s, 3);
    assert s.nodes[1].key == 1;
  }

  /** `Contains`: the search lands on a node holding `key` exactly when it is present. */
  method Contains(s: State, key: int) returns (b: bool)
    requires Valid(s)
    ensures b <==> key in Keys(s)
  {
    var node, _ := FindGreaterOrEqual(s, key);
    b := node != Null && Equal(key, s.nodes[node].key);
  }

  /**
   * `FindLessThan`: the last node whose key is below `key`, or the head when
   * every key is at least `key`.
   */
  method FindLessThan(s: State, key: int) returns (r: int)
    requires Valid(s)
    ensures 0 <= r < |s.nodes| && (r == Head || s.nodes[r].key < key)
    ensures forall k :: 1 <= k < |s.nodes| && s.nodes[k].key < key ==>
              r != Head && s.nodes[k].key <= s.nodes[r].key
  {
    var cur := Head;
    var level := s.curHeight - 1;
    while true
      invariant 0 <= level < s.curHeight
      invariant 0 <= cur < |s.nodes| && level < |s.nodes[cur].nexts|
      invariant cur == Head || s.nodes[cur].key < key
      invariant forall k :: OnLevel(s, k, level + 1) && s.nodes[k].key < key ==> !Precedes(s, cur, k)
      decreases level, Beyond(s, cur)
    {
      var next := Next(s, cur, level);
      var cmp := if next == Null then 1 else Compare(s.nodes[next].key, key);
      if cmp >= 0 {
        assert LastBefore(s, cur, level, key);
        if level == 0 {
          forall k | 1 <= k < |s.nodes| && s.nodes[k].key < key
            ensures cur != Head && s.nodes[k].key <= s.nodes[cur].key
          {
            assert OnLevel(s, k, 0);
          }
          return cur;
        }
        level := level - 1;
      } else {
        BeyondShrinks(s, cur, next);
        cur := next;
      }
    }
  }

  /** `FindLast`: the node with the largest key, or the head when the list is empty. */
  method FindLast(s: State) returns (r: int)
    requires Valid(s)
    ensures 0 <= r < |s.nodes|
    ensures r == Head <==> Keys(s) == {}
    ensures forall k :: 1 <= k < |s.nodes| ==> s.nodes[k].key <= s.nodes[r].key
  {
    var cur := Head;
    while true
      invariant 0 <= cur < |s.nodes| && 0 < |s.nodes[cur].nexts|
      decreases Beyond(s, cur)
    {
      var next := Next(s, cur, 0);
      if next == Null {
        forall k | 1 <= k < |s.nodes|
          ensures cur != Head && s.nodes[k].key <= s.nodes[cur].key
        {
          assert OnLevel(s, k, 0);
        }
        if cur == Head {
          assert Keys(s) == {};
        } else {
          assert s.nodes[cur].key in Keys(s);
        }
        return cur;
      }
      BeyondShrinks(s, cur, next);
      cur := next;
    }
  }

  // ---------------------------------------------------------------------------
  // Height selection

  /**
   * The draws starting at `pos` give height `h` and leave the stream at
   * `next`: the first `h - 1` draws are multiples of `Branching`, and below
   * `MaxHeight` one more draw, which is not, ends the process.
   */
  ghost predicate DrawsGiveHeight(rnd: nat -> nat, pos: nat, h: int, next: nat) {
    && 1 <= h <= MaxHeight
    && (forall i :: pos <= i < pos + h - 1 ==> rnd(i) % Branching == 0)
    && if h < MaxHeight then rnd(pos + h - 1) % Branching != 0 && next == pos + h
       else next == pos + MaxHeight - 1
  }

  /** `RandomHeight`: start at 1 and add a level per draw divisible by `Branching`. */
  method RandomHeight(rnd: nat -> nat, pos: nat) returns (h: int, next: nat)
    ensures DrawsGiveHeight(rnd, pos, h, next)
  {
    h := 1;
    next := pos;
    while h < MaxHeight && rnd(next) % Branching == 0
      invariant 1 <= h <= MaxHeight && next == pos + h - 1
      invariant forall i :: pos <= i < next ==> rnd(i) % Branching == 0
    {
      h := h + 1;
      next := next + 1;
    }
    if h < MaxHeight {
      // the draw that stopped the loop has been taken as well
      next := next + 1;
    }
  }

  /** The stream determines the height and how far the stream is consumed. */
  lemma DrawsGiveOneHeight(rnd: nat -> nat, pos: nat, h1: int, n1: nat, h2: int, n2: nat)
    requires DrawsGiveHeight(rnd, pos, h1, n1) && DrawsGiveHeight(rnd, pos, h2, n2)
    ensures h1 == h2 && n1 == n2
  {
  }

  // ---------------------------------------------------------------------------
  // Insertion

  /** `prev` holds, for every level below `h`, the predecessor of `key` there. */
  ghost predicate PrevFor(s: State, key: int, prev: seq<int>, h: int) {
    && |prev| == MaxHeight && 1 <= h <= MaxHeight
    && forall l :: 0 <= l < h ==> LastBefore(s, prev[l], l, key)
  }

  /**
   * `t` is `s` with a node `x` holding `key` appended and spliced in at levels
   * 0..h-1: `prev[l]` now links to `x`, and `x` links to where `prev[l]` used
   * to; every other link is as before.
   */
  ghost predicate Spliced(s: State, t: State, key: int, h: int, prev: seq<int>)
    requires PrevFor(s, key, prev, h)
  {
    var x := |s.nodes|;
    && |t.nodes| == x + 1
    && t.nodes[x].key == key && |t.nodes[x].nexts| == h
    && (forall i :: 0 <= i < x ==> t.nodes[i].key == s.nodes[i].key && |t.nodes[i].nexts| == |s.nodes[i].nexts|)
    && (forall i, l :: 0 <= i < x && 0 <= l < |s.nodes[i].nexts| ==>
          t.nodes[i].nexts[l] == if l < h && i == prev[l] then x else s.nodes[i].nexts[l])
    && (forall l :: 0 <= l < h ==> t.nodes[x].nexts[l] == s.nodes[prev[l]].nexts[l])
    && t.curHeight == (if h > s.curHeight then h else s.curHeight)
  }

  ghost predicate SpliceOf(s: State, t: State, key: int, h: int, prev: seq<int>) {
    && Valid(s) && key !in Keys(s) && PrevFor(s, key, prev, h) && Spliced(s, t, key, h, prev)
  }

  /** The new node's link at level `l` is its successor. */
  lemma SuccOfNewNode(s: State, t: State, key: int, h: int, prev: seq<int>, l: int)
    requires SpliceOf(s, t, key, h, prev) && 0 <= l < h
    ensures IsSucc(t, |s.nodes|, l, t.nodes[|s.nodes|].nexts[l])
  {
    var x := |s.nodes|;
    var p := prev[l];
    var j := s.nodes[p].nexts[l];
    assert IsSucc(s, p, l, j);
    if j == Null {
      forall k | OnLevel(t, k, l)
        ensures !Precedes(t, x, k)
      {
        if k != x && Precedes(t, x, k) {
          assert Precedes(s, p, k) && OnLevel(s, k, l);
        }
      }
    } else {
      KeyNotIn(s, key, j);
      assert OnLevel(s, j, l) && Precedes(s, p, j);
      assert key < s.nodes[j].key;
      forall k | OnLevel(t, k, l) && Precedes(t, x, k)
        ensures t.nodes[j].key <= t.nodes[k].key
      {
        assert k != x;
        assert Precedes(s, p, k) && OnLevel(s, k, l);
      }
    }
  }

  /** A predecessor's link at a spliced level is the new node. */
  lemma SuccOfPrev(s: State, t: State, key: int, h: int, prev: seq<int>, l: int)
    requires SpliceOf(s, t, key, h, prev) && 0 <= l < h
    ensures IsSucc(t, prev[l], l, |s.nodes|)
  {
    var x := |s.nodes|;
    var i := prev[l];
    forall k | OnLevel(t, k, l) && Precedes(t, i, k)
      ensures t.nodes[x].key <= t.nodes[k].key
    {
      if k != x {
        assert OnLevel(s, k, l) && Precedes(s, i, k);
        KeyNotIn(s, key, k);
      }
    }
  }

  /** Every other link keeps pointing at the successor: the new node does not fall before it. */
  lemma SuccUnchanged(s: State, t: State, key: int, h: int, prev: seq<int>, i: int, l: int)
    requires SpliceOf(s, t, key, h, prev)
    requires 0 <= i < |s.nodes| && 0 <= l < |s.nodes[i].nexts| && !(l < h && i == prev[l])
    ensures IsSucc(t, i, l, s.nodes[i].nexts[l])
  {
    var x := |s.nodes|;
    var j := s.nodes[i].nexts[l];
    assert IsSucc(s, i, l, j);
    if l < h && Precedes(t, i, x) {
      var p := prev[l];
      assert LastBefore(s, p, l, key);
      if i == Head {
        assert OnLevel(s, p, l) && Precedes(s, Head, p);
      } else {
        assert OnLevel(s, i, l);
        assert Precedes(s, i, p) && OnLevel(s, p, l);
      }
      assert j != Null && s.nodes[j].key < key;
    }
    if j == Null {
      forall k | OnLevel(t, k, l)
        ensures !Precedes(t, i, k)
      {
        if k != x {
          assert OnLevel(s, k, l);
        }
      }
    } else {
      forall k | OnLevel(t, k, l) && Precedes(t, i, k)
        ensures t.nodes[j].key <= t.nodes[k].key
      {
        if k != x {
          assert OnLevel(s, k, l) && Precedes(s, i, k);
        }
      }
    }
  }

  /** Splicing a fresh key in at its predecessors keeps the list valid. */
  lemma SpliceKeepsValid(s: State, t: State, key: int, h: int, prev: seq<int>)
    requires SpliceOf(s, t, key, h, prev)
    ensures Valid(t)
  {
    var x := |s.nodes|;
    forall j, k | 1 <= j < k < |t.nodes|
      ensures t.nodes[j].key != t.nodes[k].key
    {
      if k == x {
        KeyNotIn(s, key, j);
      }
    }
    forall i, l | 0 <= i < |t.nodes| && 0 <= l < |t.nodes[i].nexts|
      ensures IsSucc(t, i, l, t.nodes[i].nexts[l])
    {
      if i == x {
        SuccOfNewNode(s, t, key, h, prev, l);
      } else if l < h && i == prev[l] {
        assert t.nodes[i].nexts[l] == x;
        SuccOfPrev(s, t, key, h, prev, l);
      } else {
        assert t.nodes[i].nexts[l] == s.nodes[i].nexts[l];
        SuccUnchanged(s, t, key, h, prev, i, l);
      }
    }
  }

  /** Splicing adds `key` to exactly the levels below `h`. */
  lemma SpliceAddsKey(s: State, t: State, key: int, h: int, prev: seq<int>)
    requires SpliceOf(s, t, key, h, prev)
    ensures Keys(t) == Keys(s) + {key}
    ensures forall l :: 0 <= l < MaxHeight ==> LevelSet(t, l) == LevelSet(s, l) + (if l < h then {key} else {})
  {
    var x := |s.nodes|;
    assert t.nodes[x].key in Keys(t);
    forall v | v in Keys(s)
      ensures v in Keys(t)
    {
      var k :| 1 <= k < |s.nodes| && s.nodes[k].key == v;
      assert t.nodes[k].key == v;
    }
    forall l | 0 <= l < MaxHeight
      ensures LevelSet(t, l) == LevelSet(s, l) + (if l < h then {key} else {})
    {
      SpliceAddsLevelKey(s, t, key, h, prev, l);
    }
  }

  /** One level of `SpliceAddsKey`: level `l` gains `key` exactly when the new node reaches it. */
  lemma SpliceAddsLevelKey(s: State, t: State, key: int, h: int, prev: seq<int>, l: int)
    requires SpliceOf(s, t, key, h, prev)
    requires 0 <= l < MaxHeight
    ensures LevelSet(t, l) == LevelSet(s, l) + (if l < h then {key} else {})
  {
    var x := |s.nodes|;
    if l < h {
      assert OnLevel(t, x, l);
      assert t.nodes[x].key in LevelSet(t, l);
    }
    forall v | v in LevelSet(s, l)
      ensures v in LevelSet(t, l)
    {
      var k :| 1 <= k < |s.nodes| && OnLevel(s, k, l) && s.nodes[k].key == v;
      assert OnLevel(t, k, l) && t.nodes[k].key == v;
    }
  }

  /**
   * Link `l` of old node `i` is as before, or now points at the node appended
   * after the old ones, which took over the old target.
   */
  ghost predicate KeptOrRedirected(s: State, t: State, i: int, l: int)
    requires 0 <= i < |s.nodes| && 0 <= l < |s.nodes[i].nexts|
  {
    var x := |s.nodes|;
    && x < |t.nodes| && i < |t.nodes| && l < |t.nodes[i].nexts|
    && (|| t.nodes[i].nexts[l] == s.nodes[i].nexts[l]
        || (t.nodes[i].nexts[l] == x && l < |t.nodes[x].nexts| && t.nodes[x].nexts[l] == s.nodes[i].nexts[l]))
  }

  /**
   * The linking loop of `Insert`: appends the new node and, level by level
   * from 0, copies the predecessor's link into it and points the predecessor
   * at it.
   */
  method LinkNewNode(s: State, raised: State, key: int, h: int, prev: seq<int>) returns (t: State)
    requires Valid(s) && PrevFor(s, key, prev, h)
    requires raised.nodes == s.nodes && raised.curHeight == (if h > s.curHeight then h else s.curHeight)
    ensures Spliced(s, t, key, h, prev) && t.draws == raised.draws
  {
    var created := NewNode(raised, key, h);
    var x := created.1;
    t := created.0;
    for index := 0 to h
      invariant |t.nodes| == x + 1 && x == |s.nodes|
      invariant t.curHeight == raised.curHeight && t.draws == raised.draws
      invariant t.nodes[x].key == key && |t.nodes[x].nexts| == h
      invariant forall i :: 0 <= i < x ==>
                  t.nodes[i].key == s.nodes[i].key && |t.nodes[i].nexts| == |s.nodes[i].nexts|
      invariant forall i, l :: 0 <= i < x && 0 <= l < |s.nodes[i].nexts| ==>
                  t.nodes[i].nexts[l] == if l < index && i == prev[l] then x else s.nodes[i].nexts[l]
      invariant forall l :: 0 <= l < index ==> t.nodes[x].nexts[l] == s.nodes[prev[l]].nexts[l]
    {
      var p := prev[index];
      assert p != x && p < |s.nodes| && index < |s.nodes[p].nexts|;
      var target := Next(t, p, index);
      assert target == s.nodes[p].nexts[index];
      var mid := SetNext(t, x, index, target);
      t := SetNext(mid, p, index, x);
    }
  }

  /**
   * `Insert`: a key already present leaves the list exactly as it was;
   * otherwise a node of a freshly drawn height is spliced in after its
   * predecessor at every level below that height, raising `cur_height_` when
   * the height exceeds it, with the head as predecessor on the new levels.
   */
  method Insert(s: State, key: int, rnd: nat -> nat) returns (t: State, inserted: bool)
    requires Valid(s)
    ensures Valid(t)
    ensures inserted <==> key !in Keys(s)
    ensures Keys(t) == Keys(s) + {key}
    ensures !inserted ==> t == s
    ensures s.curHeight <= t.curHeight
    ensures inserted ==> |t.nodes| == |s.nodes| + 1 && t.nodes[|s.nodes|].key == key
    ensures inserted ==> DrawsGiveHeight(rnd, s.draws, |t.nodes[|s.nodes|].nexts|, t.draws)
    ensures inserted ==> t.curHeight == if |t.nodes[|s.nodes|].nexts| > s.curHeight
                                        then |t.nodes[|s.nodes|].nexts| else s.curHeight
    ensures inserted ==> forall i :: 0 <= i < |s.nodes| ==>
              t.nodes[i].key == s.nodes[i].key && |t.nodes[i].nexts| == |s.nodes[i].nexts|
    ensures inserted ==> forall l :: 0 <= l < MaxHeight ==>
              LevelSet(t, l) == LevelSet(s, l) + (if l < |t.nodes[|s.nodes|].nexts| then {key} else {})
    ensures inserted ==> forall i, l :: 0 <= i < |s.nodes| && 0 <= l < |s.nodes[i].nexts| ==>
              KeptOrRedirected(s, t, i, l)
    ensures inserted ==> forall l :: s.curHeight <= l < |t.nodes[|s.nodes|].nexts| ==>
              t.nodes[Head].nexts[l] == |s.nodes|
  {
    var node, prev := FindGreaterOrEqual(s, key);
    if node != Null && Equal(key, s.nodes[node].key) {
      assert s.nodes[node].key in Keys(s);
      return s, false;
    }
    assert forall k :: 1 <= k < |s.nodes| ==> s.nodes[k].key != key;
    var h, draws := RandomHeight(rnd, s.draws);
    var curMax := s.curHeight;
    var raised := s.(draws := draws);
    if h > curMax {
      for index := curMax to h
        invariant |prev| == MaxHeight
        invariant forall l :: 0 <= l < curMax ==> LastBefore(s, prev[l], l, key)
        invariant forall l :: curMax <= l < index ==> prev[l] == Head
      {
        prev := prev[index := Head];
      }
      raised := raised.(curHeight := h);
    }
    assert PrevFor(s, key, prev, h) by {
      forall l | curMax <= l < h
        ensures LastBefore(s, prev[l], l, key)
      {
        forall k | 1 <= k < |s.nodes|
          ensures !OnLevel(s, k, l)
        {
        }
      }
    }
    t := LinkNewNode(s, raised, key, h, prev);
    SpliceKeepsValid(s, t, key, h, prev);
    SpliceAddsKey(s, t, key, h, prev);
    forall i, l | 0 <= i < |s.nodes| && 0 <= l < |s.nodes[i].nexts|
      ensures KeptOrRedirected(s, t, i, l)
    {
      if l < h && i == prev[l] {
        assert t.nodes[|s.nodes|].nexts[l] == s.nodes[prev[l]].nexts[l];
      }
    }

    forall l | curMax <= l < h
      ensures t.nodes[Head].nexts[l] == |s.nodes|
    {
      assert prev[l] == Head && l < |s.nodes[Head].nexts|;
    }
    inserted := true;
  }

  // ---------------------------------------------------------------------------
  // Traversal

  /** Strictly increasing. */
  ghost predicate Ascending(r: seq<int>) {
    forall m, n :: 0 <= m < n < |r| ==> r[m] < r[n]
  }

  /**
   * The keys met following level-`l` links forward from node `i`: in strictly
   * increasing order, exactly the keys of the level-`l` nodes after `i`.
   */
  function Walk(s: State, i: int, l: int): (r: seq<int>)
    requires Valid(s) && 0 <= i < |s.nodes| && 0 <= l < |s.nodes[i].nexts|
    ensures Ascending(r)
    ensures forall m :: 0 <= m < |r| ==> r[m] in LevelSet(s, l) && (i == Head || s.nodes[i].key < r[m])
    ensures forall k :: OnLevel(s, k, l) && Precedes(s, i, k) ==> s.nodes[k].key in r
    decreases Beyond(s, i)
  {
    var j := Next(s, i, l);
    if j == Null then []
    else
      BeyondShrinks(s, i, j);
      [s.nodes[j].key] + Walk(s, j, l)
  }

  /**
   * A full walk of level `l` from the head lists the keys of that level's
   * nodes, each once, in strictly increasing order.
   */
  function LevelKeys(s: State, l: int): (r: seq<int>)
    requires Valid(s) && 0 <= l < MaxHeight
    ensures Ascending(r)
    ensures forall v :: v in r <==> v in LevelSet(s, l)
  {
    var r := Walk(s, Head, l);
    assert forall v :: v in LevelSet(s, l) ==> v in r by {
      forall v | v in LevelSet(s, l)
        ensures v in r
      {
        var k :| 1 <= k < |s.nodes| && OnLevel(s, k, l) && s.nodes[k].key == v;
        assert Precedes(s, Head, k);
      }
    }
    r
  }

  /** Every node is on level 0, so the base level holds all the keys. */
  lemma BaseLevelHoldsKeys(s: State)
    requires Valid(s)
    ensures LevelSet(s, 0) == Keys(s)
    ensures forall v :: v in LevelKeys(s, 0) <==> v in Keys(s)
  {
    forall v | v in Keys(s)
      ensures v in LevelSet(s, 0)
    {
      var k :| 1 <= k < |s.nodes| && s.nodes[k].key == v;
      assert OnLevel(s, k, 0);
    }
  }

  /** A node on a level is on every level below it. */
  lemma LevelsNested(s: State, lo: int, hi: int)
    requires 0 <= lo <= hi
    ensures LevelSet(s, hi) <= LevelSet(s, lo)
  {
  }

  lemma FirstIsElement(b: seq<int>)
    ensures |b| > 0 ==> b[0] in b
  {
  }

  /** Two strictly increasing sequences with the same elements are equal. */
  lemma {:induction false} AscendingUnique(a: seq<int>, b: seq<int>)
    requires Ascending(a) && Ascending(b)
    requires forall v :: v in a <==> v in b
    ensures a == b
  {
    if |a| == 0 {
      FirstIsElement(b);
    } else {
      assert a[0] in b && b[0] in a;
      assert |b| > 0 && a[0] == b[0];
      forall v | v in a[1..]
        ensures v in b[1..]
      {
        var m :| 1 <= m < |a| && a[m] == v;
        assert v in b && v != b[0];
      }
      forall v | v in b[1..]
        ensures v in a[1..]
      {
        var m :| 1 <= m < |b| && b[m] == v;
        assert v in a && v != a[0];
      }
      AscendingUnique(a[1..], b[1..]);
    }
  }

  /** Inserts `keys` one after another; the stored keys gain exactly the elements of `keys`. */
  method InsertAll(s: State, keys: seq<int>, rnd: nat -> nat) returns (t: State)
    requires Valid(s)
    ensures Valid(t)
    ensures Keys(t) == Keys(s) + (set v | v in keys)
  {
    t := s;
    for i := 0 to |keys|
      invariant Valid(t) && Keys(t) == Keys(s) + (set v | v in keys[..i])
    {
      assert keys[..i + 1] == keys[..i] + [keys[i]];
      var ins: bool;
      t, ins := Insert(t, keys[i], rnd);
    }
    assert keys[..|keys|] == keys;
  }

  /** The distinct elements of the scenario's insertion order. */
  lemma FourKeysSet(keys: seq<int>)
    requires keys == [5, 1, 9, 3]
    ensures (set v | v in keys) == {1, 3, 5, 9}
  {
    assert keys[0] == 5 && keys[1] == 1 && keys[2] == 9 && keys[3] == 3;
  }

  /**
   * Inserting 5, 1, 9, 3 into a fresh list: 3 is found, 7 is not, inserting 5
   * again is rejected, and the base level reads 1, 3, 5, 9.
   */
  method FourKeyScenario(rnd: nat -> nat) returns (has3: bool, has7: bool, again: bool, base: seq<int>)
    ensures has3 && !has7 && !again && base == [1, 3, 5, 9]
  {
    var keys := [5, 1, 9, 3];
    var s0 := Create();
    var s := InsertAll(s0, keys, rnd);
    FourKeysSet(keys);
    assert Keys(s) == {1, 3, 5, 9};
    has3 := Contains(s, 3);
    has7 := Contains(s, 7);
    s, again := Insert(s, 5, rnd);
    base := LevelKeys(s, 0);
    BaseLevelHoldsKeys(s);
    AscendingUnique(base, [1, 3, 5, 9]);
  }
}
