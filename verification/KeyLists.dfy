/** Key sets as heap-allocated linked lists (ta/key_list/key_list.c). */
module KeyLists {
  import opened Basics

  /**
   * The account of TEE_Malloc and TEE_Free: every object ever allocated is either live or freed.
   * Only what is live can be freed, hence nothing is freed twice.
   */
  class Heap {
    ghost var tracked: set<object>
    ghost var live: set<object>
    ghost var freed: set<object>

    ghost predicate Valid()
      reads this
    {
      live !! freed && tracked == live + freed
    }

    constructor ()
      ensures Valid() && live == {}
    {
      tracked, live, freed := {}, {}, {};
    }

    ghost method Track(o: object)
      requires Valid() && o !in tracked
      modifies this
      ensures Valid() && tracked == old(tracked) + {o} && live == old(live) + {o}
    {
      tracked, live := tracked + {o}, live + {o};
    }

    ghost method Free(o: object)
      requires Valid() && o in live
      modifies this
      ensures Valid() && tracked == old(tracked) && live == old(live) - {o}
    {
      live, freed := live - {o}, freed + {o};
    }
  }

  /** Results of the two allocations behind a new node: the node, then its copy of the key. */
  datatype NodeCalls = NodeCalls(node: bool, key: bool)

  /** A copy of a key, made for one node. */
  class KeyBuffer {
    const text: KeyText
    ghost const owner: KeyNode

    constructor (text: KeyText, ghost owner: KeyNode)
      ensures this.text == text && this.owner == owner
    {
      this.text := text;
      this.owner := owner;
    }
  }

  class KeyNode {
    var key: KeyBuffer?
    var next: KeyNode?

    constructor ()
      ensures key == null && next == null
    {
      key, next := null, null;
    }
  }

  /** The sequence without the first occurrence of `key`. */
  function RemoveFirst<T(==)>(s: seq<T>, key: T): seq<T> {
    if s == [] then []
    else if s[0] == key then s[1..]
    else [s[0]] + RemoveFirst(s[1..], key)
  }

  /** Removing the first occurrence splices one element out, or nothing. */
  lemma {:induction false} RemoveFirstAt<T>(s: seq<T>, key: T, i: nat)
    requires i <= |s| && key !in s[..i] && (i < |s| ==> s[i] == key)
    ensures RemoveFirst(s, key) == if i < |s| then s[..i] + s[i + 1..] else s
  {
    if i > 0 {
      var tail := s[1..];
      TailFacts(s, i);
      RemoveFirstAt(tail, key, i - 1);
    }
  }

  lemma TailFacts<T>(s: seq<T>, i: nat)
    requires 0 < i <= |s|
    ensures s[0] in s[..i] && s == [s[0]] + s[1..]
    ensures forall k :: k in s[1..][..i - 1] ==> k in s[..i]
    ensures i < |s| ==> s[1..][i - 1] == s[i] && s[..i] + s[i + 1..] == [s[0]] + (s[1..][..i - 1] + s[1..][i..])
  {
    assert s[..i] == [s[0]] + s[1..][..i - 1];
  }

  lemma {:induction false} RemoveFirstMembers<T>(s: seq<T>, key: T)
    ensures forall k :: k in RemoveFirst(s, key) ==> k in s
  {
    if s != [] {
      RemoveFirstMembers(s[1..], key);
      assert forall k :: k in s[1..] ==> k in s;
    }
  }

  /** A number as a 32-bit counter shows it. */
  function Wrapped(n: nat): uint32 {
    n % WORD
  }

  lemma WrappedStep(n: nat)
    ensures (Wrapped(n) + 1) % WORD == Wrapped(n + 1)
    ensures (Wrapped(n + 1) - 1) % WORD == Wrapped(n)
  {
  }

  /** No element occurs twice. The elements are named through `At`, so that proofs ask for this one pair at a time. */
  ghost predicate Distinct<T>(s: seq<T>) {
    forall i, j {:trigger At(s, i), At(s, j)} :: 0 <= i < j < |s| ==> At(s, i) != At(s, j)
  }

  ghost function At<T>(s: seq<T>, i: nat): T
    requires i < |s|
  {
    s[i]
  }

  lemma DistinctOthers<T>(s: seq<T>, i: nat)
    requires Distinct(s) && i < |s|
    ensures forall j {:trigger s[j]} :: 0 <= j < |s| && j != i ==> s[j] != s[i]
  {
    forall j {:trigger s[j]} | 0 <= j < |s| && j != i ensures s[j] != s[i] {
      assert At(s, i) == s[i] && At(s, j) == s[j];
    }
  }

  lemma DistinctSplice<T>(s: seq<T>, i: nat)
    requires Distinct(s) && i < |s|
    ensures Distinct(s[..i] + s[i + 1..])
  {
    var t := s[..i] + s[i + 1..];
    forall j, k {:trigger At(t, j), At(t, k)} | 0 <= j < k < |t| ensures At(t, j) != At(t, k) {
      var j', k' := if j < i then j else j + 1, if k < i then k else k + 1;
      assert At(s, j') == t[j] && At(s, k') == t[k];
    }
  }

  lemma DistinctTail<T>(s: seq<T>)
    requires Distinct(s) && |s| > 0
    ensures Distinct(s[1..]) && s[0] !in s[1..]
  {
    DistinctOthers(s, 0);
    var t := s[1..];
    forall j, k {:trigger At(t, j), At(t, k)} | 0 <= j < k < |t| ensures At(t, j) != At(t, k) {
      assert At(s, j + 1) != At(s, k + 1);
    }
  }

  lemma DistinctPrepend<T>(x: T, s: seq<T>)
    requires Distinct(s) && x !in s
    ensures Distinct([x] + s)
  {
    var t := [x] + s;
    forall j, k {:trigger At(t, j), At(t, k)} | 0 <= j < k < |t| ensures At(t, j) != At(t, k) {
      if j > 0 {
        assert At(s, j - 1) == t[j] && At(s, k - 1) == t[k];
      }
    }
  }

  method CopyKeyString(src: KeyText, ok: bool, ghost owner: KeyNode, heap: Heap) returns (dst: KeyBuffer?)
    requires heap.Valid()
    modifies heap
    ensures heap.Valid() && old(heap.tracked) <= heap.tracked
    ensures dst != null <==> ok
    ensures ok ==> fresh(dst) && dst.text == src && dst.owner == owner && heap.live == old(heap.live) + {dst}
    ensures !ok ==> heap.live == old(heap.live)
  {
    if !ok {
      return null;
    }
    dst := new KeyBuffer(src, owner);
    heap.Track(dst);
  }

  method FreeKeyNode(node: KeyNode?, heap: Heap)
    requires heap.Valid()
    requires node != null ==> node in heap.live && (node.key != null ==> node.key in heap.live)
    modifies heap
    ensures heap.Valid() && heap.tracked == old(heap.tracked)
    ensures heap.live == old(heap.live) - (if node == null then {} else Parts(node))
  {
    if node != null {
      if node.key != null {
        heap.Free(node.key);
      }
      heap.Free(node);
    }
  }

  /** A node and its copy of the key. */
  ghost function Parts(node: KeyNode): set<object>
    reads node`key
  {
    if node.key == null then {node} else {node, node.key}
  }

  method CreateKeyNode(key: KeyText, calls: NodeCalls, heap: Heap) returns (node: KeyNode?)
    requires heap.Valid()
    modifies heap
    ensures heap.Valid() && old(heap.tracked) <= heap.tracked
    ensures node != null <==> calls.node && calls.key
    ensures node != null ==>
              && fresh(node) && node.next == null && node.key != null && fresh(node.key)
              && node.key.text == key && node.key.owner == node
              && heap.live == old(heap.live) + {node, node.key}
    ensures node == null ==> heap.live == old(heap.live)
  {
    if !calls.node {
      return null;
    }
    node := new KeyNode();
    heap.Track(node);
    var text := CopyKeyString(key, calls.key, node, heap);
    if text == null {
      FreeKeyNode(node, heap);
      return null;
    }
    node.key := text;
    node.next := null;
  }

  /** Freeing a part of what a list owns leaves everything it does not own alone. */
  lemma Shrink(live: set<object>, whole: set<object>, part: set<object>)
    requires part <= whole <= live
    ensures whole - part <= live - part && (live - part) - (whole - part) == live - whole
  {
  }

  ghost function NodeAt(spine: seq<KeyNode>, i: nat): KeyNode? {
    if i < |spine| then spine[i] else null
  }

  /** Every node and its copy of the key belong to `r`, and the copy holds the key at the node's position. */
  ghost predicate Cells(spine: seq<KeyNode>, keys: seq<KeyText>, r: set<object>)
    requires |spine| == |keys|
    reads spine`key
  {
    forall i :: 0 <= i < |spine| ==>
      && spine[i] in r && spine[i].key in r
      && spine[i].key.owner == spine[i] && spine[i].key.text == keys[i]
  }

  /** Every node points at the one after it. */
  ghost predicate Links(spine: seq<KeyNode>)
    reads spine`next
  {
    forall i {:trigger spine[i].next} :: 0 <= i < |spine| ==> spine[i].next == NodeAt(spine, i + 1)
  }

  /** All nodes with their copies of the keys. */
  ghost function Objects(spine: seq<KeyNode>): set<object>
    reads spine`key
  {
    if spine == [] then {} else Parts(spine[0]) + Objects(spine[1..])
  }

  ghost predicate OwnCopy(node: KeyNode)
    reads node`key
  {
    node.key != null && node.key.owner == node
  }

  /** A node that is not in the list shares nothing with it. */
  lemma {:induction false} ObjectsApart(node: KeyNode, spine: seq<KeyNode>)
    requires OwnCopy(node) && node !in spine && forall n :: n in spine ==> OwnCopy(n)
    ensures Parts(node) !! Objects(spine)
  {
    if spine != [] {
      assert spine[0] in spine && forall n :: n in spine[1..] ==> n in spine;
      ObjectsApart(node, spine[1..]);
    }
  }

  /** Taking out one node takes out that node and its copy, and nothing else. */
  lemma {:induction false} ObjectsSplice(spine: seq<KeyNode>, i: nat)
    requires i < |spine| && Distinct(spine) && forall n :: n in spine ==> OwnCopy(n)
    ensures Objects(spine[..i] + spine[i + 1..]) == Objects(spine) - Parts(spine[i])
  {
    var tail := spine[1..];
    DistinctTail(spine);
    assert forall n :: n in tail ==> n in spine;
    assert spine[0] in spine && spine[i] in spine;
    if i == 0 {
      assert spine[..0] + spine[1..] == tail;
      ObjectsApart(spine[0], tail);
    } else {
      assert tail[i - 1] == spine[i];
      ObjectsSplice(tail, i - 1);
      var t := spine[..i] + spine[i + 1..];
      assert t[0] == spine[0] && t[1..] == tail[..i - 1] + tail[i..];
      UnionLess(Parts(spine[0]), Objects(tail), Parts(spine[i]));
    }
  }

  lemma Peel(x: set<object>, y: set<object>, z: set<object>)
    requires y !! x && y !! z
    ensures x + (y + z) - y == x + z
  {
  }

  lemma UnionLess(x: set<object>, y: set<object>, z: set<object>)
    requires x !! z
    ensures x + (y - z) == (x + y) - z
  {
  }

  lemma CellsSplice(spine: seq<KeyNode>, keys: seq<KeyText>, i: nat, r: set<object>, s: set<object>)
    requires |spine| == |keys| && i < |spine| && Distinct(spine) && Cells(spine, keys, r)
    requires s == r - Parts(spine[i])
    ensures Cells(spine[..i] + spine[i + 1..], keys[..i] + keys[i + 1..], s)
  {
    DistinctOthers(spine, i);
    var t := spine[..i] + spine[i + 1..];
    forall j | 0 <= j < |t| ensures t[j] in s && t[j].key in s {
      assert t[j] == if j < i then spine[j] else spine[j + 1];
    }
  }

  /** Once its predecessor skips a node, the remaining nodes are linked. */
  lemma LinksSplice(spine: seq<KeyNode>, i: nat)
    requires i < |spine|
    requires forall j {:trigger spine[j].next} :: 0 <= j < |spine| ==>
               spine[j].next == NodeAt(spine, if j + 1 == i then i + 1 else j + 1)
    ensures Links(spine[..i] + spine[i + 1..])
  {
  }

  lemma CellsPrepend(node: KeyNode, spine: seq<KeyNode>, key: KeyText, keys: seq<KeyText>, r: set<object>,
      s: set<object>)
    requires |spine| == |keys| && Cells(spine, keys, r)
    requires Parts(node) <= s && r <= s && OwnCopy(node) && node.key.text == key
    ensures Cells([node] + spine, [key] + keys, s)
  {
  }

  lemma LinksPrepend(node: KeyNode, spine: seq<KeyNode>)
    requires Links(spine) && node.next == NodeAt(spine, 0)
    ensures Links([node] + spine)
  {
  }

  /**
   * `head` starts a list of the nodes `spine` holding `keys`, and `r` is `list` with everything it
   * is made of.
   */
  ghost predicate Shape(list: object, head: KeyNode?, spine: seq<KeyNode>, keys: seq<KeyText>, r: set<object>)
    reads spine`key, spine`next
  {
    && |spine| == |keys|
    && r == {list} + Objects(spine)
    && Distinct(spine)
    && head == NodeAt(spine, 0)
    && Cells(spine, keys, r)
    && Links(spine)
  }

  lemma ShapePrepend(list: object, node: KeyNode, spine: seq<KeyNode>, key: KeyText, keys: seq<KeyText>, r: set<object>)
    requires Shape(list, node.next, spine, keys, r)
    requires node !in r && OwnCopy(node) && node.key.text == key
    ensures Shape(list, node, [node] + spine, [key] + keys, r + Parts(node))
  {
    assert node !in spine;
    DistinctPrepend(node, spine);
    CellsPrepend(node, spine, key, keys, r, r + Parts(node));
    LinksPrepend(node, spine);
    assert ([node] + spine)[1..] == spine;
  }

  /** Leading the links past one node takes exactly that node and its copy out of the list. */
  lemma ShapeBypass(list: object, head: KeyNode?, spine: seq<KeyNode>, keys: seq<KeyText>, i: nat, r: set<object>)
    requires |spine| == |keys| && i < |spine| && r == {list} + Objects(spine)
    requires Distinct(spine) && Cells(spine, keys, r) && list != spine[i] && list != spine[i].key
    requires head == NodeAt(spine, if i == 0 then 1 else 0)
    requires forall j {:trigger spine[j].next} :: 0 <= j < |spine| ==>
               spine[j].next == NodeAt(spine, if j + 1 == i then i + 1 else j + 1)
    ensures Shape(list, head, spine[..i] + spine[i + 1..], keys[..i] + keys[i + 1..], r - Parts(spine[i]))
  {
    DistinctSplice(spine, i);
    ObjectsSplice(spine, i);
    CellsSplice(spine, keys, i, r, r - Parts(spine[i]));
    LinksSplice(spine, i);
  }

  class KeyList {
    var head: KeyNode?
    var count: uint32

    /** The nodes in list order, and the keys they hold. */
    ghost var spine: seq<KeyNode>
    ghost var keys: seq<KeyText>

    /** The list, its nodes, their key copies, and nothing else. */
    ghost var Repr: set<object>

    ghost predicate Valid()
      reads this, Repr
      ensures Valid() ==> this in Repr
    {
      && this in Repr
      && (forall n :: n in spine ==> n in Repr)
      && Shape(this, head, spine, keys, Repr)
      && count == Wrapped(|keys|)
    }

    /** A zero-filled list. */
    constructor ()
      ensures Valid() && keys == [] && Repr == {this}
    {
      head, count := null, 0;
      spine, keys := [], [];
      Repr := {this};
    }

    /** `init_key_list`: whatever the list held, it is empty now and owns nothing but itself. */
    method Init()
      modifies this
      ensures Valid() && keys == [] && Repr == {this} && head == null && count == 0
    {
      head, count := null, 0;
      spine, keys := [], [];
      Repr := {this};
    }

    method KeyExistsInSet(key: KeyText) returns (found: bool)
      requires Valid()
      ensures found == (key in keys)
    {
      var current := head;
      ghost var i := 0;
      while current != null
        invariant 0 <= i <= |spine| && current == NodeAt(spine, i)
        invariant key !in keys[..i]
        decreases |spine| - i
      {
        if current.key.text == key {
          assert keys[i] == key;
          return true;
        }
        current, i := current.next, i + 1;
      }
      assert keys[..i] == keys;
      return false;
    }

    /** Prepends a node; with no room for it nothing changes. */
    method AddKeyToSet(key: KeyText, calls: NodeCalls, heap: Heap) returns (res: TeeResult)
      requires Valid() && heap.Valid() && Repr <= heap.live && heap !in Repr
      modifies this, heap
      ensures heap.Valid() && old(heap.tracked) <= heap.tracked
      ensures Valid()
      ensures res == if calls.node && calls.key then Success else OutOfMemory
      ensures keys == if res == Success then [key] + old(keys) else old(keys)
      ensures count == |keys| % 0x1_0000_0000
      ensures old(Repr) <= Repr && fresh(Repr - old(Repr))
      ensures res != Success ==> Repr == old(Repr)
      ensures Repr <= heap.live && heap.live - Repr == old(heap.live - Repr)
    {
      var node := CreateKeyNode(key, calls, heap);
      if node == null {
        return OutOfMemory;
      }
      Prepend(node, key);
      return Success;
    }

    /** The shape of a list depends on its nodes alone. */
    twostate lemma ShapeKept()
      requires old(Shape(this, head, spine, keys, Repr)) && unchanged(old(spine))
      ensures Shape(this, old(head), old(spine), old(keys), old(Repr))
    {
    }

    twostate lemma StillShaped()
      requires old(Shape(this, head, spine, keys, Repr)) && unchanged(old(spine))
      requires head == old(head) && spine == old(spine) && keys == old(keys) && Repr == old(Repr)
      ensures Shape(this, head, spine, keys, Repr)
    {
    }

    /** Puts a new node in front. */
    method Prepend(node: KeyNode, ghost key: KeyText)
      requires Valid() && node !in Repr && node.key != null && node.key !in Repr
      requires node.key.owner == node && node.key.text == key
      modifies this, node
      ensures Valid()
      ensures keys == [key] + old(keys)
      ensures Repr == old(Repr) + old(Parts(node))
    {
      node.next := head;
      head := node;
      WrappedStep(|keys|);
      count := (count + 1) % WORD;
      ghost var s, k, r := spine, keys, Repr;
      spine, keys, Repr := [node] + s, [key] + k, r + Parts(node);
      ShapeKept();
      ShapePrepend(this, node, s, key, k, r);
    }

    /** Takes the node at position `i` out of the list and frees it. */
    method Unlink(prev: KeyNode?, current: KeyNode, ghost i: nat, heap: Heap)
      requires Valid() && heap.Valid() && Repr <= heap.live && heap !in Repr
      requires i < |spine| && current == spine[i] && prev == if i == 0 then null else spine[i - 1]
      modifies Repr, heap
      ensures heap.Valid() && heap.tracked == old(heap.tracked)
      ensures Valid()
      ensures keys == old(keys[..i] + keys[i + 1..]) && spine == old(spine[..i] + spine[i + 1..])
      ensures Repr <= old(Repr) && Repr == old(Repr) - old(Parts(current))
      ensures Repr <= heap.live && heap.live - Repr == old(heap.live - Repr)
    {
      Shrink(heap.live, Repr, Parts(current));
      Bypass(prev, current, i);
      Discard(current, heap);
    }

    /** Frees a node that is no longer linked, and `count--`. */
    method Discard(node: KeyNode, heap: Heap)
      requires this in Repr && (forall n :: n in spine ==> n in Repr) && Shape(this, head, spine, keys, Repr)
      requires count == Wrapped(|keys| + 1)
      requires heap.Valid() && heap !in Repr && node.key != null && Parts(node) <= heap.live
      modifies this`count, heap
      ensures heap.Valid() && heap.tracked == old(heap.tracked) && heap.live == old(heap.live) - old(Parts(node))
      ensures Valid()
    {
      FreeKeyNode(node, heap);
      WrappedStep(|keys|);
      count := (count - 1) % WORD;
      StillShaped();
    }

    /** Leads the link to the node at position `i` past it. */
    method Relink(prev: KeyNode?, current: KeyNode, ghost i: nat)
      requires Valid()
      requires i < |spine| && current == spine[i] && prev == if i == 0 then null else spine[i - 1]
      modifies this`head, spine`next
      ensures head == NodeAt(spine, if i == 0 then 1 else 0)
      ensures forall j {:trigger spine[j].next} :: 0 <= j < |spine| ==>
                spine[j].next == NodeAt(spine, if j + 1 == i then i + 1 else j + 1)
    {
      DistinctOthers(spine, if i == 0 then 0 else i - 1);
      if prev == null {
        head := current.next;
      } else {
        prev.next := current.next;
      }
    }

    /** The list without the node at position `i`. */
    method Bypass(prev: KeyNode?, current: KeyNode, ghost i: nat)
      requires Valid()
      requires i < |spine| && current == spine[i] && prev == if i == 0 then null else spine[i - 1]
      modifies Repr
      ensures this in Repr && (forall n :: n in spine ==> n in Repr) && Shape(this, head, spine, keys, Repr)
      ensures keys == old(keys[..i] + keys[i + 1..]) && spine == old(spine[..i] + spine[i + 1..]) && count == old(count)
      ensures Repr == old(Repr) - old(Parts(current)) && current.key == old(current.key)
    {
      ghost var s, k, r := spine, keys, Repr;
      Relink(prev, current, i);
      spine, keys, Repr := s[..i] + s[i + 1..], k[..i] + k[i + 1..], r - Parts(current);
      ShapeBypass(this, head, s, k, i, r);
    }

    method RemoveKeyFromSet(key: KeyText, heap: Heap) returns (res: TeeResult)
      requires Valid() && heap.Valid() && Repr <= heap.live && heap !in Repr
      modifies Repr, heap
      ensures heap.Valid() && old(heap.tracked) <= heap.tracked
      ensures Valid()
      ensures res == if key in old(keys) then Success else ItemNotFound
      ensures keys == RemoveFirst(old(keys), key)
      ensures count == |keys| % 0x1_0000_0000
      ensures Repr <= old(Repr)
      ensures key !in old(keys) ==> Repr == old(Repr)
      ensures key in old(keys) ==>
                exists i :: 0 <= i < |old(spine)| && spine == old(spine)[..i] + old(spine)[i + 1..]
                            && Repr == old(Repr) - old(Parts(spine[i]))
      ensures Repr <= heap.live && heap.live - Repr == old(heap.live - Repr)
    {
      var current, prev: KeyNode? := head, null;
      ghost var i := 0;
      while current != null
        invariant 0 <= i <= |spine| && current == NodeAt(spine, i)
        invariant prev == if i == 0 then null else spine[i - 1]
        invariant key !in keys[..i]
        decreases |spine| - i
      {
        if current.key.text == key {
          RemoveFirstAt(keys, key, i);
          assert keys[i] == key;
          Unlink(prev, current, i, heap);
          return Success;
        }
        prev, current, i := current, current.next, i + 1;
      }
      RemoveFirstAt(keys, key, i);
      assert keys[..i] == keys;
      return ItemNotFound;
    }

    method FindAndRemoveKey(key: KeyText, heap: Heap) returns (res: TeeResult, wasFound: bool)
      requires Valid() && heap.Valid() && Repr <= heap.live && heap !in Repr
      modifies Repr, heap
      ensures heap.Valid() && old(heap.tracked) <= heap.tracked
      ensures Valid()
      ensures res == Success && wasFound == (key in old(keys))
      ensures keys == RemoveFirst(old(keys), key)
      ensures count == |keys| % 0x1_0000_0000
      ensures Repr <= old(Repr)
      ensures key !in old(keys) ==> Repr == old(Repr)
      ensures key in old(keys) ==>
                exists i :: 0 <= i < |old(spine)| && spine == old(spine)[..i] + old(spine)[i + 1..]
                            && Repr == old(Repr) - old(Parts(spine[i]))
      ensures Repr <= heap.live && heap.live - Repr == old(heap.live - Repr)
    {
      var current, prev: KeyNode? := head, null;
      ghost var i := 0;
      while current != null
        invariant 0 <= i <= |spine| && current == NodeAt(spine, i)
        invariant prev == if i == 0 then null else spine[i - 1]
        invariant key !in keys[..i]
        decreases |spine| - i
      {
        if current.key.text == key {
          RemoveFirstAt(keys, key, i);
          assert keys[i] == key;
          Unlink(prev, current, i, heap);
          return Success, true;
        }
        prev, current, i := current, current.next, i + 1;
      }
      RemoveFirstAt(keys, key, i);
      assert keys[..i] == keys;
      return Success, false;
    }

    /** Frees every node, reading each link before its node goes. */
    method CleanupKeyList(heap: Heap)
      requires Valid() && heap.Valid() && Repr <= heap.live && heap !in Repr
      modifies this, heap
      ensures heap.Valid() && heap.tracked == old(heap.tracked)
      ensures Valid() && keys == [] && Repr == {this} && head == null && count == 0
      ensures Repr <= heap.live && heap.live - Repr == old(heap.live - Repr)
    {
      var current := head;
      ghost var i := 0;
      ghost var outside := heap.live - Repr;
      assert spine[0..] == spine;
      while current != null
        invariant 0 <= i <= |spine| && current == NodeAt(spine, i)
        invariant heap.live == outside + {this} + Objects(spine[i..])
        invariant heap.Valid() && heap.tracked == old(heap.tracked)
        decreases |spine| - i
        modifies heap
      {
        var next := current.next;
        DistinctOthers(spine, i);
        ObjectsApart(current, spine[i + 1..]);
        assert spine[i..][1..] == spine[i + 1..];
        Peel(outside + {this}, Parts(current), Objects(spine[i + 1..]));
        FreeKeyNode(current, heap);
        current, i := next, i + 1;
      }
      Init();
    }
  }

  /** Allocates a zero-filled list. */
  method AllocateKeyList(heap: Heap) returns (list: KeyList)
    requires heap.Valid()
    modifies heap
    ensures heap.Valid() && old(heap.tracked) <= heap.tracked
    ensures fresh(list) && list.Valid() && list.keys == [] && list.Repr == {list}
    ensures heap.live == old(heap.live) + {list}
  {
    list := new KeyList();
    heap.Track(list);
  }

  /** Frees the nodes of a list and then the list. */
  method FreeKeyList(list: KeyList?, heap: Heap)
    requires heap.Valid() && (list != null ==> list.Valid() && list.Repr <= heap.live && heap !in list.Repr)
    modifies list, heap
    ensures heap.Valid() && heap.tracked == old(heap.tracked)
    ensures heap.live == old(heap.live) - old(ListRepr(list))
  {
    if list != null {
      list.CleanupKeyList(heap);
      heap.Free(list);
    }
  }

  ghost function ListRepr(list: KeyList?): set<object>
    reads list
  {
    if list == null then {} else list.Repr
  }
}
