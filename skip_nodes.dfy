/** Nodes of the skip list: one element and one forward link per level the node takes part in. */
module SkipNodes {

  /** The highest level of the structure; the head node always has this level. */
  const MAX: nat := 5

  /** A forward link: null, or the address of a node in the list's node store. */
  datatype Link = Nil | To(addr: nat)

  /** The runtime exceptions the source can raise on the modelled paths. */
  datatype Fault = IndexOutOfBounds | NoSuchElement

  datatype Result<T> = Ok(value: T) | Err(fault: Fault)

  /** A node: its element and its link array, whose length is the node's level plus one. */
  datatype Node = Node(data: int, next: seq<Link>)

  /**
   * The level of a node, fixed when the node is created: its top link can be read, every
   * link above it is null as intended, and `getNext` as written throws one level above it.
   */
  function GetLevel(n: Node): (r: int)
    ensures -1 <= r < |n.next|
    ensures 0 <= r ==> GetNext(n, r) == Ok(n.next[r])
    ensures forall l: nat :: r < l ==> GetNextGuarded(n, l) == Nil
    ensures GetNext(n, r + 1) == Err(IndexOutOfBounds)
  {
    |n.next| - 1
  }

  /** The node constructor: a fresh link array of `level + 1` null links. */
  function NewNode(level: nat, data: int): (n: Node)
    ensures GetLevel(n) == level && n.data == data
    ensures forall l :: 0 <= l < |n.next| ==> n.next[l] == Nil
  {
    Node(data, seq(level + 1, _ => Nil))
  }

  /**
   * The level drawn for a new node from a uniform draw in [0, MAX)
   * (the source adds one to the draw).
   */
  function RandomLevel(draw: int): (level: int)
    requires 0 <= draw < MAX
    ensures 1 <= level <= MAX
  {
    draw + 1
  }

  /**
   * `getNext` as written: the guard returns null only for levels strictly beyond the
   * array's length, so the level equal to the length (and any negative level) reaches
   * the array access and throws.
   */
  function GetNext(n: Node, level: int): (r: Result<Link>)
    ensures r.Err? <==> level < 0 || level == |n.next|
    ensures 0 <= level < |n.next| ==> r == Ok(n.next[level])
    ensures level > |n.next| ==> r == Ok(Nil)
  {
    if level > |n.next| then Ok(Nil)
    else if 0 <= level < |n.next| then Ok(n.next[level])
    else Err(IndexOutOfBounds)
  }

  /** `getNext` with the guard the source evidently intended (`level >= next.length`). */
  function GetNextGuarded(n: Node, level: nat): (r: Link)
    ensures GetNext(n, level).Ok? ==> r == GetNext(n, level).value
    ensures level >= |n.next| ==> r == Nil
  {
    if level >= |n.next| then Nil else n.next[level]
  }

  /** The guard as written lets the read at index `next.length` through; for any node it throws. */
  lemma GetNextReadsPastEnd(n: Node)
    ensures GetNext(n, GetLevel(n) + 1) == Err(IndexOutOfBounds)
    ensures GetNextGuarded(n, GetLevel(n) + 1) == Nil
  {
  }
}
