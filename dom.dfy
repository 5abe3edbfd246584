/**
 * An abstract view of the host document, reduced to what the core reads and
 * writes: the text of every element matching the game-name selector, and the
 * child lists of every element matching the tooltip-container selector, both
 * in document order. Each inserted element is a `Node` whose `handle` stands
 * for its JavaScript object identity, so that a reference captured before an
 * asynchronous step can be told apart from a later element with the same content.
 */
module Dom {
  import opened Wrappers

  /** An element: its `id` attribute, its own text and its child elements. */
  datatype Element = Element(id: string, text: string, children: seq<Element>)

  /** An element placed in the document, with its identity. */
  datatype Node = Node(handle: nat, elem: Element)

  /** The position of a child: the container's index and the index among its children. */
  datatype Pos = Pos(c: nat, k: nat)

  /** How an element is looked up: by `id` attribute, or by identity. */
  datatype Key = ById(id: string) | ByHandle(h: nat)

  /** The content of a document at one moment. */
  datatype Doc = Doc(labels: seq<Option<string>>, containers: seq<seq<Node>>, nextHandle: nat)

  predicate Matches(n: Node, key: Key)
  {
    match key
    case ById(id) => n.elem.id == id
    case ByHandle(h) => n.handle == h
  }

  predicate At(cs: seq<seq<Node>>, p: Pos)
  {
    p.c < |cs| && p.k < |cs[p.c]|
  }

  /** Index of the first child that matches `key`. */
  function FindIn(kids: seq<Node>, key: Key): (r: Option<nat>)
    ensures r.Some? ==> r.value < |kids| && Matches(kids[r.value], key)
    ensures r.None? ==> forall j :: 0 <= j < |kids| ==> !Matches(kids[j], key)
    decreases |kids|
  {
    if |kids| == 0 then None
    else if Matches(kids[0], key) then Some(0)
    else match FindIn(kids[1..], key)
      case None => None
      case Some(j) => Some(j + 1)
  }

  /** Position of the first node, in document order, that matches `key`. */
  function Find(cs: seq<seq<Node>>, key: Key): (r: Option<Pos>)
    ensures r.Some? ==> At(cs, r.value) && Matches(cs[r.value.c][r.value.k], key)
    ensures r.None? ==> forall i, j :: 0 <= i < |cs| && 0 <= j < |cs[i]| ==> !Matches(cs[i][j], key)
    decreases |cs|
  {
    if |cs| == 0 then None
    else match FindIn(cs[0], key)
      case Some(k) => Some(Pos(0, k))
      case None =>
        match Find(cs[1..], key)
        case None => None
        case Some(p) => Some(Pos(p.c + 1, p.k))
  }

  function CountIn(kids: seq<Node>, key: Key): nat
    decreases |kids|
  {
    if |kids| == 0 then 0
    else (if Matches(kids[0], key) then 1 else 0) + CountIn(kids[1..], key)
  }

  /** How many nodes of the document match `key`. */
  function Count(cs: seq<seq<Node>>, key: Key): nat
    decreases |cs|
  {
    if |cs| == 0 then 0 else CountIn(cs[0], key) + Count(cs[1..], key)
  }

  /** Every node of the document, counted with multiplicity. */
  function Nodes(cs: seq<seq<Node>>): multiset<Node>
    decreases |cs|
  {
    if |cs| == 0 then multiset{} else multiset(cs[0]) + Nodes(cs[1..])
  }

  /** `parent.appendChild(n)` for the container at index `c`. */
  function Appended(cs: seq<seq<Node>>, c: nat, n: Node): seq<seq<Node>>
    requires c < |cs|
  {
    cs[c := cs[c] + [n]]
  }

  /** `remove()` on the node at `p`. */
  function RemovedAt(cs: seq<seq<Node>>, p: Pos): seq<seq<Node>>
    requires At(cs, p)
  {
    cs[p.c := cs[p.c][..p.k] + cs[p.c][p.k + 1..]]
  }

  /** `existing.replaceWith(e)` for the node with handle `h`: a no-op when it is detached. */
  function Replaced(d: Doc, h: nat, e: Element): (r: Doc)
    ensures r.labels == d.labels && |r.containers| == |d.containers|
    ensures Find(d.containers, ByHandle(h)).None? ==> r == d
    ensures Find(d.containers, ByHandle(h)).None? <==> r.nextHandle == d.nextHandle
  {
    match Find(d.containers, ByHandle(h))
    case None => d
    case Some(p) =>
      var cs := d.containers;
      var n := Node(d.nextHandle, e);
      Doc(d.labels, cs[p.c := cs[p.c][p.k := n]], d.nextHandle + 1)
  }

  /**
   * Identity is unique: no two attached nodes share a handle, and every
   * attached handle is below the next one to be given out.
   */
  ghost predicate ValidDoc(d: Doc)
  {
    (forall h :: Count(d.containers, ByHandle(h)) <= 1) &&
    (forall h :: d.nextHandle <= h ==> Count(d.containers, ByHandle(h)) == 0)
  }

  // ---------------------------------------------------------------- lemmas

  /** `FindIn` returns the first match: no earlier child matches. */
  lemma {:induction false} FindInFirst(kids: seq<Node>, key: Key)
    ensures FindIn(kids, key).Some? ==> forall j :: 0 <= j < FindIn(kids, key).value ==> !Matches(kids[j], key)
    decreases |kids|
  {
    if |kids| > 0 && !Matches(kids[0], key) {
      FindInFirst(kids[1..], key);
    }
  }

  /**
   * `getElementById` returns the first match in document order: no node in
   * an earlier container, and no earlier child of its own container, matches.
   */
  lemma {:induction false} FindFirst(cs: seq<seq<Node>>, key: Key)
    ensures var r := Find(cs, key);
      r.Some? ==> (forall j :: 0 <= j < r.value.k ==> !Matches(cs[r.value.c][j], key)) &&
                  (forall i, j :: 0 <= i < r.value.c && 0 <= j < |cs[i]| ==> !Matches(cs[i][j], key))
    decreases |cs|
  {
    if |cs| > 0 {
      FindInFirst(cs[0], key);
      if FindIn(cs[0], key).None? {
        FindFirst(cs[1..], key);
        var r := Find(cs, key);
        if r.Some? {
          forall i, j | 0 <= i < r.value.c && 0 <= j < |cs[i]| ensures !Matches(cs[i][j], key) {
            if i > 0 {
              assert cs[i] == cs[1..][i - 1];
            }
          }
        }
      }
    }
  }

  lemma {:induction false} FindInCount(kids: seq<Node>, key: Key)
    ensures FindIn(kids, key).None? <==> CountIn(kids, key) == 0
    ensures CountIn(kids, key) <= |kids|
    decreases |kids|
  {
    if |kids| > 0 {
      FindInCount(kids[1..], key);
    }
  }

  /** A key is absent from the document exactly when no node matches it. */
  lemma {:induction false} FindCount(cs: seq<seq<Node>>, key: Key)
    ensures Find(cs, key).None? <==> Count(cs, key) == 0
    decreases |cs|
  {
    if |cs| > 0 {
      FindInCount(cs[0], key);
      FindCount(cs[1..], key);
    }
  }

  lemma {:induction false} CountInConcat(a: seq<Node>, b: seq<Node>, key: Key)
    ensures CountIn(a + b, key) == CountIn(a, key) + CountIn(b, key)
    decreases |a|
  {
    if |a| == 0 {
      assert a + b == b;
    } else {
      assert (a + b)[0] == a[0];
      assert (a + b)[1..] == a[1..] + b;
      CountInConcat(a[1..], b, key);
    }
  }

  /** Replacing one child list changes the count by exactly the difference of the two lists. */
  lemma {:induction false} CountUpdate(cs: seq<seq<Node>>, c: nat, x: seq<Node>, key: Key)
    requires c < |cs|
    ensures Count(cs[c := x], key) + CountIn(cs[c], key) == Count(cs, key) + CountIn(x, key)
    decreases |cs|
  {
    var cs' := cs[c := x];
    if c == 0 {
      assert cs'[1..] == cs[1..];
    } else {
      assert cs'[1..] == cs[1..][c - 1 := x];
      CountUpdate(cs[1..], c - 1, x, key);
    }
  }

  /** Replacing one child list changes the nodes by exactly the difference of the two lists. */
  lemma {:induction false} NodesUpdate(cs: seq<seq<Node>>, c: nat, x: seq<Node>)
    requires c < |cs|
    ensures Nodes(cs[c := x]) + multiset(cs[c]) == Nodes(cs) + multiset(x)
    decreases |cs|
  {
    var cs' := cs[c := x];
    if c == 0 {
      assert cs'[1..] == cs[1..];
    } else {
      var t, t' := cs[1..], cs[1..][c - 1 := x];
      assert cs'[1..] == t';
      assert t[c - 1] == cs[c];
      NodesUpdate(t, c - 1, x);
      calc {
        Nodes(cs') + multiset(cs[c]);
        multiset(cs[0]) + Nodes(t') + multiset(cs[c]);
        multiset(cs[0]) + (Nodes(t') + multiset(t[c - 1]));
        multiset(cs[0]) + (Nodes(t) + multiset(x));
        Nodes(cs) + multiset(x);
      }
    }
  }

  /** When at most one node matches, that node is the one `Find` returns. */
  lemma {:induction false} FindInUnique(kids: seq<Node>, key: Key, k: nat)
    requires k < |kids| && Matches(kids[k], key) && CountIn(kids, key) <= 1
    ensures FindIn(kids, key) == Some(k)
    decreases |kids|
  {
    if k > 0 {
      if Matches(kids[0], key) {
        assert kids[k] == kids[1..][k - 1];
        ExistsCountsIn(kids[1..], key, k - 1);
        assert false;
      }
      FindInUnique(kids[1..], key, k - 1);
    }
  }

  lemma {:induction false} ExistsCountsIn(kids: seq<Node>, key: Key, k: nat)
    requires k < |kids| && Matches(kids[k], key)
    ensures CountIn(kids, key) >= 1
    decreases |kids|
  {
    if k > 0 {
      ExistsCountsIn(kids[1..], key, k - 1);
    }
  }

  lemma {:induction false} ExistsCounts(cs: seq<seq<Node>>, key: Key, p: Pos)
    requires At(cs, p) && Matches(cs[p.c][p.k], key)
    ensures Count(cs, key) >= 1
    ensures CountIn(cs[p.c], key) <= Count(cs, key)
    decreases |cs|
  {
    if p.c == 0 {
      ExistsCountsIn(cs[0], key, p.k);
    } else {
      ExistsCounts(cs[1..], key, Pos(p.c - 1, p.k));
    }
  }

  lemma {:induction false} CountInBelow(cs: seq<seq<Node>>, key: Key, c: nat)
    requires c < |cs|
    ensures CountIn(cs[c], key) <= Count(cs, key)
    decreases |cs|
  {
    if c > 0 {
      CountInBelow(cs[1..], key, c - 1);
    }
  }

  lemma {:induction false} FindUnique(cs: seq<seq<Node>>, key: Key, p: Pos)
    requires At(cs, p) && Matches(cs[p.c][p.k], key) && Count(cs, key) <= 1
    ensures Find(cs, key) == Some(p)
    decreases |cs|
  {
    if p.c == 0 {
      FindInUnique(cs[0], key, p.k);
    } else {
      if CountIn(cs[0], key) > 0 {
        ExistsCounts(cs[1..], key, Pos(p.c - 1, p.k));
        assert false;
      }
      FindInCount(cs[0], key);
      FindUnique(cs[1..], key, Pos(p.c - 1, p.k));
    }
  }

  lemma CountInSingle(n: Node, key: Key)
    ensures CountIn([n], key) == if Matches(n, key) then 1 else 0
  {
    assert [n][1..] == [];
  }

  lemma {:induction false} CountInRemoved(kids: seq<Node>, k: nat, key: Key)
    requires k < |kids|
    ensures CountIn(kids[..k] + kids[k + 1..], key) + (if Matches(kids[k], key) then 1 else 0) == CountIn(kids, key)
  {
    assert kids == kids[..k] + [kids[k]] + kids[k + 1..];
    CountInConcat(kids[..k] + [kids[k]], kids[k + 1..], key);
    CountInConcat(kids[..k], [kids[k]], key);
    CountInConcat(kids[..k], kids[k + 1..], key);
    CountInSingle(kids[k], key);
  }

  lemma {:induction false} CountInSet(kids: seq<Node>, k: nat, n: Node, key: Key)
    requires k < |kids|
    ensures CountIn(kids[k := n], key) + (if Matches(kids[k], key) then 1 else 0)
         == CountIn(kids, key) + (if Matches(n, key) then 1 else 0)
  {
    assert kids == kids[..k] + [kids[k]] + kids[k + 1..];
    assert kids[k := n] == kids[..k] + [n] + kids[k + 1..];
    CountInConcat(kids[..k] + [kids[k]], kids[k + 1..], key);
    CountInConcat(kids[..k], [kids[k]], key);
    CountInConcat(kids[..k] + [n], kids[k + 1..], key);
    CountInConcat(kids[..k], [n], key);
    CountInSingle(kids[k], key);
    CountInSingle(n, key);
  }

  /** Removing a node lowers the count of every key it matches by one and leaves the rest. */
  lemma RemovedCount(cs: seq<seq<Node>>, p: Pos, key: Key)
    requires At(cs, p)
    ensures Count(RemovedAt(cs, p), key) + (if Matches(cs[p.c][p.k], key) then 1 else 0) == Count(cs, key)
  {
    CountInRemoved(cs[p.c], p.k, key);
    CountUpdate(cs, p.c, cs[p.c][..p.k] + cs[p.c][p.k + 1..], key);
  }

  /** Appending a node raises the count of every key it matches by one and leaves the rest. */
  lemma AppendedCount(cs: seq<seq<Node>>, c: nat, n: Node, key: Key)
    requires c < |cs|
    ensures Count(Appended(cs, c, n), key) == Count(cs, key) + (if Matches(n, key) then 1 else 0)
  {
    CountInConcat(cs[c], [n], key);
    CountInSingle(n, key);
    CountUpdate(cs, c, cs[c] + [n], key);
  }

  /** Putting `n` in place of the node at `p`. */
  lemma SetCount(cs: seq<seq<Node>>, p: Pos, n: Node, key: Key)
    requires At(cs, p)
    ensures Count(cs[p.c := cs[p.c][p.k := n]], key) + (if Matches(cs[p.c][p.k], key) then 1 else 0)
         == Count(cs, key) + (if Matches(n, key) then 1 else 0)
  {
    CountInSet(cs[p.c], p.k, n, key);
    CountUpdate(cs, p.c, cs[p.c][p.k := n], key);
  }

  /** Removing a node takes exactly that node out of the document. */
  lemma RemovedNodes(cs: seq<seq<Node>>, p: Pos)
    requires At(cs, p)
    ensures Nodes(RemovedAt(cs, p)) + multiset{cs[p.c][p.k]} == Nodes(cs)
  {
    var kids, k := cs[p.c], p.k;
    assert kids == kids[..k] + [kids[k]] + kids[k + 1..];
    assert multiset(kids[..k] + kids[k + 1..]) + multiset{kids[k]} == multiset(kids);
    var rest := kids[..k] + kids[k + 1..];
    NodesUpdate(cs, p.c, rest);
    var r := Nodes(RemovedAt(cs, p));
    assert r + multiset(rest) + multiset{kids[k]} == Nodes(cs) + multiset(rest);
    forall n ensures (r + multiset{kids[k]})[n] == Nodes(cs)[n] {
      assert (r + multiset(rest) + multiset{kids[k]})[n] == (Nodes(cs) + multiset(rest))[n];
    }
  }

  /** Every placed node is among the document's nodes. */
  lemma {:induction false} AtInNodes(cs: seq<seq<Node>>, p: Pos)
    requires At(cs, p)
    ensures cs[p.c][p.k] in Nodes(cs)
    decreases |cs|
  {
    if p.c > 0 {
      AtInNodes(cs[1..], Pos(p.c - 1, p.k));
    }
  }

  /** `replaceWith` keeps the document's identities unique. */
  lemma ReplacedValid(d: Doc, h: nat, e: Element)
    requires ValidDoc(d)
    ensures ValidDoc(Replaced(d, h, e))
  {
    match Find(d.containers, ByHandle(h))
    case None =>
    case Some(p) =>
      var n := Node(d.nextHandle, e);
      forall g ensures Count(Replaced(d, h, e).containers, ByHandle(g)) <= 1
        && (d.nextHandle + 1 <= g ==> Count(Replaced(d, h, e).containers, ByHandle(g)) == 0)
      {
        SetCount(d.containers, p, n, ByHandle(g));
      }
  }

  /** Appending a node with a fresh handle keeps the document's identities unique. */
  lemma AppendedValid(d: Doc, c: nat, e: Element)
    requires ValidDoc(d) && c < |d.containers|
    ensures ValidDoc(Doc(d.labels, Appended(d.containers, c, Node(d.nextHandle, e)), d.nextHandle + 1))
  {
    forall g ensures Count(Appended(d.containers, c, Node(d.nextHandle, e)), ByHandle(g)) <= 1
      && (d.nextHandle + 1 <= g ==> Count(Appended(d.containers, c, Node(d.nextHandle, e)), ByHandle(g)) == 0)
    {
      AppendedCount(d.containers, c, Node(d.nextHandle, e), ByHandle(g));
    }
  }

  /** Removing a node keeps the document's identities unique. */
  lemma RemovedValid(d: Doc, p: Pos)
    requires ValidDoc(d) && At(d.containers, p)
    ensures ValidDoc(Doc(d.labels, RemovedAt(d.containers, p), d.nextHandle))
  {
    forall g ensures Count(RemovedAt(d.containers, p), ByHandle(g)) <= Count(d.containers, ByHandle(g)) {
      RemovedCount(d.containers, p, ByHandle(g));
    }
  }

  /** The host document, whose content the core reads and changes in place. */
  class Document {
    var labels: seq<Option<string>>
    var containers: seq<seq<Node>>
    var nextHandle: nat

    constructor (d: Doc)
      ensures Content() == d
    {
      labels, containers, nextHandle := d.labels, d.containers, d.nextHandle;
    }

    function Content(): Doc
      reads this
    {
      Doc(labels, containers, nextHandle)
    }

    /** `parent.appendChild(e)` on the container at index `c`; `e` is a freshly created element. */
    method AppendChild(c: nat, e: Element) returns (n: Node)
      requires c < |containers|
      modifies this
      ensures n == Node(old(nextHandle), e)
      ensures Content() == Doc(old(labels), Appended(old(containers), c, n), old(nextHandle) + 1)
    {
      n := Node(nextHandle, e);
      containers := containers[c := containers[c] + [n]];
      nextHandle := nextHandle + 1;
    }

    /** `node.remove()` on the node at `p`. */
    method Remove(p: Pos)
      requires At(containers, p)
      modifies this
      ensures Content() == old(Content()).(containers := RemovedAt(old(containers), p))
    {
      containers := containers[p.c := containers[p.c][..p.k] + containers[p.c][p.k + 1..]];
    }

    /** `existing.replaceWith(e)` where `existing` is the element with handle `h`. */
    method ReplaceWith(h: nat, e: Element)
      modifies this
      ensures Content() == Replaced(old(Content()), h, e)
    {
      var p := Find(containers, ByHandle(h));
      if p.Some? {
        var q := p.value;
        containers := containers[q.c := containers[q.c][q.k := Node(nextHandle, e)]];
        nextHandle := nextHandle + 1;
      }
    }
  }
}
