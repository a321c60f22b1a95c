/**
 The diagrams of a QGen model, the tree they unfold to, and the numbering that
 makes the tree visible to an outline view which only knows intervals.
 */
module DiagramTree {
  import opened Wrappers

  /** A reference to a diagram, as listed among the children of another one. */
  datatype Child = Child(name: string, diagram: string)

  /** One row of the diagram index: a diagram and the references it holds. */
  datatype Entry = Entry(id: string, children: seq<Child>)

  /** The children of the first entry for `id`, if there is one. */
  function Find(index: seq<Entry>, id: string): Option<seq<Child>> {
    if index == [] then None
    else if index[0].id == id then Some(index[0].children)
    else Find(index[1..], id)
  }

  predicate Known(index: seq<Entry>, id: string) { Find(index, id).Some? }

  /** The references in `cs`, held by `owner`, go down in `rank`. */
  ghost predicate Below(index: seq<Entry>, rank: string -> nat, owner: string, cs: seq<Child>) {
    forall c :: c in cs && Find(index, c.diagram).Some? ==> rank(c.diagram) < rank(owner)
  }

  /** The references between indexed diagrams form no cycle: `rank` witnesses it. */
  ghost predicate Ranked(index: seq<Entry>, rank: string -> nat) {
    forall id {:trigger Known(index, id)} ::
      Known(index, id) ==> Below(index, rank, id, Find(index, id).value)
  }

  /** An ordered list of trees: the first tree with its kids, and the other trees. */
  datatype Forest = Nil | Tree(name: string, diagram: string, kids: Forest, rest: Forest)

  /** What an outline shows of a diagram reference: an interval of locations. */
  datatype Construct = Construct(name: string, diagram: string, start: nat, end: nat)

  /** The references `cs` of `owner`, each replaced by its diagram; unknown diagrams vanish. */
  ghost function Unfold(index: seq<Entry>, rank: string -> nat, owner: string, cs: seq<Child>): Forest
    requires Ranked(index, rank) && Below(index, rank, owner, cs)
    decreases rank(owner), |cs|
  {
    if cs == [] then Nil
    else
      assert cs[0] in cs && (Find(index, cs[0].diagram).Some? ==> Known(index, cs[0].diagram));
      var rest := Unfold(index, rank, owner, cs[1..]);
      match Find(index, cs[0].diagram)
      case None => rest
      case Some(below) =>
        Tree(cs[0].name, cs[0].diagram, Unfold(index, rank, cs[0].diagram, below), rest)
  }

  /** The whole model: the first entry of the index is its root. */
  ghost function Model(index: seq<Entry>, rank: string -> nat): Forest
    requires |index| > 0 && Ranked(index, rank)
  {
    var root := index[0];
    assert Known(index, root.id) && Find(index, root.id) == Some(root.children);
    Tree(root.id, root.id, Unfold(index, rank, root.id, root.children), Nil)
  }

  ghost function Size(f: Forest): nat {
    if f.Nil? then 0 else 1 + Size(f.kids) + Size(f.rest)
  }

  /** The construct of the first tree of `f`, when numbering starts at `s`. */
  ghost function Head(f: Forest, s: nat): Construct
    requires f.Tree?
  {
    Construct(f.name, f.diagram, s, s + 1 + 2 * Size(f.kids))
  }

  /** Every node of `f` in post-order, entered and left on consecutive numbers from `s`. */
  ghost function Number(f: Forest, s: nat): seq<Construct> {
    if f.Nil? then []
    else Number(f.kids, s + 1) + [Head(f, s)] + Number(f.rest, s + 2 + 2 * Size(f.kids))
  }

  /** The constructs of the top-level trees only. */
  ghost function Roots(f: Forest, s: nat): seq<Construct> {
    if f.Nil? then [] else [Head(f, s)] + Roots(f.rest, s + 2 + 2 * Size(f.kids))
  }

  /** The references of `cs` to diagrams of the index, in order. */
  function Existing(index: seq<Entry>, cs: seq<Child>): seq<Child> {
    if cs == [] then []
    else if Known(index, cs[0].diagram) then [cs[0]] + Existing(index, cs[1..])
    else Existing(index, cs[1..])
  }

  /** The constructs `cs` show the references `refs`. */
  ghost predicate Shows(cs: seq<Construct>, refs: seq<Child>) {
    |cs| == |refs| && forall k :: 0 <= k < |cs| ==> cs[k].name == refs[k].name && cs[k].diagram == refs[k].diagram
  }

  lemma {:induction false} RootsAreReferences(index: seq<Entry>, rank: string -> nat, owner: string, cs: seq<Child>,
                                              s: nat)
    requires Ranked(index, rank) && Below(index, rank, owner, cs)
    ensures Shows(Roots(Unfold(index, rank, owner, cs), s), Existing(index, cs))
    decreases |cs|
  {
    if cs != [] {
      var f := Unfold(index, rank, owner, cs);
      var t := if Known(index, cs[0].diagram) then s + 2 + 2 * Size(f.kids) else s;
      RootsAreReferences(index, rank, owner, cs[1..], t);
    }
  }

  /** What is below a node of the unfolded model unfolds from the entry of its diagram. */
  lemma {:induction false} KidsUnfoldEntry(index: seq<Entry>, rank: string -> nat, owner: string, cs: seq<Child>,
                                           s: nat, c: Construct, kids: Forest)
    requires Ranked(index, rank) && Below(index, rank, owner, cs)
    requires IsNode(Unfold(index, rank, owner, cs), s, c, kids)
    ensures Known(index, c.diagram) && kids == Unfold(index, rank, c.diagram, Find(index, c.diagram).value)
    decreases rank(owner), |cs|
  {
    var f := Unfold(index, rank, owner, cs);
    var id := cs[0].diagram;
    assert cs[0] in cs;
    if Find(index, id).None? {
      KidsUnfoldEntry(index, rank, owner, cs[1..], s, c, kids);
    } else if c == Head(f, s) && kids == f.kids {
      assert Known(index, id);
    } else if IsNode(f.kids, s + 1, c, kids) {
      assert Known(index, id);
      KidsUnfoldEntry(index, rank, id, Find(index, id).value, s + 1, c, kids);
    } else {
      KidsUnfoldEntry(index, rank, owner, cs[1..], s + 2 + 2 * Size(f.kids), c, kids);
    }
  }

  /**
   The outline of a model: the root shows the first diagram, and the direct children of every
   construct show, in order, the references in the entry of its diagram, but for those without entry.
   */
  lemma ChildrenAreReferences(index: seq<Entry>, rank: string -> nat, c: Construct, kids: Forest)
    requires index != [] && Ranked(index, rank) && IsNode(Model(index, rank), 0, c, kids)
    ensures Head(Model(index, rank), 0).name == Head(Model(index, rank), 0).diagram == index[0].id
    ensures Known(index, c.diagram)
    ensures Shows(Roots(kids, c.start + 1), Existing(index, Find(index, c.diagram).value))
  {
    var root := index[0];
    assert Known(index, root.id) && Find(index, root.id) == Some(root.children);
    if !(c == Head(Model(index, rank), 0) && kids == Model(index, rank).kids) {
      assert IsNode(Unfold(index, rank, root.id, root.children), 1, c, kids);
      KidsUnfoldEntry(index, rank, root.id, root.children, 1, c, kids);
    }
    hide Unfold, Shows, Existing, Size, IsNode;
    RootsAreReferences(index, rank, c.diagram, Find(index, c.diagram).value, c.start + 1);
  }

  /** `c` is the construct of a node of `f`, and `kids` are the trees below that node. */
  ghost predicate IsNode(f: Forest, s: nat, c: Construct, kids: Forest) {
    f.Tree? &&
    (|| (c == Head(f, s) && kids == f.kids)
     || IsNode(f.kids, s + 1, c, kids)
     || IsNode(f.rest, s + 2 + 2 * Size(f.kids), c, kids))
  }

  // ----- the numbering theorems

  ghost predicate Inside(c: Construct, d: Construct) { d.start < c.start && c.end < d.end }

  ghost predicate Before(c: Construct, d: Construct) { c.start < c.end < d.start }

  /** A construct is listed after what it contains and after what is to its left, and nothing overlaps. */
  ghost predicate WellNested(cs: seq<Construct>) {
    forall i, j :: 0 <= i < j < |cs| ==> Inside(cs[i], cs[j]) || Before(cs[i], cs[j])
  }

  /** How many starts and ends in `cs` are the number `k`. */
  ghost function Uses(cs: seq<Construct>, k: int): nat {
    if cs == [] then 0
    else (if cs[0].start == k then 1 else 0) + (if cs[0].end == k then 1 else 0) + Uses(cs[1..], k)
  }

  lemma {:induction false} UsesAppend(a: seq<Construct>, b: seq<Construct>, k: int)
    ensures Uses(a + b, k) == Uses(a, k) + Uses(b, k)
  {
    if a == [] {
      assert a + b == b;
    } else {
      assert (a + b)[1..] == a[1..] + b;
      UsesAppend(a[1..], b, k);
    }
  }

  /** n nodes use 2n consecutive numbers, each exactly once, and no other number. */
  lemma {:induction false} NumbersOnce(f: Forest, s: nat, k: int)
    ensures |Number(f, s)| == Size(f)
    ensures Uses(Number(f, s), k) == if s <= k < s + 2 * Size(f) then 1 else 0
  {
    if f.Tree? {
      var h, t := Head(f, s), s + 2 + 2 * Size(f.kids);
      NumbersOnce(f.kids, s + 1, k);
      NumbersOnce(f.rest, t, k);
      UsesAppend(Number(f.kids, s + 1) + [h], Number(f.rest, t), k);
      UsesAppend(Number(f.kids, s + 1), [h], k);
    }
  }

  lemma {:induction false} NumberBounds(f: Forest, s: nat)
    ensures forall c :: c in Number(f, s) ==> s <= c.start < c.end < s + 2 * Size(f)
  {
    if f.Tree? {
      NumberBounds(f.kids, s + 1);
      NumberBounds(f.rest, s + 2 + 2 * Size(f.kids));
    }
  }

  lemma {:induction false} NumberNested(f: Forest, s: nat)
    ensures WellNested(Number(f, s))
  {
    if f.Tree? {
      var t := s + 2 + 2 * Size(f.kids);
      var a, b := Number(f.kids, s + 1), Number(f.rest, t);
      NumberNested(f.kids, s + 1);
      NumberNested(f.rest, t);
      NumberBounds(f.kids, s + 1);
      NumberBounds(f.rest, t);
      var cs := Number(f, s);
      forall i, j | 0 <= i < j < |cs| ensures Inside(cs[i], cs[j]) || Before(cs[i], cs[j]) {
        assert i < |a| ==> cs[i] == a[i] && a[i] in a;
        assert j > |a| ==> cs[j] == b[j - |a| - 1] && b[j - |a| - 1] in b;
        assert i > |a| ==> cs[i] == b[i - |a| - 1];
        assert j < |a| ==> cs[j] == a[j];
      }
    }
  }

  /** How the top-level trees of a forest follow each other, and where a node leaves its number. */
  ghost predicate Consecutive(cs: seq<Construct>, from: nat, to: nat) {
    if cs == [] then from == to
    else cs[0].start == from && Consecutive(cs[1..], cs[0].end + 1, to)
  }

  /**
   The locations obey the rule the navigation code relies on: a first child starts one after
   its parent starts, a next sibling one after the previous one ends, and the parent ends one
   after its last child, or one after its own start if it has none.
   */
  lemma {:induction false} ChildrenAreConsecutive(f: Forest, s: nat, c: Construct, kids: Forest)
    requires IsNode(f, s, c, kids)
    ensures Consecutive(Roots(kids, c.start + 1), c.start + 1, c.end)
    ensures c in Number(f, s) && c.end == c.start + 1 + 2 * Size(kids)
  {
    if c == Head(f, s) && kids == f.kids {
      RootsConsecutive(kids, s + 1);
    } else if IsNode(f.kids, s + 1, c, kids) {
      ChildrenAreConsecutive(f.kids, s + 1, c, kids);
    } else {
      ChildrenAreConsecutive(f.rest, s + 2 + 2 * Size(f.kids), c, kids);
    }
  }

  lemma {:induction false} RootsConsecutive(f: Forest, s: nat)
    ensures Consecutive(Roots(f, s), s, s + 2 * Size(f))
  {
    if f.Tree? {
      RootsConsecutive(f.rest, s + 2 + 2 * Size(f.kids));
      assert Roots(f, s)[1..] == Roots(f.rest, s + 2 + 2 * Size(f.kids));
    }
  }

  /** Every listed construct is a node. */
  lemma {:induction false} ListedIsNode(f: Forest, s: nat, c: Construct) returns (kids: Forest)
    requires c in Number(f, s)
    ensures IsNode(f, s, c, kids)
  {
    if c == Head(f, s) {
      kids := f.kids;
    } else if c in Number(f.kids, s + 1) {
      kids := ListedIsNode(f.kids, s + 1, c);
    } else {
      kids := ListedIsNode(f.rest, s + 2 + 2 * Size(f.kids), c);
    }
  }

  /**
   Where a node sits in the post-order list: its subtree is contiguous and ends with it, all
   that is listed earlier is to its left, and all that is listed later either encloses it or
   is to its right.
   */
  lemma {:induction false} Locate(f: Forest, s: nat, c: Construct, kids: Forest)
    returns (left: seq<Construct>, right: seq<Construct>)
    requires IsNode(f, s, c, kids)
    ensures Number(f, s) == left + Number(kids, c.start + 1) + [c] + right
    ensures forall d :: d in left ==> Before(d, c)
    ensures forall d :: d in right ==> Inside(c, d) || Before(c, d)
  {
    FirstTreeParts(f, s, c, kids);
    hide *;
    if c == Head(f, s) && kids == f.kids {
      left, right := [], Number(f.rest, s + 2 + 2 * Size(f.kids));
    } else if IsNode(f.kids, s + 1, c, kids) {
      left, right := Locate(f.kids, s + 1, c, kids);
      right := LocatedInKids(f, s, c, kids, left, right);
    } else {
      left, right := Locate(f.rest, s + 2 + 2 * Size(f.kids), c, kids);
      left := LocatedInRest(f, s, c, kids, left, right);
    }
  }

  /** A node is the root of the first tree, below it, or further on; the rest comes after the first tree. */
  lemma FirstTreeParts(f: Forest, s: nat, c: Construct, kids: Forest)
    requires IsNode(f, s, c, kids)
    ensures f.Tree?
    ensures var (h, t) := (Head(f, s), s + 2 + 2 * Size(f.kids));
      && ((c == h && kids == f.kids) || IsNode(f.kids, s + 1, c, kids) || IsNode(f.rest, t, c, kids))
      && (c == h && kids == f.kids ==> Number(f, s) == [] + Number(kids, c.start + 1) + [c] + Number(f.rest, t))
      && forall d :: d in Number(f.rest, t) ==> Before(h, d)
  {
    NumberBounds(f.rest, s + 2 + 2 * Size(f.kids));
    NumberOfFirst(f, s);
    hide Number;
  }

  lemma NumberOfFirst(f: Forest, s: nat)
    requires f.Tree?
    ensures var (below, rest) := (Number(f.kids, s + 1), Number(f.rest, s + 2 + 2 * Size(f.kids)));
      Number(f, s) == below + [Head(f, s)] + rest == [] + below + [Head(f, s)] + rest
  {
    var below := Number(f.kids, s + 1);
    assert [] + below == below;
  }

  lemma LocatedInKids(f: Forest, s: nat, c: Construct, kids: Forest, l: seq<Construct>, r: seq<Construct>)
    returns (right: seq<Construct>)
    requires f.Tree? && IsNode(f.kids, s + 1, c, kids)
    requires Number(f.kids, s + 1) == l + Number(kids, c.start + 1) + [c] + r
    requires forall d :: d in r ==> Inside(c, d) || Before(c, d)
    ensures Number(f, s) == l + Number(kids, c.start + 1) + [c] + right
    ensures forall d :: d in right ==> Inside(c, d) || Before(c, d)
  {
    hide *;
    var (h, rest) := (Head(f, s), Number(f.rest, s + 2 + 2 * Size(f.kids)));
    right := r + [h] + rest;
    RestIsRight(f, s, c, kids);
    NumberOfFirst(f, s);
    AssocAround([], l, Number(kids, c.start + 1), c, r, [h] + rest);
  }

  lemma RestIsRight(f: Forest, s: nat, c: Construct, kids: Forest)
    requires f.Tree? && IsNode(f.kids, s + 1, c, kids)
    ensures Inside(c, Head(f, s))
    ensures forall d :: d in Number(f.rest, s + 2 + 2 * Size(f.kids)) ==> Before(c, d)
  {
    NumberBounds(f.rest, s + 2 + 2 * Size(f.kids));
    NodeBounds(f.kids, s + 1, c, kids);
    hide Number, IsNode, Size;
  }

  lemma NodeBounds(f: Forest, s: nat, c: Construct, kids: Forest)
    requires IsNode(f, s, c, kids)
    ensures s <= c.start < c.end < s + 2 * Size(f)
  {
    NumberBounds(f, s);
    ChildrenAreConsecutive(f, s, c, kids);
    hide Number, Size;
  }

  lemma LocatedInRest(f: Forest, s: nat, c: Construct, kids: Forest, l: seq<Construct>, r: seq<Construct>)
    returns (left: seq<Construct>)
    requires f.Tree? && IsNode(f.rest, s + 2 + 2 * Size(f.kids), c, kids)
    requires Number(f.rest, s + 2 + 2 * Size(f.kids)) == l + Number(kids, c.start + 1) + [c] + r
    requires forall d :: d in l ==> Before(d, c)
    ensures Number(f, s) == left + Number(kids, c.start + 1) + [c] + r
    ensures forall d :: d in left ==> Before(d, c)
  {
    hide *;
    var (h, below) := (Head(f, s), Number(f.kids, s + 1));
    left := below + [h] + l;
    KidsAreLeft(f, s, c, kids);
    NumberOfFirst(f, s);
    AssocAround(below + [h], l, Number(kids, c.start + 1), c, r, []);
  }

  lemma KidsAreLeft(f: Forest, s: nat, c: Construct, kids: Forest)
    requires f.Tree? && IsNode(f.rest, s + 2 + 2 * Size(f.kids), c, kids)
    ensures Before(Head(f, s), c)
    ensures forall d :: d in Number(f.kids, s + 1) ==> Before(d, c)
  {
    NumberBounds(f.kids, s + 1);
    NodeBounds(f.rest, s + 2 + 2 * Size(f.kids), c, kids);
    hide Number, IsNode, Size;
  }

  lemma AssocAround<T>(a: seq<T>, l: seq<T>, m: seq<T>, c: T, r: seq<T>, b: seq<T>)
    ensures a + (l + m + [c] + r) + b == (a + l) + m + [c] + (r + b)
  {
  }
}
