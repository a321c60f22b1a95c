/**
 Finding children, paths and parents in the numbered list of constructs, from the numbers alone.
 */
module OutlineNavigation {
  import opened Wrappers
  import opened DiagramTree

  /** The id of a construct; `Blank` is the empty id. */
  datatype ConstructId = Blank | Id(name: string, end: nat, diagram: string)

  function IdOf(c: Construct): ConstructId { Id(c.name, c.end, c.diagram) }

  /** An id tells the name, the end and the diagram of its construct, and is never the empty one. */
  lemma SameIdIff(c: Construct, d: Construct)
    ensures IdOf(c) != Blank
    ensures IdOf(c) == IdOf(d) <==> c.name == d.name && c.end == d.end && c.diagram == d.diagram
  {
  }

  /** `c` lies strictly within the range from `lo` to `hi`, which may be open. */
  predicate Kept(c: Construct, lo: int, hi: Option<nat>) {
    lo < c.start && (hi.None? || c.end < hi.value)
  }

  /** The constructs of `cs` that are kept and start right after `last`, each one moving `last` to its end. */
  function Scan(cs: seq<Construct>, lo: int, hi: Option<nat>, last: int): seq<Construct> {
    if cs == [] then []
    else if Kept(cs[0], lo, hi) && cs[0].start == last + 1 then [cs[0]] + Scan(cs[1..], lo, hi, cs[0].end)
    else Scan(cs[1..], lo, hi, last)
  }

  function LastEnd(found: seq<Construct>, last: int): int {
    if found == [] then last else found[|found| - 1].end
  }

  lemma {:induction false} ScanAppend(a: seq<Construct>, b: seq<Construct>, lo: int, hi: Option<nat>, last: int)
    ensures Scan(a + b, lo, hi, last)
         == Scan(a, lo, hi, last) + Scan(b, lo, hi, LastEnd(Scan(a, lo, hi, last), last))
  {
    if a == [] {
      assert a + b == b;
    } else {
      assert (a + b)[1..] == a[1..] + b;
      ScanAppend(a[1..], b, lo, hi, if Kept(a[0], lo, hi) && a[0].start == last + 1 then a[0].end else last);
    }
  }

  lemma {:induction false} ScanNothing(cs: seq<Construct>, lo: int, hi: Option<nat>, last: int)
    requires forall c :: c in cs ==> c.start != last + 1
    ensures Scan(cs, lo, hi, last) == []
  {
    if cs != [] { ScanNothing(cs[1..], lo, hi, last); }
  }

  /** A scan passes over what cannot start right after `last`. */
  lemma ScanSkips(a: seq<Construct>, b: seq<Construct>, lo: int, hi: Option<nat>, last: int)
    requires forall c :: c in a ==> c.start != last + 1
    ensures Scan(a + b, lo, hi, last) == Scan(b, lo, hi, last)
  {
    ScanNothing(a, lo, hi, last);
    ScanAppend(a, b, lo, hi, last);
  }

  lemma ScanTakes(a: seq<Construct>, h: Construct, b: seq<Construct>, lo: int, hi: Option<nat>, last: int)
    requires forall c :: c in a ==> c.start != last + 1
    requires Kept(h, lo, hi) && h.start == last + 1
    ensures Scan(a + [h] + b, lo, hi, last) == [h] + Scan(b, lo, hi, h.end)
  {
    assert a + [h] + b == a + ([h] + b);
    ScanSkips(a, [h] + b, lo, hi, last);
  }

  /** Over a whole forest, the scan finds the top-level trees, in order. */
  lemma {:induction false} ScanForest(f: Forest, s: nat, lo: int, hi: Option<nat>)
    requires lo < s && (hi.None? || s + 2 * Size(f) <= hi.value)
    ensures Scan(Number(f, s), lo, hi, s - 1) == Roots(f, s)
    ensures LastEnd(Roots(f, s), s - 1) == s - 1 + 2 * Size(f)
  {
    if f.Tree? {
      var h, t := Head(f, s), s + 2 + 2 * Size(f.kids);
      NumberBounds(f.kids, s + 1);
      assert Number(f, s) == Number(f.kids, s + 1) + [h] + Number(f.rest, t);
      assert Roots(f, s) == [h] + Roots(f.rest, t) && Size(f) == 1 + Size(f.kids) + Size(f.rest);
      hide Scan, Number, Roots, Size;
      ScanForest(f.rest, t, lo, hi);
      ScanTakes(Number(f.kids, s + 1), h, Number(f.rest, t), lo, hi, s - 1);
      LastEndOfMore(h, Roots(f.rest, t), s - 1);
    }
  }

  lemma LastEndOfMore(h: Construct, rest: seq<Construct>, last: int)
    ensures LastEnd([h] + rest, last) == LastEnd(rest, h.end)
  {
  }

  /**
   Over the whole outline, the scan that starts where `c` starts finds exactly the children of
   `c`, in order, whether it stays within the range of `c` or has no bounds at all.
   */
  lemma ScanFindsChildren(f: Forest, s: nat, c: Construct, kids: Forest, lo: int, hi: Option<nat>)
    requires IsNode(f, s, c, kids)
    requires lo <= c.start && (hi.None? || c.end <= hi.value)
    ensures Scan(Number(f, s), lo, hi, c.start) == Roots(kids, c.start + 1)
  {
    hide *;
    var left, after := Around(f, s, c, kids);
    ScanSkips(left, Number(kids, c.start + 1) + after, lo, hi, c.start);
    ScanBelow(kids, c.start + 1, after, lo, hi);
  }

  /** What is listed before and after all that is below a node: nothing there starts like a child. */
  lemma Around(f: Forest, s: nat, c: Construct, kids: Forest) returns (left: seq<Construct>, after: seq<Construct>)
    requires IsNode(f, s, c, kids)
    ensures Number(f, s) == left + (Number(kids, c.start + 1) + after)
    ensures c.end == c.start + 1 + 2 * Size(kids)
    ensures forall d :: d in left ==> d.start != c.start + 1
    ensures forall d :: d in after ==> d.start != c.end
  {
    var right;
    left, right := Locate(f, s, c, kids);
    after := [c] + right;
    ChildrenAreConsecutive(f, s, c, kids);
    hide IsNode, Size;
    var below := Number(kids, c.start + 1);
    hide Number;
    assert left + (below + after) == left + below + [c] + right;
  }

  lemma ScanBelow(kids: Forest, s: nat, after: seq<Construct>, lo: int, hi: Option<nat>)
    requires lo < s && (hi.None? || s + 2 * Size(kids) <= hi.value)
    requires forall d :: d in after ==> d.start != s + 2 * Size(kids)
    ensures Scan(Number(kids, s) + after, lo, hi, s - 1) == Roots(kids, s)
  {
    ScanForest(kids, s, lo, hi);
    ScanAppend(Number(kids, s), after, lo, hi, s - 1);
    ScanNothing(after, lo, hi, s - 1 + 2 * Size(kids));
  }

  // ----- searching for a path of diagram ids

  function FirstNamed(cs: seq<Construct>, id: string): Option<Construct> {
    if cs == [] then None else if cs[0].diagram == id then Some(cs[0]) else FirstNamed(cs[1..], id)
  }

  /** The search as the code runs it, over the list of constructs. */
  function SearchList(cs: seq<Construct>, li: seq<string>, lo: int, hi: Option<nat>, res: ConstructId): ConstructId {
    if li == [] then Blank
    else
      match FirstNamed(Scan(cs, lo, hi, lo), li[0])
      case None => res
      case Some(c) => if |li| == 1 then IdOf(c) else SearchList(cs, li[1..], c.start, Some(c.end), IdOf(c))
  }

  /** Some path of trees from the top level of `f` carries the ids `li`. */
  ghost predicate Labels(f: Forest, li: seq<string>)
    requires li != []
  {
    f.Tree? &&
    (|| (f.diagram == li[0] && (|li| == 1 || Labels(f.kids, li[1..])))
     || Labels(f.rest, li))
  }

  /** Such a path ends at the construct `c`. */
  ghost predicate Labelled(f: Forest, s: nat, li: seq<string>, c: Construct)
    requires li != []
  {
    f.Tree? &&
    (|| (f.diagram == li[0] && (if |li| == 1 then c == Head(f, s) else Labelled(f.kids, s + 1, li[1..], c)))
     || Labelled(f.rest, s + 2 + 2 * Size(f.kids), li, c))
  }

  /** Trees for the same diagram have the same trees below them: those `kidsOf` tells. */
  ghost predicate Uniform(f: Forest, kidsOf: string -> Forest) {
    f.Tree? ==> f.kids == kidsOf(f.diagram) && Uniform(f.kids, kidsOf) && Uniform(f.rest, kidsOf)
  }

  ghost function KidsOf(index: seq<Entry>, rank: string -> nat, id: string): Forest
    requires Ranked(index, rank)
  {
    if Known(index, id) then Unfold(index, rank, id, Find(index, id).value) else Nil
  }

  lemma {:induction false} UnfoldIsUniform(index: seq<Entry>, rank: string -> nat, owner: string, cs: seq<Child>,
                                           kidsOf: string -> Forest)
    requires Ranked(index, rank) && Below(index, rank, owner, cs)
    requires forall id :: kidsOf(id) == KidsOf(index, rank, id)
    ensures Uniform(Unfold(index, rank, owner, cs), kidsOf)
    decreases rank(owner), |cs|
  {
    if cs != [] {
      UnfoldIsUniform(index, rank, owner, cs[1..], kidsOf);
      var id := cs[0].diagram;
      if Known(index, id) {
        assert cs[0] in cs;
        UnfoldIsUniform(index, rank, id, Find(index, id).value, kidsOf);
      }
    }
  }

  /** The first top-level tree for `id`, and the number it starts on. */
  ghost function FirstTree(f: Forest, s: nat, id: string): Option<(Forest, nat)> {
    if f.Nil? then None
    else if f.diagram == id then Some((f, s))
    else FirstTree(f.rest, s + 2 + 2 * Size(f.kids), id)
  }

  lemma {:induction false} FirstNamedIsFirstTree(f: Forest, s: nat, id: string)
    ensures match FirstTree(f, s, id)
      case None => FirstNamed(Roots(f, s), id) == None
      case Some((g, t)) => g.Tree? && g.diagram == id && FirstNamed(Roots(f, s), id) == Some(Head(g, t))
  {
    if f.Tree? {
      assert Roots(f, s)[1..] == Roots(f.rest, s + 2 + 2 * Size(f.kids));
      FirstNamedIsFirstTree(f.rest, s + 2 + 2 * Size(f.kids), id);
    }
  }

  /** A path can start in any tree for its first id just when it can start in the first one. */
  lemma {:induction false} FirstTreeIsEnough(f: Forest, s: nat, li: seq<string>, kidsOf: string -> Forest)
    requires li != [] && Uniform(f, kidsOf)
    ensures Labels(f, li) <==>
      FirstTree(f, s, li[0]).Some? && (|li| == 1 || Labels(kidsOf(li[0]), li[1..]))
    ensures match FirstTree(f, s, li[0])
      case None => true
      case Some((g, t)) =>
        && g.Tree? && g.kids == kidsOf(li[0]) && Uniform(g, kidsOf) && IsNode(f, s, Head(g, t), g.kids)
        && (|li| == 1 ==> Labelled(f, s, li, Head(g, t)))
        && forall c :: |li| > 1 && Labelled(g.kids, t + 1, li[1..], c) ==> Labelled(f, s, li, c)
  {
    if f.Tree? {
      FirstTreeIsEnough(f.rest, s + 2 + 2 * Size(f.kids), li, kidsOf);
    }
  }

  lemma {:induction false} NodeOfNode(f: Forest, s: nat, c: Construct, kids: Forest, d: Construct, below: Forest)
    requires IsNode(f, s, c, kids) && IsNode(kids, c.start + 1, d, below)
    ensures IsNode(f, s, d, below)
  {
    if c == Head(f, s) && kids == f.kids {
    } else if IsNode(f.kids, s + 1, c, kids) {
      NodeOfNode(f.kids, s + 1, c, kids, d, below);
    } else {
      NodeOfNode(f.rest, s + 2 + 2 * Size(f.kids), c, kids, d, below);
    }
  }

  lemma {:induction false} ShorterPathLabels(f: Forest, li: seq<string>, k: nat)
    requires 0 < k <= |li| && Labels(f, li)
    ensures Labels(f, li[..k])
  {
    if Labels(f.rest, li) {
      ShorterPathLabels(f.rest, li, k);
    } else if k > 1 {
      assert li[..k][1..] == li[1..][..k - 1];
      ShorterPathLabels(f.kids, li[1..], k - 1);
    }
  }

  ghost predicate Within(all: Forest, s: nat, f: Forest, t: nat) {
    forall d, below :: IsNode(f, t, d, below) ==> IsNode(all, s, d, below)
  }

  lemma KidsAreWithin(all: Forest, s: nat, f: Forest, t: nat, c: Construct, kids: Forest)
    requires Within(all, s, f, t) && IsNode(f, t, c, kids)
    ensures Within(all, s, kids, c.start + 1)
    ensures Scan(Number(all, s), c.start, Some(c.end), c.start) == Roots(kids, c.start + 1)
  {
    ScanFindsChildren(all, s, c, kids, c.start, Some(c.end));
    forall d, below | IsNode(kids, c.start + 1, d, below) ensures IsNode(all, s, d, below) {
      NodeOfNode(f, t, c, kids, d, below);
    }
  }

  /** The first `k` ids of `li` label a path of `f`, which ends at `c`, and one more id would not. */
  ghost predicate Longest(f: Forest, t: nat, li: seq<string>, k: nat, c: Construct)
    requires li != []
  {
    && k <= |li|
    && (k > 0 ==> Labels(f, li[..k]) && Labelled(f, t, li[..k], c))
    && (k < |li| ==> !Labels(f, li[..k + 1]))
  }

  lemma LongestFromKids(f: Forest, t: nat, li: seq<string>, k: nat, c: Construct, kidsOf: string -> Forest)
    requires |li| > 1 && Uniform(f, kidsOf) && FirstTree(f, t, li[0]).Some?
    requires var (g, u) := FirstTree(f, t, li[0]).value; g.Tree? && Longest(g.kids, u + 1, li[1..], k, c)
    ensures var (g, u) := FirstTree(f, t, li[0]).value; Longest(f, t, li, k + 1, if k == 0 then Head(g, u) else c)
  {
    assert li[..k + 1][1..] == li[1..][..k];
    FirstTreeIsEnough(f, t, li[..k + 1], kidsOf);
    if k + 1 < |li| {
      assert li[..k + 2][1..] == li[1..][..k + 1];
      FirstTreeIsEnough(f, t, li[..k + 2], kidsOf);
    }
  }

  /**
   Searching below a node finds the longest prefix of the path that exists there, although it
   follows only the first sibling with the right id and never comes back.
   */
  lemma {:induction false} SearchBelow(all: Forest, s: nat, f: Forest, t: nat, lo: int, hi: Option<nat>,
                                       li: seq<string>, res: ConstructId, kidsOf: string -> Forest)
    returns (k: nat, c: Construct)
    requires li != [] && Uniform(f, kidsOf) && Within(all, s, f, t)
    requires Scan(Number(all, s), lo, hi, lo) == Roots(f, t)
    ensures Longest(f, t, li, k, c)
    ensures SearchList(Number(all, s), li, lo, hi, res) == if k == 0 then res else IdOf(c)
    decreases |li|
  {
    hide *;
    FirstNamedIsFirstTree(f, t, li[0]);
    SearchIs(Number(all, s), li, lo, hi, res, Roots(f, t));
    match FirstTree(f, t, li[0]) {
      case None =>
        k, c := 0, Construct("", "", 0, 0);
        NoneIsLongest(f, t, li, c, kidsOf);
      case Some((g, u)) =>
        FirstTreeIsEnough(f, t, li, kidsOf);
        var h := Head(g, u);
        if |li| == 1 {
          k, c := 1, h;
          AllIsLongest(f, t, li, h);
        } else {
          KidsAreWithin(all, s, f, t, h, g.kids);
          HeadIs(g, u);
          k, c := SearchBelow(all, s, g.kids, u + 1, h.start, Some(h.end), li[1..], IdOf(h), kidsOf);
          LongestFromKids(f, t, li, k, c, kidsOf);
          k, c := k + 1, if k == 0 then h else c;
        }
    }
  }

  /** One step of the search, when the scan finds `found`. */
  lemma SearchIs(cs: seq<Construct>, li: seq<string>, lo: int, hi: Option<nat>, res: ConstructId,
                 found: seq<Construct>)
    requires li != [] && found == Scan(cs, lo, hi, lo)
    ensures SearchList(cs, li, lo, hi, res)
         == match FirstNamed(found, li[0])
            case None => res
            case Some(c) => if |li| == 1 then IdOf(c) else SearchList(cs, li[1..], c.start, Some(c.end), IdOf(c))
  {
    hide Scan, FirstNamed;
  }

  lemma NoneIsLongest(f: Forest, t: nat, li: seq<string>, c: Construct, kidsOf: string -> Forest)
    requires li != [] && Uniform(f, kidsOf) && FirstTree(f, t, li[0]).None?
    ensures Longest(f, t, li, 0, c)
  {
    FirstTreeIsEnough(f, t, li[..1], kidsOf);
    hide Labels, Labelled, FirstTree, Uniform;
  }

  lemma AllIsLongest(f: Forest, t: nat, li: seq<string>, c: Construct)
    requires |li| == 1 && Labels(f, li) && Labelled(f, t, li, c)
    ensures Longest(f, t, li, 1, c)
  {
    assert li[..1] == li;
    hide Labels, Labelled;
  }

  lemma HeadIs(g: Forest, u: nat)
    requires g.Tree?
    ensures Head(g, u).start == u
  {
  }

  /**
   Searching the outline of a model for a path of diagram ids gives the construct at the end of
   the longest prefix that labels a path from the root, and the empty id when there is none.
   */
  lemma SearchFindsLongestPrefix(index: seq<Entry>, rank: string -> nat, li: seq<string>)
    returns (k: nat, c: Construct)
    requires index != [] && Ranked(index, rank)
    ensures k <= |li|
    ensures forall j :: 0 < j <= |li| ==> (Labels(Model(index, rank), li[..j]) <==> j <= k)
    ensures k > 0 <==> li != [] && li[0] == index[0].id
    ensures var r := SearchList(Number(Model(index, rank), 0), li, -1, None, Blank);
      if k == 0 then r == Blank else Labelled(Model(index, rank), 0, li[..k], c) && r == IdOf(c)
  {
    var all := Model(index, rank);
    k, c := 0, Construct("", "", 0, 0);
    if li != [] {
      var kidsOf := id => if Ranked(index, rank) then KidsOf(index, rank, id) else Nil;
      var root := index[0];
      assert Known(index, root.id) && Find(index, root.id) == Some(root.children);
      UnfoldIsUniform(index, rank, root.id, root.children, kidsOf);
      ScanForest(all, 0, -1, None);
      k, c := SearchBelow(all, 0, all, 0, -1, None, li, Blank, kidsOf);
      forall j | 0 < j <= |li| ensures Labels(all, li[..j]) <==> j <= k {
        if j <= k {
          assert li[..k][..j] == li[..j];
          ShorterPathLabels(all, li[..k], j);
        } else if Labels(all, li[..j]) {
          assert li[..j][..k + 1] == li[..k + 1];
          ShorterPathLabels(all, li[..j], k + 1);
        }
      }
      assert Labels(all, li[..1]) <==> li[0] == root.id;
    }
  }

  // ----- the enclosing construct

  ghost predicate Encloses(d: Construct, sloc: nat) { d.start < sloc < d.end }

  lemma {:induction false} RootsAreNotEnclosed(f: Forest, s: nat, c: Construct, d: Construct)
    requires c in Roots(f, s) && d in Number(f, s)
    ensures !Encloses(d, c.end) && c in Number(f, s)
  {
    var t := s + 2 + 2 * Size(f.kids);
    NumberBounds(f.kids, s + 1);
    NumberBounds(f.rest, t);
    RootsAreListed(f.rest, t);
    if c in Roots(f.rest, t) && d in Number(f.rest, t) { RootsAreNotEnclosed(f.rest, t, c, d); }
  }

  lemma {:induction false} RootsAreListed(f: Forest, s: nat)
    ensures forall c :: c in Roots(f, s) ==> c in Number(f, s)
  {
    if f.Tree? { RootsAreListed(f.rest, s + 2 + 2 * Size(f.kids)); }
  }

  /** Among the constructs that enclose the end of a child, the one that starts last is its parent. */
  lemma ParentIsInnermost(f: Forest, s: nat, p: Construct, kids: Forest, c: Construct, d: Construct)
    requires IsNode(f, s, p, kids) && c in Roots(kids, p.start + 1)
    requires d in Number(f, s) && Encloses(d, c.end)
    ensures Encloses(p, c.end) && d.start <= p.start && (d.start == p.start ==> d == p)
  {
    var left, right := Locate(f, s, p, kids);
    assert d in left || d in Number(kids, p.start + 1) || d == p || d in right;
    ChildrenAreConsecutive(f, s, p, kids);
    hide IsNode, Size;
    ChildIsInside(kids, p, c);
    if d in Number(kids, p.start + 1) { RootsAreNotEnclosed(kids, p.start + 1, c, d); }
    hide Number, Roots;
  }

  lemma ChildIsInside(kids: Forest, p: Construct, c: Construct)
    requires c in Roots(kids, p.start + 1) && p.end == p.start + 1 + 2 * Size(kids)
    ensures p.start < c.start < c.end < p.end
  {
    NumberBounds(kids, p.start + 1);
    RootsAreListed(kids, p.start + 1);
  }

  /** Every node but those at the top level is the child of some node. */
  lemma {:induction false} NodeHasParent(f: Forest, s: nat, c: Construct, below: Forest)
    returns (p: Construct, kids: Forest)
    requires IsNode(f, s, c, below)
    ensures c in Roots(f, s) || (IsNode(f, s, p, kids) && c in Roots(kids, p.start + 1))
  {
    p, kids := Construct("", "", 0, 0), Nil;
    if c == Head(f, s) && below == f.kids {
    } else if IsNode(f.kids, s + 1, c, below) {
      p, kids := NodeHasParent(f.kids, s + 1, c, below);
      if c in Roots(f.kids, s + 1) { p, kids := Head(f, s), f.kids; }
    } else {
      p, kids := NodeHasParent(f.rest, s + 2 + 2 * Size(f.kids), c, below);
    }
  }

  /** The ranks of diagrams go down along every path of `f`, starting below `b`. */
  ghost predicate Decreasing(f: Forest, rank: string -> nat, b: nat) {
    f.Tree? ==> rank(f.diagram) < b && Decreasing(f.kids, rank, rank(f.diagram)) && Decreasing(f.rest, rank, b)
  }

  lemma {:induction false} UnfoldIsDecreasing(index: seq<Entry>, rank: string -> nat, owner: string, cs: seq<Child>)
    requires Ranked(index, rank) && Below(index, rank, owner, cs)
    ensures Decreasing(Unfold(index, rank, owner, cs), rank, rank(owner))
    decreases rank(owner), |cs|
  {
    if cs != [] {
      UnfoldIsDecreasing(index, rank, owner, cs[1..]);
      if Known(index, cs[0].diagram) {
        assert cs[0] in cs;
        UnfoldIsDecreasing(index, rank, cs[0].diagram, Find(index, cs[0].diagram).value);
      }
    }
  }

  lemma {:induction false} NodeIsDecreasing(f: Forest, s: nat, c: Construct, kids: Forest, rank: string -> nat, b: nat)
    requires IsNode(f, s, c, kids) && Decreasing(f, rank, b)
    ensures Decreasing(kids, rank, rank(c.diagram))
  {
    if c == Head(f, s) && kids == f.kids {
    } else if IsNode(f.kids, s + 1, c, kids) {
      NodeIsDecreasing(f.kids, s + 1, c, kids, rank, rank(f.diagram));
    } else {
      NodeIsDecreasing(f.rest, s + 2 + 2 * Size(f.kids), c, kids, rank, b);
    }
  }

  lemma {:induction false} RootsDecrease(f: Forest, s: nat, c: Construct, rank: string -> nat, b: nat)
    requires c in Roots(f, s) && Decreasing(f, rank, b)
    ensures rank(c.diagram) < b
  {
    if c != Head(f, s) { RootsDecrease(f.rest, s + 2 + 2 * Size(f.kids), c, rank, b); }
  }

  /** A child never shows the diagram of its parent, because references form no cycle. */
  lemma ParentHasOtherDiagram(f: Forest, s: nat, p: Construct, kids: Forest, c: Construct, rank: string -> nat, b: nat)
    requires IsNode(f, s, p, kids) && c in Roots(kids, p.start + 1) && Decreasing(f, rank, b)
    ensures p.diagram != c.diagram
  {
    NodeIsDecreasing(f, s, p, kids, rank, b);
    RootsDecrease(kids, p.start + 1, c, rank, rank(p.diagram));
  }
}
