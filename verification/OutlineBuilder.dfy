/**
 The explicit-stack walk that turns the diagram index into numbered constructs.
 */
module OutlineBuilder {
  import opened Sequences
  import opened Wrappers
  import opened DiagramTree

  /** The loaded diagrams of a model, and the index of their children; the first one is the root. */
  class DiagramFile {
    var diagrams: seq<string>
    var index: seq<Entry>

    /** The index has one entry for each diagram, in the same order. */
    ghost predicate InStep()
      reads this
    {
      diagrams == Ids(index)
    }

    constructor (index: seq<Entry>)
      ensures this.index == index && InStep()
    {
      this.diagrams, this.index := Ids(index), index;
    }
  }

  function Ids(index: seq<Entry>): seq<string> {
    if index == [] then [] else [index[0].id] + Ids(index[1..])
  }

  /** An entry of the walk's stack, with the references it has not visited yet. */
  datatype Pending = Pending(name: string, id: string, todo: seq<Child>, start: nat)

  /**
   A state of the walk: the stack, the last number used, the constructs listed so far, the number
   of references known so far, and what that number was at each construct.
   */
  datatype Walk = Walk(st: seq<Pending>, off: nat, out: seq<Construct>, itemsLen: nat, progress: seq<nat>)

  // ----- the walk on values

  ghost predicate Sound(index: seq<Entry>, rank: string -> nat, st: seq<Pending>) {
    forall p :: p in st ==> Below(index, rank, p.id, p.todo)
  }

  /** The numbered constructs of `f`, followed by `tail`. */
  ghost function NumberThen(f: Forest, s: nat, tail: seq<Construct>): seq<Construct> {
    if f.Nil? then tail
    else NumberThen(f.kids, s + 1, [Head(f, s)] + NumberThen(f.rest, s + 2 + 2 * Size(f.kids), tail))
  }

  lemma {:induction false} NumberThenIsNumber(f: Forest, s: nat, tail: seq<Construct>)
    ensures NumberThen(f, s, tail) == Number(f, s) + tail
  {
    if f.Tree? {
      var h, t := Head(f, s), s + 2 + 2 * Size(f.kids);
      var a, b := Number(f.kids, s + 1), Number(f.rest, t);
      NumberThenIsNumber(f.rest, t, tail);
      NumberThenIsNumber(f.kids, s + 1, [h] + (b + tail));
      assert a + ([h] + (b + tail)) == (a + [h] + b) + tail;
    }
  }

  /** The constructs still to come when the walk holds `st` and the last number used is `off`. */
  ghost function Finish(index: seq<Entry>, rank: string -> nat, st: seq<Pending>, off: nat): seq<Construct>
    requires Ranked(index, rank) && Sound(index, rank, st)
    decreases |st|
  {
    if st == [] then []
    else
      var p := st[|st| - 1];
      var kids := Unfold(index, rank, p.id, p.todo);
      var end := off + 1 + 2 * Size(kids);
      NumberThen(kids, off + 1, [Construct(p.name, p.id, p.start, end)] + Finish(index, rank, st[..|st| - 1], end))
  }

  /** The number of references met while unfolding `cs`, those that are resolved counted twice. */
  ghost function Steps(index: seq<Entry>, rank: string -> nat, owner: string, cs: seq<Child>): nat
    requires Ranked(index, rank) && Below(index, rank, owner, cs)
    decreases rank(owner), |cs|
  {
    if cs == [] then 0
    else
      assert cs[0] in cs && (Find(index, cs[0].diagram).Some? ==> Known(index, cs[0].diagram));
      var rest := Steps(index, rank, owner, cs[1..]);
      match Find(index, cs[0].diagram)
      case None => 1 + rest
      case Some(below) => 2 + Steps(index, rank, cs[0].diagram, below) + rest
  }

  /** The termination measure of the walk. */
  ghost function Work(index: seq<Entry>, rank: string -> nat, st: seq<Pending>): nat {
    if st == [] || !Ranked(index, rank) || !Sound(index, rank, st) then 0
    else
      var p := st[|st| - 1];
      1 + Steps(index, rank, p.id, p.todo) + Work(index, rank, st[..|st| - 1])
  }

  /** The references held go down from the root, and what is listed with what is to come is `all`. */
  ghost predicate Good(index: seq<Entry>, rank: string -> nat, all: seq<Construct>, w: Walk) {
    && |index| > 0 && Ranked(index, rank) && Sound(index, rank, w.st)
    && (forall p :: p in w.st ==> rank(p.id) <= rank(index[0].id))
    && w.out + Finish(index, rank, w.st, w.off) == all
  }

  /** The walk after the next reference of the top frame has been dealt with. */
  ghost function Advance(index: seq<Entry>, w: Walk): Walk
    requires w.st != [] && w.st[|w.st| - 1].todo != []
  {
    var n := |w.st| - 1;
    var c := w.st[n].todo[0];
    var st := w.st[..n] + [w.st[n].(todo := w.st[n].todo[1..])];
    match Find(index, c.diagram)
    case None => w.(st := st)
    case Some(below) => 
      w.(st := st + [Pending(c.name, c.diagram, below, w.off + 1)], off := w.off + 1, itemsLen := w.itemsLen + |below|)
  }

  /** The walk after its top frame has been closed. */
  function Pop(w: Walk): Walk
    requires w.st != []
  {
    var n := |w.st| - 1;
    var p := w.st[n];
    Walk(w.st[..n], w.off + 1, w.out + [Construct(p.name, p.id, p.start, w.off + 1)],
         w.itemsLen, w.progress + [w.itemsLen])
  }

  lemma AdvanceIsGood(index: seq<Entry>, rank: string -> nat, all: seq<Construct>, w: Walk)
    requires Good(index, rank, all, w) && w.st != [] && w.st[|w.st| - 1].todo != []
    ensures Good(index, rank, all, Advance(index, w))
    ensures Work(index, rank, Advance(index, w).st) < Work(index, rank, w.st)
  {
    hide *;
    var n := |w.st| - 1;
    var base, p := w.st[..n], w.st[n];
    var c := p.todo[0];
    AdvanceIs(index, rank, all, w);
    if Known(index, c.diagram) {
      AdvanceIntoFinish(index, rank, base, p, c, Find(index, c.diagram).value, w.off);
      AdvanceIntoWork(index, rank, base, p, c, Find(index, c.diagram).value, w.off);
    } else {
      AdvancePast(index, rank, base, p, c, w.off);
    }
    GoodAgain(index, rank, all, w, Advance(index, w));
  }

  /** The reference that is dealt with, and the stack afterwards. */
  lemma AdvanceIs(index: seq<Entry>, rank: string -> nat, all: seq<Construct>, w: Walk)
    requires Good(index, rank, all, w) && w.st != [] && w.st[|w.st| - 1].todo != []
    ensures var (base, p) := (w.st[..|w.st| - 1], w.st[|w.st| - 1]);
      var c := p.todo[0];
      && w.st == base + [p] && index != [] && Ranked(index, rank) && Sound(index, rank, base + [p])
      && Advance(index, w).out == w.out
      && (Known(index, c.diagram) <==> Find(index, c.diagram).Some?)
      && (Known(index, c.diagram) ==>
           && Advance(index, w).st == Opened(base, p, c, Find(index, c.diagram).value, w.off)
           && Advance(index, w).off == w.off + 1)
      && (!Known(index, c.diagram) ==>
           Advance(index, w).st == base + [p.(todo := p.todo[1..])] && Advance(index, w).off == w.off)
      && ((Known(index, c.diagram) ==> rank(c.diagram) < rank(p.id)) ==>
           forall q :: q in Advance(index, w).st ==> rank(q.id) <= rank(index[0].id))
  {
    hide Finish, Unfold, NumberThen, Below;
    assert w.st[|w.st| - 1] in w.st;
  }

  lemma GoodAgain(index: seq<Entry>, rank: string -> nat, all: seq<Construct>, w: Walk, w': Walk)
    requires Good(index, rank, all, w) && w'.out == w.out && Sound(index, rank, w'.st)
    requires Finish(index, rank, w'.st, w'.off) == Finish(index, rank, w.st, w.off)
    requires forall p :: p in w'.st ==> rank(p.id) <= rank(index[0].id)
    ensures Good(index, rank, all, w')
  {
    hide Finish, Sound, Ranked;
  }

  lemma AdvancePast(index: seq<Entry>, rank: string -> nat, st: seq<Pending>, p: Pending, c: Child, off: nat)
    requires Ranked(index, rank) && Sound(index, rank, st + [p])
    requires p.todo != [] && c == p.todo[0] && Find(index, c.diagram).None?
    ensures var q := p.(todo := p.todo[1..]);
      && Sound(index, rank, st + [q])
      && Work(index, rank, st + [q]) < Work(index, rank, st + [p])
      && Finish(index, rank, st + [q], off) == Finish(index, rank, st + [p], off)
  {
    hide *;
    var q := p.(todo := p.todo[1..]);
    PastWork(index, rank, st, p, c);
    var kids := Unfold(index, rank, p.id, p.todo);
    var end := off + 1 + 2 * Size(kids);
    FinishOfTop(index, rank, st, p, off, kids, end);
    FinishOfTop(index, rank, st, q, off, kids, end);
    ClosingIs(index, rank, st, p, q, end);
  }

  lemma PastWork(index: seq<Entry>, rank: string -> nat, st: seq<Pending>, p: Pending, c: Child)
    requires Ranked(index, rank) && Sound(index, rank, st + [p])
    requires p.todo != [] && c == p.todo[0] && Find(index, c.diagram).None?
    ensures var q := p.(todo := p.todo[1..]);
      && Below(index, rank, p.id, p.todo) && Below(index, rank, p.id, q.todo) && Sound(index, rank, st + [q])
      && Unfold(index, rank, p.id, p.todo) == Unfold(index, rank, p.id, q.todo)
      && Work(index, rank, st + [q]) < Work(index, rank, st + [p])
  {
    var q := p.(todo := p.todo[1..]);
    assert p in st + [p] && c in p.todo;
    assert (st + [q])[..|st|] == st;
    assert (st + [p])[..|st|] == st;
  }

  /** The stack once the diagram named by `c` has been opened on top of `p`. */
  ghost function Opened(st: seq<Pending>, p: Pending, c: Child, below: seq<Child>, off: nat): seq<Pending>
    requires p.todo != []
  {
    st + [p.(todo := p.todo[1..])] + [Pending(c.name, c.diagram, below, off + 1)]
  }

  lemma AdvanceIntoWork(index: seq<Entry>, rank: string -> nat, st: seq<Pending>, p: Pending, c: Child,
                        below: seq<Child>, off: nat)
    requires Ranked(index, rank) && Sound(index, rank, st + [p])
    requires p.todo != [] && c == p.todo[0] && Known(index, c.diagram) && Find(index, c.diagram) == Some(below)
    ensures Sound(index, rank, Opened(st, p, c, below, off)) && rank(c.diagram) < rank(p.id)
    ensures Work(index, rank, Opened(st, p, c, below, off)) < Work(index, rank, st + [p])
  {
    var q := p.(todo := p.todo[1..]);
    assert p in st + [p] && c in p.todo;
    assert Opened(st, p, c, below, off)[..|st| + 1] == st + [q];
    assert (st + [q])[..|st|] == st;
    assert (st + [p])[..|st|] == st;
  }

  lemma AdvanceIntoFinish(index: seq<Entry>, rank: string -> nat, st: seq<Pending>, p: Pending, c: Child,
                          below: seq<Child>, off: nat)
    requires Ranked(index, rank) && Sound(index, rank, st + [p])
    requires p.todo != [] && c == p.todo[0] && Known(index, c.diagram) && Find(index, c.diagram) == Some(below)
    ensures Sound(index, rank, Opened(st, p, c, below, off))
    ensures Finish(index, rank, Opened(st, p, c, below, off), off + 1) == Finish(index, rank, st + [p], off)
  {
    hide *;
    var q, r := p.(todo := p.todo[1..]), Pending(c.name, c.diagram, below, off + 1);
    AdvanceIntoWork(index, rank, st, p, c, below, off);
    OpenedIs(st, p, c, below, off);
    UnfoldFirst(index, rank, st, p, c, below);
    var kids, later := Unfold(index, rank, c.diagram, below), Unfold(index, rank, p.id, q.todo);
    var mid, end := off + 2 + 2 * Size(kids), off + 3 + 2 * Size(kids) + 2 * Size(later);
    FinishOfTop(index, rank, st, q, mid, later, end);
    FinishOfTop(index, rank, st + [q], r, off + 1, kids, mid);
    NumberThenOfTree(c.name, c.diagram, kids, later, off + 1, Closing(index, rank, st, p, end), mid);
    FinishOfTop(index, rank, st, p, off, Tree(c.name, c.diagram, kids, later), end);
    ClosingIs(index, rank, st, p, q, end);
    ClosingIs(index, rank, st + [q], r, r, mid);
  }

  /** What comes once everything below `p` has been listed: `p` itself, and what is to come after it. */
  ghost function Closing(index: seq<Entry>, rank: string -> nat, st: seq<Pending>, p: Pending, end: nat): seq<Construct>
    requires Ranked(index, rank) && Sound(index, rank, st)
  {
    [Construct(p.name, p.id, p.start, end)] + Finish(index, rank, st, end)
  }

  lemma ClosingIs(index: seq<Entry>, rank: string -> nat, st: seq<Pending>, p: Pending, q: Pending, end: nat)
    requires Ranked(index, rank) && Sound(index, rank, st) && p.name == q.name && p.id == q.id && p.start == q.start
    ensures Closing(index, rank, st, p, end) == Closing(index, rank, st, q, end)
         == [Construct(q.name, q.id, q.start, end)] + Finish(index, rank, st, end)
  {
  }

  /** What the top frame contributes. */
  lemma FinishOfTop(index: seq<Entry>, rank: string -> nat, st: seq<Pending>, p: Pending, off: nat,
                    kids: Forest, end: nat)
    requires Ranked(index, rank) && Sound(index, rank, st + [p]) && Below(index, rank, p.id, p.todo)
    requires kids == Unfold(index, rank, p.id, p.todo) && end == off + 1 + 2 * Size(kids)
    ensures Sound(index, rank, st)
    ensures Finish(index, rank, st + [p], off) == NumberThen(kids, off + 1, Closing(index, rank, st, p, end))
  {
    assert (st + [p])[..|st|] == st;
    assert forall q :: q in st ==> q in st + [p];
    hide Unfold, Below, Ranked, NumberThen, Size;
  }

  lemma NumberThenOfTree(name: string, diagram: string, kids: Forest, later: Forest, s: nat, tail: seq<Construct>,
                         mid: nat)
    requires mid == s + 1 + 2 * Size(kids)
    ensures Size(Tree(name, diagram, kids, later)) == 1 + Size(kids) + Size(later)
    ensures NumberThen(Tree(name, diagram, kids, later), s, tail)
         == NumberThen(kids, s + 1, [Construct(name, diagram, s, mid)] + NumberThen(later, mid + 1, tail))
  {
  }

  lemma OpenedIs(st: seq<Pending>, p: Pending, c: Child, below: seq<Child>, off: nat)
    requires p.todo != []
    ensures Opened(st, p, c, below, off)
         == (st + [p.(todo := p.todo[1..])]) + [Pending(c.name, c.diagram, below, off + 1)]
  {
  }

  lemma UnfoldFirst(index: seq<Entry>, rank: string -> nat, st: seq<Pending>, p: Pending, c: Child, below: seq<Child>)
    requires Ranked(index, rank) && Sound(index, rank, st + [p]) && p.todo != [] && c == p.todo[0]
    requires Known(index, c.diagram) && Find(index, c.diagram) == Some(below)
    ensures Below(index, rank, p.id, p.todo) && Below(index, rank, c.diagram, below)
    ensures Below(index, rank, p.id, p.todo[1..]) && Sound(index, rank, st + [p.(todo := p.todo[1..])])
    ensures Unfold(index, rank, p.id, p.todo)
         == Tree(c.name, c.diagram, Unfold(index, rank, c.diagram, below), Unfold(index, rank, p.id, p.todo[1..]))
  {
    assert p in st + [p] && c in p.todo;
    assert forall q :: q in st ==> q in st + [p];
  }

  lemma PopIsGood(index: seq<Entry>, rank: string -> nat, all: seq<Construct>, w: Walk)
    requires Good(index, rank, all, w) && w.st != [] && w.st[|w.st| - 1].todo == []
    ensures Good(index, rank, all, Pop(w)) && Work(index, rank, Pop(w).st) < Work(index, rank, w.st)
  {
    var c := Pop(w).out[|w.out|];
    var later := Finish(index, rank, Pop(w).st, w.off + 1);
    assert w.out + [c] + later == w.out + ([c] + later);
  }

  lemma NextIsNotRoot(index: seq<Entry>, rank: string -> nat, all: seq<Construct>, w: Walk)
    requires Good(index, rank, all, w) && w.st != [] && w.st[|w.st| - 1].todo != []
    ensures var id := w.st[|w.st| - 1].todo[0].diagram; Known(index, id) ==> id != index[0].id
  {
    var p := w.st[|w.st| - 1];
    assert p in w.st && p.todo[0] in p.todo;
  }

  lemma StartIsGood(index: seq<Entry>, rank: string -> nat, w: Walk)
    requires |index| > 0 && Ranked(index, rank)
    requires w == Walk([Pending(index[0].id, index[0].id, index[0].children, 0)], 0, [], |index[0].children|, [])
    ensures Good(index, rank, Number(Model(index, rank), 0), w)
  {
    FindIsFirst(index, index[0].id, 0);
    assert Known(index, index[0].id);
    assert w.st[..0] == [];
    var kids := Unfold(index, rank, index[0].id, index[0].children);
    var h := Head(Model(index, rank), 0);
    NumberThenIsNumber(kids, 1, [h] + []);
    assert Number(Model(index, rank), 0) == Number(kids, 1) + [h] + Number(Nil, h.end + 1);
  }

  lemma EndIsGood(index: seq<Entry>, rank: string -> nat, all: seq<Construct>, w: Walk)
    requires Good(index, rank, all, w) && w.st == []
    ensures w.out == all
  {
  }

  // ----- the progress that is shown

  /** The references met below those of `cs`, whether or not they are resolved. */
  ghost function References(index: seq<Entry>, rank: string -> nat, owner: string, cs: seq<Child>): nat
    requires Ranked(index, rank) && Below(index, rank, owner, cs)
    decreases rank(owner), |cs|
  {
    if cs == [] then 0
    else
      assert cs[0] in cs && (Find(index, cs[0].diagram).Some? ==> Known(index, cs[0].diagram));
      var rest := References(index, rank, owner, cs[1..]);
      match Find(index, cs[0].diagram)
      case None => rest
      case Some(below) => |below| + References(index, rank, cs[0].diagram, below) + rest
  }

  /** All references of the unfolded model. */
  ghost function AllReferences(index: seq<Entry>, rank: string -> nat): nat
    requires index != [] && Ranked(index, rank)
  {
    var root := index[0];
    assert Known(index, root.id) && Find(index, root.id) == Some(root.children);
    |root.children| + References(index, rank, root.id, root.children)
  }

  /** Every reference met below those of `cs`, and those themselves, name a diagram of the index. */
  ghost predicate Resolved(index: seq<Entry>, rank: string -> nat, owner: string, cs: seq<Child>)
    requires Ranked(index, rank) && Below(index, rank, owner, cs)
    decreases rank(owner), |cs|
  {
    cs == [] ||
    (assert cs[0] in cs && (Find(index, cs[0].diagram).Some? ==> Known(index, cs[0].diagram));
     match Find(index, cs[0].diagram)
     case None => false
     case Some(below) => Resolved(index, rank, cs[0].diagram, below) && Resolved(index, rank, owner, cs[1..]))
  }

  ghost predicate AllResolved(index: seq<Entry>, rank: string -> nat)
    requires index != [] && Ranked(index, rank)
  {
    var root := index[0];
    assert Known(index, root.id) && Find(index, root.id) == Some(root.children);
    Resolved(index, rank, root.id, root.children)
  }

  /** Each resolved reference gives one construct. */
  lemma {:induction false} ConstructsAndReferences(index: seq<Entry>, rank: string -> nat, owner: string,
                                                   cs: seq<Child>)
    requires Ranked(index, rank) && Below(index, rank, owner, cs)
    ensures var (n, all) := (Size(Unfold(index, rank, owner, cs)), |cs| + References(index, rank, owner, cs));
      n <= all && (n == all <==> Resolved(index, rank, owner, cs))
    decreases rank(owner), |cs|
  {
    if cs != [] {
      assert cs[0] in cs && (Find(index, cs[0].diagram).Some? ==> Known(index, cs[0].diagram));
      ConstructsAndReferences(index, rank, owner, cs[1..]);
      match Find(index, cs[0].diagram) {
        case None =>
        case Some(below) => ConstructsAndReferences(index, rank, cs[0].diagram, below);
      }
    }
  }

  lemma {:induction false} NumberLength(f: Forest, s: nat)
    ensures |Number(f, s)| == Size(f)
  {
    if f.Tree? {
      NumberLength(f.kids, s + 1);
      NumberLength(f.rest, s + 2 + 2 * Size(f.kids));
    }
  }

  /** The number of constructs exceeds the last maximum, by one, exactly if every reference is resolved. */
  lemma ProgressExceedsIff(index: seq<Entry>, rank: string -> nat)
    requires index != [] && Ranked(index, rank)
    ensures var n := |Number(Model(index, rank), 0)|;
      n <= AllReferences(index, rank) + 1 && (n > AllReferences(index, rank) <==> AllResolved(index, rank))
  {
    var root := index[0];
    assert Known(index, root.id) && Find(index, root.id) == Some(root.children);
    ConstructsAndReferences(index, rank, root.id, root.children);
    NumberLength(Model(index, rank), 0);
    assert Size(Model(index, rank)) == 1 + Size(Unfold(index, rank, root.id, root.children));
    hide Size, Unfold, References, Resolved, Number, Ranked, Below;
  }

  /** A model of the root alone has one construct and no reference. */
  lemma RootAloneExceeds(index: seq<Entry>, rank: string -> nat)
    requires index == [Entry("root", [])]
    ensures Ranked(index, rank) && |Number(Model(index, rank), 0)| == 1 && AllReferences(index, rank) == 0
  {
    NumberLength(Model(index, rank), 0);
  }

  ghost function StackReferences(index: seq<Entry>, rank: string -> nat, st: seq<Pending>): nat
    requires Ranked(index, rank) && Sound(index, rank, st)
  {
    if st == [] then 0
    else
      var p := st[|st| - 1];
      References(index, rank, p.id, p.todo) + StackReferences(index, rank, st[..|st| - 1])
  }

  function Waiting(st: seq<Pending>): nat {
    if st == [] then 0 else |st[|st| - 1].todo| + Waiting(st[..|st| - 1])
  }

  /** The shown maximum only grows, stays ahead of the constructs listed, and ends as the number of all references. */
  ghost predicate Tracked(index: seq<Entry>, rank: string -> nat, w: Walk) {
    && index != [] && Ranked(index, rank) && Sound(index, rank, w.st)
    && w.itemsLen + StackReferences(index, rank, w.st) == AllReferences(index, rank)
    && |w.out| + |w.st| + Waiting(w.st) <= w.itemsLen + 1
    && InStep(w.progress, |w.out|, w.itemsLen)
    && (w.st == [] ==> w.progress != [] && w.progress[|w.progress| - 1] == w.itemsLen)
  }

  predicate InStep(progress: seq<nat>, n: nat, itemsLen: nat) {
    && |progress| == n
    && (forall k :: 0 <= k < n ==> k <= progress[k] <= itemsLen)
    && forall j, k :: 0 <= j < k < n ==> progress[j] <= progress[k]
  }

  lemma StartIsTracked(index: seq<Entry>, rank: string -> nat, w: Walk)
    requires |index| > 0 && Ranked(index, rank)
    requires w == Walk([Pending(index[0].id, index[0].id, index[0].children, 0)], 0, [], |index[0].children|, [])
    ensures Tracked(index, rank, w)
  {
    FindIsFirst(index, index[0].id, 0);
    assert Known(index, index[0].id) && w.st[..0] == [];
    assert StackReferences(index, rank, w.st[..0]) == 0 && Waiting(w.st[..0]) == 0;
  }

  lemma AdvanceIsTracked(index: seq<Entry>, rank: string -> nat, all: seq<Construct>, w: Walk)
    requires Good(index, rank, all, w) && Tracked(index, rank, w) && w.st != [] && w.st[|w.st| - 1].todo != []
    ensures Tracked(index, rank, Advance(index, w))
  {
    hide *;
    var n := |w.st| - 1;
    var base, p := w.st[..n], w.st[n];
    var c := p.todo[0];
    AdvanceIs(index, rank, all, w);
    AdvanceLen(index, w);
    if Known(index, c.diagram) {
      var below := Find(index, c.diagram).value;
      OpenCounts(index, rank, base, p, c, below, w.off);
      TrackedAgain(index, rank, w, Advance(index, w), |below|);
    } else {
      PassCounts(index, rank, base, p, c);
      TrackedAgain(index, rank, w, Advance(index, w), 0);
    }
  }

  lemma AdvanceLen(index: seq<Entry>, w: Walk)
    requires w.st != [] && w.st[|w.st| - 1].todo != []
    ensures var (a, found) := (Advance(index, w), Find(index, w.st[|w.st| - 1].todo[0].diagram));
      && a.progress == w.progress && a.st != []
      && a.itemsLen == w.itemsLen + if found.Some? then |found.value| else 0
  {
    hide Find;
  }

  lemma OpenCounts(index: seq<Entry>, rank: string -> nat, st: seq<Pending>, p: Pending, c: Child,
                   below: seq<Child>, off: nat)
    requires Ranked(index, rank) && Sound(index, rank, st + [p])
    requires p.todo != [] && c == p.todo[0] && Known(index, c.diagram) && Find(index, c.diagram) == Some(below)
    ensures var st' := Opened(st, p, c, below, off);
      && Sound(index, rank, st')
      && |below| + StackReferences(index, rank, st') == StackReferences(index, rank, st + [p])
      && |st'| + Waiting(st') == |st + [p]| + Waiting(st + [p]) + |below|
  {
    var q, r := p.(todo := p.todo[1..]), Pending(c.name, c.diagram, below, off + 1);
    AdvanceIntoWork(index, rank, st, p, c, below, off);
    TopReferences(index, rank, st, p);
    TopReferences(index, rank, st + [q], r);
    TopReferences(index, rank, st, q);
    hide StackReferences, Waiting, Sound, Ranked;
    assert c in p.todo;
  }

  lemma PassCounts(index: seq<Entry>, rank: string -> nat, st: seq<Pending>, p: Pending, c: Child)
    requires Ranked(index, rank) && Sound(index, rank, st + [p])
    requires p.todo != [] && c == p.todo[0] && Find(index, c.diagram).None?
    ensures var st' := st + [p.(todo := p.todo[1..])];
      && Sound(index, rank, st')
      && StackReferences(index, rank, st') == StackReferences(index, rank, st + [p])
      && |st'| + Waiting(st') == |st + [p]| + Waiting(st + [p]) - 1
  {
    AdvancePast(index, rank, st, p, c, 0);
    TopReferences(index, rank, st, p);
    TopReferences(index, rank, st, p.(todo := p.todo[1..]));
    hide StackReferences, Waiting, Sound, Ranked;
  }

  lemma TrackedAgain(index: seq<Entry>, rank: string -> nat, w: Walk, w': Walk, more: nat)
    requires Tracked(index, rank, w) && Sound(index, rank, w'.st) && w'.st != []
    requires w'.out == w.out && w'.progress == w.progress && w'.itemsLen == w.itemsLen + more
    requires more + StackReferences(index, rank, w'.st) == StackReferences(index, rank, w.st)
    requires |w'.st| + Waiting(w'.st) <= |w.st| + Waiting(w.st) + more
    ensures Tracked(index, rank, w')
  {
    hide StackReferences, Waiting, AllReferences, Sound, Ranked;
  }

  lemma TopReferences(index: seq<Entry>, rank: string -> nat, st: seq<Pending>, p: Pending)
    requires Ranked(index, rank) && Sound(index, rank, st + [p])
    ensures Sound(index, rank, st) && Below(index, rank, p.id, p.todo)
    ensures StackReferences(index, rank, st + [p])
         == References(index, rank, p.id, p.todo) + StackReferences(index, rank, st)
    ensures Waiting(st + [p]) == |p.todo| + Waiting(st)
  {
    assert p in st + [p] && (st + [p])[..|st|] == st;
    assert forall q :: q in st ==> q in st + [p];
    hide References, Below, Ranked;
  }

  lemma PopIsTracked(index: seq<Entry>, rank: string -> nat, w: Walk)
    requires Tracked(index, rank, w) && w.st != [] && w.st[|w.st| - 1].todo == []
    ensures Tracked(index, rank, Pop(w))
  {
    var n := |w.st| - 1;
    assert w.st == w.st[..n] + [w.st[n]];
    TopReferences(index, rank, w.st[..n], w.st[n]);
    hide StackReferences, Waiting, AllReferences, Ranked, Find;
  }

  lemma EndIsTracked(index: seq<Entry>, rank: string -> nat, w: Walk)
    requires Tracked(index, rank, w) && w.st == []
    ensures InStep(w.progress, |w.out|, AllReferences(index, rank)) && w.out != []
    ensures w.progress[|w.out| - 1] == AllReferences(index, rank)
  {
  }

  // ----- what the maximum counts

  /** The children in the entry of a diagram, none for one that has no entry. */
  function KidsIn(index: seq<Entry>, id: string): seq<Child> {
    var cs := Find(index, id);
    if cs.Some? then cs.value else []
  }

  function ReferencesOf(index: seq<Entry>, id: string): nat { |KidsIn(index, id)| }

  /** The references of those of `cs` that have been opened before the number `end` is used. */
  function KnownReferences(index: seq<Entry>, cs: seq<Construct>, end: nat): nat {
    if cs == [] then 0
    else (if cs[0].start < end then ReferencesOf(index, cs[0].diagram) else 0) + KnownReferences(index, cs[1..], end)
  }

  /** The references of the diagrams on the stack, dealt with or not. */
  function StackOpened(index: seq<Entry>, st: seq<Pending>): nat {
    if st == [] then 0 else ReferencesOf(index, st[|st| - 1].id) + StackOpened(index, st[..|st| - 1])
  }

  /** The number of references known counts the diagrams listed and those on the stack. */
  ghost predicate Counts(index: seq<Entry>, all: seq<Construct>, w: Walk) {
    && w.itemsLen == KnownReferences(index, w.out, w.off + 1) + StackOpened(index, w.st)
    && (forall c :: c in w.out ==> c.start <= w.off) && (forall p :: p in w.st ==> p.start <= w.off)
    && |w.progress| == |w.out|
    && forall k :: 0 <= k < |w.out| ==> w.progress[k] == KnownReferences(index, all, w.out[k].end)
  }

  lemma {:induction false} OpenedAppend(index: seq<Entry>, a: seq<Construct>, b: seq<Construct>, end: nat)
    ensures KnownReferences(index, a + b, end) == KnownReferences(index, a, end) + KnownReferences(index, b, end)
  {
    if a == [] {
      assert a + b == b;
    } else {
      assert (a + b)[1..] == a[1..] + b;
      OpenedAppend(index, a[1..], b, end);
    }
  }

  lemma {:induction false} OpenedLater(index: seq<Entry>, cs: seq<Construct>, end: nat, later: nat)
    requires end <= later && forall c :: c in cs ==> c.start < end
    ensures KnownReferences(index, cs, end) == KnownReferences(index, cs, later)
  {
    if cs != [] { OpenedLater(index, cs[1..], end, later); }
  }

  lemma {:induction false} NoneOpened(index: seq<Entry>, cs: seq<Construct>, end: nat)
    requires forall c :: c in cs ==> end <= c.start
    ensures KnownReferences(index, cs, end) == 0
  {
    if cs != [] { NoneOpened(index, cs[1..], end); }
  }

  lemma OpenedOne(index: seq<Entry>, c: Construct, cs: seq<Construct>, end: nat)
    requires c.start < end
    ensures KnownReferences(index, [c] + cs, end) == ReferencesOf(index, c.diagram) + KnownReferences(index, cs, end)
  {
    assert ([c] + cs)[1..] == cs;
  }

  lemma StackOpenedTop(index: seq<Entry>, st: seq<Pending>, p: Pending)
    ensures StackOpened(index, st + [p]) == ReferencesOf(index, p.id) + StackOpened(index, st)
  {
    assert (st + [p])[..|st|] == st;
  }

  /** Of what is still to come, only the diagrams on the stack have been opened. */
  lemma {:induction false} FinishOpened(index: seq<Entry>, rank: string -> nat, st: seq<Pending>, off: nat, end: nat)
    requires Ranked(index, rank) && Sound(index, rank, st) && end <= off + 1
    requires forall p :: p in st ==> p.start < end
    ensures KnownReferences(index, Finish(index, rank, st, off), end) == StackOpened(index, st)
    decreases |st|
  {
    if st != [] {
      var n := |st| - 1;
      var (p, base) := (st[n], st[..n]);
      assert st == base + [p] && p in st && forall q :: q in base ==> q in st;
      var parts := FinishParts(index, rank, base, p, off);
      var (kids, close) := parts;
      var (c, later) := (Construct(p.name, p.id, p.start, close), Finish(index, rank, base, close));
      hide *;
      FinishOpened(index, rank, base, close, end);
      OpenedAppend(index, Number(kids, off + 1), [c] + later, end);
      NoneOpened(index, Number(kids, off + 1), end);
      OpenedOne(index, c, later, end);
      StackOpenedTop(index, base, p);
    }
  }

  lemma FinishParts(index: seq<Entry>, rank: string -> nat, base: seq<Pending>, p: Pending, off: nat)
    returns (parts: (Forest, nat))
    requires Ranked(index, rank) && Sound(index, rank, base + [p])
    ensures Sound(index, rank, base) && off < parts.1
    ensures var (kids, close) := parts;
      && Finish(index, rank, base + [p], off)
         == Number(kids, off + 1) + ([Construct(p.name, p.id, p.start, close)] + Finish(index, rank, base, close))
      && forall c :: c in Number(kids, off + 1) ==> off + 1 <= c.start
  {
    assert p in base + [p];
    var kids := Unfold(index, rank, p.id, p.todo);
    var close := off + 1 + 2 * Size(kids);
    parts := (kids, close);
    NumberBounds(kids, off + 1);
    hide *;
    FinishOfTop(index, rank, base, p, off, kids, close);
    ClosingIs(index, rank, base, p, p, close);
    NumberThenIsNumber(kids, off + 1, [Construct(p.name, p.id, p.start, close)] + Finish(index, rank, base, close));
  }

  lemma StartCounts(index: seq<Entry>, all: seq<Construct>, w: Walk)
    requires |index| > 0
    requires w == Walk([Pending(index[0].id, index[0].id, index[0].children, 0)], 0, [], |index[0].children|, [])
    ensures Counts(index, all, w)
  {
    assert w.st == [] + [w.st[0]];
    StackOpenedTop(index, [], w.st[0]);
  }

  lemma AdvanceCounts(index: seq<Entry>, rank: string -> nat, all: seq<Construct>, w: Walk)
    requires Good(index, rank, all, w) && Counts(index, all, w) && w.st != [] && w.st[|w.st| - 1].todo != []
    ensures Counts(index, all, Advance(index, w))
  {
    hide *;
    var n := |w.st| - 1;
    var (base, p) := (w.st[..n], w.st[n]);
    var (q, c) := (p.(todo := p.todo[1..]), p.todo[0]);
    TakeNext(w.st, n);
    assert w.st[..n + 1] == w.st;
    AdvanceShape(index, w, base, p);
    StackOpenedTop(index, base, p);
    StackOpenedTop(index, base, q);
    StackOpenedTop(index, base + [q], Pending(c.name, c.diagram, KidsIn(index, c.diagram), w.off + 1));
    CountsAgain(index, all, w, Advance(index, w));
  }

  lemma AdvanceShape(index: seq<Entry>, w: Walk, base: seq<Pending>, p: Pending)
    requires w.st == base + [p] && p.todo != []
    ensures var (q, c, a) := (p.(todo := p.todo[1..]), p.todo[0], Advance(index, w));
      && q.id == p.id && a.out == w.out && a.progress == w.progress && w.off <= a.off
      && a.itemsLen == w.itemsLen + ReferencesOf(index, c.diagram)
      && (if Find(index, c.diagram).Some?
          then a.st == base + [q] + [Pending(c.name, c.diagram, KidsIn(index, c.diagram), w.off + 1)]
          else a.st == base + [q] && ReferencesOf(index, c.diagram) == 0)
      && ((forall r :: r in w.st ==> r.start <= w.off) ==> forall r :: r in a.st ==> r.start <= a.off)
  {
    assert w.st[..|base|] == base && p in w.st && forall r :: r in base ==> r in w.st;
    hide Find;
  }

  lemma CountsAgain(index: seq<Entry>, all: seq<Construct>, w: Walk, w': Walk)
    requires Counts(index, all, w) && w'.out == w.out && w'.progress == w.progress && w.off <= w'.off
    requires w'.itemsLen - StackOpened(index, w'.st) == w.itemsLen - StackOpened(index, w.st)
    requires (forall p :: p in w.st ==> p.start <= w.off) ==> forall p :: p in w'.st ==> p.start <= w'.off
    ensures Counts(index, all, w')
  {
    OpenedLater(index, w.out, w.off + 1, w'.off + 1);
    hide StackOpened, KnownReferences;
  }

  lemma PopCounts(index: seq<Entry>, rank: string -> nat, all: seq<Construct>, w: Walk)
    requires Good(index, rank, all, w) && Counts(index, all, w) && w.st != [] && w.st[|w.st| - 1].todo == []
    ensures Counts(index, all, Pop(w))
  {
    var n := |w.st| - 1;
    var p := w.st[n];
    var c := Construct(p.name, p.id, p.start, w.off + 1);
    CountsAre(index, rank, all, w);
    hide *;
    FinishOpened(index, rank, w.st, w.off, w.off + 1);
    OpenedAppend(index, w.out, Finish(index, rank, w.st, w.off), w.off + 1);
    OpenedWith(index, w.out, c, w.off);
    PopAgain(index, all, w, c);
  }

  lemma CountsAre(index: seq<Entry>, rank: string -> nat, all: seq<Construct>, w: Walk)
    requires Good(index, rank, all, w) && Counts(index, all, w) && w.st != []
    ensures Ranked(index, rank) && Sound(index, rank, w.st) && all == w.out + Finish(index, rank, w.st, w.off)
    ensures w.itemsLen == KnownReferences(index, w.out, w.off + 1) + StackOpened(index, w.st)
    ensures (forall c :: c in w.out ==> c.start <= w.off) && (forall p :: p in w.st ==> p.start <= w.off)
    ensures w.st[|w.st| - 1] in w.st
  {
    hide Finish, Sound, Ranked, KnownReferences, StackOpened;
  }

  /** The construct that is closed has been opened before. */
  lemma OpenedWith(index: seq<Entry>, out: seq<Construct>, c: Construct, off: nat)
    requires (forall d :: d in out ==> d.start <= off) && c.start <= off
    ensures KnownReferences(index, out + [c], off + 2)
         == KnownReferences(index, out, off + 1) + ReferencesOf(index, c.diagram)
  {
    OpenedLater(index, out, off + 1, off + 2);
    OpenedAppend(index, out, [c], off + 2);
    OpenedOne(index, c, [], off + 2);
    assert [c] + [] == [c];
    hide ReferencesOf;
  }

  lemma PopAgain(index: seq<Entry>, all: seq<Construct>, w: Walk, c: Construct)
    requires Counts(index, all, w) && w.st != []
    requires var p := w.st[|w.st| - 1]; c == Construct(p.name, p.id, p.start, w.off + 1)
    requires w.itemsLen == KnownReferences(index, all, w.off + 1)
    requires KnownReferences(index, w.out + [c], w.off + 2)
          == KnownReferences(index, w.out, w.off + 1) + ReferencesOf(index, c.diagram)
    ensures Counts(index, all, Pop(w))
  {
    var n := |w.st| - 1;
    assert w.st == w.st[..n] + [w.st[n]] && w.st[n] in w.st;
    StackOpenedTop(index, w.st[..n], w.st[n]);
    hide KnownReferences, StackOpened, ReferencesOf;
  }

  lemma EndCounts(index: seq<Entry>, all: seq<Construct>, w: Walk)
    requires Counts(index, all, w) && w.out == all
    ensures forall k :: 0 <= k < |all| ==> w.progress[k] == KnownReferences(index, all, all[k].end)
  {
  }

  // ----- the walk on the diagram file

  /** `s` less the first occurrence of `c`. */
  function Without(s: seq<Child>, c: Child): seq<Child> {
    if s == [] then [] else if s[0] == c then s[1..] else [s[0]] + Without(s[1..], c)
  }

  lemma {:induction false} FindIsFirst(index: seq<Entry>, id: string, k: nat)
    requires k <= |index| && (k < |index| ==> index[k].id == id)
    requires forall j :: 0 <= j < k ==> index[j].id != id
    ensures Find(index, id) == if k < |index| then Some(index[k].children) else None
  {
    if 0 < k { FindIsFirst(index[1..], id, k - 1); }
  }

  /** The position of the first row for `id`, or the number of rows. */
  method FindRow(index: seq<Entry>, id: string) returns (k: nat)
    ensures k <= |index|
    ensures Find(index, id) == if k < |index| then Some(index[k].children) else None
  {
    k := 0;
    while k < |index| && index[k].id != id
      invariant k <= |index| && forall j :: 0 <= j < k ==> index[j].id != id
    {
      k := k + 1;
    }
    FindIsFirst(index, id, k);
  }

  /**
   The index while the walk runs: the list of the bottom frame is not a copy but the root's own
   child list, so removing from one removes from the other.
   */
  ghost function Shared(before: seq<Entry>, st: seq<Pending>): seq<Entry>
    requires before != []
  {
    before[0 := Entry(before[0].id, if st == [] then [] else st[0].todo)]
  }

  /** Takes the next reference of the top frame, and stacks the diagram it names if there is one. */
  method VisitChild(diags: DiagramFile, ghost before: seq<Entry>, ghost rank: string -> nat, ghost all: seq<Construct>,
                    w: Walk, child: Child)
    returns (w': Walk)
    requires before != [] && Good(before, rank, all, w) && diags.index == Shared(before, w.st)
    requires w.st != [] && w.st[|w.st| - 1].todo != [] && child == w.st[|w.st| - 1].todo[0]
    modifies diags`index
    ensures w' == Advance(before, w) && diags.index == Shared(before, w'.st)
  {
    NextIsNotRoot(before, rank, all, w);
    hide Good;
    var st, off, n, itemsLen := w.st, w.off, |w.st| - 1, w.itemsLen;
    var k := FindRow(diags.index, child.diagram);
    assert Find(diags.index, child.diagram) == Find(before, child.diagram);
    if k < |diags.index| {
      off := off + 1;
      itemsLen := itemsLen + |diags.index[k].children|;
      st := st + [Pending(child.name, child.diagram, diags.index[k].children, off)];
    }
    var todo := Without(st[n].todo, child);
    st := st[n := st[n].(todo := todo)];
    if n == 0 { diags.index := diags.index[0 := diags.index[0].(children := todo)]; }
    w' := Walk(st, off, w.out, itemsLen, w.progress);
  }

  /** Visits references of the top frame until one of them opens a diagram that has its own. */
  method VisitChildren(diags: DiagramFile, ghost before: seq<Entry>, ghost rank: string -> nat,
                       ghost all: seq<Construct>, w: Walk)
    returns (w': Walk)
    requires before != [] && Good(before, rank, all, w) && Tracked(before, rank, w) && Counts(before, all, w)
    requires diags.index == Shared(before, w.st) && w.st != []
    modifies diags`index
    ensures Good(before, rank, all, w') && Tracked(before, rank, w') && Counts(before, all, w')
    ensures diags.index == Shared(before, w'.st)
    ensures (w' == w && w.st[|w.st| - 1].todo == []) || Work(before, rank, w'.st) < Work(before, rank, w.st)
  {
    hide Good, Tracked, Counts, Work, Advance, Pop, Shared;
    w' := w;
    var copy := w.st[|w.st| - 1].todo;
    for i := 0 to |copy|
      invariant Good(before, rank, all, w') && Tracked(before, rank, w') && Counts(before, all, w')
      invariant diags.index == Shared(before, w'.st)
      invariant i < |copy| ==> w'.st != [] && w'.st[|w'.st| - 1].todo == copy[i..]
      invariant if i == 0 then w' == w else Work(before, rank, w'.st) < Work(before, rank, w.st)
    {
      AdvanceIsGood(before, rank, all, w');
      AdvanceIsTracked(before, rank, all, w');
      AdvanceCounts(before, rank, all, w');
      NextTop(before, w', copy, i);
      w' := VisitChild(diags, before, rank, all, w', copy[i]);
      if w'.st[|w'.st| - 1].todo != [] { break; }
      PopIsGood(before, rank, all, w');
      PopIsTracked(before, rank, w');
      PopCounts(before, rank, all, w');
      PopLeavesIndex(before, w');
      w' := Pop(w');
    }
  }

  /** When the frame on top of the stack is finished, the one below goes on with the next reference. */
  lemma NextTop(index: seq<Entry>, w: Walk, copy: seq<Child>, i: nat)
    requires i < |copy| && w.st != [] && w.st[|w.st| - 1].todo == copy[i..]
    ensures var a := Advance(index, w);
      && a.st != []
      && (a.st[|a.st| - 1].todo == [] && i + 1 < |copy| ==>
           Pop(a).st != [] && Pop(a).st[|Pop(a).st| - 1].todo == copy[i + 1..])
  {
    assert copy[i..][1..] == copy[i + 1..];
    hide Find;
  }

  lemma PopLeavesIndex(before: seq<Entry>, w: Walk)
    requires before != [] && w.st != [] && w.st[|w.st| - 1].todo == []
    ensures Shared(before, Pop(w).st) == Shared(before, w.st)
  {
  }

  /** Closes the frames on top of the stack that have nothing left to visit. */
  method CloseFinished(diags: DiagramFile, ghost before: seq<Entry>, ghost rank: string -> nat,
                       ghost all: seq<Construct>, w: Walk)
    returns (w': Walk)
    requires before != [] && Good(before, rank, all, w) && Tracked(before, rank, w) && Counts(before, all, w)
    requires diags.index == Shared(before, w.st)
    ensures Good(before, rank, all, w') && Tracked(before, rank, w') && Counts(before, all, w')
    ensures diags.index == Shared(before, w'.st)
    ensures (w' == w && (w.st != [] ==> w.st[|w.st| - 1].todo != []))
            || Work(before, rank, w'.st) < Work(before, rank, w.st)
  {
    hide Good, Tracked, Counts, Work;
    w' := w;
    while w'.st != [] && w'.st[|w'.st| - 1].todo == []
      invariant Good(before, rank, all, w') && Tracked(before, rank, w') && Counts(before, all, w')
      invariant diags.index == Shared(before, w'.st)
      invariant w' == w || Work(before, rank, w'.st) < Work(before, rank, w.st)
      decreases |w'.st|
    {
      PopIsGood(before, rank, all, w');
      PopIsTracked(before, rank, w');
      PopCounts(before, rank, all, w');
      w' := Pop(w');
    }
  }

  /**
   Runs the walk. The constructs come out exactly as the numbered unfolding of the model in
   post-order. The maximum that is shown for each construct counts the references of all diagrams
   that have been opened before the construct is closed. It only grows, is never below the number
   of constructs before it, and ends as the number of all references, which is less than the
   number of constructs exactly if every reference is resolved. The child list of the root is
   consumed in place, and nothing else changes.
   */
  method ProcessItem(diags: DiagramFile, ghost rank: string -> nat)
    returns (out: seq<Construct>, progress: seq<nat>)
    requires diags.index != [] && Ranked(diags.index, rank)
    modifies diags`index
    ensures out == Number(Model(old(diags.index), rank), 0)
    ensures InStep(progress, |out|, AllReferences(old(diags.index), rank))
    ensures forall k :: 0 <= k < |out| ==> progress[k] == KnownReferences(old(diags.index), out, out[k].end)
    ensures out != [] && progress[|out| - 1] == AllReferences(old(diags.index), rank)
    ensures |out| > progress[|out| - 1] <==> AllResolved(old(diags.index), rank)
    ensures diags.index == old(diags.index)[0 := Entry(old(diags.index)[0].id, [])]
  {
    ghost var before := diags.index;
    ghost var all := Number(Model(before, rank), 0);
    var root := diags.index[0];
    var w := Walk([Pending(root.id, root.id, root.children, 0)], 0, [], |root.children|, []);
    StartIsGood(before, rank, w);
    StartIsTracked(before, rank, w);
    StartCounts(before, all, w);
    hide Number, Model, Good, Tracked, Counts, Work;
    while w.st != []
      invariant Good(before, rank, all, w) && Tracked(before, rank, w) && Counts(before, all, w)
      invariant diags.index == Shared(before, w.st)
      decreases Work(before, rank, w.st)
    {
      w := VisitChildren(diags, before, rank, all, w);
      w := CloseFinished(diags, before, rank, all, w);
    }
    EndIsGood(before, rank, all, w);
    EndIsTracked(before, rank, w);
    EndCounts(before, all, w);
    ProgressExceedsIff(before, rank);
    out, progress := w.out, w.progress;
  }
}
