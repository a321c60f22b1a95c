/**
 Loading every diagram that a model refers to, while the index that is walked keeps growing.
 */
module DiagramLoading {
  import opened DiagramTree
  import opened OutlineBuilder

  /** The files that can be loaded: the one for a diagram holds an entry for it. */
  ghost predicate Files(files: map<string, seq<Entry>>) {
    forall id :: id in files ==> Known(files[id], id)
  }

  /** Every reference of the entry is loaded, or has no file. */
  ghost predicate Settled(index: seq<Entry>, files: map<string, seq<Entry>>, cs: seq<Child>) {
    forall c :: c in cs ==> Known(index, c.diagram) || c.diagram !in files
  }

  /** The index after the files for `ids` have been loaded one after the other. */
  ghost function Extended(index: seq<Entry>, files: map<string, seq<Entry>>, ids: seq<string>): seq<Entry>
    requires forall id :: id in ids ==> id in files
  {
    if ids == [] then index
    else Extended(index, files, ids[..|ids| - 1]) + files[ids[|ids| - 1]]
  }

  /** Each id loaded was named by an entry already there and was itself not there, so none is loaded twice. */
  ghost predicate OnDemand(index: seq<Entry>, files: map<string, seq<Entry>>, ids: seq<string>) {
    (forall id :: id in ids ==> id in files) &&
    forall j {:trigger ids[..j]} :: 0 <= j < |ids| ==>
      var before := Extended(index, files, ids[..j]);
      !Known(before, ids[j]) && exists e, c :: e in before && c in e.children && c.diagram == ids[j]
  }

  lemma {:induction false} KnownAppend(a: seq<Entry>, b: seq<Entry>, id: string)
    ensures Known(a + b, id) <==> Known(a, id) || Known(b, id)
  {
    if a == [] {
      assert a + b == b;
    } else {
      assert (a + b)[1..] == a[1..] + b;
      KnownAppend(a[1..], b, id);
    }
  }

  lemma {:induction false} KnownIsContained(index: seq<Entry>, id: string)
    ensures Known(index, id) <==> id in Ids(index)
  {
    if index != [] { KnownIsContained(index[1..], id); }
  }

  lemma {:induction false} IdsAppend(a: seq<Entry>, b: seq<Entry>)
    ensures Ids(a + b) == Ids(a) + Ids(b)
  {
    if a == [] {
      assert a + b == b;
    } else {
      assert (a + b)[1..] == a[1..] + b;
      IdsAppend(a[1..], b);
    }
  }

  /** What has been loaded is what was there at the start, and the entries of the files loaded, all of them. */
  lemma {:induction false} ExtendedHas(index: seq<Entry>, files: map<string, seq<Entry>>, ids: seq<string>, e: Entry)
    requires forall id :: id in ids ==> id in files
    ensures index <= Extended(index, files, ids)
    ensures e in Extended(index, files, ids) <==> e in index || exists id :: id in ids && e in files[id]
  {
    if ids != [] {
      var n := |ids| - 1;
      ExtendedHas(index, files, ids[..n], e);
      assert ids == ids[..n] + [ids[n]];
    }
  }

  /** No file is loaded twice, nor one whose diagram was there at the start. */
  lemma LoadedOnce(index: seq<Entry>, files: map<string, seq<Entry>>, ids: seq<string>, j: nat)
    requires Files(files) && OnDemand(index, files, ids) && j < |ids|
    ensures !Known(index, ids[j]) && ids[j] !in ids[..j]
  {
    var before := ids[..j];
    assert !Known(Extended(index, files, before), ids[j]);
    assert forall id :: id in before ==> id in ids;
    forall i | 0 <= i < j ensures ids[i] != ids[j] { StaysKnown(index, files, before, ids[i]); }
    if Known(index, ids[j]) { StaysKnown(index, files, before, ids[j]); }
  }

  lemma {:induction false} StaysKnown(index: seq<Entry>, files: map<string, seq<Entry>>, ids: seq<string>, id: string)
    requires Files(files) && (forall x :: x in ids ==> x in files) && (Known(index, id) || id in ids)
    ensures Known(Extended(index, files, ids), id)
  {
    if ids != [] {
      var n := |ids| - 1;
      KnownAppend(Extended(index, files, ids[..n]), files[ids[n]], id);
      if Known(index, id) || id in ids[..n] {
        StaysKnown(index, files, ids[..n], id);
      } else {
        assert ids == ids[..n] + [ids[n]];
      }
    }
  }

  lemma ExtendOnce(index: seq<Entry>, files: map<string, seq<Entry>>, ids: seq<string>, e: Entry, c: Child)
    requires OnDemand(index, files, ids) && c.diagram in files
    requires !Known(Extended(index, files, ids), c.diagram)
    requires e in Extended(index, files, ids) && c in e.children
    ensures OnDemand(index, files, ids + [c.diagram])
    ensures Extended(index, files, ids + [c.diagram]) == Extended(index, files, ids) + files[c.diagram]
  {
    var all := ids + [c.diagram];
    assert all[..|ids|] == ids;
    forall j | 0 <= j < |all|
      ensures var before := Extended(index, files, all[..j]);
        !Known(before, all[j]) && exists e, c :: e in before && c in e.children && c.diagram == all[j]
    {
      if j < |ids| { assert all[..j] == ids[..j]; }
    }
  }

  /** Whether a diagram is in the file. */
  method Contains(diags: DiagramFile, id: string) returns (found: bool)
    ensures found <==> id in diags.diagrams
  {
    for i := 0 to |diags.diagrams|
      invariant id !in diags.diagrams[..i]
    {
      if diags.diagrams[i] == id { return true; }
    }
    return false;
  }

  /** Loads the file for `id` unless the diagram is there already or has no file. */
  method LoadReferencedDiagram(diags: DiagramFile, files: map<string, seq<Entry>>, id: string) returns (loaded: bool)
    requires diags.InStep()
    modifies diags
    ensures diags.InStep()
    ensures loaded <==> !Known(old(diags.index), id) && id in files
    ensures diags.index == if loaded then old(diags.index) + files[id] else old(diags.index)
  {
    KnownIsContained(diags.index, id);
    var contained := Contains(diags, id);
    loaded := !contained && id in files;
    if loaded {
      IdsAppend(diags.index, files[id]);
      diags.index := diags.index + files[id];
      diags.diagrams := diags.diagrams + Ids(files[id]);
    }
  }

  /** Loads what the children of one entry refer to. */
  method LoadChildren(diags: DiagramFile, files: map<string, seq<Entry>>, e: Entry,
                      ghost start: seq<Entry>, ghost ids: seq<string>, ghost left: set<string>)
    returns (ghost ids': seq<string>, ghost left': set<string>)
    requires Files(files) && diags.InStep() && e in diags.index && Loading(start, files, ids, left, diags.index)
    modifies diags
    ensures diags.InStep() && Loading(start, files, ids', left', diags.index) && old(diags.index) <= diags.index
    ensures Settled(diags.index, files, e.children)
    ensures forall id :: Known(old(diags.index), id) ==> Known(diags.index, id)
    ensures if ids' == ids then diags.index == old(diags.index) && left' == left else left' < left
  {
    hide OnDemand, Extended, Find, Ids;
    ids', left' := ids, left;
    for k := 0 to |e.children|
      invariant diags.InStep() && Loading(start, files, ids', left', diags.index) && old(diags.index) <= diags.index
      invariant Settled(diags.index, files, e.children[..k])
      invariant forall id :: Known(old(diags.index), id) ==> Known(diags.index, id)
      invariant if ids' == ids then diags.index == old(diags.index) && left' == left else left' < left && |ids| < |ids'|
    {
      var c := e.children[k];
      ghost var before := diags.index;
      var loaded := LoadReferencedDiagram(diags, files, c.diagram);
      if loaded {
        ExtendOnce(start, files, ids', e, c);
        ids', left' := ids' + [c.diagram], left' - {c.diagram};
        forall id ensures Known(diags.index, id) <==> Known(before, id) || Known(files[c.diagram], id) {
          KnownAppend(before, files[c.diagram], id);
        }
      }
      assert e.children[..k + 1] == e.children[..k] + [c];
    }
    assert e.children[..|e.children|] == e.children;
  }

  /** `ids` have been loaded on demand, and any file not in `left` is no longer needed. */
  ghost predicate Loading(start: seq<Entry>, files: map<string, seq<Entry>>, ids: seq<string>, left: set<string>,
                          index: seq<Entry>)
  {
    && OnDemand(start, files, ids) && index == Extended(start, files, ids)
    && forall id :: id in files && id !in left ==> Known(index, id)
  }

  /**
   Walks over the index while loading extends it. When the walk ends, every reference of every
   entry, loaded ones included, is loaded or has no file; only files that were needed have been
   loaded, each once, and the entries of the start come first.
   */
  method LoadAllReferencedDiagrams(diags: DiagramFile, files: map<string, seq<Entry>>) returns (ghost ids: seq<string>)
    requires Files(files) && diags.InStep()
    modifies diags
    ensures diags.InStep()
    ensures forall e :: e in diags.index ==> Settled(diags.index, files, e.children)
    ensures OnDemand(old(diags.index), files, ids) && diags.index == Extended(old(diags.index), files, ids)
  {
    ghost var start := diags.index;
    ghost var left := files.Keys;
    ids := [];
    var i := 0;
    while i < |diags.index|
      invariant diags.InStep() && 0 <= i <= |diags.index| && Loading(start, files, ids, left, diags.index)
      invariant forall j :: 0 <= j < i ==> Settled(diags.index, files, diags.index[j].children)
      decreases left, |diags.index| - i
    {
      ids, left := LoadChildren(diags, files, diags.index[i], start, ids, left);
      i := i + 1;
    }
  }
}
