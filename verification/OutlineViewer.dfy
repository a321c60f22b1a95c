/**
 The viewer of one model: its outline once parsed, and the history of visited diagrams.
 */
module OutlineViewer {
  import opened Wrappers
  import opened Sequences
  import opened DiagramTree
  import opened OutlineBuilder
  import opened OutlineNavigation

  /** Taking the new element out again gives the list as it was. */
  function Inserted<T>(s: seq<T>, i: nat, x: T): (r: seq<T>)
    requires i <= |s|
    ensures |r| == |s| + 1 && r[i] == x && r[..i] + r[i + 1..] == s
  {
    s[..i] + [x] + s[i..]
  }

  /** The element at `i`, which counts from the end of the list when it is negative. */
  function FromEnd<T>(s: seq<T>, i: int): T
    requires -|s| <= i < |s|
  {
    if i < 0 then s[|s| + i] else s[i]
  }

  /** `m` finds every construct of `cs` by its id, and nothing else. */
  ghost predicate Indexes(m: map<ConstructId, Construct>, cs: seq<Construct>) {
    && (forall c :: c in cs ==> IdOf(c) in m && m[IdOf(c)] == c)
    && (forall id :: id in m ==> m[id] in cs && IdOf(m[id]) == id)
  }

  predicate EndsWith(s: string, t: string) { |t| <= |s| && s[|s| - |t|..] == t }

  /** `title` is the end of `path`, after a slash; before position 0 comes the last character. */
  predicate NamesEnd(path: string, title: string) {
    title != "" && EndsWith(path, title) &&
    path[if |title| == |path| then |path| - 1 else |path| - |title| - 1] == '/'
  }

  /** A path ends with the title behind a slash; the whole path does when it ends with one itself. */
  lemma NamesEndIff(path: string, title: string)
    ensures NamesEnd(path, title) <==>
      title != "" && ((exists front :: path == front + "/" + title) || (path == title && title[|title| - 1] == '/'))
  {
    if NamesEnd(path, title) && |title| < |path| {
      var k := |path| - |title|;
      assert path == path[..k - 1] + "/" + title;
    }
    if front :| title != "" && path == front + "/" + title {
      assert path[|path| - |title|..] == title && path[|front|] == '/';
    }
  }

  /** `r` is the first of the constructs whose title is the longest that names the end of `path`. */
  ghost predicate BestNamed(cs: seq<Construct>, display: string -> string, path: string, r: ConstructId) {
    if forall c :: c in cs ==> !NamesEnd(path, display(c.name)) then r == Blank
    else exists j :: 0 <= j < |cs| && BestAt(cs, display, path, j) && r == IdOf(cs[j])
  }

  ghost predicate BestAt(cs: seq<Construct>, display: string -> string, path: string, j: nat)
    requires j < |cs|
  {
    && NamesEnd(path, display(cs[j].name))
    && forall i :: 0 <= i < |cs| && NamesEnd(path, display(cs[i].name)) ==>
         |display(cs[i].name)| <= |display(cs[j].name)| && (i < j ==> |display(cs[i].name)| < |display(cs[j].name)|)
  }

  lemma {:induction false} LabelledIsListed(f: Forest, s: nat, li: seq<string>, c: Construct)
    requires li != [] && Labelled(f, s, li, c)
    ensures c in Number(f, s)
  {
    if Labelled(f.rest, s + 2 + 2 * Size(f.kids), li, c) {
      LabelledIsListed(f.rest, s + 2 + 2 * Size(f.kids), li, c);
    } else if |li| > 1 {
      LabelledIsListed(f.kids, s + 1, li[1..], c);
    }
  }

  lemma EndsAreDistinct(f: Forest, s: nat, i: nat, j: nat)
    requires i < j < |Number(f, s)|
    ensures Number(f, s)[i].end != Number(f, s)[j].end
  {
    NumberNested(f, s);
    NumberBounds(f, s);
    assert Number(f, s)[j] in Number(f, s);
  }

  /** The best construct so far, with the position in `path` where its title starts. */
  ghost predicate BestSoFar(cs: seq<Construct>, display: string -> string, path: string, idx: int, res: ConstructId) {
    if forall c :: c in cs ==> !NamesEnd(path, display(c.name)) then res == Blank && idx == |path|
    else exists j :: 0 <= j < |cs| && BestAt(cs, display, path, j)
                     && res == IdOf(cs[j]) && idx == |path| - |display(cs[j].name)|
  }

  lemma BestGrows(cs: seq<Construct>, c: Construct, display: string -> string, path: string,
                  idx: int, res: ConstructId, idx': int, res': ConstructId)
    requires BestSoFar(cs, display, path, idx, res)
    requires var title := display(c.name);
      if NamesEnd(path, title) && |path| - |title| < idx then res' == IdOf(c) && idx' == |path| - |title|
      else res' == res && idx' == idx
    ensures BestSoFar(cs + [c], display, path, idx', res')
  {
    var all := cs + [c];
    var better := NamesEnd(path, display(c.name)) && |path| - |display(c.name)| < idx;
    if forall d :: d in cs ==> !NamesEnd(path, display(d.name)) {
      if better { NewIsBest(cs, c, display, path); }
      assert NamesEnd(path, display(c.name)) ==> better;
    } else {
      var j :| 0 <= j < |cs| && BestAt(cs, display, path, j)
               && res == IdOf(cs[j]) && idx == |path| - |display(cs[j].name)|;
      if better { NewIsBest(cs, c, display, path); } else { OldStaysBest(cs, c, display, path, j); }
      assert all[j] == cs[j] && all[j] in all;
    }
    hide BestAt, NamesEnd, IdOf;
  }

  lemma NewIsBest(cs: seq<Construct>, c: Construct, display: string -> string, path: string)
    requires NamesEnd(path, display(c.name))
    requires forall i :: 0 <= i < |cs| && NamesEnd(path, display(cs[i].name)) ==>
               |display(cs[i].name)| < |display(c.name)|
    ensures BestAt(cs + [c], display, path, |cs|) && (cs + [c])[|cs|] == c && c in cs + [c]
  {
    hide NamesEnd;
  }

  lemma OldStaysBest(cs: seq<Construct>, c: Construct, display: string -> string, path: string, j: nat)
    requires j < |cs| && BestAt(cs, display, path, j)
    requires NamesEnd(path, display(c.name)) ==> |display(c.name)| <= |display(cs[j].name)|
    ensures BestAt(cs + [c], display, path, j)
  {
    hide NamesEnd;
  }

  /** Takes `c` if its title names more of the end of `path` than what was found so far. */
  method Consider(c: Construct, display: string -> string, path: string, idx: int, res: ConstructId)
    returns (idx': int, res': ConstructId)
    requires 0 <= idx <= |path|
    ensures 0 <= idx' <= |path|
    ensures if NamesEnd(path, display(c.name)) && |path| - |display(c.name)| < idx
            then res' == IdOf(c) && idx' == |path| - |display(c.name)|
            else res' == res && idx' == idx
  {
    idx', res' := idx, res;
    var title := display(c.name);
    if EndsWith(path, title) {
      var n := |path| - |title|;
      if n < idx && path[if n == 0 then |path| - 1 else n - 1] == '/' { res', idx' := IdOf(c), n; }
    }
  }

  /**
   Among the constructs that the scan from `from` finds, the one with the longest label that
   names the end of `path`.
   */
  method LongestNamed(cs: seq<Construct>, from: nat, display: string -> string, path: string) returns (res: ConstructId)
    ensures BestNamed(Scan(cs, -1, None, from), display, path, res)
    ensures res != Blank ==> exists c :: c in cs && res == IdOf(c)
  {
    var last: int := from;
    var idx := |path|;
    res := Blank;
    ghost var seen := [];
    NothingIsBest(display, path);
    hide *;
    assert cs[0..] == cs;
    for i := 0 to |cs|
      invariant Scan(cs, -1, None, from) == seen + Scan(cs[i..], -1, None, last)
      invariant BestSoFar(seen, display, path, idx, res)
      invariant res != Blank ==> exists c :: c in cs && res == IdOf(c)
      invariant 0 <= idx <= |path|
    {
      var c := cs[i];
      ScanStep(cs, i, last);
      if c.start == last + 1 {
        last := c.end;
        ghost var idx0, res0 := idx, res;
        idx, res := Consider(c, display, path, idx, res);
        BestGrows(seen, c, display, path, idx0, res0, idx, res);
        Assoc(seen, [c], Scan(cs[i + 1..], -1, None, last));
        seen := seen + [c];
      }
    }
    ScanOfNone(cs, last);
    assert Scan(cs, -1, None, from) == seen;
    BestIsBest(seen, display, path, idx, res);
  }

  lemma NothingIsBest(display: string -> string, path: string)
    ensures BestSoFar([], display, path, |path|, Blank)
  {
  }

  lemma BestIsBest(cs: seq<Construct>, display: string -> string, path: string, idx: int, res: ConstructId)
    requires BestSoFar(cs, display, path, idx, res)
    ensures BestNamed(cs, display, path, res)
  {
    hide BestAt, NamesEnd;
  }

  lemma ScanOfNone(cs: seq<Construct>, last: int)
    ensures Scan(cs[|cs|..], -1, None, last) == []
  {
  }

  /** One more construct of the list is looked at. */
  lemma ScanStep(cs: seq<Construct>, i: nat, last: int)
    requires i < |cs|
    ensures Scan(cs[i..], -1, None, last)
         == if cs[i].start == last + 1 then [cs[i]] + Scan(cs[i + 1..], -1, None, cs[i].end)
            else Scan(cs[i + 1..], -1, None, last)
  {
    assert cs[i..][1..] == cs[i + 1..];
  }

  /** The construct of `cs` that encloses the end of `c` and starts last, and `c` itself if none does. */
  method InnermostEnclosing(cs: seq<Construct>, c: Construct)
    returns (parent: string, parentCons: ConstructId, currentSloc: int, ghost best: Construct)
    ensures forall d :: d in cs && Encloses(d, c.end) ==> d.start <= currentSloc
    ensures if currentSloc == -1 then parent == c.diagram && best == c
            else best in cs && Encloses(best, c.end) && currentSloc == best.start
                 && parent == best.diagram && parentCons == IdOf(best)
  {
    var sloc := c.end;
    parent, parentCons, currentSloc, best := c.diagram, Blank, -1, c;
    for i := 0 to |cs|
      invariant forall j :: 0 <= j < i && Encloses(cs[j], sloc) ==> cs[j].start <= currentSloc
      invariant if currentSloc == -1 then parent == c.diagram && best == c
                else best in cs && Encloses(best, sloc) && currentSloc == best.start
                     && parent == best.diagram && parentCons == IdOf(best)
    {
      var d := cs[i];
      if d.start < sloc && d.start - sloc > currentSloc - sloc && d.end > sloc {
        currentSloc, parent, parentCons := d.start, d.diagram, IdOf(d);
        best := d;
      }
    }
  }

  /** The root is listed last, and no construct has the empty id. */
  lemma RootIsFound(index: seq<Entry>, rank: string -> nat, cs: seq<Construct>, m: map<ConstructId, Construct>)
    requires index != [] && Ranked(index, rank) && cs == Number(Model(index, rank), 0) && Indexes(m, cs)
    ensures cs != [] && cs[|cs| - 1] == Head(Model(index, rank), 0) && IdOf(cs[|cs| - 1]) in m && Blank !in m
  {
    RootIsLast(index, rank);
    hide Number;
    assert cs[|cs| - 1] in cs;
  }

  /** A path that was recorded is found in the finished outline exactly when it starts at the root. */
  lemma RecordedIsFound(index: seq<Entry>, rank: string -> nat, cs: seq<Construct>, m: map<ConstructId, Construct>,
                        li: seq<string>)
    requires index != [] && Ranked(index, rank) && cs == Number(Model(index, rank), 0) && Indexes(m, cs) && li != []
    ensures var r := SearchList(cs, li, -1, None, Blank); if li[0] == index[0].id then r in m else r == Blank
  {
    var k, c := SearchFindsLongestPrefix(index, rank, li);
    if k > 0 { LabelledIsListed(Model(index, rank), 0, li[..k], c); }
    hide Number, SearchList, Labelled, Labels, Ranked, Unfold;
  }

  class Viewer {
    var constructs: seq<Construct>
    var constructsMap: map<ConstructId, Construct>
    var parsingComplete: bool
    var navStatus: seq<ConstructId>
    var navIndex: int
    var preLoadBrowsing: seq<string>
    var lastDblclicked: string
    const display: string -> string
    ghost const index: seq<Entry>
    ghost const rank: string -> nat

    ghost function Outline(): Forest
      requires index != [] && Ranked(index, rank)
    {
      Model(index, rank)
    }

    /** The outline is complete, and the history holds constructs of it with a current one. */
    ghost predicate Outlined()
      reads this
    {
      && index != [] && Ranked(index, rank) && parsingComplete
      && constructs == Number(Outline(), 0) && Indexes(constructsMap, constructs)
      && 0 <= navIndex < |navStatus| && (forall id :: id in navStatus ==> id in constructsMap)
    }

    /** The outline is not complete: the history holds diagram ids. */
    ghost predicate Browsing()
      reads this
    {
      && index != [] && Ranked(index, rank) && !parsingComplete && navStatus == []
      && -1 <= navIndex < |preLoadBrowsing|
    }

    ghost predicate Valid()
      reads this
    {
      Outlined() || Browsing()
    }

    /** The construct the history is at. */
    ghost function Current(): Construct
      requires Outlined()
      reads this
    {
      constructsMap[navStatus[navIndex]]
    }

    constructor (ghost index: seq<Entry>, ghost rank: string -> nat, display: string -> string)
      requires index != [] && Ranked(index, rank)
      ensures Browsing() && this.index == index && this.rank == rank && constructs == [] && constructsMap == map[]
      ensures navIndex == -1 && preLoadBrowsing == []
    {
      constructs, constructsMap, parsingComplete := [], map[], false;
      navStatus, navIndex, preLoadBrowsing, lastDblclicked := [], -1, [], "";
      this.display := display;
      this.index, this.rank := index, rank;
    }

    // ----- the history

    method UpdateNavStatus(id: ConstructId)
      requires Outlined() && (id != Blank ==> id in constructsMap)
      modifies `navIndex, `navStatus
      ensures Outlined()
      ensures if id == Blank then navIndex == old(navIndex) && navStatus == old(navStatus)
              else navIndex == old(navIndex) + 1 && navStatus == Inserted(old(navStatus), navIndex, id)
    {
      if id != Blank {
        navIndex := navIndex + 1;
        navStatus := Inserted(navStatus, navIndex, id);
      }
    }

    method UpdatePreloadingNav(diagram: string)
      requires Browsing()
      modifies `navIndex, `preLoadBrowsing
      ensures Browsing() && navIndex == old(navIndex) + 1
      ensures preLoadBrowsing == Inserted(old(preLoadBrowsing), navIndex, diagram)
    {
      navIndex := navIndex + 1;
      preLoadBrowsing := Inserted(preLoadBrowsing, navIndex, diagram);
    }

    /** Steps back in the history; the step forward that led here is undone. */
    method GetPrevDiag() returns (r: Option<string>)
      requires Valid()
      modifies `navIndex
      ensures Valid() && parsingComplete == old(parsingComplete)
      ensures old(navIndex) <= 0 ==> r == None && navIndex == old(navIndex)
      ensures old(navIndex) > 0 ==>
        && navIndex == old(navIndex) - 1
        && r == Some(if parsingComplete then Current().diagram else preLoadBrowsing[navIndex])
    {
      if navIndex <= 0 { return None; }
      navIndex := navIndex - 1;
      if parsingComplete {
        r := Some(constructsMap[navStatus[navIndex]].diagram);
      } else {
        r := Some(preLoadBrowsing[navIndex]);
      }
    }

    // ----- searching

    method GetConstructFromList(li: seq<string>, lo: int, hi: Option<nat>, res: ConstructId) returns (r: ConstructId)
      ensures r == SearchList(constructs, li, lo, hi, res)
      decreases |li|
    {
      if li == [] { return Blank; }
      var last := lo;
      ghost var found := Scan(constructs, lo, hi, lo);
      for i := 0 to |constructs|
        invariant FirstNamed(found, li[0]) == FirstNamed(Scan(constructs[i..], lo, hi, last), li[0])
      {
        var c := constructs[i];
        assert constructs[i..][1..] == constructs[i + 1..];
        if Kept(c, lo, hi) && c.start == last + 1 {
          last := c.end;
          if c.diagram == li[0] {
            if |li| == 1 { return IdOf(c); }
            r := GetConstructFromList(li[1..], c.start, Some(c.end), IdOf(c));
            return;
          }
        }
      }
      return res;
    }

    /**
     Looks up a path from the root: in the finished outline, the construct at the end of the
     longest prefix that exists, or the empty id exactly when the path does not start at the
     root; nothing while constructs are still being listed.
     */
    method FindPath(li: seq<string>) returns (r: ConstructId, ghost k: nat, ghost c: Construct)
      requires index != [] && Ranked(index, rank) && constructs <= Number(Outline(), 0)
      ensures constructs < Number(Outline(), 0) ==> r == Blank
      ensures constructs == Number(Outline(), 0) ==>
        && k <= |li| && (forall j :: 0 < j <= |li| ==> (Labels(Outline(), li[..j]) <==> j <= k))
        && (if k == 0 then r == Blank else Labelled(Outline(), 0, li[..k], c) && c in constructs && r == IdOf(c))
        && (r != Blank <==> li != [] && li[0] == index[0].id)
    {
      k, c := 0, Construct("", "", 0, 0);
      r := GetConstructFromList(li, -1, None, Blank);
      if constructs == Number(Outline(), 0) {
        k, c := SearchFindsLongestPrefix(index, rank, li);
        if k > 0 { LabelledIsListed(Outline(), 0, li[..k], c); }
      } else {
        NothingBeforeRoot(index, rank, constructs, li);
      }
    }

    /** No diagram has been recorded up to the current position, or the first recorded one is the root. */
    ghost predicate StartsAtRoot()
      requires Browsing()
      reads this
    {
      navIndex > -1 ==> preLoadBrowsing[0] == index[0].id
    }

    /**
     Called when the constructs are all known. The history of diagram ids becomes a history of
     constructs: each entry is what is found for the ids up to it. All entries exist exactly when
     the first recorded diagram is the root or nothing is recorded; otherwise none of them does.
     */
    method ParsingDone()
      requires Browsing() && constructs == Number(Outline(), 0) && Indexes(constructsMap, constructs)
      modifies `parsingComplete, `navStatus, `navIndex
      ensures parsingComplete && navIndex == (if old(navIndex) > -1 then old(navIndex) else 0)
      ensures |navStatus| == navIndex + 1
      ensures if old(navIndex) > -1 then
                forall i :: 0 <= i <= navIndex ==>
                  navStatus[i] == SearchList(constructs, preLoadBrowsing[..i + 1], -1, None, Blank)
              else navStatus == [IdOf(Head(Outline(), 0))]
      ensures Outlined() <==> old(StartsAtRoot())
      ensures !Outlined() ==> forall id :: id in navStatus ==> id == Blank
    {
      ghost var atRoot := StartsAtRoot();
      RootIsFound(index, rank, constructs, constructsMap);
      hide Number, SearchList, Ranked, Indexes, Unfold;
      parsingComplete := true;
      if navIndex > -1 {
        RecreateHistory(atRoot);
        assert navStatus[0] in navStatus;
      } else {
        navIndex := navIndex + 1;
        navStatus := Inserted(navStatus, 0, IdOf(constructs[|constructs| - 1]));
        assert navStatus == [IdOf(constructs[|constructs| - 1])];
      }
    }

    /** Looks up the path to each recorded diagram. */
    method RecreateHistory(ghost atRoot: bool)
      requires index != [] && Ranked(index, rank) && 0 <= navIndex < |preLoadBrowsing| && navStatus == []
      requires constructs == Number(Outline(), 0) && Indexes(constructsMap, constructs)
      requires atRoot <==> preLoadBrowsing[0] == index[0].id
      modifies `navStatus
      ensures |navStatus| == navIndex + 1
      ensures forall i :: 0 <= i <= navIndex ==>
                navStatus[i] == SearchList(constructs, preLoadBrowsing[..i + 1], -1, None, Blank)
      ensures forall id :: id in navStatus ==> if atRoot then id in constructsMap else id == Blank
    {
      hide Number, SearchList, Ranked, Indexes, Unfold;
      for i := 0 to navIndex + 1
        invariant |navStatus| == i
        invariant forall id :: id in navStatus ==> if atRoot then id in constructsMap else id == Blank
        invariant forall j :: 0 <= j < i ==>
          navStatus[j] == SearchList(constructs, preLoadBrowsing[..j + 1], -1, None, Blank)
      {
        ghost var li := preLoadBrowsing[..i + 1];
        assert li[0] == preLoadBrowsing[0];
        RecordedIsFound(index, rank, constructs, constructsMap, li);
        var id := GetConstructFromList(preLoadBrowsing[..i + 1], -1, None, Blank);
        assert Inserted(navStatus, i, id) == navStatus + [id];
        navStatus := Inserted(navStatus, i, id);
      }
    }

    /** Stores one construct of the walk. */
    method FillTree(c: Construct)
      modifies `constructs, `constructsMap
      ensures constructs == old(constructs) + [c] && constructsMap == old(constructsMap)[IdOf(c) := c]
    {
      constructs := constructs + [c];
      constructsMap := constructsMap[IdOf(c) := c];
    }

    /** Builds the outline from the loaded diagrams. */
    method ParseModelTree(diags: DiagramFile)
      requires Browsing() && diags.index == index && constructs == [] && constructsMap == map[]
      modifies this, diags`index
      ensures parsingComplete && constructs == Number(Outline(), 0) && Indexes(constructsMap, constructs)
      ensures Outlined() <==> old(StartsAtRoot())
      ensures preLoadBrowsing == old(preLoadBrowsing)
      ensures navIndex == if old(navIndex) > -1 then old(navIndex) else 0
    {
      var items, progress := ProcessItem(diags, rank);
      for i := 0 to |items|
        invariant constructs == items[..i] && Indexes(constructsMap, constructs)
        invariant Browsing() && navIndex == old(navIndex) && preLoadBrowsing == old(preLoadBrowsing)
      {
        forall j | 0 <= j < i ensures items[j].end != items[i].end { EndsAreDistinct(Outline(), 0, j, i); }
        FillTree(items[i]);
        assert items[..i + 1] == items[..i] + [items[i]];
      }
      assert items[..|items|] == items;
      ParsingDone();
    }

    // ----- moving to a child, to the parent, or along the call stack

    /** `id` is the best named of the direct children of `c`, and empty if none is named. */
    ghost predicate Opens(c: Construct, kids: Forest, id: ConstructId)
      requires Outlined()
      reads this
    {
      IsNode(Outline(), 0, c, kids) && BestNamed(Roots(kids, c.start + 1), display, lastDblclicked, id)
    }

    /**
     The child of the current construct that a double click on `lastDblclicked` opens: among the
     direct children, the one with the longest title that ends the clicked path.
     */
    method GetConstructForDblclick() returns (r: Option<ConstructId>, ghost kids: Forest)
      requires Valid()
      ensures r.Some? <==> parsingComplete
      ensures r.Some? ==> Opens(Current(), kids, r.value) && (r.value != Blank ==> r.value in constructsMap)
    {
      kids := Nil;
      if !parsingComplete || navIndex < 0 { return None, kids; }
      var current := constructsMap[navStatus[navIndex]];
      hide Ranked, Unfold, Number, IsNode, Roots, Scan, BestNamed;
      kids := ListedIsNode(Outline(), 0, current);
      ScanFindsChildren(Outline(), 0, current, kids, -1, None);
      var res := LongestNamed(constructs, current.start, display, lastDblclicked);
      r := Some(res);
    }

    /** What a double click does to the history. */
    method OnDblclick(diagram: string) returns (ghost kids: Forest, ghost id: ConstructId)
      requires Valid()
      modifies `navIndex, `navStatus, `preLoadBrowsing
      ensures Valid()
      ensures parsingComplete ==>
        && Opens(old(Current()), kids, id)
        && (if id == Blank then navIndex == old(navIndex) && navStatus == old(navStatus)
            else navIndex == old(navIndex) + 1 && navStatus == Inserted(old(navStatus), navIndex, id))
      ensures !parsingComplete ==>
        && navIndex == old(navIndex) + 1
        && preLoadBrowsing == Inserted(old(preLoadBrowsing), navIndex, diagram)
    {
      var r;
      r, kids := GetConstructForDblclick();
      id := Blank;
      if r.Some? {
        id := r.value;
        UpdateNavStatus(r.value);
      } else {
        UpdatePreloadingNav(diagram);
      }
    }

    /** `r` is the diagram of the parent `p` of `c`; only the root has none. */
    ghost predicate Climbed(c: Construct, r: Option<string>, p: Construct, kids: Forest)
      requires Outlined()
      reads this
    {
      if c == Head(Outline(), 0) then r == None
      else IsNode(Outline(), 0, p, kids) && c in Roots(kids, p.start + 1) && r == Some(p.diagram)
    }

    /** The diagram and the id of the parent of a construct, if the diagram found is not its own. */
    method ParentOf(c: Construct)
      returns (r: Option<string>, parentCons: ConstructId, ghost p: Construct, ghost kids: Forest)
      requires Outlined() && c in constructs
      ensures Climbed(c, r, p, kids)
      ensures r.Some? ==> parentCons == IdOf(p) && parentCons in constructsMap
    {
      var parent, found, currentSloc, best := InnermostEnclosing(constructs, c);
      hide Ranked, Unfold, Number, IsNode, Roots, Encloses;
      p, kids := ParentIsFound(index, rank, c, best, currentSloc);
      r, parentCons := if parent == c.diagram then None else Some(parent), found;
    }

    /**
     Moves to the parent: the immediate parent of the current construct in the unfolded model,
     and nowhere when the current construct is the root. Before the outline is complete this is a
     step back in the history, and from its first position to before it, with the last diagram.
     */
    method GetParentDiag(updateHistory: bool) returns (r: Option<string>, ghost p: Construct, ghost kids: Forest)
      requires Valid()
      modifies `navIndex, `navStatus
      ensures Valid() && parsingComplete == old(parsingComplete)
      ensures !parsingComplete && old(navIndex) < 0 ==> navIndex == old(navIndex) && r == None
      ensures !parsingComplete && old(navIndex) >= 0 ==>
        navIndex == old(navIndex) - 1 && r == Some(FromEnd(preLoadBrowsing, navIndex))
      ensures parsingComplete ==> Climbed(old(Current()), r, p, kids)
      ensures parsingComplete ==>
                if r.Some? && updateHistory then
                  navIndex == old(navIndex) + 1 && navStatus == Inserted(old(navStatus), navIndex, IdOf(p))
                else navIndex == old(navIndex) && navStatus == old(navStatus)
    {
      p, kids := Construct("", "", 0, 0), Nil;
      hide Climbed, Indexes, Ranked, Model, Number;
      if navIndex < 0 { return None, p, kids; }
      if !parsingComplete {
        navIndex := navIndex - 1;
        return Some(FromEnd(preLoadBrowsing, navIndex)), p, kids;
      }
      var parentCons;
      r, parentCons, p, kids := ParentOf(constructsMap[navStatus[navIndex]]);
      if r.Some? && updateHistory {
        navIndex := navIndex + 1;
        navStatus := Inserted(navStatus, navIndex, parentCons);
      }
    }

    /**
     Follows the call stack of the debugger. Dropping frames until a construct is found never
     helps: the whole path already decides, since the search itself falls back to the longest
     prefix and fails only on a path that does not start at the root. While constructs are still
     being listed nothing is found at all, because the root is listed last.
     */
    method UpdateCurrentConstruct(frames: seq<string>) returns (ghost k: nat, ghost c: Construct)
      requires Outlined() || Listing()
      modifies `navIndex, `navStatus
      ensures !parsingComplete ==> Browsing() && navIndex == old(navIndex) && navStatus == old(navStatus)
      ensures parsingComplete ==> Outlined() && Followed(frames, old(navIndex), old(navStatus), k, c)
    {
      var infos := frames;
      assert frames[..|frames|] == frames;
      k, c := 0, Construct("", "", 0, 0);
      if parsingComplete { k, c := SearchFindsLongestPrefix(index, rank, frames); }
      while infos != []
        invariant infos <= frames && navIndex == old(navIndex) && navStatus == old(navStatus)
        invariant if parsingComplete then Outlined() else Listing()
        invariant parsingComplete ==> forall j :: 0 < j <= |frames| ==> (Labels(Outline(), frames[..j]) <==> j <= k)
        invariant infos != frames ==> k == 0
      {
        var id, k', c' := FindPath(infos);
        if id != Blank {
          k, c := k', c';
          UpdateNavStatus(id);
          return;
        }
        assert frames[..1] == infos[..1];
        infos := infos[..|infos| - 1];
      }
    }

    /** Constructs are still being listed. */
    ghost predicate Listing()
      reads this
    {
      Browsing() && constructs < Number(Outline(), 0)
    }

    /** The history moves on to the construct of the longest prefix of the path, if there is one. */
    ghost predicate Followed(frames: seq<string>, index0: int, status0: seq<ConstructId>, k: nat, c: Construct)
      requires Outlined()
      reads this
    {
      && k <= |frames| && (forall j :: 0 < j <= |frames| ==> (Labels(Outline(), frames[..j]) <==> j <= k))
      && if k == 0 then navIndex == index0 && navStatus == status0
         else && Labelled(Outline(), 0, frames[..k], c)
              && navIndex == index0 + 1 && 0 <= navIndex <= |status0|
              && navStatus == Inserted(status0, navIndex, IdOf(c))
    }
  }

  /**
   Going up from the first diagram while the outline is being built, and then into one that is
   not the root, leaves a history that does not start at the root.
   */
  method UpAndInto(v: Viewer, diagram: string)
    requires v.Browsing() && v.navIndex == 0 && diagram != v.index[0].id
    modifies v
    ensures v.Browsing() && !v.StartsAtRoot()
  {
    var up, _, _ := v.GetParentDiag(true);
    var _, _ := v.OnDblclick(diagram);
  }

  lemma RootIsLast(index: seq<Entry>, rank: string -> nat)
    requires index != [] && Ranked(index, rank)
    ensures var cs := Number(Model(index, rank), 0); cs != [] && cs[|cs| - 1] == Head(Model(index, rank), 0)
  {
    var m := Model(index, rank);
    assert Number(m, 0) == Number(m.kids, 1) + [Head(m, 0)] + Number(Nil, 2 + 2 * Size(m.kids));
  }

  lemma EnclosesChild(p: Construct, c: Construct)
    requires p.start < c.end < p.end
    ensures Encloses(p, c.end)
  {
  }

  /** Before the root is listed, no path leads anywhere. */
  lemma NothingBeforeRoot(index: seq<Entry>, rank: string -> nat, cs: seq<Construct>, li: seq<string>)
    requires index != [] && Ranked(index, rank) && cs < Number(Model(index, rank), 0)
    ensures SearchList(cs, li, -1, None, Blank) == Blank
  {
    var m := Model(index, rank);
    var below := Number(m.kids, 1);
    assert Number(m, 0) == below + [Head(m, 0)];
    NumberBounds(m.kids, 1);
    assert cs <= below;
    forall c | c in cs ensures c.start != 0 {
      assert c in below;
    }
    ScanNothing(cs, -1, None, -1);
  }

  /** What the search for the innermost construct around `c` gives: its parent, and nothing for the root. */
  lemma ParentIsFound(index: seq<Entry>, rank: string -> nat, c: Construct, best: Construct, sloc: int)
    returns (p: Construct, kids: Forest)
    requires index != [] && Ranked(index, rank) && c in Number(Model(index, rank), 0)
    requires forall d :: d in Number(Model(index, rank), 0) && Encloses(d, c.end) ==> d.start <= sloc
    requires sloc != -1 ==> best in Number(Model(index, rank), 0) && Encloses(best, c.end) && best.start == sloc
    ensures sloc == -1 <==> c == Head(Model(index, rank), 0)
    ensures sloc != -1 ==>
      && best == p && p in Number(Model(index, rank), 0) && p.diagram != c.diagram
      && IsNode(Model(index, rank), 0, p, kids) && c in Roots(kids, p.start + 1)
  {
    var m := Model(index, rank);
    OnlyRoot(index, rank);
    hide *;
    assert c in [Head(m, 0)] <==> c == Head(m, 0);
    var below := ListedIsNode(m, 0, c);
    p, kids := NodeHasParent(m, 0, c, below);
    if c in Roots(m, 0) {
      if sloc != -1 { RootsAreNotEnclosed(m, 0, c, best); }
    } else {
      ParentFound(index, rank, p, kids, c, best, sloc);
    }
  }

  lemma OnlyRoot(index: seq<Entry>, rank: string -> nat)
    requires index != [] && Ranked(index, rank)
    ensures Roots(Model(index, rank), 0) == [Head(Model(index, rank), 0)]
  {
    hide Unfold, Ranked;
  }

  lemma ParentFound(index: seq<Entry>, rank: string -> nat, p: Construct, kids: Forest, c: Construct,
                    best: Construct, sloc: int)
    requires index != [] && Ranked(index, rank)
    requires IsNode(Model(index, rank), 0, p, kids) && c in Roots(kids, p.start + 1)
    requires forall d :: d in Number(Model(index, rank), 0) && Encloses(d, c.end) ==> d.start <= sloc
    requires sloc != -1 ==> best in Number(Model(index, rank), 0) && Encloses(best, c.end) && best.start == sloc
    ensures sloc != -1 && best == p && p.diagram != c.diagram && p in Number(Model(index, rank), 0)
  {
    var m := Model(index, rank);
    var root := index[0];
    assert Known(index, root.id) && Find(index, root.id) == Some(root.children);
    UnfoldIsDecreasing(index, rank, root.id, root.children);
    ParentHasOtherDiagram(m, 0, p, kids, c, rank, rank(root.id) + 1);
    hide *;
    ChildrenAreConsecutive(m, 0, p, kids);
    ChildIsInside(kids, p, c);
    EnclosesChild(p, c);
    ParentIsInnermost(m, 0, p, kids, c, p);
    if sloc != -1 { ParentIsInnermost(m, 0, p, kids, c, best); }
  }
}
