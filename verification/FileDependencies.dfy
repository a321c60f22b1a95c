/**
 Explaining why one file depends on another: a depth-first search that may visit a file more
 than once, and the walk back along the parents it recorded.
 */
module FileDependencies {
  import opened Sequences
  import opened Wrappers

  datatype File = File(path: string)

  /**
   What the search sees: the imports of each file, some of which may be missing, the file to
   start from, and, when that one is a body, its other file.
   */
  datatype Project = Project(imports: File -> seq<Option<File>>, from: File, isBody: bool, other: Option<File>) {

    /** What the search follows from `f`; the other file is added to every import list. */
    function Followed(f: File): seq<Option<File>> {
      imports(f) + if isBody then [other] else []
    }

    /** A dependency worth reporting: an import, or the one of the starting body on its spec. */
    ghost predicate Link(a: File, b: File) {
      Some(b) in imports(a) || (isBody && a == from && other == Some(b))
    }

    ghost predicate IsPath(p: seq<File>) {
      p != [] && p[0] == from && forall i :: 0 <= i < |p| - 1 ==> Link(p[i], p[i + 1])
    }

    ghost predicate Reaches(f: File) {
      exists p :: IsPath(p) && p[|p| - 1] == f
    }

    /** All files are in the finite set `files`. */
    ghost predicate Within(files: set<File>) {
      from in files && forall f, g :: f in files && Some(g) in Followed(f) ==> g in files
    }
  }

  /** A file to analyze, and the file that asked for it. */
  datatype Item = Item(file: File, because: Option<File>)

  const NO_DEPENDENCY := "No dependency between these two files"
  const SAME_FILE := "Same file"

  /** The items put on the stack for the imports `imp` of `file`. */
  function Pushed(imp: seq<Option<File>>, deps: map<File, Option<File>>, file: File): seq<Item> {
    if imp == [] then []
    else
      var f := imp[|imp| - 1];
      Pushed(imp[..|imp| - 1], deps, file) + if f.Some? && f.value !in deps then [Item(f.value, Some(file))] else []
  }

  lemma {:induction false} PushedItems(imp: seq<Option<File>>, deps: map<File, Option<File>>, file: File)
    ensures forall e :: e in Pushed(imp, deps, file) ==>
      e.because == Some(file) && e.file !in deps && Some(e.file) in imp
    ensures forall w :: Some(w) in imp && w !in deps ==> Item(w, Some(file)) in Pushed(imp, deps, file)
    ensures (forall w :: Some(w) in imp ==> w in deps) ==> Pushed(imp, deps, file) == []
    ensures imp != [] && imp[|imp| - 1].Some? && imp[|imp| - 1].value !in deps ==>
      var p := Pushed(imp, deps, file); p != [] && p[|p| - 1].file == imp[|imp| - 1].value
  {
    if imp != [] {
      PushedItems(imp[..|imp| - 1], deps, file);
      assert imp == imp[..|imp| - 1] + [imp[|imp| - 1]];
    }
  }

  // ----- what the search keeps; `first` numbers the files in the order of their first visit

  type Parents = map<File, Option<File>>

  /** Each recorded parent was first visited before its child, and the link to it is genuine. */
  ghost predicate Grounded(pr: Project, deps: Parents, first: map<File, nat>) {
    && first.Keys == deps.Keys && pr.from in deps && deps[pr.from] == None
    && (forall f :: f in deps ==> first[f] < |deps|)
    && forall f :: f in deps && f != pr.from ==>
         && deps[f].Some? && deps[f].value in deps && pr.Link(deps[f].value, f)
         && first[deps[f].value] < first[f]
  }

  /** An item could become a parent link at any time. */
  ghost predicate Ready(pr: Project, e: Item, deps: Parents, first: map<File, nat>)
    requires first.Keys == deps.Keys
  {
    && e.file != pr.from && e.because.Some? && e.because.value in deps && pr.Link(e.because.value, e.file)
    && (e.file in deps ==> first[e.because.value] < first[e.file])
  }

  ghost predicate OnStack(stack: seq<Item>, f: File) { exists e :: e in stack && e.file == f }

  /** What a visited file asks for is visited too, or waits on `stack`. */
  ghost predicate Covered(pr: Project, f: File, stack: seq<Item>, deps: Parents) {
    forall g :: Some(g) in pr.Followed(f) ==> g in deps || OnStack(stack, g)
  }

  /** The same with the part of the stack above the i-th item, if that item has been visited. */
  ghost predicate CoveredAbove(pr: Project, i: nat, stack: seq<Item>, deps: Parents)
    requires i < |stack|
  {
    stack[i].file in deps ==> Covered(pr, stack[i].file, stack[i + 1..], deps)
  }

  /** The added spec is visited or next, and only the starting body asks for it. */
  ghost predicate SpecIsSecond(pr: Project, stack: seq<Item>, deps: Parents) {
    pr.isBody && pr.other.Some? ==>
      && (pr.other.value in deps || (stack != [] && stack[|stack| - 1].file == pr.other.value))
      && forall e :: e in stack && e.file == pr.other.value ==> e.because == Some(pr.from)
  }

  ghost predicate Running(pr: Project, files: set<File>, stack: seq<Item>, deps: Parents, first: map<File, nat>) {
    && Grounded(pr, deps, first)
    && (forall e :: e in stack ==> Ready(pr, e, deps, first))
    && (forall f :: f in deps ==> Covered(pr, f, stack, deps))
    && (forall i :: 0 <= i < |stack| ==> CoveredAbove(pr, i, stack, deps))
    && SpecIsSecond(pr, stack, deps)
    && deps.Keys <= files && forall e :: e in stack ==> e.file in files
  }

  ghost predicate Starting(pr: Project, stack: seq<Item>, deps: Parents, first: map<File, nat>) {
    deps == map[] && first == map[] && stack == [Item(pr.from, None)]
  }

  // ----- one step of the search

  /** The visit numbers after `f` has been visited (again). */
  ghost function Visit(first: map<File, nat>, deps: Parents, f: File): map<File, nat> {
    if f in deps then first else first[f := |deps|]
  }

  lemma VisitKeepsGrounded(pr: Project, deps: Parents, first: map<File, nat>, e: Item)
    requires Grounded(pr, deps, first) && Ready(pr, e, deps, first)
    ensures Grounded(pr, deps[e.file := e.because], Visit(first, deps, e.file))
  {
    hide Project.Link;
    var deps' := deps[e.file := e.because];
    assert deps'.Keys == deps.Keys + {e.file};
    if e.file in deps {
      assert deps'.Keys == deps.Keys && |deps'| == |deps'.Keys| == |deps|;
    } else {
      assert |deps'| == |deps| + 1;
    }
  }

  lemma VisitKeepsReady(pr: Project, deps: Parents, first: map<File, nat>, e: Item, d: Item)
    requires Grounded(pr, deps, first) && Ready(pr, e, deps, first) && Ready(pr, d, deps, first)
    ensures Ready(pr, d, deps[e.file := e.because], Visit(first, deps, e.file))
  {
  }

  /** Visiting a file again puts nothing on the stack. */
  lemma RevisitPushesNothing(pr: Project, stack: seq<Item>, deps: Parents, deps': Parents)
    requires stack != [] && CoveredAbove(pr, |stack| - 1, stack, deps)
    requires stack[|stack| - 1].file in deps && deps.Keys <= deps'.Keys
    ensures Pushed(pr.Followed(stack[|stack| - 1].file), deps', stack[|stack| - 1].file) == []
  {
    var f := stack[|stack| - 1].file;
    PushedItems(pr.Followed(f), deps', f);
    assert forall g :: Some(g) in pr.Followed(f) ==> g in deps;
  }

  lemma StepCovers(pr: Project, stack: seq<Item>, e: Item, deps: Parents, pushed: seq<Item>, f: File)
    requires Covered(pr, f, stack + [e], deps) || f == e.file
    requires forall w :: Some(w) in pr.Followed(e.file) && w !in deps[e.file := e.because] ==>
      Item(w, Some(e.file)) in pushed
    ensures Covered(pr, f, stack + pushed, deps[e.file := e.because])
  {
    forall g | Some(g) in pr.Followed(f) && g !in deps[e.file := e.because] ensures OnStack(stack + pushed, g) {
      if f == e.file {
        assert Item(g, Some(f)) in stack + pushed;
      } else {
        var d :| d in stack + [e] && d.file == g;
        assert d in stack + pushed;
      }
    }
  }

  lemma StepKeepsRunning(pr: Project, files: set<File>, base: seq<Item>, e: Item, deps: Parents, first: map<File, nat>)
    requires pr.Within(files) && Running(pr, files, base + [e], deps, first)
    ensures var deps' := deps[e.file := e.because];
      var stack' := base + Pushed(pr.Followed(e.file), deps', e.file);
      Running(pr, files, stack', deps', Visit(first, deps, e.file))
  {
    var stack := base + [e];
    var deps', first' := deps[e.file := e.because], Visit(first, deps, e.file);
    var pushed := Pushed(pr.Followed(e.file), deps', e.file);
    var stack' := base + pushed;
    assert e in stack && stack[|base|] == e;
    PushedItems(pr.Followed(e.file), deps', e.file);
    VisitKeepsGrounded(pr, deps, first, e);
    SpecIsVisited(pr, base, e, deps);
    forall d | d in stack' ensures Ready(pr, d, deps', first') && d.file in files {
      if d in base {
        assert d in stack;
        VisitKeepsReady(pr, deps, first, e, d);
      }
    }
    forall f | f in deps' ensures Covered(pr, f, stack', deps') {
      StepCovers(pr, base, e, deps, pushed, f);
    }
    forall i | 0 <= i < |stack'| ensures CoveredAbove(pr, i, stack', deps') {
      StepCoversAbove(pr, base, e, deps, pushed, i);
    }
  }

  lemma SpecIsVisited(pr: Project, base: seq<Item>, e: Item, deps: Parents)
    requires SpecIsSecond(pr, base + [e], deps)
    ensures pr.isBody && pr.other.Some? ==> pr.other.value in deps[e.file := e.because]
  {
    assert (base + [e])[|base|] == e;
  }

  lemma StepCoversAbove(pr: Project, base: seq<Item>, e: Item, deps: Parents, pushed: seq<Item>, i: nat)
    requires i < |base + pushed|
    requires forall i :: 0 <= i < |base + [e]| ==> CoveredAbove(pr, i, base + [e], deps)
    requires forall d :: d in pushed ==> d.file !in deps[e.file := e.because]
    requires forall w :: Some(w) in pr.Followed(e.file) && w !in deps[e.file := e.because] ==>
      Item(w, Some(e.file)) in pushed
    ensures CoveredAbove(pr, i, base + pushed, deps[e.file := e.because])
  {
    var stack, stack', deps' := base + [e], base + pushed, deps[e.file := e.because];
    if i < |base| && stack'[i].file in deps' {
      assert stack'[i] == stack[i] == base[i];
      assert CoveredAbove(pr, i, stack, deps);
      assert stack[i + 1..] == base[i + 1..] + [e];
      assert stack'[i + 1..] == base[i + 1..] + pushed;
      StepCovers(pr, base[i + 1..], e, deps, pushed, base[i].file);
    } else if i >= |base| {
      assert stack'[i] == pushed[i - |base|];
    }
  }

  lemma FirstStepIsRunning(pr: Project, files: set<File>)
    requires pr.Within(files)
    ensures var deps: Parents := map[pr.from := None];
      Running(pr, files, Pushed(pr.Followed(pr.from), deps, pr.from), deps, map[pr.from := 0])
  {
    var deps: Parents := map[pr.from := None];
    var stack := Pushed(pr.Followed(pr.from), deps, pr.from);
    PushedItems(pr.Followed(pr.from), deps, pr.from);
    assert |deps| == 1;
    forall g | Some(g) in pr.Followed(pr.from) && g !in deps ensures OnStack(stack, g) {
      assert Item(g, Some(pr.from)) in stack;
    }
    if pr.isBody { assert pr.Followed(pr.from)[|pr.Followed(pr.from)| - 1] == pr.other; }
  }

  /** Any step leads to a running search and makes progress: a new file, or a shorter stack. */
  lemma StepIsRunning(pr: Project, files: set<File>, base: seq<Item>, e: Item, deps: Parents, first: map<File, nat>)
    requires pr.Within(files)
    requires Starting(pr, base + [e], deps, first) || Running(pr, files, base + [e], deps, first)
    ensures var deps' := deps[e.file := e.because];
      && Grounded(pr, deps', Visit(first, deps, e.file))
      && e.file in files && deps'.Keys == deps.Keys + {e.file}
      && Running(pr, files, base + Pushed(pr.Followed(e.file), deps', e.file), deps', Visit(first, deps, e.file))
      && (e.file in deps ==> Pushed(pr.Followed(e.file), deps', e.file) == [])
  {
    hide *;
    assert (base + [e])[|base|] == e;
    if Starting(pr, base + [e], deps, first) {
      StartIsRunning(pr, files, base, e, deps, first);
    } else {
      StepKeepsRunning(pr, files, base, e, deps, first);
      if e.file in deps {
        IsCoveredAbove(pr, files, base + [e], deps, first);
        RevisitPushesNothing(pr, base + [e], deps, deps[e.file := e.because]);
      }
    }
  }

  lemma IsCoveredAbove(pr: Project, files: set<File>, stack: seq<Item>, deps: Parents, first: map<File, nat>)
    requires stack != [] && Running(pr, files, stack, deps, first)
    ensures CoveredAbove(pr, |stack| - 1, stack, deps)
  {
    hide CoveredAbove;
  }

  lemma StartIsRunning(pr: Project, files: set<File>, base: seq<Item>, e: Item, deps: Parents, first: map<File, nat>)
    requires pr.Within(files) && Starting(pr, base + [e], deps, first)
    ensures var deps' := deps[e.file := e.because];
      && Grounded(pr, deps', Visit(first, deps, e.file))
      && e.file in files && deps'.Keys == deps.Keys + {e.file} && e.file !in deps
      && Running(pr, files, base + Pushed(pr.Followed(e.file), deps', e.file), deps', Visit(first, deps, e.file))
  {
    var deps' := deps[e.file := e.because];
    assert (base + [e])[|base|] == e;
    FirstStepIsRunning(pr, files);
    assert deps' == map[pr.from := None] && Visit(first, deps, e.file) == map[pr.from := 0];
    assert base == [];
    assert base + Pushed(pr.Followed(e.file), deps', e.file) == Pushed(pr.Followed(e.file), deps', e.file);
    hide Pushed, Covered;
  }

  // ----- what the result means

  lemma {:induction false} PathStaysCovered(pr: Project, deps: Parents, p: seq<File>, i: nat)
    requires pr.IsPath(p) && i < |p|
    requires pr.from in deps && forall f :: f in deps ==> Covered(pr, f, [], deps)
    ensures p[i] in deps
  {
    if i > 0 {
      PathStaysCovered(pr, deps, p, i - 1);
      assert pr.Link(p[i - 1], p[i]);
      assert Some(p[i]) in pr.Followed(p[i - 1]);
      assert !OnStack([], p[i]);
    }
  }

  /** When the search has run dry, the files it visited are all that can be reached. */
  lemma DrySearchIsComplete(pr: Project, files: set<File>, stack: seq<Item>, deps: Parents,
                             first: map<File, nat>, f: File)
    requires stack == [] && UnderWay(pr, files, stack, deps, first)
    ensures Grounded(pr, deps, first)
    ensures pr.Reaches(f) ==> f in deps
  {
    if pr.Reaches(f) {
      var p :| pr.IsPath(p) && p[|p| - 1] == f;
      PathStaysCovered(pr, deps, p, |p| - 1);
    }
  }

  /** The files on the way back, the last one first. */
  ghost predicate WayBack(pr: Project, ts: seq<File>, to: File) {
    && ts != [] && ts[0] == to
    && (forall i :: 0 <= i < |ts| - 1 ==> pr.Link(ts[i + 1], ts[i]))
    && forall i, j :: 0 <= i < j < |ts| ==> ts[i] != ts[j]
  }

  function Reversed(ts: seq<File>): seq<File> {
    if ts == [] then [] else Reversed(ts[1..]) + [ts[0]]
  }

  lemma {:induction false} ReversedAt(ts: seq<File>, i: nat)
    requires i < |ts|
    ensures |Reversed(ts)| == |ts| && Reversed(ts)[i] == ts[|ts| - 1 - i]
  {
    if |ts| > 1 { ReversedAt(ts[1..], if i < |ts| - 1 then i else 0); }
  }

  /** The walk back has listed `ts` and goes on with `target`, first visited before all of them. */
  ghost predicate Walked(pr: Project, to: File, deps: Parents, first: map<File, nat>, ts: seq<File>,
                         target: Option<File>) {
    && Grounded(pr, deps, first)
    && (ts == [] ==> target == Some(to))
    && (ts != [] ==>
         && WayBack(pr, ts, to) && (forall f :: f in ts ==> f in deps) && deps[ts[|ts| - 1]] == target
         && (target == None ==> ts[|ts| - 1] == pr.from)
         && (target.Some? ==> target.value in deps && forall f :: f in ts ==> first[target.value] < first[f]))
  }

  lemma WalkOn(pr: Project, to: File, deps: Parents, first: map<File, nat>, ts: seq<File>, f: File)
    requires Walked(pr, to, deps, first, ts, Some(f)) && f in deps
    ensures Walked(pr, to, deps, first, ts + [f], deps[f])
  {
    if ts != [] {
      assert ts[|ts| - 1] in ts;
      assert f !in ts && pr.Link(f, ts[|ts| - 1]);
      WayBackGoesOn(pr, ts, to, f);
    }
    hide Project.Link, WayBack;
    if ts == [] { StartOfWayBack(pr, f); }
  }

  lemma StartOfWayBack(pr: Project, f: File)
    ensures WayBack(pr, [] + [f], f)
  {
  }

  lemma WayBackGoesOn(pr: Project, ts: seq<File>, to: File, f: File)
    requires WayBack(pr, ts, to) && f !in ts && pr.Link(f, ts[|ts| - 1])
    ensures WayBack(pr, ts + [f], to)
  {
    hide Project.Link;
    assert forall i :: 0 <= i < |ts| ==> (ts + [f])[i] == ts[i] && ts[i] in ts;
  }

  lemma WayBackIsPath(pr: Project, ts: seq<File>, to: File)
    requires WayBack(pr, ts, to) && ts[|ts| - 1] == pr.from
    ensures |Reversed(ts)| == |ts| && pr.IsPath(Reversed(ts)) && Reversed(ts)[|ts| - 1] == to && pr.Reaches(to)
  {
    var p := Reversed(ts);
    ReversedAt(ts, 0);
    ReversedAt(ts, |ts| - 1);
    forall i | 0 <= i < |p| - 1 ensures pr.Link(p[i], p[i + 1]) {
      ReversedAt(ts, i);
      ReversedAt(ts, i + 1);
      assert pr.Link(ts[|ts| - 1 - i], ts[|ts| - 2 - i]);
    }
    assert pr.IsPath(p) && p[|p| - 1] == to;
  }

  /** The text for a way back: one line for each file, from the starting file on. */
  function Lines(ts: seq<File>): string {
    if ts == [] then "" else " -> " + ts[|ts| - 1].path + "\n" + Lines(ts[..|ts| - 1])
  }

  // ----- what the text shows

  /** The text before the first newline. */
  function FirstLine(text: string): (r: string)
    ensures |r| <= |text| && r == text[..|r|] && '\n' !in r && (|r| < |text| ==> text[|r|] == '\n')
  {
    if text == "" || text[0] == '\n' then "" else [text[0]] + FirstLine(text[1..])
  }

  /** The lines of a text. */
  function SplitLines(text: string): seq<string>
    decreases |text|
  {
    if text == "" then []
    else if |FirstLine(text)| == |text| then [text]
    else [FirstLine(text)] + SplitLines(text[|FirstLine(text)| + 1..])
  }

  /** The text has one line for each file of a path from the starting file to `to`, in order. */
  ghost predicate Shows(pr: Project, to: File, p: seq<File>, text: string) {
    && pr.IsPath(p) && p[|p| - 1] == to && |SplitLines(text)| == |p|
    && forall i :: 0 <= i < |p| ==> SplitLines(text)[i] == " -> " + p[i].path
  }

  predicate OneLine(f: File) { '\n' !in f.path }

  lemma {:induction false} FirstLineIs(line: string, rest: string)
    requires '\n' !in line
    ensures FirstLine(line + ("\n" + rest)) == line
  {
    var text := line + ("\n" + rest);
    if line == "" {
      assert text[0] == '\n';
    } else {
      assert text[0] == line[0] && line[0] in line && text[1..] == line[1..] + ("\n" + rest);
      FirstLineIs(line[1..], rest);
    }
  }

  lemma SplitFirst(line: string, rest: string)
    requires '\n' !in line
    ensures SplitLines(line + ("\n" + rest)) == [line] + SplitLines(rest)
  {
    var text := line + ("\n" + rest);
    FirstLineIs(line, rest);
    assert text[|line| + 1..] == rest;
    hide FirstLine;
  }

  /** Unless a path has a newline, the lines of the text are the files from the starting file on. */
  lemma {:induction false} LinesAreFiles(ts: seq<File>)
    requires forall f :: f in ts ==> OneLine(f)
    ensures |SplitLines(Lines(ts))| == |Reversed(ts)| == |ts|
    ensures forall i :: 0 <= i < |ts| ==> SplitLines(Lines(ts))[i] == " -> " + Reversed(ts)[i].path
  {
    if ts != [] {
      var n := |ts| - 1;
      LinesAreFiles(ts[..n]);
      LastLine(ts);
      ReversedTail(ts);
      SplitFirst(" -> " + ts[n].path, Lines(ts[..n]));
      hide *;
    }
  }

  lemma LastLine(ts: seq<File>)
    requires ts != [] && forall f :: f in ts ==> OneLine(f)
    ensures var line := " -> " + ts[|ts| - 1].path;
      Lines(ts) == line + ("\n" + Lines(ts[..|ts| - 1])) && '\n' !in line
  {
    var (f, later) := (ts[|ts| - 1], Lines(ts[..|ts| - 1]));
    assert f in ts && Lines(ts) == " -> " + f.path + "\n" + later;
    ArrowIsOneLine(f);
    hide *;
    Assoc(" -> " + f.path, "\n", later);
  }

  lemma ArrowIsOneLine(f: File)
    requires OneLine(f)
    ensures '\n' !in " -> " + f.path
  {
    assert forall c :: c in " -> " ==> c != '\n';
  }

  lemma {:induction false} ReversedTail(ts: seq<File>)
    requires ts != []
    ensures Reversed(ts) == [ts[|ts| - 1]] + Reversed(ts[..|ts| - 1])
  {
    if |ts| > 1 {
      ReversedTail(ts[1..]);
      assert ts[1..][..|ts| - 2] == ts[..|ts| - 1][1..];
    }
  }

  lemma WayBackIsShown(pr: Project, ts: seq<File>, to: File)
    requires WayBack(pr, ts, to) && ts[|ts| - 1] == pr.from && forall f :: f in ts ==> OneLine(f)
    ensures Shows(pr, to, Reversed(ts), Lines(ts))
  {
    WayBackIsPath(pr, ts, to);
    LinesAreFiles(ts);
    hide SplitLines, Lines, Reversed, Project.IsPath, WayBack;
  }

  /**
   The answer for `to`: a repetition-free chain of dependencies, exactly if there is one. The text
   shows it from the starting file on, unless a path has a newline.
   */
  ghost predicate Explains(pr: Project, to: File, result: string, targets: seq<File>) {
    if pr.Reaches(to) then
      && WayBack(pr, targets, to) && targets[|targets| - 1] == pr.from && result == Lines(targets)
      && ((forall f :: f in targets ==> OneLine(f)) ==> Shows(pr, to, Reversed(targets), result))
    else
      targets == [to] && result == NO_DEPENDENCY
  }

  /** Puts the imports that have not been visited on the stack. */
  method Push(stack: seq<Item>, imp: seq<Option<File>>, deps: Parents, file: File) returns (stack': seq<Item>)
    ensures stack' == stack + Pushed(imp, deps, file)
  {
    stack' := stack;
    for i := 0 to |imp|
      invariant stack' == stack + Pushed(imp[..i], deps, file)
    {
      assert imp[..i + 1][..i] == imp[..i];
      if imp[i].Some? && imp[i].value !in deps {
        stack' := stack' + [Item(imp[i].value, Some(file))];
      }
    }
    assert imp[..|imp|] == imp;
  }

  /** What holds whenever the loop is entered again. */
  ghost predicate UnderWay(pr: Project, files: set<File>, stack: seq<Item>, deps: Parents, first: map<File, nat>) {
    Starting(pr, stack, deps, first) || Running(pr, files, stack, deps, first)
  }

  lemma StartIsUnderWay(pr: Project, files: set<File>)
    ensures UnderWay(pr, files, [Item(pr.from, None)], map[], map[])
  {
  }

  /** A step keeps the search going, and there is less to do: one file, or one entry of the stack. */
  lemma StepIsUnderWay(pr: Project, files: set<File>, stack: seq<Item>, deps: Parents, first: map<File, nat>)
    requires pr.Within(files) && stack != [] && UnderWay(pr, files, stack, deps, first)
    ensures var (e, base) := (stack[|stack| - 1], stack[..|stack| - 1]);
      var (deps', first') := (deps[e.file := e.because], Visit(first, deps, e.file));
      var stack' := base + Pushed(pr.Followed(e.file), deps', e.file);
      && Grounded(pr, deps', first') && e.file in deps'
      && UnderWay(pr, files, stack', deps', first')
      && (Unvisited(files, deps') < Unvisited(files, deps)
          || (Unvisited(files, deps') == Unvisited(files, deps) && |stack'| < |stack|))
  {
    var (e, base) := (stack[|stack| - 1], stack[..|stack| - 1]);
    assert stack == base + [e];
    hide Running, Starting, Pushed, Grounded, Visit, Unvisited, Project.Within, Project.Followed;
    StepIsRunning(pr, files, base, e, deps, first);
    FewerAreLeft(files, deps, deps[e.file := e.because], e.file);
  }

  ghost function Unvisited(files: set<File>, deps: Parents): nat { |files - deps.Keys| }

  lemma FewerAreLeft(files: set<File>, deps: Parents, deps': Parents, f: File)
    requires f in files && deps'.Keys == deps.Keys + {f}
    ensures if f in deps then Unvisited(files, deps') == Unvisited(files, deps)
            else Unvisited(files, deps') < Unvisited(files, deps)
  {
    if f in deps {
      assert deps'.Keys == deps.Keys;
    } else {
      assert files - deps.Keys == (files - deps'.Keys) + {f};
    }
  }

  /** Visits files until `to` is found or nothing is left, and records why each was visited. */
  method Analyze(pr: Project, to: File, ghost files: set<File>) returns (deps: Parents, ghost first: map<File, nat>)
    requires pr.Within(files)
    ensures Grounded(pr, deps, first)
    ensures pr.Reaches(to) ==> to in deps
  {
    hide *;
    deps, first := map[], map[];
    var toAnalyze := [Item(pr.from, None)];
    StartIsUnderWay(pr, files);
    while toAnalyze != []
      invariant UnderWay(pr, files, toAnalyze, deps, first)
      decreases Unvisited(files, deps), |toAnalyze|
    {
      var e := toAnalyze[|toAnalyze| - 1];
      StepIsUnderWay(pr, files, toAnalyze, deps, first);
      toAnalyze := toAnalyze[..|toAnalyze| - 1];
      var imports := pr.Followed(e.file);
      first := Visit(first, deps, e.file);
      deps := deps[e.file := e.because];
      if e.file == to { return; }
      toAnalyze := Push(toAnalyze, imports, deps, e.file);
    }
    DrySearchIsComplete(pr, files, toAnalyze, deps, first, to);
  }

  /** Searches, then walks back from `to` along the recorded parents. */
  method InternalDependencyPath(pr: Project, to: File, ghost files: set<File>)
    returns (result: string, targets: seq<File>)
    requires pr.Within(files)
    ensures Explains(pr, to, result, targets)
  {
    var deps;
    ghost var first;
    deps, first := Analyze(pr, to, files);
    var target := Some(to);
    result, targets := "", [];
    while target.Some?
      invariant Walked(pr, to, deps, first, targets, target) && result == Lines(targets)
      decreases if target.Some? && target.value in deps then first[target.value] + 1 else 0
    {
      var f := target.value;
      ghost var before := targets;
      targets := targets + [f];
      assert targets[..|before|] == before;
      result := " -> " + f.path + "\n" + result;
      if f !in deps {
        result := NO_DEPENDENCY;
        return;
      }
      WalkOn(pr, to, deps, first, before, f);
      target := deps[f];
    }
    WayBackIsPath(pr, targets, to);
    if forall f :: f in targets ==> OneLine(f) { WayBackIsShown(pr, targets, to); }
  }

  lemma LinesAreNotTheRefusal(ts: seq<File>)
    requires ts != []
    ensures Lines(ts) != NO_DEPENDENCY
  {
    assert Lines(ts)[0] == ' ' && NO_DEPENDENCY[0] == 'N';
  }

  /** Tries without the implicit dependencies first, and with them if that explains nothing. */
  method DependencyPath(pr: Project, implicit: File -> seq<Option<File>>, to: File, ghost files: set<File>)
    returns (result: string, targets: seq<File>)
    requires pr.Within(files) && pr.(imports := implicit).Within(files)
    ensures pr.from == to ==> result == SAME_FILE
    ensures pr.from != to ==> Explains(if pr.Reaches(to) then pr else pr.(imports := implicit), to, result, targets)
  {
    if pr.from == to { return SAME_FILE, []; }
    result, targets := InternalDependencyPath(pr, to, files);
    if pr.Reaches(to) { LinesAreNotTheRefusal(targets); }
    if result == NO_DEPENDENCY {
      result, targets := InternalDependencyPath(pr.(imports := implicit), to, files);
    }
  }
}
