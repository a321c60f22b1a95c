/**
 Collecting the libraries an application bundle needs, round by round, with a limit on the rounds.
 */
module LibraryResolver {
  import opened Wrappers
  import opened Sequences

  /** The answers of the file system and of otool, which do not change. */
  datatype World = World(
    libraryPath: seq<string>,
    otool: string -> seq<string>,
    isFile: string -> bool,
    inLib: (string, string) -> string,       // where a prefix keeps a library
    rebased: (string, string) -> string      // a file name with a prefix replaced by the bundle's
  ) {

    /** The first prefix that `line` starts with. */
    function PrefixOf(line: string, ps: seq<string>): Option<string> {
      if ps == [] then None else if ps[0] <= line then Some(ps[0]) else PrefixOf(line, ps[1..])
    }

    /** The first prefix that has a library of the same name. */
    function MovedTo(line: string, ps: seq<string>): Option<string> {
      if ps == [] then None else if isFile(inLib(ps[0], line)) then Some(ps[0]) else MovedTo(line, ps[1..])
    }

    predicate IsSystem(line: string) {
      var gcc := "libgcc_s.1.dylib";
      || "/usr/lib" <= line || "/System/Library" <= line
      || (|gcc| <= |line| && line[|line| - |gcc|..] == gcc)
    }

    /** The libraries that are bundled: under a prefix, or moved there and not part of the system. */
    predicate Accepted(line: string) {
      "/" <= line &&
      (PrefixOf(line, libraryPath).Some? || (!IsSystem(line) && MovedTo(line, libraryPath).Some?))
    }

    lemma {:induction false} FirstPrefix(line: string, ps: seq<string>) returns (k: nat)
      ensures k <= |ps| && (k < |ps| <==> exists p :: p in ps && p <= line)
      ensures forall j :: 0 <= j < k ==> !(ps[j] <= line)
      ensures if k < |ps| then ps[k] <= line && PrefixOf(line, ps) == Some(ps[k]) else PrefixOf(line, ps) == None
    {
      k := 0;
      if ps != [] && ps[0] <= line {
        assert ps[0] in ps;
      } else if ps != [] {
        k := FirstPrefix(line, ps[1..]);
        k := k + 1;
        if k < |ps| { assert ps[k] == ps[1..][k - 1] && ps[k] in ps; }
        assert forall p :: p in ps ==> p == ps[0] || p in ps[1..];
      }
    }

    lemma {:induction false} FirstMoved(line: string, ps: seq<string>) returns (k: nat)
      ensures k <= |ps| && (k < |ps| <==> exists p :: p in ps && isFile(inLib(p, line)))
      ensures forall j :: 0 <= j < k ==> !isFile(inLib(ps[j], line))
      ensures if k < |ps| then isFile(inLib(ps[k], line)) && MovedTo(line, ps) == Some(ps[k])
              else MovedTo(line, ps) == None
    {
      k := 0;
      if ps != [] && !isFile(inLib(ps[0], line)) {
        k := FirstMoved(line, ps[1..]);
        assert ps == [ps[0]] + ps[1..];
        k := k + 1;
      }
    }

    /** A bundled library is under a prefix, or a file of that name is, and then it is none of the system's. */
    lemma AcceptedIff(line: string)
      ensures Accepted(line) <==>
        && line != "" && line[0] == '/'
        && (|| (exists p :: p in libraryPath && p <= line)
            || (&& !("/usr/lib" <= line) && !("/System/Library" <= line)
                && (forall front :: line != front + "libgcc_s.1.dylib")
                && exists p :: p in libraryPath && isFile(inLib(p, line))))
    {
      var gcc := "libgcc_s.1.dylib";
      assert "/" <= line <==> line != "" && line[0] == '/';
      if |gcc| <= |line| && line[|line| - |gcc|..] == gcc { assert line == line[..|line| - |gcc|] + gcc; }
      if front :| line == front + gcc { assert line[|line| - |gcc|..] == gcc; }
      var k := FirstPrefix(line, libraryPath);
      var l := FirstMoved(line, libraryPath);
      hide PrefixOf, MovedTo;
    }

    /** The file that is looked at for an accepted library. */
    function FileOf(lib: string): string
      requires Accepted(lib)
    {
      if PrefixOf(lib, libraryPath).Some? then lib else inLib(MovedTo(lib, libraryPath).value, lib)
    }

    /** What is copied for an accepted library, and where to. */
    function TargetOf(lib: string): (string, string)
      requires Accepted(lib)
    {
      var p := PrefixOf(lib, libraryPath);
      (FileOf(lib), rebased(FileOf(lib), if p.Some? then p.value else MovedTo(lib, libraryPath).value))
    }

    /**
     The file copied for a library under a prefix is the library itself. For any other one it is
     the file of that name under the first prefix that has one. The prefix is replaced by the bundle's.
     */
    lemma TargetIs(lib: string) returns (k: nat)
      requires Accepted(lib)
      ensures k < |libraryPath| && TargetOf(lib).1 == rebased(TargetOf(lib).0, libraryPath[k])
      ensures if exists q :: q in libraryPath && q <= lib then
                TargetOf(lib).0 == lib && libraryPath[k] <= lib && forall j :: 0 <= j < k ==> !(libraryPath[j] <= lib)
              else
                && TargetOf(lib).0 == inLib(libraryPath[k], lib) && isFile(TargetOf(lib).0)
                && forall j :: 0 <= j < k ==> !isFile(inLib(libraryPath[j], lib))
    {
      k := FirstPrefix(lib, libraryPath);
      var l := FirstMoved(lib, libraryPath);
      if k == |libraryPath| { k := l; }
      hide PrefixOf, MovedTo;
    }

    /** What is copied for a main file. */
    function MainTarget(main: string): (string, string) {
      var p := PrefixOf(main, libraryPath);
      if p.Some? then (main, rebased(main, p.value)) else ("", main)
    }

    /** A main file is copied from where it is if it is under a prefix, and stays where it is if not. */
    lemma MainTargetIs(main: string) returns (k: nat)
      ensures k <= |libraryPath| && forall j :: 0 <= j < k ==> !(libraryPath[j] <= main)
      ensures if exists q :: q in libraryPath && q <= main then
                k < |libraryPath| && libraryPath[k] <= main && MainTarget(main) == (main, rebased(main, libraryPath[k]))
              else MainTarget(main).0 == "" && MainTarget(main).1 == main
    {
      k := FirstPrefix(main, libraryPath);
      hide PrefixOf;
    }

    /** The accepted libraries that the files use. */
    ghost function Uses(files: set<string>): set<string> {
      set f, l | f in files && l in otool(f) && Accepted(l) :: l
    }

    /** The file looked at for a key: mains are looked at as they are. */
    ghost function LookedAt(mains: set<string>, k: string): string {
      if k !in mains && Accepted(k) then FileOf(k) else k
    }

    ghost function Files(mains: set<string>, keys: set<string>): set<string> {
      set k | k in keys :: LookedAt(mains, k)
    }

    /** The files looked at for accepted libraries. */
    ghost function FilesOf(libs: set<string>): set<string> {
      set k | k in libs && Accepted(k) :: FileOf(k)
    }

    lemma FilesOfOne(lib: string)
      requires Accepted(lib)
      ensures FilesOf({lib}) == {FileOf(lib)}
    {
      hide FileOf, Accepted;
      assert lib in {lib};
    }

    lemma FilesOfUnion(a: set<string>, b: set<string>)
      ensures FilesOf(a + b) == FilesOf(a) + FilesOf(b)
    {
    }

    /** Bundling the accepted libraries `added` on top of what was there before gives `copied` and `inputs`. */
    ghost predicate Adds(before: map<string, (string, string)>, inputs0: seq<string>, added: set<string>,
                         copied: map<string, (string, string)>, inputs: seq<string>) {
      && copied.Keys == before.Keys + added && (forall k :: k in added ==> Accepted(k))
      && (forall k :: k in before ==> copied[k] == before[k])
      && (forall k :: k in added - before.Keys ==> copied[k] == TargetOf(k))
      && AsSet(inputs) == AsSet(inputs0) + FilesOf(added - before.Keys)
    }

    /** Adding what is there already changes nothing. */
    lemma AddAgain(before: map<string, (string, string)>, inputs0: seq<string>, added: set<string>,
                   copied: map<string, (string, string)>, inputs: seq<string>, lib: string)
      requires Adds(before, inputs0, added, copied, inputs) && lib in copied && Accepted(lib)
      ensures Adds(before, inputs0, added + {lib}, copied, inputs)
    {
      assert (added + {lib}) - before.Keys == added - before.Keys;
    }

    lemma AddsNothing(before: map<string, (string, string)>, inputs0: seq<string>)
      ensures Adds(before, inputs0, {}, before, inputs0) && Uses(AsSet([])) == {}
    {
      assert {} - before.Keys == {};
      hide FileOf, Accepted, TargetOf;
    }

    lemma AddOne(before: map<string, (string, string)>, inputs0: seq<string>, added: set<string>,
                 copied: map<string, (string, string)>, inputs: seq<string>, lib: string)
      requires Adds(before, inputs0, added, copied, inputs) && lib !in copied && Accepted(lib)
      ensures Adds(before, inputs0, added + {lib}, copied[lib := TargetOf(lib)], inputs + [FileOf(lib)])
    {
      hide FilesOf, FileOf, Accepted, TargetOf, AsSet;
      assert (added + {lib}) - before.Keys == (added - before.Keys) + {lib};
      FilesOfUnion(added - before.Keys, {lib});
      FilesOfOne(lib);
      SeqSetAppend(inputs, [FileOf(lib)]);
      SeqSetOne(FileOf(lib));
    }

    /** The mains and the accepted libraries at distance at most `r` from them. */
    ghost function Reach(mains: set<string>, r: nat): set<string> {
      if r == 0 then mains else Reach(mains, r - 1) + Uses(Files(mains, Reach(mains, r - 1)))
    }

    /** Nothing that is needed is missing. */
    ghost predicate Closed(mains: set<string>, keys: set<string>) {
      forall k, l :: k in keys && l in otool(LookedAt(mains, k)) && Accepted(l) ==> l in keys
    }

    lemma {:induction false} ReachGrows(mains: set<string>, r: nat, s: nat)
      requires r <= s
      ensures Reach(mains, r) <= Reach(mains, s)
      decreases s - r
    {
      hide Uses, Files, LookedAt, Accepted;
      if r < s { ReachGrows(mains, r, s - 1); }
    }

    /** Once a round adds nothing, no later one does. */
    lemma {:induction false} ReachStays(mains: set<string>, r: nat, s: nat)
      requires r <= s && Reach(mains, r) == Reach(mains, r + 1)
      ensures Reach(mains, s) == Reach(mains, r)
      decreases s - r
    {
      hide Uses, Files, LookedAt, Accepted;
      if r < s { ReachStays(mains, r, s - 1); }
    }

    lemma FixpointIsClosed(mains: set<string>, r: nat)
      requires Reach(mains, r) == Reach(mains, r + 1)
      ensures Closed(mains, Reach(mains, r))
    {
      var keys := Reach(mains, r);
      forall k, l | k in keys && l in otool(LookedAt(mains, k)) && Accepted(l) ensures l in keys {
        assert LookedAt(mains, k) in Files(mains, keys);
        assert l in Uses(Files(mains, keys));
      }
    }

    /** A closed set that has the mains has everything at any distance. */
    lemma {:induction false} ReachIsLeast(mains: set<string>, r: nat, keys: set<string>)
      requires mains <= keys && Closed(mains, keys)
      ensures Reach(mains, r) <= keys
    {
      if r > 0 { ReachIsLeast(mains, r - 1, keys); }
    }

    /** What is within `r` steps misses nothing exactly when nothing is further. */
    lemma ClosedIff(mains: set<string>, r: nat)
      ensures Closed(mains, Reach(mains, r)) <==> Reach(mains, r + 1) == Reach(mains, r)
    {
      hide *;
      if Reach(mains, r + 1) == Reach(mains, r) { FixpointIsClosed(mains, r); }
      if Closed(mains, Reach(mains, r)) {
        MainsAreReached(mains, r);
        ReachGrows(mains, r, r + 1);
        ReachIsLeast(mains, r + 1, Reach(mains, r));
      }
    }

    lemma MainsAreReached(mains: set<string>, r: nat)
      ensures mains <= Reach(mains, r)
    {
      ReachGrows(mains, 0, r);
    }

    /** New accepted libraries add their own files to those looked at. */
    lemma FilesGrow(mains: set<string>, keys: set<string>, added: set<string>)
      requires mains <= keys && forall k :: k in added ==> Accepted(k)
      ensures Files(mains, keys + added) == Files(mains, keys) + FilesOf(added - keys)
    {
      var new_ := FilesOf(added - keys);
      forall f | f in Files(mains, keys + added) ensures f in Files(mains, keys) + new_ {
        var k :| k in keys + added && f == LookedAt(mains, k);
        if k in keys { assert f in Files(mains, keys); } else { assert k in added - keys; }
      }
      forall f | f in new_ ensures f in Files(mains, keys + added) {
        var k :| k in added - keys && Accepted(k) && f == FileOf(k);
        assert k in keys + added && f == LookedAt(mains, k);
      }
    }

    /** A round that does not change the number of libraries does not change the libraries. */
    lemma SameSizeIsFixpoint(mains: set<string>, r: nat)
      requires |Reach(mains, r)| == |Reach(mains, r + 1)|
      ensures Reach(mains, r) == Reach(mains, r + 1)
    {
      var a, b := Reach(mains, r), Reach(mains, r + 1);
      hide Reach, Uses;
      assert a <= b by { ReachGrows(mains, r, r + 1); }
      assert b == a + (b - a) && |b| == |a| + |b - a|;
    }

    /** The round after which nothing is added is at most the tenth exactly when the distances are at most nine. */
    lemma StoppedIsNine(mains: set<string>, n: nat)
      requires 1 <= n <= 10 && |Reach(mains, n - 1)| == |Reach(mains, n)|
      ensures Reach(mains, 9) == Reach(mains, 10) == Reach(mains, n)
      ensures Closed(mains, Reach(mains, n))
    {
      hide *;
      SameSizeIsFixpoint(mains, n - 1);
      ReachStays(mains, n - 1, 9);
      ReachStays(mains, n - 1, 10);
      ReachStays(mains, n - 1, n + 1);
      FixpointIsClosed(mains, n - 1);
    }

    lemma UsesUnion(a: set<string>, b: set<string>)
      ensures Uses(a + b) == Uses(a) + Uses(b)
    {
    }

    lemma SeqSetOne(x: string)
      ensures AsSet([x]) == {x}
    {
      assert x == [x][0];
    }

    lemma SeqSetAppend(a: seq<string>, b: seq<string>)
      ensures AsSet(a + b) == AsSet(a) + AsSet(b)
    {
    }
  }

  ghost function AsSet(s: seq<string>): set<string> { set x | x in s }

  class Resolver {
    const world: World
    var inputs: seq<string>
    var toCopy: map<string, (string, string)>
    var ignore: seq<string>

    constructor (world: World)
      ensures this.world == world && toCopy == map[] && inputs == [] && ignore == []
    {
      this.world, toCopy, inputs, ignore := world, map[], [], [];
    }

    /** Only libraries that are not accepted are ignored. */
    ghost predicate IgnoreOk()
      reads this
    {
      forall l :: l in ignore ==> !world.Accepted(l)
    }

    /** Whether a line names a library to bundle; remembers the ones that no prefix has. */
    method PrefixFilter(line: string) returns (r: bool)
      requires IgnoreOk()
      modifies `ignore
      ensures IgnoreOk()
      ensures world.Accepted(line) ==> r
      ensures r ==> line in toCopy || world.Accepted(line)
    {
      if line in ignore { return false; }
      if line in toCopy { return true; }
      if !("/" <= line) { return false; }
      if world.PrefixOf(line, world.libraryPath).Some? { return true; }
      if !world.IsSystem(line) {
        if world.MovedTo(line, world.libraryPath).Some? { return true; }
        ignore := ignore + [line];
      }
      return false;
    }

    /** Those of the libraries that are accepted. */
    ghost function AcceptedOf(libs: set<string>): set<string> {
      set l | l in libs && world.Accepted(l)
    }

    /** The libraries a file uses, as far as they are bundled. */
    method GetDeps(filename: string) returns (libs: set<string>)
      requires IgnoreOk()
      modifies `ignore
      ensures IgnoreOk() && AcceptedOf(libs) == world.Uses({filename})
      ensures forall l :: l in libs ==> l in toCopy || world.Accepted(l)
    {
      libs := {};
      var lines := world.otool(filename);
      for i := 0 to |lines|
        invariant IgnoreOk()
        invariant forall l :: l in lines[..i] && world.Accepted(l) ==> l in libs
        invariant forall l :: l in libs ==> l in lines && (l in toCopy || world.Accepted(l))
      {
        assert lines[..i + 1] == lines[..i] + [lines[i]];
        var keep := PrefixFilter(lines[i]);
        if keep { libs := libs + {lines[i]}; }
      }
      assert lines[..|lines|] == lines;
    }

    /** The accepted libraries `added` are bundled on top of `before`, and their files are on the input list. */
    ghost predicate Bundled(before: map<string, (string, string)>, inputs0: seq<string>, added: set<string>)
      reads this
    {
      IgnoreOk() && world.Adds(before, inputs0, added, toCopy, inputs)
    }

    /** Where a library is, and the prefix it is under. */
    method Find(lib: string) returns (file: string, prefix: string)
      requires world.Accepted(lib)
      ensures file == world.FileOf(lib) && (file, world.rebased(file, prefix)) == world.TargetOf(lib)
    {
      var p := world.PrefixOf(lib, world.libraryPath);
      if p.Some? {
        file, prefix := lib, p.value;
      } else {
        prefix := world.MovedTo(lib, world.libraryPath).value;
        file := world.inLib(prefix, lib);
      }
    }

    /** Bundles one library if that has not been done. */
    method AddLibrary(lib: string, ghost before: map<string, (string, string)>, ghost inputs0: seq<string>,
                      ghost added: set<string>)
      requires Bundled(before, inputs0, added) && (lib in toCopy || world.Accepted(lib))
      modifies `toCopy, `inputs
      ensures Bundled(before, inputs0, if world.Accepted(lib) then added + {lib} else added)
      ensures old(toCopy).Keys <= toCopy.Keys
    {
      if lib in toCopy {
        if world.Accepted(lib) { world.AddAgain(before, inputs0, added, toCopy, inputs, lib); }
        return;
      }
      if lib in ignore { return; }
      var file, prefix := Find(lib);
      world.AddOne(before, inputs0, added, toCopy, inputs, lib);
      hide World.Adds, World.Accepted;
      toCopy := toCopy[lib := (file, world.rebased(file, prefix))];
      inputs := inputs + [file];
    }

    lemma AcceptedOfMore(libs: set<string>, todo: set<string>, lib: string)
      requires lib in todo && todo <= libs
      ensures AcceptedOf(libs - (todo - {lib}))
           == if world.Accepted(lib) then AcceptedOf(libs - todo) + {lib} else AcceptedOf(libs - todo)
    {
    }

    lemma NothingIsLeft(libs: set<string>, added: set<string>)
      ensures libs - {} == libs && AcceptedOf(libs - libs) == {} && added + {} == added
    {
    }

    method AddLibraries(libs: set<string>, ghost before: map<string, (string, string)>, ghost inputs0: seq<string>,
                        ghost added: set<string>)
      requires Bundled(before, inputs0, added) && forall l :: l in libs ==> l in toCopy || world.Accepted(l)
      modifies `toCopy, `inputs
      ensures Bundled(before, inputs0, added + AcceptedOf(libs))
    {
      NothingIsLeft(libs, added);
      hide *;
      var todo := libs;
      ghost var now := added;
      while todo != {}
        invariant todo <= libs && Bundled(before, inputs0, now) && now == added + AcceptedOf(libs - todo)
        invariant forall l :: l in todo ==> l in toCopy || world.Accepted(l)
        decreases |todo|
      {
        var lib :| lib in todo;
        AddLibrary(lib, before, inputs0, now);
        AcceptedOfMore(libs, todo, lib);
        now := if world.Accepted(lib) then now + {lib} else now;
        todo := todo - {lib};
      }
    }

    /** Bundles what the given files use. */
    method AddDeps(fList: seq<string>)
      requires IgnoreOk()
      modifies `toCopy, `inputs, `ignore
      ensures Bundled(old(toCopy), old(inputs), world.Uses(AsSet(fList)))
    {
      ghost var before, inputs0 := toCopy, inputs;
      ghost var added: set<string> := {};
      world.AddsNothing(toCopy, inputs);
      hide World.Adds, World.Uses, World.Accepted, AsSet, AcceptedOf, IgnoreOk;
      assert fList[..0] == [];
      for i := 0 to |fList|
        invariant Bundled(before, inputs0, added)
        invariant added == world.Uses(AsSet(fList[..i]))
      {
        var libs := GetDeps(fList[i]);
        AddLibraries(libs, before, inputs0, added);
        added := added + AcceptedOf(libs);
        TakeNext(fList, i);
        world.SeqSetAppend(fList[..i], [fList[i]]);
        world.SeqSetOne(fList[i]);
        world.UsesUnion(AsSet(fList[..i]), AsSet([fList[i]]));
      }
      assert fList[..|fList|] == fList;
    }

    /** After `r` rounds: exactly what is at distance at most `r` is bundled, with its target. */
    ghost predicate Round(mains: seq<string>, r: nat)
      reads this
    {
      var ms := AsSet(mains);
      && IgnoreOk() && toCopy.Keys == world.Reach(ms, r)
      && AsSet(inputs) == world.Files(ms, toCopy.Keys)
      && forall k :: k in toCopy ==>
           if k in ms then toCopy[k] == world.MainTarget(k)
           else world.Accepted(k) && toCopy[k] == world.TargetOf(k)
    }

    /** Starts with the mains, whether or not a prefix has them. */
    method AddMains(mains: seq<string>)
      requires toCopy == map[] && IgnoreOk()
      modifies `toCopy, `inputs
      ensures Round(mains, 0)
    {
      inputs := mains;
      for i := 0 to |mains|
        invariant inputs == mains && IgnoreOk() && toCopy.Keys == AsSet(mains[..i])
        invariant forall k :: k in toCopy ==> toCopy[k] == world.MainTarget(k)
      {
        var p := world.PrefixOf(mains[i], world.libraryPath);
        toCopy := toCopy[mains[i] := if p.Some? then (mains[i], world.rebased(mains[i], p.value)) else ("", mains[i])];
        assert mains[..i + 1] == mains[..i] + [mains[i]];
      }
      assert mains[..|mains|] == mains;
    }

    /** What it means to have been resolved, or to have been given up. */
    ghost predicate Resolved(mains: seq<string>, ok: bool)
      reads this
    {
      var ms := AsSet(mains);
      && (ok <==> world.Reach(ms, 10) == world.Reach(ms, 9))
      && (ok ==> Round(mains, 9) && world.Closed(ms, toCopy.Keys))
      && (!ok ==> Round(mains, 11) && (world.Closed(ms, toCopy.Keys) <==> world.Reach(ms, 12) == world.Reach(ms, 11)))
    }

    /** The number of libraries before the last of `n` rounds. */
    ghost predicate Counted(mains: seq<string>, n: nat, paths: int) {
      if n == 0 then paths == -1 else paths == |world.Reach(AsSet(mains), n - 1)|
    }

    /**
     Goes on for as long as a round adds something, and gives up after the eleventh round. It
     does not give up exactly when nothing is further than nine steps from the mains; then what
     is bundled is closed, and each library has its target. When it gives up, everything within
     eleven steps has been bundled all the same, and that may well be all.
     */
    method ResolveLibraryDependencies(mains: seq<string>) returns (ok: bool)
      requires toCopy == map[] && ignore == []
      modifies `toCopy, `inputs, `ignore
      ensures Resolved(mains, ok)
    {
      AddMains(mains);
      var nIterations := 0;
      var nPaths := -1;
      while nPaths != |toCopy|
        invariant 0 <= nIterations <= 10 && Round(mains, nIterations) && Counted(mains, nIterations, nPaths)
        decreases 10 - nIterations
      {
        hide *;
        if nIterations == 10 { IsGivenUp(mains, nPaths); }
        nPaths := |toCopy|;
        IsCounted(mains, nIterations, nPaths);
        NextRound(mains, nIterations);
        nIterations := nIterations + 1;
        if nIterations > 10 {
          GivenUpIsNotResolved(mains);
          return false;
        }
      }
      IsResolved(mains, nIterations);
      ok := true;
    }

    lemma IsCounted(mains: seq<string>, n: nat, paths: int)
      requires Round(mains, n) && paths == |toCopy|
      ensures Counted(mains, n + 1, paths)
    {
      RoundKeys(mains, n);
      hide Round;
    }

    /** Something is further than nine steps from the mains. */
    ghost predicate GivenUp(mains: seq<string>) {
      world.Reach(AsSet(mains), 10) != world.Reach(AsSet(mains), 9)
    }

    lemma IsGivenUp(mains: seq<string>, paths: int)
      requires Round(mains, 10) && Counted(mains, 10, paths) && paths != |toCopy|
      ensures GivenUp(mains)
    {
      RoundKeys(mains, 10);
      hide Round, World.Reach;
    }

    lemma GivenUpIsNotResolved(mains: seq<string>)
      requires GivenUp(mains) && Round(mains, 11)
      ensures Resolved(mains, false)
    {
      RoundKeys(mains, 11);
      world.ClosedIff(AsSet(mains), 11);
      hide Round, World.Reach, World.Closed, AsSet;
    }

    lemma IsResolved(mains: seq<string>, n: nat)
      requires n <= 10 && Round(mains, n) && Counted(mains, n, |toCopy|)
      ensures Resolved(mains, true)
    {
      RoundKeys(mains, n);
      world.StoppedIsNine(AsSet(mains), n);
      SameRound(mains, n, 9);
      hide Round, World.Reach, World.Closed;
    }

    lemma RoundKeys(mains: seq<string>, r: nat)
      requires Round(mains, r)
      ensures toCopy.Keys == world.Reach(AsSet(mains), r) && |toCopy| == |toCopy.Keys|
    {
    }

    lemma SameRound(mains: seq<string>, r: nat, s: nat)
      requires Round(mains, r) && world.Reach(AsSet(mains), r) == world.Reach(AsSet(mains), s)
      ensures Round(mains, s)
    {
    }

    method NextRound(mains: seq<string>, ghost r: nat)
      requires Round(mains, r)
      modifies `toCopy, `inputs, `ignore
      ensures Round(mains, r + 1)
    {
      ghost var ms := AsSet(mains);
      ghost var before, inputs0 := toCopy, inputs;
      ghost var added := world.Uses(AsSet(inputs));
      world.ReachGrows(ms, 0, r);
      world.FilesGrow(ms, toCopy.Keys, added);
      AddDeps(inputs);
      assert toCopy.Keys == before.Keys + added;
      assert world.Reach(ms, r + 1) == world.Reach(ms, r) + world.Uses(world.Files(ms, world.Reach(ms, r)));
    }
  }
}
