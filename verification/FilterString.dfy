/**
 The filter of the native file dialog: names and patterns, given as two lists separated by
 semicolons, are written into one buffer as pairs of NUL-terminated strings, and an empty string ends it.
 */
module FilterString {
  import opened Sequences

  const SEPARATOR := ';'
  const NUL := '\0'
  const FILTER_SIZE := 512

  // ----- lists separated by semicolons

  /** The text before the first separator. */
  function First(s: string): (r: string)
    ensures |r| <= |s| && r == s[..|r|] && SEPARATOR !in r && (|r| < |s| ==> s[|r|] == SEPARATOR)
  {
    if s == "" || s[0] == SEPARATOR then "" else [s[0]] + First(s[1..])
  }

  /** The text behind the first separator. */
  function Others(s: string): string {
    if |First(s)| == |s| then "" else s[|First(s)| + 1..]
  }

  /** The parts of a list; what is empty behind a last separator is not one. */
  function Parts(s: string): seq<string>
    decreases |s|
  {
    if s == "" then [] else [First(s)] + Parts(Others(s))
  }

  function Join(parts: seq<string>): string {
    if parts == [] then ""
    else if |parts| == 1 then parts[0]
    else parts[0] + [SEPARATOR] + Join(parts[1..])
  }

  /** The parts hold no separator and, joined with separators, make up the list again, except for a last one. */
  lemma {:induction false} PartsMakeUpList(s: string)
    ensures forall part :: part in Parts(s) ==> SEPARATOR !in part
    ensures s == if EndsList(s) then Join(Parts(s)) + [SEPARATOR] else Join(Parts(s))
    decreases |s|
  {
    PartsHaveNoSeparator(s);
    if s != "" {
      JoinFirst(s);
      SplitsAtFirst(s);
      hide *;
      var (f, rest) := (First(s), Others(s));
      EndsWithRest(s, f, rest);
      if rest != "" {
        PartsMakeUpList(rest);
        Assoc(f + [SEPARATOR], Join(Parts(rest)), [SEPARATOR]);
      }
    }
  }

  /** Whether a last separator ends the list. */
  predicate EndsList(s: string) { s != "" && s[|s| - 1] == SEPARATOR }

  lemma EndsWithRest(s: string, f: string, rest: string)
    requires if |f| == |s| then f == s && rest == "" else s == f + [SEPARATOR] + rest
    requires f == s && s != "" ==> s[|s| - 1] != SEPARATOR
    ensures rest != "" ==> (EndsList(s) <==> EndsList(rest))
    ensures rest == "" ==> s == if EndsList(s) then f + [SEPARATOR] else f
  {
  }

  lemma {:induction false} PartsHaveNoSeparator(s: string)
    ensures forall part :: part in Parts(s) ==> SEPARATOR !in part
    decreases |s|
  {
    if s != "" { PartsHaveNoSeparator(Others(s)); }
  }

  lemma SplitsAtFirst(s: string)
    requires s != ""
    ensures var (f, rest) := (First(s), Others(s));
      && (|f| == |s| ==> f == s && rest == "" && s[|s| - 1] != SEPARATOR)
      && (|f| < |s| ==> s == f + [SEPARATOR] + rest)
  {
    var (f, k, rest) := (First(s), |First(s)|, Others(s));
    assert f == s[..k] && SEPARATOR !in f && (k < |s| ==> s[k] == SEPARATOR);
    assert rest == if k == |s| then "" else s[k + 1..];
    hide *;
    if k == |s| {
      assert f[k - 1] == s[k - 1] && f[k - 1] in f;
    } else {
      SplitAt(s, k);
    }
  }

  lemma JoinFirst(s: string)
    requires s != ""
    ensures Parts(s) == [First(s)] + Parts(Others(s)) && Parts("") == []
    ensures Join(Parts(s)) == if Others(s) == "" then First(s) else First(s) + [SEPARATOR] + Join(Parts(Others(s)))
  {
    var (f, rest) := (First(s), Others(s));
    hide First, Others;
    if rest != "" { assert ([f] + Parts(rest))[1..] == Parts(rest); }
  }

  // ----- the pairs

  datatype Filter = Filter(name: string, pattern: string)

  /** A pattern as the dialog wants it: semicolons for commas, and no braces. */
  function Plain(pattern: string): string {
    if pattern == "" then ""
    else if pattern[0] == ',' then ";" + Plain(pattern[1..])
    else if pattern[0] == '{' || pattern[0] == '}' then Plain(pattern[1..])
    else [pattern[0]] + Plain(pattern[1..])
  }

  /** The dialog gets a semicolon for each comma, nothing for a brace, and any other character as it is. */
  lemma {:induction false} PlainIsCharwise(a: string, b: string)
    ensures Plain(a + b) == Plain(a) + Plain(b)
    ensures Plain("") == "" && Plain(",") == ";" && Plain("{") == Plain("}") == ""
    ensures forall c :: c != ',' && c != '{' && c != '}' ==> Plain([c]) == [c]
  {
    assert forall c: char :: [c][1..] == "";
    if a == "" {
      assert a + b == b;
    } else {
      assert (a + b)[1..] == a[1..] + b;
      PlainIsCharwise(a[1..], b);
    }
  }

  function FilterOf(name: string, pattern: string): Filter {
    Filter(if name == "" then Plain(pattern) else name, Plain(pattern))
  }

  function Filters(names: string, patterns: string): seq<Filter>
    decreases |patterns|
  {
    if patterns == "" then [] else [FilterOf(First(names), First(patterns))] + Filters(Others(names), Others(patterns))
  }

  /** There is a filter for each pattern, with the name at the same place, or with itself where there is none. */
  lemma {:induction false} FilterForEachPattern(names: string, patterns: string)
    ensures var (fs, ns, ps) := (Filters(names, patterns), Parts(names), Parts(patterns));
      && |fs| == |ps|
      && forall k :: 0 <= k < |ps| ==>
           && fs[k].pattern == Plain(ps[k])
           && fs[k].name == if k < |ns| && ns[k] != "" then ns[k] else Plain(ps[k])
    decreases |patterns|
  {
    if patterns != "" {
      FilterForEachPattern(Others(names), Others(patterns));
      var (fs, ns, ps) := (Filters(names, patterns), Parts(names), Parts(patterns));
      assert fs[1..] == Filters(Others(names), Others(patterns)) && ps[1..] == Parts(Others(patterns));
      if names == "" { assert Parts(Others(names)) == []; } else { assert ns[1..] == Parts(Others(names)); }
      forall k | 0 <= k < |ps|
        ensures fs[k].pattern == Plain(ps[k])
        ensures fs[k].name == if k < |ns| && ns[k] != "" then ns[k] else Plain(ps[k])
      {
        if k > 0 {
          assert fs[k] == fs[1..][k - 1] && ps[k] == ps[1..][k - 1];
        }
      }
    }
  }

  // ----- the buffer and how the dialog reads it

  function Terminated(s: string): string { s + [NUL] }

  /** The pairs one after the other, and an empty string. */
  function Encoded(filters: seq<Filter>): string {
    if filters == [] then [NUL]
    else Terminated(filters[0].name) + (Terminated(filters[0].pattern) + Encoded(filters[1..]))
  }

  /** The text before the first NUL. */
  function FirstString(b: string): (r: string)
    ensures |r| <= |b| && r == b[..|r|] && NUL !in r && (|r| < |b| ==> b[|r|] == NUL)
  {
    if b == "" || b[0] == NUL then "" else [b[0]] + FirstString(b[1..])
  }

  /** The strings of a buffer up to the first empty one. */
  function Strings(b: string): seq<string>
    decreases |b|
  {
    var s := FirstString(b);
    if s == "" || |s| == |b| then [] else [s] + Strings(b[|s| + 1..])
  }

  function Flat(filters: seq<Filter>): seq<string> {
    if filters == [] then [] else [filters[0].name, filters[0].pattern] + Flat(filters[1..])
  }

  /** What is read when a filter has an empty pattern: the filters before it, and its name. */
  function ReadUpToEmpty(filters: seq<Filter>): seq<string> {
    if filters == [] || filters[0].name == "" then []
    else if filters[0].pattern == "" then [filters[0].name]
    else [filters[0].name, filters[0].pattern] + ReadUpToEmpty(filters[1..])
  }

  lemma {:induction false} FirstStringIs(s: string, rest: string)
    requires NUL !in s
    ensures FirstString(Terminated(s) + rest) == s
  {
    if s == "" {
      assert (Terminated(s) + rest)[0] == NUL;
    } else {
      FirstStringIs(s[1..], rest);
      assert (Terminated(s) + rest)[0] == s[0] && s[0] in s;
      assert (Terminated(s) + rest)[1..] == Terminated(s[1..]) + rest;
    }
  }

  lemma StringsOfTerminated(s: string, rest: string)
    requires NUL !in s
    ensures Strings(Terminated(s) + rest) == if s == "" then [] else [s] + Strings(rest)
  {
    FirstStringIs(s, rest);
    assert (Terminated(s) + rest)[|s| + 1..] == rest;
  }

  lemma {:induction false} StringsOfEncoded(filters: seq<Filter>)
    requires forall f :: f in filters ==> NUL !in f.name && NUL !in f.pattern
    ensures Strings(Encoded(filters)) == ReadUpToEmpty(filters)
  {
    if filters == [] {
      assert FirstString([NUL]) == "";
    } else {
      var (f, rest) := (filters[0], Encoded(filters[1..]));
      var read := ReadUpToEmpty(filters[1..]);
      assert Encoded(filters) == Terminated(f.name) + (Terminated(f.pattern) + rest);
      assert f.name != "" && f.pattern != "" ==> ReadUpToEmpty(filters) == [f.name] + ([f.pattern] + read);
      assert f.name == "" || f.pattern == "" ==> ReadUpToEmpty(filters) == if f.name == "" then [] else [f.name];
      assert f in filters;
      hide *;
      StringsOfTerminated(f.name, Terminated(f.pattern) + rest);
      StringsOfTerminated(f.pattern, rest);
      StringsOfEncoded(filters[1..]);
    }
  }

  lemma {:induction false} UpToEmptyIsAllIff(filters: seq<Filter>)
    ensures |ReadUpToEmpty(filters)| <= |Flat(filters)| == 2 * |filters|
    ensures ReadUpToEmpty(filters) == Flat(filters) <==> forall f :: f in filters ==> f.name != "" && f.pattern != ""
  {
    if filters != [] {
      UpToEmptyIsAllIff(filters[1..]);
      var f := filters[0];
      assert f in filters;
      assert filters == [f] + filters[1..];
      if f.name != "" && f.pattern != "" {
        assert Flat(filters)[2..] == Flat(filters[1..]) && ReadUpToEmpty(filters)[2..] == ReadUpToEmpty(filters[1..]);
      }
    }
  }

  lemma {:induction false} PlainIsEmptyIff(pattern: string)
    ensures Plain(pattern) == "" <==> forall c :: c in pattern ==> c == '{' || c == '}'
    ensures NUL !in pattern ==> NUL !in Plain(pattern)
  {
    if pattern != "" {
      PlainIsEmptyIff(pattern[1..]);
      assert pattern[0] in pattern && forall c :: c in pattern[1..] ==> c in pattern;
      assert pattern == [pattern[0]] + pattern[1..];
    }
  }

  lemma {:induction false} PartsHaveNoNul(s: string)
    requires NUL !in s
    ensures forall part :: part in Parts(s) ==> NUL !in part
    decreases |s|
  {
    if s != "" { PartsHaveNoNul(Others(s)); }
  }

  /** Something of a pattern is left once its braces are gone. */
  predicate IsVisible(pattern: string) {
    exists c :: c in pattern && c != '{' && c != '}'
  }

  /**
   The dialog reads back all filters exactly when each pattern has something other than braces.
   Otherwise it stops at the first that has not, after the name of its filter.
   */
  lemma FiltersReadBackIff(names: string, patterns: string)
    requires NUL !in names && NUL !in patterns
    ensures Strings(Encoded(Filters(names, patterns))) == ReadUpToEmpty(Filters(names, patterns))
    ensures Strings(Encoded(Filters(names, patterns))) == Flat(Filters(names, patterns))
            <==> forall part :: part in Parts(patterns) ==> IsVisible(part)
  {
    var (fs, ns, ps) := (Filters(names, patterns), Parts(names), Parts(patterns));
    FilterForEachPattern(names, patterns);
    PartsHaveNoNul(names);
    PartsHaveNoNul(patterns);
    forall k | 0 <= k < |fs|
      ensures NUL !in fs[k].name && NUL !in fs[k].pattern
      ensures (fs[k].name != "" && fs[k].pattern != "") <==> IsVisible(ps[k])
    {
      PlainIsEmptyIff(ps[k]);
      assert ps[k] in ps && (k < |ns| ==> ns[k] in ns);
    }
    StringsOfEncoded(fs);
    UpToEmptyIsAllIff(fs);
    hide *;
    SamePlaces(fs, ps);
  }

  lemma SamePlaces(fs: seq<Filter>, ps: seq<string>)
    requires |fs| == |ps|
    requires forall k :: 0 <= k < |fs| ==> ((fs[k].name != "" && fs[k].pattern != "") <==> IsVisible(ps[k]))
    ensures (forall f :: f in fs ==> f.name != "" && f.pattern != "")
            <==> (forall part :: part in ps ==> IsVisible(part))
  {
    hide *;
    if forall part :: part in ps ==> IsVisible(part) {
      forall f | f in fs ensures f.name != "" && f.pattern != "" {
        var k :| 0 <= k < |fs| && fs[k] == f;
        assert ps[k] in ps;
      }
    }
    if forall f :: f in fs ==> f.name != "" && f.pattern != "" {
      forall part | part in ps ensures IsVisible(part) {
        var k :| 0 <= k < |ps| && ps[k] == part;
        assert fs[k] in fs;
      }
    }
  }

  lemma {:induction false} PlainIsNotLonger(pattern: string)
    ensures |Plain(pattern)| <= |pattern|
  {
    if pattern != "" { PlainIsNotLonger(pattern[1..]); }
  }

  /** The room that a buffer needs at most. */
  lemma {:induction false} EncodedRoom(names: string, patterns: string)
    ensures |Encoded(Filters(names, patterns))| <= |names| + 2 * |patterns| + 3
    ensures patterns == "" ==> |Encoded(Filters(names, patterns))| == 1
    decreases |patterns|
  {
    if patterns != "" {
      var p := First(patterns);
      PlainIsNotLonger(p);
      EncodedRoom(Others(names), Others(patterns));
      assert Filters(names, patterns)[1..] == Filters(Others(names), Others(patterns));
    }
  }

  // ----- writing the buffer

  /** What is to be written for the rest of both lists. */
  function FilterText(names: string, patterns: string): string { Encoded(Filters(names, patterns)) }

  /** Copies a name up to a separator. */
  method CopyName(name: string, start: nat, filter: array<char>, at: nat) returns (pi: nat, index: nat)
    requires start <= |name| && at + |First(name[start..])| <= filter.Length
    modifies filter
    ensures pi == start + |First(name[start..])| && index == at + |First(name[start..])|
    ensures filter[..index] == old(filter[..at]) + First(name[start..])
  {
    hide First;
    pi, index := start, at;
    while pi < |name| && name[pi] != SEPARATOR
      invariant start <= pi <= |name| && index == at + (pi - start)
      invariant pi + |First(name[pi..])| == start + |First(name[start..])|
      invariant filter[..index] + First(name[pi..]) == old(filter[..at]) + First(name[start..])
    {
      FirstMoves(name, pi);
      Assoc(filter[..index], [name[pi]], First(name[pi + 1..]));
      filter[index] := name[pi];
      pi, index := pi + 1, index + 1;
    }
    FirstEnds(name, pi);
  }

  lemma FirstEnds(s: string, i: nat)
    requires i <= |s| && (i < |s| ==> s[i] == SEPARATOR)
    ensures First(s[i..]) == ""
  {
  }

  lemma FirstMoves(s: string, i: nat)
    requires i < |s| && s[i] != SEPARATOR
    ensures First(s[i..]) == [s[i]] + First(s[i + 1..])
  {
    assert s[i..][1..] == s[i + 1..];
  }

  /** Copies a pattern up to a separator, in the form that the dialog wants. */
  method CopyPattern(pattern: string, start: nat, filter: array<char>, at: nat) returns (fi: nat, index: nat)
    requires start <= |pattern| && at + |Plain(First(pattern[start..]))| <= filter.Length
    modifies filter
    ensures fi == start + |First(pattern[start..])| && index == at + |Plain(First(pattern[start..]))|
    ensures filter[..index] == old(filter[..at]) + Plain(First(pattern[start..]))
  {
    hide First, Plain;
    fi, index := start, at;
    while fi < |pattern| && pattern[fi] != SEPARATOR
      invariant start <= fi <= |pattern| && at <= index
      invariant fi + |First(pattern[fi..])| == start + |First(pattern[start..])|
      invariant index + |Plain(First(pattern[fi..]))| == at + |Plain(First(pattern[start..]))|
      invariant filter[..index] + Plain(First(pattern[fi..])) == old(filter[..at]) + Plain(First(pattern[start..]))
    {
      var c := pattern[fi];
      PlainMoves(pattern, fi);
      if c == ',' {
        filter[index] := ';';
        index := index + 1;
      } else if c != '{' && c != '}' {
        filter[index] := c;
        index := index + 1;
      }
      fi := fi + 1;
    }
    FirstEnds(pattern, fi);
    NothingIsPlain();
  }

  lemma NothingIsPlain()
    ensures Plain("") == ""
  {
  }

  /** What the character at `i` contributes. */
  lemma PlainMoves(s: string, i: nat)
    requires i < |s| && s[i] != SEPARATOR
    ensures |First(s[i..])| == 1 + |First(s[i + 1..])|
    ensures Plain(First(s[i..]))
         == (if s[i] == ',' then ";" else if s[i] == '{' || s[i] == '}' then "" else [s[i]]) + Plain(First(s[i + 1..]))
  {
    FirstMoves(s, i);
    assert First(s[i..])[1..] == First(s[i + 1..]);
    hide First;
  }

  /** Copies what is between `start` and `stop` to the end, which is at `stop`. */
  method CopyAgain(filter: array<char>, start: nat, stop: nat) returns (index: nat)
    requires start <= stop && stop + (stop - start) <= filter.Length
    modifies filter
    ensures index == stop + (stop - start)
    ensures filter[..index] == old(filter[..stop]) + old(filter[start..stop])
  {
    index := stop;
    for k := start to stop
      invariant index == stop + (k - start)
      invariant filter[..index] == old(filter[..stop]) + old(filter[start..k])
    {
      assert filter[k] == filter[..index][k] == old(filter[..stop])[k];
      filter[index] := filter[k];
      index := index + 1;
      assert old(filter[start..k + 1]) == old(filter[start..k]) + [old(filter[k])];
    }
  }

  /** Writes one filter, and moves both cursors to the separators behind it. */
  method CopyFilter(name: string, pattern: string, pi0: nat, fi0: nat, filter: array<char>, at: nat)
    returns (pi: nat, fi: nat, index: nat)
    requires pi0 <= |name| && fi0 <= |pattern|
    requires var f := FilterOf(First(name[pi0..]), First(pattern[fi0..]));
      at + |f.name| + |f.pattern| + 2 <= filter.Length
    modifies filter
    ensures pi == pi0 + |First(name[pi0..])| && fi == fi0 + |First(pattern[fi0..])| && at <= index <= filter.Length
    ensures var f := FilterOf(First(name[pi0..]), First(pattern[fi0..]));
      filter[..index] == old(filter[..at]) + (Terminated(f.name) + Terminated(f.pattern))
  {
    ghost var (n, p) := (First(name[pi0..]), Plain(First(pattern[fi0..])));
    ghost var before := filter[..at];
    hide First, Plain;
    pi, index := CopyName(name, pi0, filter, at);
    var nameFound := pi > pi0;
    if nameFound {
      filter[index] := NUL;
      index := index + 1;
    }
    ghost var front := if n == "" then before else before + Terminated(n);
    assert filter[..index] == front;
    var start := index;
    fi, index := CopyPattern(pattern, fi0, filter, index);
    assert filter[..index] == front + p;
    filter[index] := NUL;
    index := index + 1;
    assert filter[..index] == front + Terminated(p);
    hide Terminated;
    if !nameFound {
      assert filter[start..index] == Terminated(p);
      index := CopyAgain(filter, start, index);
      assert filter[..index] == (before + Terminated(p)) + Terminated(p);
      Assoc(before, Terminated(p), Terminated(p));
    } else {
      Assoc(before, Terminated(n), Terminated(p));
    }
  }

  /**
   Writes the whole filter with a cursor into the names and one into the patterns. The buffer
   then holds the pairs, whatever is missing from the names.
   */
  method BuildFilter(patternName: string, filePattern: string, filter: array<char>) returns (index: nat)
    requires filter.Length == FILTER_SIZE && |FilterText(patternName, filePattern)| <= FILTER_SIZE
    modifies filter
    ensures index <= filter.Length && filter[..index] == FilterText(patternName, filePattern)
  {
    var pi, fi := 0, 0;
    index := 0;
    assert patternName[0..] == patternName && filePattern[0..] == filePattern;
    ghost var written := "";
    hide *;
    while fi < |filePattern|
      invariant 0 <= pi <= |patternName| && 0 <= fi <= |filePattern| && index <= filter.Length
      invariant filter[..index] == written
      invariant written + FilterText(patternName[pi..], filePattern[fi..]) == FilterText(patternName, filePattern)
      decreases |filePattern| - fi
    {
      ghost var (names, patterns) := (patternName[pi..], filePattern[fi..]);
      ghost var (pi0, fi0) := (pi, fi);
      FilterTextNext(names, patterns);
      ghost var f := FilterOf(First(names), First(patterns));
      ghost var pair := Terminated(f.name) + Terminated(f.pattern);
      Assoc(written, pair, FilterText(Others(names), Others(patterns)));
      pi, fi, index := CopyFilter(patternName, filePattern, pi, fi, filter, index);
      if pi < |patternName| && patternName[pi] == SEPARATOR { pi := pi + 1; }
      if fi < |filePattern| && filePattern[fi] == SEPARATOR { fi := fi + 1; }
      OthersAreBehind(patternName, pi0, pi);
      OthersAreBehind(filePattern, fi0, fi);
      written := written + pair;
    }
    assert filePattern[fi..] == "";
    NothingFilterText(patternName[pi..]);
    filter[index] := NUL;
    index := index + 1;
  }

  lemma OthersAreBehind(s: string, i: nat, j: nat)
    requires i <= j <= |s|
    requires var k := i + |First(s[i..])|; j == if k < |s| && s[k] == SEPARATOR then k + 1 else k
    ensures s[j..] == Others(s[i..])
  {
  }

  lemma NothingFilterText(names: string)
    ensures FilterText(names, "") == [NUL]
  {
  }

  lemma FilterTextNext(names: string, patterns: string)
    requires patterns != ""
    ensures var f := FilterOf(First(names), First(patterns));
      && FilterText(names, patterns)
         == (Terminated(f.name) + Terminated(f.pattern)) + FilterText(Others(names), Others(patterns))
      && |Terminated(f.name) + Terminated(f.pattern)| == |f.name| + |f.pattern| + 2
  {
    var (f, rest) := (FilterOf(First(names), First(patterns)), Filters(Others(names), Others(patterns)));
    assert Filters(names, patterns) == [f] + rest;
    EncodedCons(f, rest);
    hide *;
  }

  lemma EncodedCons(f: Filter, rest: seq<Filter>)
    ensures Encoded([f] + rest) == (Terminated(f.name) + Terminated(f.pattern)) + Encoded(rest)
    ensures |Terminated(f.name) + Terminated(f.pattern)| == |f.name| + |f.pattern| + 2
  {
    assert ([f] + rest)[1..] == rest;
    var (a, b, c) := (Terminated(f.name), Terminated(f.pattern), Encoded(rest));
    hide Encoded;
    assert a + (b + c) == (a + b) + c;
  }
}
