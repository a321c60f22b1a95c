/**
 Completing the call stack of the debugger with the diagrams between two stack frames.
 */
module FrameExpansion {
  import opened Sequences

  /** A diagram of the model and, for a real stack frame, the block that was reached in it. */
  datatype Frame = Frame(diagram: string, block: string)

  /** The diagram reached by the first `k + 1` names of a block's path. */
  function Prefix(mangle: string -> string, parts: seq<string>, k: nat): string
    requires k < |parts|
  {
    if k == 0 then parts[0] else mangle(Prefix(mangle, parts, k - 1) + "/" + parts[k])
  }

  /** Names with slashes between them. */
  function JoinNames(names: seq<string>): string
    requires names != []
  {
    if |names| == 1 then names[0] else names[0] + "/" + JoinNames(names[1..])
  }

  lemma {:induction false} JoinOneMore(names: seq<string>, last: string)
    requires names != []
    ensures JoinNames(names + [last]) == JoinNames(names) + ("/" + last)
  {
    if |names| > 1 {
      JoinOneMore(names[1..], last);
      assert (names + [last])[1..] == names[1..] + [last];
      assert names[0] + "/" + (JoinNames(names[1..]) + ("/" + last))
          == names[0] + "/" + JoinNames(names[1..]) + ("/" + last);
    } else {
      assert (names + [last])[1..] == [last];
      assert names[0] + "/" + last == names[0] + ("/" + last);
    }
  }

  /**
   If mangling the front of a text first makes no difference, a prefix is the mangled text of its
   names with slashes between them, in order.
   */
  lemma {:induction false} PrefixJoinsNames(mangle: string -> string, parts: seq<string>, k: nat)
    requires k < |parts| && forall x, y :: mangle(mangle(x) + y) == mangle(x + y)
    ensures Prefix(mangle, parts, k) == if k == 0 then parts[0] else mangle(JoinNames(parts[..k + 1]))
  {
    if k > 0 {
      PrefixJoinsNames(mangle, parts, k - 1);
      TakeNext(parts, k);
      JoinOneMore(parts[..k], parts[k]);
      var d := Prefix(mangle, parts, k - 1);
      assert d + "/" + parts[k] == d + ("/" + parts[k]);
      if k == 1 { assert parts[..1] == [parts[0]]; }
    }
  }

  /** The frames for the prefixes from the k-th on that come before `diagram` is reached. */
  function Ancestors(mangle: string -> string, parts: seq<string>, diagram: string, k: nat): seq<Frame>
    requires k < |parts|
    decreases |parts| - k
  {
    var d := Prefix(mangle, parts, k);
    if k + 1 < |parts| && d != diagram then [Frame(d, "")] + Ancestors(mangle, parts, diagram, k + 1) else []
  }

  /** Each frame preceded by its missing ancestors. */
  function Expand(split: string -> seq<string>, mangle: string -> string, frames: seq<Frame>): seq<Frame>
    requires forall b :: split(b) != []
  {
    if frames == [] then []
    else Ancestors(mangle, split(frames[0].block), frames[0].diagram, 0) + [frames[0]]
         + Expand(split, mangle, frames[1..])
  }

  /**
   The ancestors are the diagrams of the successive prefixes of the path, cut at the first
   prefix that is the frame's own diagram or at the last name of the path.
   */
  lemma {:induction false} AncestorsArePrefixes(mangle: string -> string, parts: seq<string>, diagram: string, k: nat)
    requires k < |parts|
    ensures var a := Ancestors(mangle, parts, diagram, k);
      && k + |a| < |parts|
      && (forall j :: 0 <= j < |a| ==> a[j] == Frame(Prefix(mangle, parts, k + j), "") && a[j].diagram != diagram)
      && (k + |a| == |parts| - 1 || Prefix(mangle, parts, k + |a|) == diagram)
    decreases |parts| - k
  {
    var d := Prefix(mangle, parts, k);
    if k + 1 < |parts| && d != diagram {
      AncestorsArePrefixes(mangle, parts, diagram, k + 1);
      var rest := Ancestors(mangle, parts, diagram, k + 1);
      forall j | 0 <= j < 1 + |rest|
        ensures ([Frame(d, "")] + rest)[j] == Frame(Prefix(mangle, parts, k + j), "")
        ensures ([Frame(d, "")] + rest)[j].diagram != diagram
      {
        if 0 < j { assert ([Frame(d, "")] + rest)[j] == rest[j - 1]; }
      }
    }
  }

  lemma ExpandFirst(split: string -> seq<string>, mangle: string -> string, f: Frame, rest: seq<Frame>)
    requires forall b :: split(b) != []
    ensures Expand(split, mangle, [f] + rest)
         == Ancestors(mangle, split(f.block), f.diagram, 0) + [f] + Expand(split, mangle, rest)
  {
    assert ([f] + rest)[1..] == rest;
    hide Ancestors;
  }

  lemma {:induction false} ExpandAppend(split: string -> seq<string>, mangle: string -> string,
                                        a: seq<Frame>, b: seq<Frame>)
    requires forall b :: split(b) != []
    ensures Expand(split, mangle, a + b) == Expand(split, mangle, a) + Expand(split, mangle, b)
  {
    if a == [] {
      assert a + b == b;
    } else {
      var (f, rest) := (a[0], a[1..]);
      assert a + b == [f] + (rest + b) && a == [f] + rest;
      ExpandFirst(split, mangle, f, rest);
      ExpandFirst(split, mangle, f, rest + b);
      hide *;
      ExpandAppend(split, mangle, rest, b);
      var first := Ancestors(mangle, split(f.block), f.diagram, 0) + [f];
      Assoc(first, Expand(split, mangle, rest), Expand(split, mangle, b));
    }
  }

  lemma InsertAfter<T>(a: seq<T>, done: seq<T>, f: T, b: seq<T>, next: seq<T>)
    ensures var (s, at) := (a + done + b, |a| + |done|); s[..at] + [f] + s[at..] == a + (done + [f]) + b
    ensures done + ([f] + next) == (done + [f]) + next
  {
    assert (a + done + b)[..|a| + |done|] == a + done;
    assert (a + done + b)[|a| + |done|..] == b;
  }

  /** Inserts the ancestors of the i-th frame before it, and tells how far the walk has to move. */
  method InsertAncestors(mangle: string -> string, frames: seq<Frame>, i: nat, parts: seq<string>)
    returns (infos: seq<Frame>, splitIdx: nat)
    requires i < |frames| && parts != []
    ensures var a := Ancestors(mangle, parts, frames[i].diagram, 0);
      infos == frames[..i] + a + frames[i..] && splitIdx == |a| + 1
  {
    infos := frames;
    var diagram, diagramName := frames[i].diagram, parts[0];
    splitIdx := 1;
    ghost var all := Ancestors(mangle, parts, diagram, 0);
    ghost var done: seq<Frame> := [];
    while splitIdx < |parts| && diagramName != diagram
      invariant 1 <= splitIdx <= |parts| && |done| == splitIdx - 1
      invariant diagramName == Prefix(mangle, parts, splitIdx - 1)
      invariant infos == frames[..i] + done + frames[i..]
      invariant done + Ancestors(mangle, parts, diagram, splitIdx - 1) == all
    {
      var f, at := Frame(diagramName, ""), i + splitIdx - 1;
      ghost var next := Ancestors(mangle, parts, diagram, splitIdx);
      assert Ancestors(mangle, parts, diagram, splitIdx - 1) == [f] + next;
      InsertAfter(frames[..i], done, f, frames[i..], next);
      infos := infos[..at] + [f] + infos[at..];
      done := done + [f];
      diagramName := mangle(diagramName + "/" + parts[splitIdx]);
      splitIdx := splitIdx + 1;
    }
  }

  /**
   Inserts the missing frames into the list while walking over it; `framesLen` follows the
   length of the growing list.
   */
  method ExpandInPlace(split: string -> seq<string>, mangle: string -> string, frames: seq<Frame>)
    returns (infos: seq<Frame>)
    requires forall b :: split(b) != []
    ensures infos == Expand(split, mangle, frames)
  {
    hide Ancestors, Expand;
    infos := frames;
    var i := 0;
    assert frames[..0] == [] && Expand(split, mangle, []) == [] by { ExpandNone(split, mangle); }
    var framesLen := |infos|;
    ghost var n, done: seq<Frame> := 0, [];
    while i < framesLen
      invariant n <= |frames| && i == |done| && framesLen == |infos|
      invariant infos == done + frames[n..] && done == Expand(split, mangle, frames[..n])
      decreases |frames| - n
    {
      var f := infos[i];
      var splitIdx;
      ghost var a := Ancestors(mangle, split(f.block), f.diagram, 0);
      DropFront(done, frames[n..]);
      DropNext(frames, n);
      assert f == infos[i..][0] == frames[n];
      infos, splitIdx := InsertAncestors(mangle, infos, i, split(f.block));
      i := i + splitIdx;
      framesLen := framesLen + splitIdx - 1;
      ExpandOneMore(split, mangle, frames, n);
      Assoc(done + a, [f], frames[n + 1..]);
      done, n := done + a + [f], n + 1;
    }
    assert frames[..n] == frames;
  }

  lemma ExpandNone(split: string -> seq<string>, mangle: string -> string)
    requires forall b :: split(b) != []
    ensures Expand(split, mangle, []) == []
  {
  }

  lemma ExpandOneMore(split: string -> seq<string>, mangle: string -> string, frames: seq<Frame>, n: nat)
    requires n < |frames| && forall b :: split(b) != []
    ensures Expand(split, mangle, frames[..n + 1])
         == Expand(split, mangle, frames[..n])
            + Ancestors(mangle, split(frames[n].block), frames[n].diagram, 0) + [frames[n]]
  {
    assert frames[..n + 1] == frames[..n] + [frames[n]];
    ExpandAppend(split, mangle, frames[..n], [frames[n]]);
    assert Expand(split, mangle, []) == [];
  }
}
