/**
 The state of the vim layer of one editor, and how keys change it.
 */
module VimSession {
  import opened Wrappers
  import opened VimLayer
  import opened Sequences

  const ESCAPE := 65307
  const DEAD_CIRCUMFLEX := 65106

  predicate IsInsertCommand(a: Action) { a.Insert? || a.OpenLine? || (a.Line? && a.kind == Replace) }

  /** What is remembered once an action has been done. */
  function Remembered(memory: Memory, a: Action): Memory {
    if a.UntilChar? then memory.(move := Some(a))
    else if IsWriteCommand(a) then memory.(write := Some(a))
    else memory
  }

  /** Once an action is remembered, "." or ";" does it again, and the other key does what it did before. */
  lemma ReplayDoesItAgain(a: Action, memory: Memory)
    ensures StackOk([]) && Suits(WaitsForChar([]), ReplayWrite) && Suits(WaitsForChar([]), ReplayMove)
    ensures var now := Remembered(memory, a);
      && Perform([], ReplayMove, now).done == (if a.UntilChar? then [a] else Perform([], ReplayMove, memory).done)
      && Perform([], ReplayWrite, now).done
         == if a.Insert? || a.OpenLine? || a.Line? then [a] else Perform([], ReplayWrite, memory).done
  {
  }

  /** A map for characters is on top exactly when a search waits for its character. */
  predicate KeymapsFit(keymaps: seq<Keymap>, stack: seq<Action>) {
    && keymaps != [] && keymaps[0].ActionMap?
    && keymaps == [keymaps[0]] + if WaitsForChar(stack) then [CharMap] else []
  }

  class VimState {
    var state: Mode
    var actionStack: seq<Action>
    var keymapsStack: seq<Keymap>
    var memory: Memory
    var currentInsert: Option<Action>
    var done: seq<Action>               // all that the editor was told to do

    /** What holds between any two keys. */
    ghost predicate Valid()
      reads this
    {
      && StackOk(actionStack) && KeymapsFit(keymapsStack, actionStack) && ModeFits()
      && MemoryOk(memory) && (forall a :: a in done ==> Complete(a))
      && (currentInsert.Some? ==> !IsCommand(state))
    }

    /** In a mode for commands, keys are looked up for that mode. */
    ghost predicate ModeFits()
      reads this
    {
      keymapsStack != [] && (IsCommand(state) ==> keymapsStack[0] == ActionMap(state))
    }

    constructor ()
      ensures Valid() && state == Normal && actionStack == [] && done == []
      ensures memory == Memory(None, None) && currentInsert == None
    {
      state, actionStack, keymapsStack := Normal, [], [ActionMap(Normal)];
      memory, currentInsert, done := Memory(None, None), None, [];
    }

    method SwitchState(mode: Mode)
      modifies `state, `keymapsStack
      ensures state == mode && keymapsStack == [ActionMap(mode)]
    {
      state := mode;
      keymapsStack := [ActionMap(mode)];
    }

    /** Has the editor do something, which may fail; a change fails too if what it works on has no end. */
    method ApplyAction(a: Action, editorFails: bool) returns (failed: bool)
      requires Complete(a) && KeymapsFit(keymapsStack, []) && ModeFits()
      modifies `state, `keymapsStack, `done
      ensures done == old(done) + [a] && KeymapsFit(keymapsStack, []) && ModeFits()
      ensures failed <==> editorFails || LacksEnd(a)
      ensures state == ModeAfter(old(state), a, failed)
    {
      done := done + [a];
      failed := editorFails;
      match a {
        case Insert => state := Insertion;
        case OpenLine(_) => if !failed { SwitchState(Insertion); }
        case Line(kind, expected) =>
          if kind == Replace {
            if !HasEnd(expected.value) { failed := true; }
            if !failed { SwitchState(Insertion); }
          }
        case SwitchToVisual(mode) => SwitchState(mode);
        case VisualDeletion => if !failed { SwitchState(Normal); }
        case VisualYank => if !failed { SwitchState(Normal); }
        case _ =>
      }
    }

    /** Takes all that waits off the stack and puts `expected` inside; the map for characters goes too. */
    method Compose(expected: Action) returns (a: Action)
      requires actionStack != [] && StackOk(actionStack) && KeymapsFit(keymapsStack, actionStack)
      modifies `actionStack, `keymapsStack
      ensures actionStack == [] && StackOk(old(actionStack)) && a == Composed(old(actionStack), expected)
      ensures keymapsStack == [old(keymapsStack)[0]]
      decreases |actionStack|
    {
      var n := |actionStack| - 1;
      var top := actionStack[n];
      actionStack := actionStack[..n];
      if top.UntilChar? { keymapsStack := keymapsStack[..|keymapsStack| - 1]; }
      a := WithExpected(top, expected);
      if actionStack != [] { a := Compose(a); }
    }

    /** Does an action within all that waits; whether or not that fails, nothing waits any more. */
    method ApplyBase(expected: Action, editorFails: bool) returns (a: Action, failed: bool)
      requires StackOk(actionStack) && KeymapsFit(keymapsStack, actionStack) && ModeFits()
      requires Complete(Composed(actionStack, expected))
      modifies `state, `actionStack, `keymapsStack, `done
      ensures StackOk(old(actionStack)) && a == Composed(old(actionStack), expected)
      ensures failed <==> editorFails || LacksEnd(a)
      ensures actionStack == [] && done == old(done) + [a] && KeymapsFit(keymapsStack, actionStack) && ModeFits()
      ensures state == ModeAfter(old(state), a, failed)
    {
      a := expected;
      if actionStack != [] { a := Compose(expected); }
      failed := ApplyAction(a, editorFails);
    }

    /** Does one action, or lets it wait. Only a plain action that worked is remembered. */
    method Apply(a: Action, editorFails: bool) returns (remember: Option<Action>, failed: bool)
      requires StackOk(actionStack) && KeymapsFit(keymapsStack, actionStack) && ModeFits() && MemoryOk(memory)
      requires !a.Chained? && Suits(WaitsForChar(actionStack), a)
      modifies `state, `actionStack, `keymapsStack, `done
      ensures StackOk(old(actionStack))
      ensures var o := Perform(old(actionStack), a, memory); actionStack == o.stack && done == old(done) + o.done
      ensures KeymapsFit(keymapsStack, actionStack) && ModeFits()
      ensures failed <==> Fails(old(actionStack), a, memory, editorFails)
      ensures remember == if IsPlain(a) && !failed then Some(Composed(old(actionStack), a)) else None
      ensures state == PartMode(old(actionStack), a, memory, old(state), failed)
    {
      remember, failed := None, false;
      var repeated := IsRepeated(actionStack, a);
      if IsPlain(a) || repeated {
        ComposedIsComplete(actionStack, a);
        var composed;
        composed, failed := ApplyBase(a, editorFails);
        if !repeated && !failed { remember := Some(composed); }
      } else if a.ReplayWrite? || a.ReplayMove? {
        var last := if a.ReplayWrite? then memory.write else memory.move;
        if last == None { return None, true; }
        failed := ApplyAction(last.value, editorFails);
      } else {
        PushIsOk(actionStack, a);
        if a.UntilChar? { keymapsStack := keymapsStack + [CharMap]; }
        actionStack := actionStack + [a];
      }
    }

    /** Does the parts of a chain, up to one that fails. */
    method ApplyChain(actions: seq<Action>, editorFails: nat -> bool) returns (ghost k: nat, failed: bool)
      requires Valid() && currentInsert == None && ChainSuits(WaitsForChar(actionStack), actions)
      modifies `state, `actionStack, `keymapsStack, `done
      ensures k <= |actions| && (!failed ==> k == |actions|)
      ensures StackOk(old(actionStack)) && ChainSuits(WaitsForChar(old(actionStack)), actions)
      ensures FailsAt(old(actionStack), actions, memory, editorFails, k, failed)
      ensures HandledUpTo(old(actionStack), old(done), actions, k)
      ensures ModeFollows(old(actionStack), actions, k, old(state), failed)
      ensures Valid()
    {
      ghost var stack, done0, mode0 := actionStack, done, state;
      k, failed := 0, false;
      assert ModeFollows(stack, actions, 0, mode0, false) by { NothingIsDone(stack, memory); }
      hide HasReached, ChainSuits, Perform, Complete, Suits, StackOk, FailsAt, Fails;
      StartIsReached(stack, done0, actions, memory);
      NothingFailsYet(stack, actions, memory, editorFails);
      for i := 0 to |actions|
        invariant k == i && StackOk(actionStack) && HasReached(stack, done0, actions, k, memory, actionStack, done)
        invariant KeymapsFit(keymapsStack, actionStack) && ModeFits()
        invariant !failed && FailsAt(stack, actions, memory, editorFails, k, failed)
        invariant ModeFollows(stack, actions, k, mode0, failed)
      {
        NextIsReached(stack, done0, actions, i, memory, actionStack, done);
        ghost var stackNow, doneNow := actionStack, done;
        hide KeymapsFit;
        var remember;
        remember, failed := Apply(actions[i], editorFails(i));
        FailsNext(stack, done0, actions, memory, editorFails, i, stackNow, doneNow, failed);
        ModeNext(stack, done0, actions, memory, i, stackNow, doneNow, mode0, failed);
        k := i + 1;
        if failed { break; }
      }
      ReachedIsComplete(stack, done0, actions, k, memory, actionStack, done);
    }

    /**
     Handles a key. Escape drops whatever waits. In a mode for commands, the key's action is done
     or waits; what is done is an action within all that waited, and then nothing waits any more.
     Only what a plain action gave is remembered, so that doubled keys and chains are not repeated.
     */
    method KeyPressed(key: int, editorFails: nat -> bool) returns (failed: bool)
      requires Valid()
      modifies this
      ensures Valid()
      ensures key == ESCAPE ==>
                && actionStack == [] && keymapsStack == [ActionMap(Normal)] && state == Normal
                && currentInsert == None && memory == old(memory) && done == old(done)
      ensures key != ESCAPE && !IsCommand(old(state)) ==>
                && actionStack == old(actionStack) && keymapsStack == old(keymapsStack) && state == old(state)
                && currentInsert == old(currentInsert) && memory == old(memory) && done == old(done)
      ensures key != ESCAPE && !(0 <= CodeOf(key) < 256) ==>
                && actionStack == old(actionStack) && keymapsStack == old(keymapsStack) && state == old(state)
                && currentInsert == old(currentInsert) && memory == old(memory) && done == old(done)
      ensures var code := CodeOf(key);
              0 <= code < 256 && IsCommand(old(state)) ==>
                var a := ActionFor(old(keymapsStack)[|old(keymapsStack)| - 1], code as char);
                && AnySuits(WaitsForChar(old(actionStack)), a) && StackOk(old(actionStack))
                && Led(code as char, old(actionStack), old(state), editorFails(0), failed, actionStack, state)
                && Handled(old(actionStack), old(done), old(memory), old(state), a, editorFails, failed)
    {
      failed := false;
      var code := CodeOf(key);
      if code == ESCAPE {
        actionStack, currentInsert := [], None;
        SwitchState(Normal);
      } else if IsCommand(state) && 0 <= code < 256 {
        var a := ActionFor(keymapsStack[|keymapsStack| - 1], code as char);
        KeysSuit(keymapsStack[|keymapsStack| - 1], code as char);
        if a.Chained? {
          ghost var k, stack, done0, mode0 := 0, actionStack, done, state;
          k, failed := ApplyChain(a.actions, editorFails);
          assert HandledUpTo(stack, done0, a.actions, k);
          PrefixSuits(WaitsForChar(stack), a.actions, k);
          ChainLed(code as char, stack, mode0, memory, k, editorFails, failed, actionStack);
        } else {
          var remember;
          ghost var stack, mode0 := actionStack, state;
          OneDoneIsComplete(actionStack, a, memory);
          remember, failed := Apply(a, editorFails(0));
          PartLed(code as char, stack, mode0, memory, editorFails(0), failed);
          if remember.Some? {
            memory := Remembered(memory, remember.value);
            if IsInsertCommand(remember.value) { currentInsert := remember; }
          }
        }
      }
    }

    /** What a key's action has changed. */
    ghost predicate Handled(stack: seq<Action>, done0: seq<Action>, memory0: Memory, mode0: Mode, a: Action,
                            editorFails: nat -> bool, failed: bool)
      reads this
      requires StackOk(stack) && AnySuits(WaitsForChar(stack), a)
    {
      if a.Chained? then
        memory == memory0 && exists k: nat ::
          && HandledUpTo(stack, done0, a.actions, k) && (!failed ==> k == |a.actions|)
          && FailsAt(stack, a.actions, memory, editorFails, k, failed)
          && ModeFollows(stack, a.actions, k, mode0, failed)
      else
        var o := Perform(stack, a, memory0);
        && actionStack == o.stack && done == done0 + o.done
        && (failed <==> Fails(stack, a, memory0, editorFails(0)))
        && state == PartMode(stack, a, memory0, mode0, failed)
        && memory == if IsPlain(a) && !failed then Remembered(memory0, Composed(stack, a)) else memory0
    }

    /** The mode after the first `k` parts of a chain, the last of which may have failed. */
    ghost predicate ModeFollows(stack: seq<Action>, actions: seq<Action>, k: nat, mode0: Mode, failed: bool)
      reads this
      requires StackOk(stack) && ChainSuits(WaitsForChar(stack), actions) && k <= |actions|
    {
      PrefixSuits(WaitsForChar(stack), actions, k);
      state == ChainMode(stack, actions[..k], memory, mode0, failed)
    }

    ghost predicate HandledUpTo(stack: seq<Action>, done0: seq<Action>, actions: seq<Action>, k: nat)
      reads this
      requires StackOk(stack)
    {
      HasReached(stack, done0, actions, k, memory, actionStack, done)
    }

    /** Whatever is typed, every action that is done has all it needs, and the map for characters is up when needed. */
    method Session(keys: seq<int>, editorFails: (nat, nat) -> bool)
      requires Valid()
      modifies this
      ensures Valid()
    {
      for i := 0 to |keys|
        invariant Valid()
      {
        var failed := KeyPressed(keys[i], (part: nat) => editorFails(i, part));
      }
    }
  }

  /**
   The mode a key leads to, from a mode for commands. When nothing waits, "v" and "V" start a
   visual mode, the keys that delete or yank end it, "i", "a", "o", "O" and "C" lead to insertion,
   and all other keys leave the mode as it is. When something waits, only a change at the bottom
   of the stack leads to another mode. What fails leads nowhere, but for "v", "V", "i" and the end of "a".
   */
  predicate Led(key: char, stack: seq<Action>, mode0: Mode, firstFails: bool, failed: bool,
                stackNow: seq<Action>, mode: Mode)
  {
    && (stack == [] && key !in "a." ==>
         mode == if key == 'v' then Visual
                 else if key == 'V' then VisualLine
                 else if key == 'i' then Insertion
                 else if failed then mode0
                 else if key in "oOC" then Insertion
                 else if mode0 != Normal && key in "dDyY" then Normal
                 else mode0)
    && (stack == [] && key == 'a' ==> mode == if firstFails then mode0 else Insertion)
    && (stack != [] && (stack[|stack| - 1].UntilChar? || key !in "axDC.") ==>
         mode == if stackNow == [] && stack[0] == Line(Replace, None) && !failed then Insertion else mode0)
    && (stack != [] || key == '.' ==> mode in {mode0, Insertion})
  }

  lemma PartLed(key: char, stack: seq<Action>, mode: Mode, memory: Memory, firstFails: bool, failed: bool)
    requires StackOk(stack) && IsCommand(mode) && MemoryOk(memory)
    requires var a := ActionFor(if WaitsForChar(stack) then CharMap else ActionMap(mode), key);
      !a.Chained? && Suits(WaitsForChar(stack), a)
    ensures var a := ActionFor(if WaitsForChar(stack) then CharMap else ActionMap(mode), key);
      Led(key, stack, mode, firstFails, failed, Perform(stack, a, memory).stack,
          PartMode(stack, a, memory, mode, failed))
  {
    var a := ActionFor(if WaitsForChar(stack) then CharMap else ActionMap(mode), key);
    if stack == [] {
      if key != '.' { KeyLeadsTo(mode, key, memory, failed); } else { PartOnlyInserts(stack, a, memory, mode, failed); }
    } else {
      PartOnlyInserts(stack, a, memory, mode, failed);
      if !a.ReplayWrite? && !a.ReplayMove? { WaitingLeadsTo(stack, a, memory, mode, failed); }
    }
    hide Composed;
  }

  /** The key "a" stops at its first part exactly if the editor fails there. */
  lemma FirstFails(memory: Memory, editorFails: nat -> bool, k: nat, failed: bool)
    requires StackOk([]) && ChainSuits(WaitsForChar([]), BasicAction('a').actions)
    requires !failed ==> k == 2
    requires FailsAt([], BasicAction('a').actions, memory, editorFails, k, failed)
    ensures 1 <= k <= 2 && (k == 1 <==> editorFails(0))
  {
    var actions := BasicAction('a').actions;
    NothingIsDone([], memory);
    assert actions[..0] == [] && actions[0] == Move(Chars, 1);
    assert PartFails([], actions, memory, editorFails, 0) <==> editorFails(0);
    hide PartFails;
  }

  lemma ChainLed(key: char, stack: seq<Action>, mode: Mode, memory: Memory, k: nat, editorFails: nat -> bool,
                 failed: bool, stackNow: seq<Action>)
    requires StackOk(stack) && !WaitsForChar(stack) && IsCommand(mode) && MemoryOk(memory)
    requires var a := ActionFor(ActionMap(mode), key);
      a.Chained? && ChainSuits(false, a.actions) && (!failed ==> k == |a.actions|)
      && FailsAt(stack, a.actions, memory, editorFails, k, failed) && ChainSuits(false, a.actions[..k])
    ensures var a := ActionFor(ActionMap(mode), key);
      Led(key, stack, mode, editorFails(0), failed, stackNow, ChainMode(stack, a.actions[..k], memory, mode, failed))
  {
    var actions := ActionFor(ActionMap(mode), key).actions;
    ChainKeys(mode, key, k);
    if stack == [] {
      AloneChainLed(key, mode, memory, k, editorFails, failed, stackNow);
    } else {
      hide ChainMode, ChainSuits, BasicAction, FailsAt;
      ChainOnlyInserts(stack, actions[..k], memory, mode, failed);
    }
  }

  lemma ChainKeys(mode: Mode, key: char, k: nat)
    requires IsCommand(mode) && ActionFor(ActionMap(mode), key).Chained?
    ensures var a := ActionFor(ActionMap(mode), key);
      && key in "axDC" && (key == 'D' ==> mode == Normal) && a == BasicAction(key) && a.actions != []
      && (k <= |a.actions| ==> forall i :: 0 <= i < k ==> !IsVisual(a.actions[..k][i]))
  {
  }

  lemma AloneChainLed(key: char, mode: Mode, memory: Memory, k: nat, editorFails: nat -> bool, failed: bool,
                      stackNow: seq<Action>)
    requires StackOk([]) && !WaitsForChar([]) && IsCommand(mode) && key in "axDC" && BasicAction(key).Chained?
    requires key == 'D' ==> mode == Normal
    requires var actions := BasicAction(key).actions;
      && ChainSuits(false, actions) && 0 < k <= |actions| && (!failed ==> k == |actions|)
      && FailsAt([], actions, memory, editorFails, k, failed) && ChainSuits(false, actions[..k])
    ensures Led(key, [], mode, editorFails(0), failed, stackNow,
                ChainMode([], BasicAction(key).actions[..k], memory, mode, failed))
  {
    ChainLeadsTo(mode, key, memory, k, failed);
    if key == 'a' { FirstFails(memory, editorFails, k, failed); }
    hide ChainMode, ChainSuits, FailsAt, StackOk, WaitsForChar;
  }

  /** Whether the i-th part of a chain fails once those before it have been done. */
  ghost predicate PartFails(stack: seq<Action>, actions: seq<Action>, memory: Memory, editorFails: nat -> bool, i: nat)
    requires StackOk(stack) && ChainSuits(WaitsForChar(stack), actions) && i < |actions|
  {
    PartSuits(stack, actions, i, memory);
    Fails(PerformAll(stack, actions[..i], memory).stack, actions[i], memory, editorFails(i))
  }

  /** Of the first `k` parts of a chain, none fails but the last one, and that exactly if the chain has failed. */
  ghost predicate FailsAt(stack: seq<Action>, actions: seq<Action>, memory: Memory, editorFails: nat -> bool,
                          k: nat, failed: bool)
    requires StackOk(stack) && ChainSuits(WaitsForChar(stack), actions)
  {
    && k <= |actions| && (failed ==> k > 0)
    && forall i :: 0 <= i < k ==> (PartFails(stack, actions, memory, editorFails, i) <==> failed && i == k - 1)
  }

  lemma PartSuits(stack: seq<Action>, actions: seq<Action>, i: nat, memory: Memory)
    requires StackOk(stack) && ChainSuits(WaitsForChar(stack), actions) && i < |actions|
    ensures ChainSuits(WaitsForChar(stack), actions[..i]) && !actions[i].Chained?
    ensures var now := PerformAll(stack, actions[..i], memory).stack;
      StackOk(now) && Suits(WaitsForChar(now), actions[i])
  {
    PrefixSuits(WaitsForChar(stack), actions, i);
    PrefixSuits(WaitsForChar(stack), actions, i + 1);
    assert actions[..i + 1] == actions[..i] + [actions[i]];
    PerformMore(stack, actions[..i], actions[i], memory);
    hide *;
  }

  lemma FailsNext(stack: seq<Action>, done0: seq<Action>, actions: seq<Action>, memory: Memory,
                  editorFails: nat -> bool, i: nat, stackNow: seq<Action>, doneNow: seq<Action>, failed: bool)
    requires StackOk(stack) && ChainSuits(WaitsForChar(stack), actions) && i < |actions|
    requires FailsAt(stack, actions, memory, editorFails, i, false)
    requires HasReached(stack, done0, actions, i, memory, stackNow, doneNow)
    requires StackOk(stackNow) && Suits(WaitsForChar(stackNow), actions[i]) && !actions[i].Chained?
    requires failed <==> Fails(stackNow, actions[i], memory, editorFails(i))
    ensures FailsAt(stack, actions, memory, editorFails, i + 1, failed)
  {
    hide Fails, PerformAll, Suits, StackOk, WaitsForChar, ChainSuits;
  }

  lemma ModeNext(stack: seq<Action>, done0: seq<Action>, actions: seq<Action>, memory: Memory, i: nat,
                 stackNow: seq<Action>, doneNow: seq<Action>, mode: Mode, failed: bool)
    requires StackOk(stack) && ChainSuits(WaitsForChar(stack), actions) && i < |actions|
    requires HasReached(stack, done0, actions, i, memory, stackNow, doneNow)
    requires StackOk(stackNow) && Suits(WaitsForChar(stackNow), actions[i]) && !actions[i].Chained?
    ensures ChainSuits(WaitsForChar(stack), actions[..i]) && ChainSuits(WaitsForChar(stack), actions[..i + 1])
    ensures ChainMode(stack, actions[..i + 1], memory, mode, failed)
         == PartMode(stackNow, actions[i], memory, ChainMode(stack, actions[..i], memory, mode, false), failed)
  {
    PrefixSuits(WaitsForChar(stack), actions, i);
    PrefixSuits(WaitsForChar(stack), actions, i + 1);
    TakeNext(actions, i);
    ChainModeMore(stack, actions[..i], actions[i], memory, mode, failed);
    hide PerformAll, ChainMode, PartMode, ChainSuits, StackOk, Suits, WaitsForChar;
  }

  lemma NothingFailsYet(stack: seq<Action>, actions: seq<Action>, memory: Memory, editorFails: nat -> bool)
    requires StackOk(stack) && ChainSuits(WaitsForChar(stack), actions)
    ensures FailsAt(stack, actions, memory, editorFails, 0, false)
  {
  }

  /** A key that stands for another. */
  function CodeOf(key: int): int { if key == DEAD_CIRCUMFLEX then 94 else key }

  /** The dead circumflex goes to the beginning of the line, as the plain one does; no other key is changed. */
  lemma DeadKeyIsCaret(key: int)
    ensures CodeOf(65106) == '^' as int && BasicAction('^') == BeginOfLine
    ensures key != 65106 ==> CodeOf(key) == key
  {
  }

  /** The first `k` parts of a chain have led from one stack to another, and to what has been done since. */
  ghost predicate HasReached(stack: seq<Action>, done0: seq<Action>, actions: seq<Action>, k: nat, memory: Memory,
                             stackNow: seq<Action>, doneNow: seq<Action>)
    requires StackOk(stack)
  {
    && k <= |actions| && ChainSuits(WaitsForChar(stack), actions[..k])
    && var o := PerformAll(stack, actions[..k], memory); stackNow == o.stack && doneNow == done0 + o.done
  }

  lemma StartIsReached(stack: seq<Action>, done0: seq<Action>, actions: seq<Action>, memory: Memory)
    requires StackOk(stack)
    ensures HasReached(stack, done0, actions, 0, memory, stack, done0)
  {
    NothingIsDone(stack, memory);
  }

  lemma NextIsReached(stack: seq<Action>, done0: seq<Action>, actions: seq<Action>, i: nat, memory: Memory,
                      stackNow: seq<Action>, doneNow: seq<Action>)
    requires StackOk(stack) && i < |actions| && ChainSuits(WaitsForChar(stack), actions)
    requires HasReached(stack, done0, actions, i, memory, stackNow, doneNow)
    ensures StackOk(stackNow) && !actions[i].Chained? && Suits(WaitsForChar(stackNow), actions[i])
    ensures var next := Perform(stackNow, actions[i], memory);
      StackOk(next.stack) && HasReached(stack, done0, actions, i + 1, memory, next.stack, doneNow + next.done)
  {
    hide PerformAll, ChainSuits, Perform, Suits, StackOk, WaitsForChar;
    assert actions[..i + 1] == actions[..i] + [actions[i]];
    PrefixSuits(WaitsForChar(stack), actions, i + 1);
    PerformMore(stack, actions[..i], actions[i], memory);
    var o := PerformAll(stack, actions[..i], memory);
    var next := Perform(o.stack, actions[i], memory);
    assert (done0 + o.done) + next.done == done0 + (o.done + next.done);
  }

  lemma ReachedIsComplete(stack: seq<Action>, done0: seq<Action>, actions: seq<Action>, k: nat, memory: Memory,
                          stackNow: seq<Action>, doneNow: seq<Action>)
    requires StackOk(stack) && HasReached(stack, done0, actions, k, memory, stackNow, doneNow)
    requires MemoryOk(memory) && forall a :: a in done0 ==> Complete(a)
    ensures StackOk(stackNow) && forall a :: a in doneNow ==> Complete(a)
  {
    DoneIsComplete(stack, actions[..k], memory);
  }
}
