/**
 The vim layer: keys give actions, some of which wait on a stack for the action they apply to.
 What an action does to the text is left to the editor, which may fail at any time.
 */
module VimLayer {
  import opened Wrappers
  import opened Sequences

  datatype Mode = Normal | Insertion | Replacing | Visual | VisualLine | VisualBox

  predicate IsCommand(m: Mode) { m == Normal || m == Visual || m == VisualLine || m == VisualBox }

  datatype LineKind = Deletion | Yank | Replace
  datatype Step = Chars | Lines | Words

  datatype Action =
    | NoAction | Paste(nextLine: bool) | Undo | YankLine | ConflateLines
    | Move(step: Step, repeat: int) | EndOfLine | BeginOfLine | HardBeginOfLine
    | Insert | OpenLine(before: bool)
    | SwitchToVisual(mode: Mode) | VisualDeletion | VisualYank
    | Char(c: char)
    | Line(kind: LineKind, expected: Option<Action>)
    | UntilChar(backwards: bool, stopBefore: bool, expected: Option<Action>)
    | Chained(actions: seq<Action>)
    | ReplayWrite | ReplayMove

  datatype Keymap = ActionMap(mode: Mode) | CharMap

  // ----- the keys

  const DELETE := Line(Deletion, None)
  const TO_LINE_END := [UntilChar(false, true, None), Char('\n')]

  function BasicAction(key: char): Action {
    match key
    case '.' => ReplayWrite
    case ';' => ReplayMove
    case 'i' => Insert
    case 'a' => Chained([Move(Chars, 1), Insert])
    case 'x' => Chained([DELETE, Move(Chars, 0)])
    case 'h' => Move(Chars, -1)
    case 'l' => Move(Chars, 1)
    case 'k' => Move(Lines, -1)
    case 'j' => Move(Lines, 1)
    case 'w' => Move(Words, 1)
    case 'b' => Move(Words, -1)
    case 'f' => UntilChar(false, false, None)
    case 'F' => UntilChar(true, false, None)
    case 't' => UntilChar(false, true, None)
    case 'T' => UntilChar(true, true, None)
    case 'D' => Chained([DELETE] + TO_LINE_END + [Move(Chars, -1)])
    case 'C' => Chained([Line(Replace, None)] + TO_LINE_END)
    case 'd' => DELETE
    case 'y' => Line(Yank, None)
    case 'Y' => YankLine
    case 'c' => Line(Replace, None)
    case 'u' => Undo
    case 'o' => OpenLine(false)
    case 'O' => OpenLine(true)
    case 'v' => SwitchToVisual(Visual)
    case 'V' => SwitchToVisual(VisualLine)
    case 'p' => Paste(true)
    case 'P' => Paste(false)
    case '$' => EndOfLine
    case '^' => BeginOfLine
    case '0' => HardBeginOfLine
    case 'J' => ConflateLines
    case _ => NoAction
  }

  /** The action of a key under a keymap. */
  function ActionFor(keymap: Keymap, key: char): Action {
    match keymap
    case CharMap => Char(key)
    case ActionMap(Normal) => BasicAction(key)
    case ActionMap(Insertion) => NoAction
    case ActionMap(Replacing) => NoAction
    case ActionMap(_) =>
      if key == 'd' || key == 'D' then VisualDeletion
      else if key == 'y' || key == 'Y' then VisualYank
      else BasicAction(key)
  }

  // ----- actions that wait for others

  predicate Waits(a: Action) { (a.Line? || a.UntilChar?) && a.expected == None }

  /** The action that a search for a character is waiting for is given by the next key. */
  predicate WaitsForChar(stack: seq<Action>) { stack != [] && stack[|stack| - 1].UntilChar? }

  /** Only actions that wait are on the stack, and one that waits for a character only on top. */
  predicate StackOk(stack: seq<Action>) {
    && (forall i :: 0 <= i < |stack| ==> Waits(stack[i]))
    && (forall i :: 0 <= i < |stack| - 1 ==> stack[i].Line?)
  }

  function WithExpected(top: Action, a: Action): Action
    requires Waits(top)
  {
    top.(expected := Some(a))
  }

  /** An action within all those that wait on the stack: the lowest one is outermost. */
  function Composed(stack: seq<Action>, a: Action): Action
    requires StackOk(stack)
  {
    if stack == [] then a else Composed(stack[..|stack| - 1], WithExpected(stack[|stack| - 1], a))
  }

  /**
   What can be done without looking up something that is missing: a search has its character, a
   line action what it works on, which is its own kind or can itself be done.
   */
  predicate Complete(a: Action) {
    match a
    case Char(_) => false
    case Chained(_) => false
    case ReplayWrite => false
    case ReplayMove => false
    case UntilChar(_, _, e) => e.Some? && e.value.Char?
    case Line(kind, e) => e.Some? && (e.value == Line(kind, None) || Complete(e.value))
    case _ => true
  }

  /** Actions that are done at once, and complete what waits. */
  predicate IsPlain(a: Action) { !a.Line? && !a.UntilChar? && !a.Chained? && !a.ReplayWrite? && !a.ReplayMove? }

  /** A line action on top of its own kind works on the line instead of waiting. */
  predicate IsRepeated(stack: seq<Action>, a: Action) {
    a.Line? && stack != [] && stack[|stack| - 1].Line? && stack[|stack| - 1].kind == a.kind
  }

  /** Whether an action comes at the right time: a character exactly when one is waited for. */
  predicate Suits(waiting: bool, a: Action) {
    (a.Char? <==> waiting) && (a.Line? || a.UntilChar? ==> a.expected == None)
  }

  /** Whether a character is waited for after the first `n` parts of a chain. */
  predicate WaitingAfter(waiting: bool, actions: seq<Action>, n: nat)
    requires n <= |actions|
  {
    if n == 0 then waiting else actions[n - 1].UntilChar?
  }

  /** Each part of a chain comes at the right time. */
  predicate ChainSuits(waiting: bool, actions: seq<Action>) {
    forall i :: 0 <= i < |actions| ==> !actions[i].Chained? && Suits(WaitingAfter(waiting, actions, i), actions[i])
  }

  predicate AnySuits(waiting: bool, a: Action) {
    if a.Chained? then ChainSuits(waiting, a.actions) else Suits(waiting, a)
  }

  /** Whatever key is pressed suits what is waited for, if there is a map for characters exactly then. */
  lemma KeysSuit(keymap: Keymap, key: char)
    requires keymap.ActionMap? ==> IsCommand(keymap.mode)
    ensures AnySuits(keymap == CharMap, ActionFor(keymap, key))
  {
  }

  /** A plain or repeated action that suits the stack gives something that can be done. */
  lemma {:induction false} ComposedIsComplete(stack: seq<Action>, a: Action)
    requires StackOk(stack)
    requires if WaitsForChar(stack) then a.Char?
             else Complete(a) || (stack != [] && stack[|stack| - 1].Line? && a == Line(stack[|stack| - 1].kind, None))
    ensures Complete(Composed(stack, a))
  {
    if stack != [] { ComposedIsComplete(stack[..|stack| - 1], WithExpected(stack[|stack| - 1], a)); }
  }

  /** The actions from the outside to the inside, each without what it contains. */
  function Spine(a: Action): seq<Action> {
    if (a.Line? || a.UntilChar?) && a.expected.Some? then [a.(expected := None)] + Spine(a.expected.value) else [a]
  }

  /** Composing keeps the order in which the keys were pressed. */
  lemma {:induction false} ComposedKeepsOrder(stack: seq<Action>, a: Action)
    requires StackOk(stack)
    ensures Spine(Composed(stack, a)) == stack + Spine(a)
  {
    hide *;
    if stack == [] {
      ComposedOfNone(a);
      assert [] + Spine(a) == Spine(a);
    } else {
      var n := |stack| - 1;
      ComposedOfMore(stack, a);
      ComposedKeepsOrder(stack[..n], WithExpected(stack[n], a));
      SpineOfExpected(stack[n], a);
      TakeNext(stack, n);
      assert stack[..n + 1] == stack;
      Assoc(stack[..n], [stack[n]], Spine(a));
    }
  }

  lemma ComposedOfNone(a: Action)
    ensures StackOk([]) && Composed([], a) == a
  {
  }

  lemma ComposedOfMore(stack: seq<Action>, a: Action)
    requires StackOk(stack) && stack != []
    ensures var n := |stack| - 1;
      && Waits(stack[n]) && StackOk(stack[..n])
      && Composed(stack, a) == Composed(stack[..n], WithExpected(stack[n], a))
  {
  }

  lemma SpineOfExpected(top: Action, a: Action)
    requires Waits(top)
    ensures Spine(WithExpected(top, a)) == [top] + Spine(a)
  {
    var w := WithExpected(top, a);
    assert w.(expected := None) == top && w.expected.value == a;
  }

  // ----- what fails

  /** Movements know where they end; nothing else does. */
  predicate HasEnd(a: Action) { a.Move? || a.EndOfLine? || a.BeginOfLine? || a.HardBeginOfLine? || a.UntilChar? }

  /** A change asks what it works on for its end, and fails if that has none. */
  predicate LacksEnd(a: Action) { a.Line? && a.kind == Replace && a.expected.Some? && !HasEnd(a.expected.value) }

  /**
   An action within all that waits lacks an end exactly if the lowest that waits is a change, and
   neither the action itself nor a search is what the change works on.
   */
  lemma ComposedLacksEndIff(stack: seq<Action>, a: Action)
    requires StackOk(stack) && (IsPlain(a) || IsRepeated(stack, a)) && (a.Char? <==> WaitsForChar(stack))
    ensures LacksEnd(Composed(stack, a)) <==>
            && stack != [] && stack[0].Line? && stack[0].kind == Replace
            && (|stack| == 1 ==> !HasEnd(a)) && (|stack| == 2 ==> stack[1].Line?)
  {
    if stack != [] { ComposedTop(stack, a); }
  }

  /** The lowest action that waits is outermost, around the one above it. */
  lemma {:induction false} ComposedTop(stack: seq<Action>, a: Action)
    requires StackOk(stack) && stack != []
    ensures var c := Composed(stack, a);
      && (c.Line? || c.UntilChar?) && c.(expected := None) == stack[0] && c.expected.Some?
      && if |stack| == 1 then c.expected.value == a
         else (c.expected.value.Line? <==> stack[1].Line?) && (c.expected.value.UntilChar? <==> stack[1].UntilChar?)
              && (c.expected.value.Line? || c.expected.value.UntilChar?)
  {
    var n := |stack| - 1;
    var w := WithExpected(stack[n], a);
    if n > 0 {
      ComposedTop(stack[..n], w);
      assert stack[..n][0] == stack[0] && (n > 1 ==> stack[..n][1] == stack[1]);
    }
  }

  /** A second change fails for want of an end exactly if the lowest that waits is a change. */
  lemma SecondChangeLacksEndIff(stack: seq<Action>)
    requires StackOk(stack) && IsRepeated(stack, Line(Replace, None))
    ensures LacksEnd(Composed(stack, Line(Replace, None))) <==> stack[0].kind == Replace
  {
    ComposedLacksEndIff(stack, Line(Replace, None));
  }

  /** The keys "cc" lack an end; with a deletion waiting below them, they do not. */
  lemma ChangeTwice()
    ensures var c := Line(Replace, None);
      && BasicAction('c') == c && StackOk([c]) && StackOk([DELETE, c])
      && IsRepeated([c], c) && LacksEnd(Composed([c], c))
      && IsRepeated([DELETE, c], c) && !LacksEnd(Composed([DELETE, c], c))
  {
    var c := Line(Replace, None);
    assert StackOk([c]) && StackOk([DELETE, c]);
    SecondChangeLacksEndIff([c]);
    SecondChangeLacksEndIff([DELETE, c]);
  }

  // ----- what an action does

  /** The last actions that a replay repeats. */
  datatype Memory = Memory(write: Option<Action>, move: Option<Action>)

  /** What waits afterwards, and what is done on the way. */
  datatype Outcome = Outcome(stack: seq<Action>, done: seq<Action>)

  function Repeat(a: Option<Action>): seq<Action> { if a.Some? then [a.value] else [] }

  lemma PushIsOk(stack: seq<Action>, a: Action)
    requires StackOk(stack) && !WaitsForChar(stack) && Waits(a)
    ensures StackOk(stack + [a]) && WaitsForChar(stack + [a]) == a.UntilChar?
  {
    forall i | 0 <= i < |stack| ensures Waits((stack + [a])[i]) && (stack + [a])[i].Line? {
      assert (stack + [a])[i] == stack[i];
      if i == |stack| - 1 { assert !stack[i].UntilChar?; }
    }
  }

  function Perform(stack: seq<Action>, a: Action, memory: Memory): (r: Outcome)
    requires StackOk(stack) && Suits(WaitsForChar(stack), a) && !a.Chained?
    ensures StackOk(r.stack) && WaitsForChar(r.stack) == a.UntilChar?
  {
    if a.ReplayWrite? then Outcome(stack, Repeat(memory.write))
    else if a.ReplayMove? then Outcome(stack, Repeat(memory.move))
    else if IsPlain(a) || IsRepeated(stack, a) then Outcome([], [Composed(stack, a)])
    else
      PushIsOk(stack, a);
      Outcome(stack + [a], [])
  }

  /** Whether an action fails when the editor fails or not: what is done may lack an end, or nothing be remembered. */
  predicate Fails(stack: seq<Action>, a: Action, memory: Memory, editorFails: bool)
    requires StackOk(stack) && Suits(WaitsForChar(stack), a) && !a.Chained?
  {
    var done := Perform(stack, a, memory).done;
    if done == [] then a.ReplayWrite? || a.ReplayMove? else editorFails || LacksEnd(done[0])
  }

  lemma ChainOfFirst(waiting: bool, actions: seq<Action>)
    requires actions != [] && ChainSuits(waiting, actions)
    ensures var n := |actions| - 1;
      && ChainSuits(waiting, actions[..n]) && !actions[n].Chained?
      && Suits(WaitingAfter(waiting, actions[..n], n), actions[n])
  {
    var n := |actions| - 1;
    assert forall i :: 0 <= i < n ==>
      WaitingAfter(waiting, actions[..n], i) == WaitingAfter(waiting, actions, i) && actions[..n][i] == actions[i];
    assert WaitingAfter(waiting, actions[..n], n) == WaitingAfter(waiting, actions, n);
  }

  lemma PrefixSuits(waiting: bool, actions: seq<Action>, k: nat)
    requires ChainSuits(waiting, actions) && k <= |actions|
    ensures ChainSuits(waiting, actions[..k])
  {
    assert forall j :: 0 <= j < k ==>
      WaitingAfter(waiting, actions[..k], j) == WaitingAfter(waiting, actions, j) && actions[..k][j] == actions[j];
  }

  /** The parts of a chain, one after the other. */
  function PerformAll(stack: seq<Action>, actions: seq<Action>, memory: Memory): (r: Outcome)
    requires StackOk(stack) && ChainSuits(WaitsForChar(stack), actions)
    ensures StackOk(r.stack)
    ensures WaitsForChar(r.stack) == WaitingAfter(WaitsForChar(stack), actions, |actions|)
  {
    if actions == [] then Outcome(stack, [])
    else
      ChainOfFirst(WaitsForChar(stack), actions);
      var o := PerformAll(stack, actions[..|actions| - 1], memory);
      var next := Perform(o.stack, actions[|actions| - 1], memory);
      Outcome(next.stack, o.done + next.done)
  }

  /** The mode after an action has been done, or has failed. */
  function ModeAfter(mode: Mode, a: Action, failed: bool): Mode {
    match a
    case Insert => Insertion
    case OpenLine(_) => if failed then mode else Insertion
    case Line(Replace, _) => if failed then mode else Insertion
    case SwitchToVisual(visual) => visual
    case VisualDeletion => if failed then mode else Normal
    case VisualYank => if failed then mode else Normal
    case _ => mode
  }

  /** The mode after one action has been done within what waits, or waits itself. */
  function PartMode(stack: seq<Action>, a: Action, memory: Memory, mode: Mode, failed: bool): Mode
    requires StackOk(stack) && Suits(WaitsForChar(stack), a) && !a.Chained?
  {
    var done := Perform(stack, a, memory).done;
    if done == [] then mode else ModeAfter(mode, done[0], failed)
  }

  /** The mode after the parts of a chain, of which only the last one can have failed. */
  function ChainMode(stack: seq<Action>, actions: seq<Action>, memory: Memory, mode: Mode, failed: bool): Mode
    requires StackOk(stack) && ChainSuits(WaitsForChar(stack), actions)
  {
    if actions == [] then mode
    else
      ChainOfFirst(WaitsForChar(stack), actions);
      var n := |actions| - 1;
      PartMode(PerformAll(stack, actions[..n], memory).stack, actions[n], memory,
               ChainMode(stack, actions[..n], memory, mode, false), failed)
  }

  lemma ChainModeMore(stack: seq<Action>, init: seq<Action>, last: Action, memory: Memory, mode: Mode, failed: bool)
    requires StackOk(stack) && ChainSuits(WaitsForChar(stack), init) && ChainSuits(WaitsForChar(stack), init + [last])
    ensures var o := PerformAll(stack, init, memory);
      && !last.Chained? && Suits(WaitsForChar(o.stack), last)
      && ChainMode(stack, init + [last], memory, mode, failed)
         == PartMode(o.stack, last, memory, ChainMode(stack, init, memory, mode, false), failed)
  {
    ChainOfFirst(WaitsForChar(stack), init + [last]);
    assert (init + [last])[..|init|] == init;
  }

  lemma PerformMore(stack: seq<Action>, init: seq<Action>, last: Action, memory: Memory)
    requires StackOk(stack) && ChainSuits(WaitsForChar(stack), init) && ChainSuits(WaitsForChar(stack), init + [last])
    ensures var o := PerformAll(stack, init, memory);
      && !last.Chained? && Suits(WaitsForChar(o.stack), last)
      && var next := Perform(o.stack, last, memory);
         PerformAll(stack, init + [last], memory) == Outcome(next.stack, o.done + next.done)
  {
    ChainOfFirst(WaitsForChar(stack), init + [last]);
    assert (init + [last])[..|init|] == init;
  }

  predicate IsWriteCommand(a: Action) { a.Line? || a.OpenLine? || a.Insert? }

  /** What is remembered can be done again: a change of the text, and a search. */
  predicate MemoryOk(memory: Memory) {
    && (memory.write.Some? ==> Complete(memory.write.value) && IsWriteCommand(memory.write.value))
    && (memory.move.Some? ==> Complete(memory.move.value) && memory.move.value.UntilChar?)
  }

  /** Whatever is done can be done: no search is without its character, and no character is done by itself. */
  lemma {:induction false} DoneIsComplete(stack: seq<Action>, actions: seq<Action>, memory: Memory)
    requires StackOk(stack) && ChainSuits(WaitsForChar(stack), actions) && MemoryOk(memory)
    ensures forall a :: a in PerformAll(stack, actions, memory).done ==> Complete(a)
  {
    if actions != [] {
      var n := |actions| - 1;
      ChainOfFirst(WaitsForChar(stack), actions);
      DoneIsComplete(stack, actions[..n], memory);
      OneDoneIsComplete(PerformAll(stack, actions[..n], memory).stack, actions[n], memory);
    }
  }

  lemma OneDoneIsComplete(stack: seq<Action>, a: Action, memory: Memory)
    requires StackOk(stack) && Suits(WaitsForChar(stack), a) && !a.Chained? && MemoryOk(memory)
    ensures forall d :: d in Perform(stack, a, memory).done ==> Complete(d)
  {
    if IsPlain(a) || IsRepeated(stack, a) { ComposedIsComplete(stack, a); }
  }

  lemma ComposedPush(stack: seq<Action>, top: Action, a: Action)
    requires StackOk(stack) && !WaitsForChar(stack) && Waits(top)
    ensures StackOk(stack + [top]) && Composed(stack + [top], a) == Composed(stack, WithExpected(top, a))
  {
    PushIsOk(stack, top);
    assert (stack + [top])[..|stack|] == stack;
  }

  /** A search to the end of the line is complete at once; a move then finds nothing waiting. */
  lemma ToLineEndThenMove(stack: seq<Action>, init: seq<Action>, move: Action, memory: Memory)
    requires StackOk(stack) && ChainSuits(WaitsForChar(stack), init) && move.Move?
    requires ChainSuits(WaitsForChar(stack), init + TO_LINE_END + [move])
    requires !WaitingAfter(WaitsForChar(stack), init, |init|)
    ensures var (o, toEnd) := (PerformAll(stack, init, memory), UntilChar(false, true, Some(Char('\n'))));
      PerformAll(stack, init + TO_LINE_END + [move], memory) == Outcome([], o.done + [Composed(o.stack, toEnd), move])
  {
    hide PerformAll, ChainSuits, WaitingAfter, StackOk, Composed, Complete;
    var (until, nl) := (UntilChar(false, true, None), Char('\n'));
    var o := PerformAll(stack, init, memory);
    var waiting := WaitsForChar(stack);
    assert init + TO_LINE_END + [move] == init + [until] + [nl] + [move];
    FirstOfMore(waiting, init + [until] + [nl], move);
    FirstOfMore(waiting, init + [until], nl);
    PerformMore(stack, init, until, memory);
    PerformMore(stack, init + [until], nl, memory);
    PerformMore(stack, init + [until] + [nl], move, memory);
    SearchIsCompleted(o.stack, until, nl, memory);
    AloneIsDone(move, memory);
    var found := Composed(o.stack, UntilChar(false, true, Some(nl)));
    assert o.done + [] + [found] + [move] == o.done + [found, move];
  }

  lemma AloneIsDone(a: Action, memory: Memory)
    requires IsPlain(a) && !a.Char?
    ensures StackOk([]) && !WaitsForChar([]) && Perform([], a, memory) == Outcome([], [a])
  {
  }

  lemma SearchIsCompleted(stack: seq<Action>, until: Action, c: Action, memory: Memory)
    requires StackOk(stack) && !WaitsForChar(stack) && until.UntilChar? && until.expected == None && c.Char?
    ensures StackOk(stack + [until]) && WaitsForChar(stack + [until])
    ensures Perform(stack, until, memory) == Outcome(stack + [until], [])
    ensures var found := UntilChar(until.backwards, until.stopBefore, Some(c));
      Perform(stack + [until], c, memory) == Outcome([], [Composed(stack, found)])
  {
    PushIsOk(stack, until);
    ComposedPush(stack, until, c);
    hide Composed, StackOk, WaitsForChar;
  }

  lemma FirstOfMore(waiting: bool, init: seq<Action>, last: Action)
    requires ChainSuits(waiting, init + [last])
    ensures ChainSuits(waiting, init)
  {
    ChainOfFirst(waiting, init + [last]);
    assert (init + [last])[..|init|] == init;
  }

  /**
   The key for deleting to the end of the line does so exactly when no deletion waits already.
   Otherwise the waiting deletion takes the whole line, and the cursor is moved to its end.
   */
  lemma DeleteToLineEndIff(stack: seq<Action>, memory: Memory)
    requires StackOk(stack) && !WaitsForChar(stack)
    ensures var (d, toEnd) := (BasicAction('D').actions, UntilChar(false, true, Some(Char('\n'))));
      && ChainSuits(false, d)
      && var o := PerformAll(stack, d, memory);
         && o.stack == []
         && (o.done == [Composed(stack, Line(Deletion, Some(toEnd))), Move(Chars, -1)] <==> !IsRepeated(stack, DELETE))
         && (IsRepeated(stack, DELETE) ==> o.done == [Composed(stack, DELETE), toEnd, Move(Chars, -1)])
  {
    var (move, toEnd) := (Move(Chars, -1), UntilChar(false, true, Some(Char('\n'))));
    KeysSuit(ActionMap(Normal), 'D');
    DeleteChain();
    var none: seq<Action> := [];
    assert none + [DELETE] == [DELETE];
    PerformMore(stack, none, DELETE, memory);
    NothingIsDone(stack, memory);
    hide PerformAll, ChainSuits, StackOk, Complete, BasicAction;
    ToLineEndThenMove(stack, [DELETE], move, memory);
    PendingDeletion(stack, toEnd, memory);
    hide *;
    var o := PerformAll(stack, [DELETE] + TO_LINE_END + [move], memory);
    assert IsRepeated(stack, DELETE) ==> |o.done| == 3;
  }

  lemma DeleteChain()
    ensures BasicAction('D') == Chained([DELETE] + TO_LINE_END + [Move(Chars, -1)])
    ensures ChainSuits(false, [DELETE]) && !WaitingAfter(false, [DELETE], 1)
  {
  }

  lemma NothingIsDone(stack: seq<Action>, memory: Memory)
    requires StackOk(stack)
    ensures ChainSuits(WaitsForChar(stack), []) && PerformAll(stack, [], memory) == Outcome(stack, [])
  {
  }

  lemma PendingDeletion(stack: seq<Action>, a: Action, memory: Memory)
    requires StackOk(stack) && !WaitsForChar(stack)
    ensures var o := Perform(stack, DELETE, memory);
      if IsRepeated(stack, DELETE)
      then o == Outcome([], [Composed(stack, DELETE)]) && StackOk(o.stack) && Composed(o.stack, a) == a
      else o.done == [] && StackOk(o.stack) && Composed(o.stack, a) == Composed(stack, Line(Deletion, Some(a)))
  {
    if !IsRepeated(stack, DELETE) { ComposedPush(stack, DELETE, a); }
  }

  // ----- which keys wait, which lead to another mode, and which have an end

  /** When nothing waits, the keys that let something wait are these seven; in the visual modes, "d" and "y" do not. */
  lemma KeyWaitsIff(mode: Mode, key: char, memory: Memory)
    requires IsCommand(mode)
    ensures var a := ActionFor(ActionMap(mode), key);
      if a.Chained? then ChainSuits(false, a.actions) && PerformAll([], a.actions, memory).stack == []
      else Suits(false, a)
           && (Perform([], a, memory).stack != [] <==> key in "cfFtT" || (mode == Normal && key in "dy"))
  {
    var a := ActionFor(ActionMap(mode), key);
    KeysSuit(ActionMap(mode), key);
    if a.Chained? { LastIsDone([], a.actions, memory); }
    hide PerformAll, Composed;
  }

  /** A chain whose last part is plain leaves nothing waiting. */
  lemma LastIsDone(stack: seq<Action>, actions: seq<Action>, memory: Memory)
    requires StackOk(stack) && ChainSuits(WaitsForChar(stack), actions)
    requires actions != [] && IsPlain(actions[|actions| - 1])
    ensures PerformAll(stack, actions, memory).stack == []
  {
    var n := |actions| - 1;
    ChainOfFirst(WaitsForChar(stack), actions);
    assert actions == actions[..n] + [actions[n]];
    PerformMore(stack, actions[..n], actions[n], memory);
    hide PerformAll, ChainSuits, Composed;
  }

  /** When something waits, only a change at the bottom of the stack leads to another mode, if it works. */
  lemma WaitingLeadsTo(stack: seq<Action>, a: Action, memory: Memory, mode: Mode, failed: bool)
    requires StackOk(stack) && stack != [] && Suits(WaitsForChar(stack), a)
    requires !a.Chained? && !a.ReplayWrite? && !a.ReplayMove?
    ensures PartMode(stack, a, memory, mode, failed)
      == if Perform(stack, a, memory).stack == [] && stack[0].Line? && stack[0].kind == Replace && !failed
         then Insertion else mode
  {
    ComposedTop(stack, a);
    hide Composed;
  }

  lemma ChainModes(actions: seq<Action>, memory: Memory, mode: Mode, failed: bool)
    ensures ChainSuits(false, actions[..0]) && PerformAll([], actions[..0], memory).stack == []
    ensures ChainMode([], actions[..0], memory, mode, failed) == mode
  {
    NothingIsDone([], memory);
    assert actions[..0] == [];
  }

  /** The k-th part of a chain that has left `now` waiting, and the mode as it was. */
  lemma ChainPart(actions: seq<Action>, k: nat, memory: Memory, mode: Mode, failed: bool, now: seq<Action>)
    requires k < |actions| && ChainSuits(false, actions) && ChainSuits(false, actions[..k])
    requires PerformAll([], actions[..k], memory).stack == now
    requires ChainMode([], actions[..k], memory, mode, false) == mode
    ensures ChainSuits(false, actions[..k + 1]) && !actions[k].Chained?
    ensures StackOk(now) && Suits(WaitsForChar(now), actions[k])
    ensures PerformAll([], actions[..k + 1], memory).stack == Perform(now, actions[k], memory).stack
    ensures ChainMode([], actions[..k + 1], memory, mode, failed) == PartMode(now, actions[k], memory, mode, failed)
    ensures ChainMode([], actions[..k + 1], memory, mode, false) == PartMode(now, actions[k], memory, mode, false)
  {
    TakeNext(actions, k);
    PrefixSuits(false, actions, k + 1);
    hide *;
    NothingWaits();
    PerformMore([], actions[..k], actions[k], memory);
    ChainModeMore([], actions[..k], actions[k], memory, mode, failed);
    ChainModeMore([], actions[..k], actions[k], memory, mode, false);
  }

  lemma NothingWaits()
    ensures StackOk([]) && !WaitsForChar([])
  {
  }

  lemma PushLeads(stack: seq<Action>, a: Action, memory: Memory, mode: Mode, failed: bool)
    requires StackOk(stack) && Waits(a) && Suits(WaitsForChar(stack), a) && !IsRepeated(stack, a)
    ensures !a.Chained? && Perform(stack, a, memory).stack == stack + [a]
    ensures PartMode(stack, a, memory, mode, failed) == mode
  {
    hide Composed;
  }

  lemma AloneLeads(a: Action, memory: Memory, mode: Mode, failed: bool)
    requires IsPlain(a) && !a.Char?
    ensures StackOk([]) && Suits(WaitsForChar([]), a)
    ensures Perform([], a, memory).stack == [] && PartMode([], a, memory, mode, failed) == ModeAfter(mode, a, failed)
  {
  }

  /** A second line key works on the line exactly if it is the same one; any other waits. */
  lemma SecondLineKeyIff(stack: seq<Action>, kind: LineKind, memory: Memory)
    requires StackOk(stack) && stack != [] && stack[|stack| - 1].Line?
    ensures Suits(WaitsForChar(stack), Line(kind, None))
    ensures var o := Perform(stack, Line(kind, None), memory);
      if stack[|stack| - 1].kind == kind then o.stack == [] && |o.done| == 1
      else o == Outcome(stack + [Line(kind, None)], [])
  {
    hide Composed;
  }

  /** When nothing waits: the keys that do one thing, and the modes they lead to. */
  lemma KeyLeadsTo(mode: Mode, key: char, memory: Memory, failed: bool)
    requires IsCommand(mode) && key != '.' && MemoryOk(memory)
    requires var a := ActionFor(ActionMap(mode), key); !a.Chained?
    ensures var a := ActionFor(ActionMap(mode), key);
      && Suits(false, a)
      && PartMode([], a, memory, mode, failed)
         == if key == 'v' then Visual
            else if key == 'V' then VisualLine
            else if key == 'i' then Insertion
            else if failed then mode
            else if key in "oO" then Insertion
            else if mode != Normal && key in "dDyY" then Normal
            else mode
  {
    var a := ActionFor(ActionMap(mode), key);
    KeysSuit(ActionMap(mode), key);
    KeyIs(mode, key, failed);
    NothingWaits();
    hide BasicAction, ActionFor, Composed, ModeAfter;
    if IsPlain(a) {
      AloneLeads(a, memory, mode, failed);
    } else if Waits(a) {
      PushLeads([], a, memory, mode, failed);
    } else {
      PartOnlyMoves(memory, mode, failed);
    }
  }

  /** What the keys do by themselves. */
  lemma KeyIs(mode: Mode, key: char, failed: bool)
    requires IsCommand(mode) && key != '.' && !ActionFor(ActionMap(mode), key).Chained?
    ensures var a := ActionFor(ActionMap(mode), key);
      && (IsPlain(a) ==> !a.Char?) && (IsPlain(a) || Waits(a) || a == ReplayMove)
      && (Waits(a) ==> key !in "vVioO" && (mode != Normal ==> key !in "dDyY"))
      && (a == ReplayMove ==> key == ';')
      && (IsPlain(a) ==>
           ModeAfter(mode, a, failed)
           == if key == 'v' then Visual
              else if key == 'V' then VisualLine
              else if key == 'i' then Insertion
              else if failed then mode
              else if key in "oO" then Insertion
              else if mode != Normal && key in "dDyY" then Normal
              else mode)
  {
  }

  lemma PartOnlyMoves(memory: Memory, mode: Mode, failed: bool)
    requires MemoryOk(memory) && StackOk([]) && Suits(WaitsForChar([]), ReplayMove)
    ensures PartMode([], ReplayMove, memory, mode, failed) == mode
  {
  }

  lemma AppendLeads(memory: Memory, mode: Mode, failed: bool)
    ensures var actions := [Move(Chars, 1), Insert];
      && ChainSuits(false, actions) && ChainSuits(false, actions[..1]) && ChainSuits(false, actions[..2])
      && ChainMode([], actions[..1], memory, mode, failed) == mode
      && ChainMode([], actions[..2], memory, mode, failed) == Insertion
  {
    var actions := [Move(Chars, 1), Insert];
    ChainModes(actions, memory, mode, failed);
    AloneLeads(Move(Chars, 1), memory, mode, failed);
    AloneLeads(Move(Chars, 1), memory, mode, false);
    AloneLeads(Insert, memory, mode, failed);
    hide PerformAll, ChainMode, Perform, PartMode;
    ChainPart(actions, 0, memory, mode, failed, []);
    ChainPart(actions, 1, memory, mode, failed, []);
  }

  lemma DeleteCharLeads(memory: Memory, mode: Mode, failed: bool)
    ensures var actions := [DELETE, Move(Chars, 0)];
      && ChainSuits(false, actions) && ChainSuits(false, actions[..1]) && ChainSuits(false, actions[..2])
      && ChainMode([], actions[..1], memory, mode, failed) == mode
      && ChainMode([], actions[..2], memory, mode, failed) == mode
  {
    var actions := [DELETE, Move(Chars, 0)];
    ChainModes(actions, memory, mode, failed);
    NothingWaits();
    PushLeads([], DELETE, memory, mode, failed);
    PushLeads([], DELETE, memory, mode, false);
    assert [] + [DELETE] == [DELETE];
    WaitingLeadsTo([DELETE], actions[1], memory, mode, failed);
    hide PerformAll, ChainMode, Perform, PartMode;
    ChainPart(actions, 0, memory, mode, failed, []);
    ChainPart(actions, 1, memory, mode, failed, [DELETE]);
  }

  /** A change or a deletion up to the end of the line. */
  lemma ToLineEndLeads(kind: LineKind, last: seq<Action>, memory: Memory, mode: Mode, failed: bool)
    requires last == [] || last == [Move(Chars, -1)]
    ensures var actions := [Line(kind, None)] + TO_LINE_END + last;
      && |actions| == 3 + |last| && ChainSuits(false, actions)
      && ChainSuits(false, actions[..1]) && ChainSuits(false, actions[..2]) && ChainSuits(false, actions[..3])
      && ChainMode([], actions[..1], memory, mode, failed) == mode
      && ChainMode([], actions[..2], memory, mode, failed) == mode
      && ChainMode([], actions[..3], memory, mode, failed) == (if kind == Replace && !failed then Insertion else mode)
      && PerformAll([], actions[..3], memory).stack == []
  {
    var (d, u) := (Line(kind, None), UntilChar(false, true, None));
    var actions := [d] + TO_LINE_END + last;
    ToLineEndIs(kind, last);
    hide *;
    ChainModes(actions, memory, mode, failed);
    ToLineEndParts(d, u, memory, mode, failed);
    ToLineEndParts(d, u, memory, mode, false);
    ChainPart(actions, 0, memory, mode, failed, []);
    ChainPart(actions, 1, memory, mode, failed, [d]);
    ChainPart(actions, 2, memory, mode, failed, [d, u]);
  }

  lemma DeleteToLineEndLeads(memory: Memory, mode: Mode, failed: bool)
    ensures var actions := [DELETE] + TO_LINE_END + [Move(Chars, -1)];
      ChainSuits(false, actions[..4]) && ChainMode([], actions[..4], memory, mode, failed) == mode
  {
    var actions := [DELETE] + TO_LINE_END + [Move(Chars, -1)];
    assert DELETE == Line(Deletion, None);
    ToLineEndIs(Deletion, [Move(Chars, -1)]);
    hide *;
    ToLineEndLeads(Deletion, [Move(Chars, -1)], memory, mode, false);
    MoveAlone(memory, mode, failed);
    ChainPart(actions, 3, memory, mode, failed, []);
  }

  lemma ToLineEndIs(kind: LineKind, last: seq<Action>)
    requires last == [] || last == [Move(Chars, -1)]
    ensures var actions := [Line(kind, None)] + TO_LINE_END + last;
      && ChainSuits(false, actions) && |actions| == 3 + |last| && actions[0] == Line(kind, None)
      && actions[1] == UntilChar(false, true, None) && actions[2] == Char('\n')
      && (last != [] ==> actions[3] == last[0])
  {
  }

  lemma MoveAlone(memory: Memory, mode: Mode, failed: bool)
    ensures StackOk([]) && Suits(WaitsForChar([]), Move(Chars, -1)) && !Move(Chars, -1).Chained?
    ensures PartMode([], Move(Chars, -1), memory, mode, failed) == mode
  {
  }

  lemma ToLineEndParts(d: Action, u: Action, memory: Memory, mode: Mode, failed: bool)
    requires d.Line? && d.expected == None && u == UntilChar(false, true, None)
    ensures StackOk([]) && StackOk([d]) && StackOk([d, u]) && !WaitsForChar([]) && !WaitsForChar([d])
    ensures WaitsForChar([d, u]) && Suits(false, d) && Suits(false, u) && Suits(true, Char('\n'))
    ensures Perform([], d, memory).stack == [d] && PartMode([], d, memory, mode, failed) == mode
    ensures Perform([d], u, memory).stack == [d, u] && PartMode([d], u, memory, mode, failed) == mode
    ensures Perform([d, u], Char('\n'), memory).stack == []
    ensures PartMode([d, u], Char('\n'), memory, mode, failed)
         == if d.kind == Replace && !failed then Insertion else mode
  {
    PushLeads([], d, memory, mode, failed);
    PushLeads([d], u, memory, mode, failed);
    assert [] + [d] == [d] && [d] + [u] == [d, u];
    WaitingLeadsTo([d, u], Char('\n'), memory, mode, failed);
  }

  lemma ChainActions()
    ensures BasicAction('a') == Chained([Move(Chars, 1), Insert])
    ensures BasicAction('x') == Chained([DELETE, Move(Chars, 0)])
    ensures BasicAction('C') == Chained([Line(Replace, None)] + TO_LINE_END + [])
    ensures BasicAction('D') == Chained([Line(Deletion, None)] + TO_LINE_END + [Move(Chars, -1)])
    ensures DELETE == Line(Deletion, None)
  {
    assert [Line(Replace, None)] + TO_LINE_END + [] == [Line(Replace, None)] + TO_LINE_END;
  }

  /** When nothing waits: the keys that do several things. */
  lemma ChainLeadsTo(mode: Mode, key: char, memory: Memory, k: nat, failed: bool)
    requires key in "axDC"
    ensures BasicAction(key).Chained?
    ensures var actions := BasicAction(key).actions;
      0 < k <= |actions| ==>
        && ChainSuits(false, actions) && ChainSuits(false, actions[..k])
        && ChainMode([], actions[..k], memory, mode, failed)
           == if key == 'a' then (if k == 2 then Insertion else mode)
              else if key == 'C' then (if k == 3 && !failed then Insertion else mode)
              else mode
  {
    ChainActions();
    hide *;
    match key {
      case 'a' => AppendLeads(memory, mode, failed);
      case 'x' => DeleteCharLeads(memory, mode, failed);
      case 'C' => ToLineEndLeads(Replace, [], memory, mode, failed);
      case _ =>
        ToLineEndLeads(Deletion, [Move(Chars, -1)], memory, mode, failed);
        DeleteToLineEndLeads(memory, mode, failed);
    }
  }

  /** What is in no chain: the actions that lead to a visual mode or back. */
  predicate IsVisual(a: Action) { a.SwitchToVisual? || a.VisualDeletion? || a.VisualYank? || a.ReplayWrite? }

  /** A chain leads nowhere but to insertion. */
  lemma {:induction false} ChainOnlyInserts(stack: seq<Action>, actions: seq<Action>, memory: Memory, mode: Mode,
                                            failed: bool)
    requires StackOk(stack) && ChainSuits(WaitsForChar(stack), actions) && MemoryOk(memory)
    requires forall i :: 0 <= i < |actions| ==> !IsVisual(actions[i])
    ensures ChainMode(stack, actions, memory, mode, failed) in {mode, Insertion}
  {
    if actions != [] {
      var n := |actions| - 1;
      ChainOfFirst(WaitsForChar(stack), actions);
      ChainOnlyInserts(stack, actions[..n], memory, mode, false);
      PartOnlyInserts(PerformAll(stack, actions[..n], memory).stack, actions[n], memory,
                      ChainMode(stack, actions[..n], memory, mode, false), failed);
    }
  }

  lemma PartOnlyInserts(stack: seq<Action>, a: Action, memory: Memory, mode: Mode, failed: bool)
    requires StackOk(stack) && Suits(WaitsForChar(stack), a) && !a.Chained? && MemoryOk(memory)
    requires stack != [] || !IsVisual(a) || a.ReplayWrite?
    ensures PartMode(stack, a, memory, mode, failed) in {mode, Insertion}
  {
    if stack != [] { ComposedTop(stack, a); }
  }

  /** Behind "c", a key that does something at once lacks an end unless it is one of these seven movements. */
  lemma ChangeLacksEndIff(key: char)
    requires IsPlain(BasicAction(key))
    ensures StackOk([Line(Replace, None)])
    ensures LacksEnd(Composed([Line(Replace, None)], BasicAction(key))) <==> key !in "hlkjwb$^0"
  {
    NothingWaits();
    ComposedLacksEndIff([Line(Replace, None)], BasicAction(key));
    hide Composed;
  }

  /** Behind "c", a search for any character has an end. */
  lemma ChangeToCharHasEnd(backwards: bool, stopBefore: bool, c: char)
    ensures var stack := [Line(Replace, None), UntilChar(backwards, stopBefore, None)];
      StackOk(stack) && !LacksEnd(Composed(stack, Char(c)))
  {
    ComposedLacksEndIff([Line(Replace, None), UntilChar(backwards, stopBefore, None)], Char(c));
    hide Composed;
  }
}
