/**
 The debounced hooks as a state machine: runs wait for a while, and a later run for the same key
 replaces an earlier one. Any interleaving of the steps is possible, since callbacks may run hooks.
 */
module DebounceProtocol {
  import opened Wrappers

  type Args = seq<int>

  /**
   The parameters of a hook type: `None` for one without an asynchronous key, and otherwise
   whether it is one. `delay` is the debounce time.
   */
  datatype Config = Config(keys: seq<Option<bool>>, delay: nat) {

    /** The comparison generated for a hook: all key parameters are equal. */
    predicate SameKey(data: Args, args: Args)
      requires |data| == |args| == |keys|
    {
      forall i :: 0 <= i < |keys| && keys[i] == Some(true) ==> data[i] == args[i]
    }

    /** The assignments generated for a hook: parameters without a key setting are replaced. */
    function Assign(data: Args, args: Args): Args
      requires |data| == |args| == |keys|
    {
      seq(|keys|, i requires 0 <= i < |keys| => if keys[i] == None then args[i] else data[i])
    }

    /** No parameter is declared with a key setting that is false. */
    ghost predicate NoneFrozen() { forall i :: 0 <= i < |keys| ==> keys[i] != Some(false) }
  }

  datatype Entry = Entry(id: nat, args: Args)

  /** A source of the main loop: a timer of the hook, or anything else that occupies an id. */
  datatype Source = Timer(due: nat) | Other

  datatype State = State(pending: seq<Entry>, sources: map<nat, Source>, now: nat)

  datatype Step =
    | Run(args: Args, id: nat)     // a run that reaches the queue, with the id of its new timer
    | Fire(id: nat)                // a timer expires
    | Force                        // forced debouncing
    | Unregister                   // the hook's timers are removed
    | Tick(time: nat)              // time passes
    | Occupy(id: nat)              // someone else creates a source
    | Release(id: nat)             // a source that is not a pending timer goes away

  const START := State([], map[], 0)

  /** The position of the first entry for the key of `args`, or the number of entries. */
  function FirstMatch(cfg: Config, pending: seq<Entry>, args: Args): (k: nat)
    requires |args| == |cfg.keys| && forall e :: e in pending ==> |e.args| == |cfg.keys|
    ensures k <= |pending| && (k < |pending| ==> cfg.SameKey(pending[k].args, args))
    ensures forall j :: 0 <= j < k ==> !cfg.SameKey(pending[j].args, args)
  {
    if pending == [] || cfg.SameKey(pending[0].args, args) then 0 else 1 + FirstMatch(cfg, pending[1..], args)
  }

  function FirstWithId(pending: seq<Entry>, id: nat): (k: nat)
    ensures k <= |pending| && (k < |pending| ==> pending[k].id == id)
    ensures forall j :: 0 <= j < k ==> pending[j].id != id
  {
    if pending == [] || pending[0].id == id then 0 else 1 + FirstWithId(pending[1..], id)
  }

  ghost function Ids(pending: seq<Entry>): set<nat> { set e | e in pending :: e.id }

  ghost predicate Shaped(cfg: Config, s: State) { forall e :: e in s.pending ==> |e.args| == |cfg.keys| }

  /** The sources left when a run removes the timer it is about to replace. */
  ghost function Kept(cfg: Config, s: State, args: Args): map<nat, Source>
    requires Shaped(cfg, s) && |args| == |cfg.keys|
  {
    var k := FirstMatch(cfg, s.pending, args);
    if k < |s.pending| then s.sources - {s.pending[k].id} else s.sources
  }

  ghost predicate Enabled(cfg: Config, s: State, step: Step) {
    && Shaped(cfg, s)
    && match step
       case Run(args, id) => |args| == |cfg.keys| && id !in Kept(cfg, s, args)
       case Fire(id) => id in s.sources && s.sources[id].Timer? && s.sources[id].due <= s.now
       case Occupy(id) => id !in s.sources
       case Release(id) => id in s.sources && s.sources[id].Other?
       case _ => true
  }

  /** The k-th entry gets the arguments, and its timer is replaced by a new one. */
  ghost function Refreshed(cfg: Config, s: State, k: nat, args: Args, id: nat): State
    requires k < |s.pending| && |s.pending[k].args| == |args| == |cfg.keys|
  {
    State(s.pending[k := Entry(id, cfg.Assign(s.pending[k].args, args))],
          (s.sources - {s.pending[k].id})[id := Timer(s.now + cfg.delay)], s.now)
  }

  ghost function Appended(cfg: Config, s: State, args: Args, id: nat): State {
    State(s.pending + [Entry(id, args)], s.sources[id := Timer(s.now + cfg.delay)], s.now)
  }

  ghost function Next(cfg: Config, s: State, step: Step): State
    requires Enabled(cfg, s, step)
  {
    match step
    case Run(args, id) =>
      var k := FirstMatch(cfg, s.pending, args);
      if k < |s.pending| then Refreshed(cfg, s, k, args, id) else Appended(cfg, s, args, id)
    case Fire(id) =>
      // while its callback runs, the source still occupies the id
      var k := FirstWithId(s.pending, id);
      State(if k < |s.pending| then s.pending[..k] + s.pending[k + 1..] else s.pending,
            s.sources[id := Other], s.now)
    case Force => State([], s.sources - Ids(s.pending), s.now)
    case Unregister => State([], s.sources - Ids(s.pending), s.now)
    case Tick(time) => s.(now := s.now + time)
    case Occupy(id) => s.(sources := s.sources[id := Other])
    case Release(id) => s.(sources := s.sources - {id})
  }

  ghost predicate Apart(cfg: Config, d: Entry, e: Entry)
    requires |d.args| == |e.args| == |cfg.keys|
  {
    d.id != e.id && !cfg.SameKey(d.args, e.args)
  }

  ghost predicate HasId(pending: seq<Entry>, id: nat) { exists e :: e in pending && e.id == id }

  /** The ids of the entries are exactly those of the hook's timers. */
  ghost predicate Timed(pending: seq<Entry>, sources: map<nat, Source>) {
    && (forall e :: e in pending ==> e.id in sources && sources[e.id].Timer?)
    && (forall id :: id in sources && sources[id].Timer? ==> HasId(pending, id))
  }

  /** Entries have different ids and keys, and their ids are exactly those of the hook's timers. */
  ghost predicate Inv(cfg: Config, s: State) {
    && Shaped(cfg, s)
    && (forall i, j :: 0 <= i < j < |s.pending| ==> Apart(cfg, s.pending[i], s.pending[j]))
    && Timed(s.pending, s.sources)
  }

  // ----- every step keeps the invariant

  lemma AssignKeepsKey(cfg: Config, data: Args, args: Args, other: Args)
    requires |data| == |args| == |other| == |cfg.keys|
    requires cfg.SameKey(data, args)
    ensures |cfg.Assign(data, args)| == |cfg.keys|
    ensures cfg.SameKey(cfg.Assign(data, args), other) <==> cfg.SameKey(data, other)
    ensures cfg.SameKey(args, other) <==> cfg.SameKey(data, other)
    ensures cfg.SameKey(other, data) <==> cfg.SameKey(data, other)
  {
    var new_ := cfg.Assign(data, args);
    assert forall i :: 0 <= i < |cfg.keys| && cfg.keys[i] == Some(true) ==> new_[i] == data[i] == args[i];
  }

  /** An entry that has been replaced for its key stays apart from an entry it was apart from. */
  lemma RefreshedIsApart(cfg: Config, e: Entry, args: Args, id: nat, d: Entry)
    requires |e.args| == |args| == |d.args| == |cfg.keys| && cfg.SameKey(e.args, args) && d.id != id
    requires Apart(cfg, d, e) || Apart(cfg, e, d)
    ensures |cfg.Assign(e.args, args)| == |cfg.keys|
    ensures var e' := Entry(id, cfg.Assign(e.args, args)); Apart(cfg, e', d) && Apart(cfg, d, e')
  {
    AssignKeepsKey(cfg, e.args, args, d.args);
    AssignKeepsKey(cfg, e.args, e.args, d.args);
    AssignKeepsKey(cfg, cfg.Assign(e.args, args), cfg.Assign(e.args, args), d.args);
  }

  lemma NewIdIsUnused(cfg: Config, s: State, args: Args, id: nat, j: nat)
    requires Inv(cfg, s) && Enabled(cfg, s, Run(args, id)) && j < |s.pending|
    requires j != FirstMatch(cfg, s.pending, args)
    ensures s.pending[j].id != id
  {
    var k := FirstMatch(cfg, s.pending, args);
    assert s.pending[j] in s.pending;
    if k < |s.pending| {
      assert if j < k then Apart(cfg, s.pending[j], s.pending[k]) else Apart(cfg, s.pending[k], s.pending[j]);
    }
  }

  /** An entry that is to replace the k-th one is apart from all others. */
  ghost predicate OthersApart(cfg: Config, pending: seq<Entry>, k: nat, e: Entry)
    requires k < |pending| && |e.args| == |cfg.keys|
  {
    forall j :: 0 <= j < |pending| && j != k ==>
      && pending[j].id != e.id && pending[j].id != pending[k].id
      && |pending[j].args| == |cfg.keys| && Apart(cfg, pending[j], e) && Apart(cfg, e, pending[j])
  }

  lemma ReplaceKeepsTimed(cfg: Config, pending: seq<Entry>, sources: map<nat, Source>, k: nat, e: Entry, due: nat)
    requires k < |pending| && Timed(pending, sources) && |e.args| == |cfg.keys| && OthersApart(cfg, pending, k, e)
    ensures Timed(pending[k := e], (sources - {pending[k].id})[e.id := Timer(due)])
  {
    var new_, sources' := pending[k := e], (sources - {pending[k].id})[e.id := Timer(due)];
    assert new_[k] == e;
    forall id | id in sources' && sources'[id].Timer? ensures HasId(new_, id) {
      if id != e.id {
        var j :| 0 <= j < |pending| && pending[j].id == id;
        assert new_[j] == pending[j];
      }
    }
  }

  lemma RefreshKeepsInv(cfg: Config, s: State, args: Args, id: nat)
    requires Inv(cfg, s) && Enabled(cfg, s, Run(args, id))
    requires FirstMatch(cfg, s.pending, args) < |s.pending|
    ensures Inv(cfg, Next(cfg, s, Run(args, id)))
  {
    var k := FirstMatch(cfg, s.pending, args);
    RefreshIs(cfg, s, args, id, k);
    hide *;
    var e := Entry(id, cfg.Assign(s.pending[k].args, args));
    AllAreApart(cfg, s, args, id, k);
    ReplaceKeepsTimed(cfg, s.pending, s.sources, k, e, s.now + cfg.delay);
    ReplaceKeepsInv(cfg, s, Next(cfg, s, Run(args, id)), k, e);
  }

  lemma AllAreApart(cfg: Config, s: State, args: Args, id: nat, k: nat)
    requires Inv(cfg, s) && Enabled(cfg, s, Run(args, id)) && k == FirstMatch(cfg, s.pending, args) < |s.pending|
    requires |s.pending[k].args| == |cfg.Assign(s.pending[k].args, args)| == |args| == |cfg.keys|
    ensures OthersApart(cfg, s.pending, k, Entry(id, cfg.Assign(s.pending[k].args, args)))
  {
    hide Inv, Enabled, FirstMatch, Apart, Config.Assign;
    var e := Entry(id, cfg.Assign(s.pending[k].args, args));
    forall j | 0 <= j < |s.pending| && j != k
      ensures s.pending[j].id != id && s.pending[j].id != s.pending[k].id
      ensures |s.pending[j].args| == |cfg.keys| && Apart(cfg, s.pending[j], e) && Apart(cfg, e, s.pending[j])
    {
      OthersAreApart(cfg, s, args, id, k, j);
    }
  }

  lemma RefreshIs(cfg: Config, s: State, args: Args, id: nat, k: nat)
    requires Inv(cfg, s) && Enabled(cfg, s, Run(args, id)) && k == FirstMatch(cfg, s.pending, args) < |s.pending|
    ensures Timed(s.pending, s.sources) && |s.pending[k].args| == |args| == |cfg.keys|
    ensures |cfg.Assign(s.pending[k].args, args)| == |cfg.keys|
    ensures var (e, t) := (Entry(id, cfg.Assign(s.pending[k].args, args)), Next(cfg, s, Run(args, id)));
      t.pending == s.pending[k := e] && t.sources == (s.sources - {s.pending[k].id})[id := Timer(s.now + cfg.delay)]
  {
    hide Apart, Timed;
    assert s.pending[k] in s.pending;
  }

  lemma OthersAreApart(cfg: Config, s: State, args: Args, id: nat, k: nat, j: nat)
    requires Inv(cfg, s) && Enabled(cfg, s, Run(args, id)) && k == FirstMatch(cfg, s.pending, args) < |s.pending|
    requires j < |s.pending| && j != k && |s.pending[k].args| == |args| == |cfg.keys|
    ensures s.pending[j].id != id && s.pending[j].id != s.pending[k].id
    ensures |s.pending[j].args| == |cfg.Assign(s.pending[k].args, args)| == |cfg.keys|
    ensures var e := Entry(id, cfg.Assign(s.pending[k].args, args));
      Apart(cfg, s.pending[j], e) && Apart(cfg, e, s.pending[j])
  {
    NewIdIsUnused(cfg, s, args, id, j);
    assert s.pending[j] in s.pending;
    assert if j < k then Apart(cfg, s.pending[j], s.pending[k]) else Apart(cfg, s.pending[k], s.pending[j]);
    hide Timed, Config.SameKey;
    RefreshedIsApart(cfg, s.pending[k], args, id, s.pending[j]);
  }

  lemma ReplaceKeepsInv(cfg: Config, s: State, t: State, k: nat, e: Entry)
    requires Inv(cfg, s) && k < |s.pending| && t.pending == s.pending[k := e] && |e.args| == |cfg.keys|
    requires Timed(t.pending, t.sources) && OthersApart(cfg, s.pending, k, e)
    ensures Inv(cfg, t)
  {
    hide Timed, Apart;
  }

  lemma AppendKeepsInv(cfg: Config, s: State, args: Args, id: nat)
    requires Inv(cfg, s) && Enabled(cfg, s, Run(args, id))
    requires FirstMatch(cfg, s.pending, args) == |s.pending|
    ensures Inv(cfg, Next(cfg, s, Run(args, id)))
  {
    var e, t := Entry(id, args), Next(cfg, s, Run(args, id));
    forall j | 0 <= j < |s.pending| ensures Apart(cfg, t.pending[j], e) && t.pending[j] == s.pending[j] {
      NewIdIsUnused(cfg, s, args, id, j);
    }
    assert t.pending[|s.pending|] == e;
    forall x | x in t.sources && t.sources[x].Timer? ensures HasId(t.pending, x) {
      if x != id {
        var d :| d in s.pending && d.id == x;
        assert d in t.pending;
      }
    }
  }

  lemma FireKeepsInv(cfg: Config, s: State, id: nat)
    requires Inv(cfg, s) && Enabled(cfg, s, Fire(id))
    ensures Inv(cfg, Next(cfg, s, Fire(id)))
    ensures FirstWithId(s.pending, id) < |s.pending|
  {
    FireIs(cfg, s, id);
    InvIsTimed(cfg, s);
    hide *;
    TimerFindsItsEntry(cfg, s, id);
    var k := FirstWithId(s.pending, id);
    RemoveKeepsTimed(s.pending, s.sources, k);
    RemoveKeepsApart(cfg, s, k);
    InvAgain(cfg, s.(pending := s.pending[..k] + s.pending[k + 1..]), Next(cfg, s, Fire(id)));
  }

  lemma FireIs(cfg: Config, s: State, id: nat)
    requires Enabled(cfg, s, Fire(id))
    ensures id in s.sources && s.sources[id].Timer?
    ensures var k := FirstWithId(s.pending, id);
      k < |s.pending| ==>
        Next(cfg, s, Fire(id)) == State(s.pending[..k] + s.pending[k + 1..], s.sources[id := Other], s.now)
  {
  }

  lemma InvIsTimed(cfg: Config, s: State)
    requires Inv(cfg, s)
    ensures Timed(s.pending, s.sources)
  {
    hide Timed;
  }

  lemma InvAgain(cfg: Config, s: State, t: State)
    requires Shaped(cfg, s) && forall i, j :: 0 <= i < j < |s.pending| ==> Apart(cfg, s.pending[i], s.pending[j])
    requires t.pending == s.pending && Timed(t.pending, t.sources)
    ensures Inv(cfg, t)
  {
    hide Timed, Apart;
  }

  lemma RemoveKeepsApart(cfg: Config, s: State, k: nat)
    requires Inv(cfg, s) && k < |s.pending|
    ensures var rest := s.pending[..k] + s.pending[k + 1..];
      && Shaped(cfg, s.(pending := rest))
      && forall i, j :: 0 <= i < j < |rest| ==> Apart(cfg, rest[i], rest[j])
  {
    var rest := s.pending[..k] + s.pending[k + 1..];
    forall i, j | 0 <= i < j < |rest| ensures Apart(cfg, rest[i], rest[j]) {
      var (i', j') := (if i < k then i else i + 1, if j < k then j else j + 1);
      assert rest[i] == s.pending[i'] && rest[j] == s.pending[j'];
      hide Shaped, Apart;
    }
    hide Apart;
    RestIsShaped(cfg, s, k);
    hide *;
  }

  lemma RestIsShaped(cfg: Config, s: State, k: nat)
    requires Shaped(cfg, s) && k < |s.pending|
    ensures Shaped(cfg, s.(pending := s.pending[..k] + s.pending[k + 1..]))
  {
    var rest := s.pending[..k] + s.pending[k + 1..];
    assert forall e :: e in rest ==> e in s.pending;
  }

  lemma RemoveKeepsTimed(pending: seq<Entry>, sources: map<nat, Source>, k: nat)
    requires k < |pending| && Timed(pending, sources)
    requires forall j :: 0 <= j < |pending| && j != k ==> pending[j].id != pending[k].id
    ensures Timed(pending[..k] + pending[k + 1..], sources[pending[k].id := Other])
  {
    var rest, sources' := pending[..k] + pending[k + 1..], sources[pending[k].id := Other];
    forall e | e in rest ensures e.id in sources' && sources'[e.id].Timer? {
      var i :| 0 <= i < |rest| && rest[i] == e;
      assert e == pending[if i < k then i else i + 1];
    }
    forall id | id in sources' && sources'[id].Timer? ensures HasId(rest, id) {
      var j :| 0 <= j < |pending| && pending[j].id == id;
      assert rest[if j < k then j else j - 1] == pending[j];
    }
  }

  /** Whatever step is taken, the invariant is kept. */
  lemma StepKeepsInv(cfg: Config, s: State, step: Step)
    requires Inv(cfg, s) && Enabled(cfg, s, step)
    ensures Inv(cfg, Next(cfg, s, step))
  {
    match step
    case Run(args, id) =>
      if FirstMatch(cfg, s.pending, args) < |s.pending| {
        RefreshKeepsInv(cfg, s, args, id);
      } else {
        AppendKeepsInv(cfg, s, args, id);
      }
    case Fire(id) => FireKeepsInv(cfg, s, id);
    case _ =>
  }

  /** An expiring timer finds exactly one entry, its own. */
  lemma TimerFindsItsEntry(cfg: Config, s: State, id: nat)
    requires Inv(cfg, s) && id in s.sources && s.sources[id].Timer?
    ensures var k := FirstWithId(s.pending, id);
      k < |s.pending| && forall j :: 0 <= j < |s.pending| && s.pending[j].id == id ==> j == k
  {
    assert HasId(s.pending, id);
  }

  // ----- whole runs

  /** The state after the steps `tr`, if each of them was enabled when it was taken. */
  ghost function After(cfg: Config, tr: seq<Step>): Option<State> {
    if tr == [] then Some(START)
    else
      match After(cfg, tr[..|tr| - 1])
      case None => None
      case Some(s) => if Enabled(cfg, s, tr[|tr| - 1]) then Some(Next(cfg, s, tr[|tr| - 1])) else None
  }

  ghost predicate Trace(cfg: Config, tr: seq<Step>) { After(cfg, tr).Some? }

  lemma {:induction false} AlwaysInv(cfg: Config, tr: seq<Step>)
    requires Trace(cfg, tr)
    ensures Inv(cfg, After(cfg, tr).value)
  {
    if tr != [] {
      var init, step := tr[..|tr| - 1], tr[|tr| - 1];
      AlwaysInv(cfg, init);
      StepKeepsInv(cfg, After(cfg, init).value, step);
    }
  }

  /** A source that is none of the hook's timers is there until it is released. */
  lemma OthersSurvive(cfg: Config, s: State, step: Step, x: nat)
    requires Inv(cfg, s) && Enabled(cfg, s, step) && x in s.sources && s.sources[x].Other? && step != Release(x)
    ensures x in Next(cfg, s, step).sources && Next(cfg, s, step).sources[x].Other?
  {
    assert forall e :: e in s.pending ==> e.id != x;
    hide FirstWithId, Apart, Config.SameKey, Config.Assign;
    if step.Run? {
      var k := FirstMatch(cfg, s.pending, step.args);
      assert k < |s.pending| ==> s.pending[k] in s.pending;
    }
  }

  /** Forcing and unregistering take away the hook's timers, and nothing else. */
  lemma ClearingTakesTimers(cfg: Config, s: State, step: Step)
    requires Inv(cfg, s) && (step == Force || step == Unregister)
    ensures Enabled(cfg, s, step)
    ensures var t := Next(cfg, s, step);
      && t.pending == [] && forall x :: x in t.sources <==> x in s.sources && s.sources[x].Other?
  {
    forall x | x in s.sources && s.sources[x].Timer? ensures x in Ids(s.pending) {
      assert HasId(s.pending, x);
    }
    hide Apart, FirstWithId, FirstMatch;
  }

  // ----- which runs share an entry

  /** Two entries that wait at the same time differ in a parameter that is a key. */
  lemma PendingKeysDiffer(cfg: Config, tr: seq<Step>, i: nat, j: nat) returns (p: nat)
    requires Trace(cfg, tr) && i < j < |After(cfg, tr).value.pending|
    ensures var pending := After(cfg, tr).value.pending;
      && p < |cfg.keys| && cfg.keys[p] == Some(true) && |pending[i].args| == |pending[j].args| == |cfg.keys|
      && pending[i].args[p] != pending[j].args[p]
  {
    AlwaysInv(cfg, tr);
    var pending := After(cfg, tr).value.pending;
    assert Apart(cfg, pending[i], pending[j]);
    p :| p < |cfg.keys| && cfg.keys[p] == Some(true) && pending[i].args[p] != pending[j].args[p];
  }

  /** When no parameter is a key, all runs share one entry. */
  lemma WithoutKeysOneWaits(cfg: Config, tr: seq<Step>)
    requires Trace(cfg, tr) && forall p :: 0 <= p < |cfg.keys| ==> cfg.keys[p] != Some(true)
    ensures |After(cfg, tr).value.pending| <= 1
  {
    if |After(cfg, tr).value.pending| > 1 { var p := PendingKeysDiffer(cfg, tr, 0, 1); }
  }

  /** A run adds an entry unless one waits that agrees with it on all parameters that are keys. */
  lemma RunAddsUnlessKeysAgree(cfg: Config, s: State, args: Args, id: nat)
    requires Inv(cfg, s) && Enabled(cfg, s, Run(args, id))
    ensures |Next(cfg, s, Run(args, id)).pending| == |s.pending|
      <==> exists i :: 0 <= i < |s.pending| && KeysAgree(cfg, s.pending[i].args, args)
    ensures |Next(cfg, s, Run(args, id)).pending| <= |s.pending| + 1
  {
    var k := FirstMatch(cfg, s.pending, args);
    assert forall i :: 0 <= i < |s.pending| ==> s.pending[i] in s.pending;
    hide FirstMatch, Timed;
    if i :| 0 <= i < |s.pending| && KeysAgree(cfg, s.pending[i].args, args) {
      assert cfg.SameKey(s.pending[i].args, args);
    }
  }

  /** Two runs give the same value to every parameter that is a key. */
  ghost predicate KeysAgree(cfg: Config, a: Args, b: Args) {
    && |a| == |b| == |cfg.keys|
    && forall p :: 0 <= p < |cfg.keys| && cfg.keys[p] == Some(true) ==> a[p] == b[p]
  }

  /** The j-th step is the last run for the key of `args`, and it had these arguments. */
  ghost predicate LatestRun(cfg: Config, tr: seq<Step>, args: Args, j: nat)
    requires |args| == |cfg.keys|
  {
    && j < |tr| && tr[j].Run? && tr[j].args == args
    && forall m :: j < m < |tr| && tr[m].Run? ==> |tr[m].args| == |args| && !KeysAgree(cfg, tr[m].args, args)
  }

  /** Nothing after the j-th step has cleared the queue. */
  ghost predicate NotCleared(tr: seq<Step>, j: nat) {
    forall m :: j < m < |tr| ==> !tr[m].Force? && !tr[m].Unregister?
  }

  ghost function Now(cfg: Config, tr: seq<Step>): nat
    requires Trace(cfg, tr)
  {
    After(cfg, tr).value.now
  }

  lemma PrefixIsTrace(cfg: Config, tr: seq<Step>)
    requires Trace(cfg, tr) && tr != []
    ensures Trace(cfg, tr[..|tr| - 1])
    ensures Enabled(cfg, After(cfg, tr[..|tr| - 1]).value, tr[|tr| - 1])
    ensures After(cfg, tr).value == Next(cfg, After(cfg, tr[..|tr| - 1]).value, tr[|tr| - 1])
  {
  }

  /** With no frozen parameter, replacing an entry for its key gives it the new arguments. */
  lemma AssignIsLatest(cfg: Config, data: Args, args: Args)
    requires |data| == |args| == |cfg.keys| && cfg.SameKey(data, args) && cfg.NoneFrozen()
    ensures cfg.Assign(data, args) == args
  {
    forall i | 0 <= i < |args| ensures cfg.Assign(data, args)[i] == args[i] {
      assert cfg.keys[i] != Some(false);
      match cfg.keys[i] {
        case None =>
        case Some(isKey) => assert isKey;
      }
    }
  }

  /** An entry that a step leaves pending either comes from that step, a run, or was there before. */
  lemma StepOrigin(cfg: Config, s: State, step: Step, e: Entry)
    requires Inv(cfg, s) && Enabled(cfg, s, step) && e in Next(cfg, s, step).pending && cfg.NoneFrozen()
    ensures |e.args| == |cfg.keys| && e.id in Next(cfg, s, step).sources
    ensures !step.Force? && !step.Unregister?
    ensures var t := Next(cfg, s, step);
      if step.Run? && step.id == e.id then step.args == e.args && t.sources[e.id] == Timer(s.now + cfg.delay)
      else e in s.pending && e.id in s.sources && t.sources[e.id] == s.sources[e.id]
           && (step.Run? ==> |step.args| == |cfg.keys| && !cfg.SameKey(step.args, e.args))
  {
    StepKeepsInv(cfg, s, step);
    var t := Next(cfg, s, step);
    var i :| 0 <= i < |t.pending| && t.pending[i] == e;
    match step
    case Run(args, id) => RunOrigin(cfg, s, args, id, i);
    case Fire(id) => FireOrigin(cfg, s, id, i);
    case _ =>
  }

  lemma RunOrigin(cfg: Config, s: State, args: Args, id: nat, i: nat)
    requires Inv(cfg, s) && Enabled(cfg, s, Run(args, id)) && cfg.NoneFrozen()
    requires i < |Next(cfg, s, Run(args, id)).pending|
    ensures var t := Next(cfg, s, Run(args, id));
      var e := t.pending[i];
      if i == FirstMatch(cfg, s.pending, args) then e == Entry(id, args)
      else i < |s.pending| && e == s.pending[i] && e.id != id && e.id in s.sources
           && t.sources[e.id] == s.sources[e.id] && !cfg.SameKey(args, e.args)
  {
    var k := FirstMatch(cfg, s.pending, args);
    if i == k {
      if k < |s.pending| { AssignIsLatest(cfg, s.pending[k].args, args); }
    } else {
      NewIdIsUnused(cfg, s, args, id, i);
      OtherKey(cfg, s, args, i);
      assert s.pending[i] in s.pending;
      if k < |s.pending| {
        assert if i < k then Apart(cfg, s.pending[i], s.pending[k]) else Apart(cfg, s.pending[k], s.pending[i]);
      }
      hide Config.SameKey, FirstMatch;
    }
  }

  /** Only the entry that a run replaces has its key. */
  lemma OtherKey(cfg: Config, s: State, args: Args, i: nat)
    requires Inv(cfg, s) && |args| == |cfg.keys| && i < |s.pending| && i != FirstMatch(cfg, s.pending, args)
    ensures !cfg.SameKey(args, s.pending[i].args)
  {
    var k, d := FirstMatch(cfg, s.pending, args), s.pending[i].args;
    AssignKeepsKey(cfg, args, args, d);
    if k < i {
      assert Apart(cfg, s.pending[k], s.pending[i]);
      AssignKeepsKey(cfg, s.pending[k].args, args, d);
    }
  }

  lemma FireOrigin(cfg: Config, s: State, id: nat, i: nat)
    requires Inv(cfg, s) && Enabled(cfg, s, Fire(id)) && i < |Next(cfg, s, Fire(id)).pending|
    ensures var t := Next(cfg, s, Fire(id));
      var e := t.pending[i];
      e in s.pending && e.id in s.sources && e.id != id && t.sources[e.id] == s.sources[e.id]
  {
    TimerFindsItsEntry(cfg, s, id);
    var k := FirstWithId(s.pending, id);
    assert Next(cfg, s, Fire(id)).pending[i] == s.pending[if i < k then i else i + 1];
  }

  /** `e` stems from the j-th step, the latest run for its key, and is due a delay after it. */
  ghost predicate Origin(cfg: Config, tr: seq<Step>, e: Entry, j: nat)
    requires Trace(cfg, tr)
  {
    && |e.args| == |cfg.keys| && LatestRun(cfg, tr, e.args, j) && NotCleared(tr, j) && Trace(cfg, tr[..j])
    && e.id in After(cfg, tr).value.sources
    && After(cfg, tr).value.sources[e.id] == Timer(Now(cfg, tr[..j]) + cfg.delay)
  }

  lemma OriginStays(cfg: Config, tr: seq<Step>, e: Entry, j: nat)
    requires Trace(cfg, tr) && tr != [] && Trace(cfg, tr[..|tr| - 1]) && Origin(cfg, tr[..|tr| - 1], e, j)
    requires var step := tr[|tr| - 1]; !step.Force? && !step.Unregister?
    requires var step := tr[|tr| - 1]; step.Run? ==> |step.args| == |cfg.keys| && !cfg.SameKey(step.args, e.args)
    requires var (s, t) := (After(cfg, tr[..|tr| - 1]).value, After(cfg, tr).value);
      e.id in t.sources && t.sources[e.id] == s.sources[e.id]
    ensures Origin(cfg, tr, e, j)
  {
    var init, step := tr[..|tr| - 1], tr[|tr| - 1];
    assert init[..j] == tr[..j] && init + [step] == tr;
    hide After;
    StaysLatest(cfg, init, step, e.args, j);
  }

  /** A pending entry holds the arguments of the latest run for its key, due a delay after that run. */
  lemma {:induction false} PendingIsLatest(cfg: Config, tr: seq<Step>, e: Entry) returns (j: nat)
    requires Trace(cfg, tr) && cfg.NoneFrozen() && e in After(cfg, tr).value.pending
    ensures Origin(cfg, tr, e, j)
  {
    PrefixIsTrace(cfg, tr);
    var n := |tr| - 1;
    var init, step := tr[..n], tr[n];
    AlwaysInv(cfg, init);
    StepOrigin(cfg, After(cfg, init).value, step, e);
    if step.Run? && step.id == e.id {
      j := n;
    } else {
      j := PendingIsLatest(cfg, init, e);
      OriginStays(cfg, tr, e, j);
    }
  }

  lemma StaysLatest(cfg: Config, tr: seq<Step>, step: Step, args: Args, j: nat)
    requires |args| == |cfg.keys| && LatestRun(cfg, tr, args, j) && NotCleared(tr, j)
    requires !step.Force? && !step.Unregister?
    requires step.Run? ==> |step.args| == |args| && !cfg.SameKey(step.args, args)
    ensures LatestRun(cfg, tr + [step], args, j) && NotCleared(tr + [step], j)
  {
  }

  /** What an expiring timer delivers. */
  ghost function Delivered(cfg: Config, tr: seq<Step>, id: nat): Args
    requires Trace(cfg, tr) && Enabled(cfg, After(cfg, tr).value, Fire(id))
  {
    var s := After(cfg, tr).value;
    AlwaysInv(cfg, tr);
    FireKeepsInv(cfg, s, id);
    s.pending[FirstWithId(s.pending, id)].args
  }

  /** The delivery is that of the latest run for its key, not cleared since, at least a delay later. */
  ghost predicate Prompt(cfg: Config, tr: seq<Step>, id: nat, j: nat)
    requires Trace(cfg, tr) && Enabled(cfg, After(cfg, tr).value, Fire(id))
  {
    && j < |tr| && |Delivered(cfg, tr, id)| == |cfg.keys|
    && LatestRun(cfg, tr, Delivered(cfg, tr, id), j) && NotCleared(tr, j)
    && Trace(cfg, tr[..j]) && Now(cfg, tr) >= Now(cfg, tr[..j]) + cfg.delay
  }

  lemma DeliveryIsPrompt(cfg: Config, tr: seq<Step>, id: nat) returns (j: nat)
    requires Trace(cfg, tr) && Enabled(cfg, After(cfg, tr).value, Fire(id)) && cfg.NoneFrozen()
    ensures Prompt(cfg, tr, id, j)
  {
    var s := After(cfg, tr).value;
    AlwaysInv(cfg, tr);
    FireKeepsInv(cfg, s, id);
    var e := s.pending[FirstWithId(s.pending, id)];
    j := PendingIsLatest(cfg, tr, e);
  }

  ghost predicate AlwaysPrompt(cfg: Config) {
    forall tr, id :: Trace(cfg, tr) && Enabled(cfg, After(cfg, tr).value, Fire(id)) ==>
      exists j :: Prompt(cfg, tr, id, j)
  }

  /** Two runs that differ in a frozen parameter only: the timer delivers the first value, not the latest. */
  lemma FrozenIsStale(cfg: Config, i: nat) returns (tr: seq<Step>, id: nat)
    requires i < |cfg.keys| && cfg.keys[i] == Some(false)
    ensures Trace(cfg, tr) && Enabled(cfg, After(cfg, tr).value, Fire(id))
    ensures forall j :: !Prompt(cfg, tr, id, j)
  {
    var a: Args := seq(|cfg.keys|, _ => 0);
    var b := a[i := 1];
    tr, id := [Run(a, 1), Run(b, 2), Tick(cfg.delay)], 2;
    assert cfg.Assign(a, b) == a;
    TwoRuns(cfg, a, b);
    assert tr[1] == Run(b, 2) && cfg.SameKey(b, a) && b[i] != a[i];
    hide After, Next, FirstWithId, FirstMatch;
    forall j ensures !Prompt(cfg, tr, id, j) { }
  }

  /** Two runs whose arguments are assigned nowhere: what waits are still the first arguments. */
  lemma TwoRuns(cfg: Config, a: Args, b: Args)
    requires |a| == |b| == |cfg.keys| && cfg.SameKey(a, b) && cfg.Assign(a, b) == a
    ensures var tr := [Run(a, 1), Run(b, 2), Tick(cfg.delay)];
      && After(cfg, tr) == Some(State([Entry(2, a)], map[2 := Timer(cfg.delay)], cfg.delay))
      && Enabled(cfg, After(cfg, tr).value, Fire(2)) && Delivered(cfg, tr, 2) == a
  {
    var tr := [Run(a, 1), Run(b, 2), Tick(cfg.delay)];
    var s1 := State([Entry(1, a)], map[1 := Timer(cfg.delay)], 0);
    var s2 := State([Entry(2, a)], map[2 := Timer(cfg.delay)], 0);
    hide Config.Assign, Config.SameKey;
    assert tr[..2] == [Run(a, 1), Run(b, 2)] && tr[..2][..1] == [Run(a, 1)] && [Run(a, 1)][..0] == [];
    assert After(cfg, []) == Some(START);
    assert Next(cfg, START, Run(a, 1)) == s1;
    assert After(cfg, [Run(a, 1)]) == Some(s1);
    assert FirstMatch(cfg, s1.pending, b) == 0;
    assert s1.sources - {1} == map[] && s1.pending[0 := Entry(2, a)] == s2.pending;
    assert Next(cfg, s1, Run(b, 2)) == s2;
    assert After(cfg, [Run(a, 1), Run(b, 2)]) == Some(s2);
    assert FirstWithId(s2.pending, 2) == 0;
  }

  /**
   Every delivery by a timer carries the arguments of the latest run for its key, and comes no
   earlier than the delay after that run, if and only if no parameter is frozen.
   */
  lemma PromptUnlessFrozen(cfg: Config)
    ensures AlwaysPrompt(cfg) <==> cfg.NoneFrozen()
  {
    if cfg.NoneFrozen() {
      forall tr, id | Trace(cfg, tr) && Enabled(cfg, After(cfg, tr).value, Fire(id))
        ensures exists j :: Prompt(cfg, tr, id, j)
      {
        var j := DeliveryIsPrompt(cfg, tr, id);
      }
    } else {
      var i :| 0 <= i < |cfg.keys| && cfg.keys[i] == Some(false);
      var tr, id := FrozenIsStale(cfg, i);
    }
  }

  // ----- conservation

  datatype Tally = Tally(enqueued: nat, delivered: nat, superseded: nat, cancelled: nat)

  /** What has become of the runs that reached the queue. */
  ghost function TallyOf(cfg: Config, tr: seq<Step>): Tally
    requires Trace(cfg, tr)
  {
    if tr == [] then Tally(0, 0, 0, 0)
    else
      var init := tr[..|tr| - 1];
      var s, t := After(cfg, init).value, TallyOf(cfg, init);
      match tr[|tr| - 1]
      case Run(args, _) =>
        var replaced := if FirstMatch(cfg, s.pending, args) < |s.pending| then 1 else 0;
        t.(enqueued := t.enqueued + 1, superseded := t.superseded + replaced)
      case Fire(id) => t.(delivered := t.delivered + if FirstWithId(s.pending, id) < |s.pending| then 1 else 0)
      case Force => t.(cancelled := t.cancelled + |s.pending|)
      case Unregister => t.(cancelled := t.cancelled + |s.pending|)
      case _ => t
  }

  ghost function Fires(tr: seq<Step>): nat {
    if tr == [] then 0 else Fires(tr[..|tr| - 1]) + if tr[|tr| - 1].Fire? then 1 else 0
  }

  /** No run is lost: each is delivered, superseded, cancelled or pending; and each expiry delivers one. */
  lemma {:induction false} RunsAreConserved(cfg: Config, tr: seq<Step>)
    requires Trace(cfg, tr)
    ensures var t := TallyOf(cfg, tr);
      && t.enqueued == t.delivered + t.superseded + t.cancelled + |After(cfg, tr).value.pending|
      && t.delivered == Fires(tr)
  {
    if tr != [] {
      PrefixIsTrace(cfg, tr);
      var init := tr[..|tr| - 1];
      RunsAreConserved(cfg, init);
      AlwaysInv(cfg, init);
      if tr[|tr| - 1].Fire? { FireKeepsInv(cfg, After(cfg, init).value, tr[|tr| - 1].id); }
      hide Inv;
    }
  }
}
