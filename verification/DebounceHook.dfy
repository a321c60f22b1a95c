/**
 A debounced hook: its list of waiting parameter records, and the timers it keeps in the main loop.
 */
module DebounceHook {
  import opened DebounceProtocol

  /** The record a timer carries; it is updated in place while it waits. */
  class Params {
    var id: nat
    var args: Args

    constructor (args: Args)
      ensures this.args == args
    {
      this.id, this.args := 0, args;
    }
  }

  /** A source of the main loop: a timer with its record, or a source that is none of the hook's timers. */
  datatype LoopSource = Expiry(data: Params, due: nat) | Busy

  class MainLoop {
    var sources: map<nat, LoopSource>
    var now: nat

    /** Adds a timer under an id that no live source has. */
    method TimeoutAdd(delay: nat, data: Params) returns (id: nat)
      modifies `sources
      ensures id !in old(sources) && sources == old(sources)[id := Expiry(data, now + delay)]
    {
      ghost var bound := UpperBound(sources.Keys);
      id := 1;
      while id in sources
        invariant id <= bound + 1
        decreases bound + 1 - id
      {
        id := id + 1;
      }
      sources := sources[id := Expiry(data, now + delay)];
    }

    method Remove(id: nat)
      modifies `sources
      ensures sources == old(sources) - {id}
    {
      sources := sources - {id};
    }
  }

  lemma UpperBound(s: set<nat>) returns (n: nat)
    ensures forall m :: m in s ==> m <= n
  {
    n := 0;
    if s != {} {
      var x :| x in s;
      n := UpperBound(s - {x});
      assert forall m :: m in s ==> m == x || m in s - {x};
      n := if x > n then x else n;
    }
  }

  /** A call of the functions of a hook: those run at once, or those that wait. */
  datatype Call = Sync(args: Args) | Asynch(args: Args)

  ghost function SourceOf(s: LoopSource): Source {
    match s
    case Expiry(_, due) => Timer(due)
    case Busy => Other
  }

  lemma OthersStay(records: seq<Params>, c: nat, d: Params)
    requires c < |records| && d in records && d != records[c]
    ensures d in records[..c] + records[c + 1..]
  {
    var i :| 0 <= i < |records| && records[i] == d;
    assert (records[..c] + records[c + 1..])[if i < c then i else i - 1] == d;
  }

  lemma RefreshStep(cfg: Config, s: State, args: Args, id: nat)
    requires Inv(cfg, s) && |args| == |cfg.keys| && FirstMatch(cfg, s.pending, args) < |s.pending|
    requires id !in s.sources.Keys - {s.pending[FirstMatch(cfg, s.pending, args)].id}
    ensures Enabled(cfg, s, Run(args, id)) && Inv(cfg, Next(cfg, s, Run(args, id)))
    ensures |s.pending[FirstMatch(cfg, s.pending, args)].args| == |cfg.keys|
    ensures Next(cfg, s, Run(args, id)) == Refreshed(cfg, s, FirstMatch(cfg, s.pending, args), args, id)
  {
    StepKeepsInv(cfg, s, Run(args, id));
  }

  lemma AppendStep(cfg: Config, s: State, args: Args, id: nat)
    requires Inv(cfg, s) && |args| == |cfg.keys| && FirstMatch(cfg, s.pending, args) == |s.pending|
    requires id !in s.sources
    ensures Enabled(cfg, s, Run(args, id)) && Inv(cfg, Next(cfg, s, Run(args, id)))
    ensures Next(cfg, s, Run(args, id)) == Appended(cfg, s, args, id)
  {
    StepKeepsInv(cfg, s, Run(args, id));
  }

  lemma FireStep(cfg: Config, s: State, id: nat)
    requires Inv(cfg, s) && Enabled(cfg, s, Fire(id))
    ensures Inv(cfg, Next(cfg, s, Fire(id)))
    ensures var k := FirstWithId(s.pending, id);
      && k < |s.pending| && (forall j :: 0 <= j < |s.pending| && s.pending[j].id == id ==> j == k)
      && Next(cfg, s, Fire(id)) == State(s.pending[..k] + s.pending[k + 1..], s.sources[id := Other], s.now)
  {
    FireIs(cfg, s, id);
    hide *;
    TimerFindsItsEntry(cfg, s, id);
    StepKeepsInv(cfg, s, Fire(id));
  }

  class Hook {
    const cfg: Config
    const loop: MainLoop
    var asynchData: seq<Params>
    var hasAsynch: bool

    /** The records and the main loop are in the state `s`. */
    ghost predicate Shows(s: State)
      reads `asynchData, loop, asynchData
    {
      s.now == loop.now && ShowsRecords(s.pending) && ShowsSources(s.sources)
    }

    ghost predicate ShowsRecords(pending: seq<Entry>)
      reads `asynchData, asynchData
    {
      && |pending| == |asynchData|
      && (forall i, j :: 0 <= i < j < |asynchData| ==> asynchData[i] != asynchData[j])
      && forall i :: 0 <= i < |asynchData| ==> pending[i] == Entry(asynchData[i].id, asynchData[i].args)
    }

    /** Every timer carries a waiting record. */
    ghost predicate ShowsSources(sources: map<nat, Source>)
      reads `asynchData, loop, asynchData
    {
      && sources.Keys == loop.sources.Keys
      && (forall id :: id in loop.sources ==> sources[id] == SourceOf(loop.sources[id]))
      && forall id :: id in loop.sources && loop.sources[id].Expiry? ==>
           loop.sources[id].data in asynchData && loop.sources[id].data.id == id
    }

    ghost predicate Valid(s: State)
      reads `asynchData, loop, asynchData
    {
      Inv(cfg, s) && Shows(s)
    }

    constructor (cfg: Config, loop: MainLoop)
      requires forall id :: id in loop.sources ==> loop.sources[id].Busy?
      ensures asynchData == [] && this.cfg == cfg && this.loop == loop && !hasAsynch
      ensures Valid(State([], map id | id in loop.sources :: Other, loop.now))
    {
      this.cfg, this.loop, asynchData, hasAsynch := cfg, loop, [], false;
    }

    /** The position of the first waiting record for the key of `args`, or the number of records. */
    method FindRecord(ghost s: State, args: Args) returns (k: nat)
      requires Valid(s) && |args| == |cfg.keys|
      ensures k == FirstMatch(cfg, s.pending, args) <= |asynchData| == |s.pending|
    {
      k := 0;
      assert forall i :: 0 <= i < |asynchData| ==> s.pending[i] in s.pending;
      assert Shaped(cfg, s);
      hide Inv;
      while k < |asynchData| && !cfg.SameKey(asynchData[k].args, args)
        invariant k <= |asynchData|
        invariant forall j :: 0 <= j < k ==> !cfg.SameKey(s.pending[j].args, args)
      {
        k := k + 1;
      }
    }

    /**
     The part of a run that follows the synchronous call: the waiting record for the key is
     given the new arguments and a new timer, or a new record starts to wait.
     */
    method Enqueue(ghost s: State, args: Args) returns (ghost t: State, ghost id: nat)
      requires Valid(s) && |args| == |cfg.keys|
      modifies `asynchData, loop`sources, asynchData
      ensures Inv(cfg, t) && Shows(t)
      ensures !hasAsynch ==> t == s
      ensures hasAsynch ==> Enabled(cfg, s, Run(args, id)) && t == Next(cfg, s, Run(args, id))
      ensures hasAsynch ==>
        (asynchData == old(asynchData)
         <==> exists i :: 0 <= i < |s.pending| && KeysAgree(cfg, s.pending[i].args, args))
    {
      t, id := s, 0;
      if !hasAsynch { return; }
      var k := FindRecord(s, args);
      hide *;
      if k < |asynchData| {
        var timer := Refresh(s, k, args);
        id := timer;
        RefreshStep(cfg, s, args, id);
        t := Next(cfg, s, Run(args, id));
      } else {
        var timer := Append(s, args);
        id := timer;
        AppendStep(cfg, s, args, id);
        t := Next(cfg, s, Run(args, id));
      }
    }

    /** The source of the record's timer is replaced, and the record holds the new arguments. */
    method Restart(ghost s: State, k: nat, args: Args) returns (id: nat)
      requires Shows(s) && k < |s.pending| && |s.pending[k].args| == |args| == |cfg.keys|
      modifies loop`sources, asynchData[k]
      ensures id !in old(loop.sources).Keys - {s.pending[k].id}
      ensures loop.sources
           == (old(loop.sources) - {s.pending[k].id})[id := Expiry(asynchData[k], loop.now + cfg.delay)]
      ensures ShowsRecords(s.pending[k := Entry(id, cfg.Assign(s.pending[k].args, args))])
    {
      var data := asynchData[k];
      hide Config.Assign;
      loop.Remove(data.id);
      data.args := cfg.Assign(data.args, args);
      id := loop.TimeoutAdd(cfg.delay, data);
      data.id := id;
    }

    /** Gives the k-th record the arguments and a new timer, in place. */
    method Refresh(ghost s: State, k: nat, args: Args) returns (id: nat)
      requires Inv(cfg, s) && Shows(s) && |args| == |cfg.keys| && k < |s.pending|
      modifies loop`sources, asynchData
      ensures id !in s.sources.Keys - {s.pending[k].id}
      ensures |s.pending[k].args| == |cfg.keys| && Shows(Refreshed(cfg, s, k, args, id))
    {
      EntryIsShaped(s, k);
      hide Inv, Config.Assign, Config.SameKey, Refreshed;
      id := Restart(s, k, args);
      RefreshedIs(s, k, args, id);
      ghost var t := Refreshed(cfg, s, k, args, id);
      hide ShowsRecords;
      assert ShowsSources(t.sources);
    }

    lemma EntryIsShaped(s: State, k: nat)
      requires Inv(cfg, s) && k < |s.pending|
      ensures |s.pending[k].args| == |cfg.keys|
    {
      assert s.pending[k] in s.pending;
    }

    lemma RefreshedIs(s: State, k: nat, args: Args, id: nat)
      requires k < |s.pending| && |s.pending[k].args| == |args| == |cfg.keys|
      ensures var t := Refreshed(cfg, s, k, args, id);
        && t.pending == s.pending[k := Entry(id, cfg.Assign(s.pending[k].args, args))] && t.now == s.now
        && t.sources == (s.sources - {s.pending[k].id})[id := Timer(s.now + cfg.delay)]
    {
    }

    /** Adds a record that starts to wait. */
    method Append(ghost s: State, args: Args) returns (id: nat)
      requires Shows(s)
      modifies `asynchData, loop`sources
      ensures id !in s.sources
      ensures Shows(Appended(cfg, s, args, id))
    {
      var data := new Params(args);
      id := loop.TimeoutAdd(cfg.delay, data);
      data.id := id;
      asynchData := asynchData + [data];
    }

    /** The position of the record with the given id. */
    method FindId(ghost s: State, id: nat) returns (c: nat)
      requires Shows(s) && FirstWithId(s.pending, id) < |s.pending|
      ensures c == FirstWithId(s.pending, id) < |asynchData| && asynchData[c].id == id
    {
      c := 0;
      while asynchData[c].id != id
        invariant c <= FirstWithId(s.pending, id)
        decreases |asynchData| - c
      {
        c := c + 1;
      }
    }

    /**
     A timer expires. The record it carries is always still waiting; it is taken off the list
     and its arguments are delivered. The source stays busy until the callback is over.
     */
    method OnTimeout(ghost s: State, d: Params) returns (call: Call, ghost t: State)
      requires Valid(s) && d.id in loop.sources && loop.sources[d.id].Expiry?
      requires loop.sources[d.id].data == d && loop.sources[d.id].due <= loop.now
      modifies `asynchData, loop`sources
      ensures Enabled(cfg, s, Fire(d.id)) && t == Next(cfg, s, Fire(d.id)) && Valid(t)
      ensures d in old(asynchData) && d !in asynchData && call == Asynch(d.args)
    {
      assert Enabled(cfg, s, Fire(d.id));
      FireStep(cfg, s, d.id);
      var c := FindId(s, d.id);
      OwnRecord(s, d);
      t := Next(cfg, s, Fire(d.id));
      hide *;
      var data := asynchData[c];
      Drop(s, c, d.id);
      call := Asynch(data.args);
    }

    lemma OwnRecord(s: State, d: Params)
      requires Valid(s) && d.id in loop.sources && loop.sources[d.id].Expiry? && loop.sources[d.id].data == d
      ensures var c := FirstWithId(s.pending, d.id);
        && c < |asynchData| == |s.pending| && asynchData[c] == d
        && forall j :: 0 <= j < |asynchData| && asynchData[j].id == d.id ==> j == c
    {
      TimerFindsItsEntry(cfg, s, d.id);
      hide Inv;
      assert forall j :: 0 <= j < |asynchData| ==> s.pending[j].id == asynchData[j].id;
    }

    /** Takes the c-th record off the list while its timer's callback is about to run. */
    method Drop(ghost s: State, c: nat, id: nat)
      requires Shows(s) && c < |asynchData| == |s.pending| && asynchData[c].id == id && id in loop.sources
      requires forall j :: 0 <= j < |asynchData| && asynchData[j].id == id ==> j == c
      modifies `asynchData, loop`sources
      ensures old(asynchData[c]) in old(asynchData) && old(asynchData[c]) !in asynchData
      ensures Shows(State(s.pending[..c] + s.pending[c + 1..], s.sources[id := Other], s.now))
    {
      ghost var before := asynchData;
      asynchData := asynchData[..c] + asynchData[c + 1..];
      loop.sources := loop.sources[id := Busy];
      assert forall i :: 0 <= i < |asynchData| ==> asynchData[i] == before[if i < c then i else i + 1];
      forall x | x in loop.sources && loop.sources[x].Expiry? ensures loop.sources[x].data in asynchData {
        OthersStay(before, c, loop.sources[x].data);
      }
    }

    /** Removes the timers of all waiting records and forgets the records. */
    method ClearQueue(ghost s: State)
      requires Valid(s)
      modifies `asynchData, loop`sources
      ensures asynchData == [] && Enabled(cfg, s, Unregister) && Valid(Next(cfg, s, Unregister))
    {
      StepKeepsInv(cfg, s, Unregister);
      for i := 0 to |asynchData|
        invariant asynchData == old(asynchData) && loop.sources == old(loop.sources) - Ids(s.pending[..i])
      {
        loop.Remove(asynchData[i].id);
        assert s.pending[..i + 1] == s.pending[..i] + [s.pending[i]];
        assert Ids(s.pending[..i + 1]) == Ids(s.pending[..i]) + {asynchData[i].id};
      }
      assert s.pending[..|asynchData|] == s.pending;
      asynchData := [];
    }

    /** Drops what is waiting and calls all functions at once; does nothing when nothing waits. */
    method ForceDebounce(ghost s: State, args: Args) returns (calls: seq<Call>, ghost t: State)
      requires Valid(s)
      modifies `asynchData, loop`sources
      ensures asynchData == [] && Enabled(cfg, s, Force) && t == Next(cfg, s, Force) && Valid(t)
      ensures calls == if old(asynchData) == [] then [] else [Sync(args), Asynch(args)]
    {
      t := Next(cfg, s, Force);
      if asynchData == [] {
        assert s.sources - Ids([]) == s.sources && t == s;
        return [], t;
      }
      ClearQueue(s);
      assert t == Next(cfg, s, Unregister);
      calls := [Sync(args), Asynch(args)];
    }
  }
}
