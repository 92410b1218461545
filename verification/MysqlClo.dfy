/** The MySQL output daemon: a dequeuing thread fills a bounded batch, and a flush thread
    commits what it finds there in one transaction and settles it with BP. */
module MysqlClo {
  import opened Options

  /** A bundle, known by how many were buffered before it. */
  datatype Item = Item(serial: nat, payload: seq<int>)

  datatype Settled = Settled(item: Item, success: bool)

  /** The dequeuing thread: it has nothing, waits with a bundle for room, or has finished. */
  datatype Producer = Dequeuing | Holding(payload: seq<int>) | Finished

  /** The flush thread, between the points where the mutex changes hands. */
  datatype Flusher =
    | Top                                                    // at the head of its loop
    | Filling                                                // letting a partial batch fill
    | Inserting(snapshot: seq<Item>)                         // connecting and inserting, unlocked
    | Settling(snapshot: seq<Item>, done: nat, ok: bool)     // telling BP
    | Exited

  datatype State = State(items: seq<Item>, running: bool, producer: Producer, flusher: Flusher,
                         buffered: seq<Item>,    // everything ever put into the batch
                         settled: seq<Settled>,  // what BP has been told, in order
                         stored: seq<Item>)      // what the database has committed

  const INITIAL := State([], true, Dequeuing, Top, [], [], [])

  datatype Config = Config(batch: nat, flushMs: nat)

  datatype Action =
    | Dequeue(payload: seq<int>) | Put | Finish
    | Look(timedOut: bool)                   // the flush thread wakes, or looks at the batch
    | Insert(ok: bool, committed: bool)      // what insertBatch reports, and what it did
    | Settle

  function Snapshot(s: State): State { s.(items := [], flusher := Inserting(s.items)) }

  /** The flush thread at the head of its loop, with the mutex. */
  function AtTop(cfg: Config, s: State): State {
    if !s.running && s.items == [] then s.(flusher := Exited)
    else if s.items == [] then s
    else if |s.items| < cfg.batch && s.running && cfg.flushMs > 0 then s.(flusher := Filling)
    else Snapshot(s)
  }

  function Apply(cfg: Config, s: State, a: Action): Option<State> {
    match a
    case Dequeue(payload) =>
      if s.producer.Dequeuing? then Some(s.(producer := Holding(payload))) else None
    case Put =>
      if !s.producer.Holding? || (|s.items| == cfg.batch && s.running) then None
      else
        var x := Item(|s.buffered|, s.producer.payload);
        Some(s.(items := s.items + [x], buffered := s.buffered + [x], producer := Dequeuing))
    case Finish =>
      if s.producer.Dequeuing? then Some(s.(producer := Finished, running := false)) else None
    case Look(timedOut) =>
      if s.flusher.Top? then Some(AtTop(cfg, s))
      else if s.flusher.Filling? then
        if timedOut || |s.items| >= cfg.batch || !s.running then Some(Snapshot(s)) else Some(s)
      else None
    case Insert(ok, committed) =>
      if !s.flusher.Inserting? || (ok && !committed) then None
      else Some(s.(stored := if committed then s.stored + s.flusher.snapshot else s.stored,
                   flusher := Settling(s.flusher.snapshot, 0, ok)))
    case Settle =>
      if !s.flusher.Settling? then None
      else
        var f := s.flusher;
        if f.done >= |f.snapshot| then Some(s.(flusher := Top))
        else Some(s.(settled := s.settled + [Settled(f.snapshot[f.done], f.ok)], flusher := f.(done := f.done + 1)))
  }

  function Run(cfg: Config, actions: seq<Action>): Option<State> {
    if actions == [] then Some(INITIAL)
    else
      var before := Run(cfg, actions[..|actions| - 1]);
      if before.None? then None else Apply(cfg, before.value, actions[|actions| - 1])
  }

  // ---- What every run keeps ------------------------------------------------------------------------

  /** What the flush thread has taken and not settled yet. */
  function InHand(s: State): seq<Item> {
    match s.flusher
    case Inserting(snapshot) => snapshot
    case Settling(snapshot, done, _) => if done <= |snapshot| then snapshot[done..] else []
    case _ => []
  }

  function ItemsOf(settled: seq<Settled>): seq<Item> {
    seq(|settled|, k requires 0 <= k < |settled| => settled[k].item)
  }

  /** Every bundle put into the batch is settled, in the flush thread's hands, or in the batch:
      in the order in which they came. */
  predicate Fifo(s: State) {
    ItemsOf(s.settled) + InHand(s) + s.items == s.buffered
  }

  predicate Honest(s: State) {
    && (forall k :: 0 <= k < |s.settled| && s.settled[k].success ==> s.settled[k].item in s.stored)
    && (s.flusher.Settling? ==> s.flusher.done <= |s.flusher.snapshot|)
    && (s.flusher.Settling? && s.flusher.ok ==> forall x :: x in s.flusher.snapshot ==> x in s.stored)
  }

  predicate Bounded(cfg: Config, s: State) {
    && |s.items| <= cfg.batch && |InHand(s)| <= cfg.batch
    && (s.flusher.Filling? ==> s.items != [])
    && (s.running <==> !s.producer.Finished?)
    && (s.flusher.Exited? ==> !s.running && s.items == [])
  }

  predicate Numbered(s: State) { forall k :: 0 <= k < |s.buffered| ==> s.buffered[k].serial == k }

  predicate Inv(cfg: Config, s: State) {
    Fifo(s) && Honest(s) && Bounded(cfg, s) && Numbered(s)
  }

  lemma FifoKept(cfg: Config, s: State, a: Action)
    requires Inv(cfg, s) && Apply(cfg, s, a).Some?
    ensures Fifo(Apply(cfg, s, a).value)
  {
    hide Numbered;
    var t := Apply(cfg, s, a).value;
    match a
    case Put =>
      assert ItemsOf(t.settled) + InHand(t) + t.items
             == ItemsOf(s.settled) + InHand(s) + s.items + [t.buffered[|s.buffered|]];
    case Look(_) =>
      assert t.flusher.Inserting? ==> ItemsOf(s.settled) + s.items + [] == ItemsOf(s.settled) + [] + s.items;
    case Insert(_, _) =>
      assert t.flusher.snapshot[0..] == s.flusher.snapshot;
    case Settle =>
      SettleKeeps(s, t);
    case _ =>
  }

  lemma SettleKeeps(s: State, t: State)
    requires Fifo(s) && s.flusher.Settling? && s.flusher.done <= |s.flusher.snapshot|
    requires var f := s.flusher;
             t == if f.done >= |f.snapshot| then s.(flusher := Top)
                  else s.(settled := s.settled + [Settled(f.snapshot[f.done], f.ok)], flusher := f.(done := f.done + 1))
    ensures Fifo(t)
  {
    var f := s.flusher;
    if f.done < |f.snapshot| {
      var x := f.snapshot[f.done];
      assert ItemsOf(t.settled) == ItemsOf(s.settled) + [x];
      assert InHand(s) == [x] + InHand(t);
      assert ItemsOf(s.settled) + [x] + InHand(t) == ItemsOf(s.settled) + ([x] + InHand(t));
    }
  }

  lemma StepKeeps(cfg: Config, s: State, a: Action)
    requires Inv(cfg, s) && Apply(cfg, s, a).Some?
    ensures Inv(cfg, Apply(cfg, s, a).value)
  {
    FifoKept(cfg, s, a);
    var t := Apply(cfg, s, a).value;
    hide Fifo;
    assert s.stored <= t.stored;
    assert forall x :: x in s.stored ==> x in t.stored;
  }

  lemma {:induction false} Always(cfg: Config, actions: seq<Action>)
    requires Run(cfg, actions).Some?
    ensures Inv(cfg, Run(cfg, actions).value)
  {
    if actions != [] {
      var front := actions[..|actions| - 1];
      Always(cfg, front);
      StepKeeps(cfg, Run(cfg, front).value, actions[|actions| - 1]);
    }
  }

  /** Under every interleaving the batch never exceeds its size, and what has been settled is
      exactly the first bundles that were buffered, each once, in order; success is reported
      only for what the database has committed. */
  lemma SettledInOrder(cfg: Config, actions: seq<Action>)
    requires Run(cfg, actions).Some?
    ensures var s := Run(cfg, actions).value;
            && |s.items| <= cfg.batch
            && |s.settled| <= |s.buffered|
            && (forall k :: 0 <= k < |s.settled| ==>
                  s.settled[k].item == s.buffered[k] && s.settled[k].item.serial == k)
            && (forall k :: 0 <= k < |s.settled| && s.settled[k].success ==> s.settled[k].item in s.stored)
  {
    Always(cfg, actions);
    var s := Run(cfg, actions).value;
    assert s.buffered == ItemsOf(s.settled) + (InHand(s) + s.items);
    forall k | 0 <= k < |s.settled| ensures s.settled[k].item == s.buffered[k] {
      assert s.buffered[k] == ItemsOf(s.settled)[k];
    }
  }

  /** What the transactions of a run said of the bundles they were for, one after another. */
  function Verdicts(cfg: Config, actions: seq<Action>): seq<Settled> {
    if actions == [] then []
    else
      var front, a := actions[..|actions| - 1], actions[|actions| - 1];
      var s := Run(cfg, front);
      Verdicts(cfg, front)
      + if a.Insert? && s.Some? && s.value.flusher.Inserting? then Judged(s.value.flusher.snapshot, a.ok) else []
  }

  function Judged(items: seq<Item>, ok: bool): seq<Settled> {
    seq(|items|, k requires 0 <= k < |items| => Settled(items[k], ok))
  }

  /** The verdicts that BP has not been told yet. */
  function Untold(s: State): seq<Settled> {
    match s.flusher
    case Settling(snapshot, done, ok) => if done <= |snapshot| then Judged(snapshot[done..], ok) else []
    case _ => []
  }

  /** In every run BP is told of each bundle what its own transaction said, no more and no less:
      success if insertBatch succeeded, failure if it did not. */
  lemma {:induction false} ToldAsInserted(cfg: Config, actions: seq<Action>)
    requires Run(cfg, actions).Some?
    ensures var s := Run(cfg, actions).value; s.settled + Untold(s) == Verdicts(cfg, actions)
  {
    if actions != [] {
      var front, a := actions[..|actions| - 1], actions[|actions| - 1];
      ToldAsInserted(cfg, front);
      Always(cfg, front);
      TellOne(cfg, Run(cfg, front).value, a);
    }
  }

  lemma TellOne(cfg: Config, s: State, a: Action)
    requires Honest(s) && Apply(cfg, s, a).Some?
    ensures var t := Apply(cfg, s, a).value;
            t.settled + Untold(t)
            == s.settled + Untold(s)
               + if a.Insert? && s.flusher.Inserting? then Judged(s.flusher.snapshot, a.ok) else []
  {
    hide Judged;
    if a.Insert? {
      assert s.flusher.snapshot[0..] == s.flusher.snapshot;
    } else if a.Settle? {
      TellNext(s, Apply(cfg, s, a).value);
    } else {
      assert Untold(Apply(cfg, s, a).value) == Untold(s);
    }
  }

  /** BP is told of one bundle. */
  lemma TellNext(s: State, t: State)
    requires Honest(s) && s.flusher.Settling?
    requires var f := s.flusher;
             t == if f.done >= |f.snapshot| then s.(flusher := Top)
                  else s.(settled := s.settled + [Settled(f.snapshot[f.done], f.ok)], flusher := f.(done := f.done + 1))
    ensures t.settled + Untold(t) == s.settled + Untold(s)
  {
    var f := s.flusher;
    if f.done < |f.snapshot| {
      JudgedFirst(f.snapshot[f.done..], f.ok);
      TailOfTail(f.snapshot, f.done);
      hide Judged;
      assert Untold(s) == [Settled(f.snapshot[f.done], f.ok)] + Untold(t);
    } else {
      assert Untold(s) == [];
    }
  }

  lemma TailOfTail<T>(s: seq<T>, i: nat)
    requires i < |s|
    ensures s[i..][0] == s[i] && s[i..][1..] == s[i + 1..]
  {}

  lemma JudgedFirst(items: seq<Item>, ok: bool)
    requires items != []
    ensures Judged(items, ok) == [Settled(items[0], ok)] + Judged(items[1..], ok)
  {}

  /** In every run a bundle waits for room only while the batch is full and the daemon runs, and
      the flush thread, when it looks, takes all of a batch that is full or the last one. */
  lemma FullIsTaken(cfg: Config, actions: seq<Action>, timedOut: bool)
    requires cfg.batch > 0 && Run(cfg, actions).Some?
    ensures var s := Run(cfg, actions).value;
            && (s.producer.Holding? ==> (Apply(cfg, s, Put) == None <==> |s.items| == cfg.batch))
            && ((s.flusher.Top? || s.flusher.Filling?) && (|s.items| == cfg.batch || (!s.running && s.items != [])) ==>
                  Apply(cfg, s, Look(timedOut)) == Some(s.(items := [], flusher := Inserting(s.items))))
            && (s.flusher.Filling? ==> cfg.flushMs > 0 && 0 < |s.items|)
  {
    Always(cfg, actions);
    AlwaysTimed(cfg, actions);
  }

  lemma {:induction false} AlwaysTimed(cfg: Config, actions: seq<Action>)
    requires Run(cfg, actions).Some?
    ensures Run(cfg, actions).value.flusher.Filling? ==> cfg.flushMs > 0
  {
    if actions != [] {
      AlwaysTimed(cfg, actions[..|actions| - 1]);
    }
  }

  /** When the flush thread has ended, nothing is left, and nothing more can come. */
  lemma NoneRemain(cfg: Config, actions: seq<Action>)
    requires Run(cfg, actions).Some? && Run(cfg, actions).value.flusher.Exited?
    ensures var s := Run(cfg, actions).value;
            && s.producer.Finished? && s.items == [] && |s.settled| == |s.buffered|
            && forall a :: Apply(cfg, s, a) == None
  {
    Always(cfg, actions);
    var s := Run(cfg, actions).value;
    assert |ItemsOf(s.settled)| == |s.settled|;
  }

  /** Nothing that the two threads can do by themselves changes anything. */
  ghost predicate AtRest(cfg: Config, s: State) {
    forall a: Action :: a.Put? || a.Look? || a.Insert? || a.Settle? ==>
      Apply(cfg, s, a) == None || Apply(cfg, s, a) == Some(s)
  }

  /** No deadlock: in every run one of the threads can go on, unless the flush thread has ended
      or both wait for BP to have a bundle. */
  lemma NoDeadlock(cfg: Config, actions: seq<Action>)
    requires cfg.batch > 0 && Run(cfg, actions).Some?
    ensures var s := Run(cfg, actions).value;
            AtRest(cfg, s) <==> s.flusher.Exited? || (s.flusher.Top? && s.items == [] && s.producer.Dequeuing?)
  {
    Always(cfg, actions);
    var s := Run(cfg, actions).value;
    hide Fifo, Honest, Numbered, Run;
    Moves(cfg, s);
    if s.flusher.Exited? || (s.flusher.Top? && s.items == [] && s.producer.Dequeuing?) {
      assert AtRest(cfg, s);
    }
  }

  /** The step that moves things on, where there is one. */
  lemma Moves(cfg: Config, s: State)
    requires cfg.batch > 0 && Bounded(cfg, s)
    ensures s.flusher.Filling? ==> Apply(cfg, s, Look(true)) == Some(Snapshot(s)) != Some(s)
    ensures s.flusher.Inserting? ==>
              Apply(cfg, s, Insert(false, false)).Some? && Apply(cfg, s, Insert(false, false)) != Some(s)
    ensures s.flusher.Settling? ==> Apply(cfg, s, Settle).Some? && Apply(cfg, s, Settle) != Some(s)
    ensures s.flusher.Top? && (s.items != [] || !s.running) ==>
              Apply(cfg, s, Look(false)).Some? && Apply(cfg, s, Look(false)) != Some(s)
    ensures s.producer.Holding? && s.items == [] ==> Apply(cfg, s, Put).Some? && Apply(cfg, s, Put) != Some(s)
  {}

  // ---- The monitor -----------------------------------------------------------------------------------

  /** The batch as the two threads share it, under its mutex. */
  class CloState {
    const batch: nat
    const items: array<Item>
    var count: nat
    var running: bool

    ghost predicate Valid()
      reads this
    {
      items.Length == batch && count <= batch
    }

    ghost function Batch(): seq<Item>
      requires Valid()
      reads this, items
    {
      items[..count]
    }

    constructor (batch: nat)
      ensures Valid() && this.batch == batch && Batch() == [] && running && fresh(items)
    {
      this.batch := batch;
      items := new Item[batch](_ => Item(0, []));
      count, running := 0, true;
    }

    /** The dequeuing thread's section, once its wait is over. */
    method Put(item: Item, ghost cfg: Config, ghost s: State)
      requires Valid() && cfg.batch == batch && s.items == Batch() && s.running == running && Inv(cfg, s)
      requires s.producer.Holding? && item == Item(|s.buffered|, s.producer.payload)
      requires !(count == batch && running)
      modifies this`count, items
      ensures Valid() && Apply(cfg, s, Action.Put).Some? && Batch() == Apply(cfg, s, Action.Put).value.items
      ensures running == Apply(cfg, s, Action.Put).value.running
    {
      items[count] := item;
      count := count + 1;
      assert items[..count] == s.items + [item];
    }

    /** The flush thread takes everything there is. */
    method TakeAll(ghost s: State) returns (snapshot: seq<Item>)
      requires Valid() && s.items == Batch()
      modifies this`count
      ensures Valid() && Snapshot(s).flusher == Inserting(snapshot) && Batch() == Snapshot(s).items
    {
      snapshot := items[..count];
      count := 0;
    }

    /** What the flush thread does at the head of its loop. */
    method Decide(flushMs: nat, ghost s: State) returns (next: Flusher)
      requires Valid() && s.items == Batch() && s.running == running && s.flusher.Top?
      modifies this`count
      ensures Valid()
      ensures var t := AtTop(Config(batch, flushMs), s); next == t.flusher && Batch() == t.items
    {
      if !running && count == 0 {
        return Exited;
      }
      if count == 0 {
        return Top;
      }
      if count < batch && running && flushMs > 0 {
        return Filling;
      }
      var snapshot := TakeAll(s);
      next := Inserting(snapshot);
    }
  }

  // ---- One transaction -------------------------------------------------------------------------------

  /** What the server makes of a statement; a COMMIT may be carried out though the answer is lost. */
  datatype Answer = Done | Error(carriedOut: bool) {
    predicate CarriedOut() { Done? || carriedOut }
  }

  class Database {
    const answers: nat -> Answer
    var queries: nat
    var table: seq<Item>       // committed rows
    var pending: seq<Item>     // rows of the open transaction

    constructor (answers: nat -> Answer)
      ensures this.answers == answers && table == [] && pending == []
    {
      this.answers, queries, table, pending := answers, 0, [], [];
    }

    method Begin() returns (ok: bool)
      modifies this
      ensures queries == old(queries) + 1 && (ok <==> answers(old(queries)).Done?)
      ensures table == old(table) && (ok ==> pending == [])
    {
      ok := answers(queries).Done?;
      queries := queries + 1;
      pending := [];
    }

    method Row(x: Item) returns (ok: bool)
      modifies this
      ensures queries == old(queries) + 1 && (ok <==> answers(old(queries)).Done?)
      ensures table == old(table) && (ok ==> pending == old(pending) + [x])
    {
      ok := answers(queries).Done?;
      queries := queries + 1;
      if ok {
        pending := pending + [x];
      }
    }

    method Commit() returns (ok: bool)
      modifies this
      ensures queries == old(queries) + 1 && (ok <==> answers(old(queries)).Done?)
      ensures table == if answers(old(queries)).CarriedOut() then old(table) + old(pending) else old(table)
    {
      var a := answers(queries);
      queries := queries + 1;
      if a.CarriedOut() {
        table, pending := table + pending, [];
      }
      ok := a.Done?;
    }

    method Rollback()
      modifies this
      ensures table == old(table) && pending == []
    {
      queries := queries + 1;
      pending := [];
    }

    /** The server accepts n statements from the k-th on. */
    ghost predicate Accepts(k: nat, n: nat) { forall i :: k <= i < k + n ==> answers(i).Done? }

    /** insertBatch: it succeeds exactly when the server accepts all of its statements, and the
        batch is stored, whole, exactly when it accepts all but the COMMIT and carries that out. */
    method InsertBatch(items: seq<Item>) returns (ok: bool)
      modifies this
      ensures ok <==> Accepts(old(queries), |items| + 2)
      ensures table == if Accepts(old(queries), |items| + 1) && answers(old(queries) + |items| + 1).CarriedOut()
                       then old(table) + items else old(table)
      ensures ok ==> table == old(table) + items
    {
      ok := Begin();
      if !ok {
        return;
      }
      var i := 0;
      while i < |items|
        invariant i <= |items| && table == old(table) && pending == items[..i]
        invariant queries == old(queries) + 1 + i && Accepts(old(queries), 1 + i)
      {
        ok := Row(items[i]);
        if !ok {
          Rollback();
          return;
        }
        assert items[..i + 1] == items[..i] + [items[i]];
        i := i + 1;
      }
      assert items[..i] == items;
      ok := Commit();
      if !ok {
        Rollback();
      }
    }
  }
}
