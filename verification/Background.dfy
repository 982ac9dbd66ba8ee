/** Announcing background jobs: a job's completion and the call that records it as backgrounded may
    come in either order, and each is one critical section. */
module Background {
  import opened Order

  type Id = string

  const MAX_UNCLAIMED := 64

  datatype Event = Event(id: Id, summary: string)

  datatype Op = Add(id: Id) | Finish(event: Event)

  /** order holds the unclaimed completions oldest first, and claimed ones until they fall out. */
  datatype State = State(waiting: set<Id>, finished: map<Id, Event>, order: seq<Id>)

  const Initial := State({}, map[], [])

  // ---- One operation ----------------------------------------------------------------------------------

  function JobOf(op: Op): Id {
    if op.Add? then op.id else op.event.id
  }

  /** Whether the operation announces its job. */
  predicate Announces(s: State, op: Op) {
    if op.Add? then op.id in s.finished else op.event.id in s.waiting
  }

  function Keep(s: State): State
    decreases |s.order|
  {
    if |s.order| <= MAX_UNCLAIMED then s else Keep(State(s.waiting, s.finished - {s.order[0]}, s.order[1..]))
  }

  function Do(s: State, op: Op): State {
    match op
    case Add(id) =>
      if id in s.finished then s.(finished := s.finished - {id}) else s.(waiting := s.waiting + {id})
    case Finish(event) =>
      if event.id in s.waiting then s.(waiting := s.waiting - {event.id})
      else Keep(s.(finished := s.finished[event.id := event], order := s.order + [event.id]))
  }

  /** The state after a history of operations. */
  function Run(h: seq<Op>): State {
    if h == [] then Initial else Do(Run(h[..|h| - 1]), h[|h| - 1])
  }

  class BackgroundJobs {
    var waiting: set<Id>
    var finished: map<Id, Event>
    var order: seq<Id>
    ghost var history: seq<Op>

    constructor ()
      ensures Valid() && history == []
    {
      waiting, finished, order, history := {}, map[], [], [];
    }

    ghost predicate Valid()
      reads this
    {
      State(waiting, finished, order) == Run(history)
    }

    /** Records a job as backgrounded. Some is its completion, to be announced at once. */
    method Add(id: Id) returns (done: Option<Event>)
      requires Valid()
      modifies this
      ensures Valid() && history == old(history) + [Op.Add(id)]
      ensures done.Some? <==> Announces(Run(old(history)), Op.Add(id))
      ensures done.Some? ==> IsLastCompletion(old(history), id, done.value)
    {
      assert (history + [Op.Add(id)])[..|history|] == history;
      if id in finished {
        KeptIsLastCompletion(history, id);
      }
      history := history + [Op.Add(id)];
      if id in finished {
        done := Some(finished[id]);
        finished := finished - {id};
      } else {
        waiting := waiting + {id};
        done := None;
      }
    }

    /** Records a completion, and reports whether to announce it. */
    method Finish(event: Event) returns (announce: bool)
      requires Valid()
      modifies this
      ensures Valid() && history == old(history) + [Op.Finish(event)]
      ensures announce <==> Announces(Run(old(history)), Op.Finish(event))
    {
      assert (history + [Op.Finish(event)])[..|history|] == history;
      history := history + [Op.Finish(event)];
      if event.id in waiting {
        waiting := waiting - {event.id};
        return true;
      }
      finished := finished[event.id := event];
      order := order + [event.id];
      ghost var kept := Keep(State(waiting, finished, order));
      while |order| > MAX_UNCLAIMED
        invariant Keep(State(waiting, finished, order)) == kept
        invariant waiting == old(waiting) && history == old(history) + [Op.Finish(event)]
        decreases |order|
      {
        finished := finished - {order[0]};
        order := order[1..];
      }
      announce := false;
    }
  }

  /** The event is what the last completion of the job said. */
  ghost predicate IsLastCompletion(h: seq<Op>, id: Id, event: Event) {
    exists k :: 0 <= k < |h| && h[k] == Finish(event) && event.id == id
      && forall m :: k < m < |h| ==> !(h[m].Finish? && h[m].event.id == id)
  }

  lemma CompletionOneMore(h: seq<Op>, op: Op, id: Id, event: Event)
    ensures op == Finish(event) && event.id == id ==> IsLastCompletion(h + [op], id, event)
    ensures IsLastCompletion(h, id, event) && !(op.Finish? && op.event.id == id) ==>
              IsLastCompletion(h + [op], id, event)
  {
    var all := h + [op];
    assert all[|h|] == op;
    if IsLastCompletion(h, id, event) && !(op.Finish? && op.event.id == id) {
      var k :| 0 <= k < |h| && h[k] == Finish(event) && event.id == id
               && forall m :: k < m < |h| ==> !(h[m].Finish? && h[m].event.id == id);
      assert all[k] == Finish(event);
    }
  }

  lemma {:induction false} KeepDropsOnly(s: State, id: Id)
    ensures id in Keep(s).finished ==> id in s.finished && Keep(s).finished[id] == s.finished[id]
    decreases |s.order|
  {
    if |s.order| > MAX_UNCLAIMED {
      KeepDropsOnly(State(s.waiting, s.finished - {s.order[0]}, s.order[1..]), id);
    }
  }

  /** What is kept of a job is its last completion. */
  lemma {:induction false} KeptIsLastCompletion(h: seq<Op>, id: Id)
    requires id in Run(h).finished
    ensures IsLastCompletion(h, id, Run(h).finished[id])
  {
    var init, op := h[..|h| - 1], h[|h| - 1];
    var s := Run(init);
    assert h == init + [op];
    RunIsGood(init);
    if op.Finish? && op.event.id !in s.waiting {
      KeepDropsOnly(s.(finished := s.finished[op.event.id := op.event], order := s.order + [op.event.id]), id);
    }
    if !(op.Finish? && op.event.id == id) {
      KeptIsLastCompletion(init, id);
    }
    CompletionOneMore(init, op, id, Run(h).finished[id]);
  }

  // ---- What every history keeps -----------------------------------------------------------------------

  predicate Good(s: State) {
    && s.waiting !! s.finished.Keys
    && (forall id :: id in s.finished ==> id in s.order)
    && |s.order| <= MAX_UNCLAIMED
  }

  /** An unclaimed completion pushes out at most one older one. */
  lemma FinishUnclaimed(s: State, event: Event)
    requires |s.order| <= MAX_UNCLAIMED && event.id !in s.waiting
    ensures var t := Do(s, Finish(event)); var order := s.order + [event.id];
      && t.waiting == s.waiting
      && (|s.order| < MAX_UNCLAIMED ==> t.finished == s.finished[event.id := event] && t.order == order)
      && (|s.order| == MAX_UNCLAIMED ==>
           t.finished == s.finished[event.id := event] - {order[0]} && t.order == order[1..])
  {
    var u := s.(finished := s.finished[event.id := event], order := s.order + [event.id]);
    assert Do(s, Finish(event)) == Keep(u);
    if |s.order| == MAX_UNCLAIMED {
      var v := State(u.waiting, u.finished - {u.order[0]}, u.order[1..]);
      assert Keep(u) == Keep(v) == v;
    }
  }

  lemma {:induction false} RunIsGood(h: seq<Op>)
    ensures Good(Run(h))
  {
    if h != [] {
      var s, op := Run(h[..|h| - 1]), h[|h| - 1];
      RunIsGood(h[..|h| - 1]);
      if op.Finish? && op.event.id !in s.waiting {
        FinishUnclaimed(s, op.event);
        var t, order := Do(s, op), s.order + [op.event.id];
        forall id | id in t.finished ensures id in t.order {
          assert id in order;
        }
      }
    }
  }

  function Elements(s: seq<Id>): (r: set<Id>)
    ensures |r| <= |s| && forall x :: x in r <==> x in s
  {
    if s == [] then {} else assert s == [s[0]] + s[1..]; {s[0]} + Elements(s[1..])
  }

  /** No job is both waited for and finished, and never more than 64 completions are kept. */
  lemma BoundedAndDisjoint(h: seq<Op>)
    ensures Run(h).waiting !! Run(h).finished.Keys && |Run(h).finished| <= 64
  {
    RunIsGood(h);
    var s := Run(h);
    Fewer(s.finished.Keys, Elements(s.order));
  }

  lemma {:induction false} Fewer(a: set<Id>, b: set<Id>)
    requires a <= b
    ensures |a| <= |b|
  {
    if a != {} {
      var x :| x in a;
      Fewer(a - {x}, b - {x});
    }
  }

  // ---- Announcements ----------------------------------------------------------------------------------

  function Announced(h: seq<Op>, id: Id): nat {
    if h == [] then 0
    else
      var init, op := h[..|h| - 1], h[|h| - 1];
      Announced(init, id) + if JobOf(op) == id && Announces(Run(init), op) then 1 else 0
  }

  function Finishes(h: seq<Op>, id: Id): nat {
    if h == [] then 0
    else
      Finishes(h[..|h| - 1], id) + if h[|h| - 1].Finish? && h[|h| - 1].event.id == id then 1 else 0
  }

  /** A job is announced at most once per completion. */
  lemma {:induction false} AtMostOncePerFinish(h: seq<Op>, id: Id)
    ensures Announced(h, id) + (if id in Run(h).finished then 1 else 0) <= Finishes(h, id)
  {
    if h != [] {
      var s, op := Run(h[..|h| - 1]), h[|h| - 1];
      AtMostOncePerFinish(h[..|h| - 1], id);
      RunIsGood(h[..|h| - 1]);
      if op.Finish? && op.event.id !in s.waiting {
        FinishUnclaimed(s, op.event);
      }
    }
  }

  /** Unclaimed completions among the operations from i on. */
  function Unclaimed(h: seq<Op>, i: nat): nat {
    if |h| <= i then 0
    else
      var init, op := h[..|h| - 1], h[|h| - 1];
      Unclaimed(init, i) + if op.Finish? && !Announces(Run(init), op) then 1 else 0
  }

  ghost predicate Added(h: seq<Op>, id: Id) {
    exists a :: 0 <= a < |h| && h[a] == Add(id)
  }

  /** The job was added after its completion at f, and in time: fewer than 64 other unclaimed
      completions fell between. */
  ghost predicate AddedInTime(h: seq<Op>, f: nat, id: Id) {
    exists a :: f < a < |h| && h[a] == Add(id) && Unclaimed(h[..a], f + 1) < 64
  }

  lemma AddedOneMore(h: seq<Op>, id: Id)
    requires h != []
    ensures Added(h, id) <==> Added(h[..|h| - 1], id) || h[|h| - 1] == Add(id)
  {
  }

  lemma AddedInTimeOneMore(h: seq<Op>, f: nat, id: Id)
    requires f < |h| - 1
    ensures var init := h[..|h| - 1];
      AddedInTime(h, f, id) <==>
        AddedInTime(init, f, id) || (h[|h| - 1] == Add(id) && Unclaimed(init, f + 1) < MAX_UNCLAIMED)
  {
    var init := h[..|h| - 1];
    assert forall a :: 0 <= a < |init| ==> init[a] == h[a] && init[..a] == h[..a];
    if a :| f < a < |init| && init[a] == Add(id) && Unclaimed(init[..a], f + 1) < MAX_UNCLAIMED {
      assert h[a] == Add(id);
    }
  }

  lemma {:induction false} BeforeItsCompletion(h: seq<Op>, id: Id)
    requires Finishes(h, id) == 0
    ensures var s := Run(h);
      Announced(h, id) == 0 && id !in s.finished && id !in s.order && (id in s.waiting <==> Added(h, id))
  {
    if h != [] {
      var s, op := Run(h[..|h| - 1]), h[|h| - 1];
      BeforeItsCompletion(h[..|h| - 1], id);
      AddedOneMore(h, id);
      RunIsGood(h[..|h| - 1]);
      if op.Finish? && op.event.id !in s.waiting {
        FinishUnclaimed(s, op.event);
      }
    }
  }

  /** Where a job stands after its one completion, which was not awaited: c unclaimed ones came since. */
  ghost predicate Stands(s: State, id: Id, inTime: bool, announced: nat, c: nat) {
    && announced == (if inTime then 1 else 0)
    && (id in s.finished <==> !inTime && c < MAX_UNCLAIMED)
    && (c < |s.order| ==> s.order[|s.order| - 1 - c] == id)
    && (c >= |s.order| ==> c >= MAX_UNCLAIMED)
    && (forall j :: 0 <= j < |s.order| && s.order[j] == id ==> j == |s.order| - 1 - c)
  }

  lemma OneMoreUnclaimed(s: State, event: Event, id: Id, inTime: bool, announced: nat, c: nat)
    requires Good(s) && Stands(s, id, inTime, announced, c) && event.id != id && event.id !in s.waiting
    ensures Stands(Do(s, Finish(event)), id, inTime, announced, c + 1)
  {
    FinishUnclaimed(s, event);
    var order := s.order + [event.id];
    assert c < |s.order| ==> order[|order| - 1 - (c + 1)] == id;
    assert forall j :: 0 <= j < |order| && order[j] == id ==> j == |order| - 1 - (c + 1);
  }

  lemma {:induction false} FinishesGrow(h: seq<Op>, k: nat, id: Id)
    requires k <= |h|
    ensures Finishes(h[..k], id) <= Finishes(h, id)
    decreases |h|
  {
    if k == |h| {
      assert h[..k] == h;
    } else {
      assert h[..|h| - 1][..k] == h[..k];
      FinishesGrow(h[..|h| - 1], k, id);
    }
  }

  lemma OnlyCompletion(h: seq<Op>, f: nat, id: Id)
    requires f < |h| && h[f].Finish? && h[f].event.id == id && Finishes(h, id) == 1
    ensures Finishes(h[..f], id) == 0
    ensures f < |h| - 1 ==> Finishes(h[..|h| - 1], id) == 1
  {
    assert h[..f + 1][..f] == h[..f];
    FinishesGrow(h, f + 1, id);
    if f < |h| - 1 {
      assert h[..|h| - 1][..f + 1] == h[..f + 1];
      FinishesGrow(h[..|h| - 1], f + 1, id);
    }
  }

  lemma AtItsCompletion(h: seq<Op>, f: nat, id: Id)
    requires f == |h| - 1 && h[f].Finish? && h[f].event.id == id && Finishes(h[..f], id) == 0
    ensures Added(h[..f], id) ==> Announced(h, id) == 1 && id !in Run(h).finished
    ensures !Added(h[..f], id) ==> Stands(Run(h), id, false, Announced(h, id), 0)
    ensures !AddedInTime(h, f, id) && Unclaimed(h, f + 1) == 0
  {
    var s := Run(h[..f]);
    RunIsGood(h[..f]);
    BeforeItsCompletion(h[..f], id);
    if id !in s.waiting {
      FinishUnclaimed(s, h[f].event);
    }
  }

  /** Where a job stands that has completed once. */
  ghost predicate Settled(h: seq<Op>, f: nat, id: Id)
    requires f < |h|
  {
    if Added(h[..f], id) then Announced(h, id) == 1 && id !in Run(h).finished
    else Stands(Run(h), id, AddedInTime(h, f, id), Announced(h, id), Unclaimed(h, f + 1))
  }

  lemma {:induction false} AfterItsCompletion(h: seq<Op>, f: nat, id: Id)
    requires f < |h| && h[f].Finish? && h[f].event.id == id
    requires Finishes(h, id) == 1
    ensures Settled(h, f, id)
  {
    OnlyCompletion(h, f, id);
    if f == |h| - 1 {
      AtItsCompletion(h, f, id);
    } else {
      AfterItsCompletion(h[..|h| - 1], f, id);
      StaysSettled(h, f, id);
    }
  }

  lemma StaysSettled(h: seq<Op>, f: nat, id: Id)
    requires f < |h| - 1 && Finishes(h, id) == 1 == Finishes(h[..|h| - 1], id)
    requires Settled(h[..|h| - 1], f, id)
    ensures Settled(h, f, id)
  {
    var init, op := h[..|h| - 1], h[|h| - 1];
    var s := Run(init);
    RunIsGood(init);
    assert init[..f] == h[..f];
    assert op.Finish? ==> op.event.id != id;
    if !Added(h[..f], id) {
      AddedInTimeOneMore(h, f, id);
      StillStands(s, op, id, AddedInTime(init, f, id), Announced(init, id), Unclaimed(init, f + 1));
    } else if op.Finish? && op.event.id !in s.waiting {
      FinishUnclaimed(s, op.event);
    }
  }

  /** Any further operation but a completion of the same job. */
  lemma StillStands(s: State, op: Op, id: Id, inTime: bool, announced: nat, c: nat)
    requires Good(s) && Stands(s, id, inTime, announced, c) && (op.Finish? ==> op.event.id != id)
    ensures Stands(Do(s, op), id, inTime || (op == Add(id) && c < MAX_UNCLAIMED),
                   announced + (if JobOf(op) == id && Announces(s, op) then 1 else 0),
                   c + if op.Finish? && !Announces(s, op) then 1 else 0)
  {
    if op.Finish? && op.event.id !in s.waiting {
      OneMoreUnclaimed(s, op.event, id, inTime, announced, c);
    }
  }

  /** A job that completes once is announced once exactly when it was added before, or afterwards but
      before 64 other unclaimed completions pushed it out; and otherwise never. */
  lemma AnnouncedOnceIff(h: seq<Op>, f: nat, id: Id)
    requires f < |h| && h[f].Finish? && h[f].event.id == id
    requires Finishes(h, id) == 1
    ensures Announced(h, id) == if Added(h[..f], id) || AddedInTime(h, f, id) then 1 else 0
  {
    AfterItsCompletion(h, f, id);
  }
}
