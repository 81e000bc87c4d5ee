/**
 * Advertising namespaces to seed nodes. Callers edit the wanted set and then
 * raise a one-slot signal; the run loop takes the signal and reconciles.
 */
module Discovery {
  type Namespace = string

  /** The context that cancels the advertisements of one namespace. */
  type Context = nat

  datatype Loop = Stopped | Waiting | Woken

  /**
   * `unsent` counts the callers that have changed the wanted set but have not
   * raised the signal yet; `next` numbers contexts.
   */
  datatype State = State(
    wanted: set<Namespace>,
    unsent: nat,
    signal: bool,
    loop: Loop,
    ongoing: map<Namespace, Context>,
    cancelled: set<Context>,
    next: Context)

  datatype Step =
    | StartAdvertising(ns: Namespace)
    | StopAdvertising(ns: Namespace)
    | Raise
    | Start
    | Receive
    | Reconcile
    | Stop

  function Init(): State { State({}, 0, false, Stopped, map[], {}, 0) }

  /** The new namespaces got the contexts `lo` to `hi`, one each; the others keep theirs. */
  predicate Extended(before: map<Namespace, Context>, lo: Context, after: map<Namespace, Context>, hi: Context) {
    && lo <= hi && before.Keys <= after.Keys
    && (forall ns :: ns in before ==> after[ns] == before[ns])
    && (forall ns :: ns in after && ns !in before ==> lo <= after[ns] < hi)
    && (forall a, b :: a in after && b in after && a !in before && b !in before && a != b ==> after[a] != after[b])
    && (forall c :: lo <= c < hi ==> c in after.Values)
  }

  /** The contexts of namespaces that are no longer wanted, and of the others. */
  function Removed(s: State): set<Context> { set ns | ns in s.ongoing && ns !in s.wanted :: s.ongoing[ns] }

  function Remaining(s: State): map<Namespace, Context> { map ns | ns in s.ongoing && ns in s.wanted :: s.ongoing[ns] }

  predicate Reconciled(s: State, s': State) {
    && s'.ongoing.Keys == s.wanted
    && Extended(Remaining(s), s.next, s'.ongoing, s'.next)
    && s' == s.(loop := Waiting, ongoing := s'.ongoing, cancelled := s.cancelled + Removed(s), next := s'.next)
  }

  /** A step of a caller or of the loop. Sends to a full slot are dropped. */
  predicate Next(s: State, step: Step, s': State) {
    match step
    case StartAdvertising(ns) => s' == s.(wanted := s.wanted + {ns}, unsent := s.unsent + 1)
    case StopAdvertising(ns) => s' == s.(wanted := s.wanted - {ns}, unsent := s.unsent + 1)
    case Raise => s.unsent > 0 && s' == s.(unsent := s.unsent - 1, signal := true)
    case Start => s.loop == Stopped && s' == s.(signal := true, loop := Waiting, ongoing := map[])
    case Receive => s.loop == Waiting && s.signal && s' == s.(signal := false, loop := Woken)
    case Reconcile => s.loop == Woken && Reconciled(s, s')
    case Stop =>
      && s.loop == Waiting
      && s' == s.(loop := Stopped, ongoing := map[], cancelled := s.cancelled + s.ongoing.Values)
  }

  /** A run is the states it goes through. */
  predicate IsRun(states: seq<State>, steps: seq<Step>) {
    && |states| == |steps| + 1
    && states[0] == Init()
    && forall i :: 0 <= i < |steps| ==> Next(states[i], steps[i], states[i + 1])
  }

  /**
   * If the loop waits for a signal that nobody is about to raise, it is up to
   * date. Every context handed out is either cancelled or in use, not both.
   */
  predicate Inv(s: State) {
    && (s.loop == Waiting && !s.signal && s.unsent == 0 ==> s.ongoing.Keys == s.wanted)
    && (forall ns :: ns in s.ongoing ==> s.ongoing[ns] < s.next && s.ongoing[ns] !in s.cancelled)
    && (forall a, b :: a in s.ongoing && b in s.ongoing && a != b ==> s.ongoing[a] != s.ongoing[b])
    && (forall c :: c in s.cancelled ==> c < s.next)
    && (forall c :: 0 <= c < s.next ==> c in s.cancelled || c in s.ongoing.Values)
    && (s.loop == Stopped ==> s.ongoing == map[])
  }

  lemma {:induction false} ReconciledInv(s: State, s': State)
    requires Inv(s) && Reconciled(s, s')
    ensures Inv(s')
  {
    forall c | 0 <= c < s'.next ensures c in s'.cancelled || c in s'.ongoing.Values {
      if c < s.next && c !in s'.cancelled {
        var ns :| ns in s.ongoing && s.ongoing[ns] == c;
        assert s'.ongoing[ns] == Remaining(s)[ns];
      }
    }
  }

  lemma {:induction false} NextInv(s: State, step: Step, s': State)
    requires Inv(s) && Next(s, step, s')
    ensures Inv(s')
  {
    if step.Reconcile? {
      ReconciledInv(s, s');
    }
  }

  lemma {:induction false} RunInv(states: seq<State>, steps: seq<Step>, i: nat)
    requires IsRun(states, steps) && i < |states|
    ensures Inv(states[i])
  {
    if i > 0 {
      RunInv(states, steps, i - 1);
      NextInv(states[i - 1], steps[i - 1], states[i]);
    }
  }

  /**
   * No wake-up is lost: in every state of every run, if the loop waits, the
   * slot is empty and no caller is about to send, then exactly the wanted
   * namespaces are advertised. A context handed out is in use exactly until it
   * is cancelled.
   */
  lemma {:induction false} NoLostWakeup(states: seq<State>, steps: seq<Step>, i: nat)
    requires IsRun(states, steps) && i < |states|
    ensures var s := states[i];
            && (s.loop == Waiting && !s.signal && s.unsent == 0 ==> s.ongoing.Keys == s.wanted)
            && (forall c :: 0 <= c < s.next ==> (c in s.cancelled <==> c !in s.ongoing.Values))
  {
    RunInv(states, steps, i);
  }

  /** One turn of the loop is enough: a signal wakes it once, and then it is up to date and quiet. */
  lemma {:induction false} OneTurnSettles(s: State, woken: State, s': State)
    requires Next(s, Receive, woken) && Next(woken, Reconcile, s')
    ensures s'.loop == Waiting && !s'.signal && s'.ongoing.Keys == s.wanted
    ensures s'.wanted == s.wanted && s'.unsent == s.unsent
    ensures forall ns :: ns in s.wanted && ns in s.ongoing ==> s'.ongoing[ns] == s.ongoing[ns]
    ensures forall ns :: ns in s.ongoing && ns !in s.wanted ==> s.ongoing[ns] in s'.cancelled
  {
    forall ns | ns in s.wanted && ns in s.ongoing ensures s'.ongoing[ns] == s.ongoing[ns] {
      assert ns in Remaining(woken);
    }
  }

  /** How many of the first i steps are of a kind. */
  function Steps(steps: seq<Step>, i: nat, kind: Step -> bool): (n: nat)
    requires i <= |steps|
  {
    if i == 0 then 0 else Steps(steps, i - 1, kind) + if kind(steps[i - 1]) then 1 else 0
  }

  /** Every call raises the signal once, now or later, and every wake-up is followed by a reconciliation. */
  lemma {:induction false} EveryCallSignals(states: seq<State>, steps: seq<Step>, i: nat)
    requires IsRun(states, steps) && i < |states|
    ensures Steps(steps, i, (step: Step) => step.StartAdvertising? || step.StopAdvertising?)
         == Steps(steps, i, (step: Step) => step.Raise?) + states[i].unsent
    ensures Steps(steps, i, (step: Step) => step.Receive?)
         == Steps(steps, i, (step: Step) => step.Reconcile?) + if states[i].loop == Woken then 1 else 0
  {
    if i > 0 {
      EveryCallSignals(states, steps, i - 1);
      assert Next(states[i - 1], steps[i - 1], states[i]);
    }
  }

  /** The last call about the namespace, before state i, asked to advertise it. */
  predicate LastAskedFor(steps: seq<Step>, i: nat, ns: Namespace)
    requires i <= |steps|
  {
    exists j ::
      && 0 <= j < i && steps[j] == StartAdvertising(ns)
      && forall k :: j < k < i ==> steps[k] != StopAdvertising(ns)
  }

  lemma {:induction false} WantedExactly(states: seq<State>, steps: seq<Step>, i: nat, ns: Namespace)
    requires IsRun(states, steps) && i < |states|
    ensures ns in states[i].wanted <==> LastAskedFor(steps, i, ns)
  {
    if i > 0 {
      WantedExactly(states, steps, i - 1, ns);
      assert Next(states[i - 1], steps[i - 1], states[i]);
      if LastAskedFor(steps, i - 1, ns) {
        var j :| 0 <= j < i - 1 && steps[j] == StartAdvertising(ns)
                 && forall k :: j < k < i - 1 ==> steps[k] != StopAdvertising(ns);
        assert steps[i - 1] != StopAdvertising(ns) ==> forall k :: j < k < i ==> steps[k] != StopAdvertising(ns);
      }
    }
  }

  /** A loop that has nothing left to do advertises what the callers have asked for last, and nothing else. */
  lemma {:induction false} AdvertisesWhatWasAsked(states: seq<State>, steps: seq<Step>, i: nat, ns: Namespace)
    requires IsRun(states, steps) && i < |states|
    requires states[i].loop == Waiting && !states[i].signal && states[i].unsent == 0
    ensures ns in states[i].ongoing <==> LastAskedFor(steps, i, ns)
  {
    NoLostWakeup(states, steps, i);
    WantedExactly(states, steps, i, ns);
  }

  /** Cancels what is no longer wanted, in any order. */
  method CancelRemoved(s: State) returns (ongoing: map<Namespace, Context>, cancelled: set<Context>)
    ensures ongoing == Remaining(s) && cancelled == s.cancelled + Removed(s)
  {
    ongoing, cancelled := s.ongoing, s.cancelled;
    var todo := s.ongoing.Keys;
    while todo != {}
      invariant todo <= s.ongoing.Keys
      invariant ongoing == map ns | ns in s.ongoing && (ns in s.wanted || ns in todo) :: s.ongoing[ns]
      invariant cancelled == s.cancelled + (set ns | ns in s.ongoing && ns !in s.wanted && ns !in todo :: s.ongoing[ns])
      decreases |todo|
    {
      var ns :| ns in todo;
      todo := todo - {ns};
      if ns !in s.wanted {
        ongoing := ongoing - {ns};
        cancelled := cancelled + {s.ongoing[ns]};
      }
    }
  }

  lemma {:induction false} ExtendOne(
    before: map<Namespace, Context>, lo: Context, after: map<Namespace, Context>, hi: Context, ns: Namespace)
    requires Extended(before, lo, after, hi) && ns !in after
    ensures Extended(before, lo, after[ns := hi], hi + 1)
  {
    var m := after[ns := hi];
    assert m[ns] == hi;
    forall c | lo <= c < hi ensures c in m.Values {
      assert c in after.Values;
      var k :| k in after && after[k] == c;
      assert m[k] == c;
    }
  }

  /** Starts what was added, in any order, each under a fresh context. */
  method StartAdded(wanted: set<Namespace>, before: map<Namespace, Context>, lo: Context)
    returns (ongoing: map<Namespace, Context>, next: Context)
    requires before.Keys <= wanted
    ensures ongoing.Keys == wanted && Extended(before, lo, ongoing, next)
  {
    ongoing, next := before, lo;
    assert Extended(before, lo, ongoing, next);
    hide Extended;
    var todo := wanted;
    while todo != {}
      invariant todo <= wanted
      invariant ongoing.Keys == before.Keys + (wanted - todo)
      invariant Extended(before, lo, ongoing, next)
      decreases |todo|
    {
      var ns :| ns in todo;
      todo := todo - {ns};
      if ns !in ongoing {
        ExtendOne(before, lo, ongoing, next, ns);
        ongoing := ongoing[ns := next];
        next := next + 1;
      }
    }
  }

  /** What the loop does under the lock after it has been woken. */
  method ReconcileAll(s: State) returns (s': State)
    requires s.loop == Woken
    ensures Next(s, Reconcile, s')
  {
    var ongoing, cancelled := CancelRemoved(s);
    var ongoing', next := StartAdded(s.wanted, ongoing, s.next);
    s' := s.(loop := Waiting, ongoing := ongoing', cancelled := cancelled, next := next);
  }
}
