/** A schedule that reaches the fire-count bound, for every positive count and every number of connections. */
module FireCountTight {
  import opened Wrappers
  import opened SbcAp
  import opened Store
  import opened Rules
  import opened Engine
  import opened FireCount

  /** A rule for every message that only counts. */
  function CountOnly(count: int): Spec {
    Spec(true, "*", None, None, None, "log_only", None, 0, count)
  }

  /** One arrival, up to the snapshot. */
  function Take(c: nat): seq<Step> {
    [Arrive(c, [0]), ReadSession(c, 0, 0), LogInbound(c), Snapshot(c)]
  }

  function OpenAll(n: nat): seq<Step> {
    if n == 0 then [] else OpenAll(n - 1) + [Open(n - 1, "peer", 1)]
  }

  function TakeAll(n: nat): seq<Step> {
    if n == 0 then [] else TakeAll(n - 1) + Take(n - 1)
  }

  function IncrementAll(n: nat): seq<Step> {
    if n == 0 then [] else IncrementAll(n - 1) + [Increment(n - 1)]
  }

  /** Connection 0 handles `k` messages alone. */
  function Alone(k: nat): seq<Step> {
    if k == 0 then [] else Alone(k - 1) + (Take(0) + [Increment(0)])
  }

  /** count - 1 evaluations one after the other, then `n` that all take their snapshot before any of them increments. */
  function Extreme(count: nat, n: nat): seq<Step>
    requires count >= 1
  {
    [CreateRule(CountOnly(count))] + OpenAll(n) + Alone(count - 1) + TakeAll(n) + IncrementAll(n)
  }

  ghost predicate OnlyRule(db: Db, rule: Rule) {
    (forall id :: id in db.rules <==> id == 1) && db.rules[1] == rule
  }

  ghost predicate Holds(t: Task, rule: Rule, holding: bool) {
    && !t.cancelled
    && (if holding then t.phase.Chosen? && t.phase.rule == rule else t.phase.Idle?)
  }

  /** The rule is the only one, has fired `f` times, and of `n` connections exactly the numbers below `k` hold it. */
  ghost predicate Holding(s: State, count: int, f: nat, n: nat, k: nat) {
    && Valid(s.db) && OnlyRule(s.db, Rule(1, CountOnly(count), f))
    && (forall c: nat :: c in s.tasks <==> c < n)
    && (forall c: nat | c in s.tasks :: Holds(s.tasks[c], Rule(1, CountOnly(count), f), c < k))
  }

  /** The same while the holders below `i` have incremented. */
  ghost predicate Draining(s: State, count: int, f: nat, n: nat, i: nat) {
    && OnlyRule(s.db, Rule(1, CountOnly(count), f + i))
    && (forall c: nat :: i <= c < n ==> c in s.tasks && s.tasks[c].phase.Chosen? && s.tasks[c].phase.rule.id == 1)
  }

  lemma OnlyRuleChosen(db: Db, count: int, f: nat, msg: Message)
    requires Valid(db) && OnlyRule(db, Rule(1, CountOnly(count), f)) && f < count
    ensures Rules.Chosen(db, msg) == Some(Rule(1, CountOnly(count), f))
  {
    ChosenIsLowest(db, msg);
    assert Declared(db.rules[1], msg);
    if Rules.Chosen(db, msg).Some? {
      assert Rules.Chosen(db, msg).value.id in db.rules;
    }
  }

  /** Nothing but this task and the messages has changed. */
  ghost predicate OnlyTask(s: State, next: State, k: nat) {
    && Valid(next.db) && next.db.rules == s.db.rules && next.tasks.Keys == s.tasks.Keys && k in s.tasks
    && forall c: nat :: c in s.tasks && c != k ==> next.tasks[c] == s.tasks[c]
  }

  lemma TakeRow(codec: Codec, s: State, k: nat)
    requires Valid(s.db) && k in s.tasks && s.tasks[k].phase.Idle? && !s.tasks[k].cancelled
    ensures var next := Do(codec, Do(codec, Do(codec, s, Take(k)[0]), Take(k)[1]), Take(k)[2]);
      OnlyTask(s, next, k) && next.tasks[k].phase.Saved? && !next.tasks[k].cancelled
  {
    var s1 := Do(codec, s, Take(k)[0]);
    var s2 := Do(codec, s1, Take(k)[1]);
    assert s1.tasks[k].phase == Arrived([0]) && !s1.tasks[k].cancelled;
    assert s2.tasks[k].phase.Stamped? && !s2.tasks[k].cancelled;
  }

  lemma TakeRule(codec: Codec, s: State, k: nat, count: int, f: nat)
    requires Valid(s.db) && k in s.tasks && s.tasks[k].phase.Saved? && !s.tasks[k].cancelled
    requires OnlyRule(s.db, Rule(1, CountOnly(count), f)) && f < count
    ensures var next := Do(codec, s, Take(k)[3]);
      OnlyTask(s, next, k) && Holds(next.tasks[k], Rule(1, CountOnly(count), f), true)
  {
    OnlyRuleChosen(s.db, count, f, s.tasks[k].phase.msg);
  }

  lemma OneMoreHolds(s: State, next: State, count: int, f: nat, n: nat, k: nat)
    requires Holding(s, count, f, n, k) && k < n && OnlyTask(s, next, k)
    requires Holds(next.tasks[k], Rule(1, CountOnly(count), f), true)
    ensures Holding(next, count, f, n, k + 1)
  {
    forall c: nat | c in next.tasks ensures Holds(next.tasks[c], Rule(1, CountOnly(count), f), c < k + 1) {
      assert Holds(s.tasks[c], Rule(1, CountOnly(count), f), c < k);
    }
  }

  lemma TakeOne(codec: Codec, s: State, count: int, f: nat, n: nat, k: nat)
    requires Holding(s, count, f, n, k) && k < n && f < count
    ensures Holding(Exec(codec, s, Take(k)), count, f, n, k + 1)
  {
    var t := Take(k);
    var saved := Do(codec, Do(codec, Do(codec, s, t[0]), t[1]), t[2]);
    ExecFour(codec, s, t[0], t[1], t[2], t[3]);
    assert Holds(s.tasks[k], Rule(1, CountOnly(count), f), false);
    TakeRow(codec, s, k);
    TakeRule(codec, saved, k, count, f);
    OneMoreHolds(s, Exec(codec, s, t), count, f, n, k);
  }

  lemma ExecOne(codec: Codec, s: State, a: Step)
    ensures Exec(codec, s, [a]) == Do(codec, s, a)
  {
    assert [a][..0] == [];
  }

  lemma ExecNext(codec: Codec, s: State, before: seq<Step>, a: Step)
    ensures Exec(codec, s, before + [a]) == Do(codec, Exec(codec, s, before), a)
  {
    assert (before + [a])[..|before|] == before;
  }

  lemma ExecFour(codec: Codec, s: State, a: Step, b: Step, c: Step, d: Step)
    ensures Exec(codec, s, [a, b, c, d]) == Do(codec, Do(codec, Do(codec, Do(codec, s, a), b), c), d)
  {
    ExecOne(codec, s, a);
    ExecNext(codec, s, [a], b);
    ExecNext(codec, s, [a, b], c);
    ExecNext(codec, s, [a, b, c], d);
    assert [a] + [b] == [a, b] && [a, b] + [c] == [a, b, c] && [a, b, c] + [d] == [a, b, c, d];
  }

  lemma {:induction false} OpenAllHolding(codec: Codec, s: State, count: int, n: nat)
    requires Holding(s, count, 0, 0, 0)
    ensures Holding(Exec(codec, s, OpenAll(n)), count, 0, n, 0)
  {
    if n > 0 {
      OpenAllHolding(codec, s, count, n - 1);
      ExecNext(codec, s, OpenAll(n - 1), Open(n - 1, "peer", 1));
    }
  }

  /** Block after block, connection i takes the rule in the i-th. */
  predicate IsTakeAll(steps: seq<Step>, n: nat) {
    |steps| == 4 * n && forall i: nat :: i < n ==> steps[4 * i..4 * i + 4] == Take(i)
  }

  lemma {:induction false} TakeAllIs(n: nat)
    ensures IsTakeAll(TakeAll(n), n)
  {
    if n > 0 {
      var before := TakeAll(n - 1);
      TakeAllIs(n - 1);
      forall i: nat | i < n ensures TakeAll(n)[4 * i..4 * i + 4] == Take(i) {
        assert i < n - 1 ==> TakeAll(n)[4 * i..4 * i + 4] == before[4 * i..4 * i + 4];
      }
    }
  }

  lemma TakeNext(codec: Codec, s: State, steps: seq<Step>, count: int, f: nat, n: nat, k: nat)
    requires IsTakeAll(steps, n) && k < n && f < count && Holding(At(codec, s, steps, 4 * k), count, f, n, k)
    ensures Holding(At(codec, s, steps, 4 * (k + 1)), count, f, n, k + 1)
  {
    assert steps[..4 * k + 4] == steps[..4 * k] + Take(k);
    ExecConcat(codec, s, steps[..4 * k], Take(k));
    TakeOne(codec, At(codec, s, steps, 4 * k), count, f, n, k);
  }

  lemma {:induction false} TakesAlong(codec: Codec, s: State, steps: seq<Step>, count: int, f: nat, n: nat, k: nat)
    requires IsTakeAll(steps, n) && Holding(s, count, f, n, 0) && k <= n && f < count
    ensures Holding(At(codec, s, steps, 4 * k), count, f, n, k)
  {
    if k > 0 {
      TakesAlong(codec, s, steps, count, f, n, k - 1);
      TakeNext(codec, s, steps, count, f, n, k - 1);
    }
  }

  lemma TakeAllHolding(codec: Codec, s: State, count: int, f: nat, n: nat)
    requires Holding(s, count, f, n, 0) && f < count
    ensures Holding(Exec(codec, s, TakeAll(n)), count, f, n, n)
  {
    TakeAllIs(n);
    TakesAlong(codec, s, TakeAll(n), count, f, n, n);
    assert TakeAll(n)[..4 * n] == TakeAll(n);
  }

  /** After its increment the evaluation of a log_only rule is over. */
  lemma IncrementIdle(codec: Codec, s: State, count: int, f: nat, n: nat)
    requires Holding(s, count, f, n, 1) && n >= 1
    ensures Holding(Do(codec, s, Increment(0)), count, f + 1, n, 0)
  {
  }

  lemma AloneOne(codec: Codec, s: State, count: int, f: nat, n: nat)
    requires Holding(s, count, f, n, 0) && n >= 1 && f < count
    ensures Holding(Exec(codec, s, Take(0) + [Increment(0)]), count, f + 1, n, 0)
  {
    ExecNext(codec, s, Take(0), Increment(0));
    TakeOne(codec, s, count, f, n, 0);
    IncrementIdle(codec, Exec(codec, s, Take(0)), count, f, n);
  }

  /** Round after round, connection 0 takes the rule and increments. */
  predicate IsAlone(steps: seq<Step>, k: nat) {
    |steps| == 5 * k && forall i: nat :: i < k ==> steps[5 * i..5 * i + 5] == Take(0) + [Increment(0)]
  }

  lemma {:induction false} AloneIs(k: nat)
    ensures IsAlone(Alone(k), k)
  {
    if k > 0 {
      var before := Alone(k - 1);
      AloneIs(k - 1);
      forall i: nat | i < k ensures Alone(k)[5 * i..5 * i + 5] == Take(0) + [Increment(0)] {
        assert i < k - 1 ==> Alone(k)[5 * i..5 * i + 5] == before[5 * i..5 * i + 5];
      }
    }
  }

  lemma AloneNext(codec: Codec, s: State, steps: seq<Step>, count: int, n: nat, k: nat, i: nat)
    requires IsAlone(steps, k) && i < k && i < count && n >= 1 && Holding(At(codec, s, steps, 5 * i), count, i, n, 0)
    ensures Holding(At(codec, s, steps, 5 * (i + 1)), count, i + 1, n, 0)
  {
    assert steps[..5 * i + 5] == steps[..5 * i] + (Take(0) + [Increment(0)]);
    ExecConcat(codec, s, steps[..5 * i], Take(0) + [Increment(0)]);
    AloneOne(codec, At(codec, s, steps, 5 * i), count, i, n);
  }

  lemma {:induction false} AloneAlong(codec: Codec, s: State, steps: seq<Step>, count: int, n: nat, k: nat, i: nat)
    requires IsAlone(steps, k) && Holding(s, count, 0, n, 0) && n >= 1 && i <= k < count
    ensures Holding(At(codec, s, steps, 5 * i), count, i, n, 0)
  {
    if i == 0 {
      assert steps[..0] == [];
    } else {
      AloneAlong(codec, s, steps, count, n, k, i - 1);
      AloneNext(codec, s, steps, count, n, k, i - 1);
    }
  }

  lemma AloneHolding(codec: Codec, s: State, count: int, n: nat, k: nat)
    requires Holding(s, count, 0, n, 0) && n >= 1 && k < count
    ensures Holding(Exec(codec, s, Alone(k)), count, k, n, 0)
  {
    AloneIs(k);
    AloneAlong(codec, s, Alone(k), count, n, k, k);
    assert Alone(k)[..5 * k] == Alone(k);
  }

  lemma DrainOne(codec: Codec, s: State, count: int, f: nat, n: nat, i: nat)
    requires Draining(s, count, f, n, i) && i < n
    ensures Draining(Do(codec, s, Increment(i)), count, f, n, i + 1)
  {
  }

  lemma HoldingDrains(s: State, count: int, f: nat, n: nat)
    requires Holding(s, count, f, n, n)
    ensures Draining(s, count, f, n, 0)
  {
    forall c: nat | c < n ensures c in s.tasks && s.tasks[c].phase.Chosen? && s.tasks[c].phase.rule.id == 1 {
      assert Holds(s.tasks[c], Rule(1, CountOnly(count), f), c < n);
    }
  }

  predicate IsIncrementAll(steps: seq<Step>) {
    forall i: nat :: i < |steps| ==> steps[i] == Increment(i)
  }

  lemma {:induction false} IncrementAllIs(n: nat)
    ensures |IncrementAll(n)| == n && IsIncrementAll(IncrementAll(n))
  {
    if n > 0 {
      IncrementAllIs(n - 1);
    }
  }

  lemma {:induction false} DrainsAlong(codec: Codec, s: State, steps: seq<Step>, count: int, f: nat, n: nat, i: nat)
    requires Draining(s, count, f, n, 0) && IsIncrementAll(steps) && i <= |steps| <= n
    ensures Draining(At(codec, s, steps, i), count, f, n, i)
  {
    if i > 0 {
      DrainsAlong(codec, s, steps, count, f, n, i - 1);
      AtStep(codec, s, steps, i - 1);
      DrainOne(codec, At(codec, s, steps, i - 1), count, f, n, i - 1);
    }
  }

  lemma IncrementAllDrains(codec: Codec, s: State, count: int, f: nat, n: nat)
    requires Draining(s, count, f, n, 0)
    ensures Draining(Exec(codec, s, IncrementAll(n)), count, f, n, n)
  {
    IncrementAllIs(n);
    DrainsAlong(codec, s, IncrementAll(n), count, f, n, n);
    assert IncrementAll(n)[..n] == IncrementAll(n);
  }

  lemma {:induction false} OpenAllBelow(n: nat)
    ensures OpensBelow(OpenAll(n), n)
  {
    if n > 0 {
      OpenAllBelow(n - 1);
    }
  }

  predicate NoOpen(schedule: seq<Step>) {
    forall i :: 0 <= i < |schedule| ==> !schedule[i].Open?
  }

  lemma {:induction false} TakeAllOpensNothing(n: nat)
    ensures NoOpen(TakeAll(n)) && NoOpen(IncrementAll(n)) && NoOpen(Alone(n))
  {
    if n > 0 {
      TakeAllOpensNothing(n - 1);
    }
  }

  lemma ConcatOpens(a: seq<Step>, b: seq<Step>, n: nat)
    requires OpensBelow(a, n) && OpensBelow(b, n)
    ensures OpensBelow(a + b, n)
  {
  }

  lemma ExtremeOpens(count: nat, n: nat)
    requires count >= 1
    ensures OpensBelow(Extreme(count, n), n)
  {
    OpenAllBelow(n);
    TakeAllOpensNothing(n);
    TakeAllOpensNothing(count - 1);
    var create := [CreateRule(CountOnly(count))];
    ConcatOpens(create, OpenAll(n), n);
    ConcatOpens(create + OpenAll(n), Alone(count - 1), n);
    ConcatOpens(create + OpenAll(n) + Alone(count - 1), TakeAll(n), n);
    ConcatOpens(create + OpenAll(n) + Alone(count - 1) + TakeAll(n), IncrementAll(n), n);
  }

  lemma Created(codec: Codec, session: string, count: nat)
    ensures Holding(Exec(codec, Init(session), [CreateRule(CountOnly(count))]), count, 0, 0, 0)
  {
    ExecOne(codec, Init(session), CreateRule(CountOnly(count)));
    assert Do(codec, Init(session), CreateRule(CountOnly(count))).tasks == map[];
  }

  lemma Carried(codec: Codec, s: State, before: seq<Step>, next: seq<Step>, count: int, f: nat, n: nat, k: nat)
    requires Holding(Exec(codec, Exec(codec, s, before), next), count, f, n, k)
    ensures Holding(Exec(codec, s, before + next), count, f, n, k)
  {
    ExecConcat(codec, s, before, next);
  }

  lemma ThenOpen(codec: Codec, s: State, before: seq<Step>, count: nat, n: nat)
    requires Holding(Exec(codec, s, before), count, 0, 0, 0)
    ensures Holding(Exec(codec, s, before + OpenAll(n)), count, 0, n, 0)
  {
    OpenAllHolding(codec, Exec(codec, s, before), count, n);
    Carried(codec, s, before, OpenAll(n), count, 0, n, 0);
  }

  lemma ThenAlone(codec: Codec, s: State, before: seq<Step>, count: nat, n: nat, k: nat)
    requires n >= 1 && k < count && Holding(Exec(codec, s, before), count, 0, n, 0)
    ensures Holding(Exec(codec, s, before + Alone(k)), count, k, n, 0)
  {
    AloneHolding(codec, Exec(codec, s, before), count, n, k);
    Carried(codec, s, before, Alone(k), count, k, n, 0);
  }

  lemma ThenTake(codec: Codec, s: State, before: seq<Step>, count: nat, n: nat, f: nat)
    requires f < count && Holding(Exec(codec, s, before), count, f, n, 0)
    ensures Holding(Exec(codec, s, before + TakeAll(n)), count, f, n, n)
  {
    TakeAllHolding(codec, Exec(codec, s, before), count, f, n);
    Carried(codec, s, before, TakeAll(n), count, f, n, n);
  }

  lemma ThenIncrement(codec: Codec, s: State, before: seq<Step>, count: nat, n: nat, f: nat)
    requires Holding(Exec(codec, s, before), count, f, n, n)
    ensures Draining(Exec(codec, s, before + IncrementAll(n)), count, f, n, n)
  {
    HoldingDrains(Exec(codec, s, before), count, f, n);
    IncrementAllDrains(codec, Exec(codec, s, before), count, f, n);
    ExecConcat(codec, s, before, IncrementAll(n));
  }

  lemma UpToAlone(codec: Codec, session: string, count: nat, n: nat)
    requires count >= 1 && n >= 1
    ensures Holding(Exec(codec, Init(session), [CreateRule(CountOnly(count))] + OpenAll(n) + Alone(count - 1)),
                    count, count - 1, n, 0)
  {
    Created(codec, session, count);
    ThenOpen(codec, Init(session), [CreateRule(CountOnly(count))], count, n);
    ThenAlone(codec, Init(session), [CreateRule(CountOnly(count))] + OpenAll(n), count, n, count - 1);
  }

  lemma ThenRace(codec: Codec, s: State, before: seq<Step>, count: nat, n: nat, f: nat)
    requires f < count && Holding(Exec(codec, s, before), count, f, n, 0)
    ensures Draining(Exec(codec, s, before + TakeAll(n) + IncrementAll(n)), count, f, n, n)
  {
    ThenTake(codec, s, before, count, n, f);
    ThenIncrement(codec, s, before + TakeAll(n), count, n, f);
  }

  lemma ExtremeDrains(codec: Codec, session: string, count: nat, n: nat)
    requires count >= 1 && n >= 1
    ensures Draining(Exec(codec, Init(session), Extreme(count, n)), count, count - 1, n, n)
  {
    UpToAlone(codec, session, count, n);
    ThenRace(codec, Init(session), [CreateRule(CountOnly(count))] + OpenAll(n) + Alone(count - 1), count, n, count - 1);
  }

  /** The bound is reached: `n` connections make a rule with this count fire exactly count + n - 1 times. */
  lemma BoundIsTight(codec: Codec, session: string, count: nat, n: nat)
    requires count >= 1 && n >= 1
    ensures AtMost(codec, session, Extreme(count, n), 1, n)
    ensures var s := Exec(codec, Init(session), Extreme(count, n));
      1 in s.db.rules && s.db.rules[1].spec.count == count && s.db.rules[1].fired == count + n - 1
  {
    ExtremeOpens(count, n);
    ConnectionsAtMost(codec, session, Extreme(count, n), 1, n);
    ExtremeDrains(codec, session, count, n);
  }
}
