/**
 * Optimistic appends to one instance's log by any number of concurrent callers.
 * A caller reads the highest stored number, then inserts the next one; the unique constraint makes a
 * stale insert fail, and after three failures the caller gives up.
 */
module AppendProtocol {

  const MAX_RETRIES: nat := 3

  /** One call of `append`. */
  type Caller(==, !new)

  datatype Phase =
    | MustRead
    | Holding(number: nat)
    | Stored(number: nat)
    | GaveUp

  /** `attempted` are the numbers of failed inserts; `others` counts inserts by others since the first read. */
  datatype Local = Local(phase: Phase, attempted: seq<nat>, others: nat)

  datatype System = System(stored: map<nat, Caller>, callers: map<Caller, Local>)

  // ----- steps -----

  /** `coalesce(max(sequence_number), 0)`. */
  ghost predicate IsMax(stored: map<nat, Caller>, m: nat) {
    (forall k :: k in stored ==> k <= m) && (m in stored || (m == 0 && stored == map[]))
  }

  ghost predicate Read(s: System, next: System, c: Caller) {
    && c in s.callers && s.callers[c].phase == MustRead
    && exists m: nat ::
         && IsMax(s.stored, m)
         && next == s.(callers := s.callers[c := s.callers[c].(phase := Holding(m + 1))])
  }

  predicate Started(l: Local) {
    l.attempted != [] || l.phase.Holding?
  }

  /** What a successful insert by `c` does to every caller's bookkeeping. */
  ghost function AfterInsert(callers: map<Caller, Local>, c: Caller, number: nat): map<Caller, Local>
    requires c in callers
  {
    map d | d in callers ::
      if d == c then callers[d].(phase := Stored(number))
      else if Started(callers[d]) then callers[d].(others := callers[d].others + 1)
      else callers[d]
  }

  ghost predicate InsertSucceeds(s: System, next: System, c: Caller) {
    && c in s.callers && s.callers[c].phase.Holding?
    && var k := s.callers[c].phase.number;
    && k !in s.stored
    && next == System(s.stored[k := c], AfterInsert(s.callers, c, k))
  }

  ghost predicate InsertFails(s: System, next: System, c: Caller) {
    && c in s.callers && s.callers[c].phase.Holding?
    && var l := s.callers[c];
    && l.phase.number in s.stored
    && var tried := l.attempted + [l.phase.number];
    var phase := if |tried| == MAX_RETRIES then GaveUp else MustRead;
    next == s.(callers := s.callers[c := l.(attempted := tried, phase := phase)])
  }

  ghost predicate Next(s: System, next: System) {
    exists c :: Read(s, next, c) || InsertSucceeds(s, next, c) || InsertFails(s, next, c)
  }

  ghost predicate Init(s: System) {
    s.stored == map[] && forall c :: c in s.callers ==> s.callers[c] == Local(MustRead, [], 0)
  }

  /** Any interleaving of the callers' steps. */
  ghost predicate Behaviour(trace: seq<System>) {
    |trace| > 0 && Init(trace[0]) && forall i, j :: 0 <= i && j == i + 1 < |trace| ==> Next(trace[i], trace[j])
  }

  // ----- the invariant -----

  /** The stored numbers are exactly 1, 2, ..., n. */
  ghost predicate Gapless(stored: map<nat, Caller>, n: nat) {
    forall k: nat :: k in stored <==> 1 <= k <= n
  }

  ghost predicate Increasing(s: seq<nat>) {
    forall i, j :: 0 <= i < j < |s| ==> s[i] < s[j]
  }

  ghost predicate LocalOk(stored: map<nat, Caller>, n: nat, c: Caller, l: Local) {
    && Increasing(l.attempted) && (forall k :: k in l.attempted ==> 1 <= k <= n)
    && |l.attempted| <= MAX_RETRIES
    && l.others >= |l.attempted|
    && match l.phase
       case MustRead => |l.attempted| < MAX_RETRIES
       case Holding(k) =>
         && |l.attempted| < MAX_RETRIES
         && 1 <= k <= n + 1
         && (forall j :: j in l.attempted ==> j < k)
         && (k <= n ==> l.others > |l.attempted|)
       case Stored(k) =>
         && |l.attempted| < MAX_RETRIES
         && k in stored && stored[k] == c
         && (forall j :: j in l.attempted ==> j < k)
       case GaveUp => |l.attempted| == MAX_RETRIES
  }

  ghost predicate InvAt(s: System, n: nat) {
    && Gapless(s.stored, n)
    && (forall c :: c in s.callers ==> LocalOk(s.stored, n, c, s.callers[c]))
    && (forall k :: k in s.stored ==> s.stored[k] in s.callers && s.callers[s.stored[k]].phase == Stored(k))
  }

  lemma ReadKeeps(s: System, next: System, c: Caller, n: nat)
    requires InvAt(s, n) && Read(s, next, c)
    ensures InvAt(next, n)
  {
    var m: nat :| IsMax(s.stored, m) && next == s.(callers := s.callers[c := s.callers[c].(phase := Holding(m + 1))]);
    assert m == n by {
      if n > 0 {
        assert n in s.stored;
      }
      if m > 0 {
        assert m in s.stored;
      }
    }
    assert LocalOk(s.stored, n, c, s.callers[c]);
  }

  lemma AttemptsGrow(attempted: seq<nat>, k: nat)
    requires Increasing(attempted) && forall j :: j in attempted ==> j < k
    ensures Increasing(attempted + [k])
    ensures forall j :: j in attempted + [k] <==> j in attempted || j == k
  {
    assert forall i :: 0 <= i < |attempted| ==> attempted[i] in attempted;
  }

  lemma FailureKeeps(s: System, next: System, c: Caller, n: nat)
    requires InvAt(s, n) && InsertFails(s, next, c)
    ensures InvAt(next, n)
  {
    var l := s.callers[c];
    assert LocalOk(s.stored, n, c, l);
    AttemptsGrow(l.attempted, l.phase.number);
  }

  /** A number that is not stored can only be the next one: stale reads are never too high. */
  lemma SuccessKeeps(s: System, next: System, c: Caller, n: nat)
    requires InvAt(s, n) && InsertSucceeds(s, next, c)
    ensures s.callers[c].phase.number == n + 1 && InvAt(next, n + 1)
  {
    assert LocalOk(s.stored, n, c, s.callers[c]);
    forall d | d in next.callers
      ensures LocalOk(next.stored, n + 1, d, next.callers[d])
    {
      assert LocalOk(s.stored, n, d, s.callers[d]);
    }
    forall k | k in next.stored
      ensures next.stored[k] in next.callers && next.callers[next.stored[k]].phase == Stored(k)
    {
    }
  }

  lemma {:induction false} BehaviourInv(trace: seq<System>, i: nat) returns (n: nat)
    requires Behaviour(trace) && i < |trace|
    ensures InvAt(trace[i], n)
  {
    if i == 0 {
      n := 0;
    } else {
      n := BehaviourInv(trace, i - 1);
      assert Next(trace[i - 1], trace[i]);
      var s, next := trace[i - 1], trace[i];
      var c :| Read(s, next, c) || InsertSucceeds(s, next, c) || InsertFails(s, next, c);
      if Read(s, next, c) {
        ReadKeeps(s, next, c, n);
      } else if InsertSucceeds(s, next, c) {
        SuccessKeeps(s, next, c, n);
        n := n + 1;
      } else {
        FailureKeeps(s, next, c, n);
      }
    }
  }

  // ----- what every interleaving guarantees -----

  lemma GaplessCount(stored: map<nat, Caller>, n: nat)
    requires Gapless(stored, n)
    ensures |stored| == n
    decreases n
  {
    if n > 0 {
      assert n in stored;
      GaplessCount(stored - {n}, n - 1);
      assert (stored - {n}).Keys == stored.Keys - {n};
    } else {
      assert stored == map[];
    }
  }

  /** At any moment the log is numbered 1 to its length, without gap or repeat. */
  lemma AlwaysGapless(trace: seq<System>, i: nat)
    requires Behaviour(trace) && i < |trace|
    ensures Gapless(trace[i].stored, |trace[i].stored|)
  {
    var n := BehaviourInv(trace, i);
    GaplessCount(trace[i].stored, n);
  }

  /**
   * Every caller tries strictly increasing numbers, at most three times, the one that succeeds included; each failure
   * was caused by another's success.
   */
  lemma EveryCaller(trace: seq<System>, i: nat, c: Caller)
    requires Behaviour(trace) && i < |trace| && c in trace[i].callers
    ensures var l := trace[i].callers[c];
            && Increasing(l.attempted) && |l.attempted| <= MAX_RETRIES
            && l.others >= |l.attempted|
            && (l.phase.Holding? || l.phase.Stored? ==> Increasing(l.attempted + [l.phase.number]))
            && (l.phase.GaveUp? <==> |l.attempted| == MAX_RETRIES)
            && (l.phase.GaveUp? ==> l.others >= 3)
  {
    var n := BehaviourInv(trace, i);
    var l := trace[i].callers[c];
    assert LocalOk(trace[i].stored, n, c, l);
    if l.phase.Holding? || l.phase.Stored? {
      AttemptsGrow(l.attempted, l.phase.number);
    }
  }

  /** Two callers that are done own different numbers, and each number is owned by exactly one of them. */
  lemma OwnedOnce(trace: seq<System>, i: nat, k: nat)
    requires Behaviour(trace) && i < |trace| && 1 <= k <= |trace[i].stored|
    ensures exists c :: c in trace[i].callers && trace[i].callers[c].phase == Stored(k)
    ensures forall c, d ::
              (c in trace[i].callers && d in trace[i].callers
               && trace[i].callers[c].phase == Stored(k) && trace[i].callers[d].phase == Stored(k)) ==> c == d
  {
    var n := BehaviourInv(trace, i);
    GaplessCount(trace[i].stored, n);
    assert k in trace[i].stored;
    forall c | c in trace[i].callers && trace[i].callers[c].phase == Stored(k)
      ensures c == trace[i].stored[k]
    {
      assert LocalOk(trace[i].stored, n, c, trace[i].callers[c]);
    }
  }
}
