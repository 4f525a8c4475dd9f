/**
 * The debugger's register snapshot: one writer updates a slot field by field
 * between two increments of a counter, and the reader copies the fields between
 * two reads of that counter, retrying up to eight times.
 */
module Seqlock {
  import Bits

  /** A slot image: program counter, hi, lo, cycle count and general registers, as words. */
  type Image = seq<nat>

  datatype Writer = Idle | Writing(target: Image, pending: set<nat>)

  /** Ready: about to read the counter for the given attempt. Copying: the counter was even and
      some fields have been copied. Done: the loop was left, by break when validated. */
  datatype Reader =
    | Ready(attempt: nat)
    | Copying(attempt: nat, seqBefore: nat, copied: set<nat>)
    | Done(validated: bool)

  /** The slot, its counter as an unbounded number, the reader's output, and as bookkeeping the
      images of all completed updates and the counter when the current attempt began. */
  datatype State = State(
    modulus: nat,
    slot: Image,
    counter: nat,
    writer: Writer,
    reader: Reader,
    out: Image,
    history: seq<Image>,
    began: nat)

  datatype Action =
    | BeginUpdate(image: Image)
    | StoreField(field: nat)
    | EndUpdate
    | ReadCounter
    | CopyField(field: nat)
    | CheckCounter
    | GiveUp

  const ATTEMPTS: nat := 8

  function FieldsBelow(n: nat): (r: set<nat>)
    ensures forall f: nat :: f in r <==> f < n
  {
    if n == 0 then {} else FieldsBelow(n - 1) + {n - 1}
  }

  function Fields(s: State): set<nat> {
    FieldsBelow(|s.slot|)
  }

  /** The counter as the reader sees it. */
  function Visible(s: State): nat
    requires s.modulus > 0
  {
    s.counter % s.modulus
  }

  predicate Enabled(s: State, a: Action) {
    match a
    case BeginUpdate(image) => s.writer.Idle? && |image| == |s.slot|
    case StoreField(f) => s.writer.Writing? && f in s.writer.pending
    case EndUpdate => s.writer.Writing? && s.writer.pending == {}
    case ReadCounter => s.reader.Ready? && s.reader.attempt < ATTEMPTS
    case CopyField(f) => s.reader.Copying? && f < |s.slot| && f !in s.reader.copied
    case CheckCounter => s.reader.Copying? && s.reader.copied == Fields(s)
    case GiveUp => s.reader.Ready? && s.reader.attempt >= ATTEMPTS
  }

  predicate Shaped(s: State) {
    s.modulus > 0 && |s.out| == |s.slot| &&
    (s.writer.Writing? ==> |s.writer.target| == |s.slot| && s.writer.pending <= Fields(s))
  }

  function Next(s: State, a: Action): State
    requires Shaped(s) && Enabled(s, a)
  {
    match a
    case BeginUpdate(image) => s.(counter := s.counter + 1, writer := Writing(image, Fields(s)))
    case StoreField(f) => s.(slot := s.slot[f := s.writer.target[f]],
        writer := Writing(s.writer.target, s.writer.pending - {f}))
    case EndUpdate => s.(counter := s.counter + 1, writer := Idle, history := s.history + [s.writer.target])
    case ReadCounter =>
      if Visible(s) % 2 == 1 then s.(reader := Ready(s.reader.attempt + 1))
      else s.(reader := Copying(s.reader.attempt, Visible(s), {}), began := s.counter)
    case CopyField(f) =>
      s.(out := s.out[f := s.slot[f]], reader := s.reader.(copied := s.reader.copied + {f}))
    case CheckCounter =>
      if Visible(s) == s.reader.seqBefore then s.(reader := Done(true)) else s.(reader := Ready(s.reader.attempt + 1))
    case GiveUp => s.(reader := Done(false))
  }

  /** The start: an idle slot, and a reader that has done nothing. */
  ghost predicate Initial(s: State) {
    && s.modulus > 0 && s.modulus % 2 == 0
    && |s.out| == |s.slot|
    && s.counter == 0 && s.writer == Idle && s.reader == Ready(0)
    && s.history == [s.slot]
  }

  // ----- runs

  ghost predicate Runnable(s: State, run: seq<Action>)
    decreases |run|
  {
    |run| == 0 || (Shaped(s) && Enabled(s, run[0]) && Runnable(Next(s, run[0]), run[1..]))
  }

  ghost function After(s: State, run: seq<Action>): State
    requires Runnable(s, run)
    decreases |run|
  {
    if |run| == 0 then s else After(Next(s, run[0]), run[1..])
  }

  // ----- the invariant of every interleaving

  ghost predicate WriterOk(s: State) {
    && s.modulus > 0 && s.modulus % 2 == 0 && |s.out| == |s.slot|
    && |s.history| == s.counter / 2 + 1
    && (forall k :: 0 <= k < |s.history| ==> |s.history[k]| == |s.slot|)
    && (s.writer.Idle? <==> s.counter % 2 == 0)
    && (s.writer.Idle? ==> s.slot == Latest(s))
    && (s.writer.Writing? ==>
          && |s.writer.target| == |s.slot| && s.writer.pending <= Fields(s)
          && forall f :: 0 <= f < |s.slot| && f in s.writer.pending ==> s.slot[f] == Latest(s)[f])
    && (s.writer.Writing? ==>
          forall f :: 0 <= f < |s.slot| && f !in s.writer.pending ==> s.slot[f] == s.writer.target[f])
  }

  ghost function Latest(s: State): Image
    requires |s.history| > 0
  {
    s.history[|s.history| - 1]
  }

  /** While the counter has not moved since the attempt began, the copied fields are those of the
      latest completed update. */
  ghost predicate ReaderOk(s: State) {
    s.reader.Copying? ==>
      && s.modulus > 0
      && s.began <= s.counter && s.began % 2 == 0
      && s.reader.seqBefore == s.began % s.modulus
      && s.reader.copied <= Fields(s)
      && (s.counter == s.began ==>
            |s.history| > 0 && |Latest(s)| == |s.slot| == |s.out| &&
            forall f :: 0 <= f < |s.slot| && f in s.reader.copied ==> s.out[f] == Latest(s)[f])
  }

  ghost predicate Invariant(s: State) {
    WriterOk(s) && ReaderOk(s)
  }

  lemma WriterStepKeeps(s: State, a: Action)
    requires Invariant(s) && Enabled(s, a) && (a.BeginUpdate? || a.StoreField? || a.EndUpdate?)
    ensures Invariant(Next(s, a))
  {
    var s' := Next(s, a);
    assert Fields(s') == Fields(s);
  }

  lemma ReaderStepKeeps(s: State, a: Action)
    requires Invariant(s) && Enabled(s, a) && !(a.BeginUpdate? || a.StoreField? || a.EndUpdate?)
    ensures Invariant(Next(s, a))
  {
    var s' := Next(s, a);
    assert Fields(s') == Fields(s);
    if a.ReadCounter? {
      EvenIsEven(s.counter, s.modulus);
    }
  }

  lemma EvenIsEven(x: nat, m: nat)
    requires m > 0 && m % 2 == 0
    ensures (x % m) % 2 == x % 2
  {
    var q, h := x / m, m / 2;
    assert x == q * m + x % m;
    assert m == 2 * h;
    assert q * m == 2 * (q * h) by { Regroup(q, h); }
  }

  lemma Regroup(q: int, h: int)
    ensures q * (2 * h) == 2 * (q * h)
  {
  }

  lemma {:induction false} InvariantHoldsThroughout(s: State, run: seq<Action>)
    requires Invariant(s) && Runnable(s, run)
    ensures Invariant(After(s, run))
    decreases |run|
  {
    if |run| > 0 {
      var a := run[0];
      if a.BeginUpdate? || a.StoreField? || a.EndUpdate? {
        WriterStepKeeps(s, a);
      } else {
        ReaderStepKeeps(s, a);
      }
      InvariantHoldsThroughout(Next(s, a), run[1..]);
    }
  }

  /** The counter moved by less than its modulus since the attempt began. */
  ghost predicate NoWrap(s: State) {
    s.counter - s.began < s.modulus
  }

  lemma SameResidueMeansSame(x: nat, y: nat, m: nat)
    requires m > 0 && x <= y < x + m && x % m == y % m
    ensures x == y
  {
    var p, q := x / m, y / m;
    assert x == p * m + x % m && y == q * m + y % m;
    assert y - x == (q - p) * m;
    assert x - y == (p - q) * m;
    if q > p { Bits.Multiple(q - p, m); }
    if q < p { Bits.Multiple(p - q, m); }
  }

  /** In every interleaving, an attempt that leaves the loop by break has copied all fields of one
      single completed update, unless the counter went all the way around during the attempt. */
  lemma ValidatedCopyIsOneUpdate(s0: State, run: seq<Action>)
    requires Initial(s0) && Runnable(s0, run)
    requires Enabled(After(s0, run), CheckCounter) && Shaped(After(s0, run))
    requires Next(After(s0, run), CheckCounter).reader == Done(true)
    requires NoWrap(After(s0, run))
    ensures var s := Next(After(s0, run), CheckCounter); |s.history| > 0 && s.out == Latest(s)
  {
    var s := After(s0, run);
    InvariantHoldsThroughout(s0, run);
    SameResidueMeansSame(s.began, s.counter, s.modulus);
    forall f | 0 <= f < |s.slot| ensures s.out[f] == Latest(s)[f] {
      assert f in Fields(s);
    }
  }

  // ----- the two ways to leave with a torn copy

  lemma {:induction false} RunsCompose(s: State, a: seq<Action>, b: seq<Action>)
    requires Runnable(s, a) && Runnable(After(s, a), b)
    ensures Runnable(s, a + b) && After(s, a + b) == After(After(s, a), b)
    decreases |a|
  {
    if |a| == 0 {
      assert a + b == b;
    } else {
      assert (a + b)[1..] == a[1..] + b;
      RunsCompose(Next(s, a[0]), a[1..], b);
    }
  }

  /** Some run leads from s to t. */
  ghost predicate Leads(s: State, t: State) {
    exists run :: Runnable(s, run) && After(s, run) == t
  }

  lemma LeadsStep(s: State, a: Action)
    requires Shaped(s) && Enabled(s, a)
    ensures Leads(s, Next(s, a))
  {
    var run, t := [a], Next(s, a);
    assert run[0] == a && run[1..] == [];
    assert Runnable(t, []) && After(t, []) == t;
    assert Runnable(s, run) && After(s, run) == After(t, run[1..]);
  }

  lemma LeadsOn(s: State, t: State, u: State)
    requires Leads(s, t) && Leads(t, u)
    ensures Leads(s, u)
  {
    var a :| Runnable(s, a) && After(s, a) == t;
    var b :| Runnable(t, b) && After(t, b) == u;
    RunsCompose(s, a, b);
  }

  lemma LeadsThenStep(s: State, t: State, a: Action)
    requires Leads(s, t) && Shaped(t) && Enabled(t, a)
    ensures Leads(s, Next(t, a))
  {
    hide Leads, Next;
    LeadsStep(t, a);
    LeadsOn(s, t, Next(t, a));
  }

  /** A two-field slot whose writer has completed k updates to [1, 1]. */
  ghost function Updated(s: State, k: nat): State {
    s.(counter := s.counter + 2 * k,
       slot := if k == 0 then s.slot else [1, 1],
       history := s.history + seq(k, i => [1, 1]))
  }

  lemma UpdateOnce(s: State)
    requires Shaped(s) && s.writer == Idle && |s.slot| == 2
    ensures Leads(s, Updated(s, 1))
  {
    hide Leads;
    assert Fields(s) == {0, 1};
    var s1 := Next(s, BeginUpdate([1, 1]));
    LeadsStep(s, BeginUpdate([1, 1]));
    assert Fields(s1) == {0, 1};
    var s2 := Next(s1, StoreField(0));
    LeadsThenStep(s, s1, StoreField(0));
    assert {0, 1} - {0} == {1};
    var s3 := Next(s2, StoreField(1));
    LeadsThenStep(s, s2, StoreField(1));
    assert s3.writer.pending == {} && s3.slot == [1, 1];
    LeadsThenStep(s, s3, EndUpdate);
    assert Next(s3, EndUpdate) == Updated(s, 1);
  }

  lemma {:induction false} UpdateMany(s: State, k: nat)
    requires Shaped(s) && s.writer == Idle && |s.slot| == 2
    ensures Leads(s, Updated(s, k))
  {
    if k == 0 {
      assert Runnable(s, []) && After(s, []) == s;
      assert Updated(s, 0) == s;
    } else {
      hide Leads;
      UpdateMany(s, k - 1);
      UpdateOnce(Updated(s, k - 1));
      LeadsOn(s, Updated(s, k - 1), Updated(Updated(s, k - 1), 1));
      assert Updated(Updated(s, k - 1), 1) == Updated(s, k);
    }
  }

  function TwoFields(modulus: nat): State {
    State(modulus, [0, 0], 0, Idle, Ready(0), [0, 0], [[0, 0]], 0)
  }

  /** The copy mixes two updates: it is none of the completed images. */
  ghost predicate Torn(s: State) {
    s.out !in s.history
  }

  /** A fresh two-field slot read in one attempt with k updates between its two fields. */
  ghost function Interrupted(m: nat, k: nat): State {
    Updated(TwoFields(m), k).(out := [0, 1], reader := Copying(0, 0, {0, 1}))
  }

  lemma InterruptedAttempt(m: nat, k: nat)
    requires m > 0 && k > 0
    ensures Leads(TwoFields(m), Interrupted(m, k)) && Torn(Interrupted(m, k))
  {
    hide Leads;
    var s := TwoFields(m);
    LeadsStep(s, ReadCounter);
    var s1 := Next(s, ReadCounter);
    assert s1.reader == Copying(0, 0, {});
    LeadsThenStep(s, s1, CopyField(0));
    var s2 := Next(s1, CopyField(0));
    assert s2.out == [0, 0] && s2.reader.copied == {0};
    assert s2 == s.(reader := Copying(0, 0, {0}));
    UpdateMany(s2, k);
    LeadsOn(s, s2, Updated(s2, k));
    LeadsThenStep(s, Updated(s2, k), CopyField(1));
    assert {0} + {1} == {0, 1};
    assert [0, 0][1 := 1] == [0, 1];
    assert Next(Updated(s2, k), CopyField(1)) == Interrupted(m, k);
    assert [0, 1][1] != [0, 0][1] && [0, 1][0] != [1, 1][0];
  }

  /** The no-wrap assumption is needed for every counter width: exactly modulus / 2 updates inside
      one attempt bring the counter back, and the check accepts a torn copy. */
  lemma WrapAcceptsTornCopy(m: nat)
    requires m > 0 && m % 2 == 0
    ensures exists t :: Leads(TwoFields(m), t) && t.reader == Done(true) && Torn(t)
  {
    hide Leads;
    var s := Interrupted(m, m / 2);
    InterruptedAttempt(m, m / 2);
    assert Fields(s) == {0, 1};
    LeadsThenStep(TwoFields(m), s, CheckCounter);
    assert s.counter == m;
    FullTurn(m);
    assert Next(s, CheckCounter).reader == Done(true);
  }

  lemma FullTurn(m: nat)
    requires m > 0
    ensures m % m == 0
  {
    assert m == (m / m) * m + m % m;
    assert m / m == 1;
  }

  lemma {:induction false} OddCounterExhausts(s: State, k: nat)
    requires Shaped(s) && Visible(s) % 2 == 1 && s.reader.Ready? && s.reader.attempt + k == ATTEMPTS
    ensures Leads(s, s.(reader := Done(false)))
    decreases k
  {
    hide Leads;
    if k == 0 {
      LeadsStep(s, GiveUp);
    } else {
      var s1 := Next(s, ReadCounter);
      LeadsStep(s, ReadCounter);
      OddCounterExhausts(s1, k - 1);
      LeadsOn(s, s1, s1.(reader := Done(false)));
    }
  }

  /** One interrupted attempt fails its check, and the writer begins another update. */
  ghost function Retrying(m: nat): State {
    Interrupted(m, 1).(reader := Ready(1), counter := 3, writer := Writing([1, 1], {0, 1}))
  }

  lemma AttemptFails(m: nat)
    requires m >= 4
    ensures Shaped(Interrupted(m, 1)) && Enabled(Interrupted(m, 1), CheckCounter)
    ensures Next(Interrupted(m, 1), CheckCounter) == Interrupted(m, 1).(reader := Ready(1))
  {
    assert Fields(Interrupted(m, 1)) == {0, 1};
    assert Visible(Interrupted(m, 1)) == 2;
  }

  lemma NextUpdateBegins(m: nat)
    requires m > 0
    ensures var s := Interrupted(m, 1).(reader := Ready(1));
            Shaped(s) && Enabled(s, BeginUpdate([1, 1])) && Next(s, BeginUpdate([1, 1])) == Retrying(m)
  {
    var s := Interrupted(m, 1).(reader := Ready(1));
    assert Fields(s) == {0, 1};
  }

  lemma RetryingIsTorn(m: nat)
    requires m >= 4
    ensures Shaped(Retrying(m)) && Visible(Retrying(m)) == 3 && Torn(Retrying(m).(reader := Done(false)))
    ensures Retrying(m).reader == Ready(1)
  {
    var s := Retrying(m);
    assert Fields(s) == {0, 1};
    assert s.history == [[0, 0], [1, 1]] && s.out == [0, 1];
    assert [0, 1][1] != [0, 0][1] && [0, 1][0] != [1, 1][0];
  }

  /** After eight failed attempts the function returns all the same, and its output can be torn. */
  lemma GivingUpKeepsTornCopy(m: nat)
    requires m >= 4 && m % 2 == 0
    ensures exists t :: Leads(TwoFields(m), t) && t.reader == Done(false) && Torn(t)
  {
    hide Leads, Next, Interrupted, Enabled, Shaped, Torn, Visible, TwoFields, Retrying;
    InterruptedAttempt(m, 1);
    AttemptFails(m);
    LeadsThenStep(TwoFields(m), Interrupted(m, 1), CheckCounter);
    NextUpdateBegins(m);
    LeadsThenStep(TwoFields(m), Interrupted(m, 1).(reader := Ready(1)), BeginUpdate([1, 1]));
    RetryingIsTorn(m);
    OddCounterExhausts(Retrying(m), 7);
    var t := Retrying(m).(reader := Done(false));
    LeadsOn(TwoFields(m), Retrying(m), t);
  }

  // ----- which slot is read

  const NO_THREAD: int := -1

  /** CurrentTid: the thread that hit a breakpoint, or else the owner of the first claimed slot. */
  method CurrentThread(tids: seq<int>, bpHit: bool, bpHitTid: int) returns (tid: int)
    ensures bpHit ==> tid == bpHitTid
    ensures !bpHit && tid == -1 ==> forall i :: 0 <= i < |tids| ==> tids[i] == -1
    ensures !bpHit && tid != -1 ==>
      exists i :: 0 <= i < |tids| && tids[i] == tid && forall j :: 0 <= j < i ==> tids[j] == -1
  {
    if bpHit { return bpHitTid; }
    for i := 0 to |tids|
      invariant forall j :: 0 <= j < i ==> tids[j] == NO_THREAD
    {
      if tids[i] != NO_THREAD { return tids[i]; }
    }
    tid := NO_THREAD;
  }

  /** The slot selection of ReadRegs: the first slot owned by the current thread, if any. */
  method SelectSlot(tids: seq<int>, bpHit: bool, bpHitTid: int) returns (found: bool, slot: nat)
    ensures found ==> slot < |tids| && tids[slot] != -1 && tids[slot] !in tids[..slot]
    ensures found && bpHit ==> tids[slot] == bpHitTid
    ensures found && !bpHit ==> forall j :: 0 <= j < slot ==> tids[j] == -1
    ensures !found ==> if bpHit then bpHitTid == -1 || bpHitTid !in tids
                       else forall i :: 0 <= i < |tids| ==> tids[i] == -1
  {
    found, slot := false, 0;
    var tid := CurrentThread(tids, bpHit, bpHitTid);
    if tid == NO_THREAD { return; }
    for i := 0 to |tids|
      invariant tid !in tids[..i]
    {
      if tids[i] == tid { return true, i; }
    }
  }
}
