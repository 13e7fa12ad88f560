/** smtp.c: the mail counters that all client threads share, under any interleaving of their atomic increments. */
module SmtpCounters {
  import opened SmtpSession

  datatype Counter = Received | DeliveredLocal | SentOn | MaildirFailure | RelayFailure

  datatype Counts = Counts(received: nat, delivered: nat, sent: nat, writeFailures: nat, relayFailures: nat)

  const ZERO := Counts(0, 0, 0, 0, 0)

  /** The increments of one turn, in order: one when the body is in, one when its fate is known. */
  function Increments(e: Effect): seq<Counter> {
    match e
    case Stored(_, _, _, ok) => [Received, if ok then DeliveredLocal else MaildirFailure]
    case Relayed(_, _, _, ok) => [Received, if ok then SentOn else RelayFailure]
    case NoDomain(_) => [Received, RelayFailure]
    case _ => []
  }

  /** All increments of a session. */
  function Program(effects: seq<Effect>): seq<Counter> {
    if effects == [] then []
    else Program(effects[..|effects| - 1]) + Increments(effects[|effects| - 1])
  }

  function Bump(n: Counts, c: Counter): Counts {
    match c
    case Received => n.(received := n.received + 1)
    case DeliveredLocal => n.(delivered := n.delivered + 1)
    case SentOn => n.(sent := n.sent + 1)
    case MaildirFailure => n.(writeFailures := n.writeFailures + 1)
    case RelayFailure => n.(relayFailures := n.relayFailures + 1)
  }

  function Get(n: Counts, c: Counter): nat {
    match c
    case Received => n.received
    case DeliveredLocal => n.delivered
    case SentOn => n.sent
    case MaildirFailure => n.writeFailures
    case RelayFailure => n.relayFailures
  }

  // ---- interleavings ----

  /** How far each thread got, and the counters they share. */
  datatype World = World(done: seq<nat>, counts: Counts)

  function Start(threads: seq<seq<Counter>>): World {
    World(seq(|threads|, _ => 0), ZERO)
  }

  predicate Consistent(threads: seq<seq<Counter>>, w: World) {
    |w.done| == |threads| && forall i :: 0 <= i < |threads| ==> w.done[i] <= |threads[i]|
  }

  /** One atomic increment of thread i, if it has any left. */
  function Step(threads: seq<seq<Counter>>, w: World, i: nat): World
    requires Consistent(threads, w)
  {
    if i < |threads| && w.done[i] < |threads[i]| then
      World(w.done[i := w.done[i] + 1], Bump(w.counts, threads[i][w.done[i]]))
    else w
  }

  function Interleave(threads: seq<seq<Counter>>, schedule: seq<nat>): (w: World)
    ensures Consistent(threads, w)
  {
    if schedule == [] then Start(threads)
    else Step(threads, Interleave(threads, schedule[..|schedule| - 1]), schedule[|schedule| - 1])
  }

  // ---- conservation ----

  /** A thread between the two increments of a message has done an odd number of them. */
  function InFlight(done: seq<nat>): nat {
    if done == [] then 0
    else InFlight(done[..|done| - 1]) + done[|done| - 1] % 2
  }

  predicate Alternates(p: seq<Counter>) {
    |p| % 2 == 0 && forall k :: 0 <= k < |p| ==> (p[k] == Received <==> k % 2 == 0)
  }

  lemma {:induction false} ProgramAlternates(effects: seq<Effect>)
    ensures Alternates(Program(effects))
  {
    if effects != [] {
      var n := |effects| - 1;
      ProgramAlternates(effects[..n]);
      var p, q := Program(effects[..n]), Increments(effects[n]);
      forall k | 0 <= k < |p + q| ensures (p + q)[k] == Received <==> k % 2 == 0 {
        if k >= |p| {
          assert (p + q)[k] == q[k - |p|];
        }
      }
    }
  }

  lemma {:induction false} InFlightStep(done: seq<nat>, i: nat)
    requires i < |done|
    ensures InFlight(done[i := done[i] + 1]) == InFlight(done) + (if done[i] % 2 == 0 then 1 else -1)
  {
    var n := |done| - 1;
    var done' := done[i := done[i] + 1];
    if i == n {
      assert done'[..n] == done[..n];
    } else {
      assert done'[..n] == done[..n][i := done[i] + 1];
      InFlightStep(done[..n], i);
    }
  }

  lemma {:induction false} NoneInFlight(done: seq<nat>)
    requires forall i :: 0 <= i < |done| ==> done[i] % 2 == 0
    ensures InFlight(done) == 0
  {
    if done != [] {
      NoneInFlight(done[..|done| - 1]);
    }
  }

  predicate Balanced(w: World) {
    w.counts.received ==
    w.counts.delivered + w.counts.sent + w.counts.writeFailures + w.counts.relayFailures + InFlight(w.done)
  }

  /** At every moment of every interleaving each received message is delivered, sent on, failed or in flight. */
  lemma {:induction false} AlwaysBalanced(sessions: seq<seq<Effect>>, schedule: seq<nat>)
    ensures var threads := seq(|sessions|, i requires 0 <= i < |sessions| => Program(sessions[i]));
            Balanced(Interleave(threads, schedule))
  {
    var threads := seq(|sessions|, i requires 0 <= i < |sessions| => Program(sessions[i]));
    if schedule == [] {
      NoneInFlight(Start(threads).done);
    } else {
      var n := |schedule| - 1;
      AlwaysBalanced(sessions, schedule[..n]);
      var w, i := Interleave(threads, schedule[..n]), schedule[n];
      if i < |threads| && w.done[i] < |threads[i]| {
        ProgramAlternates(sessions[i]);
        InFlightStep(w.done, i);
      }
    }
  }

  // ---- no increment is lost ----

  function Occurrences(p: seq<Counter>, n: nat, c: Counter): nat
    requires n <= |p|
  {
    if n == 0 then 0 else Occurrences(p, n - 1, c) + (if p[n - 1] == c then 1 else 0)
  }

  /** How often the first k threads have bumped c. */
  function Total(threads: seq<seq<Counter>>, done: seq<nat>, k: nat, c: Counter): nat
    requires k <= |threads| == |done|
    requires forall i :: 0 <= i < |threads| ==> done[i] <= |threads[i]|
  {
    if k == 0 then 0 else Total(threads, done, k - 1, c) + Occurrences(threads[k - 1], done[k - 1], c)
  }

  lemma {:induction false} TotalStep(threads: seq<seq<Counter>>, done: seq<nat>, i: nat, k: nat, c: Counter)
    requires k <= |threads| == |done| && i < |threads|
    requires forall j :: 0 <= j < |threads| ==> done[j] <= |threads[j]|
    requires done[i] < |threads[i]|
    ensures Total(threads, done[i := done[i] + 1], k, c) ==
            Total(threads, done, k, c) + (if i < k && threads[i][done[i]] == c then 1 else 0)
  {
    if k > 0 {
      TotalStep(threads, done, i, k - 1, c);
    }
  }

  /** Every counter is at every moment exactly the number of its increments made so far. */
  lemma {:induction false} CountsAreExact(threads: seq<seq<Counter>>, schedule: seq<nat>, c: Counter)
    ensures var w := Interleave(threads, schedule); Get(w.counts, c) == Total(threads, w.done, |threads|, c)
  {
    if schedule == [] {
      NothingDone(threads, |threads|, c);
    } else {
      var n := |schedule| - 1;
      CountsAreExact(threads, schedule[..n], c);
      var w, i := Interleave(threads, schedule[..n]), schedule[n];
      if i < |threads| && w.done[i] < |threads[i]| {
        TotalStep(threads, w.done, i, |threads|, c);
      }
    }
  }

  lemma {:induction false} NothingDone(threads: seq<seq<Counter>>, k: nat, c: Counter)
    requires k <= |threads|
    ensures Total(threads, Start(threads).done, k, c) == 0
  {
    if k > 0 {
      NothingDone(threads, k - 1, c);
    }
  }

  /** Once all sessions have ended, how they were interleaved no longer shows. */
  lemma OrderDoesNotMatter(threads: seq<seq<Counter>>, a: seq<nat>, b: seq<nat>, c: Counter)
    requires Interleave(threads, a).done == Interleave(threads, b).done
    ensures Get(Interleave(threads, a).counts, c) == Get(Interleave(threads, b).counts, c)
  {
    CountsAreExact(threads, a, c);
    CountsAreExact(threads, b, c);
  }
}
