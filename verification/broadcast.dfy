/** The two broadcasts: walk a snapshot of the registry, collect the endpoints marked for
    removal, and remove them only after the whole walk. */
module Broadcast {
  import opened Wrappers
  import opened Subscriptions
  import opened PushRequest
  import opened Delivery

  /** What one subscriber contributes to a broadcast: marked for removal, kept, skipped
      because its encryption failed, or an exception that leaves the loop. */
  datatype Step = Mark | Keep | Skip | Escape

  function StepOf(a: Attempt): Step {
    match a
    case Returned(remove) => if remove then Mark else Keep
    case Threw => Escape
  }

  /** The padding length the payload broadcast passes to the encryptor. */
  const Padding := 0

  function Encrypted(env: Env, plaintext: string, sub: Subscription): Result<Bytes, EncryptFailure> {
    env.encrypt(plaintext, sub.keys.p256dh, sub.keys.auth, Padding)
  }

  /** One subscriber of the broadcast without payload: marked exactly when sendPushMessage
      returns true, and an escape exactly when it throws; nothing is skipped. */
  function NoPayloadStep(env: Env, sub: Subscription, now: int): (step: Step)
    ensures step == Mark <==> SendPushMessage(env, sub, None, now) == Returned(true)
    ensures step == Escape <==> SendPushMessage(env, sub, None, now).Threw?
    ensures step != Skip
  {
    StepOf(SendPushMessage(env, sub, None, now))
  }

  /** One subscriber of the payload broadcast: encrypt for its keys, then deliver. A caught
      encryption exception skips it; an uncaught one, or a throwing delivery, escapes. */
  function PayloadStep(env: Env, plaintext: string, sub: Subscription, now: int): (step: Step)
    ensures step == Skip <==> Encrypted(env, plaintext, sub).Failure? && Caught(Encrypted(env, plaintext, sub).error)
    ensures step == Mark <==>
              Encrypted(env, plaintext, sub).Success? &&
              SendPushMessage(env, sub, Some(Encrypted(env, plaintext, sub).value), now) == Returned(true)
    ensures step == Escape <==>
              || (Encrypted(env, plaintext, sub).Failure? && !Caught(Encrypted(env, plaintext, sub).error))
              || (Encrypted(env, plaintext, sub).Success? &&
                  SendPushMessage(env, sub, Some(Encrypted(env, plaintext, sub).value), now).Threw?)
  {
    match Encrypted(env, plaintext, sub)
    case Failure(f) => if Caught(f) then Skip else Escape
    case Success(record) => StepOf(SendPushMessage(env, sub, Some(record), now))
  }

  function NoPayloadSteps(env: Env, snap: seq<Subscription>, times: seq<int>): (steps: seq<Step>)
    requires |times| == |snap|
    ensures |steps| == |snap|
    ensures forall i :: 0 <= i < |snap| ==> steps[i] == NoPayloadStep(env, snap[i], times[i])
  {
    seq(|snap|, i requires 0 <= i < |snap| => NoPayloadStep(env, snap[i], times[i]))
  }

  function PayloadSteps(env: Env, plaintext: string, snap: seq<Subscription>, times: seq<int>): (steps: seq<Step>)
    requires |times| == |snap|
    ensures |steps| == |snap|
    ensures forall i :: 0 <= i < |snap| ==> steps[i] == PayloadStep(env, plaintext, snap[i], times[i])
  {
    seq(|snap|, i requires 0 <= i < |snap| => PayloadStep(env, plaintext, snap[i], times[i]))
  }

  /** The loop over the snapshot from position `k` on, with the endpoints marked so far in
      `failed`; None when an exception leaves the loop. What it collects is the endpoints
      already marked plus endpoints of the subscribers it visits. */
  function Collect(snap: seq<Subscription>, steps: seq<Step>, k: nat, failed: set<string>): (r: Option<set<string>>)
    requires |steps| == |snap| && k <= |snap|
    ensures r.None? ==> exists i :: k <= i < |steps| && steps[i] == Escape
    ensures r.Some? ==> failed <= r.value
    ensures r.Some? ==> forall e :: e in r.value ==> e in failed || exists i :: k <= i < |snap| && snap[i].endpoint == e
    decreases |snap| - k
  {
    if k == |snap| then Some(failed)
    else match steps[k]
      case Escape => None
      case Mark => Collect(snap, steps, k + 1, failed + {snap[k].endpoint})
      case _ => Collect(snap, steps, k + 1, failed)
  }

  ghost predicate EscapesFrom(steps: seq<Step>, k: nat) {
    exists i :: k <= i < |steps| && steps[i] == Escape
  }

  /** The endpoints of the subscribers at or after `k` whose step is Mark. */
  ghost function MarkedFrom(snap: seq<Subscription>, steps: seq<Step>, k: nat): set<string>
    requires |steps| == |snap|
  {
    set i | k <= i < |snap| && steps[i] == Mark :: snap[i].endpoint
  }

  ghost function Marked(snap: seq<Subscription>, steps: seq<Step>): set<string>
    requires |steps| == |snap|
  {
    MarkedFrom(snap, steps, 0)
  }

  lemma {:induction false} CollectMarks(snap: seq<Subscription>, steps: seq<Step>, k: nat, failed: set<string>)
    requires |steps| == |snap| && k <= |snap|
    ensures EscapesFrom(steps, k) ==> Collect(snap, steps, k, failed) == None
    ensures !EscapesFrom(steps, k) ==> Collect(snap, steps, k, failed) == Some(failed + MarkedFrom(snap, steps, k))
    decreases |snap| - k
  {
    if k == |snap| {
      assert MarkedFrom(snap, steps, k) == {};
      assert failed + MarkedFrom(snap, steps, k) == failed;
    } else {
      assert EscapesFrom(steps, k) <==> steps[k] == Escape || EscapesFrom(steps, k + 1);
      if steps[k] == Escape {
        assert EscapesFrom(steps, k);
        assert Collect(snap, steps, k, failed) == None;
      } else if steps[k] == Mark {
        CollectMarks(snap, steps, k + 1, failed + {snap[k].endpoint});
        assert Collect(snap, steps, k, failed) == Collect(snap, steps, k + 1, failed + {snap[k].endpoint});
        assert MarkedFrom(snap, steps, k) == {snap[k].endpoint} + MarkedFrom(snap, steps, k + 1);
        assert failed + {snap[k].endpoint} + MarkedFrom(snap, steps, k + 1) == failed + MarkedFrom(snap, steps, k);
        assert !EscapesFrom(steps, k) <==> !EscapesFrom(steps, k + 1);
      } else {
        CollectMarks(snap, steps, k + 1, failed);
        assert MarkedFrom(snap, steps, k) == MarkedFrom(snap, steps, k + 1);
      }
    }
  }

  /** After a broadcast: either every marked endpoint is gone at once, or an exception left
      the loop and the registry is untouched. */
  datatype Outcome = Completed(removed: set<string>, registry: Registry) | Aborted(registry: Registry)

  /** The broadcast loop followed by the removal of the collected endpoints, as written. */
  function Reconcile(reg: Registry, snap: seq<Subscription>, steps: seq<Step>): (r: Outcome)
    requires |steps| == |snap|
    ensures r.Aborted? <==> exists i :: 0 <= i < |steps| && steps[i] == Escape
    ensures r.Aborted? ==> r.registry == reg
    ensures r.Completed? ==> r.removed == (set i | 0 <= i < |snap| && steps[i] == Mark :: snap[i].endpoint)
    ensures r.Completed? ==> r.registry.Keys == reg.Keys - r.removed
    ensures r.Completed? ==> forall e :: e in r.registry ==> r.registry[e] == reg[e]
  {
    CollectMarks(snap, steps, 0, {});
    match Collect(snap, steps, 0, {})
    case None => Aborted(reg)
    case Some(failed) => Completed(failed, RemoveAll(reg, failed))
  }

  /** The broadcast without payload; `times[i]` is the clock reading of the i-th attempt. */
  function BroadcastWithoutPayload(env: Env, reg: Registry, snap: seq<Subscription>, times: seq<int>): (r: Outcome)
    requires |times| == |snap|
    ensures r.Aborted? <==> exists i :: 0 <= i < |snap| && SendPushMessage(env, snap[i], None, times[i]).Threw?
    ensures r.Aborted? ==> r.registry == reg
    ensures r.Completed? ==>
              r.removed == (set i | 0 <= i < |snap| && SendPushMessage(env, snap[i], None, times[i]) == Returned(true) :: snap[i].endpoint)
    ensures r.Completed? ==> r.registry.Keys == reg.Keys - r.removed
    ensures r.Completed? ==> forall e :: e in r.registry ==> r.registry[e] == reg[e]
  {
    Reconcile(reg, snap, NoPayloadSteps(env, snap, times))
  }

  /** The broadcast of `plaintext`, encrypted separately for every subscriber. */
  function BroadcastWithPayload(env: Env, plaintext: string, reg: Registry, snap: seq<Subscription>, times: seq<int>): (r: Outcome)
    requires |times| == |snap|
    ensures r.Aborted? <==>
              exists i :: 0 <= i < |snap| &&
                match Encrypted(env, plaintext, snap[i])
                case Failure(f) => !Caught(f)
                case Success(record) => SendPushMessage(env, snap[i], Some(record), times[i]).Threw?
    ensures r.Aborted? ==> r.registry == reg
    ensures r.Completed? ==>
              r.removed == (set i | 0 <= i < |snap| && Encrypted(env, plaintext, snap[i]).Success? &&
                                    SendPushMessage(env, snap[i], Some(Encrypted(env, plaintext, snap[i]).value), times[i]) == Returned(true)
                                :: snap[i].endpoint)
    ensures r.Completed? ==> r.registry.Keys == reg.Keys - r.removed
    ensures r.Completed? ==> forall e :: e in r.registry ==> r.registry[e] == reg[e]
  {
    Reconcile(reg, snap, PayloadSteps(env, plaintext, snap, times))
  }

  /** `s` without its element at position `i`. */
  function Without<T>(s: seq<T>, i: nat): (r: seq<T>)
    requires i < |s|
    ensures |r| == |s| - 1
    ensures forall j :: 0 <= j < i ==> r[j] == s[j]
    ensures forall j :: i <= j < |r| ==> r[j] == s[j + 1]
  {
    s[..i] + s[i + 1..]
  }

  /** A subscriber that is kept or skipped has no influence on the outcome: the broadcast
      over the other subscribers ends the same way. */
  lemma {:induction false} UnmarkedSubscriberIsIrrelevant(reg: Registry, snap: seq<Subscription>, steps: seq<Step>, i: nat)
    requires |steps| == |snap| && i < |snap|
    requires steps[i] == Keep || steps[i] == Skip
    ensures Reconcile(reg, snap, steps) == Reconcile(reg, Without(snap, i), Without(steps, i))
  {
    var snap', steps' := Without(snap, i), Without(steps, i);
    assert EscapesFrom(steps, 0) <==> EscapesFrom(steps', 0) by {
      if EscapesFrom(steps, 0) {
        var j :| 0 <= j < |steps| && steps[j] == Escape;
        if j < i { assert steps'[j] == Escape; } else { assert steps'[j - 1] == Escape; }
      }
      if EscapesFrom(steps', 0) {
        var j :| 0 <= j < |steps'| && steps'[j] == Escape;
        if j < i { assert steps[j] == Escape; } else { assert steps[j + 1] == Escape; }
      }
    }
    assert MarkedFrom(snap, steps, 0) == MarkedFrom(snap', steps', 0) by {
      forall e | e in MarkedFrom(snap, steps, 0)
        ensures e in MarkedFrom(snap', steps', 0)
      {
        var j :| 0 <= j < |snap| && steps[j] == Mark && snap[j].endpoint == e;
        if j < i { assert steps'[j] == Mark && snap'[j].endpoint == e; }
        else { assert steps'[j - 1] == Mark && snap'[j - 1].endpoint == e; }
      }
      forall e | e in MarkedFrom(snap', steps', 0)
        ensures e in MarkedFrom(snap, steps, 0)
      {
        var j :| 0 <= j < |snap'| && steps'[j] == Mark && snap'[j].endpoint == e;
        if j < i { assert steps[j] == Mark && snap[j].endpoint == e; }
        else { assert steps[j + 1] == Mark && snap[j + 1].endpoint == e; }
      }
    }
    CollectMarks(snap, steps, 0, {});
    CollectMarks(snap', steps', 0, {});
  }

  /** A subscriber whose encryption throws one of the caught exceptions is skipped without
      stopping the others: the broadcast ends as if it had not been in the snapshot. */
  lemma EncryptionFailureIsSkipped(env: Env, plaintext: string, reg: Registry, snap: seq<Subscription>, times: seq<int>, i: nat)
    requires |times| == |snap| && i < |snap|
    requires Encrypted(env, plaintext, snap[i]).Failure? && Caught(Encrypted(env, plaintext, snap[i]).error)
    ensures BroadcastWithPayload(env, plaintext, reg, snap, times)
         == BroadcastWithPayload(env, plaintext, reg, Without(snap, i), Without(times, i))
  {
    var steps := PayloadSteps(env, plaintext, snap, times);
    assert PayloadSteps(env, plaintext, Without(snap, i), Without(times, i)) == Without(steps, i);
    UnmarkedSubscriberIsIrrelevant(reg, snap, steps, i);
  }

  /** A subscriber whose encryption throws one of the caught exceptions is never marked for
      removal, so its entry survives the broadcast. */
  lemma EncryptionFailureIsNotRemoved(env: Env, plaintext: string, reg: Registry, snap: seq<Subscription>, times: seq<int>, i: nat)
    requires |times| == |snap| && i < |snap| && IsSnapshot(reg, snap)
    requires Encrypted(env, plaintext, snap[i]).Failure? && Caught(Encrypted(env, plaintext, snap[i]).error)
    ensures var r := BroadcastWithPayload(env, plaintext, reg, snap, times);
            r.Completed? ==> snap[i].endpoint !in r.removed && snap[i].endpoint in r.registry
  {
  }

  /** With the registry's own values as snapshot, a completed broadcast keeps exactly the
      entries not marked for removal, each unchanged. */
  lemma ReconcileRetainsUnmarked(reg: Registry, snap: seq<Subscription>, steps: seq<Step>)
    requires |steps| == |snap| && IsSnapshot(reg, snap)
    ensures var r := Reconcile(reg, snap, steps);
            r.Completed? ==>
              && r.removed <= reg.Keys
              && (forall i :: 0 <= i < |snap| ==> (snap[i].endpoint in r.registry <==> steps[i] != Mark))
              && (forall e :: e in r.registry ==> r.registry[e] == reg[e])
  {
  }

  /** A broadcast keeps every entry stored under its own endpoint. */
  lemma ReconcileKeepsWellKeyed(reg: Registry, snap: seq<Subscription>, steps: seq<Step>)
    requires |steps| == |snap| && WellKeyed(reg)
    ensures WellKeyed(Reconcile(reg, snap, steps).registry)
  {
  }

  /** An exception from one subscriber treated as a kept subscription. */
  function Contain(steps: seq<Step>): (r: seq<Step>)
    ensures |r| == |steps|
    ensures forall i :: 0 <= i < |steps| ==> r[i] == (if steps[i] == Escape then Keep else steps[i])
  {
    seq(|steps|, i requires 0 <= i < |steps| => if steps[i] == Escape then Keep else steps[i])
  }

  /** The broadcast with every per-subscriber exception contained: it always reaches the
      removal step and removes exactly the marked endpoints. */
  function ReconcileContained(reg: Registry, snap: seq<Subscription>, steps: seq<Step>): (r: Outcome)
    requires |steps| == |snap|
    ensures r.Completed?
    ensures r.removed == (set i | 0 <= i < |snap| && steps[i] == Mark :: snap[i].endpoint)
    ensures r.registry.Keys == reg.Keys - r.removed
    ensures forall e :: e in r.registry ==> r.registry[e] == reg[e]
    ensures (forall i :: 0 <= i < |steps| ==> steps[i] != Escape) ==> r == Reconcile(reg, snap, steps)
  {
    var contained := Contain(steps);
    assert contained == steps <== forall i :: 0 <= i < |steps| ==> steps[i] != Escape;
    assert Marked(snap, contained) == Marked(snap, steps);
    Reconcile(reg, snap, contained)
  }

  const GoneEndpoint := "https://push.example/gone"
  const FtpEndpoint := "ftp://push.example/other"

  /** A push service that answers 410 to everything, and an endpoint that java.net.URL
      parses but the HTTP request builder refuses (its scheme is not http or https). */
  function GoneServiceEnv(): Env {
    Env(
      parse := s => if s == FtpEndpoint then Some(Url("ftp", "push.example", -1, "/other", ""))
                    else Some(Url("https", "push.example", -1, "/gone", "")),
      uriAccepted := s => s != FtpEndpoint,
      sign := c => "header.payload.signature",
      publicKey := "key",
      exchange := r => Status(410),
      encrypt := (p, k, a, n) => Failure(InvalidKey))
  }

  /** One subscription whose request cannot be built keeps a gone subscription in the
      registry: the exception leaves the loop before the removal step. Containing the
      exception removes it. */
  lemma InvalidSchemeBlocksRemoval()
    ensures var gone := Subscription(GoneEndpoint, Keys("p", "a"));
            var ftp := Subscription(FtpEndpoint, Keys("p", "a"));
            var reg := map[GoneEndpoint := gone, FtpEndpoint := ftp];
            var r := BroadcastWithoutPayload(GoneServiceEnv(), reg, [gone, ftp], [0, 0]);
            var fixed := ReconcileContained(reg, [gone, ftp], NoPayloadSteps(GoneServiceEnv(), [gone, ftp], [0, 0]));
            && r.Aborted? && GoneEndpoint in r.registry
            && fixed.removed == {GoneEndpoint} && GoneEndpoint !in fixed.registry
  {
    var env := GoneServiceEnv();
    var gone := Subscription(GoneEndpoint, Keys("p", "a"));
    var ftp := Subscription(FtpEndpoint, Keys("p", "a"));
    var snap := [gone, ftp];
    assert GoneEndpoint != FtpEndpoint;
    assert SendPushMessage(env, gone, None, 0) == Returned(true);
    assert SendPushMessage(env, ftp, None, 0) == Threw;
    assert snap[1] == ftp;
    var steps := NoPayloadSteps(env, snap, [0, 0]);
    assert steps[0] == Mark && steps[1] == Escape;
    assert (set i | 0 <= i < |snap| && steps[i] == Mark :: snap[i].endpoint) == {GoneEndpoint};
  }
}
