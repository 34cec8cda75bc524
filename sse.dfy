/**
 * The notification service's server-sent-events registry (`SSEController`).
 * The `CopyOnWriteArrayList` of emitters is a sequence field that
 * `add`/`remove` reassign; iterating it sees a snapshot. Whether a send
 * throws is decided outside the model (the client, the network), so it is a
 * parameter: a flag for one send, the set of failing emitters for a broadcast.
 */
module Sse {
  import opened UserEvents

  class SseEmitter {
    /** Everything written to this client, in order. */
    var received: seq<Event>

    constructor ()
      ensures received == []
    {
      received := [];
    }

    /**
     * `send(event)`: `fails` says whether the write throws (the client went
     * away, the connection broke), which the environment decides. Returns
     * false where the Java method throws, and then writes nothing.
     */
    method Send(event: Event, fails: bool) returns (ok: bool)
      modifies this`received
      ensures ok == !fails
      ensures received == if ok then old(received) + [event] else old(received)
    {
      ok := !fails;
      if ok {
        received := received + [event];
      }
    }
  }

  predicate Distinct<T(==)>(s: seq<T>)
  {
    forall i, j :: 0 <= i < j < |s| ==> s[i] != s[j]
  }

  /** `List.remove(o)`: drops the first occurrence of `x`, if any. */
  function RemoveFirst<T(==)>(s: seq<T>, x: T): (r: seq<T>)
    ensures |r| == if x in s then |s| - 1 else |s|
  {
    if s == [] then []
    else if s[0] == x then s[1..]
    else [s[0]] + RemoveFirst(s[1..], x)
  }

  /** The emitters of `s` outside `broken`, in their order: those left after a broadcast. */
  function Survivors(s: seq<SseEmitter>, broken: set<SseEmitter>): (r: seq<SseEmitter>)
    ensures broken == {} ==> r == s
  {
    if s == [] then []
    else
      (if s[0] !in broken then [s[0]] else []) + Survivors(s[1..], broken)
  }

  // ---------------------------------------------------------------------------
  // Lemmas about the registry operations

  /** In a registry without duplicates, removal takes the emitter out and keeps everything else. */
  lemma {:induction false} RemoveFirstDistinct<T>(s: seq<T>, x: T)
    requires Distinct(s)
    ensures Distinct(RemoveFirst(s, x))
    ensures x !in RemoveFirst(s, x)
    ensures forall y :: y != x ==> (y in RemoveFirst(s, x) <==> y in s)
  {
    if s != [] {
      assert Distinct(s[1..]);
      assert s[0] !in s[1..];
      RemoveFirstDistinct(s[1..], x);
      assert forall y :: y in s <==> y == s[0] || y in s[1..];
    }
  }

  /** Removing an emitter that is not registered changes nothing. */
  lemma {:induction false} RemoveFirstAbsent<T>(s: seq<T>, x: T)
    requires x !in s
    ensures RemoveFirst(s, x) == s
  {
    if s != [] {
      assert s[1..] + [] == s[1..] && x !in s[1..];
      RemoveFirstAbsent(s[1..], x);
      assert [s[0]] + s[1..] == s;
    }
  }

  /** The completion and timeout callbacks both remove: firing both is the same as firing one. */
  lemma RemoveTwice<T>(s: seq<T>, x: T)
    requires Distinct(s)
    ensures RemoveFirst(RemoveFirst(s, x), x) == RemoveFirst(s, x)
  {
    RemoveFirstDistinct(s, x);
    RemoveFirstAbsent(RemoveFirst(s, x), x);
  }

  /** Removing the emitter at the head of the unvisited part, when the visited part lacks it. */
  lemma {:induction false} RemoveAfterPrefix<T>(p: seq<T>, x: T, rest: seq<T>)
    requires x !in p
    ensures RemoveFirst(p + [x] + rest, x) == p + rest
  {
    if p == [] {
      assert p + [x] + rest == [x] + rest;
    } else {
      assert (p + [x] + rest)[0] == p[0];
      assert (p + [x] + rest)[1..] == p[1..] + [x] + rest;
      RemoveAfterPrefix(p[1..], x, rest);
      assert p + rest == [p[0]] + (p[1..] + rest);
    }
  }

  /** An emitter of the registry survives exactly when its send succeeds. */
  lemma {:induction false} SurvivorsMembers(s: seq<SseEmitter>, broken: set<SseEmitter>)
    ensures forall e :: e in Survivors(s, broken) ==> e in s && e !in broken
    ensures forall e :: e in s ==> (e in Survivors(s, broken) <==> e !in broken)
  {
    if s != [] {
      SurvivorsMembers(s[1..], broken);
      assert forall e :: e in s <==> e == s[0] || e in s[1..];
    }
  }

  lemma {:induction false} SurvivorsAppend(a: seq<SseEmitter>, b: seq<SseEmitter>, broken: set<SseEmitter>)
    ensures Survivors(a + b, broken) == Survivors(a, broken) + Survivors(b, broken)
  {
    if a == [] {
      assert a + b == b;
    } else {
      assert (a + b)[0] == a[0];
      assert (a + b)[1..] == a[1..] + b;
      SurvivorsAppend(a[1..], b, broken);
    }
  }

  /** A single emitter survives exactly when its send succeeds. */
  lemma SurvivorsSingleton(e: SseEmitter, broken: set<SseEmitter>)
    ensures Survivors([e], broken) == if e !in broken then [e] else []
  {
    assert [e][1..] == [];
  }

  /**
   * One step of the broadcast loop: the registry holds the survivors of the
   * visited part of the snapshot followed by the unvisited part; handling
   * `snapshot[i]` (keeping it, or removing it when its send fails) moves it
   * from the second part to the first.
   */
  lemma BroadcastStep(snapshot: seq<SseEmitter>, i: nat, registry: seq<SseEmitter>, broken: set<SseEmitter>)
    requires Distinct(snapshot) && i < |snapshot|
    requires registry == Survivors(snapshot[..i], broken) + snapshot[i..]
    ensures (if snapshot[i] !in broken then registry else RemoveFirst(registry, snapshot[i]))
      == Survivors(snapshot[..i + 1], broken) + snapshot[i + 1..]
    ensures snapshot[..i + 1] == snapshot[..i] + [snapshot[i]]
    ensures snapshot[i] !in snapshot[..i]
  {
    var visited, e, rest := snapshot[..i], snapshot[i], snapshot[i + 1..];
    assert snapshot[..i + 1] == visited + [e];
    assert e !in visited by {
      assert forall k :: 0 <= k < i ==> visited[k] == snapshot[k] != e;
    }
    assert registry == Survivors(visited, broken) + [e] + rest by {
      assert snapshot[i..] == [e] + rest;
    }
    assert Survivors(visited + [e], broken) == Survivors(visited, broken) + (if e !in broken then [e] else []) by {
      SurvivorsAppend(visited, [e], broken);
      SurvivorsSingleton(e, broken);
    }
    if e in broken {
      assert e !in Survivors(visited, broken) by {
        SurvivorsMembers(visited, broken);
      }
      RemoveAfterPrefix(Survivors(visited, broken), e, rest);
    }
  }

  lemma {:induction false} SurvivorsDistinct(s: seq<SseEmitter>, broken: set<SseEmitter>)
    requires Distinct(s)
    ensures Distinct(Survivors(s, broken))
  {
    if s != [] {
      assert Distinct(s[1..]);
      SurvivorsDistinct(s[1..], broken);
      SurvivorsMembers(s[1..], broken);
      assert s[0] !in s[1..];
    }
  }

  /** Two surviving emitters keep their relative order. */
  lemma {:induction false} SurvivorsKeepOrder(s: seq<SseEmitter>, broken: set<SseEmitter>, i: nat, j: nat)
    requires i < j < |s| && s[i] !in broken && s[j] !in broken
    ensures exists p, q ::
      0 <= p < q < |Survivors(s, broken)| && Survivors(s, broken)[p] == s[i] && Survivors(s, broken)[q] == s[j]
  {
    var head := if s[0] !in broken then [s[0]] else [];
    var tail := Survivors(s[1..], broken);
    assert Survivors(s, broken) == head + tail;
    if i == 0 {
      SurvivorsMembers(s[1..], broken);
      assert s[j] == s[1..][j - 1] && s[j] in tail;
      var q :| 0 <= q < |tail| && tail[q] == s[j];
      assert Survivors(s, broken)[0] == s[0] && Survivors(s, broken)[q + 1] == s[j];
    } else {
      SurvivorsKeepOrder(s[1..], broken, i - 1, j - 1);
      var p, q :| 0 <= p < q < |tail| && tail[p] == s[i] && tail[q] == s[j];
      assert Survivors(s, broken)[p + |head|] == s[i] && Survivors(s, broken)[q + |head|] == s[j];
    }
  }

  // ---------------------------------------------------------------------------

  class SSEController {
    var emitters: seq<SseEmitter>

    /** Every emitter is registered at most once (each registration creates a new one). */
    ghost predicate Valid()
      reads this
    {
      Distinct(emitters)
    }

    constructor ()
      ensures Valid() && emitters == []
    {
      emitters := [];
    }

    /** `streamNotifications`: appends one new emitter, whose callbacks are `OnCompletion` and `OnTimeout`. */
    method StreamNotifications() returns (emitter: SseEmitter)
      requires Valid()
      modifies this`emitters
      ensures Valid()
      ensures fresh(emitter) && emitter.received == []
      ensures emitters == old(emitters) + [emitter]
    {
      emitter := new SseEmitter();
      emitters := emitters + [emitter];
    }

    /** The completion callback registered by `streamNotifications`. */
    method OnCompletion(emitter: SseEmitter)
      requires Valid()
      modifies this`emitters
      ensures Valid()
      ensures emitters == RemoveFirst(old(emitters), emitter)
      ensures emitter !in emitters
      ensures forall e :: e != emitter ==> (e in emitters <==> e in old(emitters))
    {
      RemoveFirstDistinct(emitters, emitter);
      emitters := RemoveFirst(emitters, emitter);
    }

    /** The timeout callback registered by `streamNotifications`: the same removal. */
    method OnTimeout(emitter: SseEmitter)
      requires Valid()
      modifies this`emitters
      ensures Valid()
      ensures emitters == RemoveFirst(old(emitters), emitter)
      ensures emitter !in emitters
      ensures forall e :: e != emitter ==> (e in emitters <==> e in old(emitters))
    {
      RemoveFirstDistinct(emitters, emitter);
      emitters := RemoveFirst(emitters, emitter);
    }

    /**
     * The body of the loop in `sendEventToClients`: one send, and on failure
     * the removal of that emitter from the live registry.
     */
    method Deliver(emitter: SseEmitter, event: Event, fails: bool) returns (ok: bool)
      modifies this`emitters, emitter`received
      ensures ok == !fails
      ensures emitter.received == old(emitter.received) + (if ok then [event] else [])
      ensures emitters == if ok then old(emitters) else RemoveFirst(old(emitters), emitter)
    {
      ok := emitter.Send(event, fails);
      if !ok {
        emitters := RemoveFirst(emitters, emitter);
      }
    }

    /**
     * `sendEventToClients`: iterates the emitters registered when the
     * iteration starts and returns that snapshot (`attempted`); `broken` holds the emitters
     * whose send throws during this broadcast. Every other emitter receives
     * the event once, a failed send removes only its own emitter, and the
     * survivors keep their order.
     */
    method SendEventToClients(event: Event, broken: set<SseEmitter>) returns (attempted: seq<SseEmitter>)
      requires Valid()
      modifies this`emitters, emitters`received
      ensures Valid()
      ensures attempted == old(emitters)
      ensures emitters == Survivors(old(emitters), broken)
      ensures forall e :: e in old(emitters) ==>
        e.received == old(e.received) + (if e !in broken then [event] else [])
      ensures old(emitters) == [] ==> emitters == [] && attempted == []
    {
      var snapshot := emitters;
      attempted := [];
      var i := 0;
      while i < |snapshot|
        invariant 0 <= i <= |snapshot|
        invariant attempted == snapshot[..i]
        invariant emitters == Survivors(snapshot[..i], broken) + snapshot[i..]
        invariant forall e :: e in snapshot ==>
          e.received == old(e.received) + (if e in attempted && e !in broken then [event] else [])
      {
        var emitter := snapshot[i];
        ghost var registry := emitters;
        var ok := Deliver(emitter, event, emitter in broken);
        BroadcastStep(snapshot, i, registry, broken);
        assert emitters == Survivors(snapshot[..i + 1], broken) + snapshot[i + 1..];
        attempted := attempted + [emitter];
        i := i + 1;
      }
      assert snapshot[..i] == snapshot;
      assert emitters == Survivors(snapshot, broken);
      SurvivorsDistinct(snapshot, broken);
    }
  }
}
