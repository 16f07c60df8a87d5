/** The round-robin sender of the GATT streamer. */
module Streamer {
  import opened Words

  const INVALID_HANDLE: int := 0xffff

  datatype Connection = Connection(handle: int, enabled: bool, counter: int)

  predicate Active(c: Connection) {
    c.handle != INVALID_HANDLE && c.enabled
  }

  /** The test letter is increased every time; after Z comes A. */
  function Next(c: Connection): Connection {
    c.(counter := if c.counter + 1 > 90 then 65 else c.counter + 1)
  }

  // ------------------------------------------------------------------
  // Round-robin order
  // ------------------------------------------------------------------

  function Step(i: nat, n: nat): (j: nat)
    requires i < n
    ensures j < n
  {
    if i + 1 == n then 0 else i + 1
  }

  /** How many steps lead from slot `i` to slot `j`. */
  function Distance(i: nat, j: nat, n: nat): nat
    requires i < n && j < n
  {
    if i <= j then j - i else j - i + n
  }

  function Activity(conns: seq<Connection>): (act: seq<bool>)
    ensures |act| == |conns|
    ensures forall i | 0 <= i < |conns| :: act[i] <==> conns[i].handle != 0xffff && conns[i].enabled
  {
    seq(|conns|, i requires 0 <= i < |conns| => Active(conns[i]))
  }

  /** The slot the search stops at, looking at most at `fuel` slots from `i` on. */
  function Find(act: seq<bool>, i: nat, fuel: nat): Option<nat>
    requires i < |act|
    decreases fuel
  {
    if fuel == 0 then None
    else if act[i] then Some(i)
    else Find(act, Step(i, |act|), fuel - 1)
  }

  /** The slot served by one call. */
  function Serve(act: seq<bool>, i: nat): Option<nat>
    requires i < |act|
  {
    Find(act, i, |act|)
  }

  class Server {
    const connections: array<Connection>
    var connectionIndex: nat
    var notified: seq<nat>         // the slots a notification was sent on, in order

    ghost predicate Valid()
      reads this
    {
      connectionIndex < connections.Length
    }

    constructor (n: nat)
      requires n > 0
      ensures Valid() && fresh(connections) && connections.Length == n && connectionIndex == 0 && notified == []
      ensures forall i | 0 <= i < n :: connections[i].handle == INVALID_HANDLE
    {
      connections := new Connection[n](_ => Connection(INVALID_HANDLE, false, 0));
      connectionIndex, notified := 0, [];
    }

    /** The first slot with the handle. */
    method ConnectionForHandle(handle: int) returns (slot: Option<nat>)
      ensures match slot
              case Some(i) => i < connections.Length && connections[i].handle == handle
                              && forall j | 0 <= j < i :: connections[j].handle != handle
              case None => forall j | 0 <= j < connections.Length :: connections[j].handle != handle
    {
      for i := 0 to connections.Length
        invariant forall j | 0 <= j < i :: connections[j].handle != handle
      {
        if connections[i].handle == handle {
          return Some(i);
        }
      }
      slot := None;
    }

    method NextConnectionIndex()
      requires Valid()
      modifies this`connectionIndex
      ensures Valid() && connectionIndex == Step(old(connectionIndex), connections.Length)
    {
      connectionIndex := connectionIndex + 1;
      if connectionIndex == connections.Length {
        connectionIndex := 0;
      }
    }

    /** Sends on the next active connection; does nothing when there is none. */
    method Stream()
      requires Valid()
      modifies this, connections
      ensures Valid()
      ensures match Serve(old(Activity(connections[..])), old(connectionIndex))
              case None =>
                connectionIndex == old(connectionIndex) && notified == old(notified)
                && connections[..] == old(connections[..])
              case Some(s) =>
                s < connections.Length && connectionIndex == Step(s, connections.Length)
                && notified == old(notified) + [s]
                && connections[..] == old(connections[..])[s := Next(old(connections[..])[s])]
    {
      var start := connectionIndex;
      ghost var conns, d, n := connections[..], 0, connections.Length;
      ghost var act := Activity(conns);
      while !Active(connections[connectionIndex])
        invariant Valid() && connections[..] == conns && notified == old(notified)
        invariant d < n && Distance(start, connectionIndex, n) == d
        invariant Serve(act, start) == Find(act, connectionIndex, n - d)
        decreases n - d
      {
        NextConnectionIndex();
        d := d + 1;
        if connectionIndex == start {
          return;
        }
      }
      var context := connections[connectionIndex];
      connections[connectionIndex] := Next(context);
      notified := notified + [connectionIndex];
      NextConnectionIndex();
    }
  }

  // ------------------------------------------------------------------
  // What one call serves
  // ------------------------------------------------------------------

  lemma StepDistance(i: nat, j: nat, n: nat)
    requires i < n && j < n
    ensures Distance(i, j, n) == if i == j then 0 else 1 + Distance(Step(i, n), j, n)
    ensures Distance(i, j, n) < n
  {
  }

  /** The call serves the first active slot from the index on, going round; none only if none is active. */
  lemma {:induction false} FindIsFirst(act: seq<bool>, i: nat, fuel: nat)
    requires i < |act| && fuel <= |act|
    ensures match Find(act, i, fuel)
            case Some(s) =>
              s < |act| && act[s] && Distance(i, s, |act|) < fuel
              && forall x | 0 <= x < |act| && Distance(i, x, |act|) < Distance(i, s, |act|) :: !act[x]
            case None => forall x | 0 <= x < |act| && Distance(i, x, |act|) < fuel :: !act[x]
    decreases fuel
  {
    if fuel > 0 && !act[i] {
      FindIsFirst(act, Step(i, |act|), fuel - 1);
      forall x | 0 <= x < |act|
        ensures Distance(i, x, |act|) == if i == x then 0 else 1 + Distance(Step(i, |act|), x, |act|)
      {
        StepDistance(i, x, |act|);
      }
      var r := Find(act, i, fuel);
      if r.Some? {
        assert r.value != i;
      }
    }
  }

  lemma ServeIsFirst(act: seq<bool>, i: nat)
    requires i < |act|
    ensures match Serve(act, i)
            case Some(s) =>
              s < |act| && act[s]
              && forall x | 0 <= x < |act| && act[x] :: Distance(i, s, |act|) <= Distance(i, x, |act|)
            case None => forall x | 0 <= x < |act| :: !act[x]
  {
    FindIsFirst(act, i, |act|);
    forall x | 0 <= x < |act|
      ensures Distance(i, x, |act|) < |act|
    {
      StepDistance(i, x, |act|);
    }
  }

  // ------------------------------------------------------------------
  // Sequences of calls
  // ------------------------------------------------------------------

  predicate Acts(acts: seq<seq<bool>>, n: nat) {
    forall t | 0 <= t < |acts| :: |acts[t]| == n
  }

  function IndexAfter(act: seq<bool>, i: nat): (j: nat)
    requires i < |act|
    ensures j < |act|
  {
    var r := Serve(act, i);
    ServeIsFirst(act, i);
    if r.Some? then Step(r.value, |act|) else i
  }

  /** The slot served by call `t`, the activity at each call being given. */
  function ServedAt(acts: seq<seq<bool>>, i: nat, t: nat): Option<nat>
    requires t < |acts| && i < |acts[0]| && Acts(acts, |acts[0]|)
    decreases t
  {
    if t == 0 then Serve(acts[0], i)
    else
      assert forall u | 0 <= u < |acts[1..]| :: acts[1..][u] == acts[u + 1];
      ServedAt(acts[1..], IndexAfter(acts[0], i), t - 1)
  }

  /** Serving an earlier slot brings the index closer to `j`. */
  lemma ServingApproaches(i: nat, s: nat, j: nat, n: nat)
    requires i < n && s < n && j < n && Distance(i, s, n) < Distance(i, j, n)
    ensures Distance(Step(s, n), j, n) == Distance(i, j, n) - Distance(i, s, n) - 1
  {
  }

  lemma ServedLater(acts: seq<seq<bool>>, i: nat, t: nat)
    requires t + 1 < |acts| && i < |acts[0]| && Acts(acts, |acts[0]|)
    ensures Acts(acts[1..], |acts[0]|) && |acts[1..][0]| == |acts[0]|
    ensures ServedAt(acts, i, t + 1) == ServedAt(acts[1..], IndexAfter(acts[0], i), t)
  {
    assert forall u | 0 <= u < |acts[1..]| :: acts[1..][u] == acts[u + 1];
  }

  /** A connection that stays active is served within N calls, whatever the others do. */
  lemma {:induction false} BoundedWait(acts: seq<seq<bool>>, n: nat, i: nat, j: nat) returns (t: nat)
    requires i < n && j < n && Acts(acts, n) && |acts| > Distance(i, j, n)
    requires forall u | 0 <= u < |acts| :: acts[u][j]
    ensures t <= Distance(i, j, n) < n && ServedAt(acts, i, t) == Some(j)
    decreases |acts|
  {
    ServeIsFirst(acts[0], i);
    StepDistance(i, j, n);
    var s := Serve(acts[0], i).value;
    if s == j {
      t := 0;
    } else {
      if Distance(i, s, n) == Distance(i, j, n) {
        SameDistance(i, s, j, n);
      }
      ServingApproaches(i, s, j, n);
      forall u | 0 <= u < |acts[1..]|
        ensures acts[1..][u] == acts[u + 1]
      {
      }
      var later := BoundedWait(acts[1..], n, Step(s, n), j);
      t := later + 1;
      ServedLater(acts, i, later);
    }
  }

  lemma SameDistance(i: nat, s: nat, j: nat, n: nat)
    requires i < n && s < n && j < n && Distance(i, s, n) == Distance(i, j, n)
    ensures s == j
  {
  }

  // ------------------------------------------------------------------
  // A fixed set of active connections
  // ------------------------------------------------------------------

  function ActiveSet(act: seq<bool>): set<nat> {
    set x: nat | x < |act| && act[x]
  }

  /** The active slots that come before `j` when going round from `i`. */
  function Before(act: seq<bool>, i: nat, j: nat): set<nat>
    requires i < |act| && j < |act|
  {
    set x: nat | x < |act| && act[x] && Distance(i, x, |act|) < Distance(i, j, |act|)
  }

  /** Call `t` of a run with the same active connections throughout. */
  function FixedServedAt(act: seq<bool>, i: nat, t: nat): Option<nat>
    requires i < |act|
    decreases t
  {
    if t == 0 then Serve(act, i) else FixedServedAt(act, IndexAfter(act, i), t - 1)
  }

  lemma FirstHasNoneBefore(act: seq<bool>, i: nat, j: nat)
    requires i < |act| && j < |act| && act[j]
    ensures Serve(act, i) == Some(j) <==> Before(act, i, j) == {}
  {
    ServeIsFirst(act, i);
    var s := Serve(act, i).value;
    if s != j {
      if Distance(i, s, |act|) == Distance(i, j, |act|) {
        SameDistance(i, s, j, |act|);
      }
      assert s in Before(act, i, j);
    }
  }

  lemma BeforeAfterServing(act: seq<bool>, i: nat, s: nat, j: nat)
    requires i < |act| && j < |act| && act[j] && Serve(act, i) == Some(s)
    ensures s < |act| && act[s]
    ensures j != s ==> s in Before(act, i, j) && Before(act, Step(s, |act|), j) == Before(act, i, j) - {s}
    ensures j == s ==> Before(act, Step(s, |act|), j) == ActiveSet(act) - {s}
  {
    ServeIsFirst(act, i);
    var n := |act|;
    StepDistance(s, s, n);
    forall x: nat | x < n && act[x] && x != s
      ensures Distance(i, s, n) < Distance(i, x, n)
      ensures Distance(Step(s, n), x, n) == Distance(i, x, n) - Distance(i, s, n) - 1
      ensures Distance(i, x, n) < n
    {
      if Distance(i, s, n) == Distance(i, x, n) {
        SameDistance(i, s, x, n);
      }
      StepDistance(i, x, n);
      ServingApproaches(i, s, x, n);
    }
    assert Distance(Step(s, n), s, n) == n - 1;
  }

  /** Among the first k calls, an active slot is served exactly at the call that equals its rank. */
  lemma {:induction false} ServedAtRank(act: seq<bool>, i: nat, j: nat, t: nat)
    requires i < |act| && j < |act| && act[j] && t < |ActiveSet(act)|
    ensures FixedServedAt(act, i, t) == Some(j) <==> t == |Before(act, i, j)|
    decreases t
  {
    FirstHasNoneBefore(act, i, j);
    if t > 0 {
      ServeIsFirst(act, i);
      var s := Serve(act, i).value;
      BeforeAfterServing(act, i, s, j);
      ServedAtRank(act, Step(s, |act|), j, t - 1);
    }
  }

  lemma RankInRange(act: seq<bool>, i: nat, j: nat)
    requires i < |act| && j < |act| && act[j]
    ensures |Before(act, i, j)| < |ActiveSet(act)|
  {
    var all, before := ActiveSet(act), Before(act, i, j);
    assert before <= all - {j};
    SubsetSize(before, all - {j});
  }

  lemma {:induction false} SubsetSize(a: set<nat>, b: set<nat>)
    requires a <= b
    ensures |a| <= |b|
    decreases a
  {
    if a != {} {
      var x :| x in a;
      SubsetSize(a - {x}, b - {x});
    }
  }

  /** Whatever the index, k consecutive calls serve each of the k active connections exactly once. */
  lemma EachServedOnce(act: seq<bool>, i: nat, j: nat) returns (t: nat)
    requires i < |act| && j < |act| && act[j]
    ensures t < |ActiveSet(act)| && FixedServedAt(act, i, t) == Some(j)
    ensures forall u: nat | u < |ActiveSet(act)| && FixedServedAt(act, i, u) == Some(j) :: u == t
  {
    t := |Before(act, i, j)|;
    RankInRange(act, i, j);
    ServedAtRank(act, i, j, t);
    forall u: nat | u < |ActiveSet(act)| && FixedServedAt(act, i, u) == Some(j)
      ensures u == t
    {
      ServedAtRank(act, i, j, u);
    }
  }

  // ------------------------------------------------------------------
  // The test letters
  // ------------------------------------------------------------------

  function NextTimes(c: Connection, n: nat): Connection {
    if n == 0 then c else Next(NextTimes(c, n - 1))
  }

  /** The letter goes round the 26 letters, and nothing else of the connection changes. */
  lemma {:induction false} LettersGoRound(c: Connection, n: nat)
    requires 65 <= c.counter <= 90
    ensures NextTimes(c, n) == c.(counter := 65 + (c.counter - 65 + n) % 26)
  {
    if n > 0 {
      LettersGoRound(c, n - 1);
    }
  }
}
