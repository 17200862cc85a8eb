// server/state_machine.go and the leader's listener of server/state_listener.go.
module StateMachine {
  import opened Bytes

  datatype State = START | INIT | LEADER | FOLLOWER | BECOME_LEADER | BECOME_FOLLOWER | ELECTION

  function Transitions(): map<State, set<State>> {
    map[START := {INIT},
        INIT := {BECOME_FOLLOWER, LEADER},
        BECOME_FOLLOWER := {INIT, FOLLOWER},
        LEADER := {INIT},
        FOLLOWER := {ELECTION, FOLLOWER},
        BECOME_LEADER := {LEADER},
        ELECTION := {FOLLOWER, BECOME_LEADER, ELECTION}]
  }

  /** A request for `target`: followed if the table has it, refused otherwise. */
  function Changed(state: State, target: State): State {
    if state in Transitions() && target in Transitions()[state] then target else state
  }

  class Machine {
    var state: State
    var transitions: map<State, set<State>>

    ghost predicate Valid() reads `transitions { transitions == Transitions() }

    constructor ()
      ensures Valid() && state == START
    {
      state := START;
      transitions := Transitions();
    }

    method ChangeTo(target: State) returns (accepted: bool)
      requires Valid()
      modifies `state
      ensures state == Changed(old(state), target)
      ensures accepted <==> old(state) in Transitions() && target in Transitions()[old(state)]
    {
      accepted := state in transitions && target in transitions[state];
      if accepted {
        state := target;
      }
    }
  }

  /** From where a state can be entered. */
  function Sources(target: State): set<State> {
    match target
    case START => {}
    case INIT => {START, BECOME_FOLLOWER, LEADER}
    case LEADER => {INIT, BECOME_LEADER}
    case FOLLOWER => {BECOME_FOLLOWER, FOLLOWER, ELECTION}
    case BECOME_LEADER => {ELECTION}
    case BECOME_FOLLOWER => {INIT}
    case ELECTION => {FOLLOWER, ELECTION}
  }

  /** The table column by column: a request is granted exactly in the states its target can be entered from. */
  lemma EnteredFrom(state: State, target: State)
    ensures state in Transitions() && target in Transitions()[state] <==> state in Sources(target)
  {
  }

  /** The state after a sequence of requests, refused ones included. */
  function Requested(state: State, requests: seq<State>): State
    decreases |requests|
  {
    if requests == [] then state else Requested(Changed(state, requests[0]), requests[1..])
  }

  lemma {:induction false} RequestedJoined(state: State, a: seq<State>, b: seq<State>)
    ensures Requested(state, a + b) == Requested(Requested(state, a), b)
    decreases |a|
  {
    if a == [] {
      assert a + b == b;
    } else {
      assert (a + b)[1..] == a[1..] + b;
      RequestedJoined(Changed(state, a[0]), a[1..], b);
    }
  }

  /** Requests that lead back to INIT. */
  function Home(state: State): seq<State> {
    match state
    case INIT => []
    case START => [INIT]
    case BECOME_FOLLOWER => [INIT]
    case LEADER => [INIT]
    case BECOME_LEADER => [LEADER, INIT]
    case ELECTION => [BECOME_LEADER, LEADER, INIT]
    case FOLLOWER => [ELECTION, BECOME_LEADER, LEADER, INIT]
  }

  /** Requests that lead there from INIT. */
  function Away(target: State): seq<State> {
    match target
    case BECOME_FOLLOWER => [BECOME_FOLLOWER]
    case LEADER => [LEADER]
    case FOLLOWER => [BECOME_FOLLOWER, FOLLOWER]
    case ELECTION => [BECOME_FOLLOWER, FOLLOWER, ELECTION]
    case BECOME_LEADER => [BECOME_FOLLOWER, FOLLOWER, ELECTION, BECOME_LEADER]
    case _ => []
  }

  /** A request that is granted, followed by others. */
  lemma Hop(state: State, target: State, rest: seq<State>)
    requires state in Sources(target)
    ensures Requested(state, [target] + rest) == Requested(target, rest)
  {
    EnteredFrom(state, target);
    assert ([target] + rest)[1..] == rest;
    hide Transitions, Sources;
  }

  lemma HomeLeadsHome(state: State)
    ensures Requested(state, Home(state)) == INIT
  {
    assert Requested(INIT, []) == INIT;
    if state != INIT {
      Hop(state, Home(state)[0], Home(state)[1..]);
      Hop(BECOME_LEADER, LEADER, [INIT]);
      Hop(ELECTION, BECOME_LEADER, [LEADER, INIT]);
      Hop(LEADER, INIT, []);
      assert [Home(state)[0]] + Home(state)[1..] == Home(state);
      assert [LEADER] + [INIT] == [LEADER, INIT] && [INIT] + [] == [INIT];
      assert [BECOME_LEADER] + [LEADER, INIT] == [BECOME_LEADER, LEADER, INIT];
      hide Requested;
    }
  }

  lemma AwayLeadsThere(target: State)
    requires target != START
    ensures Requested(INIT, Away(target)) == target
  {
    var none: seq<State> := [];
    forall s: State
      ensures Requested(s, none) == s
    {
    }
    hide Requested;
    if target == LEADER || target == BECOME_FOLLOWER {
      Hop(INIT, target, none);
      assert [target] + none == Away(target);
    } else if target != INIT {
      Hop(BECOME_FOLLOWER, FOLLOWER, Away(target)[2..]);
      Hop(INIT, BECOME_FOLLOWER, Away(target)[1..]);
      assert Away(target) == [BECOME_FOLLOWER] + Away(target)[1..];
      assert Away(target)[1..] == [FOLLOWER] + Away(target)[2..];
      FromFollower(target);
    }
  }

  lemma FromFollower(target: State)
    requires target == FOLLOWER || target == ELECTION || target == BECOME_LEADER
    ensures Requested(FOLLOWER, Away(target)[2..]) == target
  {
    var none: seq<State> := [];
    assert Requested(target, none) == target;
    hide Requested;
    if target == ELECTION {
      Hop(FOLLOWER, ELECTION, none);
      assert Away(target)[2..] == [ELECTION] + none;
    } else if target == BECOME_LEADER {
      Hop(ELECTION, BECOME_LEADER, none);
      Hop(FOLLOWER, ELECTION, [BECOME_LEADER]);
      assert [BECOME_LEADER] + none == [BECOME_LEADER];
      assert Away(target)[2..] == [ELECTION] + [BECOME_LEADER];
    } else {
      assert Away(target)[2..] == none;
    }
  }

  lemma {:induction false} NeverStartAgain(state: State, requests: seq<State>)
    requires state != START
    ensures Requested(state, requests) != START
    decreases |requests|
  {
    if requests == [] {
    } else {
      NeverStartAgain(Changed(state, requests[0]), requests[1..]);
    }
  }

  ghost predicate Reaches(state: State, target: State) {
    exists requests :: LeadsTo(state, requests, target)
  }

  predicate LeadsTo(state: State, requests: seq<State>, target: State) { Requested(state, requests) == target }

  /** No state is a trap: requests lead from every state to every other except back to START. */
  lemma ReachesEverything(state: State, target: State)
    ensures Reaches(state, target) <==> state == target || target != START
  {
    if state == target {
      assert LeadsTo(state, [], target);
    } else if target != START {
      HomeLeadsHome(state);
      AwayLeadsThere(target);
      RequestedJoined(state, Home(state), Away(target));
      assert LeadsTo(state, Home(state) + Away(target), target);
    } else {
      forall requests
        ensures !LeadsTo(state, requests, START)
      {
        NeverStartAgain(state, requests);
      }
    }
  }

  /** A follower comes to lead only through an election that it wins. */
  lemma {:induction false} FollowerLeadsByElection(state: State, requests: seq<State>)
    requires state == FOLLOWER || state == ELECTION
    requires Requested(state, requests) == LEADER
    ensures (state == FOLLOWER ==> ELECTION in requests) && BECOME_LEADER in requests
    decreases |requests|
  {
    var next := Changed(state, requests[0]);
    if next == FOLLOWER || next == ELECTION {
      FollowerLeadsByElection(next, requests[1..]);
    }
  }

  // ---------------------------------------------------------------------
  // Order of ids
  // ---------------------------------------------------------------------

  /** `<` on Go strings. */
  predicate Less(a: Str, b: Str) {
    if b == [] then false
    else if a == [] then true
    else if a[0] != b[0] then a[0] < b[0]
    else Less(a[1..], b[1..])
  }

  /** `a` and `b` agree up to `n`, where `a` ends first or has the smaller byte. */
  predicate SmallerAt(a: Str, b: Str, n: nat) {
    && n <= |a| && n <= |b| && a[..n] == b[..n]
    && if n == |a| then n < |b| else n < |b| && a[n] < b[n]
  }

  lemma SameHead(a: Str, b: Str, n: nat)
    requires 0 < n <= |a| && n <= |b| && a[..n] == b[..n]
    ensures a[0] == b[0]
  {
    assert a[..n][0] == b[..n][0];
  }

  /** What the order is: decided by the first byte in which the ids differ. */
  lemma {:induction false} LessIsLexicographic(a: Str, b: Str)
    ensures Less(a, b) <==> exists n :: SmallerAt(a, b, n)
  {
    if b == [] {
    } else if a == [] {
      assert SmallerAt(a, b, 0);
    } else if a[0] != b[0] {
      assert SmallerAt(a, b, 0) <==> a[0] < b[0];
      forall n: nat | SmallerAt(a, b, n)
        ensures n == 0
      {
        if n > 0 {
          SameHead(a, b, n);
        }
      }
    } else {
      LessIsLexicographic(a[1..], b[1..]);
      forall n: nat | SmallerAt(a[1..], b[1..], n)
        ensures SmallerAt(a, b, n + 1)
      {
        assert a[..n + 1] == [a[0]] + a[1..][..n] && b[..n + 1] == [b[0]] + b[1..][..n];
      }
      forall n: nat | SmallerAt(a, b, n)
        ensures n > 0 && SmallerAt(a[1..], b[1..], n - 1)
      {
        assert n > 0 ==> a[1..][..n - 1] == a[..n][1..] && b[1..][..n - 1] == b[..n][1..];
      }
    }
  }

  lemma {:induction false} LessTotal(a: Str, b: Str)
    ensures Less(a, b) || Less(b, a) || a == b
    ensures !(Less(a, b) && Less(b, a))
    ensures !Less(a, a)
  {
    if a == [] {
    } else {
      LessTotal(a[1..], a[1..]);
      if b != [] && a[0] == b[0] {
        LessTotal(a[1..], b[1..]);
        assert a == [a[0]] + a[1..] && b == [b[0]] + b[1..];
      }
    }
  }

  lemma {:induction false} LessTransitive(a: Str, b: Str, c: Str)
    requires Less(a, b) && Less(b, c)
    ensures Less(a, c)
  {
    if a != [] && a[0] == b[0] && b[0] == c[0] {
      LessTransitive(a[1..], b[1..], c[1..]);
    }
  }

  // ---------------------------------------------------------------------
  // The leader hears a broadcast
  // ---------------------------------------------------------------------

  /**
   The broadcast listener drops the own id, the leader's loop ignores smaller ones; the first
   greater one makes the node ask for INIT and ends the loop.
   */
  method OnBroadcast(id: Str, uuid: Str, sm: Machine) returns (quit: bool)
    requires sm.Valid()
    modifies sm`state
    ensures quit <==> Less(id, uuid)
    ensures sm.state == if Less(id, uuid) then Changed(old(sm.state), INIT) else old(sm.state)
  {
    LessTotal(id, uuid);
    if uuid == id {
      return false;
    }
    if Less(uuid, id) {
      return false;
    }
    var _ := sm.ChangeTo(INIT);
    return true;
  }

  /** An election victory reported to a leader asks for FOLLOWER, in vain. */
  method OnVictory(sm: Machine)
    requires sm.Valid() && sm.state == LEADER
    modifies sm`state
    ensures sm.state == LEADER
  {
    var _ := sm.ChangeTo(FOLLOWER);
  }
}
