// Several nodes with the state machine of server/state_machine.go, the broadcasts of leaders
// delayed, repeated and interleaved at will, no crashes.
module LeaderRuns {
  import opened Bytes
  import opened StateMachine

  /** `joining`: the goroutine that asks the leader for the member list has not reported yet. */
  datatype Node = Node(state: State, joining: bool)

  /** `air` holds every id ever broadcast, `led` every id that was ever in state LEADER. */
  datatype Cluster = Cluster(nodes: map<Str, Node>, air: set<Str>, led: set<Str>)

  /**
   Who asks for a change: start-up; the join goroutine, for FOLLOWER or back to INIT; the
   leader's listener; and all the others - probe, follower timer, election, victory messages -
   which never ask for INIT.
   */
  datatype Action =
    | Boot(at: Str)
    | JoinResult(at: Str, ok: bool)
    | Hear(at: Str, uuid: Str)
    | Request(at: Str, target: State)
    | Broadcast(at: Str)

  predicate Enabled(c: Cluster, a: Action) {
    && a.at in c.nodes
    && match a
       case Boot(i) => c.nodes[i].state == START
       case JoinResult(i, ok) => c.nodes[i].joining
       case Hear(i, uuid) => c.nodes[i].state == LEADER && uuid in c.air
       case Request(i, target) => target != INIT && !c.nodes[i].joining
       case Broadcast(i) => i in c.led
  }

  function Move(c: Cluster, i: Str, target: State): Cluster
    requires i in c.nodes
  {
    var state := Changed(c.nodes[i].state, target);
    Cluster(c.nodes[i := Node(state, state == BECOME_FOLLOWER)], c.air, if state == LEADER then c.led + {i} else c.led)
  }

  function Step(c: Cluster, a: Action): Cluster
    requires Enabled(c, a)
  {
    match a
    case Boot(i) => Move(c, i, INIT)
    case JoinResult(i, ok) => Move(c, i, if ok then FOLLOWER else INIT)
    case Hear(i, uuid) => if Less(i, uuid) then Move(c, i, INIT) else c
    case Request(i, target) => Move(c, i, target)
    case Broadcast(i) => c.(air := c.air + {i})
  }

  predicate Runnable(c: Cluster, actions: seq<Action>)
    decreases |actions|
  {
    actions != [] ==> Enabled(c, actions[0]) && Runnable(Step(c, actions[0]), actions[1..])
  }

  function Exec(c: Cluster, actions: seq<Action>): Cluster
    requires Runnable(c, actions)
    decreases |actions|
  {
    if actions == [] then c else Exec(Step(c, actions[0]), actions[1..])
  }

  function Init(ids: set<Str>): Cluster {
    Cluster(map i | i in ids :: Node(START, false), {}, {})
  }

  /** A node in order: a former leader gave way to a greater one. */
  ghost predicate NodeOk(n: Node, i: Str, led: set<Str>) {
    && (n.joining <==> n.state == BECOME_FOLLOWER)
    && (n.state == LEADER ==> i in led)
    && (i in led && n.state != LEADER ==> exists g :: g in led && Less(i, g))
  }

  /** Only leaders broadcast. */
  ghost predicate Inv(c: Cluster) {
    && c.air <= c.led <= c.nodes.Keys
    && forall i :: i in c.nodes ==> NodeOk(c.nodes[i], i, c.led)
  }

  /** The table lets a leader go to INIT only. */
  lemma LeaderStays(target: State)
    ensures Changed(LEADER, target) == if target == INIT then INIT else LEADER
  {
  }

  lemma NodeGrows(n: Node, i: Str, led: set<Str>, led': set<Str>)
    requires NodeOk(n, i, led) && led <= led' && (i in led' ==> i in led)
    ensures NodeOk(n, i, led')
  {
    hide Less;
  }

  /** A request is harmless unless it takes a leader out of LEADER without a greater one. */
  lemma MoveKeeps(c: Cluster, i: Str, target: State)
    requires Inv(c) && i in c.nodes
    requires c.nodes[i].state == LEADER && target == INIT ==> exists g :: g in c.led && Less(i, g)
    ensures Inv(Move(c, i, target))
  {
    LeaderStays(target);
    hide Less, Changed;
    var c' := Move(c, i, target);
    assert NodeOk(c.nodes[i], i, c.led) && NodeOk(c'.nodes[i], i, c'.led);
    forall x | x in c.nodes && x != i
      ensures NodeOk(c'.nodes[x], x, c'.led)
    {
      NodeGrows(c.nodes[x], x, c.led, c'.led);
    }
  }

  lemma StepKeeps(c: Cluster, a: Action)
    requires Inv(c) && Enabled(c, a)
    ensures Inv(Step(c, a))
  {
    hide Less, Move;
    match a {
      case Boot(i) => MoveKeeps(c, i, INIT);
      case JoinResult(i, ok) => MoveKeeps(c, i, if ok then FOLLOWER else INIT);
      case Hear(i, uuid) => if Less(i, uuid) { MoveKeeps(c, i, INIT); }
      case Request(i, target) => MoveKeeps(c, i, target);
      case Broadcast(i) =>
    }
  }

  lemma {:induction false} ExecInv(c: Cluster, actions: seq<Action>)
    requires Inv(c) && Runnable(c, actions)
    ensures Inv(Exec(c, actions))
    decreases |actions|
  {
    hide Inv, Step;
    if actions == [] {
    } else {
      StepKeeps(c, actions[0]);
      ExecInv(Step(c, actions[0]), actions[1..]);
    }
  }

  function Final(ids: set<Str>, actions: seq<Action>): Cluster
    requires Runnable(Init(ids), actions)
  {
    Exec(Init(ids), actions)
  }

  lemma RunInv(ids: set<Str>, actions: seq<Action>)
    requires Runnable(Init(ids), actions)
    ensures Inv(Final(ids, actions))
  {
    ExecInv(Init(ids), actions);
  }

  // ---------------------------------------------------------------------
  // Stepping down
  // ---------------------------------------------------------------------

  /** After any run, the steps that take a leader out of LEADER are exactly the broadcasts of greater ids it hears. */
  lemma LeaderYieldsOnlyToGreater(ids: set<Str>, actions: seq<Action>, a: Action, i: Str)
    requires Runnable(Init(ids), actions) && Enabled(Final(ids, actions), a)
    requires i in Final(ids, actions).nodes && Final(ids, actions).nodes[i].state == LEADER
    ensures i in Step(Final(ids, actions), a).nodes
    ensures Step(Final(ids, actions), a).nodes[i].state != LEADER <==> a.Hear? && a.at == i && Less(i, a.uuid)
    ensures Step(Final(ids, actions), a).nodes[i].state != LEADER ==>
              Step(Final(ids, actions), a).nodes[i].state == INIT && a.uuid in Final(ids, actions).led
  {
    RunInv(ids, actions);
    hide Final, Less;
  }

  /** The greatest id that ever led is still leader. */
  lemma GreatestStillLeads(ids: set<Str>, actions: seq<Action>, g: Str)
    requires Runnable(Init(ids), actions)
    requires g in Final(ids, actions).led
    ensures g in Final(ids, actions).nodes
    ensures (forall x :: x in Final(ids, actions).led ==> !Less(g, x)) ==> Final(ids, actions).nodes[g].state == LEADER
  {
    RunInv(ids, actions);
    hide Final, Less;
  }

  lemma {:induction false} Greatest(s: set<Str>) returns (g: Str)
    requires s != {}
    ensures g in s && forall x :: x in s ==> !Less(g, x)
    decreases |s|
  {
    var y :| y in s;
    var rest := s - {y};
    LessTotal(y, y);
    if rest == {} {
      g := y;
      assert s == {y};
    } else {
      var h := Greatest(rest);
      LessTotal(y, h);
      if Less(h, y) {
        g := y;
        forall x | x in s
          ensures !Less(y, x)
        {
          if x != y && Less(y, x) {
            LessTransitive(h, y, x);
            assert false;
          }
        }
      } else {
        g := h;
      }
    }
  }

  /** Once some node has led, there is a leader at every later time. */
  lemma SomeoneLeads(ids: set<Str>, actions: seq<Action>)
    requires Runnable(Init(ids), actions) && Final(ids, actions).led != {}
    ensures exists g :: g in Final(ids, actions).nodes && Final(ids, actions).nodes[g].state == LEADER
  {
    hide Final, Less;
    var g := Greatest(Final(ids, actions).led);
    GreatestStillLeads(ids, actions, g);
  }
}
