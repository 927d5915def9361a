/** Gossip of migration states between nodes over an unreliable network: the
    step system of pqc_distributed.tla, for any number of nodes and keys and
    runs of any length. */
module Gossip {

  type Node = nat
  type Key = nat

  const CLASSICAL := 0
  const HYBRID := 1
  const FINALIZING := 2
  const PQC_ONLY := 3

  datatype Message = Message(src: Node, key: Key, state: nat)

  datatype Config = Config(nodes: set<Node>, keys: set<Key>, maxOps: nat)

  // local: the state of key k at node n is local[(n, k)].
  datatype State = State(local: map<(Node, Key), nat>, messages: set<Message>, partitioned: set<(Node, Node)>, ops: nat)

  // ----- The step system -----

  ghost predicate Init(cf: Config, s: State) {
    && s.messages == {} && s.partitioned == {} && s.ops == 0
    && (forall n, k :: (n, k) in s.local <==> n in cf.nodes && k in cf.keys)
    && (forall p :: p in s.local ==> s.local[p] == CLASSICAL)
  }

  // A node sets its state for a key and announces it.
  predicate Announce(cf: Config, s: State, t: State, n: Node, k: Key, state: nat) {
    && s.ops < cf.maxOps
    && t == State(s.local[(n, k) := state], s.messages + {Message(n, k, state)}, s.partitioned, s.ops + 1)
  }

  predicate BeginMigration(cf: Config, s: State, t: State, n: Node, k: Key) {
    (n, k) in s.local && s.local[(n, k)] == CLASSICAL && Announce(cf, s, t, n, k, HYBRID)
  }

  predicate EnterFinalizing(cf: Config, s: State, t: State, n: Node, k: Key) {
    (n, k) in s.local && s.local[(n, k)] == HYBRID && Announce(cf, s, t, n, k, FINALIZING)
  }

  predicate CompleteFinalizing(cf: Config, s: State, t: State, n: Node, k: Key) {
    (n, k) in s.local && s.local[(n, k)] == FINALIZING && Announce(cf, s, t, n, k, PQC_ONLY)
  }

  predicate Rollback(cf: Config, s: State, t: State, n: Node, k: Key) {
    (n, k) in s.local && s.local[(n, k)] in {HYBRID, FINALIZING} && Announce(cf, s, t, n, k, CLASSICAL)
  }

  // Adopt the higher of the two states.
  function Merge(local: map<(Node, Key), nat>, n: Node, m: Message): map<(Node, Key), nat>
    requires (n, m.key) in local
  {
    if m.state > local[(n, m.key)] then local[(n, m.key) := m.state] else local
  }

  predicate ReceiveGossip(cf: Config, s: State, t: State, n: Node, m: Message) {
    && s.ops < cf.maxOps
    && m in s.messages && m.src != n && (n, m.key) in s.local
    && (m.src, n) !in s.partitioned && (n, m.src) !in s.partitioned
    && t == State(Merge(s.local, n, m), s.messages - {m}, s.partitioned, s.ops + 1)
  }

  predicate CreatePartition(cf: Config, s: State, t: State, n1: Node, n2: Node) {
    && s.ops < cf.maxOps
    && n1 in cf.nodes && n2 in cf.nodes && n1 != n2 && (n1, n2) !in s.partitioned
    && t == s.(partitioned := s.partitioned + {(n1, n2), (n2, n1)}, ops := s.ops + 1)
  }

  predicate HealPartition(cf: Config, s: State, t: State, n1: Node, n2: Node) {
    && s.ops < cf.maxOps
    && n1 in cf.nodes && n2 in cf.nodes && (n1, n2) in s.partitioned
    && t == s.(partitioned := s.partitioned - {(n1, n2), (n2, n1)}, ops := s.ops + 1)
  }

  datatype Action =
    | Begin(n: Node, k: Key)
    | Enter(n: Node, k: Key)
    | Complete(n: Node, k: Key)
    | Undo(n: Node, k: Key)
    | Receive(n: Node, m: Message)
    | Cut(n1: Node, n2: Node)
    | Heal(n1: Node, n2: Node)

  predicate Step(cf: Config, s: State, t: State, a: Action) {
    match a
    case Begin(n, k) => BeginMigration(cf, s, t, n, k)
    case Enter(n, k) => EnterFinalizing(cf, s, t, n, k)
    case Complete(n, k) => CompleteFinalizing(cf, s, t, n, k)
    case Undo(n, k) => Rollback(cf, s, t, n, k)
    case Receive(n, m) => ReceiveGossip(cf, s, t, n, m)
    case Cut(n1, n2) => CreatePartition(cf, s, t, n1, n2)
    case Heal(n1, n2) => HealPartition(cf, s, t, n1, n2)
  }

  ghost predicate Next(cf: Config, s: State, t: State) {
    exists a: Action :: Step(cf, s, t, a)
  }

  ghost predicate IsRun(cf: Config, run: seq<State>) {
    && |run| > 0 && Init(cf, run[0])
    && forall i :: 0 <= i < |run| - 1 ==> Next(cf, run[i], run[i + 1])
  }

  // ----- What every step keeps -----

  ghost predicate TypeOK(cf: Config, s: State) {
    && (forall n: Node, k: Key :: (n, k) in s.local <==> n in cf.nodes && k in cf.keys)
    && (forall p :: p in s.local ==> s.local[p] <= PQC_ONLY)
    && (forall m :: m in s.messages ==> m.src in cf.nodes && m.key in cf.keys && m.state <= PQC_ONLY)
    && s.ops <= cf.maxOps
  }

  ghost predicate SymmetricPartition(s: State) {
    forall a: Node, b: Node :: (a, b) in s.partitioned ==> a != b && (b, a) in s.partitioned
  }

  // Whoever announced PQC_ONLY is at PQC_ONLY.
  ghost predicate AnnouncedIsHeld(s: State) {
    forall m :: m in s.messages && m.state == PQC_ONLY ==> (m.src, m.key) in s.local && s.local[(m.src, m.key)] == PQC_ONLY
  }

  predicate At(s: State, n: Node, k: Key, state: nat) {
    (n, k) in s.local && s.local[(n, k)] == state
  }

  // An announcement of PQC_ONLY is in flight, or two nodes are there already.
  ghost predicate Redundant(s: State, k: Key) {
    || (exists m :: m in s.messages && m.key == k && m.state == PQC_ONLY && At(s, m.src, k, PQC_ONLY))
    || (exists a: Node, b: Node :: a != b && At(s, a, k, PQC_ONLY) && At(s, b, k, PQC_ONLY))
  }

  ghost predicate Redundancy(s: State) {
    forall n: Node, k: Key :: At(s, n, k, PQC_ONLY) ==> Redundant(s, k)
  }

  ghost predicate Inv(cf: Config, s: State) {
    TypeOK(cf, s) && SymmetricPartition(s) && AnnouncedIsHeld(s) && Redundancy(s)
  }

  lemma TypeStep(cf: Config, s: State, t: State, a: Action)
    requires TypeOK(cf, s) && SymmetricPartition(s) && AnnouncedIsHeld(s) && Step(cf, s, t, a)
    ensures TypeOK(cf, t) && SymmetricPartition(t) && AnnouncedIsHeld(t)
    ensures forall n: Node, k: Key :: At(s, n, k, PQC_ONLY) ==> At(t, n, k, PQC_ONLY)
  {
  }

  lemma RedundancyStep(cf: Config, s: State, t: State, a: Action)
    requires Inv(cf, s) && Step(cf, s, t, a)
    ensures Redundancy(t)
  {
    TypeStep(cf, s, t, a);
    forall n: Node, k: Key | At(t, n, k, PQC_ONLY)
      ensures Redundant(t, k)
    {
      if exists x: Node, y: Node :: x != y && At(s, x, k, PQC_ONLY) && At(s, y, k, PQC_ONLY) {
        var x: Node, y: Node :| x != y && At(s, x, k, PQC_ONLY) && At(s, y, k, PQC_ONLY);
        assert At(t, x, k, PQC_ONLY) && At(t, y, k, PQC_ONLY);
      } else if At(s, n, k, PQC_ONLY) {
        var m :| m in s.messages && m.key == k && m.state == PQC_ONLY && At(s, m.src, k, PQC_ONLY);
        assert At(t, m.src, k, PQC_ONLY);
        if m !in t.messages {
          assert a.Receive? && a.m == m;
          assert At(t, a.n, k, PQC_ONLY) && a.n != m.src;
        }
      } else {
        NewPqcOnly(cf, s, t, a, n, k);
      }
    }
  }

  lemma NewPqcOnly(cf: Config, s: State, t: State, a: Action, n: Node, k: Key)
    requires Inv(cf, s) && Step(cf, s, t, a)
    requires At(t, n, k, PQC_ONLY) && !At(s, n, k, PQC_ONLY)
    ensures Redundant(t, k)
  {
    TypeStep(cf, s, t, a);
    if a.Receive? {
      assert At(s, a.m.src, k, PQC_ONLY);
      assert At(t, a.m.src, k, PQC_ONLY) && a.m.src != n;
    } else {
      assert a.Complete? && Message(n, k, PQC_ONLY) in t.messages;
    }
  }

  lemma {:induction false} RunInv(cf: Config, run: seq<State>, i: nat)
    requires IsRun(cf, run) && i < |run|
    ensures Inv(cf, run[i])
    decreases i
  {
    if i > 0 {
      RunInv(cf, run, i - 1);
      assert Next(cf, run[i - 1], run[i - 1 + 1]);
      var a: Action :| Step(cf, run[i - 1], run[i], a);
      TypeStep(cf, run[i - 1], run[i], a);
      RedundancyStep(cf, run[i - 1], run[i], a);
    }
  }

  /** Redundancy in every run: whenever some node holds a key at PQC_ONLY, an
      announcement of it from a node that is there is in flight, or two nodes
      are there. */
  lemma PqcOnlyIsRedundant(cf: Config, run: seq<State>, i: nat, n: Node, k: Key)
    requires IsRun(cf, run) && i < |run| && At(run[i], n, k, PQC_ONLY)
    ensures Redundant(run[i], k)
  {
    RunInv(cf, run, i);
  }

  lemma RunStep(cf: Config, run: seq<State>, i: nat) returns (a: Action)
    requires IsRun(cf, run) && i + 1 < |run|
    ensures Inv(cf, run[i]) && Step(cf, run[i], run[i + 1], a)
  {
    RunInv(cf, run, i);
    assert Next(cf, run[i], run[i + 1]);
    a :| Step(cf, run[i], run[i + 1], a);
  }

  /** PQC_ONLY at a node is permanent. */
  lemma {:induction false} PqcOnlyIsPermanent(cf: Config, run: seq<State>, i: nat, j: nat, n: Node, k: Key)
    requires IsRun(cf, run) && i <= j < |run| && At(run[i], n, k, PQC_ONLY)
    ensures At(run[j], n, k, PQC_ONLY)
    decreases j
  {
    hide IsRun;
    hide At;
    if i < j {
      PqcOnlyIsPermanent(cf, run, i, j - 1, n, k);
      PqcOnlyStep(cf, run, j - 1, n, k);
    }
  }

  lemma PqcOnlyStep(cf: Config, run: seq<State>, i: nat, n: Node, k: Key)
    requires IsRun(cf, run) && i + 1 < |run| && At(run[i], n, k, PQC_ONLY)
    ensures At(run[i + 1], n, k, PQC_ONLY)
  {
    hide IsRun;
    hide Step;
    var a := RunStep(cf, run, i);
    TypeStep(cf, run[i], run[i + 1], a);
  }

  /** The partition relation stays symmetric and irreflexive. */
  lemma PartitionStaysSymmetric(cf: Config, run: seq<State>, i: nat)
    requires IsRun(cf, run) && i < |run|
    ensures SymmetricPartition(run[i])
  {
    RunInv(cf, run, i);
  }

  // ----- What can happen -----

  // The stage changes of the protocol: forward by one, or back to CLASSICAL.
  predicate StageChange(v: nat, w: nat) {
    (v == 0 && w == 1) || (v == 1 && w == 2) || (v == 2 && w == 3) || (v == 1 && w == 0) || (v == 2 && w == 0)
  }

  /** A node's state for a key changes by an announced stage change of its own,
      or by adopting a higher state from a message, which is used up. */
  lemma ChangesAreAnnounced(cf: Config, s: State, t: State, a: Action, n: Node, k: Key)
    requires TypeOK(cf, s) && Step(cf, s, t, a)
    requires (n, k) in s.local && (n, k) in t.local && t.local[(n, k)] != s.local[(n, k)]
    ensures
      var v, w := s.local[(n, k)], t.local[(n, k)];
      || (StageChange(v, w) && t.messages == s.messages + {Message(n, k, w)})
      || (v < w && exists m :: m in s.messages && m.src != n && m.key == k && m.state == w
                              && t.messages == s.messages - {m})
  {
    if a.Receive? {
      assert a.n == n && a.m.key == k;
    }
  }

  /** Every stage change is possible at every node for every key, at the cost
      of one operation, and affects nothing else. */
  lemma StageChangesHappen(cf: Config, s: State, n: Node, k: Key, w: nat) returns (t: State)
    requires TypeOK(cf, s) && (n, k) in s.local && s.ops < cf.maxOps
    requires StageChange(s.local[(n, k)], w)
    ensures Next(cf, s, t)
    ensures t == State(s.local[(n, k) := w], s.messages + {Message(n, k, w)}, s.partitioned, s.ops + 1)
  {
    t := State(s.local[(n, k) := w], s.messages + {Message(n, k, w)}, s.partitioned, s.ops + 1);
    var a :=
      if w == 1 then Begin(n, k) else if w == 2 then Enter(n, k) else if w == 3 then Complete(n, k) else Undo(n, k);
    assert Step(cf, s, t, a);
  }

  /** When a message can be received. */
  lemma ReceiveIff(cf: Config, s: State, n: Node, m: Message)
    ensures (exists t: State :: Step(cf, s, t, Receive(n, m)))
      <==> (s.ops < cf.maxOps && m in s.messages && m.src != n && (n, m.key) in s.local
            && (m.src, n) !in s.partitioned && (n, m.src) !in s.partitioned)
  {
    if s.ops < cf.maxOps && m in s.messages && m.src != n && (n, m.key) in s.local
       && (m.src, n) !in s.partitioned && (n, m.src) !in s.partitioned {
      assert Step(cf, s, After(s, n, m), Receive(n, m));
    }
  }

  /** Any two nodes can be cut off from each other, and healing undoes it. */
  lemma CutThenHeal(cf: Config, s: State, n1: Node, n2: Node) returns (cut: State, healed: State)
    requires n1 in cf.nodes && n2 in cf.nodes && n1 != n2 && s.ops + 2 <= cf.maxOps
    requires (n1, n2) !in s.partitioned && (n2, n1) !in s.partitioned
    ensures Next(cf, s, cut) && Next(cf, cut, healed)
    ensures cut == s.(partitioned := s.partitioned + {(n1, n2), (n2, n1)}, ops := s.ops + 1)
    ensures healed == s.(ops := s.ops + 2)
  {
    cut := s.(partitioned := s.partitioned + {(n1, n2), (n2, n1)}, ops := s.ops + 1);
    healed := s.(ops := s.ops + 2);
    assert cut.partitioned - {(n1, n2), (n2, n1)} == s.partitioned;
    assert Step(cf, s, cut, Cut(n1, n2)) && Step(cf, cut, healed, Heal(n1, n2));
  }

  // ----- History -----

  // Some node held the key at this state up to step i.
  ghost predicate Held(run: seq<State>, i: nat, k: Key, state: nat)
    requires i < |run|
  {
    exists j: nat, n: Node :: j <= i && At(run[j], n, k, state)
  }

  ghost predicate Downward(run: seq<State>, i: nat)
    requires i < |run|
  {
    && (forall k: Key, v: nat, w: nat :: Held(run, i, k, v) && w <= v ==> Held(run, i, k, w))
    && (forall m :: m in run[i].messages ==> Held(run, i, m.key, m.state))
  }

  /** The network never skips a stage: the states a key has ever had anywhere
      are downward closed, although one node may jump by gossip. */
  lemma {:induction false} HistoryIsDownwardClosed(cf: Config, run: seq<State>, i: nat)
    requires IsRun(cf, run) && i < |run|
    ensures Downward(run, i)
    decreases i
  {
    if i > 0 {
      HistoryIsDownwardClosed(cf, run, i - 1);
      RunInv(cf, run, i - 1);
      assert Next(cf, run[i - 1], run[i - 1 + 1]);
      var a: Action :| Step(cf, run[i - 1], run[i], a);
      forall k: Key, v: nat | Held(run, i - 1, k, v) ensures Held(run, i, k, v) {
        var j: nat, n: Node :| j <= i - 1 && At(run[j], n, k, v);
      }
      forall k: Key, v: nat, w: nat | Held(run, i, k, v) && w <= v
        ensures Held(run, i, k, w)
      {
        var j: nat, n: Node :| j <= i && At(run[j], n, k, v);
        if j == i {
          StatePreceded(cf, run, i, a, n, k, v, w);
        } else {
          assert Held(run, i - 1, k, v);
        }
      }
      forall m | m in run[i].messages ensures Held(run, i, m.key, m.state) {
        if m in run[i - 1].messages {
          assert Held(run, i - 1, m.key, m.state);
        } else {
          assert At(run[i], m.src, m.key, m.state);
        }
      }
    } else {
      forall k: Key, v: nat, w: nat | Held(run, 0, k, v) && w <= v ensures Held(run, 0, k, w) {
        assert v == CLASSICAL;
      }
    }
  }

  // A state reached at step i was held before, or is one above one that was.
  lemma StatePreceded(cf: Config, run: seq<State>, i: nat, a: Action, n: Node, k: Key, v: nat, w: nat)
    requires IsRun(cf, run) && 0 < i < |run| && Step(cf, run[i - 1], run[i], a)
    requires Downward(run, i - 1) && At(run[i], n, k, v) && w <= v
    requires forall k: Key, v: nat :: Held(run, i - 1, k, v) ==> Held(run, i, k, v)
    ensures Held(run, i, k, w)
  {
    var s := run[i - 1];
    if w == v {
      assert At(run[i], n, k, w);
    } else if At(s, n, k, v) {
      assert Held(run, i - 1, k, v);
    } else if a.Receive? {
      assert a.m in s.messages && a.m.key == k && a.m.state == v;
      assert Held(run, i - 1, k, v);
    } else {
      var u := s.local[(n, k)];
      assert At(s, n, k, u);
      assert v == u + 1 || v == CLASSICAL;
      assert Held(run, i - 1, k, u);
    }
  }

  // ----- Order independence -----

  function After(s: State, n: Node, m: Message): State
    requires (n, m.key) in s.local
  {
    State(Merge(s.local, n, m), s.messages - {m}, s.partitioned, s.ops + 1)
  }

  // Receiving the messages of order one by one at n leads from s to t.
  predicate Delivers(cf: Config, s: State, n: Node, order: seq<Message>, t: State)
    decreases order
  {
    if order == [] then s == t
    else
      && (n, order[0].key) in s.local
      && ReceiveGossip(cf, s, After(s, n, order[0]), n, order[0])
      && Delivers(cf, After(s, n, order[0]), n, order[1..], t)
  }

  // At n, every key has the maximum of its state and the states in msgs.
  ghost predicate Merged(before: map<(Node, Key), nat>, n: Node, msgs: set<Message>, after: map<(Node, Key), nat>) {
    && before.Keys == after.Keys
    && (forall p :: p in before && p.0 != n ==> after[p] == before[p])
    && (forall k: Key :: (n, k) in before ==>
          && after[(n, k)] >= before[(n, k)]
          && (after[(n, k)] == before[(n, k)] || Supplied(msgs, k, after[(n, k)])))
    && (forall m :: m in msgs ==> (n, m.key) in before && after[(n, m.key)] >= m.state)
  }

  // Some message announces this state for k.
  ghost predicate Supplied(msgs: set<Message>, k: Key, state: nat) {
    exists m :: m in msgs && m.key == k && m.state == state
  }

  function Elements(order: seq<Message>): set<Message> {
    set m | m in order
  }

  /** Delivering a set of messages to one node, in any order: each delivery
      removes one message, and the result is the per-key maximum. */
  lemma {:induction false} DeliveryIsMaximum(cf: Config, s: State, n: Node, order: seq<Message>, t: State)
    requires Delivers(cf, s, n, order, t)
    ensures Elements(order) <= s.messages && |Elements(order)| == |order|
    ensures t.messages == s.messages - Elements(order)
    ensures t.ops == s.ops + |order| && t.partitioned == s.partitioned
    ensures Merged(s.local, n, Elements(order), t.local)
    decreases order
  {
    if order != [] {
      var m, rest := order[0], order[1..];
      var u := After(s, n, m);
      DeliveryIsMaximum(cf, u, n, rest, t);
      assert order == [m] + rest;
      assert Elements(order) == Elements(rest) + {m} && m !in Elements(rest);
      MergedFirst(s.local, n, m, Elements(rest), t.local);
    }
  }

  lemma MergedFirst(before: map<(Node, Key), nat>, n: Node, m: Message, rest: set<Message>, after: map<(Node, Key), nat>)
    requires (n, m.key) in before && Merged(Merge(before, n, m), n, rest, after)
    ensures Merged(before, n, rest + {m}, after)
  {
    var mid := Merge(before, n, m);
    forall k: Key | (n, k) in before
      ensures after[(n, k)] >= before[(n, k)]
      ensures after[(n, k)] == before[(n, k)] || Supplied(rest + {m}, k, after[(n, k)])
    {
      if Supplied(rest, k, after[(n, k)]) {
        var x :| x in rest && x.key == k && x.state == after[(n, k)];
        assert x in rest + {m};
      } else if mid[(n, k)] != before[(n, k)] {
        assert m in rest + {m} && m.key == k && m.state == after[(n, k)];
      }
    }
  }

  lemma MergedUnique(before: map<(Node, Key), nat>, n: Node, msgs: set<Message>, x: map<(Node, Key), nat>, y: map<(Node, Key), nat>)
    requires Merged(before, n, msgs, x) && Merged(before, n, msgs, y)
    ensures x == y
  {
    forall p | p in x ensures x[p] == y[p] {
      if p.0 == n {
        var k := p.1;
        assert (n, k) == p;
        if Supplied(msgs, k, x[p]) {
          var m :| m in msgs && m.key == k && m.state == x[p];
          assert y[(n, m.key)] >= m.state;
        }
        if Supplied(msgs, k, y[p]) {
          var m :| m in msgs && m.key == k && m.state == y[p];
          assert x[(n, m.key)] >= m.state;
        }
      }
    }
  }

  // The message can be received at n.
  predicate Receivable(s: State, n: Node, m: Message) {
    && m in s.messages && m.src != n && (n, m.key) in s.local
    && (m.src, n) !in s.partitioned && (n, m.src) !in s.partitioned
  }

  /** Messages that can be received at n, with operations left for all of them,
      can be delivered one after the other in any order. */
  lemma {:induction false} AnyOrderDelivers(cf: Config, s: State, n: Node, order: seq<Message>) returns (t: State)
    requires forall m :: m in order ==> Receivable(s, n, m)
    requires |Elements(order)| == |order| && s.ops + |order| <= cf.maxOps
    ensures Delivers(cf, s, n, order, t)
    decreases order
  {
    if order == [] {
      t := s;
    } else {
      var m, rest := order[0], order[1..];
      assert order == [m] + rest;
      assert Elements(order) == Elements(rest) + {m};
      ElementsBound(rest);
      assert m !in Elements(rest);
      forall x | x in rest ensures Receivable(After(s, n, m), n, x) {
        assert x in Elements(rest) && x in order;
      }
      t := AnyOrderDelivers(cf, After(s, n, m), n, rest);
    }
  }

  lemma {:induction false} ElementsBound(order: seq<Message>)
    ensures |Elements(order)| <= |order|
    decreases order
  {
    if order != [] {
      assert order == [order[0]] + order[1..];
      assert Elements(order) == Elements(order[1..]) + {order[0]};
      ElementsBound(order[1..]);
    }
  }

  lemma {:induction false} DeliveredWereReceivable(cf: Config, s: State, n: Node, order: seq<Message>, t: State)
    requires Delivers(cf, s, n, order, t)
    ensures forall m :: m in order ==> Receivable(s, n, m)
    ensures order == [] || s.ops + |order| <= cf.maxOps
    decreases order
  {
    if order != [] {
      var m, rest := order[0], order[1..];
      assert order == [m] + rest;
      DeliveredWereReceivable(cf, After(s, n, m), n, rest, t);
    }
  }

  /** The order of delivery does not matter: whatever can be delivered in one
      order can be delivered in every other, and ends in the same state. */
  lemma OrderIndependent(cf: Config, s: State, n: Node, o1: seq<Message>, t: State, o2: seq<Message>)
    requires Delivers(cf, s, n, o1, t) && multiset(o1) == multiset(o2)
    ensures Delivers(cf, s, n, o2, t)
  {
    hide Delivers;
    hide Merged;
    hide Receivable;
    hide Elements;
    if o1 == [] {
      assert |multiset(o2)| == 0;
      assert o1 == o2;
    } else {
      SameElements(o1, o2);
      DeliveryIsMaximum(cf, s, n, o1, t);
      DeliveredWereReceivable(cf, s, n, o1, t);
      forall m | m in o2 ensures Receivable(s, n, m) {
        assert m in multiset(o2) && m in o1;
      }
      var t2 := AnyOrderDelivers(cf, s, n, o2);
      DeliveryIsMaximum(cf, s, n, o2, t2);
      MergedUnique(s.local, n, Elements(o1), t.local, t2.local);
    }
  }

  lemma SameElements(o1: seq<Message>, o2: seq<Message>)
    requires multiset(o1) == multiset(o2)
    ensures Elements(o1) == Elements(o2) && |o1| == |o2|
  {
    forall m ensures m in Elements(o1) <==> m in Elements(o2) {
      assert m in o1 <==> m in multiset(o1);
      assert m in o2 <==> m in multiset(o2);
    }
    assert |o1| == |multiset(o1)| && |o2| == |multiset(o2)|;
  }

  // ----- Split brain -----

  // The specification's claim: a PQC_ONLY and a CLASSICAL node for the same
  // key imply a partition or a message in flight.
  ghost predicate SplitBrainDetectable(s: State) {
    forall n1: Node, n2: Node, k: Key :: At(s, n1, k, PQC_ONLY) && At(s, n2, k, CLASSICAL) ==>
      s.partitioned != {} || s.messages != {}
  }

  ghost predicate Reached(s: State, k: Key, v: nat) {
    || (exists n: Node :: (n, k) in s.local && s.local[(n, k)] >= v)
    || (exists m :: m in s.messages && m.key == k && m.state >= v)
  }

  // 1 if no announcement of state v for k is in flight.
  ghost function Missing(s: State, k: Key, v: nat): nat {
    if exists m :: m in s.messages && m.key == k && m.state == v then 0 else 1
  }

  // Reaching a state took one operation per stage, and so did removing each
  // stage's announcements.
  ghost predicate Paid(s: State, k: Key) {
    && (Reached(s, k, HYBRID) ==> s.ops >= 1 + Missing(s, k, 1))
    && (Reached(s, k, FINALIZING) ==> s.ops >= 2 + Missing(s, k, 1) + Missing(s, k, 2))
    && (Reached(s, k, PQC_ONLY) ==> s.ops >= 3 + Missing(s, k, 1) + Missing(s, k, 2) + Missing(s, k, 3))
  }

  lemma ReachedStep(cf: Config, s: State, t: State, a: Action, k: Key, v: nat)
    requires TypeOK(cf, s) && Step(cf, s, t, a) && Reached(t, k, v) && !Reached(s, k, v)
    ensures exists n: Node :: v > 0 && At(s, n, k, v - 1) && Message(n, k, v) in t.messages && s.messages <= t.messages
  {
    if a.Receive? {
      assert Reached(s, k, v);
    } else {
      assert v > 0;
      var n := if a.Begin? || a.Enter? || a.Complete? || a.Undo? then a.n else 0;
      assert At(s, n, k, v - 1);
    }
  }

  lemma MissingStep(cf: Config, s: State, t: State, a: Action, k: Key)
    requires Step(cf, s, t, a)
    ensures Missing(t, k, 1) + Missing(t, k, 2) + Missing(t, k, 3)
      <= Missing(s, k, 1) + Missing(s, k, 2) + Missing(s, k, 3) + 1
    ensures Missing(t, k, 1) + Missing(t, k, 2) <= Missing(s, k, 1) + Missing(s, k, 2) + 1
    ensures s.messages <= t.messages ==> forall v: nat :: Missing(t, k, v) <= Missing(s, k, v)
  {
    forall v: nat | !(a.Receive? && a.m.key == k && a.m.state == v) ensures Missing(t, k, v) <= Missing(s, k, v) {
      if m :| m in s.messages && m.key == k && m.state == v {
        assert m in t.messages;
      }
    }
  }

  lemma PaidStep(cf: Config, s: State, t: State, a: Action, k: Key)
    requires TypeOK(cf, s) && Step(cf, s, t, a) && Paid(s, k)
    ensures Paid(t, k)
  {
    MissingStep(cf, s, t, a, k);
    assert t.ops == s.ops + 1;
    forall v: nat | 1 <= v <= 3 && Reached(t, k, v) && !Reached(s, k, v)
      ensures v > 1 ==> Reached(s, k, v - 1)
      ensures Missing(t, k, v) == 0 && s.messages <= t.messages
    {
      ReachedStep(cf, s, t, a, k, v);
    }
  }

  lemma {:induction false} RunPaid(cf: Config, run: seq<State>, i: nat, k: Key)
    requires IsRun(cf, run) && i < |run|
    ensures Paid(run[i], k)
    decreases i
  {
    if i > 0 {
      RunPaid(cf, run, i - 1, k);
      var a := RunStep(cf, run, i - 1);
      PaidStep(cf, run[i - 1], run[i], a, k);
    }
  }

  // The configurations in which the claim holds.
  predicate SplitBrainSafe(cf: Config) {
    |cf.nodes| <= 2 || cf.keys == {} || cf.maxOps <= 5
  }

  lemma ThreeNodes(nodes: set<Node>, a: Node, b: Node, c: Node)
    requires {a, b, c} <= nodes && a != b && b != c && a != c
    ensures |nodes| >= 3
  {
    assert nodes == {a, b, c} + (nodes - {a, b, c});
  }

  lemma SplitBrainHolds(cf: Config, run: seq<State>, i: nat)
    requires IsRun(cf, run) && i < |run| && SplitBrainSafe(cf)
    ensures SplitBrainDetectable(run[i])
  {
    var s := run[i];
    RunInv(cf, run, i);
    forall n1: Node, n2: Node, k: Key | At(s, n1, k, PQC_ONLY) && At(s, n2, k, CLASSICAL) && s.messages == {}
      ensures false
    {
      RunPaid(cf, run, i, k);
      assert Reached(s, k, PQC_ONLY);
      assert s.ops >= 6;
      assert Redundant(s, k);
      var x: Node, y: Node :| x != y && At(s, x, k, PQC_ONLY) && At(s, y, k, PQC_ONLY);
      ThreeNodes(cf.nodes, x, y, n2);
    }
  }

  /** With three nodes one receiver can consume every announcement: six steps
      leave a at PQC_ONLY and c at CLASSICAL with nothing in flight. */
  lemma SplitBrainUndetected(cf: Config, a: Node, b: Node, c: Node, k: Key) returns (run: seq<State>)
    requires a in cf.nodes && b in cf.nodes && c in cf.nodes && a != b && b != c && a != c
    requires k in cf.keys && cf.maxOps >= 6
    ensures IsRun(cf, run)
    ensures !SplitBrainDetectable(run[|run| - 1])
  {
    var s0 := Initial(cf);
    var m1, m2, m3 := Message(a, k, HYBRID), Message(a, k, FINALIZING), Message(a, k, PQC_ONLY);
    var s3 := State(s0.local[(a, k) := PQC_ONLY], {m1, m2, m3}, {}, 3);
    run := AnnounceAll(cf, s0, a, k, s3);
    run := ReceiveAll(cf, run, s3, a, b, k);
    var s6 := run[|run| - 1];
    assert At(s6, a, k, PQC_ONLY) && At(s6, c, k, CLASSICAL);
  }

  function Initial(cf: Config): (s: State)
    ensures Init(cf, s)
  {
    State(map n, j | n in cf.nodes && j in cf.keys :: (n, j) := CLASSICAL, {}, {}, 0)
  }

  lemma ReceiveAll(cf: Config, run: seq<State>, s3: State, a: Node, b: Node, k: Key) returns (longer: seq<State>)
    requires IsRun(cf, run) && run[|run| - 1] == s3 && cf.maxOps >= 6
    requires a != b && (b, k) in s3.local && s3.local[(b, k)] == CLASSICAL
    requires s3.messages == {Message(a, k, HYBRID), Message(a, k, FINALIZING), Message(a, k, PQC_ONLY)}
    requires s3.partitioned == {} && s3.ops == 3
    ensures IsRun(cf, longer)
    ensures longer[|longer| - 1] == State(s3.local[(b, k) := PQC_ONLY], {}, {}, 6)
  {
    var m1, m2, m3 := Message(a, k, HYBRID), Message(a, k, FINALIZING), Message(a, k, PQC_ONLY);
    assert s3.messages - {m1} == {m2, m3};
    longer := Extend(cf, run, State(s3.local[(b, k) := HYBRID], {m2, m3}, {}, 4), Receive(b, m1));
    longer := Extend(cf, longer, State(s3.local[(b, k) := FINALIZING], {m3}, {}, 5), Receive(b, m2));
    longer := Extend(cf, longer, State(s3.local[(b, k) := PQC_ONLY], {}, {}, 6), Receive(b, m3));
  }

  lemma AnnounceAll(cf: Config, s0: State, a: Node, k: Key, s3: State) returns (run: seq<State>)
    requires Init(cf, s0) && (a, k) in s0.local && cf.maxOps >= 3
    requires s3 == State(s0.local[(a, k) := PQC_ONLY],
                         {Message(a, k, HYBRID), Message(a, k, FINALIZING), Message(a, k, PQC_ONLY)}, {}, 3)
    ensures IsRun(cf, run) && run[|run| - 1] == s3
  {
    var m1, m2, m3 := Message(a, k, HYBRID), Message(a, k, FINALIZING), Message(a, k, PQC_ONLY);
    run := [s0];
    run := Extend(cf, run, State(s0.local[(a, k) := HYBRID], {m1}, {}, 1), Begin(a, k));
    run := Extend(cf, run, State(s0.local[(a, k) := FINALIZING], {m1, m2}, {}, 2), Enter(a, k));
    assert {m1, m2} + {m3} == {m1, m2, m3};
    run := Extend(cf, run, s3, Complete(a, k));
  }

  lemma Extend(cf: Config, run: seq<State>, t: State, a: Action) returns (longer: seq<State>)
    requires IsRun(cf, run) && Step(cf, run[|run| - 1], t, a)
    ensures IsRun(cf, longer) && longer == run + [t]
  {
    longer := run + [t];
    assert Next(cf, run[|run| - 1], t);
  }

  /** The specification's SplitBrainDetectable holds in every reachable state
      exactly for configurations too small to refute it. */
  lemma SplitBrainExactly(cf: Config)
    ensures (forall run: seq<State>, i: nat :: IsRun(cf, run) && i < |run| ==> SplitBrainDetectable(run[i]))
      <==> SplitBrainSafe(cf)
  {
    if SplitBrainSafe(cf) {
      forall run: seq<State>, i: nat | IsRun(cf, run) && i < |run| ensures SplitBrainDetectable(run[i]) {
        SplitBrainHolds(cf, run, i);
      }
    } else {
      var k :| k in cf.keys;
      var a :| a in cf.nodes;
      assert |cf.nodes - {a}| == |cf.nodes| - 1;
      var b :| b in cf.nodes - {a};
      assert |cf.nodes - {a} - {b}| == |cf.nodes| - 2;
      var c :| c in cf.nodes - {a} - {b};
      var run := SplitBrainUndetected(cf, a, b, c, k);
    }
  }
}
