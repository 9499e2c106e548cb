/**
  The Blackjack policies of policy.py: a fixed default rule, a greedy policy
  that falls back on it for unseen states, and an epsilon-soft policy. Each
  policy holds a reference to the Q-table owned by the learning loop, so it
  always reads the table's current contents.
 */
module Policies {
  import opened Maxima
  import opened TieBreaking

  /** A Blackjack observation: the player's sum, the dealer's showing card, a usable ace. */
  datatype Hand = Hand(playerSum: int, dealerCard: int, usableAce: bool)

  /** Action 0 sticks, action 1 hits. */
  const Stick: nat := 0
  const Hit: nat := 1

  /** The table after reading `key` through a defaultdict: a missing key gets `fill`. */
  function Vivified<S>(m: map<S, seq<real>>, key: S, fill: seq<real>): (m': map<S, seq<real>>)
    ensures key in m' && m'[key] == (if key in m then m[key] else fill)
    ensures m'.Keys == m.Keys + {key}
    ensures forall k :: k in m ==> m'[k] == m[k]
  {
    if key in m then m else m[key := fill]
  }

  /**
    The Q-table: a defaultdict from state to one value per action, owned and
    updated by the learning loop. Reading a missing key inserts `fill`, the
    value its default factory produces.
   */
  class QTable<S(==)> {
    var entries: map<S, seq<real>>
    const fill: seq<real>

    constructor (fill: seq<real>)
      ensures entries == map[] && this.fill == fill
    {
      this.fill := fill;
      entries := map[];
    }

    /** `Q[key]`: the stored values, inserting the default entry first when the key is missing. */
    method Get(key: S) returns (values: seq<real>)
      modifies this
      ensures entries == Vivified(old(entries), key, fill)
      ensures values == entries[key]
    {
      if key !in entries {
        entries := entries[key := fill];
      }
      values := entries[key];
    }

    /** `Q[key] = values`, as the learning loop does between decisions. */
    method Assign(key: S, values: seq<real>)
      modifies this
      ensures entries == old(entries)[key := values]
    {
      entries := entries[key := values];
    }
  }

  /** default_blackjack_policy: stick on 20 or 21, hit otherwise. */
  function DefaultPolicy(state: Hand): (a: nat)
    ensures a == Stick || a == Hit
    ensures a == Stick <==> state.playerSum == 20 || state.playerSum == 21
  {
    if state.playerSum in [20, 21] then Stick else Hit
  }

  /**
    The policy returned by create_blackjack_policy: the default rule for a
    state that is not a key of Q, else numpy's first-match argmax of Q[state].
   */
  class GreedyPolicy {
    const q: QTable<Hand>

    constructor (q: QTable<Hand>)
      ensures this.q == q
    {
      this.q := q;
    }

    method GetAction(state: Hand) returns (a: Result<nat>)
      ensures state !in q.entries ==> a == Ok(DefaultPolicy(state))
      ensures state in q.entries ==>
        var v := q.entries[state];
        && (|v| == 0 <==> a.Err?)
        && (a.Err? ==> a.error == EmptyArgmax)
        && (a.Ok? ==> && a.value < |v|
                      && (forall j :: 0 <= j < |v| ==> v[j] <= v[a.value])
                      && (forall j :: 0 <= j < a.value ==> v[j] < v[a.value])
                      && |TieSet(v)| > 0 && a.value == TieSet(v)[0])
    {
      if state !in q.entries {
        return Ok(DefaultPolicy(state));
      }
      var v := q.entries[state];
      if |v| == 0 {
        return Err(EmptyArgmax);
      }
      FirstMaxIsFirstTie(v);
      a := Ok(FirstMaxIndex(v));
    }
  }

  /**
    The coin flip of the epsilon-soft policy: explore when the draw from
    [0, 1) is below epsilon. With epsilon at most 0 it never explores, with
    epsilon at least 1 it always does.
   */
  function Explores(draw: real, epsilon: real): (b: bool)
    requires 0.0 <= draw < 1.0
    ensures epsilon <= 0.0 ==> !b
    ensures epsilon >= 1.0 ==> b
  {
    draw < epsilon
  }

  /**
    The policy returned by create_epsilon_policy. The number of actions is
    read once, when the policy is made, from the entry of the probe key (the
    source reads key 0); later calls see the table as it is then.
   */
  class EpsilonPolicy<S(==)> {
    const q: QTable<S>
    const epsilon: real
    const numActions: nat

    constructor (q: QTable<S>, epsilon: real, probe: S)
      modifies q
      ensures this.q == q && this.epsilon == epsilon
      ensures q.entries == Vivified(old(q.entries), probe, q.fill)
      ensures numActions == |q.entries[probe]|
    {
      var values := q.Get(probe);
      this.q := q;
      this.epsilon := epsilon;
      numActions := |values|;
    }

    /**
      get_action: on exploration a uniform action below numActions, without
      touching the table; on exploitation the tie-breaking argmax of Q[state],
      which inserts the default entry for an unseen state.
     */
    method GetAction(state: S, draw: real) returns (a: Result<nat>)
      requires 0.0 <= draw < 1.0
      modifies q
      ensures Explores(draw, epsilon) ==>
        && q.entries == old(q.entries)
        && (a.Ok? <==> numActions > 0)
        && (a.Ok? ==> a.value < numActions)
        && (a.Err? ==> a.error == EmptyActionRange)
      ensures !Explores(draw, epsilon) ==>
        && q.entries == Vivified(old(q.entries), state, q.fill)
        && var v := q.entries[state];
        && (a.Ok? <==> |v| > 0)
        && (a.Err? ==> a.error == EmptyChoice)
        && (a.Ok? ==> && a.value in TieSet(v)
                      && a.value < |v|
                      && forall j :: 0 <= j < |v| ==> v[j] <= v[a.value])
    {
      if Explores(draw, epsilon) {
        if numActions == 0 {
          return Err(EmptyActionRange);
        }
        var action :| 0 <= action < numActions;
        a := Ok(action);
      } else {
        var values := q.Get(state);
        a := Argmax(values);
      }
    }
  }

  /** The greedy policy on an empty table, and then on a table that has learned one state. */
  method GreedyScenario()
  {
    var q := new QTable<Hand>([0.0, 0.0]);
    var policy := new GreedyPolicy(q);
    var a := policy.GetAction(Hand(20, 10, false));
    assert a == Ok(Stick);
    a := policy.GetAction(Hand(13, 10, false));
    assert a == Ok(Hit);
    var s := Hand(13, 10, false);
    q.Assign(s, [2.0, 9.0, 0.0]);
    a := policy.GetAction(s);
    assert a == Ok(1);
    q.Assign(s, [4.0, 4.0]);
    a := policy.GetAction(s);
    assert a == Ok(0);
  }

  /**
    The epsilon-soft policy keeps its action count while the table changes,
    exploits a unique maximum with epsilon 0, and sees every update to Q.
   */
  method EpsilonScenario()
  {
    var q := new QTable<int>([0.0, 0.0, 0.0, 0.0]);
    var greedy := new EpsilonPolicy(q, 0.0, 0);
    assert greedy.numActions == 4;
    q.Assign(7, [0.0, 0.0, 5.0, 0.0]);
    var a := greedy.GetAction(7, 0.5);
    assert a == Ok(2);
    q.Assign(7, [1.0, 0.0]);
    a := greedy.GetAction(7, 0.5);
    assert a == Ok(0);
    assert greedy.numActions == 4;
    var explorer := new EpsilonPolicy(q, 1.0, 0);
    var before := q.entries;
    a := explorer.GetAction(8, 0.99);
    assert a.Ok? && a.value < 4;
    assert q.entries == before;
  }
}
