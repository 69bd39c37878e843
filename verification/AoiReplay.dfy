/** Enter and leave notifications, and what a client that replays them ends up seeing. */
module AoiReplay {

  datatype TriggerNotify = TriggerNotify(isAdd: bool, entities: seq<int>)

  function Elements(s: seq<int>): set<int> {
    set x | x in s
  }

  function Apply(seen: set<int>, n: TriggerNotify): set<int> {
    if n.isAdd then seen + Elements(n.entities) else seen - Elements(n.entities)
  }

  function Replay(seen: set<int>, ns: seq<TriggerNotify>): set<int> {
    if ns == [] then seen else Apply(Replay(seen, ns[..|ns| - 1]), ns[|ns| - 1])
  }

  lemma {:induction false} ReplayConcat(seen: set<int>, a: seq<TriggerNotify>, b: seq<TriggerNotify>)
    ensures Replay(seen, a + b) == Replay(Replay(seen, a), b)
  {
    if b == [] {
      assert a + b == a;
    } else {
      assert (a + b)[..|a + b| - 1] == a + b[..|b| - 1];
      ReplayConcat(seen, a, b[..|b| - 1]);
    }
  }

  lemma ReplayOne(seen: set<int>, n: TriggerNotify)
    ensures Replay(seen, [n]) == Apply(seen, n) && Replay(seen, []) == seen
  {
    assert [n][..0] == [];
  }

  /** Replaying is last-mention-wins: two starting points that agree outside the mentioned ids end alike. */
  lemma {:induction false} ReplayAgree(s: set<int>, t: set<int>, ns: seq<TriggerNotify>, x: int)
    requires Mentioned(ns, x) || (x in s <==> x in t)
    ensures x in Replay(s, ns) <==> x in Replay(t, ns)
  {
    if ns != [] {
      var last := ns[|ns| - 1];
      if x !in last.entities { ReplayAgree(s, t, ns[..|ns| - 1], x); }
    }
  }

  predicate Mentioned(ns: seq<TriggerNotify>, x: int) {
    exists i :: 0 <= i < |ns| && x in ns[i].entities
  }

  lemma {:induction false} ReplayUnmentioned(s: set<int>, ns: seq<TriggerNotify>, x: int)
    requires !Mentioned(ns, x)
    ensures x in Replay(s, ns) <==> x in s
  {
    if ns != [] {
      assert x !in ns[|ns| - 1].entities;
      ReplayUnmentioned(s, ns[..|ns| - 1], x);
    }
  }

  /** A batch that is delivered twice in a row changes nothing the second time. */
  lemma ReplayTwice(seen: set<int>, ns: seq<TriggerNotify>)
    ensures Replay(Replay(seen, ns), ns) == Replay(seen, ns)
  {
    forall x ensures x in Replay(Replay(seen, ns), ns) <==> x in Replay(seen, ns) {
      if !Mentioned(ns, x) { ReplayUnmentioned(seen, ns, x); }
      ReplayAgree(Replay(seen, ns), seen, ns, x);
    }
  }
}
