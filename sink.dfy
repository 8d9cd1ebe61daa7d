/**
 * The environment that env.go assigns to with `os.Setenv`, replaced by an
 * in-memory sink: the current name-to-value mapping together with the log of
 * every assignment made, in call order.
 */
module Sink {
  import opened Scanner

  /** A name and the value assigned to it. */
  type Pair = (seq<byte>, seq<byte>)

  /** The mapping after replaying the assignments `ps`, oldest first, over `m`. */
  function Assigned(m: map<seq<byte>, seq<byte>>, ps: seq<Pair>): map<seq<byte>, seq<byte>>
  {
    if ps == [] then m
    else
      var last := ps[|ps| - 1];
      Assigned(m, ps[..|ps| - 1])[last.0 := last.1]
  }

  /** Replaying two runs of assignments is replaying their concatenation. */
  lemma {:induction false} AssignedAppend(m: map<seq<byte>, seq<byte>>, a: seq<Pair>, b: seq<Pair>)
    ensures Assigned(m, a + b) == Assigned(Assigned(m, a), b)
  {
    if b != [] {
      assert (a + b)[..|a + b| - 1] == a + b[..|b| - 1];
      AssignedAppend(m, a, b[..|b| - 1]);
    } else {
      assert a + b == a;
    }
  }

  /** One more assignment updates the name it assigns. */
  lemma AssignedSnoc(m: map<seq<byte>, seq<byte>>, ps: seq<Pair>, p: Pair)
    ensures Assigned(m, ps + [p]) == Assigned(m, ps)[p.0 := p.1]
  {
    assert (ps + [p])[..|ps|] == ps;
  }

  /** Last write wins: a name holds the value of its latest assignment. */
  lemma {:induction false} AssignedLastWins(m: map<seq<byte>, seq<byte>>, ps: seq<Pair>, i: nat)
    requires i < |ps|
    requires forall j | i < j < |ps| :: ps[j].0 != ps[i].0
    ensures ps[i].0 in Assigned(m, ps) && Assigned(m, ps)[ps[i].0] == ps[i].1
  {
    if i < |ps| - 1 {
      var init := ps[..|ps| - 1];
      assert init[i] == ps[i];
      assert forall j | i < j < |init| :: init[j] == ps[j];
      AssignedLastWins(m, init, i);
    }
  }

  /** A name that is never assigned keeps what it had before, present or absent. */
  lemma {:induction false} AssignedUntouched(m: map<seq<byte>, seq<byte>>, ps: seq<Pair>, name: seq<byte>)
    requires forall i | 0 <= i < |ps| :: ps[i].0 != name
    ensures name in Assigned(m, ps) <==> name in m
    ensures name in m ==> Assigned(m, ps)[name] == m[name]
  {
    if ps != [] {
      var init := ps[..|ps| - 1];
      assert forall i | 0 <= i < |init| :: init[i] == ps[i];
      AssignedUntouched(m, init, name);
    }
  }

  /** The process environment, as far as the parser can observe it. */
  class Environment {
    /** The current value of every variable that is set. */
    var vars: map<seq<byte>, seq<byte>>
    /** Every assignment made since the environment was created, in order. */
    var log: seq<Pair>
    /** The variables that were set before any assignment was logged. */
    ghost var initial: map<seq<byte>, seq<byte>>

    /** The mapping is always the replay of the log over the initial variables. */
    ghost predicate Valid()
      reads this
    {
      vars == Assigned(initial, log)
    }

    constructor (existing: map<seq<byte>, seq<byte>>)
      ensures Valid()
      ensures vars == existing && log == [] && initial == existing
    {
      vars := existing;
      log := [];
      initial := existing;
    }

    /** `os.Setenv(name, value)`: always succeeds and overwrites. */
    method Setenv(name: seq<byte>, value: seq<byte>)
      requires Valid()
      modifies this
      ensures Valid() && initial == old(initial)
      ensures vars == old(vars)[name := value]
      ensures log == old(log) + [(name, value)]
    {
      vars := vars[name := value];
      log := log + [(name, value)];
      assert log[..|log| - 1] == old(log);
    }
  }
}
