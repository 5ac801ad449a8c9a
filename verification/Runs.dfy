/** Runs of a machine that is given by what a step may do: from one state, on an event, to the next. */
module Runs {
  import opened Sequences

  /** The i-th event takes one state to the next. */
  ghost predicate Stepped<S, E>(next: (S, E, S) -> bool, ss: seq<S>, es: seq<E>, i: nat)
    requires i < |es| && |ss| == |es| + 1
  {
    next(ss[i], es[i], ss[i + 1])
  }

  /** The states before, between and after the events. */
  ghost predicate IsRun<S, E>(next: (S, E, S) -> bool, ss: seq<S>, es: seq<E>) {
    |ss| == |es| + 1 && forall i :: 0 <= i < |es| ==> Stepped(next, ss, es, i)
  }

  /** A run and one step more. */
  lemma OneMore<S, E>(next: (S, E, S) -> bool, ss: seq<S>, es: seq<E>, e: E, s': S) returns (ss': seq<S>, es': seq<E>)
    requires IsRun(next, ss, es) && next(ss[|es|], e, s')
    ensures IsRun(next, ss', es') && ss'[0] == ss[0] && ss'[|es'|] == s' && es' == es + [e]
  {
    ss', es' := ss + [s'], es + [e];
    forall i | 0 <= i < |es'|
      ensures Stepped(next, ss', es', i)
    {
      if i < |es| { assert Stepped(next, ss, es, i); }
    }
  }

  /** A run from its n-th state on. */
  lemma TailRuns<S, E>(next: (S, E, S) -> bool, ss: seq<S>, es: seq<E>, n: nat)
    requires IsRun(next, ss, es) && n <= |es|
    ensures IsRun(next, ss[n..], es[n..])
  {
    var ss', es' := ss[n..], es[n..];
    forall i | 0 <= i < |es'|
      ensures Stepped(next, ss', es', i)
    {
      assert Stepped(next, ss, es, n + i);
    }
  }

  ghost predicate Reaches<S(!new), E(!new)>(next: (S, E, S) -> bool, s: S, s': S) {
    exists ss, es :: IsRun(next, ss, es) && ss[0] == s && ss[|es|] == s'
  }

  lemma ReachesSelf<S(!new), E(!new)>(next: (S, E, S) -> bool, s: S)
    ensures Reaches(next, s, s)
  {
    var es: seq<E> := [];
    assert IsRun(next, [s], es);
  }

  lemma ReachesNext<S(!new), E(!new)>(next: (S, E, S) -> bool, s: S, s': S, e: E, s'': S)
    requires Reaches(next, s, s') && next(s', e, s'')
    ensures Reaches(next, s, s'')
  {
    var ss, es :| IsRun(next, ss, es) && ss[0] == s && ss[|es|] == s';
    var ss', es' := OneMore(next, ss, es, e, s'');
  }

  // ----- Runs of a part -----

  /** The i-th part makes one step, or no event happens to it and it stays as it is. */
  ghost predicate PartStepped<S, E>(next: (S, E, S) -> bool, ss: seq<S>, parts: seq<seq<E>>, i: nat)
    requires i < |parts| && |ss| == |parts| + 1
  {
    if parts[i] == [] then ss[i + 1] == ss[i] else |parts[i]| == 1 && next(ss[i], parts[i][0], ss[i + 1])
  }

  /** What happens to a part of a machine is a run of the part. */
  lemma {:induction false} PartRuns<S, E>(next: (S, E, S) -> bool, ss: seq<S>, parts: seq<seq<E>>)
    returns (rs: seq<S>, es: seq<E>)
    requires |ss| == |parts| + 1 && forall i :: 0 <= i < |parts| ==> PartStepped(next, ss, parts, i)
    ensures IsRun(next, rs, es) && rs[0] == ss[0] && rs[|es|] == ss[|parts|] && es == Concat(parts)
    decreases |parts|
  {
    if parts == [] {
      return ss, [];
    }
    var n := |parts| - 1;
    var ss', parts' := ss[..n + 1], parts[..n];
    forall i | 0 <= i < n
      ensures PartStepped(next, ss', parts', i)
    {
      assert PartStepped(next, ss, parts, i);
    }
    rs, es := PartRuns(next, ss', parts');
    assert PartStepped(next, ss, parts, n);
    if parts[n] != [] {
      assert parts[n] == [parts[n][0]];
      rs, es := OneMore(next, rs, es, parts[n][0], ss[n + 1]);
    }
  }
}
