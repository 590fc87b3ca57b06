/** src/io_policy/tee.hpp: one Put offers a message to the queue of every branch. */
module Tee {
  import opened Framing

  /** The queues when the branches in todo are still to be served: todo has what it had, the others what
      they shall have. */
  function Midway(branches: map<string, seq<Message>>, todo: set<string>, msg: Message, accepts: string -> bool)
    : map<string, seq<Message>>
  {
    map n | n in branches :: if n in todo || !accepts(n) then branches[n] else branches[n] + [msg]
  }

  function Refusing(branches: map<string, seq<Message>>, todo: set<string>, accepts: string -> bool): set<string> {
    set n | n in branches && n !in todo && !accepts(n)
  }

  ghost predicate StageHere(before: map<string, seq<Message>>, now: map<string, seq<Message>>, todo: set<string>,
                            msg: Message, accepts: string -> bool, tee: nat, failed: nat)
  {
    && todo <= before.Keys && now == Midway(before, todo, msg, accepts)
    && tee + |todo| == |before.Keys| && failed == |Refusing(before, todo, accepts)|
  }

  /** How far a Put has come. Worded so that the verifier looks inside only where StageHere is mentioned. */
  ghost predicate Stage(before: map<string, seq<Message>>, now: map<string, seq<Message>>, todo: set<string>,
                        msg: Message, accepts: string -> bool, tee: nat, failed: nat)
  {
    forall t | t == todo :: StageHere(before, now, t, msg, accepts, tee, failed)
  }

  lemma StageStart(before: map<string, seq<Message>>, msg: Message, accepts: string -> bool)
    ensures Stage(before, before, before.Keys, msg, accepts, 0, 0)
  {
    assert Refusing(before, before.Keys, accepts) == {};
    assert StageHere(before, before, before.Keys, msg, accepts, 0, 0);
  }

  lemma StageNext(before: map<string, seq<Message>>, now: map<string, seq<Message>>, todo: set<string>, n: string,
                  msg: Message, accepts: string -> bool, tee: nat, failed: nat)
    requires Stage(before, now, todo, msg, accepts, tee, failed) && n in todo
    ensures n in now
    ensures Stage(before, if accepts(n) then now[n := now[n] + [msg]] else now, todo - {n},
                  msg, accepts, tee + 1, if accepts(n) then failed else failed + 1)
  {
    assert StageHere(before, now, todo, msg, accepts, tee, failed);
    Serve(before, todo, n, msg, accepts);
    Refuse(before, todo, n, accepts);
    var next := if accepts(n) then now[n := now[n] + [msg]] else now;
    assert StageHere(before, next, todo - {n}, msg, accepts, tee + 1, if accepts(n) then failed else failed + 1);
  }

  lemma StageEnd(before: map<string, seq<Message>>, now: map<string, seq<Message>>,
                 msg: Message, accepts: string -> bool, tee: nat, failed: nat)
    requires Stage(before, now, {}, msg, accepts, tee, failed)
    ensures now.Keys == before.Keys && forall n | n in now :: now[n] == before[n] + if accepts(n) then [msg] else []
    ensures tee == |before|
    ensures failed == |set n | n in before && !accepts(n)|
  {
    assert StageHere(before, now, {}, msg, accepts, tee, failed);
    assert Refusing(before, {}, accepts) == set n | n in before && !accepts(n);
  }

  lemma Serve(branches: map<string, seq<Message>>, todo: set<string>, n: string, msg: Message, accepts: string -> bool)
    requires n in todo && n in branches
    ensures var m := Midway(branches, todo, msg, accepts);
            Midway(branches, todo - {n}, msg, accepts) == if accepts(n) then m[n := m[n] + [msg]] else m
  {
  }

  lemma Refuse(branches: map<string, seq<Message>>, todo: set<string>, n: string, accepts: string -> bool)
    requires n in todo && n in branches
    ensures var f := Refusing(branches, todo, accepts);
            Refusing(branches, todo - {n}, accepts) == (if accepts(n) then f else f + {n}) && n !in f
  {
  }

  class Tee {
    var branches: map<string, seq<Message>>
    var lastTeeCount: nat
    var lastFailedCount: nat

    constructor ()
      ensures branches == map[] && lastTeeCount == 0 && lastFailedCount == 0
    {
      branches := map[];
      lastTeeCount, lastFailedCount := 0, 0;
    }

    /** Every branch is attempted once, whatever the others answer; the counts are those of this Put. */
    method Put(msg: Message, accepts: string -> bool) returns (ok: bool)
      modifies this
      ensures ok && branches.Keys == old(branches).Keys
      ensures forall n | n in branches :: branches[n] == old(branches)[n] + if accepts(n) then [msg] else []
      ensures lastTeeCount == |old(branches)|
      ensures lastFailedCount == |set n | n in old(branches) && !accepts(n)|
    {
      lastTeeCount, lastFailedCount := 0, 0;
      var todo := branches.Keys;
      ghost var before := branches;
      StageStart(before, msg, accepts);
      while todo != {}
        invariant Stage(before, branches, todo, msg, accepts, lastTeeCount, lastFailedCount)
        decreases |todo|
      {
        var n :| n in todo;
        StageNext(before, branches, todo, n, msg, accepts, lastTeeCount, lastFailedCount);
        lastTeeCount := lastTeeCount + 1;
        if accepts(n) {
          branches := branches[n := branches[n] + [msg]];
        } else {
          lastFailedCount := lastFailedCount + 1;
        }
        todo := todo - {n};
      }
      StageEnd(before, branches, msg, accepts, lastTeeCount, lastFailedCount);
      return true;
    }
  }
}
