/**
  Where the calls of a test run point.  Each call is a piece of the requested range; the bytes that the
  accepted replies report are pairwise disjoint, and after a successful run they are exactly the range.
 */
module IoUringTrace {
  import opened Common
  import opened FileStats
  import opened Kernels
  import opened IoUringSlots
  import opened IoUring
  import opened IoUringTestLoop

  /** The call is for the bytes of the request from index `start` on, at the 64-bit file offset of that index. */
  predicate PointsAt(p: Params, call: Call, start: nat) {
    && call.offset == (p.offset + start) % UINT64_LIMIT
    && call.length > 0 && start + call.length <= p.length
  }

  /** The loop goes on after this reply to a call for `length` bytes. */
  predicate Accepts(c: Completion, length: nat) {
    || (c.status.SystemError? && (c.status.errno == 4 || c.status.errno == 11))
    || (c.status.Success? && (0 < c.count <= length || c.count == -4 || c.count == -11))
  }

  /** What a refused reply makes of the run. */
  function Refusal(op: Operation, c: Completion, length: nat): Status {
    if c.status.Success? then Verdict(op, c.count, length) else c.status
  }

  /** Reply `i` moved the byte with index `x`. */
  predicate Moves(cs: seq<Completion>, starts: seq<nat>, i: nat, x: nat)
    requires i < |cs| && i < |starts|
  {
    starts[i] <= x < starts[i] + Gain(cs[i])
  }

  /**
    The calls of `trace` from position `used` on, answered by `cs`, begin at the indices `starts`.  The first
    `n` replies were accepted; their bytes are new and pairwise disjoint.
   */
  ghost predicate Tiles(p: Params, trace: seq<Call>, used: nat, cs: seq<Completion>, starts: seq<nat>, n: nat,
                        done: set<nat>) {
    && n <= |starts| <= |cs| && |trace| == used + |starts|
    && (forall i :: 0 <= i < |starts| ==> PointsAt(p, trace[used + i], starts[i]))
    && (forall i :: 0 <= i < n ==> Accepts(cs[i], trace[used + i].length) && Gain(cs[i]) <= trace[used + i].length)
    && (forall i, x: nat :: 0 <= i < n && Moves(cs, starts, i, x) ==> x !in done)
    && (forall i, j, x: nat :: 0 <= i < j < n && Moves(cs, starts, i, x) ==> !Moves(cs, starts, j, x))
  }

  /** How a run ends: by an error exactly when a reply was refused, by success only with every byte moved. */
  ghost predicate Ends(p: Params, o: Outcome, used: nat, cs: seq<Completion>, starts: seq<nat>, n: nat, done: set<nat>)
    requires n <= |starts| <= |cs| && |o.trace| == used + |starts|
  {
    && (n < |starts| ==>
          && |starts| == n + 1 && !Accepts(cs[n], o.trace[used + n].length)
          && o.status == Refusal(p.op, cs[n], o.trace[used + n].length) && !o.status.Success?)
    && (n == |starts| ==> o.status.Success? || o.status.Pending?)
    && (n == |starts| && o.status.Pending? ==> n == |cs|)
    && (o.status.Success? ==>
          forall x: nat :: x < p.length ==> x in done || exists i :: 0 <= i < n && Moves(cs, starts, i, x))
  }

  lemma SlotPoints(p: Params, s: Loop, c0: Counters, done: set<nat>, created: nat)
    requires LoopInv(p, s, c0, done, created) && s.inFlight > 0 && Last(s.t) >= 0
    ensures PointsAt(p, CallOf(s.t[Last(s.t)]), s.t[Last(s.t)].baseIndex)
  {
    hide Last;
    LastFlying(p, s, c0, done, created);
    assert SlotOk(s.t[Last(s.t)], p.offset, s.next);
  }

  lemma ReactAccepts(p: Params, s: Loop, c: Completion)
    requires Last(s.t) >= 0 && s.t[Last(s.t)].submittedLength == s.t[Last(s.t)].remaining > 0
    ensures var length, r := s.t[Last(s.t)].submittedLength, React(p, s, c);
      && (r.Continue? <==> Accepts(c, length))
      && (r.Continue? ==> Gain(c) <= length)
      && (r.Stop? ==> r.outcome.status == Refusal(p.op, c, length))
  {
    hide Last, Complete;
  }

  lemma TilesNone(p: Params, trace: seq<Call>, cs: seq<Completion>, done: set<nat>)
    ensures Tiles(p, trace, |trace|, cs, [], 0, done)
  {
  }

  /** One more reply at the front, accepted. */
  lemma TilesCons(p: Params, o: Outcome, used: nat, cs: seq<Completion>, start: nat, starts: seq<nat>, n: nat,
                  done: set<nat>)
    requires cs != [] && used < |o.trace| && PointsAt(p, o.trace[used], start)
    requires Accepts(cs[0], o.trace[used].length) && Gain(cs[0]) <= o.trace[used].length
    requires done !! Interval(start, start + Gain(cs[0]))
    requires Tiles(p, o.trace, used + 1, cs[1..], starts, n, done + Interval(start, start + Gain(cs[0])))
    requires Ends(p, o, used + 1, cs[1..], starts, n, done + Interval(start, start + Gain(cs[0])))
    ensures Tiles(p, o.trace, used, cs, [start] + starts, n + 1, done)
    ensures Ends(p, o, used, cs, [start] + starts, n + 1, done)
  {
    var all, taken := [start] + starts, Interval(start, start + Gain(cs[0]));
    forall x: nat
      ensures Moves(cs, all, 0, x) <==> x in taken
    {
    }
    forall i, x: nat | 0 < i < |all|
      ensures Moves(cs, all, i, x) <==> Moves(cs[1..], starts, i - 1, x)
    {
    }
    forall i | 0 <= i < |all|
      ensures PointsAt(p, o.trace[used + i], all[i])
    {
      if i > 0 {
        assert PointsAt(p, o.trace[used + 1 + (i - 1)], starts[i - 1]);
      }
    }
    if o.status.Success? {
      forall x: nat | x < p.length
        ensures x in done || exists i :: 0 <= i < n + 1 && Moves(cs, all, i, x)
      {
        if x in taken {
          assert Moves(cs, all, 0, x);
        } else if x !in done {
          var i :| 0 <= i < n && Moves(cs[1..], starts, i, x);
          assert Moves(cs, all, i + 1, x);
        }
      }
    }
  }

  /** With nothing in flight and everything issued, every byte is done. */
  lemma OverDone(p: Params, s: Loop, c0: Counters, done: set<nat>, created: nat)
    requires Good(p) && LoopInv(p, s, c0, done, created) && Over(p, s)
    ensures forall x: nat :: x < p.length ==> x in done
  {
    AllDone(s.t, s.next, done);
  }

  lemma IssueTrace(p: Params, s: Loop)
    ensures Issue(p, s).trace == s.trace
  {
  }

  lemma {:induction false} RunTiles(p: Params, s: Loop, cs: seq<Completion>, c0: Counters, done: set<nat>, created: nat)
    returns (starts: seq<nat>, n: nat)
    requires Good(p) && LoopInv(p, s, c0, done, created)
    ensures s.trace <= Run(p, s, cs).trace
    ensures Tiles(p, Run(p, s, cs).trace, |s.trace|, cs, starts, n, done)
    ensures Ends(p, Run(p, s, cs), |s.trace|, cs, starts, n, done)
    decreases |cs|
  {
    hide Run, LoopInv, Issue, Last, React, Tiles, PointsAt, Accepts, Refusal, CallOf;
    starts, n := [], 0;
    if Over(p, s) {
      RunOver(p, s, cs);
      OverDone(p, s, c0, done, created);
      TilesNone(p, s.trace, cs, done);
    } else {
      var created' := IssueKeeps(p, s, c0, done, created);
      var filled := Issue(p, s);
      IssueTrace(p, s);
      LastFlying(p, filled, c0, done, created');
      RunStep(p, s, cs);
      if cs == [] {
        TilesNone(p, s.trace, cs, done);
      } else {
        var slot := filled.t[Last(filled.t)];
        SlotPoints(p, filled, c0, done, created');
        ReactAccepts(p, filled, cs[0]);
        CallLength(slot);
        var done' := ReactKeeps(p, filled, cs[0], c0, done, created');
        match React(p, filled, cs[0])
        case Stop(outcome) =>
          starts := [slot.baseIndex];
          TilesStop(p, s.trace, CallOf(slot), cs, slot.baseIndex, done);
        case Continue(next) =>
          var rest, m := RunTiles(p, next, cs[1..], c0, done', created');
          TilesCons(p, Run(p, s, cs), |s.trace|, cs, slot.baseIndex, rest, m, done);
          starts, n := [slot.baseIndex] + rest, m + 1;
      }
    }
  }

  lemma CallLength(slot: Slot)
    ensures CallOf(slot).length == slot.submittedLength
  {
  }

  lemma TilesStop(p: Params, trace: seq<Call>, call: Call, cs: seq<Completion>, start: nat, done: set<nat>)
    requires cs != [] && PointsAt(p, call, start)
    ensures Tiles(p, trace + [call], |trace|, cs, [start], 0, done)
  {
  }

  /**
    A whole run, from the start and for any replies: every call points into the requested range, the run ends
    in an error exactly when a reply is refused, and a successful run has moved every byte exactly once.
   */
  lemma {:induction false} TestRunTiles(p: Params, counts: Counters, cs: seq<Completion>)
    returns (starts: seq<nat>, n: nat)
    requires Good(p)
    ensures var o := Run(p, Start(p, counts), cs);
      Tiles(p, o.trace, 0, cs, starts, n, {}) && Ends(p, o, 0, cs, starts, n, {})
  {
    hide Run, LoopInv, Tiles, Ends;
    StartKeeps(p, counts);
    starts, n := RunTiles(p, Start(p, counts), cs, counts, {}, 0);
  }
}
