/**
  A variable that holds the time since which something has been going on, with 0 for "not at
  all". Four such variables drive the fan's shutdowns and reductions; here such a variable is
  related to the history it summarises.
 */
module SinceTimers {

  /** One observation: the condition holds at a time, is over, or nothing is learned about it. */
  datatype Sample = On(now: nat) | Off | Idle

  function Next(since: nat, x: Sample): nat {
    match x
    case On(now) => if since != 0 then since else now
    case Off => 0
    case Idle => since
  }

  function Since(h: seq<Sample>): nat {
    if h == [] then 0 else Next(Since(h[..|h| - 1]), h[|h| - 1])
  }

  /** From sample `i` to the end the condition was never over. */
  ghost predicate Streak(h: seq<Sample>, i: nat) {
    && i < |h| && h[i].On?
    && forall k | i <= k < |h| :: !h[k].Off?
  }

  /** The clock does not run backwards. */
  ghost predicate Monotone(h: seq<Sample>) {
    forall i, j | 0 <= i <= j < |h| && h[i].On? && h[j].On? :: h[i].now <= h[j].now
  }

  /** The variable holds the earliest positive time of the present streak, or 0 if there is none. */
  lemma {:induction false} SinceIsEarliest(h: seq<Sample>)
    requires Monotone(h)
    ensures forall i: nat | Streak(h, i) && h[i].now > 0 :: 0 < Since(h) <= h[i].now
    ensures Since(h) > 0 ==> exists i: nat :: Streak(h, i) && h[i].now == Since(h)
    decreases |h|
  {
    if h != [] {
      var n := |h| - 1;
      var front := h[..n];
      SinceIsEarliest(front);
      forall i: nat | Streak(h, i) && h[i].now > 0 ensures 0 < Since(h) <= h[i].now {
        if i < n {
          assert front[i] == h[i] && Streak(front, i);
        } else if Since(front) > 0 {
          var j: nat :| Streak(front, j) && front[j].now == Since(front);
          assert h[j] == front[j];
        }
      }
      if Since(h) > 0 {
        if Since(front) > 0 {
          var i: nat :| Streak(front, i) && front[i].now == Since(front);
          assert h[i] == front[i] && Streak(h, i);
        } else {
          assert Streak(h, n);
        }
      }
    }
  }

  /**
    The test `now - since >= limit` made right after an observation at `now` succeeds exactly
    when the present streak reaches back at least `limit` seconds. A start in second 0 of the
    clock cannot be told from "unset" and does not count.
   */
  lemma {:induction false} Expired(h: seq<Sample>, limit: nat)
    requires h != [] && h[|h| - 1].On? && Monotone(h) && limit > 0
    ensures h[|h| - 1].now - Since(h) >= limit <==>
            exists i: nat :: Streak(h, i) && h[i].now > 0 && h[|h| - 1].now - h[i].now >= limit
  {
    SinceIsEarliest(h);
    var n := |h| - 1;
    if Since(h) == 0 {
      assert Streak(h, n);
      assert h[n].now == 0;
    } else {
      var i: nat :| Streak(h, i) && h[i].now == Since(h);
    }
  }
}
