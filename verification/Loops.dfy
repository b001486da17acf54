/** When a loop over addresses stops. */
module Loops {
  import opened Memory

  /** One turn of a loop: the next address, or None if the loop is over. */
  type Turn = Addr -> Option<Addr>

  /** Where the loop from a is after n turns; None once it is over. */
  function After(turn: Turn, a: Addr, n: nat): Option<Addr>
    decreases n
  {
    if n == 0 then Some(a)
    else
      match turn(a)
      case None => None
      case Some(b) => After(turn, b, n - 1)
  }

  ghost predicate Stops(turn: Turn, a: Addr) {
    exists n: nat :: After(turn, a, n).None?
  }

  /** The loop comes to some address twice. */
  ghost predicate Repeats(turn: Turn, a: Addr) {
    exists i: nat, j: nat :: i < j && After(turn, a, i).Some? && After(turn, a, i) == After(turn, a, j)
  }

  lemma {:induction false} AfterMore(turn: Turn, a: Addr, i: nat, k: nat)
    ensures After(turn, a, i + k)
         == if After(turn, a, i).None? then None else After(turn, After(turn, a, i).value, k)
    decreases i
  {
    if i > 0 && turn(a).Some? {
      AfterMore(turn, turn(a).value, i - 1, k);
    }
  }

  lemma {:induction false} RepeatGoesOn(turn: Turn, a: Addr, i: nat, j: nat, n: nat)
    requires i < j && After(turn, a, i).Some? && After(turn, a, i) == After(turn, a, j)
    ensures After(turn, a, n).Some?
    decreases n
  {
    if n < j {
      AfterMore(turn, a, n, j - n);
    } else {
      AfterMore(turn, a, j, n - j);
      AfterMore(turn, a, i, n - j);
      RepeatGoesOn(turn, a, i, j, i + (n - j));
    }
  }

  /** Numbers below n, none of them twice. */
  predicate Distinct(s: seq<int>, n: nat) {
    && (forall i | 0 <= i < |s| :: 0 <= s[i] < n)
    && forall i, j | 0 <= i < j < |s| :: s[i] != s[j]
  }

  lemma {:induction false} AtMost(s: seq<int>, n: nat)
    requires Distinct(s, n)
    ensures |s| <= n
    decreases n
  {
    if s != [] {
      assert 0 <= s[0] < n;
      if k: nat :| k < |s| && s[k] == n - 1 {
        AtMost(s[..k] + s[k + 1..], n - 1);
      } else {
        AtMost(s, n - 1);
      }
    }
  }

  /** A loop over 64-bit addresses stops exactly when it comes to none twice. */
  lemma StopsIffNeverRepeats(turn: Turn, a: Addr)
    ensures Stops(turn, a) <==> !Repeats(turn, a)
  {
    if Stops(turn, a) && Repeats(turn, a) {
      var n: nat :| After(turn, a, n).None?;
      var i: nat, j: nat :| i < j && After(turn, a, i).Some? && After(turn, a, i) == After(turn, a, j);
      RepeatGoesOn(turn, a, i, j, n);
    }
    if !Stops(turn, a) {
      assert forall n: nat :: After(turn, a, n).Some?;
      var seen: seq<int> := seq(TWO64 + 1, n requires 0 <= n < TWO64 + 1 => After(turn, a, n).value);
      if !Repeats(turn, a) {
        forall i: nat, j: nat | i < j < |seen|
          ensures seen[i] != seen[j]
        {
          assert After(turn, a, i) != After(turn, a, j);
        }
        AtMost(seen, TWO64);
      }
    }
  }
}
