/**
 * The shape shared by the command-line loops of the client and of the
 * direct CLI: walk argv from a start index; an option that takes a value
 * and is not in last position consumes the next argument too (`argv[++i]`),
 * every other argument is looked at alone. `apply` is what the loop body
 * does with an option and its value (None when it took none).
 */
module Argv {
  import opened Wrappers

  /** Whether the loop at position `i` reads `argv[i + 1]` as the value of `argv[i]`. */
  predicate TakesPair(argv: seq<string>, i: nat, takesValue: string -> bool)
    requires i < |argv|
  {
    takesValue(argv[i]) && i + 1 < |argv|
  }

  /** How far the loop index moves from position `i`. */
  function Step(argv: seq<string>, i: nat, takesValue: string -> bool): (n: nat)
    requires i < |argv|
    ensures n == 1 || n == 2
    ensures i + n <= |argv|
    ensures n == 2 <==> TakesPair(argv, i, takesValue)
  {
    if TakesPair(argv, i, takesValue) then 2 else 1
  }

  /** The loop's state after running from position `i` with state `st`. */
  function Scan<S>(argv: seq<string>, i: nat, takesValue: string -> bool,
                   apply: (S, string, Option<string>) -> S, st: S): S
    decreases |argv| - i
  {
    if i >= |argv| then st
    else if TakesPair(argv, i, takesValue) then
      Scan(argv, i + 2, takesValue, apply, apply(st, argv[i], Some(argv[i + 1])))
    else
      Scan(argv, i + 1, takesValue, apply, apply(st, argv[i], None))
  }

  /** The loop, started at `i`, has its index equal to `j` at some iteration. */
  predicate Visits(argv: seq<string>, takesValue: string -> bool, i: nat, j: nat)
    decreases |argv| - i
  {
    i == j || (i < j && i < |argv| && Visits(argv, takesValue, i + Step(argv, i, takesValue), j))
  }

  /** A visited position moves on by one step (the last one reached is |argv|). */
  lemma {:induction false} VisitsNext(argv: seq<string>, takesValue: string -> bool, i: nat, j: nat)
    requires j < |argv| && Visits(argv, takesValue, i, j)
    ensures Visits(argv, takesValue, i, j + Step(argv, j, takesValue))
    decreases |argv| - i
  {
    if i != j {
      VisitsNext(argv, takesValue, i + Step(argv, i, takesValue), j);
    }
  }

  /** Whatever happened before position `j`, the rest of the loop runs from `j`. */
  lemma {:induction false} ScanThrough<S>(argv: seq<string>, i: nat, j: nat, takesValue: string -> bool,
                                         apply: (S, string, Option<string>) -> S, st: S) returns (mid: S)
    requires Visits(argv, takesValue, i, j)
    ensures Scan(argv, i, takesValue, apply, st) == Scan(argv, j, takesValue, apply, mid)
    decreases |argv| - i
  {
    if i == j {
      mid := st;
    } else if TakesPair(argv, i, takesValue) {
      mid := ScanThrough(argv, i + 2, j, takesValue, apply, apply(st, argv[i], Some(argv[i + 1])));
    } else {
      mid := ScanThrough(argv, i + 1, j, takesValue, apply, apply(st, argv[i], None));
    }
  }

  /**
   * The state the loop has when it reaches position `j` is the state it
   * builds from the arguments before `j` alone.
   */
  lemma {:induction false} ScanPrefix<S>(argv: seq<string>, i: nat, j: nat, takesValue: string -> bool,
                                        apply: (S, string, Option<string>) -> S, st: S)
    requires j <= |argv| && Visits(argv, takesValue, i, j)
    ensures Scan(argv, i, takesValue, apply, st)
            == Scan(argv, j, takesValue, apply, Scan(argv[..j], i, takesValue, apply, st))
    decreases |argv| - i
  {
    var front := argv[..j];
    if i != j {
      assert argv[i] == front[i];
      var n := Step(argv, i, takesValue);
      VisitsFrom(argv, takesValue, i + n, j);
      if TakesPair(argv, i, takesValue) {
        assert front[i + 1] == argv[i + 1];
        assert TakesPair(front, i, takesValue);
        ScanPrefix(argv, i + 2, j, takesValue, apply, apply(st, argv[i], Some(argv[i + 1])));
      } else {
        assert !TakesPair(front, i, takesValue);
        ScanPrefix(argv, i + 1, j, takesValue, apply, apply(st, argv[i], None));
      }
    }
  }

  /** The loop only moves forward. */
  lemma VisitsFrom(argv: seq<string>, takesValue: string -> bool, i: nat, j: nat)
    requires Visits(argv, takesValue, i, j)
    ensures i <= j
  {
  }

  /**
   * An argument the loop reaches in last position is looked at alone, after
   * the loop has done exactly what it does on argv without it.
   */
  lemma {:induction false} ScanLast<S>(argv: seq<string>, i: nat, takesValue: string -> bool,
                                      apply: (S, string, Option<string>) -> S, st: S)
    requires argv != [] && Visits(argv, takesValue, i, |argv| - 1)
    ensures Scan(argv, i, takesValue, apply, st)
            == apply(Scan(argv[..|argv| - 1], i, takesValue, apply, st), argv[|argv| - 1], None)
    decreases |argv| - i
  {
    var front := argv[..|argv| - 1];
    if i < |argv| - 1 {
      assert argv[i] == front[i];
      if TakesPair(argv, i, takesValue) {
        assert front[i + 1] == argv[i + 1];
        ScanLast(argv, i + 2, takesValue, apply, apply(st, argv[i], Some(argv[i + 1])));
      } else {
        ScanLast(argv, i + 1, takesValue, apply, apply(st, argv[i], None));
      }
    }
  }

  /** An option the loop reaches just before the last argument takes that argument as its value. */
  lemma ScanFinalPair<S>(argv: seq<string>, i: nat, takesValue: string -> bool,
                         apply: (S, string, Option<string>) -> S, st: S) returns (mid: S)
    requires |argv| >= 2 && Visits(argv, takesValue, i, |argv| - 2) && takesValue(argv[|argv| - 2])
    ensures Scan(argv, i, takesValue, apply, st) == apply(mid, argv[|argv| - 2], Some(argv[|argv| - 1]))
  {
    mid := ScanThrough(argv, i, |argv| - 2, takesValue, apply, st);
  }

  /** A property that every step on arguments of argv keeps holds of the final state. */
  lemma {:induction false} ScanKeeps<S>(argv: seq<string>, i: nat, takesValue: string -> bool,
                                       apply: (S, string, Option<string>) -> S, st: S, inv: S -> bool)
    requires inv(st)
    requires forall s, a, v: Option<string> :: inv(s) && a in argv && (v.Some? ==> v.value in argv) ==> inv(apply(s, a, v))
    ensures inv(Scan(argv, i, takesValue, apply, st))
    decreases |argv| - i
  {
    if i < |argv| {
      assert argv[i] in argv;
      if TakesPair(argv, i, takesValue) {
        assert argv[i + 1] in argv;
        ScanKeeps(argv, i + 2, takesValue, apply, apply(st, argv[i], Some(argv[i + 1])), inv);
      } else {
        ScanKeeps(argv, i + 1, takesValue, apply, apply(st, argv[i], None), inv);
      }
    }
  }

  /** The value the loop hands to the body at position `k`, if it takes one. */
  function ValueAt(argv: seq<string>, k: nat, takesValue: string -> bool): Option<string>
    requires k < |argv|
  {
    if TakesPair(argv, k, takesValue) then Some(argv[k + 1]) else None
  }

  /**
   * A property that every step the loop actually takes from `i` keeps
   * holds of the final state; steps at positions the loop jumps over, or
   * that it never reaches, do not matter.
   */
  lemma {:induction false} ScanKeepsVisited<S>(argv: seq<string>, i: nat, takesValue: string -> bool,
                                              apply: (S, string, Option<string>) -> S, st: S, inv: S -> bool)
    requires inv(st)
    requires forall s, k: nat :: k < |argv| && Visits(argv, takesValue, i, k) && inv(s)
                                 ==> inv(apply(s, argv[k], ValueAt(argv, k, takesValue)))
    ensures inv(Scan(argv, i, takesValue, apply, st))
    decreases |argv| - i
  {
    if i < |argv| {
      assert Visits(argv, takesValue, i, i);
      assert inv(apply(st, argv[i], ValueAt(argv, i, takesValue)));
      var n := Step(argv, i, takesValue);
      forall s, k: nat | k < |argv| && Visits(argv, takesValue, i + n, k) && inv(s)
        ensures inv(apply(s, argv[k], ValueAt(argv, k, takesValue)))
      {
        VisitsFrom(argv, takesValue, i + n, k);
        assert Visits(argv, takesValue, i, k);
      }
      if TakesPair(argv, i, takesValue) {
        ScanKeepsVisited(argv, i + 2, takesValue, apply, apply(st, argv[i], Some(argv[i + 1])), inv);
      } else {
        ScanKeepsVisited(argv, i + 1, takesValue, apply, apply(st, argv[i], None), inv);
      }
    }
  }

  /** A state no step changes is the final state. */
  lemma {:induction false} ScanFixed<S>(argv: seq<string>, i: nat, takesValue: string -> bool,
                                       apply: (S, string, Option<string>) -> S, st: S)
    requires forall k :: i <= k < |argv| ==> forall v :: apply(st, argv[k], v) == st
    ensures Scan(argv, i, takesValue, apply, st) == st
    decreases |argv| - i
  {
    if i < |argv| {
      if TakesPair(argv, i, takesValue) {
        ScanFixed(argv, i + 2, takesValue, apply, st);
      } else {
        ScanFixed(argv, i + 1, takesValue, apply, st);
      }
    }
  }
}
