/** A Feistel network over pairs of strings, with the round function
    abstract: each round maps (A, B) to (B, C) or fails. FF1 instantiates
    it with ten rounds; the inverse theorem here is what makes its
    decryption undo its encryption. */
module Feistel {
  import opened Wrappers

  type Halves = (string, string)

  /** Round i applied to the halves (A, B). */
  type Step = (nat, string, string) -> Result<Halves>

  /** The first k rounds from (A, B), stopping at the first failure. */
  function Run(step: Step, k: nat, A: string, B: string): (r: Result<Halves>)
    decreases k
  {
    if k == 0 then Ok((A, B))
    else
      var ab :- Run(step, k - 1, A, B);
      step(k - 1, ab.0, ab.1)
  }

  /** The length of the first half after round i, when the halves start
      with lengths p and q: they swap every round. */
  function Len(p: nat, q: nat, i: nat): nat
  {
    if i % 2 == 0 then p else q
  }

  /** Round i applied to (a, b). The quantified facts below are stated
      through it, so that they are instantiated only where a proof names
      a round explicitly. */
  function StepAt(step: Step, i: nat, a: string, b: string): Result<Halves>
  {
    step(i, a, b)
  }

  /** Every successful round shifts B into first place and produces a new
      second half of the length the alternation calls for. */
  ghost predicate Alternates(step: Step, p: nat, q: nat, n: nat)
  {
    forall i: nat, a: string, b: string :: i < n && StepAt(step, i, a, b).Ok? ==>
      StepAt(step, i, a, b).value.0 == b && |StepAt(step, i, a, b).value.1| == Len(p, q, i)
  }

  /** Round n - 1 - k of `back` undoes round k of `step`. */
  ghost predicate Undoes(step: Step, back: Step, p: nat, q: nat, n: nat)
  {
    forall k: nat, a: string, b: string ::
      k < n && |a| == Len(p, q, k) && StepAt(step, k, a, b).Ok? && StepAt(step, k, a, b).value.0 == b ==>
        back(n - 1 - k, StepAt(step, k, a, b).value.1, b) == Ok((b, a))
  }

  /** A successful run went through every shorter run. */
  lemma {:induction false} RunPrefix(step: Step, k: nat, n: nat, A: string, B: string)
    requires k <= n && Run(step, n, A, B).Ok?
    ensures Run(step, k, A, B).Ok?
    decreases n
  {
    if k < n {
      RunPrefix(step, k, n - 1, A, B);
    }
  }

  /** A run of at least two rounds succeeded in its first two steps. */
  lemma FirstTwoSteps(step: Step, n: nat, A: string, B: string)
    requires 2 <= n && Run(step, n, A, B).Ok?
    ensures step(0, A, B).Ok?
    ensures step(1, step(0, A, B).value.0, step(0, A, B).value.1).Ok?
  {
    RunPrefix(step, 2, n, A, B);
    RunPrefix(step, 1, 2, A, B);
    assert Run(step, 1, A, B) == step(0, A, B);
  }

  /** After k successful rounds the halves have the lengths of round k. */
  lemma {:induction false} RunLengths(step: Step, p: nat, q: nat, n: nat, k: nat, A: string, B: string)
    requires Alternates(step, p, q, n) && k <= n
    requires |A| == p && |B| == q
    requires Run(step, k, A, B).Ok?
    ensures |Run(step, k, A, B).value.0| == Len(p, q, k)
    ensures |Run(step, k, A, B).value.1| == Len(p, q, k + 1)
    decreases k
  {
    if k > 0 {
      RunLengths(step, p, q, n, k - 1, A, B);
      var prev := Run(step, k - 1, A, B).value;
      AlternatesAt(step, p, q, n, k - 1, prev.0, prev.1);
    }
  }

  /** The halves exchanged. */
  function Swap(h: Halves): Halves
  {
    (h.1, h.0)
  }

  /** Running j rounds of `back` on the swapped result of n rounds of
      `step` reaches the swapped state after m = n - j rounds. */
  lemma {:induction false} Unwind(step: Step, back: Step, p: nat, q: nat, n: nat, j: nat, m: nat, A: string, B: string)
    requires Alternates(step, p, q, n) && Undoes(step, back, p, q, n) && m + j == n
    requires |A| == p && |B| == q
    requires Run(step, n, A, B).Ok?
    ensures Run(step, m, A, B).Ok?
    ensures
      var en := Run(step, n, A, B).value;
      var e := Run(step, m, A, B).value;
      Run(back, j, en.1, en.0) == Ok(Swap(e))
    decreases j
  {
    RunPrefix(step, m, n, A, B);
    if j > 0 {
      Unwind(step, back, p, q, n, j - 1, m + 1, A, B);
      RunPrefix(step, m + 1, n, A, B);
      UnwindStep(step, back, p, q, n, m, j - 1, A, B);
      var en := Run(step, n, A, B).value;
      var next := Run(step, m + 1, A, B).value;
      RunNext(back, j - 1, j, en.1, en.0, Swap(next));
    }
  }

  /** One more round after a run that reached ab. */
  lemma RunNext(step: Step, k: nat, k1: nat, A: string, B: string, ab: Halves)
    requires k1 == k + 1 && Run(step, k, A, B) == Ok(ab)
    ensures Run(step, k1, A, B) == step(k, ab.0, ab.1)
  {
  }

  /** Round m of `back`, counted from the end, undoes round m of `step`
      on the halves reached after m rounds. */
  lemma UnwindStep(step: Step, back: Step, p: nat, q: nat, n: nat, m: nat, i: nat, A: string, B: string)
    requires Alternates(step, p, q, n) && Undoes(step, back, p, q, n) && m < n && i == n - 1 - m
    requires |A| == p && |B| == q
    requires Run(step, m + 1, A, B).Ok?
    ensures Run(step, m, A, B).Ok?
    ensures
      var e := Run(step, m, A, B).value;
      var next := Run(step, m + 1, A, B).value;
      back(i, next.1, next.0) == Ok(Swap(e))
  {
    RunPrefix(step, m, m + 1, A, B);
    var e := Run(step, m, A, B).value;
    var next := Run(step, m + 1, A, B).value;
    assert Run(step, m + 1, A, B) == step(m, e.0, e.1);
    RunLengths(step, p, q, n, m, A, B);
    AlternatesAt(step, p, q, n, m, e.0, e.1);
    assert next == (e.1, next.1);
    UndoesAt(step, back, p, q, n, m, e.0, e.1);
  }

  /** Alternates, at round i on the halves (a, b). */
  lemma AlternatesAt(step: Step, p: nat, q: nat, n: nat, i: nat, a: string, b: string)
    requires Alternates(step, p, q, n) && i < n && step(i, a, b).Ok?
    ensures step(i, a, b).value.0 == b && |step(i, a, b).value.1| == Len(p, q, i)
  {
    assert StepAt(step, i, a, b) == step(i, a, b);
  }

  /** Undoes, at round k on the halves (a, b). */
  lemma UndoesAt(step: Step, back: Step, p: nat, q: nat, n: nat, k: nat, a: string, b: string)
    requires Undoes(step, back, p, q, n) && k < n && |a| == Len(p, q, k)
    requires step(k, a, b).Ok? && step(k, a, b).value.0 == b
    ensures back(n - 1 - k, step(k, a, b).value.1, b) == Ok((b, a))
  {
    assert StepAt(step, k, a, b) == step(k, a, b);
  }

  /** The inverse theorem: n rounds of `back` on the swapped output of n
      rounds of `step` give back the swapped input. */
  lemma RunInverse(step: Step, back: Step, p: nat, q: nat, n: nat, A: string, B: string)
    requires Alternates(step, p, q, n) && Undoes(step, back, p, q, n)
    requires |A| == p && |B| == q
    requires Run(step, n, A, B).Ok?
    ensures Run(back, n, Run(step, n, A, B).value.1, Run(step, n, A, B).value.0) == Ok((B, A))
  {
    Unwind(step, back, p, q, n, n, 0, A, B);
  }

  /** Every successful round saw halves satisfying P, shifted B into first
      place and produced a half satisfying P. */
  ghost predicate Guards(step: Step, P: string -> bool, n: nat)
  {
    forall i: nat, a: string, b: string :: i < n && StepAt(step, i, a, b).Ok? ==>
      P(a) && P(b) && StepAt(step, i, a, b).value.0 == b && P(StepAt(step, i, a, b).value.1)
  }

  /** Every round given halves satisfying P, of the lengths the alternation
      calls for, succeeds and produces a half satisfying P. */
  ghost predicate Total(step: Step, P: string -> bool, p: nat, q: nat, n: nat)
  {
    forall i: nat, a: string, b: string {:trigger StepAt(step, i, a, b)} ::
      i < n && P(a) && P(b) && |a| == Len(p, q, i) && |b| == Len(p, q, i + 1) ==>
        StepAt(step, i, a, b).Ok? && P(StepAt(step, i, a, b).value.1)
  }

  /** Guards, at round i on the halves (a, b). */
  lemma GuardsAt(step: Step, P: string -> bool, n: nat, i: nat, a: string, b: string)
    requires Guards(step, P, n) && i < n && step(i, a, b).Ok?
    ensures P(a) && P(b) && step(i, a, b).value.0 == b && P(step(i, a, b).value.1)
  {
    assert StepAt(step, i, a, b) == step(i, a, b);
  }

  /** Total, at round i on the halves (a, b). */
  lemma TotalAt(step: Step, P: string -> bool, p: nat, q: nat, n: nat, i: nat, a: string, b: string)
    requires Total(step, P, p, q, n) && i < n
    requires P(a) && P(b) && |a| == Len(p, q, i) && |b| == Len(p, q, i + 1)
    ensures step(i, a, b).Ok? && P(step(i, a, b).value.1)
  {
    assert StepAt(step, i, a, b) == step(i, a, b);
  }

  /** A successful run of at least one round started from, and ended with,
      halves satisfying P. */
  lemma {:induction false} RunGuarded(step: Step, P: string -> bool, n: nat, k: nat, A: string, B: string)
    requires Guards(step, P, n) && 1 <= k <= n
    requires Run(step, k, A, B).Ok?
    ensures P(A) && P(B)
    ensures P(Run(step, k, A, B).value.0) && P(Run(step, k, A, B).value.1)
    decreases k
  {
    if k > 1 {
      RunGuarded(step, P, n, k - 1, A, B);
      var prev := Run(step, k - 1, A, B).value;
      GuardsAt(step, P, n, k - 1, prev.0, prev.1);
    } else {
      assert Run(step, 1, A, B) == step(0, A, B);
      GuardsAt(step, P, n, 0, A, B);
    }
  }

  /** From halves satisfying P of the right lengths, every run succeeds. */
  lemma {:induction false} RunTotal(step: Step, P: string -> bool, p: nat, q: nat, n: nat, k: nat, A: string, B: string)
    requires Alternates(step, p, q, n) && Total(step, P, p, q, n) && k <= n
    requires P(A) && P(B) && |A| == p && |B| == q
    ensures Run(step, k, A, B).Ok?
    ensures P(Run(step, k, A, B).value.0) && P(Run(step, k, A, B).value.1)
    decreases k
  {
    if k > 0 {
      RunTotal(step, P, p, q, n, k - 1, A, B);
      RunLengths(step, p, q, n, k - 1, A, B);
      var prev := Run(step, k - 1, A, B).value;
      TotalAt(step, P, p, q, n, k - 1, prev.0, prev.1);
      RunNext(step, k - 1, k, A, B, prev);
      AlternatesAt(step, p, q, n, k - 1, prev.0, prev.1);
    }
  }
}
