/** The two fatal errors of the core, and the result and option types that carry them. */
module Results {

  /** `RuntimeError("unexpected program part")` and `RuntimeError("search interrupted")`. */
  datatype Error = UnexpectedProgramPart | SearchInterrupted

  datatype Result<+T> = Ok(value: T) | Err(error: Error)

  datatype Option<+T> = None | Some(value: T)
}

/** Solver literals and the solver's three-valued assignment over them. */
module Literals {

  /** What `assignment.value(lit)` answers: True, False, or None while undecided. */
  datatype Truth = True | False | Unknown

  function Negate(t: Truth): Truth {
    match t
    case True => False
    case False => True
    case Unknown => Unknown
  }

  /** A (partial) assignment of the solver's variables; an unmapped variable is undecided.
      A literal `l > 0` stands for variable `l`, a literal `l < 0` for the negation of variable `-l`. */
  type Assignment = map<nat, bool>

  function Var(lit: int): nat {
    if lit < 0 then -lit else lit
  }

  /** The truth of a literal under an assignment. */
  function Value(a: Assignment, lit: int): (t: Truth)
    ensures t == Unknown <==> Var(lit) !in a
  {
    if Var(lit) !in a then Unknown
    else if a[Var(lit)] == (lit > 0) then True
    else False
  }

  predicate IsTrue(a: Assignment, lit: int) {
    Value(a, lit) == True
  }

  /** Every literal of `lits` is a proper (non-zero) literal whose variable `a` assigns. */
  predicate Decided(a: Assignment, lits: seq<int>) {
    forall i :: 0 <= i < |lits| ==> lits[i] != 0 && Var(lits[i]) in a
  }

  /** A literal and its negation always take opposite truth values. */
  lemma NegationFlipsValue(a: Assignment, lit: int)
    requires lit != 0
    ensures Value(a, -lit) == Negate(Value(a, lit))
  {
  }
}

/** Facts about sequences used by several components. */
module Seqs {

  predicate NoDup<T(==)>(s: seq<T>) {
    forall i, j :: 0 <= i < j < |s| ==> s[i] != s[j]
  }

  /** `xs` is obtained from `ys` by deleting elements, keeping the order of the rest. */
  ghost predicate Subseq<T>(xs: seq<T>, ys: seq<T>)
    decreases |ys|
  {
    if |ys| == 0 then |xs| == 0
    else (|xs| > 0 && xs[0] == ys[0] && Subseq(xs[1..], ys[1..])) || Subseq(xs, ys[1..])
  }

  /** The position of the first occurrence of `x` in `s`. */
  function First<T(==)>(s: seq<T>, x: T): (i: nat)
    requires x in s
    ensures i < |s| && s[i] == x && x !in s[..i]
  {
    if s[0] == x then 0 else 1 + First(s[1..], x)
  }

  /** Appends to `acc`, in order, each element of `xs` that is not yet present:
      the `if lit not in list: list.append(lit)` idiom. */
  function AddUnique<T(==, !new)>(acc: seq<T>, xs: seq<T>): (r: seq<T>)
    ensures |acc| <= |r| && r[..|acc|] == acc
    ensures forall x :: x in r <==> x in acc || x in xs
    ensures NoDup(acc) ==> NoDup(r)
    decreases |xs|
  {
    if |xs| == 0 then acc
    else AddUnique(if xs[0] in acc then acc else acc + [xs[0]], xs[1..])
  }

  /** What `AddUnique` adds beyond `acc` comes in the order of first occurrence in `xs`. */
  lemma {:induction false} AddUniqueKeepsFirstOccurrenceOrder<T(!new)>(acc: seq<T>, xs: seq<T>)
    requires NoDup(acc)
    ensures forall i, j :: |acc| <= i < j < |AddUnique(acc, xs)| ==>
              AddUnique(acc, xs)[i] in xs && AddUnique(acc, xs)[j] in xs &&
              First(xs, AddUnique(acc, xs)[i]) < First(xs, AddUnique(acc, xs)[j])
    decreases |xs|
  {
    var r := AddUnique(acc, xs);
    if |xs| > 0 {
      var x0 := xs[0];
      var acc' := if x0 in acc then acc else acc + [x0];
      assert NoDup(acc');
      AddUniqueKeepsFirstOccurrenceOrder(acc', xs[1..]);
      assert r == AddUnique(acc', xs[1..]);
      forall i, j | |acc| <= i < j < |r|
        ensures r[i] in xs && r[j] in xs && First(xs, r[i]) < First(xs, r[j])
      {
        assert r[..|acc'|] == acc';
        // Every element past `acc'` differs from x0, since x0 is in `acc'` and `r` has no duplicates.
        assert x0 in acc' by { if x0 !in acc { assert acc'[|acc|] == x0; } }
        var k :| 0 <= k < |acc'| && acc'[k] == x0;
        assert r[k] == x0;
        if i < |acc'| {
          assert acc' != acc && i == |acc| && r[i] == x0;
          assert r[j] != x0;
          assert r[j] !in acc by { assert r[..|acc|] == acc; }
          assert r[j] in xs[1..];
          assert First(xs, r[i]) == 0;
        } else {
          assert r[i] != x0 && r[j] != x0;
          assert r[i] in xs[1..] && r[j] in xs[1..];
          assert First(xs, r[i]) == 1 + First(xs[1..], r[i]);
          assert First(xs, r[j]) == 1 + First(xs[1..], r[j]);
        }
      }
    }
  }

  /** Adding elements that are all present already changes nothing. */
  lemma {:induction false} AddUniqueSaturated<T(!new)>(acc: seq<T>, xs: seq<T>)
    requires forall x :: x in xs ==> x in acc
    ensures AddUnique(acc, xs) == acc
    decreases |xs|
  {
    if |xs| > 0 {
      assert xs[0] in acc;
      AddUniqueSaturated(acc, xs[1..]);
    }
  }
}
