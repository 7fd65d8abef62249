/** The section partitioner: the `Transformer` that receives every parsed statement of the input
    program and routes it to the guess program (built live), the buffered check program and the
    buffered glue program, according to the most recent `#program` header. */
module Transformer {
  import opened Results
  import opened Seqs

  /** A parsed statement: a `#program name(params).` header, or any other statement. */
  datatype Stmt = Header(name: string, hasParams: bool) | Other(id: nat)

  /** The four states of the section machine. */
  datatype Section = Guess | Shared | Glue | Check

  /** The three places a statement can be sent to. */
  datatype Output = ToGuess | ToCheck | ToGlue

  datatype Fragments = Fragments(guess: seq<Stmt>, check: seq<Stmt>, glue: seq<Stmt>)

  /** The transformer: its current section and what it has emitted so far. */
  datatype State = State(section: Section, out: Fragments)

  /** A fresh transformer starts in the guess section with nothing emitted. */
  const Initial := State(Guess, Fragments([], [], []))

  function Fragment(f: Fragments, o: Output): seq<Stmt> {
    match o
    case ToGuess => f.guess
    case ToCheck => f.check
    case ToGlue => f.glue
  }

  /** Which outputs the statements of a section are sent to. */
  function Targets(s: Section): set<Output> {
    match s
    case Shared => {ToGuess, ToCheck, ToGlue}
    case Guess => {ToGuess}
    case Check => {ToCheck}
    case Glue => {ToGlue}
  }

  /** The header names the partitioner accepts; `base` is a synonym of `guess`. */
  const KnownNames: set<string> := {"shared", "glue", "check", "base", "guess"}

  predicate ValidHeader(name: string, hasParams: bool) {
    !hasParams && name in KnownNames
  }

  function SectionNamed(name: string): Section
    requires name in KnownNames
  {
    match name
    case "shared" => Shared
    case "glue" => Glue
    case "check" => Check
    case _ => Guess
  }

  /** `Transformer.add`: feed one statement to the transformer. */
  function Add(t: State, stm: Stmt): (r: Result<State>)
    ensures stm.Header? ==> (r.Ok? <==> ValidHeader(stm.name, stm.hasParams))
    ensures r.Err? ==> r.error == UnexpectedProgramPart
    ensures stm.Header? && r.Ok? ==>
              r.value.out == t.out && r.value.section == SectionNamed(stm.name)
    ensures stm.Other? ==>
              r.Ok? && r.value.section == t.section &&
              forall o :: Fragment(r.value.out, o) ==
                            Fragment(t.out, o) + (if o in Targets(t.section) then [stm] else [])
  {
    match stm
    case Header(name, hasParams) =>
      if name == "shared" && !hasParams then Ok(t.(section := Shared))
      else if name == "glue" && !hasParams then Ok(t.(section := Glue))
      else if name == "check" && !hasParams then Ok(t.(section := Check))
      else if (name == "base" || name == "guess") && !hasParams then Ok(t.(section := Guess))
      else Err(UnexpectedProgramPart)
    case Other(_) =>
      var f := t.out;
      match t.section
      case Shared => Ok(t.(out := Fragments(f.guess + [stm], f.check + [stm], f.glue + [stm])))
      case Guess => Ok(t.(out := f.(guess := f.guess + [stm])))
      case Check => Ok(t.(out := f.(check := f.check + [stm])))
      case Glue => Ok(t.(out := f.(glue := f.glue + [stm])))
  }

  /** Feeds the statements one by one, stopping at the first error (the parser's callback loop). */
  function Feed(t: State, stmts: seq<Stmt>): Result<State>
    decreases |stmts|
  {
    if |stmts| == 0 then Ok(t)
    else
      match Add(t, stmts[0])
      case Err(e) => Err(e)
      case Ok(t') => Feed(t', stmts[1..])
  }

  // ---------------------------------------------------------------------------------------------
  // Reference description of the routing, independent of the state machine.

  predicate BadHeader(stm: Stmt) {
    stm.Header? && !ValidHeader(stm.name, stm.hasParams)
  }

  predicate HasBadHeader(stmts: seq<Stmt>) {
    exists i :: 0 <= i < |stmts| && BadHeader(stmts[i])
  }

  /** The section in force at position `i`: the one named by the last valid header before `i`,
      or the guess section when there is none. */
  function SectionAt(stmts: seq<Stmt>, i: nat): Section
    requires i <= |stmts|
    decreases i
  {
    if i == 0 then Guess
    else if stmts[i - 1].Header? && ValidHeader(stmts[i - 1].name, stmts[i - 1].hasParams)
    then SectionNamed(stmts[i - 1].name)
    else SectionAt(stmts, i - 1)
  }

  /** The non-header statements from position `i` on whose section feeds `o`, in source order. */
  function RoutedFrom(stmts: seq<Stmt>, i: nat, o: Output): (r: seq<Stmt>)
    requires i <= |stmts|
    ensures |r| <= |stmts| - i
    ensures forall s :: s in r ==> s.Other?
    ensures Subseq(r, stmts[i..])
    decreases |stmts| - i
  {
    if i == |stmts| then []
    else
      var rest := RoutedFrom(stmts, i + 1, o);
      assert stmts[i..][1..] == stmts[i + 1..];
      if stmts[i].Other? && o in Targets(SectionAt(stmts, i)) then [stmts[i]] + rest else rest
  }

  function Routed(stmts: seq<Stmt>, o: Output): seq<Stmt> {
    RoutedFrom(stmts, 0, o)
  }

  // ---------------------------------------------------------------------------------------------
  // The state machine agrees with the reference description.

  lemma BadHeaderSplit(stmts: seq<Stmt>)
    requires |stmts| > 0
    ensures HasBadHeader(stmts) <==> BadHeader(stmts[0]) || HasBadHeader(stmts[1..])
  {
    if HasBadHeader(stmts) && !BadHeader(stmts[0]) {
      var i :| 0 <= i < |stmts| && BadHeader(stmts[i]);
      assert stmts[1..][i - 1] == stmts[i];
    }
    if HasBadHeader(stmts[1..]) {
      var i :| 0 <= i < |stmts| - 1 && BadHeader(stmts[1..][i]);
      assert stmts[i + 1] == stmts[1..][i];
    }
  }

  /** The transformer run from position `i`, in the section in force there, having emitted `out`. */
  function RunFrom(stmts: seq<Stmt>, i: nat, out: Fragments): Result<State>
    requires i <= |stmts|
  {
    Feed(State(SectionAt(stmts, i), out), stmts[i..])
  }

  /** Emitting statement `i` and then what the reference routes from `i + 1` on is the same as
      emitting what the reference routes from `i` on. */
  lemma RoutingStep(stmts: seq<Stmt>, i: nat, out: Fragments, o: Output)
    requires i < |stmts| && !BadHeader(stmts[i])
    ensures Fragment(Add(State(SectionAt(stmts, i), out), stmts[i]).value.out, o) + RoutedFrom(stmts, i + 1, o)
            == Fragment(out, o) + RoutedFrom(stmts, i, o)
  {
    var stm := stmts[i];
    var tail := RoutedFrom(stmts, i + 1, o);
    if stm.Other? && o in Targets(SectionAt(stmts, i)) {
      assert RoutedFrom(stmts, i, o) == [stm] + tail;
      assert Fragment(out, o) + [stm] + tail == Fragment(out, o) + ([stm] + tail);
    } else {
      assert RoutedFrom(stmts, i, o) == tail;
    }
  }

  /** One step of the run from position `i`: a bad header there fails at once, anything else hands
      over to the run from `i + 1`. */
  lemma RunStep(stmts: seq<Stmt>, i: nat, out: Fragments)
    requires i < |stmts|
    ensures HasBadHeader(stmts[i..]) <==> BadHeader(stmts[i]) || HasBadHeader(stmts[i + 1..])
    ensures BadHeader(stmts[i]) ==> RunFrom(stmts, i, out) == Err(UnexpectedProgramPart)
    ensures !BadHeader(stmts[i]) ==>
              RunFrom(stmts, i, out) ==
              RunFrom(stmts, i + 1, Add(State(SectionAt(stmts, i), out), stmts[i]).value.out)
  {
    BadHeaderSplit(stmts[i..]);
    assert stmts[i..][0] == stmts[i];
    assert stmts[i..][1..] == stmts[i + 1..];
  }

  /** Run from position `i`, the transformer fails exactly when a bad header follows. */
  lemma {:induction false} FeedFailsOnBadHeader(stmts: seq<Stmt>, i: nat, out: Fragments)
    requires i <= |stmts|
    ensures RunFrom(stmts, i, out).Err? <==> HasBadHeader(stmts[i..])
    ensures RunFrom(stmts, i, out).Err? ==> RunFrom(stmts, i, out).error == UnexpectedProgramPart
    decreases |stmts| - i
  {
    if i == |stmts| {
      assert stmts[i..] == [];
    } else {
      RunStep(stmts, i, out);
      if !BadHeader(stmts[i]) {
        FeedFailsOnBadHeader(stmts, i + 1, Add(State(SectionAt(stmts, i), out), stmts[i]).value.out);
      }
    }
  }

  /** Run from position `i` without failing, the transformer appends to each output exactly what
      the reference routes to it. */
  lemma {:induction false} FeedFollowsRouting(stmts: seq<Stmt>, i: nat, out: Fragments)
    requires i <= |stmts|
    ensures RunFrom(stmts, i, out).Ok? ==>
              forall o :: Fragment(RunFrom(stmts, i, out).value.out, o) == Fragment(out, o) + RoutedFrom(stmts, i, o)
    decreases |stmts| - i
  {
    if i == |stmts| {
      assert stmts[i..] == [];
    } else {
      RunStep(stmts, i, out);
      if !BadHeader(stmts[i]) {
        var out' := Add(State(SectionAt(stmts, i), out), stmts[i]).value.out;
        FeedFollowsRouting(stmts, i + 1, out');
        if RunFrom(stmts, i, out).Ok? {
          forall o
            ensures Fragment(RunFrom(stmts, i, out).value.out, o) == Fragment(out, o) + RoutedFrom(stmts, i, o)
          {
            RoutingStep(stmts, i, out, o);
          }
        }
      }
    }
  }

  /** The whole input: the three fragments the program yields, or the structural error. */
  function Partition(stmts: seq<Stmt>): (r: Result<Fragments>)
    ensures r.Err? <==> HasBadHeader(stmts)
    ensures r.Err? ==> r.error == UnexpectedProgramPart
    ensures r.Ok? ==> forall o :: Fragment(r.value, o) == Routed(stmts, o)
  {
    assert stmts[0..] == stmts;
    FeedFailsOnBadHeader(stmts, 0, Initial.out);
    FeedFollowsRouting(stmts, 0, Initial.out);
    assert RunFrom(stmts, 0, Initial.out) == Feed(Initial, stmts);
    match Feed(Initial, stmts)
    case Ok(t) => Ok(t.out)
    case Err(e) => Err(e)
  }

  // ---------------------------------------------------------------------------------------------
  // Consequences.

  /** Before the first header the guess section is in force. */
  lemma {:induction false} DefaultSection(stmts: seq<Stmt>, i: nat)
    requires i <= |stmts|
    requires forall j :: 0 <= j < i ==> stmts[j].Other?
    ensures SectionAt(stmts, i) == Guess
  {
    if i > 0 {
      DefaultSection(stmts, i - 1);
    }
  }

  lemma {:induction false} RoutedHeaderless(stmts: seq<Stmt>, i: nat, o: Output)
    requires i <= |stmts|
    requires forall j :: 0 <= j < |stmts| ==> stmts[j].Other?
    ensures RoutedFrom(stmts, i, o) == if o == ToGuess then stmts[i..] else []
    decreases |stmts| - i
  {
    if i < |stmts| {
      DefaultSection(stmts, i);
      RoutedHeaderless(stmts, i + 1, o);
      assert stmts[i].Other? && Targets(SectionAt(stmts, i)) == {ToGuess};
      if o == ToGuess {
        assert RoutedFrom(stmts, i, o) == [stmts[i]] + RoutedFrom(stmts, i + 1, o);
        assert stmts[i..] == [stmts[i]] + stmts[i + 1..];
      } else {
        assert RoutedFrom(stmts, i, o) == RoutedFrom(stmts, i + 1, o);
      }
    }
  }

  /** A program without headers is entirely the guess program. */
  lemma HeaderlessIsGuess(stmts: seq<Stmt>)
    requires forall j :: 0 <= j < |stmts| ==> stmts[j].Other?
    ensures Partition(stmts) == Ok(Fragments(stmts, [], []))
  {
    assert !HasBadHeader(stmts);
    RoutedHeaderless(stmts, 0, ToGuess);
    RoutedHeaderless(stmts, 0, ToCheck);
    RoutedHeaderless(stmts, 0, ToGlue);
    assert stmts[0..] == stmts;
    assert Fragment(Partition(stmts).value, ToGuess) == stmts;
    assert Fragment(Partition(stmts).value, ToCheck) == [];
    assert Fragment(Partition(stmts).value, ToGlue) == [];
  }

  lemma {:induction false} RoutedOneSection(stmts: seq<Stmt>, i: nat, o: Output)
    requires 1 <= i <= |stmts|
    requires stmts[0].Header? && ValidHeader(stmts[0].name, stmts[0].hasParams)
    requires forall j :: 1 <= j < |stmts| ==> stmts[j].Other?
    ensures SectionAt(stmts, i) == SectionNamed(stmts[0].name)
    ensures RoutedFrom(stmts, i, o) ==
              if o in Targets(SectionNamed(stmts[0].name)) then stmts[i..] else []
    decreases |stmts| - i
  {
    if i > 1 {
      RoutedSectionAt(stmts, i);
    }
    if i < |stmts| {
      RoutedOneSection(stmts, i + 1, o);
      assert stmts[i..] == [stmts[i]] + stmts[i + 1..];
    }
  }

  lemma {:induction false} RoutedSectionAt(stmts: seq<Stmt>, i: nat)
    requires 1 <= i <= |stmts|
    requires stmts[0].Header? && ValidHeader(stmts[0].name, stmts[0].hasParams)
    requires forall j :: 1 <= j < |stmts| ==> stmts[j].Other?
    ensures SectionAt(stmts, i) == SectionNamed(stmts[0].name)
  {
    if i > 1 {
      RoutedSectionAt(stmts, i - 1);
    }
  }

  /** A single valid header followed by plain statements: the body goes to exactly the outputs the
      header's section feeds (all three for `shared`, only its own for the others), in order,
      and the header itself to none. */
  lemma SingleSection(name: string, body: seq<Stmt>)
    requires name in KnownNames
    requires forall j :: 0 <= j < |body| ==> body[j].Other?
    ensures Partition([Header(name, false)] + body).Ok?
    ensures forall o :: Fragment(Partition([Header(name, false)] + body).value, o) ==
                          if o in Targets(SectionNamed(name)) then body else []
  {
    var stmts := [Header(name, false)] + body;
    assert !BadHeader(stmts[0]);
    forall j | 1 <= j < |stmts| ensures stmts[j].Other? {
      assert stmts[j] == body[j - 1];
    }
    assert !HasBadHeader(stmts);
    forall o ensures Routed(stmts, o) == if o in Targets(SectionNamed(name)) then body else [] {
      RoutedOneSection(stmts, 1, o);
      assert stmts[1..] == body;
    }
  }
}
