/**
 * `make_hmm_words` (src/app.rb:285-296): one model per dictionary line, the
 * left fold of `HMM#+` (`inject(:+)`) over the models of its phonemes.
 */
module Words {
  import opened Wrappers
  import opened Matrices
  import opened HmmSpec
  import opened Hmm
  import opened Tables

  /**
   * A dictionary line split on its first tab: the word, and the field after
   * the tab split on whitespace; None when the line has no tab, so that Ruby
   * calls `split` on nil.
   */
  datatype DictLine = DictLine(word: string, phonemes: Option<seq<string>>)

  /** The two ways a dictionary line makes Ruby raise. */
  datatype WordError =
    | NoPronunciation(word: string)   // `nil.split`
    | CannotCompose(word: string)     // `nil + hmm`, `hmm + nil` or `nil + Array` inside `inject(:+)`

  predicate AllKnown(models: map<string, HMM>, ps: seq<string>)
  {
    forall i :: 0 <= i < |ps| ==> ps[i] in models
  }

  /** The states of the phonemes' models, concatenated in order. */
  ghost function StatesOf(models: map<string, HMM>, ps: seq<string>): seq<State>
    requires AllKnown(models, ps)
    reads models.Values
  {
    if |ps| == 0 then [] else StatesOf(models, ps[..|ps| - 1]) + models[ps[|ps| - 1]].states
  }

  /** The transition matrices of the phonemes' models, in order. */
  ghost function TransitionsOf(models: map<string, HMM>, ps: seq<string>): (r: seq<Matrix>)
    requires AllKnown(models, ps)
    reads models.Values
    ensures |r| == |ps| && forall i :: 0 <= i < |ps| ==> r[i] == models[ps[i]].stateTransitions
  {
    if |ps| == 0 then [] else TransitionsOf(models, ps[..|ps| - 1]) + [models[ps[|ps| - 1]].stateTransitions]
  }

  function SizeSum(ms: seq<Matrix>): nat
  {
    if |ms| == 0 then 0 else SizeSum(ms[..|ms| - 1]) + |ms[|ms| - 1]|
  }

  /**
   * The transitions of `m0 + m1 + ... + mn`: each `+` overlaps the exit row
   * of the left operand with the first row of the right one, so the size is
   * the sum of the sizes less one per `+`.
   */
  function FoldTransitions(ms: seq<Matrix>): (m: Matrix)
    requires |ms| >= 1 && forall i :: 0 <= i < |ms| ==> |ms[i]| >= 1
    ensures |m| == SizeSum(ms) - (|ms| - 1) && |m| >= 1
  {
    if |ms| == 1 then ms[0] else PlusTransitions(FoldTransitions(ms[..|ms| - 1]), ms[|ms| - 1])
  }

  lemma ZerosAppend(a: nat, b: nat)
    ensures Zeros(a) + Zeros(b) == Zeros(a + b)
  {
  }

  /**
   * The phonemes can be folded: each has a model with a transition row, and
   * the first, the left operand of the first `+`, has its `initial`.
   */
  ghost predicate Composable(models: map<string, HMM>, ps: seq<string>)
    reads models.Values
  {
    |ps| >= 1 && AllKnown(models, ps) && models[ps[0]].initial.Some? &&
    forall i :: 0 <= i < |ps| ==> |models[ps[i]].stateTransitions| >= 1
  }

  lemma FoldStep(ms: seq<Matrix>, m: Matrix)
    requires |ms| >= 1 && (forall i :: 0 <= i < |ms| ==> |ms[i]| >= 1) && |m| >= 1
    ensures FoldTransitions(ms + [m]) == PlusTransitions(FoldTransitions(ms), m)
  {
    assert (ms + [m])[..|ms|] == ms;
  }

  lemma FirstTwo(models: map<string, HMM>, ps: seq<string>)
    requires |ps| >= 2 && AllKnown(models, ps)
    ensures StatesOf(models, ps[..2]) == models[ps[0]].states + models[ps[1]].states
    ensures StatesOf(models, ps[1..2]) == models[ps[1]].states
    ensures TransitionsOf(models, ps[..2]) == [models[ps[0]].stateTransitions, models[ps[1]].stateTransitions]
  {
    assert ps[..2][..1] == ps[..1] && ps[..2][1] == ps[1];
    assert ps[..1][..0] == [] && ps[..1][0] == ps[0];
    assert StatesOf(models, ps[..1]) == models[ps[0]].states;
    assert ps[1..2][..0] == [] && ps[1..2][0] == ps[1];
  }

  lemma StepOf(models: map<string, HMM>, ps: seq<string>, i: nat)
    requires AllKnown(models, ps) && 1 <= i < |ps|
    ensures StatesOf(models, ps[..i + 1]) == StatesOf(models, ps[..i]) + models[ps[i]].states
    ensures StatesOf(models, ps[1..i + 1]) == StatesOf(models, ps[1..i]) + models[ps[i]].states
    ensures TransitionsOf(models, ps[..i + 1]) == TransitionsOf(models, ps[..i]) + [models[ps[i]].stateTransitions]
  {
    assert ps[..i + 1][..i] == ps[..i];
    assert ps[1..i + 1][..i - 1] == ps[1..i];
  }

  /**
   * `inject(:+)` over two or more phoneme models: a new HMM whose states are
   * theirs concatenated, whose `initial` is the first one's padded with a
   * zero per later state, and whose transitions are the fold of `+`.
   */
  method Compose(models: map<string, HMM>, ps: seq<string>) returns (r: HMM)
    requires |ps| >= 2 && Composable(models, ps)
    ensures fresh(r)
    ensures r.states == StatesOf(models, ps)
    ensures r.initial == Some(models[ps[0]].initial.value + Zeros(|StatesOf(models, ps[1..])|))
    ensures r.stateTransitions == FoldTransitions(TransitionsOf(models, ps))
  {
    r := ComposeFirst(models, ps);
    var i := 2;
    while i < |ps|
      invariant 2 <= i <= |ps|
      invariant fresh(r)
      invariant Composed(models, ps, i, r)
    {
      r := ComposeStep(models, ps, i, r);
      i := i + 1;
    }
    ComposedAll(models, ps, i, r);
  }

  /** The sum over all the phonemes is the composed model. */
  lemma ComposedAll(models: map<string, HMM>, ps: seq<string>, i: nat, r: HMM)
    requires i == |ps| >= 2 && Composable(models, ps) && Composed(models, ps, i, r)
    ensures r.states == StatesOf(models, ps)
    ensures r.initial == Some(models[ps[0]].initial.value + Zeros(|StatesOf(models, ps[1..])|))
    ensures r.stateTransitions == FoldTransitions(TransitionsOf(models, ps))
  {
    assert ps[..|ps|] == ps && ps[1..|ps|] == ps[1..];
  }

  /** `r` is the sum of the models of the first `i` phonemes. */
  ghost predicate Composed(models: map<string, HMM>, ps: seq<string>, i: nat, r: HMM)
    requires 1 <= i <= |ps| && Composable(models, ps)
    reads models.Values, r
  {
    Sums(models, ps, i, r.states, r.initial, r.stateTransitions)
  }

  /** The fields of the sum of the models of the first `i` phonemes. */
  ghost predicate Sums(models: map<string, HMM>, ps: seq<string>, i: nat,
                       states: seq<State>, initial: Option<Row>, transitions: Matrix)
    requires 1 <= i <= |ps| && Composable(models, ps)
    reads models.Values
  {
    states == StatesOf(models, ps[..i]) &&
    initial == Some(models[ps[0]].initial.value + Zeros(|StatesOf(models, ps[1..i])|)) &&
    transitions == FoldTransitions(TransitionsOf(models, ps[..i]))
  }

  /** The sum of the first two phoneme models is the first `+` of the fold. */
  lemma SumsFirst(models: map<string, HMM>, ps: seq<string>)
    requires |ps| >= 2 && Composable(models, ps)
    ensures var a := models[ps[0]]; var b := models[ps[1]];
      Sums(models, ps, 2, a.states + b.states, Some(a.initial.value + Zeros(|b.states|)),
           PlusTransitions(a.stateTransitions, b.stateTransitions))
  {
    var a := models[ps[0]];
    FirstTwo(models, ps);
    FoldStep([a.stateTransitions], models[ps[1]].stateTransitions);
    assert [a.stateTransitions] + [models[ps[1]].stateTransitions] == TransitionsOf(models, ps[..2]);
  }

  /** Adding the next phoneme's model to the sum of the first `i` gives the sum of the first `i + 1`. */
  lemma SumsStep(models: map<string, HMM>, ps: seq<string>, i: nat,
                 states: seq<State>, initial: Option<Row>, transitions: Matrix)
    requires 2 <= i < |ps| && Composable(models, ps) && Sums(models, ps, i, states, initial, transitions)
    ensures Sums(models, ps, i + 1, states + models[ps[i]].states,
                 Some(initial.value + Zeros(|models[ps[i]].states|)),
                 PlusTransitions(transitions, models[ps[i]].stateTransitions))
  {
    StepOf(models, ps, i);
    InitialNext(models, ps, i);
    FoldNext(models, ps, i);
  }

  /** The padded `initial` over `i + 1` phonemes pads the one over `i` by the next model's states. */
  lemma InitialNext(models: map<string, HMM>, ps: seq<string>, i: nat)
    requires 1 <= i < |ps| && Composable(models, ps)
    ensures var x := models[ps[0]].initial.value;
      x + Zeros(|StatesOf(models, ps[1..i + 1])|)
      == (x + Zeros(|StatesOf(models, ps[1..i])|)) + Zeros(|models[ps[i]].states|)
  {
    assert ps[1..i + 1][..i - 1] == ps[1..i];
    var a := |StatesOf(models, ps[1..i])|;
    var b := |models[ps[i]].states|;
    assert |StatesOf(models, ps[1..i + 1])| == a + b;
    ZerosAppend(a, b);
    AppendAssoc(models[ps[0]].initial.value, Zeros(a), Zeros(b));
  }

  lemma AppendAssoc(x: Row, y: Row, z: Row)
    ensures (x + y) + z == x + (y + z)
  {
  }

  /** The fold over `i + 1` phonemes adds the next model to the fold over `i`. */
  lemma FoldNext(models: map<string, HMM>, ps: seq<string>, i: nat)
    requires 1 <= i < |ps| && Composable(models, ps)
    ensures FoldTransitions(TransitionsOf(models, ps[..i + 1]))
         == PlusTransitions(FoldTransitions(TransitionsOf(models, ps[..i])), models[ps[i]].stateTransitions)
  {
    StepOf(models, ps, i);
    FoldStep(TransitionsOf(models, ps[..i]), models[ps[i]].stateTransitions);
  }

  method ComposeFirst(models: map<string, HMM>, ps: seq<string>) returns (r: HMM)
    requires |ps| >= 2 && Composable(models, ps)
    ensures fresh(r) && Composed(models, ps, 2, r)
  {
    r := models[ps[0]].Plus(models[ps[1]]);
    SumsFirst(models, ps);
  }

  method ComposeStep(models: map<string, HMM>, ps: seq<string>, i: nat, r: HMM) returns (r': HMM)
    requires 2 <= i < |ps| && Composable(models, ps) && Composed(models, ps, i, r)
    ensures fresh(r') && Composed(models, ps, i + 1, r')
  {
    var next := models[ps[i]];
    SumsStep(models, ps, i, r.states, r.initial, r.stateTransitions);
    r' := r.Plus(next);
  }

  /** What a line with phonemes `ps` stores: nothing, the one model itself, or the fold. */
  ghost predicate Builds(models: map<string, HMM>, ps: seq<string>, e: Option<HMM>)
    reads models.Values, if e.Some? then {e.value} else {}
  {
    if |ps| == 0 then e == None
    else if |ps| == 1 then e == (if ps[0] in models then Some(models[ps[0]]) else None)
    else
      e.Some? && Composable(models, ps) &&
      e.value.states == StatesOf(models, ps) &&
      e.value.initial == Some(models[ps[0]].initial.value + Zeros(|StatesOf(models, ps[1..])|)) &&
      e.value.stateTransitions == FoldTransitions(TransitionsOf(models, ps))
  }

  /** A line on which Ruby raises. */
  ghost predicate Bad(models: map<string, HMM>, line: DictLine)
    reads models.Values
  {
    line.phonemes.None? ||
    (|line.phonemes.value| >= 2 && !(AllKnown(models, line.phonemes.value) && models[line.phonemes.value[0]].initial.Some?))
  }

  /** The words in the order they first appear. */
  function WordOrder(lines: seq<DictLine>): seq<string>
  {
    if |lines| == 0 then []
    else
      var order := WordOrder(lines[..|lines| - 1]);
      if lines[|lines| - 1].word in order then order else order + [lines[|lines| - 1].word]
  }

  /** The phonemes of the last line for `w`: a later line replaces an earlier one. */
  function Pronunciation(lines: seq<DictLine>, w: string): seq<string>
  {
    if |lines| == 0 then []
    else if lines[|lines| - 1].word == w then
      (if lines[|lines| - 1].phonemes.Some? then lines[|lines| - 1].phonemes.value else [])
    else Pronunciation(lines[..|lines| - 1], w)
  }

  lemma PronunciationStep(lines: seq<DictLine>, i: nat, w: string)
    requires i < |lines|
    ensures Pronunciation(lines[..i + 1], w) ==
      if lines[i].word == w then (if lines[i].phonemes.Some? then lines[i].phonemes.value else [])
      else Pronunciation(lines[..i], w)
  {
    assert lines[..i + 1][..i] == lines[..i];
  }

  lemma WordOrderStep(lines: seq<DictLine>, i: nat)
    requires i < |lines|
    ensures WordOrder(lines[..i + 1]) ==
      if lines[i].word in WordOrder(lines[..i]) then WordOrder(lines[..i]) else WordOrder(lines[..i]) + [lines[i].word]
  {
    assert lines[..i + 1][..i] == lines[..i];
  }

  /**
   * Every model a line of two or more phonemes folds with `+` has a
   * transition row. With none, `+` shifts by -1 and Ruby's negative indices
   * wrap around, which the model does not follow. A line of one phoneme calls
   * no `+`, so its model may have no rows.
   */
  ghost predicate RowsWhereFolded(models: map<string, HMM>, ps: seq<string>)
    reads models.Values
  {
    |ps| >= 2 ==> forall j :: 0 <= j < |ps| && ps[j] in models ==> |models[ps[j]].stateTransitions| >= 1
  }

  /** The value one line stores under its word, for a line on which Ruby does not raise. */
  method WordEntry(models: map<string, HMM>, ps: seq<string>) returns (e: Option<HMM>)
    requires RowsWhereFolded(models, ps)
    requires |ps| >= 2 ==> AllKnown(models, ps) && models[ps[0]].initial.Some?
    ensures Builds(models, ps, e)
    ensures |ps| >= 2 ==> e.Some? && fresh(e.value)
  {
    if |ps| == 0 {
      e := None;
    } else if |ps| == 1 {
      e := if ps[0] in models then Some(models[ps[0]]) else None;
    } else {
      var h := Compose(models, ps);
      e := Some(h);
    }
  }

  /** Every word read from the first `i` lines maps to what its last line builds. */
  ghost predicate BuiltSoFar(models: map<string, HMM>, lines: seq<DictLine>, i: nat, t: Table<Option<HMM>>)
    requires i <= |lines|
    reads models.Values, set w | w in t.entries && t.entries[w].Some? :: t.entries[w].value
  {
    TableOk(t) && t.keys == WordOrder(lines[..i]) &&
    forall w :: w in t.entries ==> Builds(models, Pronunciation(lines[..i], w), t.entries[w])
  }

  /** Storing what line `i` builds under its word extends the table to the first `i + 1` lines. */
  lemma PutLine(models: map<string, HMM>, lines: seq<DictLine>, i: nat, t: Table<Option<HMM>>, e: Option<HMM>)
    requires i < |lines| && lines[i].phonemes.Some?
    requires BuiltSoFar(models, lines, i, t) && Builds(models, lines[i].phonemes.value, e)
    ensures BuiltSoFar(models, lines, i + 1, Put(t, lines[i].word, e))
  {
    var t' := Put(t, lines[i].word, e);
    PutSpec(t, lines[i].word, e);
    WordOrderStep(lines, i);
    forall w | w in t'.entries
      ensures Builds(models, Pronunciation(lines[..i + 1], w), t'.entries[w])
    {
      PronunciationStep(lines, i, w);
    }
  }

  /** One line of `make_hmm_words`: the error it raises, or the table with its word stored. */
  method AddLine(models: map<string, HMM>, lines: seq<DictLine>, i: nat, t: Table<Option<HMM>>)
    returns (r: Result<Table<Option<HMM>>, WordError>)
    requires i < |lines| && (lines[i].phonemes.Some? ==> RowsWhereFolded(models, lines[i].phonemes.value))
    requires BuiltSoFar(models, lines, i, t)
    ensures r.Failure? <==> Bad(models, lines[i])
    ensures r.Success? ==> BuiltSoFar(models, lines, i + 1, r.value)
  {
    var line := lines[i];
    if line.phonemes.None? {
      return Failure(NoPronunciation(line.word));
    }
    var ps := line.phonemes.value;
    if |ps| >= 2 && !((forall j :: 0 <= j < |ps| ==> ps[j] in models) && models[ps[0]].initial.Some?) {
      return Failure(CannotCompose(line.word));
    }
    var e := WordEntry(models, ps);
    PutLine(models, lines, i, t, e);
    r := Success(Put(t, line.word, e));
  }

  /**
   * `make_hmm_words`: Ruby raises exactly when some line has no tab field,
   * or names two or more phonemes of which one has no model or the first has
   * no `initial`. Otherwise the words appear in first-appearance order and
   * each maps to what its last line builds.
   */
  method MakeHmmWords(lines: seq<DictLine>, models: map<string, HMM>)
    returns (r: Result<Table<Option<HMM>>, WordError>)
    requires forall i :: 0 <= i < |lines| && lines[i].phonemes.Some? ==> RowsWhereFolded(models, lines[i].phonemes.value)
    ensures r.Failure? <==> exists i :: 0 <= i < |lines| && Bad(models, lines[i])
    ensures r.Success? ==>
      TableOk(r.value) && r.value.keys == WordOrder(lines) &&
      forall w :: w in r.value.entries ==> Builds(models, Pronunciation(lines, w), r.value.entries[w])
  {
    var t: Table<Option<HMM>> := Empty();
    var i := 0;
    while i < |lines|
      invariant 0 <= i <= |lines|
      invariant forall j :: 0 <= j < i ==> !Bad(models, lines[j])
      invariant BuiltSoFar(models, lines, i, t)
    {
      var next := AddLine(models, lines, i, t);
      if next.Failure? {
        return next;
      }
      t := next.value;
      i := i + 1;
    }
    assert lines[..i] == lines;
    r := Success(t);
  }
}
