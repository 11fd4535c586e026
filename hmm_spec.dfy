/**
 * Value-level model of `State` and `HMM` in src/hmm.rb: what one call of each
 * method does to the fields of the object, stated as a function from the old
 * field values to the new ones. The classes in module Hmm are verified against
 * these functions; the lemmas here and in module Loader state what the source
 * promises about them.
 */
module HmmSpec {
  import opened Wrappers
  import opened Matrices

  /** `switch_new_mixture` adds a mixture only while fewer than this many exist. */
  const MaxMixtures: nat := 2

  /**
   * Symbolic stand-ins for the floating-point values `set_mixture_variance`
   * derives from a variance vector: the inverse of the diagonal covariance
   * matrix, and the Gaussian normaliser (2 pi)^(39/2) * sqrt(product of the variances).
   */
  datatype Inverse = InverseOfDiagonal(diagonal: seq<real>)
  datatype Normaliser = NormaliserOf(diagonal: seq<real>)

  /** The hash a mixture is kept in; a key that was never written is None. */
  datatype Mixture = Mixture(
    weight: real,
    mean: Option<seq<real>>,
    meanTotal: Option<real>,
    variance: Option<seq<real>>,
    inverse: Option<Inverse>,
    denominator: Option<Normaliser>,
    varianceTotal: Option<real>)

  /** `{weight: weight}` */
  function NewMixture(weight: real): Mixture
  {
    Mixture(weight, None, None, None, None, None, None)
  }

  /**
   * The fields of a `State`: `@mixtures`, and `@current_mixture` as the index
   * of the mixture it refers to (None for nil).
   */
  datatype StateValue = StateValue(mixtures: seq<Mixture>, current: Option<nat>)

  /** `State.new` */
  const EmptyState := StateValue([], None)

  /**
   * What every `State` satisfies: at most two mixtures, and the current mixture
   * exists exactly when some mixture does and is then the last one added.
   */
  predicate StateOk(s: StateValue)
  {
    |s.mixtures| <= MaxMixtures &&
    s.current == (if |s.mixtures| == 0 then None else Some(|s.mixtures| - 1))
  }

  /** Ruby's `if @current_mixture`. */
  predicate HasCurrent(s: StateValue)
  {
    s.current.Some? && s.current.value < |s.mixtures|
  }

  function Current(s: StateValue): Mixture
    requires HasCurrent(s)
  {
    s.mixtures[s.current.value]
  }

  /** Writes through `@current_mixture`, which aliases an element of `@mixtures`. */
  function WithCurrent(s: StateValue, m: Mixture): (r: StateValue)
    requires HasCurrent(s)
    ensures HasCurrent(r) && Current(r) == m && r.current == s.current
    ensures |r.mixtures| == |s.mixtures|
    ensures forall j :: 0 <= j < |s.mixtures| && j != s.current.value ==> r.mixtures[j] == s.mixtures[j]
  {
    s.(mixtures := s.mixtures[s.current.value := m])
  }

  /** src/hmm.rb:13-18 */
  function SwitchNewMixture(s: StateValue, weight: real): (r: StateValue)
    requires StateOk(s)
    ensures StateOk(r)
    ensures |s.mixtures| < MaxMixtures ==> r.mixtures == s.mixtures + [NewMixture(weight)]
    ensures |s.mixtures| == MaxMixtures ==> r == s
  {
    if |s.mixtures| < MaxMixtures then StateValue(s.mixtures + [NewMixture(weight)], Some(|s.mixtures|))
    else s
  }

  /** src/hmm.rb:20-22 */
  function SetMixtureMean(s: StateValue, mean: seq<real>): (r: StateValue)
    ensures !HasCurrent(s) || Current(s).mean.Some? ==> r == s
    ensures HasCurrent(s) && Current(s).mean.None? ==>
      r == WithCurrent(s, Current(s).(mean := Some(mean)))
  {
    if HasCurrent(s) && Current(s).mean.None? then WithCurrent(s, Current(s).(mean := Some(mean)))
    else s
  }

  /** src/hmm.rb:24-26 */
  function SetMixtureMeanTotal(s: StateValue, total: real): (r: StateValue)
    ensures !HasCurrent(s) || Current(s).meanTotal.Some? ==> r == s
    ensures HasCurrent(s) && Current(s).meanTotal.None? ==>
      r == WithCurrent(s, Current(s).(meanTotal := Some(total)))
  {
    if HasCurrent(s) && Current(s).meanTotal.None? then WithCurrent(s, Current(s).(meanTotal := Some(total)))
    else s
  }

  /** src/hmm.rb:28-34: the variance, its inverse and the normaliser are written together. */
  function SetMixtureVariance(s: StateValue, variance: seq<real>): (r: StateValue)
    ensures !HasCurrent(s) || Current(s).variance.Some? ==> r == s
    ensures HasCurrent(s) && Current(s).variance.None? ==>
      r == WithCurrent(s, Current(s).(variance := Some(variance),
                                      inverse := Some(InverseOfDiagonal(variance)),
                                      denominator := Some(NormaliserOf(variance))))
  {
    if HasCurrent(s) && Current(s).variance.None? then
      WithCurrent(s, Current(s).(variance := Some(variance),
                                 inverse := Some(InverseOfDiagonal(variance)),
                                 denominator := Some(NormaliserOf(variance))))
    else s
  }

  /** src/hmm.rb:36-38 */
  function SetMixtureVarianceTotal(s: StateValue, total: real): (r: StateValue)
    ensures !HasCurrent(s) || Current(s).varianceTotal.Some? ==> r == s
    ensures HasCurrent(s) && Current(s).varianceTotal.None? ==>
      r == WithCurrent(s, Current(s).(varianceTotal := Some(total)))
  {
    if HasCurrent(s) && Current(s).varianceTotal.None? then
      WithCurrent(s, Current(s).(varianceTotal := Some(total)))
    else s
  }

  /** The four setters never add, remove or reorder mixtures and keep the state well formed. */
  lemma SettersKeepShape(s: StateValue, v: seq<real>, t: real)
    requires StateOk(s)
    ensures StateOk(SetMixtureMean(s, v)) && SetMixtureMean(s, v).current == s.current
    ensures StateOk(SetMixtureMeanTotal(s, t)) && SetMixtureMeanTotal(s, t).current == s.current
    ensures StateOk(SetMixtureVariance(s, v)) && SetMixtureVariance(s, v).current == s.current
    ensures StateOk(SetMixtureVarianceTotal(s, t)) && SetMixtureVarianceTotal(s, t).current == s.current
  {
  }

  /** The state methods `HMM#set` and `HMM#update_last` call on the current state. */
  datatype StateOp =
    | AddMixture(weight: real)
    | MeanTotal(total: real)
    | VarianceTotal(total: real)
    | Mean(mean: seq<real>)
    | Variance(variance: seq<real>)

  function ApplyStateOp(s: StateValue, op: StateOp): (r: StateValue)
    requires StateOk(s)
    ensures StateOk(r)
  {
    SettersKeepShape(s, if op.Mean? then op.mean else if op.Variance? then op.variance else [], 
                     if op.MeanTotal? then op.total else if op.VarianceTotal? then op.total else 0.0);
    match op
    case AddMixture(w) => SwitchNewMixture(s, w)
    case MeanTotal(t) => SetMixtureMeanTotal(s, t)
    case VarianceTotal(t) => SetMixtureVarianceTotal(s, t)
    case Mean(v) => SetMixtureMean(s, v)
    case Variance(v) => SetMixtureVariance(s, v)
  }

  // ---------------------------------------------------------------------
  // Emission score of a state (src/hmm.rb:40-56)
  // ---------------------------------------------------------------------

  /**
   * The sum `i` that `weighted_pdf` accumulates: each mixture's weight times
   * its Gaussian term `e / denominator`, here an uninterpreted `gaussian`.
   */
  function MixtureSum(ms: seq<Mixture>, x: seq<real>, gaussian: (Mixture, seq<real>) -> real): real
  {
    if |ms| == 0 then 0.0
    else MixtureSum(ms[..|ms| - 1], x, gaussian) + ms[|ms| - 1].weight * gaussian(ms[|ms| - 1], x)
  }

  /** `safe_log`: zero maps to 0, anything else to `Math.log`, here `ln`. */
  function SafeLog(n: real, ln: real -> real): (r: real)
    ensures n == 0.0 ==> r == 0.0
    ensures n != 0.0 ==> r == ln(n)
  {
    if n == 0.0 then 0.0 else ln(n)
  }

  /** What `weighted_pdf(x)` returns for a state. */
  function WeightedPdf(s: StateValue, x: seq<real>, gaussian: (Mixture, seq<real>) -> real, ln: real -> real): real
  {
    SafeLog(MixtureSum(s.mixtures, x, gaussian), ln)
  }

  /** A state without mixtures scores 0: the sum stays 0 and `safe_log(0) = 0`. */
  lemma NoMixturesScoreZero(s: StateValue, x: seq<real>, gaussian: (Mixture, seq<real>) -> real, ln: real -> real)
    requires s.mixtures == []
    ensures WeightedPdf(s, x, gaussian, ln) == 0.0
  {
  }

  lemma {:induction false} MixtureSumAppend(a: seq<Mixture>, b: seq<Mixture>, x: seq<real>,
                                            gaussian: (Mixture, seq<real>) -> real)
    ensures MixtureSum(a + b, x, gaussian) == MixtureSum(a, x, gaussian) + MixtureSum(b, x, gaussian)
    decreases |b|
  {
    if |b| == 0 {
      assert a + b == a;
    } else {
      var b' := b[..|b| - 1];
      assert (a + b)[..|a + b| - 1] == a + b';
      MixtureSumAppend(a, b', x, gaussian);
    }
  }

  /** Taking one mixture out of the sum subtracts its term. */
  lemma MixtureSumRemove(ns: seq<Mixture>, j: nat, x: seq<real>, gaussian: (Mixture, seq<real>) -> real)
    requires j < |ns|
    ensures MixtureSum(ns, x, gaussian)
         == MixtureSum(ns[..j] + ns[j + 1..], x, gaussian) + ns[j].weight * gaussian(ns[j], x)
  {
    var e := ns[j];
    var before, after := ns[..j], ns[j + 1..];
    assert ns == before + ([e] + after);
    MixtureSumAppend(before, [e] + after, x, gaussian);
    MixtureSumAppend([e], after, x, gaussian);
    MixtureSumAppend(before, after, x, gaussian);
    assert [e][..0] == [];
  }

  lemma MultisetRemove(ms: seq<Mixture>, ns: seq<Mixture>, j: nat)
    requires |ms| > 0 && j < |ns| && multiset(ms) == multiset(ns) && ns[j] == ms[|ms| - 1]
    ensures multiset(ms[..|ms| - 1]) == multiset(ns[..j] + ns[j + 1..])
  {
    var e := ns[j];
    var rest := ms[..|ms| - 1];
    assert ms == rest + [e];
    assert ns == ns[..j] + [e] + ns[j + 1..];
    assert multiset(ns[..j] + ns[j + 1..]) == multiset(ns[..j]) + multiset(ns[j + 1..]);
    forall z ensures multiset(rest)[z] == multiset(ns[..j] + ns[j + 1..])[z] {
      assert multiset(ms)[z] == multiset(rest)[z] + multiset{e}[z];
      assert multiset(ns)[z] == multiset(ns[..j])[z] + multiset{e}[z] + multiset(ns[j + 1..])[z];
    }
  }

  /** The score of a state does not depend on the order of its mixtures. */
  lemma {:induction false} MixtureSumPermutation(ms: seq<Mixture>, ns: seq<Mixture>, x: seq<real>,
                                                 gaussian: (Mixture, seq<real>) -> real)
    requires multiset(ms) == multiset(ns)
    ensures MixtureSum(ms, x, gaussian) == MixtureSum(ns, x, gaussian)
    decreases |ms|
  {
    if |ms| == 0 {
      assert |ns| == |multiset(ns)| == 0;
    } else {
      var e := ms[|ms| - 1];
      assert e in multiset(ns);
      var j :| 0 <= j < |ns| && ns[j] == e;
      MultisetRemove(ms, ns, j);
      MixtureSumPermutation(ms[..|ms| - 1], ns[..j] + ns[j + 1..], x, gaussian);
      MixtureSumRemove(ns, j, x, gaussian);
    }
  }

  // ---------------------------------------------------------------------
  // HMM (src/hmm.rb:59-123)
  // ---------------------------------------------------------------------

  /**
   * A directive name as the `case` of `set` and the comparisons of
   * `update_last` tell it apart: one of the five names they test, or any
   * other name, kept as it is.
   */
  datatype Tag = MixtureTag | MeanTag | VarianceTag | StateTag | TranspTag | OtherTag(name: string)

  function Classify(entry: string): (t: Tag)
  {
    if entry == "MIXTURE" then MixtureTag
    else if entry == "MEAN" then MeanTag
    else if entry == "VARIANCE" then VarianceTag
    else if entry == "STATE" then StateTag
    else if entry == "TRANSP" then TranspTag
    else OtherTag(entry)
  }

  function TagName(t: Tag): string
  {
    match t
    case MixtureTag => "MIXTURE"
    case MeanTag => "MEAN"
    case VarianceTag => "VARIANCE"
    case StateTag => "STATE"
    case TranspTag => "TRANSP"
    case OtherTag(name) => name
  }

  predicate KnownName(entry: string)
  {
    entry in {"MIXTURE", "MEAN", "VARIANCE", "STATE", "TRANSP"}
  }

  /** Storing the tag instead of the name loses nothing: the name is recovered from it. */
  lemma ClassifyRoundTrip(entry: string)
    ensures TagName(Classify(entry)) == entry
    ensures Classify(entry).OtherTag? <==> !KnownName(entry)
  {
  }

  lemma TagRoundTrip(t: Tag)
    requires t.OtherTag? ==> !KnownName(t.name)
    ensures Classify(TagName(t)) == t
  {
  }

  /**
   * The fields of an `HMM`: `@states`, `@state_transitions`, `@transition_size`,
   * `@current_state` as an index into `@states`, `@initial`, `@offset` and
   * `@last` (nil until the first directive), held as its `Tag`.
   */
  datatype HmmValue = HmmValue(
    states: seq<StateValue>,
    transitions: Matrix,
    transitionSize: real,
    current: Option<nat>,
    initial: Option<Row>,
    offset: int,
    last: Option<Tag>)

  /** `HMM.new` */
  const EmptyHmm := HmmValue([], [], 0.0, None, None, 0, None)

  /** Every state is well formed and the current state, if any, is the last one added. */
  predicate HmmOk(h: HmmValue)
  {
    (forall i :: 0 <= i < |h.states| ==> StateOk(h.states[i])) &&
    (h.current.Some? ==> h.current.value == |h.states| - 1)
  }

  /** Ruby's `if @current_state`. */
  predicate HasCurrentState(h: HmmValue)
  {
    h.current.Some? && h.current.value < |h.states|
  }

  function CurrentState(h: HmmValue): StateValue
    requires HasCurrentState(h)
  {
    h.states[h.current.value]
  }

  function WithCurrentState(h: HmmValue, s: StateValue): (r: HmmValue)
    requires HasCurrentState(h)
  {
    h.(states := h.states[h.current.value := s])
  }

  /** `value.to_f` of a directive's value, given its whitespace tokens already converted. */
  function ToF(tokens: seq<real>): real
  {
    if |tokens| == 0 then 0.0 else tokens[0]
  }

  /** `value.split(" ").last.to_f`; `nil.to_f` is 0.0. */
  function LastToF(tokens: seq<real>): real
  {
    if |tokens| == 0 then 0.0 else tokens[|tokens| - 1]
  }

  /** Ruby `row.drop(1)`. */
  function Drop1(row: Row): (r: Row)
    ensures |row| > 0 ==> r == row[1..]
    ensures |row| == 0 ==> r == []
  {
    if |row| == 0 then [] else row[1..]
  }

  /** `new_state`, src/hmm.rb:103-106 */
  function NewState(h: HmmValue): (r: HmmValue)
    ensures r.states == h.states + [EmptyState] && r.current == Some(|h.states|)
    ensures HmmOk(h) ==> HmmOk(r)
  {
    h.(states := h.states + [EmptyState], current := Some(|h.states|))
  }

  /** `set(entry, value)`, src/hmm.rb:71-88 */
  function Set(h: HmmValue, entry: string, tokens: seq<real>): (r: HmmValue)
    requires HmmOk(h)
    ensures HmmOk(r) && r.last == Some(Classify(entry))
  {
    var h := h.(last := Some(Classify(entry)));
    match Classify(entry)
    case MixtureTag =>
      if HasCurrentState(h) then WithCurrentState(h, ApplyStateOp(CurrentState(h), AddMixture(LastToF(tokens)))) else h
    case MeanTag =>
      if HasCurrentState(h) then WithCurrentState(h, ApplyStateOp(CurrentState(h), MeanTotal(ToF(tokens)))) else h
    case VarianceTag =>
      if HasCurrentState(h) then WithCurrentState(h, ApplyStateOp(CurrentState(h), VarianceTotal(ToF(tokens)))) else h
    case StateTag => NewState(h)
    case TranspTag => h.(transitionSize := ToF(tokens) - 1.0)
    case OtherTag(_) => h
  }

  /** `update_last(value)`, src/hmm.rb:108-123. `@last == ""` compares and never resets the mode. */
  function UpdateLast(h: HmmValue, row: Row): (r: HmmValue)
    requires HmmOk(h)
    ensures HmmOk(r) && r.last == h.last
  {
    if h.last == Some(VarianceTag) then
      if HasCurrentState(h) then WithCurrentState(h, ApplyStateOp(CurrentState(h), Variance(row))) else h
    else if h.last == Some(MeanTag) then
      if HasCurrentState(h) then WithCurrentState(h, ApplyStateOp(CurrentState(h), Mean(row))) else h
    else if h.last == Some(TranspTag) then
      if h.initial.None? then h.(initial := Some(row))
      else h.(transitions := h.transitions + [Drop1(row)])
    else
      h
  }

  /** A third `MIXTURE` directive in a state leaves every state as it was. */
  lemma ThirdMixtureIgnored(h: HmmValue, tokens: seq<real>)
    requires HmmOk(h) && HasCurrentState(h) && |CurrentState(h).mixtures| == MaxMixtures
    ensures Set(h, "MIXTURE", tokens) == h.(last := Some(MixtureTag))
  {
  }

  /** Before the first `STATE`, `MIXTURE`, `MEAN` and `VARIANCE` only record the directive. */
  lemma DirectivesBeforeState(h: HmmValue, entry: string, tokens: seq<real>)
    requires HmmOk(h) && h.current.None?
    requires entry == "MIXTURE" || entry == "MEAN" || entry == "VARIANCE"
    ensures Set(h, entry, tokens) == h.(last := Some(Classify(entry)))
  {
  }

  /** A `STATE` directive appends a fresh state and makes it current; nothing else changes. */
  lemma StateDirectiveOpensState(h: HmmValue, tokens: seq<real>)
    requires HmmOk(h)
    ensures Set(h, "STATE", tokens) == h.(states := h.states + [EmptyState], current := Some(|h.states|),
                                         last := Some(StateTag))
  {
  }

  /** A `MIXTURE` directive's weight is the last token of its value. */
  lemma MixtureWeightIsLastToken(h: HmmValue, tokens: seq<real>)
    requires HmmOk(h) && HasCurrentState(h) && |CurrentState(h).mixtures| < MaxMixtures
    ensures var r := Set(h, "MIXTURE", tokens);
      HasCurrentState(r) && HasCurrent(CurrentState(r)) &&
      Current(CurrentState(r)) == NewMixture(LastToF(tokens)) &&
      |CurrentState(r).mixtures| == |CurrentState(h).mixtures| + 1
  {
  }

  /** An unrecognised directive only records its name as the new mode. */
  lemma UnknownDirectiveOnlyRecorded(h: HmmValue, entry: string, tokens: seq<real>)
    requires HmmOk(h) && !KnownName(entry)
    ensures Set(h, entry, tokens) == h.(last := Some(OtherTag(entry)))
  {
  }

  /** Rows read in any mode other than VARIANCE, MEAN and TRANSP are ignored. */
  lemma OtherModesIgnoreRows(h: HmmValue, row: Row)
    requires HmmOk(h)
    requires h.last != Some(VarianceTag) && h.last != Some(MeanTag) && h.last != Some(TranspTag)
    ensures UpdateLast(h, row) == h
  {
  }

  // ---------------------------------------------------------------------
  // HMM#+ (src/hmm.rb:134-158)
  // ---------------------------------------------------------------------

  /**
   * The transitions of `a + b`: a square zero matrix of size |a| + |b| - 1, with
   * every row of `a` but its last written at the same coordinates and every
   * row of `b` written shifted by |a| - 1 on both axes.
   */
  function PlusTransitions(a: Matrix, b: Matrix): (m: Matrix)
    requires |a| >= 1
    ensures |m| == |a| + |b| - 1
    ensures forall y :: 0 <= y < |m| ==> |m[y]| >= |m|
  {
    Place(PlusLeft(a, b), b, |a| - 1)
  }

  /** The first placement of `a + b`: `a` but its last row on the zero matrix. */
  function PlusLeft(a: Matrix, b: Matrix): (m: Matrix)
    requires |a| >= 1
    ensures |m| == |a| + |b| - 1
    ensures forall y :: 0 <= y < |m| ==> |m[y]| >= |m|
  {
    var size := |a| + |b| - 1;
    assert Fits(ZeroMatrix(size, size), AllButLast(a), 0);
    Place(ZeroMatrix(size, size), AllButLast(a), 0)
  }

  /** Both placements of `a + b` stay inside the zero matrix. */
  lemma PlusFits(a: Matrix, b: Matrix)
    requires |a| >= 1
    ensures var size := |a| + |b| - 1;
      Fits(ZeroMatrix(size, size), AllButLast(a), 0) &&
      Fits(PlusLeft(a, b), b, |a| - 1)
  {
    var size := |a| + |b| - 1;
    assert Fits(ZeroMatrix(size, size), AllButLast(a), 0);
  }

  /** Which matrix, if any, supplies cell (y, x) of `a + b`. */
  predicate FromLeft(a: Matrix, y: int, x: int)
  {
    0 <= y < |a| - 1 && 0 <= x < |a[y]|
  }

  predicate FromRight(a: Matrix, b: Matrix, y: int, x: int)
  {
    |a| - 1 <= y < |a| - 1 + |b| && |a| - 1 <= x < |a| - 1 + |b[y - (|a| - 1)]|
  }

  lemma PlusLeftCell(a: Matrix, b: Matrix, y: nat, x: nat)
    requires |a| >= 1 && FromLeft(a, y, x)
    ensures var m := PlusTransitions(a, b); x < |m[y]| && m[y][x] == a[y][x]
  {
    var size := |a| + |b| - 1;
    PlusFits(a, b);
    PlaceWritten(ZeroMatrix(size, size), AllButLast(a), 0, y, x);
    PlaceUntouched(PlusLeft(a, b), b, |a| - 1, y, x);
  }

  lemma PlusRightCell(a: Matrix, b: Matrix, j: nat, i: nat)
    requires |a| >= 1 && j < |b| && i < |b[j]|
    ensures var m := PlusTransitions(a, b); |a| - 1 + i < |m[|a| - 1 + j]| && m[|a| - 1 + j][|a| - 1 + i] == b[j][i]
  {
    var off := |a| - 1;
    var left := PlusLeft(a, b);
    assert PlusTransitions(a, b) == Place(left, b, off);
    PlaceWritten(left, b, off, j, i);
  }

  /** A cell of an upper row of `a + b` right of what `a` supplies is zero. */
  lemma PlusUpperZero(a: Matrix, b: Matrix, y: nat, x: nat)
    requires |a| >= 1 && y < |a| - 1 && |a[y]| <= x
    requires x < |PlusTransitions(a, b)[y]|
    ensures PlusTransitions(a, b)[y][x] == 0.0
  {
    var size := |a| + |b| - 1;
    var zero := ZeroMatrix(size, size);
    var row := Overlay(zero[y], AllButLast(a)[y], 0);
    PlusFits(a, b);
    PlaceRowKept(PlusLeft(a, b), b, |a| - 1, y);
    PlaceRow(zero, AllButLast(a), 0, y);
    assert PlusTransitions(a, b)[y] == row;
    OverlayOutside(zero[y], AllButLast(a)[y], 0, x);
  }

  /** A cell of a lower row of `a + b` outside what `b` supplies is zero. */
  lemma PlusLowerZero(a: Matrix, b: Matrix, j: nat, x: nat)
    requires |a| >= 1 && j < |b| && !(|a| - 1 <= x < |a| - 1 + |b[j]|)
    requires x < |PlusTransitions(a, b)[|a| - 1 + j]|
    ensures PlusTransitions(a, b)[|a| - 1 + j][x] == 0.0
  {
    var size := |a| + |b| - 1;
    var off := |a| - 1;
    var zero := ZeroMatrix(size, size);
    var left := PlusLeft(a, b);
    PlusFits(a, b);
    PlaceRow(left, b, off, j);
    PlaceRowKept(zero, AllButLast(a), 0, off + j);
    assert left[off + j] == Zeros(size);
    OverlayOutside(left[off + j], b[j], off, x);
  }

  lemma PlusOtherCell(a: Matrix, b: Matrix, y: nat, x: nat)
    requires |a| >= 1 && !FromLeft(a, y, x) && !FromRight(a, b, y, x)
    requires y < |PlusTransitions(a, b)| && x < |PlusTransitions(a, b)[y]|
    ensures PlusTransitions(a, b)[y][x] == 0.0
  {
    if y < |a| - 1 {
      PlusUpperZero(a, b, y, x);
    } else {
      PlusLowerZero(a, b, y - (|a| - 1), x);
    }
  }

  /**
   * Every cell of `a + b`: the rows of `a` but its last at their own
   * coordinates, the rows of `b` shifted by |a| - 1, zero everywhere else;
   * the two copies write disjoint rows.
   */
  lemma PlusTransitionsCells(a: Matrix, b: Matrix, y: nat, x: nat)
    requires |a| >= 1
    ensures !(FromLeft(a, y, x) && FromRight(a, b, y, x))
    ensures var m := PlusTransitions(a, b);
      (FromLeft(a, y, x) ==> x < |m[y]| && m[y][x] == a[y][x]) &&
      (FromRight(a, b, y, x) ==> x < |m[y]| && m[y][x] == b[y - (|a| - 1)][x - (|a| - 1)]) &&
      (y < |m| && x < |m[y]| && !FromLeft(a, y, x) && !FromRight(a, b, y, x) ==> m[y][x] == 0.0)
  {
    var m := PlusTransitions(a, b);
    if FromLeft(a, y, x) {
      PlusLeftCell(a, b, y, x);
    } else if FromRight(a, b, y, x) {
      PlusRightCell(a, b, y - (|a| - 1), x - (|a| - 1));
    } else if y < |m| && x < |m[y]| {
      PlusOtherCell(a, b, y, x);
    }
  }

  // ---------------------------------------------------------------------
  // end_transition (src/hmm.rb:90-92)
  // ---------------------------------------------------------------------

  /**
   * `@state_transitions[-2][-1]`: the last entry of the second-to-last row,
   * or nil when there is no such row or it is empty.
   */
  function EndTransition(m: Matrix): (r: Option<real>)
    ensures r.Some? <==> |m| >= 2 && |m[|m| - 2]| >= 1
    ensures r.Some? ==> r.value == m[|m| - 2][|m[|m| - 2]| - 1]
  {
    if |m| >= 2 && |m[|m| - 2]| >= 1 then Some(m[|m| - 2][|m[|m| - 2]| - 1]) else None
  }
}
