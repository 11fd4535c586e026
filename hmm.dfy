/**
 * The classes `State` and `HMM` of src/hmm.rb. Every method that changes an
 * object is verified against the function of module HmmSpec that says what
 * the call does to the object's fields.
 */
module Hmm {
  import opened Wrappers
  import opened Matrices
  import opened HmmSpec

  class State {
    var mixtures: seq<Mixture>
    /** `@current_mixture`, as the index of the mixture hash it refers to. */
    var current: Option<nat>

    function Value(): StateValue
      reads this
    {
      StateValue(mixtures, current)
    }

    ghost predicate Valid()
      reads this
    {
      StateOk(Value())
    }

    constructor ()
      ensures Valid() && Value() == EmptyState
    {
      mixtures := [];
      current := None;
    }

    method SwitchNewMixture(weight: real)
      requires Valid()
      modifies this
      ensures Valid() && Value() == HmmSpec.SwitchNewMixture(old(Value()), weight)
    {
      if |mixtures| < MaxMixtures {
        current := Some(|mixtures|);
        mixtures := mixtures + [NewMixture(weight)];
      }
    }

    method SetMixtureMean(mean: seq<real>)
      requires Valid()
      modifies this
      ensures Valid() && Value() == HmmSpec.SetMixtureMean(old(Value()), mean)
    {
      if current.Some? && current.value < |mixtures| && mixtures[current.value].mean.None? {
        mixtures := mixtures[current.value := mixtures[current.value].(mean := Some(mean))];
      }
    }

    method SetMixtureMeanTotal(total: real)
      requires Valid()
      modifies this
      ensures Valid() && Value() == HmmSpec.SetMixtureMeanTotal(old(Value()), total)
    {
      if current.Some? && current.value < |mixtures| && mixtures[current.value].meanTotal.None? {
        mixtures := mixtures[current.value := mixtures[current.value].(meanTotal := Some(total))];
      }
    }

    method SetMixtureVariance(variance: seq<real>)
      requires Valid()
      modifies this
      ensures Valid() && Value() == HmmSpec.SetMixtureVariance(old(Value()), variance)
    {
      if current.Some? && current.value < |mixtures| && mixtures[current.value].variance.None? {
        var m := mixtures[current.value];
        m := m.(variance := Some(variance));
        m := m.(inverse := Some(InverseOfDiagonal(variance)));
        m := m.(denominator := Some(NormaliserOf(variance)));
        mixtures := mixtures[current.value := m];
      }
    }

    method SetMixtureVarianceTotal(total: real)
      requires Valid()
      modifies this
      ensures Valid() && Value() == HmmSpec.SetMixtureVarianceTotal(old(Value()), total)
    {
      if current.Some? && current.value < |mixtures| && mixtures[current.value].varianceTotal.None? {
        mixtures := mixtures[current.value := mixtures[current.value].(varianceTotal := Some(total))];
      }
    }

    /** The setter `op` names. */
    method Apply(op: StateOp)
      requires Valid()
      modifies this
      ensures Valid() && Value() == ApplyStateOp(old(Value()), op)
    {
      match op
      case AddMixture(w) => SwitchNewMixture(w);
      case MeanTotal(t) => SetMixtureMeanTotal(t);
      case VarianceTotal(t) => SetMixtureVarianceTotal(t);
      case Mean(v) => SetMixtureMean(v);
      case Variance(v) => SetMixtureVariance(v);
    }

    /** `weighted_pdf(x)`: the loop accumulating `i`, then `safe_log(i)`. */
    method WeightedPdf(x: seq<real>, gaussian: (Mixture, seq<real>) -> real, ln: real -> real) returns (r: real)
      ensures r == HmmSpec.WeightedPdf(Value(), x, gaussian, ln)
    {
      var i := 0.0;
      var k := 0;
      while k < |mixtures|
        invariant 0 <= k <= |mixtures|
        invariant i == MixtureSum(mixtures[..k], x, gaussian)
      {
        assert mixtures[..k + 1][..k] == mixtures[..k];
        i := i + mixtures[k].weight * gaussian(mixtures[k], x);
        k := k + 1;
      }
      assert mixtures[..k] == mixtures;
      r := SafeLog(i, ln);
    }
  }

  /** The values of a sequence of states, in order. */
  ghost function Values(ss: seq<State>): (r: seq<StateValue>)
    reads ss
    ensures |r| == |ss| && forall i :: 0 <= i < |ss| ==> r[i] == ss[i].Value()
  {
    seq(|ss|, i requires 0 <= i < |ss| reads ss => ss[i].Value())
  }

  /**
   * The matrix part of `HMM#+`: a zero matrix of size |a| + |b| - 1, then the
   * rows of `a` but its last at their own coordinates, then the rows of `b`
   * shifted by |a| - 1.
   */
  method PlusMatrices(a: Matrix, b: Matrix) returns (m: Matrix)
    requires |a| >= 1
    ensures m == PlusTransitions(a, b)
  {
    var size := |a| + |b| - 1;
    var off := |a| - 1;
    PlusFits(a, b);
    m := ZeroMatrix(size, size);
    m := PlaceRows(m, AllButLast(a), 0);
    m := PlaceRows(m, b, off);
  }

  class HMM {
    var states: seq<State>
    var stateTransitions: Matrix
    var transitionSize: real
    var currentState: State?
    var initial: Option<Row>
    var offset: int
    /** `@last`, held as the `Tag` of the directive name. */
    var last: Option<Tag>
    /** The HMM and the states it owns while it is being loaded. */
    ghost var Repr: set<object>

    ghost predicate Valid()
      reads this, Repr
    {
      this in Repr &&
      (forall i :: 0 <= i < |states| ==> states[i] in Repr && states[i].Valid()) &&
      (forall i, j :: 0 <= i < j < |states| ==> states[i] != states[j]) &&
      (currentState != null ==> |states| > 0 && currentState == states[|states| - 1])
    }

    ghost function Abstract(): HmmValue
      reads this, states
    {
      HmmValue(Values(states), stateTransitions, transitionSize,
               if currentState == null || |states| == 0 then None else Some(|states| - 1),
               initial, offset, last)
    }

    /** `HMM.new` */
    constructor ()
      ensures Valid() && fresh(Repr) && Abstract() == EmptyHmm
      ensures states == [] && stateTransitions == [] && currentState == null && initial == None
    {
      states := [];
      stateTransitions := [];
      transitionSize := 0.0;
      currentState := null;
      initial := None;
      offset := 0;
      last := None;
      Repr := {this};
    }

    /** `new_state` */
    method NewState()
      requires Valid()
      modifies this
      ensures Valid() && fresh(Repr - old(Repr))
      ensures Abstract() == HmmSpec.NewState(old(Abstract()))
    {
      var s := new State();
      currentState := s;
      states := states + [s];
      Repr := Repr + {s};
    }

    /** `@current_state.<setter>`: only the current state changes. */
    method OnCurrentState(op: StateOp)
      requires Valid() && currentState != null
      modifies Repr
      ensures Valid() && Repr == old(Repr)
      ensures HasCurrentState(old(Abstract()))
      ensures Abstract() == WithCurrentState(old(Abstract()), ApplyStateOp(CurrentState(old(Abstract())), op))
    {
      ghost var h := Abstract();
      assert HasCurrentState(h) && CurrentState(h) == currentState.Value();
      currentState.Apply(op);
      assert Values(states) == h.states[|states| - 1 := currentState.Value()];
    }

    /** `set(entry, value)`, with `value` given as its converted whitespace tokens. */
    method Set(entry: string, tokens: seq<real>)
      requires Valid()
      modifies Repr
      ensures Valid() && fresh(Repr - old(Repr))
      ensures Abstract() == HmmSpec.Set(old(Abstract()), entry, tokens)
    {
      var tag := Classify(entry);
      last := Some(tag);
      ghost var h := Abstract();
      assert h == old(Abstract()).(last := Some(tag));
      match tag {
        case MixtureTag =>
          if currentState != null {
            OnCurrentState(AddMixture(LastToF(tokens)));
          }
        case MeanTag =>
          if currentState != null {
            OnCurrentState(MeanTotal(ToF(tokens)));
          }
        case VarianceTag =>
          if currentState != null {
            OnCurrentState(VarianceTotal(ToF(tokens)));
          }
        case StateTag =>
          NewState();
        case TranspTag =>
          transitionSize := ToF(tokens) - 1.0;
          assert Abstract() == h.(transitionSize := ToF(tokens) - 1.0);
        case OtherTag(_) =>
      }
    }

    /** `update_last(value)`; the two `@last == ""` lines compare and change nothing. */
    method UpdateLast(row: Row)
      requires Valid()
      modifies Repr
      ensures Valid() && fresh(Repr - old(Repr))
      ensures Abstract() == HmmSpec.UpdateLast(old(Abstract()), row)
    {
      if last == Some(VarianceTag) {
        if currentState != null {
          OnCurrentState(Variance(row));
        }
      } else if last == Some(MeanTag) {
        if currentState != null {
          OnCurrentState(Mean(row));
        }
      } else if last == Some(TranspTag) {
        ghost var h := Abstract();
        if initial == None {
          initial := Some(row);
          assert Abstract() == h.(initial := Some(row));
        } else {
          stateTransitions := stateTransitions + [Drop1(row)];
          assert Abstract() == h.(transitions := h.transitions + [Drop1(row)]);
        }
      }
    }

    /**
     * `a + b`: a new HMM whose states are those of `a` then those of `b`, whose
     * `initial` is that of `a` padded with a zero per state of `b`, and whose
     * transitions are the two matrices placed into a fresh zero matrix. The
     * left operand needs its `initial` (Ruby raises on `nil + Array`) and a
     * transition row (otherwise Ruby's offset is -1 and wraps around).
     */
    method Plus(other: HMM) returns (r: HMM)
      requires initial.Some? && |stateTransitions| >= 1
      ensures fresh(r)
      ensures r.states == states + other.states
      ensures r.initial == Some(initial.value + Zeros(|other.states|))
      ensures r.stateTransitions == PlusTransitions(stateTransitions, other.stateTransitions)
      ensures r.transitionSize == 0.0 && r.currentState == null && r.offset == 0 && r.last == None
    {
      var m := PlusMatrices(stateTransitions, other.stateTransitions);
      var init := initial.value + Zeros(|other.states|);
      var ss := states + other.states;
      r := new HMM();
      r.states := ss;
      r.initial := Some(init);
      r.stateTransitions := m;
    }
  }
}
