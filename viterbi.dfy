/**
 * `gaussian_viterbi` in src/app.rb: the best-path trellis over the sentence
 * network. Scores are reals (log domain); the Gaussian term and `Math.log`
 * are the same uninterpreted parameters as in `weighted_pdf`. The functions
 * here build each row and each path list one element at a time, as the
 * loops of the source do, and the method `GaussianViterbi` is verified
 * against them; the lemmas state the recurrence, the shape of the paths,
 * that every value is the score of its path and that no other path scores
 * higher, and what the decoded sentence is.
 */
module Viterbi {
  import opened Wrappers
  import opened Matrices
  import opened HmmSpec
  import Hmm
  import SentenceNet = Sentence

  /** The sentence network as the decoder reads it: its number of states and the word-start and word-end maps. */
  datatype Net = Net(size: nat, starts: map<int, string>, ends: map<int, string>)

  /**
   * The two scores the trellis reads: `pdf(s, x)` is `hmm.states[s].weighted_pdf(x)`
   * and `trans(p, s)` is `safe_log(hmm.state_transitions[p][s])`.
   */
  datatype Scoring = Scoring(pdf: (nat, seq<real>) -> real, trans: (nat, nat) -> real)

  /** `"#{word}(#{word_index})"`, kept as its two parts. */
  datatype Label = Label(word: string, index: nat)

  /** The trellis `@v`, the last `paths` and the last decoded `sentence`. */
  datatype Trellis = Trellis(v: seq<Row>, paths: seq<seq<nat>>, sentence: seq<Label>)

  /**
   * How the Ruby stops early: `obs[1..-1]` is nil for no observations, and
   * `paths[0]` is nil when the network has no states but there is a second frame.
   */
  datatype ViterbiError = NoObservations | NoStates

  /**
   * The scores of a sentence model: each state's `weighted_pdf` and the
   * `safe_log` of each matrix cell (0 outside the matrix, where Ruby would raise).
   */
  function ScoringOf(states: seq<StateValue>, transitions: Matrix, gaussian: (Mixture, seq<real>) -> real,
                     ln: real -> real): (sc: Scoring)
    ensures forall s: nat, x: seq<real> :: s < |states| ==> sc.pdf(s, x) == WeightedPdf(states[s], x, gaussian, ln)
    ensures forall p: nat, s: nat :: p < |transitions| && s < |transitions[p]| ==>
      sc.trans(p, s) == SafeLog(transitions[p][s], ln)
  {
    Scoring(
      (s: nat, x: seq<real>) => if s < |states| then WeightedPdf(states[s], x, gaussian, ln) else 0.0,
      (p: nat, s: nat) => if p < |transitions| && s < |transitions[p]| then SafeLog(transitions[p][s], ln) else 0.0)
  }

  /** The decoder's view of the network `make_bigram` builds: its number of states and its two location hashes. */
  function NetOf(n: SentenceNet.Net): (net: Net)
    ensures net.size == |n.states| && net.starts == n.starts && net.ends == n.ends
  {
    Net(|n.states|, n.starts, n.ends)
  }

  /** The scores `gaussian_viterbi` reads off the sentence HMM `make_bigram` builds. */
  ghost function ScoringOfNet(n: SentenceNet.Net, gaussian: (Mixture, seq<real>) -> real, ln: real -> real): (sc: Scoring)
    reads n.states
    ensures forall s: nat, x: seq<real> :: s < |n.states| ==>
      sc.pdf(s, x) == WeightedPdf(n.states[s].Value(), x, gaussian, ln)
    ensures forall p: nat, s: nat :: p < |n.transitions| && s < |n.transitions[p]| ==>
      sc.trans(p, s) == SafeLog(n.transitions[p][s], ln)
  {
    ScoringOf(Hmm.Values(n.states), n.transitions, gaussian, ln)
  }

  /** `state.weighted_pdf(data)` for state s. */
  function Emit(sc: Scoring, s: nat, x: seq<real>): real
  {
    sc.pdf(s, x)
  }

  /** `safe_log(hmm.state_transitions[p][s])` */
  function Trans(sc: Scoring, p: nat, s: nat): real
  {
    sc.trans(p, s)
  }

  // ---------------------------------------------------------------------
  // Array#max with a block

  /**
   * The position `arr.max { |a, b| a.first <=> b.first }` picks: a later
   * element replaces the best so far only when strictly greater, so the
   * first maximum wins.
   */
  function ArgMax(xs: seq<real>): (k: nat)
    requires |xs| > 0
    ensures k < |xs|
  {
    if |xs| == 1 then 0
    else
      var k := ArgMax(xs[..|xs| - 1]);
      if xs[|xs| - 1] > xs[k] then |xs| - 1 else k
  }

  /** `ArgMax` picks a maximum, and every element before it is strictly smaller. */
  lemma {:induction false} ArgMaxFirst(xs: seq<real>)
    requires |xs| > 0
    ensures forall i :: 0 <= i < |xs| ==> xs[i] <= xs[ArgMax(xs)]
    ensures forall i :: 0 <= i < ArgMax(xs) ==> xs[i] < xs[ArgMax(xs)]
  {
    if |xs| > 1 {
      var front := xs[..|xs| - 1];
      ArgMaxFirst(front);
      assert forall i :: 0 <= i < |front| ==> xs[i] == front[i];
    }
  }

  /** There is only one first maximum. */
  lemma ArgMaxUnique(xs: seq<real>, k: nat)
    requires k < |xs|
    requires forall i :: 0 <= i < |xs| ==> xs[i] <= xs[k]
    requires forall i :: 0 <= i < k ==> xs[i] < xs[k]
    ensures ArgMax(xs) == k
  {
    ArgMaxFirst(xs);
    var a := ArgMax(xs);
    assert xs[a] == xs[k];
  }

  /** Appending an element: it wins exactly when it beats the best so far. */
  lemma ArgMaxStep(xs: seq<real>, y: real)
    requires |xs| > 0
    ensures ArgMax(xs + [y]) == if y > xs[ArgMax(xs)] then |xs| else ArgMax(xs)
  {
    assert (xs + [y])[..|xs|] == xs;
  }

  // ---------------------------------------------------------------------
  // Frame 0

  /** The first k cells of `@v[0]`: the emission of `obs[0]` at word starts, 0 elsewhere. */
  function Initial(net: Net, sc: Scoring, x: seq<real>, k: nat): (row: Row)
    requires k <= net.size
    ensures |row| == k
  {
    if k == 0 then []
    else
      var s := k - 1;
      Initial(net, sc, x, s) + [if s in net.starts then Emit(sc, s, x) else 0.0]
  }

  /** The first k entries of the initial `paths`: `paths[index] = [index]`. */
  function InitialPaths(k: nat): (paths: seq<seq<nat>>)
    ensures |paths| == k
  {
    if k == 0 then [] else InitialPaths(k - 1) + [[k - 1]]
  }

  lemma {:induction false} InitialAt(net: Net, sc: Scoring, x: seq<real>, k: nat, s: nat)
    requires s < k <= net.size
    ensures Initial(net, sc, x, k)[s] == if s in net.starts then Emit(sc, s, x) else 0.0
  {
    if s < k - 1 {
      InitialAt(net, sc, x, k - 1, s);
    }
  }

  lemma {:induction false} InitialPathsAt(k: nat, s: nat)
    requires s < k
    ensures InitialPaths(k)[s] == [s]
  {
    if s < k - 1 {
      InitialPathsAt(k - 1, s);
    }
  }

  // ---------------------------------------------------------------------
  // One later frame

  /** The first k entries of `arr` for target state s: one candidate per predecessor. */
  function Cands(net: Net, sc: Scoring, prev: Row, x: seq<real>, s: nat, k: nat): (arr: seq<real>)
    requires |prev| == net.size && s < net.size && k <= net.size
    ensures |arr| == k
  {
    if k == 0 then []
    else
      var p := k - 1;
      Cands(net, sc, prev, x, s, p) + [prev[p] + Trans(sc, p, s) + Emit(sc, s, x)]
  }

  lemma {:induction false} CandsAt(net: Net, sc: Scoring, prev: Row, x: seq<real>, s: nat, k: nat, p: nat)
    requires |prev| == net.size && s < net.size && p < k <= net.size
    ensures Cands(net, sc, prev, x, s, k)[p] == prev[p] + Trans(sc, p, s) + Emit(sc, s, x)
  {
    if p < k - 1 {
      CandsAt(net, sc, prev, x, s, k - 1, p);
    }
  }

  /** `max_prev_state.last`: the best predecessor of s. */
  function Pred(net: Net, sc: Scoring, prev: Row, x: seq<real>, s: nat): (p: nat)
    requires |prev| == net.size && s < net.size
    ensures p < net.size
  {
    ArgMax(Cands(net, sc, prev, x, s, net.size))
  }

  /** `max_prev_state.first`: the best candidate score of s. */
  function Best(net: Net, sc: Scoring, prev: Row, x: seq<real>, s: nat): real
    requires |prev| == net.size && s < net.size
  {
    Cands(net, sc, prev, x, s, net.size)[Pred(net, sc, prev, x, s)]
  }

  /** The first k cells of the new row `@v[i]`. */
  function NextRow(net: Net, sc: Scoring, prev: Row, x: seq<real>, k: nat): (row: Row)
    requires |prev| == net.size && k <= net.size
    ensures |row| == k
  {
    if k == 0 then [] else NextRow(net, sc, prev, x, k - 1) + [Best(net, sc, prev, x, k - 1)]
  }

  /** The first k entries of `newpath`: the best predecessor's path, then the state. */
  function NextPaths(net: Net, sc: Scoring, prev: Row, paths: seq<seq<nat>>, x: seq<real>, k: nat)
    : (next: seq<seq<nat>>)
    requires |prev| == net.size && |paths| == net.size && k <= net.size
    ensures |next| == k
  {
    if k == 0 then []
    else
      var s := k - 1;
      NextPaths(net, sc, prev, paths, x, s) + [paths[Pred(net, sc, prev, x, s)] + [s]]
  }

  lemma {:induction false} NextRowAt(net: Net, sc: Scoring, prev: Row, x: seq<real>, k: nat, s: nat)
    requires |prev| == net.size && s < k <= net.size
    ensures NextRow(net, sc, prev, x, k)[s] == Best(net, sc, prev, x, s)
  {
    if s < k - 1 {
      NextRowAt(net, sc, prev, x, k - 1, s);
    }
  }

  lemma {:induction false} NextPathsAt(net: Net, sc: Scoring, prev: Row, paths: seq<seq<nat>>, x: seq<real>,
                                       k: nat, s: nat)
    requires |prev| == net.size && |paths| == net.size && s < k <= net.size
    ensures NextPaths(net, sc, prev, paths, x, k)[s] == paths[Pred(net, sc, prev, x, s)] + [s]
  {
    if s < k - 1 {
      NextPathsAt(net, sc, prev, paths, x, k - 1, s);
    }
  }

  /**
   * `max_index` once the first k states have been scored: the predecessor
   * of the first state whose score is highest (strict `>` against `max_value`).
   */
  function MaxIndex(net: Net, sc: Scoring, prev: Row, x: seq<real>, k: nat): (p: nat)
    requires |prev| == net.size && 0 < k <= net.size
    ensures p < net.size
  {
    Pred(net, sc, prev, x, ArgMax(NextRow(net, sc, prev, x, k)))
  }

  // ---------------------------------------------------------------------
  // The whole trellis

  /** `@v[t]`: frame 0's row, then one `NextRow` per later frame. */
  function V(net: Net, sc: Scoring, obs: seq<seq<real>>, t: nat): (row: Row)
    requires t < |obs| && (t == 0 || net.size > 0)
    ensures |row| == net.size
  {
    if t == 0 then Initial(net, sc, obs[0], net.size)
    else NextRow(net, sc, V(net, sc, obs, t - 1), obs[t], net.size)
  }

  /** `paths` once frame t is done. */
  function P(net: Net, sc: Scoring, obs: seq<seq<real>>, t: nat): (paths: seq<seq<nat>>)
    requires t < |obs| && (t == 0 || net.size > 0)
    ensures |paths| == net.size
  {
    if t == 0 then InitialPaths(net.size)
    else NextPaths(net, sc, V(net, sc, obs, t - 1), P(net, sc, obs, t - 1), obs[t], net.size)
  }

  /** `@v` once frame t is done: the rows of frames 0 to t. */
  function Rows(net: Net, sc: Scoring, obs: seq<seq<real>>, t: nat): (v: seq<Row>)
    requires t < |obs| && (t == 0 || net.size > 0)
    ensures |v| == t + 1
  {
    if t == 0 then [V(net, sc, obs, 0)] else Rows(net, sc, obs, t - 1) + [V(net, sc, obs, t)]
  }

  /** Frame t is one step from frame t - 1. */
  lemma TrellisStep(net: Net, sc: Scoring, obs: seq<seq<real>>, t: nat)
    requires 0 < t < |obs| && net.size > 0
    ensures V(net, sc, obs, t) == NextRow(net, sc, V(net, sc, obs, t - 1), obs[t], net.size)
    ensures P(net, sc, obs, t) == NextPaths(net, sc, V(net, sc, obs, t - 1), P(net, sc, obs, t - 1), obs[t], net.size)
  {
  }

  /** Frame t appends the next row to `@v` and replaces `paths` by `newpath`. */
  lemma FrameStep(net: Net, sc: Scoring, obs: seq<seq<real>>, t: nat)
    requires 0 < t < |obs| && net.size > 0
    ensures Rows(net, sc, obs, t) == Rows(net, sc, obs, t - 1) + [NextRow(net, sc, V(net, sc, obs, t - 1), obs[t], net.size)]
    ensures P(net, sc, obs, t) == NextPaths(net, sc, V(net, sc, obs, t - 1), P(net, sc, obs, t - 1), obs[t], net.size)
    ensures Rows(net, sc, obs, t - 1)[t - 1] == V(net, sc, obs, t - 1)
    ensures Sentence(net, sc, obs, t) ==
      Labels(net.ends, P(net, sc, obs, t - 1)[MaxIndex(net, sc, V(net, sc, obs, t - 1), obs[t], net.size)])
  {
  }

  /** Every row of the trellis is the row of its own frame. */
  lemma {:induction false} RowsAt(net: Net, sc: Scoring, obs: seq<seq<real>>, t: nat, u: nat)
    requires u <= t < |obs| && (t == 0 || net.size > 0)
    ensures Rows(net, sc, obs, t)[u] == V(net, sc, obs, u)
  {
    if u < t {
      RowsAt(net, sc, obs, t - 1, u);
      RowsPrefix(Rows(net, sc, obs, t - 1), V(net, sc, obs, t), u);
    }
  }

  /** Appending a row keeps the earlier ones. */
  lemma RowsPrefix(rows: seq<Row>, row: Row, u: nat)
    requires u < |rows|
    ensures (rows + [row])[u] == rows[u]
  {
  }

  // ---------------------------------------------------------------------
  // Word labels and the decoded sentence

  /** `paths[best].each { ... sentence << "#{word}(#{word_index})" if word }` */
  function Labels(ends: map<int, string>, path: seq<nat>): (labels: seq<Label>)
    ensures |labels| <= |path|
  {
    if |path| == 0 then []
    else
      var i := path[|path| - 1];
      Labels(ends, path[..|path| - 1]) + (if i in ends then [Label(ends[i], i)] else [])
  }

  /** Labels of a concatenation are the concatenation of the labels. */
  lemma {:induction false} LabelsAppend(ends: map<int, string>, a: seq<nat>, b: seq<nat>)
    ensures Labels(ends, a + b) == Labels(ends, a) + Labels(ends, b)
  {
    if |b| > 0 {
      var b' := b[..|b| - 1];
      assert (a + b)[..|a + b| - 1] == a + b';
      LabelsAppend(ends, a, b');
    } else {
      assert a + b == a;
    }
  }

  /** A label stands for exactly a word-end state on the path, under its word. */
  lemma {:induction false} LabelsMember(ends: map<int, string>, path: seq<nat>, l: Label)
    ensures l in Labels(ends, path) <==> l.index in path && l.index in ends && ends[l.index] == l.word
  {
    if |path| > 0 {
      var front := path[..|path| - 1];
      LabelsMember(ends, front, l);
      assert path == front + [path[|path| - 1]];
    }
  }

  /**
   * The sentence computed while frame t is processed: the labels along the
   * previous frame's path of `max_index`.
   */
  function Sentence(net: Net, sc: Scoring, obs: seq<seq<real>>, t: nat): seq<Label>
    requires 0 < t < |obs| && net.size > 0
  {
    Labels(net.ends, P(net, sc, obs, t - 1)[MaxIndex(net, sc, V(net, sc, obs, t - 1), obs[t], net.size)])
  }

  /** What `gaussian_viterbi` leaves behind, or how it stops. */
  function Viterbi(net: Net, sc: Scoring, obs: seq<seq<real>>): (r: Result<Trellis, ViterbiError>)
    ensures r.Failure? <==> |obs| == 0 || (|obs| >= 2 && net.size == 0)
    ensures r.Failure? ==> r.error == if |obs| == 0 then NoObservations else NoStates
    ensures r.Success? ==> |r.value.v| == |obs| && |r.value.paths| == net.size
    ensures r.Success? && |obs| == 1 ==> r.value.sentence == []
  {
    if |obs| == 0 then Failure(NoObservations)
    else if |obs| == 1 then Success(Trellis(Rows(net, sc, obs, 0), P(net, sc, obs, 0), []))
    else if net.size == 0 then Failure(NoStates)
    else
      var t := |obs| - 1;
      Success(Trellis(Rows(net, sc, obs, t), P(net, sc, obs, t), Sentence(net, sc, obs, t)))
  }

  // ---------------------------------------------------------------------
  // The recurrence

  /** `@v[0][s]` and `paths[s]` after frame 0. */
  lemma FrameZero(net: Net, sc: Scoring, obs: seq<seq<real>>, s: nat)
    requires 0 < |obs| && s < net.size
    ensures V(net, sc, obs, 0)[s] == if s in net.starts then Emit(sc, s, obs[0]) else 0.0
    ensures P(net, sc, obs, 0)[s] == [s]
  {
    InitialAt(net, sc, obs[0], net.size, s);
    InitialPathsAt(net.size, s);
  }

  /**
   * One target state of one later frame, for any previous row: its value is
   * the largest candidate and the recorded predecessor is the first that
   * attains it.
   */
  lemma StepAt(net: Net, sc: Scoring, prev: Row, x: seq<real>, s: nat)
    requires |prev| == net.size && s < net.size
    ensures var p := Pred(net, sc, prev, x, s); var row := NextRow(net, sc, prev, x, net.size);
      row[s] == prev[p] + Trans(sc, p, s) + Emit(sc, s, x) &&
      (forall q :: 0 <= q < net.size ==> prev[q] + Trans(sc, q, s) + Emit(sc, s, x) <= row[s]) &&
      (forall q :: 0 <= q < p ==> prev[q] + Trans(sc, q, s) + Emit(sc, s, x) < row[s])
  {
    var n := net.size;
    var p := Pred(net, sc, prev, x, s);
    var arr := Cands(net, sc, prev, x, s, n);
    NextRowAt(net, sc, prev, x, n, s);
    CandsAt(net, sc, prev, x, s, n, p);
    ArgMaxFirst(arr);
    forall q | 0 <= q < n
      ensures prev[q] + Trans(sc, q, s) + Emit(sc, s, x) == arr[q]
    {
      CandsAt(net, sc, prev, x, s, n, q);
    }
  }

  /**
   * For t >= 1, `@v[t][s]` is the largest candidate over all predecessors,
   * the recorded predecessor is the first that attains it, and the path of s
   * is that predecessor's path followed by s.
   */
  lemma Recurrence(net: Net, sc: Scoring, obs: seq<seq<real>>, t: nat, s: nat)
    requires 0 < t < |obs| && s < net.size
    ensures var prev := V(net, sc, obs, t - 1); var p := Pred(net, sc, prev, obs[t], s);
      V(net, sc, obs, t)[s] == prev[p] + Trans(sc, p, s) + Emit(sc, s, obs[t]) &&
      P(net, sc, obs, t)[s] == P(net, sc, obs, t - 1)[p] + [s] &&
      (forall q :: 0 <= q < net.size ==> prev[q] + Trans(sc, q, s) + Emit(sc, s, obs[t]) <= V(net, sc, obs, t)[s]) &&
      (forall q :: 0 <= q < p ==> prev[q] + Trans(sc, q, s) + Emit(sc, s, obs[t]) < V(net, sc, obs, t)[s])
  {
    var prev := V(net, sc, obs, t - 1);
    StepAt(net, sc, prev, obs[t], s);
    NextPathsAt(net, sc, prev, P(net, sc, obs, t - 1), obs[t], net.size, s);
  }

  // ---------------------------------------------------------------------
  // Optimality

  /**
   * The score of a state sequence over the first |path| frames: the first
   * state's frame-0 value, then a transition and an emission per step.
   */
  function Score(net: Net, sc: Scoring, obs: seq<seq<real>>, path: seq<nat>): real
    requires 0 < |path| <= |obs|
    requires forall i :: 0 <= i < |path| ==> path[i] < net.size
  {
    var s := path[|path| - 1];
    if |path| == 1 then (if s in net.starts then Emit(sc, s, obs[0]) else 0.0)
    else
      var front := path[..|path| - 1];
      Score(net, sc, obs, front) + Trans(sc, front[|front| - 1], s) + Emit(sc, s, obs[|front|])
  }

  /** Extending a state sequence by one state adds that step's transition and emission. */
  lemma ScoreAppend(net: Net, sc: Scoring, obs: seq<seq<real>>, front: seq<nat>, t: nat, s: nat)
    requires 0 < t == |front| < |obs| && s < net.size
    requires forall i :: 0 <= i < |front| ==> front[i] < net.size
    ensures Score(net, sc, obs, front + [s]) == Score(net, sc, obs, front) + Trans(sc, front[t - 1], s) + Emit(sc, s, obs[t])
  {
    assert (front + [s])[..t] == front;
  }

  /** One step of `ValueIsPathScore`, for any previous row and paths. */
  lemma PathScoreStep(net: Net, sc: Scoring, obs: seq<seq<real>>, prev: Row, paths: seq<seq<nat>>, t: nat, s: nat)
    requires 0 < t < |obs| && |prev| == net.size && |paths| == net.size && s < net.size
    requires var p := Pred(net, sc, prev, obs[t], s);
      |paths[p]| == t && paths[p][t - 1] == p && (forall i :: 0 <= i < |paths[p]| ==> paths[p][i] < net.size) &&
      Score(net, sc, obs, paths[p]) == prev[p]
    ensures var path := NextPaths(net, sc, prev, paths, obs[t], net.size)[s];
      |path| == t + 1 && path[t] == s && (forall i :: 0 <= i < |path| ==> path[i] < net.size) &&
      Score(net, sc, obs, path) == NextRow(net, sc, prev, obs[t], net.size)[s]
  {
    var p := Pred(net, sc, prev, obs[t], s);
    StepAt(net, sc, prev, obs[t], s);
    NextPathsAt(net, sc, prev, paths, obs[t], net.size, s);
    ScoreAppend(net, sc, obs, paths[p], t, s);
  }

  /**
   * After frame t the path of state s has length t + 1, ends in s, holds
   * only states, and its score is the trellis value `@v[t][s]`.
   *
   * The lemmas below state `Traced(...) == true` rather than `Traced(...)`, so
   * that the verifier keeps each use as one fact instead of splitting it into
   * the predicate's conjuncts.
   */
  predicate Traced(net: Net, sc: Scoring, obs: seq<seq<real>>, t: nat, s: nat)
    requires t < |obs| && (t == 0 || net.size > 0) && s < net.size
  {
    var path := P(net, sc, obs, t)[s];
    |path| == t + 1 && path[t] == s && (forall i :: 0 <= i < |path| ==> path[i] < net.size) &&
    Score(net, sc, obs, path) == V(net, sc, obs, t)[s]
  }

  /** Every trellis value is the score of the path recorded for it. */
  lemma ValueIsPathScore(net: Net, sc: Scoring, obs: seq<seq<real>>, t: nat, s: nat)
    requires t < |obs| && (t == 0 || net.size > 0) && s < net.size
    ensures var path := P(net, sc, obs, t)[s];
      |path| == t + 1 && path[t] == s && (forall i :: 0 <= i < |path| ==> path[i] < net.size) &&
      Score(net, sc, obs, path) == V(net, sc, obs, t)[s]
  {
    TracedAll(net, sc, obs, t, s);
  }

  /** `Traced` holds for every frame and state, by induction on the frame. */
  lemma {:induction false} TracedAll(net: Net, sc: Scoring, obs: seq<seq<real>>, t: nat, s: nat)
    requires t < |obs| && (t == 0 || net.size > 0) && s < net.size
    ensures Traced(net, sc, obs, t, s) == true
  {
    if t == 0 {
      TracedZero(net, sc, obs, s);
    } else {
      TracedAll(net, sc, obs, t - 1, Pred(net, sc, V(net, sc, obs, t - 1), obs[t], s));
      TracedStep(net, sc, obs, t, s);
    }
  }

  /** The base case of `TracedAll`. */
  lemma TracedZero(net: Net, sc: Scoring, obs: seq<seq<real>>, s: nat)
    requires 0 < |obs| && s < net.size
    ensures Traced(net, sc, obs, 0, s) == true
  {
    FrameZero(net, sc, obs, s);
  }

  /** The inductive step of `TracedAll`. */
  lemma TracedStep(net: Net, sc: Scoring, obs: seq<seq<real>>, t: nat, s: nat)
    requires 0 < t < |obs| && net.size > 0 && s < net.size
    requires Traced(net, sc, obs, t - 1, Pred(net, sc, V(net, sc, obs, t - 1), obs[t], s)) == true
    ensures Traced(net, sc, obs, t, s) == true
  {
    PathScoreStep(net, sc, obs, V(net, sc, obs, t - 1), P(net, sc, obs, t - 1), t, s);
    TrellisStep(net, sc, obs, t);
  }

  /** One step of `ValueIsOptimal`, for any previous row. */
  lemma OptimalStep(net: Net, sc: Scoring, obs: seq<seq<real>>, prev: Row, t: nat, path: seq<nat>)
    requires 0 < t < |obs| && |prev| == net.size && |path| == t + 1
    requires forall i :: 0 <= i < |path| ==> path[i] < net.size
    requires Score(net, sc, obs, path[..t]) <= prev[path[t - 1]]
    ensures Score(net, sc, obs, path) <= NextRow(net, sc, prev, obs[t], net.size)[path[t]]
  {
    var s := path[t];
    var front := path[..t];
    assert path == front + [s];
    StepAt(net, sc, prev, obs[t], s);
    ScoreAppend(net, sc, obs, front, t, s);
  }

  /** No state sequence over frames 0 to t that ends in s scores above `@v[t][s]`. */
  lemma {:induction false} ValueIsOptimal(net: Net, sc: Scoring, obs: seq<seq<real>>, t: nat, path: seq<nat>)
    requires t < |obs| && (t == 0 || net.size > 0) && |path| == t + 1
    requires forall i :: 0 <= i < |path| ==> path[i] < net.size
    ensures Score(net, sc, obs, path) <= V(net, sc, obs, t)[path[t]]
  {
    if t == 0 {
      FrameZero(net, sc, obs, path[0]);
    } else {
      ValueIsOptimal(net, sc, obs, t - 1, path[..t]);
      OptimalStep(net, sc, obs, V(net, sc, obs, t - 1), t, path);
    }
  }

  // ---------------------------------------------------------------------
  // The sentence

  /**
   * The decoded sentence is read off the previous frame's paths: it is the
   * labels of the best path of the frame just computed, without the label of
   * that path's final state (if it ends a word).
   */
  lemma SentenceOfBestPath(net: Net, sc: Scoring, obs: seq<seq<real>>, t: nat)
    requires 0 < t < |obs| && net.size > 0
    ensures var best := ArgMax(V(net, sc, obs, t));
      Labels(net.ends, P(net, sc, obs, t)[best]) ==
        Sentence(net, sc, obs, t) + (if best in net.ends then [Label(net.ends[best], best)] else [])
  {
    var n := net.size;
    var prev := V(net, sc, obs, t - 1);
    var paths := P(net, sc, obs, t - 1);
    var x := obs[t];
    var best := ArgMax(NextRow(net, sc, prev, x, n));
    NextPathsAt(net, sc, prev, paths, x, n, best);
    LabelsAppend(net.ends, paths[Pred(net, sc, prev, x, best)], [best]);
    assert [best][..0] == [];
  }

  // ---------------------------------------------------------------------
  // The loops of gaussian_viterbi

  /** The `each` loop that collects the word-end labels of a path. */
  method WordLabels(ends: map<int, string>, path: seq<nat>) returns (labels: seq<Label>)
    ensures labels == Labels(ends, path)
  {
    labels := [];
    var k := 0;
    while k < |path|
      invariant k <= |path| && labels == Labels(ends, path[..k])
    {
      var i := path[k];
      assert path[..k + 1][..k] == path[..k];
      if i in ends {
        labels := labels + [Label(ends[i], i)];
      }
      k := k + 1;
    }
    assert path[..k] == path;
  }

  /** The inner loop: `arr` for target state s, then its maximum. */
  method BestPredecessor(net: Net, sc: Scoring, prev: Row, x: seq<real>, s: nat) returns (p: nat, best: real)
    requires |prev| == net.size && s < net.size
    ensures p == Pred(net, sc, prev, x, s) && best == Best(net, sc, prev, x, s)
  {
    var n := net.size;
    var pdf := Emit(sc, s, x);
    var arr: seq<real> := [];
    var q := 0;
    while q < n
      invariant q <= n && arr == Cands(net, sc, prev, x, s, q)
    {
      arr := arr + [prev[q] + Trans(sc, q, s) + pdf];
      q := q + 1;
    }
    assert q == n;
    p := ArgMax(arr);
    best := arr[p];
  }

  /** One pass of the loop over `obs[1..-1]`: the new row, `newpath` and `max_index`. */
  method NextFrame(net: Net, sc: Scoring, prev: Row, paths: seq<seq<nat>>, x: seq<real>)
    returns (row: Row, newpath: seq<seq<nat>>, maxIndex: nat)
    requires |prev| == net.size && |paths| == net.size && net.size > 0
    ensures row == NextRow(net, sc, prev, x, net.size)
    ensures newpath == NextPaths(net, sc, prev, paths, x, net.size)
    ensures maxIndex == MaxIndex(net, sc, prev, x, net.size)
  {
    var n := net.size;
    row, newpath, maxIndex := [], [], 0;
    var maxValue: Option<real> := None;
    var s := 0;
    while s < n
      invariant s <= n && row == NextRow(net, sc, prev, x, s) && newpath == NextPaths(net, sc, prev, paths, x, s)
      invariant s == 0 ==> maxValue.None?
      invariant s > 0 ==> maxValue == Some(row[ArgMax(row)]) && maxIndex == MaxIndex(net, sc, prev, x, s)
    {
      var p, best := BestPredecessor(net, sc, prev, x, s);
      if s > 0 {
        ArgMaxStep(row, best);
      }
      if maxValue.None? || best > maxValue.value {
        maxValue, maxIndex := Some(best), p;
      }
      row := row + [best];
      newpath := newpath + [paths[p] + [s]];
      s := s + 1;
    }
    assert s == n;
  }

  /** The loop over `(0...@hmm.num_states)` that fills `@v[0]` and the initial `paths`. */
  method FirstFrame(net: Net, sc: Scoring, x: seq<real>) returns (row: Row, paths: seq<seq<nat>>)
    ensures row == Initial(net, sc, x, net.size) && paths == InitialPaths(net.size)
  {
    row, paths := [], [];
    var s := 0;
    while s < net.size
      invariant s <= net.size && row == Initial(net, sc, x, s) && paths == InitialPaths(s)
    {
      row := row + [if s in net.starts then Emit(sc, s, x) else 0.0];
      paths := paths + [[s]];
      s := s + 1;
    }
  }

  /** One pass of the loop over `obs[1..-1]`, as it changes `@v`, `paths` and `sentence`. */
  method Advance(net: Net, sc: Scoring, obs: seq<seq<real>>, i: nat, v: seq<Row>, paths: seq<seq<nat>>)
    returns (v': seq<Row>, paths': seq<seq<nat>>, sentence: seq<Label>)
    requires i + 1 < |obs| && net.size > 0 && v == Rows(net, sc, obs, i) && paths == P(net, sc, obs, i)
    ensures v' == Rows(net, sc, obs, i + 1) && paths' == P(net, sc, obs, i + 1)
    ensures sentence == Sentence(net, sc, obs, i + 1)
  {
    FrameStep(net, sc, obs, i + 1);
    var row, newpath, maxIndex := NextFrame(net, sc, v[i], paths, obs[i + 1]);
    sentence := WordLabels(net.ends, paths[maxIndex]);
    v', paths' := v + [row], newpath;
  }

  /** The frames of `gaussian_viterbi`: frame 0, then the loop over `obs[1..-1]`. */
  method Frames(net: Net, sc: Scoring, obs: seq<seq<real>>) returns (v: seq<Row>, paths: seq<seq<nat>>, sentence: seq<Label>)
    requires |obs| > 0 && (|obs| == 1 || net.size > 0)
    ensures v == Rows(net, sc, obs, |obs| - 1) && paths == P(net, sc, obs, |obs| - 1)
    ensures sentence == if |obs| == 1 then [] else Sentence(net, sc, obs, |obs| - 1)
  {
    var row0;
    row0, paths := FirstFrame(net, sc, obs[0]);
    v, sentence := [row0], [];
    var i, last := 0, |obs| - 1;
    while i < last
      invariant i <= last && v == Rows(net, sc, obs, i) && paths == P(net, sc, obs, i)
      invariant sentence == if i == 0 then [] else Sentence(net, sc, obs, i)
    {
      v, paths, sentence := Advance(net, sc, obs, i, v, paths);
      i := i + 1;
    }
    assert i == last;
  }

  /** `gaussian_viterbi`, returning the trellis, the last paths and the last sentence. */
  method GaussianViterbi(net: Net, sc: Scoring, obs: seq<seq<real>>) returns (r: Result<Trellis, ViterbiError>)
    ensures r == Viterbi(net, sc, obs)
  {
    if |obs| == 0 {
      return Failure(NoObservations);
    }
    if net.size == 0 && |obs| > 1 {
      // Ruby reaches `paths[max_index]` with no paths during the first later frame.
      return Failure(NoStates);
    }
    var v, paths, sentence := Frames(net, sc, obs);
    return Success(Trellis(v, paths, sentence));
  }
}
