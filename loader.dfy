/**
 * `read_multi_hmm_file` (src/app.rb:263-283): the line dispatch that builds
 * one `HMM` per `~h "name"` header. A file is given as its lines already
 * classified by the two regular expressions of the loop: a header with its
 * quoted name, a directive `<ENTRY> value` with the value's whitespace tokens
 * converted by `to_f`, and any other line with its numbers.
 */
module Loader {
  import opened Wrappers
  import opened Matrices
  import opened HmmSpec
  import opened Hmm

  datatype Line =
    | Header(name: string)
    | Directive(entry: string, tokens: seq<real>)
    | Numbers(row: Row)

  /** The hash `models` and the name under which `current_model` was stored. */
  datatype LoadState = LoadState(models: map<string, HmmValue>, current: Option<string>)

  const Start := LoadState(map[], None)

  predicate LoadOk(st: LoadState)
  {
    (forall k :: k in st.models ==> HmmOk(st.models[k])) &&
    (st.current.Some? ==> st.current.value in st.models)
  }

  /** What a non-header line does to the current model: `set` or `update_last`. */
  function Apply(h: HmmValue, line: Line): (r: HmmValue)
    requires HmmOk(h)
    ensures HmmOk(r)
  {
    match line
    case Header(_) => h
    case Directive(entry, tokens) => Set(h, entry, tokens)
    case Numbers(row) => UpdateLast(h, row)
  }

  /** One turn of the `while` loop. */
  function Step(st: LoadState, line: Line): (r: LoadState)
    requires LoadOk(st)
    ensures LoadOk(r)
  {
    if line.Header? then LoadState(st.models[line.name := EmptyHmm], Some(line.name))
    else if st.current.None? then st
    else
      var k := st.current.value;
      st.(models := st.models[k := Apply(st.models[k], line)])
  }

  /** The loop run over `lines` from state `st`. */
  function RunFrom(st: LoadState, lines: seq<Line>): (r: LoadState)
    requires LoadOk(st)
    ensures LoadOk(r)
  {
    if |lines| == 0 then st else Step(RunFrom(st, lines[..|lines| - 1]), lines[|lines| - 1])
  }

  /** The hash `read_multi_hmm_file` returns. */
  function Load(lines: seq<Line>): map<string, HmmValue>
  {
    RunFrom(Start, lines).models
  }

  /** The lines of one model's section fed to it in order. */
  function Feed(h: HmmValue, body: seq<Line>): (r: HmmValue)
    requires HmmOk(h)
    ensures HmmOk(r)
  {
    if |body| == 0 then h else Apply(Feed(h, body[..|body| - 1]), body[|body| - 1])
  }

  predicate NoHeaders(lines: seq<Line>)
  {
    forall i :: 0 <= i < |lines| ==> !lines[i].Header?
  }

  predicate NoHeaderFor(k: string, lines: seq<Line>)
  {
    forall i :: 0 <= i < |lines| ==> lines[i] != Header(k)
  }

  function HeaderNames(lines: seq<Line>): set<string>
  {
    set i | 0 <= i < |lines| && lines[i].Header? :: lines[i].name
  }

  lemma {:induction false} RunFromAppend(st: LoadState, a: seq<Line>, b: seq<Line>)
    requires LoadOk(st)
    ensures RunFrom(st, a + b) == RunFrom(RunFrom(st, a), b)
    decreases |b|
  {
    if |b| == 0 {
      assert a + b == a;
    } else {
      assert (a + b)[..|a + b| - 1] == a + b[..|b| - 1];
      RunFromAppend(st, a, b[..|b| - 1]);
    }
  }

  /** The keys of the result are exactly the names of the header lines. */
  lemma {:induction false} LoadKeys(lines: seq<Line>)
    ensures Load(lines).Keys == HeaderNames(lines)
  {
    if |lines| > 0 {
      var init := lines[..|lines| - 1];
      LoadKeys(init);
      assert HeaderNames(lines) == HeaderNames(init) +
        (if lines[|lines| - 1].Header? then {lines[|lines| - 1].name} else {}) by {
        forall k | k in HeaderNames(lines) ensures k in HeaderNames(init) || (lines[|lines| - 1].Header? && k == lines[|lines| - 1].name) {
          var i :| 0 <= i < |lines| && lines[i].Header? && lines[i].name == k;
          if i < |lines| - 1 {
            assert init[i] == lines[i];
          }
        }
        forall k | k in HeaderNames(init) ensures k in HeaderNames(lines) {
          var i :| 0 <= i < |init| && init[i].Header? && init[i].name == k;
          assert lines[i] == init[i];
        }
      }
    }
  }

  /** Directive and number lines before the first header change nothing. */
  lemma {:induction false} NoHeaderNoEffect(st: LoadState, lines: seq<Line>)
    requires LoadOk(st) && st.current.None? && NoHeaders(lines)
    ensures RunFrom(st, lines) == st
  {
    if |lines| > 0 {
      NoHeaderNoEffect(st, lines[..|lines| - 1]);
    }
  }

  lemma LinesBeforeFirstHeaderIgnored(pre: seq<Line>, rest: seq<Line>)
    requires NoHeaders(pre)
    ensures Load(pre + rest) == Load(rest)
  {
    RunFromAppend(Start, pre, rest);
    NoHeaderNoEffect(Start, pre);
  }

  /** While no header intervenes, the lines go to the current model, in order. */
  lemma {:induction false} BodyFeedsCurrent(st: LoadState, body: seq<Line>)
    requires LoadOk(st) && st.current.Some? && NoHeaders(body)
    ensures var r := RunFrom(st, body);
      r.current == st.current &&
      r.models == st.models[st.current.value := Feed(st.models[st.current.value], body)]
  {
    if |body| > 0 {
      BodyFeedsCurrent(st, body[..|body| - 1]);
    }
  }

  /** A model that is not current is only reached again through its own header. */
  lemma {:induction false} OtherModelUntouched(st: LoadState, k: string, lines: seq<Line>)
    requires LoadOk(st) && k in st.models && st.current != Some(k) && NoHeaderFor(k, lines)
    ensures var r := RunFrom(st, lines); k in r.models && r.models[k] == st.models[k] && r.current != Some(k)
  {
    if |lines| > 0 {
      OtherModelUntouched(st, k, lines[..|lines| - 1]);
    }
  }

  /** The lines after a section, starting with another header, leave its model alone. */
  lemma LaterSectionsLeaveModel(st: LoadState, k: string, post: seq<Line>)
    requires LoadOk(st) && k in st.models
    requires NoHeaderFor(k, post) && (|post| == 0 || post[0].Header?)
    ensures k in RunFrom(st, post).models && RunFrom(st, post).models[k] == st.models[k]
  {
    if |post| > 0 {
      var switched := Step(st, post[0]);
      assert post == [post[0]] + post[1..];
      RunFromAppend(st, [post[0]], post[1..]);
      assert RunFrom(st, [post[0]]) == switched by {
        assert [post[0]][..0] == [];
      }
      assert NoHeaderFor(k, post[1..]) by {
        forall i | 0 <= i < |post[1..]| ensures post[1..][i] != Header(k) {
          assert post[1..][i] == post[i + 1];
        }
      }
      assert post[0] != Header(k);
      OtherModelUntouched(switched, k, post[1..]);
    }
  }

  /**
   * The model stored under `k` is the header-free section after its last
   * header fed to a fresh HMM; a repeated header replaces the earlier model.
   */
  lemma ModelIsItsLastSection(pre: seq<Line>, k: string, body: seq<Line>, post: seq<Line>)
    requires NoHeaders(body) && NoHeaderFor(k, post) && (|post| == 0 || post[0].Header?)
    ensures var m := Load(pre + [Header(k)] + body + post);
      k in m && m[k] == Feed(EmptyHmm, body)
  {
    var started := RunFrom(Start, pre + [Header(k)]);
    assert started == Step(RunFrom(Start, pre), Header(k)) by {
      assert (pre + [Header(k)])[..|pre| + 1 - 1] == pre;
    }
    RunFromAppend(Start, pre + [Header(k)], body);
    BodyFeedsCurrent(started, body);
    RunFromAppend(Start, pre + [Header(k)] + body, post);
    LaterSectionsLeaveModel(RunFrom(started, body), k, post);
  }

  /** `Numbers` lines carrying `rows`, in order. */
  function NumberLines(rows: seq<Row>): (r: seq<Line>)
    ensures |r| == |rows| && NoHeaders(r)
  {
    seq(|rows|, i requires 0 <= i < |rows| => Numbers(rows[i]))
  }

  /** `drop(1)` of every row. */
  function DropFirsts(rows: seq<Row>): (r: seq<Row>)
    ensures |r| == |rows| && forall i :: 0 <= i < |rows| ==> r[i] == Drop1(rows[i])
  {
    seq(|rows|, i requires 0 <= i < |rows| => Drop1(rows[i]))
  }

  lemma NumberLinesPrefix(d: Line, rows: seq<Row>)
    requires |rows| > 0
    ensures ([d] + NumberLines(rows))[..|rows|] == [d] + NumberLines(rows[..|rows| - 1])
    ensures ([d] + NumberLines(rows))[|rows|] == Numbers(rows[|rows| - 1])
  {
    assert ([d] + NumberLines(rows))[..|rows|] == [d] + NumberLines(rows[..|rows| - 1]);
  }

  /**
   * A `TRANSP` section: the directive sets the mode for every following row,
   * the first row becomes `initial` and each later row is stored without its
   * first column.
   */
  lemma {:induction false} TranspSection(h: HmmValue, tokens: seq<real>, rows: seq<Row>)
    requires HmmOk(h) && h.initial.None?
    ensures var r := Feed(h, [Directive("TRANSP", tokens)] + NumberLines(rows));
      r.last == Some(TranspTag) && r.states == h.states && r.current == h.current &&
      r.transitionSize == ToF(tokens) - 1.0 &&
      (|rows| == 0 ==> r.initial == None && r.transitions == h.transitions) &&
      (|rows| > 0 ==> r.initial == Some(rows[0]) && r.transitions == h.transitions + DropFirsts(rows[1..]))
  {
    var d := Directive("TRANSP", tokens);
    if |rows| == 0 {
      assert [d] + NumberLines(rows) == [d];
      assert [d][..0] == [];
    } else {
      NumberLinesPrefix(d, rows);
      TranspSection(h, tokens, rows[..|rows| - 1]);
      if |rows| > 1 {
        assert DropFirsts(rows[1..]) == DropFirsts(rows[..|rows| - 1][1..]) + [Drop1(rows[|rows| - 1])];
      } else {
        assert DropFirsts(rows[1..]) == [];
      }
    }
  }

  /**
   * In `MEAN` and `VARIANCE` mode only the first row is stored: every later
   * row finds the field already set.
   */
  lemma {:induction false} ValueModeKeepsFirstRow(h: HmmValue, entry: string, tokens: seq<real>, rows: seq<Row>)
    requires HmmOk(h) && (entry == "MEAN" || entry == "VARIANCE") && |rows| > 0
    ensures Feed(h, [Directive(entry, tokens)] + NumberLines(rows))
         == Feed(h, [Directive(entry, tokens)] + NumberLines(rows[..1]))
  {
    var d := Directive(entry, tokens);
    if |rows| > 1 {
      NumberLinesPrefix(d, rows);
      ValueModeKeepsFirstRow(h, entry, tokens, rows[..|rows| - 1]);
      assert rows[..|rows| - 1][..1] == rows[..1];
      var r1 := Feed(h, [d] + NumberLines(rows[..1]));
      NumberLinesPrefix(d, rows[..1]);
      assert [d] + NumberLines(rows[..1][..0]) == [d];
      assert [d][..0] == [];
      assert r1.last == Some(Classify(entry));
      AfterFirstRowSet(Feed(h, [d]), entry, rows[0], rows[|rows| - 1]);
    }
  }

  lemma AfterFirstRowSet(g: HmmValue, entry: string, first: Row, later: Row)
    requires HmmOk(g) && (entry == "MEAN" || entry == "VARIANCE") && g.last == Some(Classify(entry))
    ensures UpdateLast(UpdateLast(g, first), later) == UpdateLast(g, first)
  {
  }

  /** With a fresh mixture current, a `MEAN` section stores its total and its first row. */
  lemma MeanSection(h: HmmValue, tokens: seq<real>, rows: seq<Row>)
    requires HmmOk(h) && HasCurrentState(h) && HasCurrent(CurrentState(h)) && |rows| > 0
    requires Current(CurrentState(h)).mean.None? && Current(CurrentState(h)).meanTotal.None?
    ensures var r := Feed(h, [Directive("MEAN", tokens)] + NumberLines(rows));
      HasCurrentState(r) && HasCurrent(CurrentState(r)) &&
      Current(CurrentState(r)) == Current(CurrentState(h)).(meanTotal := Some(ToF(tokens)), mean := Some(rows[0]))
  {
    var d := Directive("MEAN", tokens);
    ValueModeKeepsFirstRow(h, "MEAN", tokens, rows);
    var g := Set(h, "MEAN", tokens);
    assert Feed(h, [d]) == g by {
      assert [d][..0] == [];
    }
    assert Feed(h, [d] + NumberLines(rows[..1])) == UpdateLast(g, rows[0]) by {
      NumberLinesPrefix(d, rows[..1]);
      assert [d] + NumberLines(rows[..1][..0]) == [d];
    }
    assert HasCurrentState(g) && CurrentState(g) == SetMixtureMeanTotal(CurrentState(h), ToF(tokens));
  }

  // ---------------------------------------------------------------------
  // First write wins: nothing a model has once recorded is overwritten
  // ---------------------------------------------------------------------

  predicate MixtureExtends(m: Mixture, n: Mixture)
  {
    n.weight == m.weight &&
    (m.mean.Some? ==> n.mean == m.mean) &&
    (m.meanTotal.Some? ==> n.meanTotal == m.meanTotal) &&
    (m.variance.Some? ==> n.variance == m.variance && n.inverse == m.inverse && n.denominator == m.denominator) &&
    (m.varianceTotal.Some? ==> n.varianceTotal == m.varianceTotal)
  }

  predicate StateExtends(s: StateValue, t: StateValue)
  {
    |s.mixtures| <= |t.mixtures| &&
    forall j :: 0 <= j < |s.mixtures| ==> MixtureExtends(s.mixtures[j], t.mixtures[j])
  }

  /**
   * `g` keeps everything `h` holds: its states and their mixtures with every
   * field already set, its `initial` and its transition rows.
   */
  predicate HmmExtends(h: HmmValue, g: HmmValue)
  {
    |h.states| <= |g.states| &&
    (forall i :: 0 <= i < |h.states| ==> StateExtends(h.states[i], g.states[i])) &&
    (h.initial.Some? ==> g.initial == h.initial) &&
    h.transitions <= g.transitions
  }

  lemma HmmExtendsTransitive(a: HmmValue, b: HmmValue, c: HmmValue)
    requires HmmExtends(a, b) && HmmExtends(b, c)
    ensures HmmExtends(a, c)
  {
    forall i | 0 <= i < |a.states| ensures StateExtends(a.states[i], c.states[i]) {
      assert StateExtends(a.states[i], b.states[i]) && StateExtends(b.states[i], c.states[i]);
    }
  }

  /** Every setter of a state keeps what the state already holds. */
  lemma StateOpExtends(s: StateValue, op: StateOp)
    requires StateOk(s)
    ensures StateExtends(s, ApplyStateOp(s, op))
  {
    var r := ApplyStateOp(s, op);
    if HasCurrent(s) && !op.AddMixture? {
      assert forall j :: 0 <= j < |s.mixtures| && j != s.current.value ==> r.mixtures[j] == s.mixtures[j];
    }
  }

  /** The state operation a line applies to the current state, if any. */
  function LineOp(h: HmmValue, line: Line): Option<StateOp>
  {
    match line
    case Header(_) => None
    case Directive(entry, tokens) =>
      (match Classify(entry)
       case MixtureTag => Some(AddMixture(LastToF(tokens)))
       case MeanTag => Some(MeanTotal(ToF(tokens)))
       case VarianceTag => Some(VarianceTotal(ToF(tokens)))
       case _ => None)
    case Numbers(row) =>
      if h.last == Some(VarianceTag) then Some(Variance(row))
      else if h.last == Some(MeanTag) then Some(Mean(row))
      else None
  }

  lemma ApplyExtends(h: HmmValue, line: Line)
    requires HmmOk(h)
    ensures HmmExtends(h, Apply(h, line))
  {
    var r := Apply(h, line);
    var op := LineOp(h, line);
    if HasCurrentState(h) && op.Some? {
      var i := h.current.value;
      StateOpExtends(h.states[i], op.value);
      assert r == WithCurrentState(h.(last := r.last), ApplyStateOp(h.states[i], op.value));
    } else if line.Directive? && Classify(line.entry) == StateTag {
      assert r.states == h.states + [EmptyState];
    }
  }

  /** Feeding lines to a model only ever adds to it. */
  lemma {:induction false} FeedExtends(h: HmmValue, body: seq<Line>)
    requires HmmOk(h)
    ensures HmmExtends(h, Feed(h, body))
  {
    if |body| > 0 {
      var g := Feed(h, body[..|body| - 1]);
      FeedExtends(h, body[..|body| - 1]);
      ApplyExtends(g, body[|body| - 1]);
      HmmExtendsTransitive(h, g, Feed(h, body));
    }
  }

  // ---------------------------------------------------------------------
  // The loop over the objects
  // ---------------------------------------------------------------------

  /**
   * The objects `models` and `current_model` hold what the values `st` say:
   * one valid model per name, owning objects of `F` only, with disjoint
   * representations.
   */
  ghost predicate Loaded(models: map<string, HMM>, current: HMM?, st: LoadState, F: set<object>)
    reads F
  {
    LoadOk(st) &&
    models.Keys == st.models.Keys &&
    (current == null <==> st.current.None?) &&
    (current != null ==> models[st.current.value] == current) &&
    (forall k :: k in models ==> models[k] in F && models[k].Repr <= F) &&
    (forall k :: k in models ==> models[k].Valid() && models[k].Abstract() == st.models[k]) &&
    (forall k, k' :: k in models && k' in models && k != k' ==> models[k].Repr !! models[k'].Repr)
  }

  /** A header line: a fresh model stored under its name becomes current. */
  method OpenModel(models: map<string, HMM>, current: HMM?, ghost st: LoadState, name: string, ghost F: set<object>)
    returns (models': map<string, HMM>, current': HMM, ghost F': set<object>)
    requires Loaded(models, current, st, F)
    ensures Loaded(models', current', Step(st, Header(name)), F') && fresh(F' - F)
  {
    ghost var next := Step(st, Header(name));
    var h := new HMM();
    current' := h;
    models' := models[name := h];
    F' := F + h.Repr;
    forall k | k in models'
      ensures models'[k].Valid() && models'[k].Abstract() == next.models[k]
    {
      if k != name {
        assert models'[k] == models[k];
      }
    }
  }

  /** Lines 273-277: a directive goes to `set`, any other line to `update_last`. */
  method Deliver(h: HMM, line: Line)
    requires h.Valid() && !line.Header?
    modifies h.Repr
    ensures h.Valid() && fresh(h.Repr - old(h.Repr))
    ensures h.Abstract() == Apply(old(h.Abstract()), line)
  {
    if line.Directive? {
      h.Set(line.entry, line.tokens);
    } else {
      h.UpdateLast(line.row);
    }
  }

  /** A directive or number line, given to the current model. */
  method FeedCurrent(models: map<string, HMM>, current: HMM, ghost st: LoadState, line: Line, ghost F: set<object>)
    returns (ghost F': set<object>)
    requires Loaded(models, current, st, F) && !line.Header?
    modifies current.Repr
    ensures Loaded(models, current, Step(st, line), F') && fresh(F' - F)
  {
    ghost var next := Step(st, line);
    ghost var k := st.current.value;
    ghost var rep := current.Repr;
    label before:
    Deliver(current, line);
    F' := F + current.Repr;
    assert current.Abstract() == next.models[k];
    forall k' | k' in models && k' != k
      ensures models[k'].Valid() && models[k'].Abstract() == next.models[k']
      ensures models[k'].Repr !! current.Repr
    {
      assert models[k'].Repr !! rep;
      assert old@before(allocated(models[k'].Repr));
    }
  }

  /**
   * `read_multi_hmm_file`: a fresh `HMM` per header, every other line given
   * to the current model. Distinct names hold distinct models with disjoint
   * representations, each equal to the value `Load` gives.
   */
  method ReadMultiHmmFile(lines: seq<Line>) returns (models: map<string, HMM>)
    ensures models.Keys == Load(lines).Keys
    ensures forall k :: k in models ==> models[k].Valid() && models[k].Abstract() == Load(lines)[k]
    ensures forall k, k' :: k in models && k' in models && k != k' ==> models[k].Repr !! models[k'].Repr
  {
    models := map[];
    var current: HMM? := null;
    ghost var st := Start;
    ghost var F: set<object> := {};
    var i := 0;
    while i < |lines|
      invariant 0 <= i <= |lines| && st == RunFrom(Start, lines[..i])
      invariant Loaded(models, current, st, F) && fresh(F)
    {
      assert RunFrom(Start, lines[..i + 1]) == Step(st, lines[i]) by {
        assert lines[..i + 1][..i] == lines[..i];
      }
      if lines[i].Header? {
        models, current, F := OpenModel(models, current, st, lines[i].name, F);
      } else if current != null {
        F := FeedCurrent(models, current, st, lines[i], F);
      }
      st := Step(st, lines[i]);
      i := i + 1;
    }
    assert lines[..i] == lines;
  }
}
