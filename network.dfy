/**
 * `make_bigram` and `copy_matrix` (src/app.rb:298-360, 526-533): the words
 * are laid out one after another in a single sentence HMM, each word's
 * transition block is copied onto the diagonal of an N x N zero matrix, and
 * the bigram file then writes one cross-word transition per line, from the
 * last state of one word to the first state of another.
 */
module Network {
  import opened Wrappers
  import opened Matrices
  import opened HmmSpec
  import opened Hmm
  import opened Tables

  /** The ways `make_bigram` makes Ruby raise. */
  datatype NetError =
    | NilWord(word: string)          // `nil.states` in the "sp" step
    | NoSp                           // `word + nil`: there is no "sp" model
    | NoInitial(word: string)        // `nil + Array` inside `word + sp`
    | NegativeSize(word: string)     // `Array.new(-1)` inside `word + sp`
    | NilRow(word: string)           // `nil[x] = v` inside `word + sp`
    | NoSil                          // `@words["<s>"]` is nil
    | CopyPastEnd(word: string)      // `nil[x] = v` in `copy_matrix`
    | UnknownWord(word: string)      // `nil.end_transition` with a stale `from`
    | NoEndTransition(word: string)  // `nil[-1]` or `Float * nil` in `end_transition`

  /**
   * What `a + b` (src/hmm.rb:140-155) raises while it builds its matrix, for a
   * left operand `a` with an `initial` row. With no row in `a` the size is
   * |b| - 1 and the shift is -1: no row at all asks for `Array.new(-1)`, and a
   * single non-empty row of `b` is written through row -1 of an empty matrix.
   * Any other shape, however odd its result, raises nothing.
   */
  function SumError(w: string, a: Matrix, b: Matrix): (e: Option<NetError>)
    ensures e.None? <==> |a| >= 1 || |b| >= 2 || (|b| == 1 && |b[0]| == 0)
    ensures e.Some? ==> e.value == if |b| == 0 then NegativeSize(w) else NilRow(w)
  {
    if |a| + |b| == 0 then Some(NegativeSize(w))
    else if |a| == 0 && |b| == 1 && |b[0]| > 0 then Some(NilRow(w))
    else None
  }

  /** A word as the layout sees it: its name, its model object, and that model's states and transitions. */
  datatype Placed = Placed(name: string, obj: HMM, states: seq<State>, transitions: Matrix)

  /**
   * A line of the bigram file: its tab-separated fields, and its third
   * field read with `to_f` (used only when there are three fields).
   */
  datatype BigramLine = BigramLine(fields: seq<string>, weight: real)

  /** The two bigram locals `from` and `to`, which survive from one line to the next. */
  datatype Cursor = Cursor(from: Option<int>, to: Option<int>)

  function Min(a: nat, b: nat): nat { if a < b then a else b }

  /** No row is shorter than the matrix is tall, so every in-range column exists. */
  predicate Wide(m: Matrix)
  {
    forall y :: 0 <= y < |m| ==> |m[y]| >= |m|
  }

  /** Every word has at least one state. */
  predicate Sized(ps: seq<Placed>)
  {
    forall i :: 0 <= i < |ps| ==> |ps[i].states| >= 1
  }

  /** The running `offset` when word `k` is placed: the number of states before it. */
  function Offset(ps: seq<Placed>, k: nat): nat
    requires k <= |ps|
  {
    if k == 0 then 0 else Offset(ps, k - 1) + |ps[k - 1].states|
  }

  lemma {:induction false} OffsetPrefix(ps: seq<Placed>, n: nat, k: nat)
    requires k <= n <= |ps|
    ensures Offset(ps[..n], k) == Offset(ps, k)
  {
    if k > 0 {
      OffsetPrefix(ps, n, k - 1);
    }
  }

  /** The sentence states: every word's states, in layout order. */
  function AllStates(ps: seq<Placed>): (r: seq<State>)
    ensures |r| == Offset(ps, |ps|)
  {
    if |ps| == 0 then []
    else
      OffsetPrefix(ps, |ps| - 1, |ps| - 1);
      AllStates(ps[..|ps| - 1]) + ps[|ps| - 1].states
  }

  /** Offsets grow with the index, by the size of every word in between. */
  lemma {:induction false} OffsetMono(ps: seq<Placed>, j: nat, k: nat)
    requires j <= k <= |ps|
    ensures Offset(ps, j) <= Offset(ps, k)
    ensures j < k ==> Offset(ps, j) + |ps[j].states| <= Offset(ps, k)
  {
    if j < k {
      OffsetMono(ps, j, k - 1);
    }
  }

  /**
   * `copy_matrix(to, from, off)`: every row of `from` but the last is written
   * at `off` on both axes. A row that lands at or past the last row of `to`
   * raises unless it is empty, in which case nothing is written.
   */
  function CopyMatrix(to: Matrix, from: Matrix, off: nat): (r: Option<Matrix>)
    requires off <= |to| && Wide(to)
    ensures r.Some? ==> |r.value| == |to| && Wide(r.value)
  {
    var rows := AllButLast(from);
    var k := Min(|rows|, |to| - off);
    if exists y :: k <= y < |rows| && |rows[y]| > 0 then None
    else Some(Place(to, rows[..k], off))
  }

  /**
   * The matrix after the first `n` words have been copied; it starts as
   * N x N zeros, N the total number of states.
   */
  function Layout(ps: seq<Placed>, n: nat): (r: Result<Matrix, NetError>)
    requires n <= |ps|
    ensures r.Success? ==> |r.value| == Offset(ps, |ps|) && Wide(r.value)
  {
    if n == 0 then
      var size := Offset(ps, |ps|);
      Success(ZeroMatrix(size, size))
    else
      match Layout(ps, n - 1)
      case Failure(e) => Failure(e)
      case Success(m) =>
        OffsetMono(ps, n - 1, |ps|);
        match CopyMatrix(m, ps[n - 1].transitions, Offset(ps, n - 1))
        case None => Failure(CopyPastEnd(ps[n - 1].name))
        case Some(m') => Success(m')
  }

  /** One more word: its block is copied at its offset, or the layout raises. */
  lemma LayoutStep(ps: seq<Placed>, i: nat, m: Matrix, c: Option<Matrix>)
    requires i < |ps| && Layout(ps, i) == Success(m)
    requires Offset(ps, i) <= |m| && c == CopyMatrix(m, ps[i].transitions, Offset(ps, i))
    ensures c.None? ==> Layout(ps, i + 1) == Failure(CopyPastEnd(ps[i].name))
    ensures c.Some? ==> Layout(ps, i + 1) == Success(c.value)
    ensures Offset(ps, i + 1) == Offset(ps, i) + |ps[i].states|
  {
  }

  /** `@word_starting_loc` after the first `n` words. */
  function Starts(ps: seq<Placed>, n: nat): map<int, string>
    requires n <= |ps|
  {
    if n == 0 then map[] else Starts(ps, n - 1)[Offset(ps, n - 1) := ps[n - 1].name]
  }

  /** `@word_ending_loc` after the first `n` words. */
  function Ends(ps: seq<Placed>, n: nat): map<int, string>
    requires n <= |ps|
  {
    if n == 0 then map[]
    else Ends(ps, n - 1)[Offset(ps, n - 1) + |ps[n - 1].states| - 1 := ps[n - 1].name]
  }

  /**
   * The last of the first `n` placements of the object `o`. The layout
   * stores each offset on the model object, so a later placement of the
   * same object overwrites an earlier one.
   */
  function LastPlaced(ps: seq<Placed>, o: HMM, n: nat): (r: Option<nat>)
    requires n <= |ps|
    ensures r.Some? ==> r.value < n && ps[r.value].obj == o && forall k :: r.value < k < n ==> ps[k].obj != o
    ensures r.None? <==> forall k :: 0 <= k < n ==> ps[k].obj != o
  {
    if n == 0 then None
    else if ps[n - 1].obj == o then Some(n - 1)
    else LastPlaced(ps, o, n - 1)
  }

  /** The `offset` field of `o` after the first `n` placements; `before` if it has none. */
  function OffsetField(ps: seq<Placed>, o: HMM, n: nat, before: int): int
    requires n <= |ps|
  {
    match LastPlaced(ps, o, n)
    case None => before
    case Some(j) => Offset(ps, j)
  }

  /** `@words[name]`, found by name among the placed words. */
  function Find(ps: seq<Placed>, name: string): (r: Option<nat>)
    ensures r.Some? ==> r.value < |ps| && ps[r.value].name == name
    ensures r.None? <==> forall k :: 0 <= k < |ps| ==> ps[k].name != name
  {
    if |ps| == 0 then None
    else if ps[|ps| - 1].name == name then Some(|ps| - 1)
    else match Find(ps[..|ps| - 1], name)
      case None => None
      case Some(k) => Some(k)
  }

  /** The placement whose offset the object of word `i` carries at the end of the layout. */
  function Final(ps: seq<Placed>, i: nat): (j: nat)
    requires i < |ps|
    ensures i <= j < |ps| && ps[j].obj == ps[i].obj
  {
    LastPlaced(ps, ps[i].obj, |ps|).value
  }

  /** `from` for word `i`: its object's offset plus its length, less one. */
  function FromState(ps: seq<Placed>, i: nat): (r: nat)
    requires i < |ps| && Sized(ps)
    ensures r < Offset(ps, |ps|)
  {
    var j := Final(ps, i);
    OffsetMono(ps, j, |ps|);
    Offset(ps, j) + |ps[j].states| - 1
  }

  /** `to` for word `i`: its object's offset. */
  function ToState(ps: seq<Placed>, i: nat): (r: nat)
    requires i < |ps| && Sized(ps)
    ensures r < Offset(ps, |ps|)
  {
    var j := Final(ps, i);
    OffsetMono(ps, j, |ps|);
    Offset(ps, j)
  }

  /** The cursor only ever holds row and column indices of the sentence matrix. */
  predicate CursorOk(c: Cursor, size: nat)
  {
    (c.from.Some? ==> 0 <= c.from.value < size) && (c.to.Some? ==> 0 <= c.to.value < size)
  }

  /**
   * The locals after a three-field line: a known first word sets `from` to
   * its last state, a known second word sets `to` to its first state, and an
   * unknown word leaves its local as it was.
   */
  function Advance(ps: seq<Placed>, c: Cursor, parts: seq<string>): (c': Cursor)
    requires Sized(ps) && |parts| == 3 && CursorOk(c, Offset(ps, |ps|))
    ensures CursorOk(c', Offset(ps, |ps|))
  {
    Cursor(
      match Find(ps, parts[0]) case Some(a) => Some(FromState(ps, a) as int) case None => c.from,
      match Find(ps, parts[1]) case Some(b) => Some(ToState(ps, b) as int) case None => c.to)
  }

  /** `st[y][x] = v` on an existing cell. */
  function Write(m: Matrix, y: nat, x: nat, v: real): (r: Matrix)
    requires y < |m| && x < |m[y]|
    ensures |r| == |m| && forall k :: 0 <= k < |m| ==> |r[k]| == |m[k]|
  {
    m[y := m[y][x := v]]
  }

  /**
   * One line of the bigram file, already split on tabs. Only lines with
   * exactly three fields are looked at; once both locals are set the cell
   * `[from][to]` becomes `p * end_transition` of the first word, where `p`
   * is the third field read as a float. Ruby's Float product is the
   * parameter `times`.
   */
  function BigramStep(ps: seq<Placed>, m: Matrix, c: Cursor, line: BigramLine, times: (real, real) -> real)
    : (r: Result<(Matrix, Cursor), NetError>)
    requires Sized(ps) && |m| == Offset(ps, |ps|) && Wide(m) && CursorOk(c, |m|)
    ensures r.Success? ==> |r.value.0| == |m| && Wide(r.value.0) && CursorOk(r.value.1, |m|)
  {
    if |line.fields| != 3 then Success((m, c))
    else
      var c' := Advance(ps, c, line.fields);
      if c'.from.None? || c'.to.None? then Success((m, c'))
      else match Find(ps, line.fields[0])
        case None => Failure(UnknownWord(line.fields[0]))
        case Some(a) =>
          match EndTransition(ps[a].transitions)
          case None => Failure(NoEndTransition(line.fields[0]))
          case Some(e) => Success((Write(m, c'.from.value, c'.to.value, times(line.weight, e)), c'))
  }

  /** The first `n` bigram lines applied to `m`, starting with both locals nil. */
  function Bigrams(ps: seq<Placed>, m: Matrix, lines: seq<BigramLine>, n: nat, times: (real, real) -> real)
    : (r: Result<(Matrix, Cursor), NetError>)
    requires n <= |lines| && Sized(ps) && |m| == Offset(ps, |ps|) && Wide(m)
    ensures r.Success? ==> |r.value.0| == |m| && Wide(r.value.0) && CursorOk(r.value.1, |m|)
  {
    if n == 0 then Success((m, Cursor(None, None)))
    else
      match Bigrams(ps, m, lines, n - 1, times)
      case Failure(e) => Failure(e)
      case Success(mc) => BigramStep(ps, mc.0, mc.1, lines[n - 1], times)
  }

  /** The sentence transition matrix: the layout, then every bigram line. */
  function SentenceMatrix(ps: seq<Placed>, lines: seq<BigramLine>, times: (real, real) -> real)
    : (r: Result<Matrix, NetError>)
    requires Sized(ps)
    ensures r.Success? ==> |r.value| == Offset(ps, |ps|) && Wide(r.value)
  {
    match Layout(ps, |ps|)
    case Failure(e) => Failure(e)
    case Success(m) =>
      match Bigrams(ps, m, lines, |lines|, times)
      case Failure(e) => Failure(e)
      case Success(mc) => Success(mc.0)
  }

  // ---------------------------------------------------------------------
  // copy_matrix

  /** A copied row lands at `off` on both axes. */
  lemma CopyMatrixWrites(to: Matrix, from: Matrix, off: nat, y: nat, x: nat)
    requires off <= |to| && Wide(to) && CopyMatrix(to, from, off).Some?
    requires y + 1 < |from| && x < |from[y]|
    ensures off + y < |to|
    ensures off + x < |CopyMatrix(to, from, off).value[off + y]|
    ensures CopyMatrix(to, from, off).value[off + y][off + x] == from[y][x]
  {
    var rows := AllButLast(from);
    var k := Min(|rows|, |to| - off);
    assert rows[y] == from[y];
    assert y < k;
    assert rows[..k][y] == from[y];
    PlaceWritten(to, rows[..k], off, y, x);
  }

  /** Every cell outside the copied rows keeps its value. */
  lemma CopyMatrixKeeps(to: Matrix, from: Matrix, off: nat, y: nat, x: nat)
    requires off <= |to| && Wide(to) && CopyMatrix(to, from, off).Some?
    requires y < |to| && x < |to[y]|
    requires !(off <= y && y - off + 1 < |from| && off <= x < off + |from[y - off]|)
    ensures CopyMatrix(to, from, off).value[y][x] == to[y][x]
  {
    var rows := AllButLast(from);
    var k := Min(|rows|, |to| - off);
    PlaceUntouched(to, rows[..k], off, y, x);
  }

  /** Ruby raises exactly when a non-empty row, other than the last, lands at or past the last row of `to`. */
  lemma CopyMatrixFails(to: Matrix, from: Matrix, off: nat)
    requires off <= |to| && Wide(to)
    ensures CopyMatrix(to, from, off).None? <==>
      exists y :: 0 <= y < |from| - 1 && off + y >= |to| && |from[y]| > 0
  {
    var rows := AllButLast(from);
    var k := Min(|rows|, |to| - off);
    if CopyMatrix(to, from, off).None? {
      var y :| k <= y < |rows| && |rows[y]| > 0;
      assert rows[y] == from[y];
    } else {
      forall y | 0 <= y < |from| - 1 && off + y >= |to|
        ensures |from[y]| == 0
      {
        assert rows[y] == from[y];
      }
    }
  }

  // ---------------------------------------------------------------------
  // Layout of words of the usual shape

  /**
   * An HTK model with n emitting states has n + 2 states in its TRANSP
   * matrix; reading drops the entry row and column, so the stored matrix
   * has one row and one column more than there are states.
   */
  predicate Usual(p: Placed)
  {
    |p.transitions| == |p.states| + 1 &&
    forall y :: 0 <= y < |p.transitions| ==> |p.transitions[y]| == |p.states| + 1
  }

  predicate AllUsual(ps: seq<Placed>)
  {
    forall i :: 0 <= i < |ps| ==> Usual(ps[i])
  }

  /**
   * Row `r` of the N x N matrix once the first `n` words of the usual shape
   * are copied: the matching row of the block of the word that owns state
   * `r`, written over zeros, or zeros past the first `n` words.
   */
  function Expected(ps: seq<Placed>, n: nat, r: nat): Row
    requires n <= |ps| && AllUsual(ps)
  {
    if n == 0 then Zeros(Offset(ps, |ps|))
    else if Offset(ps, n - 1) <= r < Offset(ps, n) then
      assert Usual(ps[n - 1]);
      OffsetMono(ps, n - 1, |ps|);
      Overlay(Zeros(Offset(ps, |ps|)), ps[n - 1].transitions[r - Offset(ps, n - 1)], Offset(ps, n - 1))
    else Expected(ps, n - 1, r)
  }

  lemma {:induction false} ExpectedBeyond(ps: seq<Placed>, n: nat, r: nat)
    requires n <= |ps| && AllUsual(ps) && r >= Offset(ps, n)
    ensures Expected(ps, n, r) == Zeros(Offset(ps, |ps|))
  {
    if n > 0 {
      ExpectedBeyond(ps, n - 1, r);
    }
  }

  lemma {:induction false} ExpectedOwner(ps: seq<Placed>, n: nat, k: nat, y: nat)
    requires n <= |ps| && AllUsual(ps) && k < n && y < |ps[k].states|
    ensures Usual(ps[k]) && Offset(ps, k) + y < Offset(ps, |ps|)
    ensures Expected(ps, n, Offset(ps, k) + y) == Overlay(Zeros(Offset(ps, |ps|)), ps[k].transitions[y], Offset(ps, k))
  {
    assert Usual(ps[k]);
    OffsetMono(ps, k, |ps|);
    if k < n - 1 {
      OffsetMono(ps, k + 1, n - 1);
      ExpectedOwner(ps, n - 1, k, y);
    }
  }

  ghost function ExpectedLayout(ps: seq<Placed>, n: nat): (m: Matrix)
    requires n <= |ps| && AllUsual(ps)
    ensures |m| == Offset(ps, |ps|)
  {
    seq(Offset(ps, |ps|), r requires 0 <= r < Offset(ps, |ps|) => Expected(ps, n, r))
  }

  lemma ExpectedAt(ps: seq<Placed>, n: nat, r: nat)
    requires n <= |ps| && AllUsual(ps) && r < Offset(ps, |ps|)
    ensures ExpectedLayout(ps, n)[r] == Expected(ps, n, r)
  {
  }

  /** Copying the next word over the expected matrix gives the expected matrix with one word more. */
  lemma LayoutRowsStep(ps: seq<Placed>, n: nat, m: Matrix)
    requires 0 < n <= |ps| && AllUsual(ps) && m == ExpectedLayout(ps, n - 1) && Wide(m)
    ensures Offset(ps, n - 1) <= |m|
    ensures CopyMatrix(m, ps[n - 1].transitions, Offset(ps, n - 1)) == Some(ExpectedLayout(ps, n))
  {
    var off := Offset(ps, n - 1);
    var t := ps[n - 1].transitions;
    assert Usual(ps[n - 1]);
    OffsetMono(ps, n - 1, |ps|);
    OffsetMono(ps, n, |ps|);
    CopyUsual(m, t, off, |ps[n - 1].states|);
    PlaceExpected(ps, n, m);
  }

  /** A block one row and one column wider than its word copies all but its last row. */
  lemma CopyUsual(m: Matrix, t: Matrix, off: nat, s: nat)
    requires off + s <= |m| && Wide(m) && |t| == s + 1
    ensures Fits(m, t[..s], off)
    ensures CopyMatrix(m, t, off) == Some(Place(m, t[..s], off))
  {
    var rows := AllButLast(t);
    assert rows == t[..s];
    assert Min(|rows|, |m| - off) == s;
    assert rows[..s] == rows;
  }

  /** The copied rows of word `n - 1` over the expected matrix of the first `n - 1` words. */
  lemma PlaceExpected(ps: seq<Placed>, n: nat, m: Matrix)
    requires 0 < n <= |ps| && AllUsual(ps) && m == ExpectedLayout(ps, n - 1) && Wide(m)
    requires Offset(ps, n) <= Offset(ps, |ps|)
    requires Fits(m, ps[n - 1].transitions[..|ps[n - 1].states|], Offset(ps, n - 1))
    ensures Place(m, ps[n - 1].transitions[..|ps[n - 1].states|], Offset(ps, n - 1)) == ExpectedLayout(ps, n)
  {
    var m' := Place(m, ps[n - 1].transitions[..|ps[n - 1].states|], Offset(ps, n - 1));
    var e := ExpectedLayout(ps, n);
    forall r | 0 <= r < |e|
      ensures m'[r] == e[r]
    {
      assert m[r] == Expected(ps, n - 1, r);
      PlaceExpectedRow(ps, n, m, r);
    }
  }

  /** One row of `PlaceExpected`. */
  lemma PlaceExpectedRow(ps: seq<Placed>, n: nat, m: Matrix, r: nat)
    requires 0 < n <= |ps| && AllUsual(ps) && r < |m| && m[r] == Expected(ps, n - 1, r)
    requires Fits(m, ps[n - 1].transitions[..|ps[n - 1].states|], Offset(ps, n - 1))
    ensures Place(m, ps[n - 1].transitions[..|ps[n - 1].states|], Offset(ps, n - 1))[r] == Expected(ps, n, r)
  {
    var off := Offset(ps, n - 1);
    var s := |ps[n - 1].states|;
    var rows := ps[n - 1].transitions[..s];
    var p := Place(m, rows, off);
    assert Offset(ps, n) == off + s;
    if off <= r < off + s {
      var j := r - off;
      PlaceRow(m, rows, off, j);
      assert off + j == r;
      assert p[r] == Overlay(m[r], rows[j], off);
      ExpectedBeyond(ps, n - 1, r);
      assert rows[j] == ps[n - 1].transitions[j];
      assert Expected(ps, n, r) == Overlay(Zeros(Offset(ps, |ps|)), rows[j], off);
    } else {
      PlaceRowKept(m, rows, off, r);
      assert p[r] == m[r];
      assert Expected(ps, n, r) == Expected(ps, n - 1, r);
    }
  }

  /** For words of the usual shape the layout never raises and yields the expected rows. */
  lemma {:induction false} LayoutRows(ps: seq<Placed>, n: nat)
    requires n <= |ps| && AllUsual(ps)
    ensures Layout(ps, n) == Success(ExpectedLayout(ps, n))
  {
    if n > 0 {
      LayoutRows(ps, n - 1);
      var m := ExpectedLayout(ps, n - 1);
      OffsetMono(ps, n - 1, |ps|);
      LayoutRowsStep(ps, n, m);
      LayoutStep(ps, n - 1, m, CopyMatrix(m, ps[n - 1].transitions, Offset(ps, n - 1)));
    } else {
      var size := Offset(ps, |ps|);
      assert ZeroMatrix(size, size) == ExpectedLayout(ps, 0);
    }
  }

  /** One cell of a row written over zeros. */
  lemma OverlayZeros(row: Row, size: nat, src: Row, off: nat, x: nat)
    requires off <= size && row == Overlay(Zeros(size), src, off)
    ensures |row| == Max(size, off + |src|)
    ensures x < |row| ==> row[x] == if off <= x < off + |src| then src[x - off] else 0.0
  {
  }

  /** Row y of word k in the layout of words of the usual shape. */
  lemma LayoutRow(ps: seq<Placed>, k: nat, y: nat)
    requires AllUsual(ps) && k < |ps| && y < |ps[k].states|
    ensures Layout(ps, |ps|).Success? && Usual(ps[k])
    ensures Offset(ps, k) + y < |Layout(ps, |ps|).value| && Offset(ps, k) <= Offset(ps, |ps|)
    ensures Layout(ps, |ps|).value[Offset(ps, k) + y] ==
      Overlay(Zeros(Offset(ps, |ps|)), ps[k].transitions[y], Offset(ps, k))
  {
    LayoutRows(ps, |ps|);
    ExpectedRow(ps, k, y, Layout(ps, |ps|).value);
  }

  /** `LayoutRow` for the expected layout. */
  lemma ExpectedRow(ps: seq<Placed>, k: nat, y: nat, m: Matrix)
    requires AllUsual(ps) && k < |ps| && y < |ps[k].states| && m == ExpectedLayout(ps, |ps|)
    ensures Usual(ps[k]) && Offset(ps, k) + y < |m| && Offset(ps, k) <= Offset(ps, |ps|)
    ensures m[Offset(ps, k) + y] == Overlay(Zeros(Offset(ps, |ps|)), ps[k].transitions[y], Offset(ps, k))
  {
    ExpectedOwner(ps, |ps|, k, y);
    ExpectedAt(ps, |ps|, Offset(ps, k) + y);
  }

  /**
   * Cell by cell: word k's block sits on the diagonal at its offset, one
   * column wider than the word, and every other cell of its rows is 0. The
   * extra column is the exit probability, which therefore lands in the first
   * column of the next word (or, for the last word, in a column N past the
   * end of the N x N matrix, which Ruby adds to the row).
   */
  lemma LayoutCell(ps: seq<Placed>, k: nat, y: nat, x: nat)
    requires AllUsual(ps) && k < |ps| && y < |ps[k].states|
    ensures Layout(ps, |ps|).Success?
    ensures var m := Layout(ps, |ps|).value; var off := Offset(ps, k); var s := |ps[k].states|;
      off + y < |m| && y < |ps[k].transitions| &&
      |m[off + y]| == Max(|m|, off + s + 1) &&
      (x < |m[off + y]| ==>
        m[off + y][x] == if off <= x <= off + s then ps[k].transitions[y][x - off] else 0.0)
  {
    LayoutRow(ps, k, y);
    CellOfWord(Layout(ps, |ps|).value, ps, k, y, x);
  }

  /** `LayoutCell` for any matrix whose row `Offset(ps, k) + y` is the layout's. */
  lemma CellOfWord(m: Matrix, ps: seq<Placed>, k: nat, y: nat, x: nat)
    requires k < |ps| && Usual(ps[k]) && y < |ps[k].states|
    requires |m| == Offset(ps, |ps|) && Offset(ps, k) <= |m| && Offset(ps, k) + y < |m|
    requires m[Offset(ps, k) + y] == Overlay(Zeros(Offset(ps, |ps|)), ps[k].transitions[y], Offset(ps, k))
    ensures var off := Offset(ps, k); var s := |ps[k].states|;
      off + y < |m| && y < |ps[k].transitions| &&
      |m[off + y]| == Max(|m|, off + s + 1) &&
      (x < |m[off + y]| ==>
        m[off + y][x] == if off <= x <= off + s then ps[k].transitions[y][x - off] else 0.0)
  {
    var ts := ps[k].transitions;
    var off := Offset(ps, k);
    assert |ts[y]| == |ps[k].states| + 1;
    CellOfRow(m, ts, off, |ps[k].states|, y, x);
  }

  /** The cell arithmetic of `LayoutCell`, for any matrix whose row `off + y` is `ts[y]` written over zeros. */
  lemma CellOfRow(m: Matrix, ts: Matrix, off: nat, s: nat, y: nat, x: nat)
    requires off <= |m| && off + y < |m| && y < |ts| && |ts[y]| == s + 1
    requires m[off + y] == Overlay(Zeros(|m|), ts[y], off)
    ensures |m[off + y]| == Max(|m|, off + s + 1)
    ensures x < |m[off + y]| ==> m[off + y][x] == if off <= x <= off + s then ts[y][x - off] else 0.0
  {
    var row := m[off + y];
    OverlayZeros(row, |m|, ts[y], off, x);
    if x < |row| {
      if off <= x <= off + s {
        assert row[x] == ts[y][x - off];
      } else {
        assert row[x] == 0.0;
      }
    }
  }

  /** The exit column of word k is the entry column of word k + 1. */
  lemma ExitColumnLeaks(ps: seq<Placed>, k: nat, y: nat)
    requires AllUsual(ps) && k + 1 < |ps| && y < |ps[k].states|
    ensures Layout(ps, |ps|).Success?
    ensures var m := Layout(ps, |ps|).value;
      Offset(ps, k) + y < |m| && Offset(ps, k + 1) < |m[Offset(ps, k) + y]| &&
      y < |ps[k].transitions| && |ps[k].states| < |ps[k].transitions[y]| &&
      m[Offset(ps, k) + y][Offset(ps, k + 1)] == ps[k].transitions[y][|ps[k].states|]
  {
    LayoutRow(ps, k, y);
    ExitOfWord(Layout(ps, |ps|).value, ps, k, y);
  }

  /** `ExitColumnLeaks` for any matrix whose row `Offset(ps, k) + y` is the layout's. */
  lemma ExitOfWord(m: Matrix, ps: seq<Placed>, k: nat, y: nat)
    requires k + 1 < |ps| && Usual(ps[k]) && y < |ps[k].states|
    requires |m| == Offset(ps, |ps|) && Offset(ps, k) <= |m| && Offset(ps, k) + y < |m|
    requires m[Offset(ps, k) + y] == Overlay(Zeros(Offset(ps, |ps|)), ps[k].transitions[y], Offset(ps, k))
    ensures Offset(ps, k) + y < |m| && Offset(ps, k + 1) < |m[Offset(ps, k) + y]| &&
      y < |ps[k].transitions| && |ps[k].states| < |ps[k].transitions[y]| &&
      m[Offset(ps, k) + y][Offset(ps, k + 1)] == ps[k].transitions[y][|ps[k].states|]
  {
    var off := Offset(ps, k);
    var s := |ps[k].states|;
    assert Offset(ps, k + 1) == off + s;
    assert |ps[k].transitions[y]| == s + 1;
    CellOfRow(m, ps[k].transitions, off, s, y, off + s);
  }

  // ---------------------------------------------------------------------
  // Start and end maps

  /** With every word non-empty, each word's offset maps to its name in the start map. */
  lemma {:induction false} StartOf(ps: seq<Placed>, n: nat, k: nat)
    requires n <= |ps| && Sized(ps) && k < n
    ensures Offset(ps, k) in Starts(ps, n) && Starts(ps, n)[Offset(ps, k)] == ps[k].name
  {
    if k < n - 1 {
      OffsetMono(ps, k, n - 1);
      StartOf(ps, n - 1, k);
    }
  }

  /** The start map holds nothing but word offsets. */
  lemma {:induction false} StartsOnly(ps: seq<Placed>, n: nat, r: int)
    requires n <= |ps| && r in Starts(ps, n)
    ensures exists k :: 0 <= k < n && r == Offset(ps, k)
  {
    if r != Offset(ps, n - 1) {
      StartsOnly(ps, n - 1, r);
    }
  }

  /** With every word non-empty, each word's last state maps to its name in the end map. */
  lemma {:induction false} EndOf(ps: seq<Placed>, n: nat, k: nat)
    requires n <= |ps| && Sized(ps) && k < n
    ensures Offset(ps, k) + |ps[k].states| - 1 in Ends(ps, n)
    ensures Ends(ps, n)[Offset(ps, k) + |ps[k].states| - 1] == ps[k].name
  {
    if k < n - 1 {
      OffsetMono(ps, k + 1, n - 1);
      EndOf(ps, n - 1, k);
    }
  }

  /** The end map holds nothing but the last states of words. */
  lemma {:induction false} EndsOnly(ps: seq<Placed>, n: nat, r: int)
    requires n <= |ps| && r in Ends(ps, n)
    ensures exists k :: 0 <= k < n && r == Offset(ps, k) + |ps[k].states| - 1
  {
    if r != Offset(ps, n - 1) + |ps[n - 1].states| - 1 {
      EndsOnly(ps, n - 1, r);
    }
  }

  // ---------------------------------------------------------------------
  // Bigram lines

  /**
   * A three-field line naming two laid-out words writes `p * end_transition`
   * of the first at the first word's last state and the second word's first
   * state (the offsets their objects carry), whatever the cell held before;
   * it leaves every other cell and both locals pointing at those states.
   */
  lemma BigramWrites(ps: seq<Placed>, m: Matrix, c: Cursor, line: BigramLine, times: (real, real) -> real)
    requires Sized(ps) && |m| == Offset(ps, |ps|) && Wide(m) && CursorOk(c, |m|)
    requires |line.fields| == 3 && Find(ps, line.fields[0]).Some? && Find(ps, line.fields[1]).Some?
    requires EndTransition(ps[Find(ps, line.fields[0]).value].transitions).Some?
    ensures var a := Find(ps, line.fields[0]).value; var b := Find(ps, line.fields[1]).value;
      var r := BigramStep(ps, m, c, line, times);
      r.Success? && r.value.1 == Cursor(Some(FromState(ps, a)), Some(ToState(ps, b))) &&
      |r.value.0| == |m| &&
      (forall y :: 0 <= y < |m| ==> |r.value.0[y]| == |m[y]|) &&
      r.value.0[FromState(ps, a)][ToState(ps, b)] ==
        times(line.weight, EndTransition(ps[a].transitions).value) &&
      forall y, x :: 0 <= y < |m| && 0 <= x < |m[y]| && (y, x) != (FromState(ps, a), ToState(ps, b)) ==>
        r.value.0[y][x] == m[y][x]
  {
  }

  /** The locals are not reset: a line whose first word is unknown raises once both locals are set. */
  lemma BigramStaleFrom(ps: seq<Placed>, m: Matrix, c: Cursor, line: BigramLine, times: (real, real) -> real)
    requires Sized(ps) && |m| == Offset(ps, |ps|) && Wide(m) && CursorOk(c, |m|)
    requires |line.fields| == 3 && Find(ps, line.fields[0]).None? && c.from.Some?
    requires Find(ps, line.fields[1]).Some? || c.to.Some?
    ensures BigramStep(ps, m, c, line, times) == Failure(UnknownWord(line.fields[0]))
  {
  }

  /** The locals are not reset: a line whose second word is unknown writes to the column of the last known one. */
  lemma BigramStaleTo(ps: seq<Placed>, m: Matrix, c: Cursor, line: BigramLine, times: (real, real) -> real)
    requires Sized(ps) && |m| == Offset(ps, |ps|) && Wide(m) && CursorOk(c, |m|)
    requires |line.fields| == 3 && Find(ps, line.fields[0]).Some? && Find(ps, line.fields[1]).None? && c.to.Some?
    requires EndTransition(ps[Find(ps, line.fields[0]).value].transitions).Some?
    ensures var a := Find(ps, line.fields[0]).value;
      var r := BigramStep(ps, m, c, line, times);
      r.Success? && r.value.1 == Cursor(Some(FromState(ps, a)), c.to) &&
      |r.value.0| == |m| &&
      (forall y :: 0 <= y < |m| ==> |r.value.0[y]| == |m[y]|) &&
      r.value.0[FromState(ps, a)][c.to.value] == times(line.weight, EndTransition(ps[a].transitions).value) &&
      forall y, x :: 0 <= y < |m| && 0 <= x < |m[y]| && (y, x) != (FromState(ps, a), c.to.value) ==>
        r.value.0[y][x] == m[y][x]
  {
  }

  /** Lines with other than three fields change nothing, not even the locals. */
  lemma BigramSkips(ps: seq<Placed>, m: Matrix, c: Cursor, line: BigramLine, times: (real, real) -> real)
    requires Sized(ps) && |m| == Offset(ps, |ps|) && Wide(m) && CursorOk(c, |m|)
    requires |line.fields| != 3
    ensures BigramStep(ps, m, c, line, times) == Success((m, c))
  {
  }

  /** The locals only ever hold the last state of some word (`from`) and the first state of some word (`to`). */
  predicate CursorIn(ps: seq<Placed>, c: Cursor)
    requires Sized(ps)
  {
    (c.from.Some? ==> c.from.value in Ends(ps, |ps|)) && (c.to.Some? ==> c.to.value in Starts(ps, |ps|))
  }

  lemma FromStateEnds(ps: seq<Placed>, i: nat)
    requires i < |ps| && Sized(ps)
    ensures FromState(ps, i) in Ends(ps, |ps|) && ToState(ps, i) in Starts(ps, |ps|)
  {
    var j := Final(ps, i);
    EndOf(ps, |ps|, j);
    StartOf(ps, |ps|, j);
  }

  lemma StepCursorIn(ps: seq<Placed>, m: Matrix, c: Cursor, line: BigramLine, times: (real, real) -> real)
    requires Sized(ps) && |m| == Offset(ps, |ps|) && Wide(m) && CursorOk(c, |m|) && CursorIn(ps, c)
    requires BigramStep(ps, m, c, line, times).Success?
    ensures CursorIn(ps, BigramStep(ps, m, c, line, times).value.1)
    ensures var r := BigramStep(ps, m, c, line, times).value.0;
      (forall y :: 0 <= y < |m| ==> |r[y]| == |m[y]|) &&
      forall y, x :: 0 <= y < |m| && 0 <= x < |m[y]| && (y !in Ends(ps, |ps|) || x !in Starts(ps, |ps|)) ==>
        r[y][x] == m[y][x]
  {
    if |line.fields| == 3 {
      var a := Find(ps, line.fields[0]);
      var b := Find(ps, line.fields[1]);
      if a.Some? {
        FromStateEnds(ps, a.value);
      }
      if b.Some? {
        FromStateEnds(ps, b.value);
      }
    }
  }

  /** Bigram lines keep every row's length and leave the locals on word boundaries. */
  lemma {:induction false} BigramsShape(ps: seq<Placed>, m: Matrix, lines: seq<BigramLine>, n: nat,
                                        times: (real, real) -> real)
    requires n <= |lines| && Sized(ps) && |m| == Offset(ps, |ps|) && Wide(m)
    requires Bigrams(ps, m, lines, n, times).Success?
    ensures CursorIn(ps, Bigrams(ps, m, lines, n, times).value.1)
    ensures forall y :: 0 <= y < |m| ==> |Bigrams(ps, m, lines, n, times).value.0[y]| == |m[y]|
  {
    if n > 0 {
      BigramsShape(ps, m, lines, n - 1, times);
      var mc := Bigrams(ps, m, lines, n - 1, times).value;
      StepCursorIn(ps, mc.0, mc.1, lines[n - 1], times);
    }
  }

  /**
   * The bigram file only writes cross-word cells: a cell that is not in the
   * row of some word's last state and the column of some word's first state
   * keeps its layout value.
   */
  lemma {:induction false} BigramsCrossWordOnly(ps: seq<Placed>, m: Matrix, lines: seq<BigramLine>, n: nat,
                                                y: nat, x: nat, times: (real, real) -> real)
    requires n <= |lines| && Sized(ps) && |m| == Offset(ps, |ps|) && Wide(m)
    requires Bigrams(ps, m, lines, n, times).Success?
    requires y < |m| && x < |m[y]| && (y !in Ends(ps, |ps|) || x !in Starts(ps, |ps|))
    ensures x < |Bigrams(ps, m, lines, n, times).value.0[y]|
    ensures Bigrams(ps, m, lines, n, times).value.0[y][x] == m[y][x]
  {
    BigramsShape(ps, m, lines, n, times);
    if n > 0 {
      BigramsCrossWordOnly(ps, m, lines, n - 1, y, x, times);
      BigramsShape(ps, m, lines, n - 1, times);
      var mc := Bigrams(ps, m, lines, n - 1, times).value;
      assert Bigrams(ps, m, lines, n, times) == BigramStep(ps, mc.0, mc.1, lines[n - 1], times);
      StepCursorIn(ps, mc.0, mc.1, lines[n - 1], times);
    }
  }
}
