/**
 * The statements of `make_bigram` and `copy_matrix` (src/app.rb:298-360,
 * 526-533) as they run: the "sp" pass over the words, the layout loop that
 * writes each word's offset into its model object, the bigram loop with its
 * two surviving locals, and the row loop of `copy_matrix`. Each is proved
 * against the value-level definitions of module Network.
 */
module Sentence {
  import opened Wrappers
  import opened Matrices
  import opened HmmSpec
  import opened Hmm
  import opened Tables
  import opened Network

  /** The model objects a table of words refers to. */
  function EntryObjects(t: Table<Option<HMM>>): set<HMM>
  {
    set k | k in t.entries && t.entries[k].Some? :: t.entries[k].value
  }

  /** No word is nil. */
  predicate AllSet(t: Table<Option<HMM>>)
  {
    forall k :: k in t.entries ==> t.entries[k].Some?
  }

  /**
   * The words in hash order as the layout sees them. Only the states and the
   * transitions of the objects are read, so writing an `offset` leaves it as it was.
   */
  ghost function Snapshot(t: Table<Option<HMM>>, n: nat): (ps: seq<Placed>)
    requires TableOk(t) && AllSet(t) && n <= |t.keys|
    reads EntryObjects(t)`states, EntryObjects(t)`stateTransitions
    ensures |ps| == n
    ensures forall i :: 0 <= i < n ==>
      t.keys[i] in t.entries && ps[i].name == t.keys[i] && ps[i].obj == t.entries[t.keys[i]].value &&
      ps[i].states == ps[i].obj.states && ps[i].transitions == ps[i].obj.stateTransitions
  {
    if n == 0 then []
    else
      var k := t.keys[n - 1];
      assert k in t.entries;
      var h := t.entries[k].value;
      Snapshot(t, n - 1) + [Placed(k, h, h.states, h.stateTransitions)]
  }

  /** Every word, and the placements of every word, have at least one state. */
  ghost predicate NonEmptyWords(t: Table<Option<HMM>>)
    reads EntryObjects(t)`states
  {
    forall k :: k in t.entries && t.entries[k].Some? ==> |t.entries[k].value.states| >= 1
  }

  lemma SnapshotSized(t: Table<Option<HMM>>)
    requires TableOk(t) && AllSet(t) && NonEmptyWords(t)
    ensures Sized(Snapshot(t, |t.keys|))
  {
  }

  /** A hash lookup by name finds the placement of that name, and nothing else. */
  lemma FindKey(t: Table<Option<HMM>>, name: string)
    requires TableOk(t) && AllSet(t)
    ensures var ps := Snapshot(t, |t.keys|);
      (name in t.entries <==> Find(ps, name).Some?) &&
      (name in t.entries ==> ps[Find(ps, name).value].obj == t.entries[name].value)
  {
    var ps := Snapshot(t, |t.keys|);
    if name in t.entries {
      assert name in t.keys;
      var i :| 0 <= i < |t.keys| && t.keys[i] == name;
      assert ps[i].name == name;
    }
  }

  // ---------------------------------------------------------------------
  // The "sp" pass

  /**
   * What the "sp" pass raises, if anything, over the first `n` words: the
   * sums it builds are thrown away, so only their failures are observable.
   * A nil word fails at `word.states`, a missing "sp" at `other_hmm.states`,
   * a word without an initial row at `@initial + Array`, and a word without
   * transition rows as `SumError` says.
   */
  function SpError(t: Table<Option<HMM>>, models: map<string, HMM>, n: nat): Option<NetError>
    requires TableOk(t) && n <= |t.keys|
    reads EntryObjects(t)`initial, EntryObjects(t)`stateTransitions, models.Values`stateTransitions
  {
    if n == 0 then None
    else match SpError(t, models, n - 1)
      case Some(e) => Some(e)
      case None =>
        var w := t.keys[n - 1];
        assert w in t.entries;
        if t.entries[w].None? then Some(NilWord(w))
        else if "sp" !in models then Some(NoSp)
        else if t.entries[w].value.initial.None? then Some(NoInitial(w))
        else SumError(w, t.entries[w].value.stateTransitions, models["sp"].stateTransitions)
  }

  /**
   * The pass goes through exactly when "sp" exists (if there is any word) and
   * every word is set, has an initial row, and has a transition row unless
   * the rows of "sp" are two or more or a single empty one.
   */
  lemma {:induction false} SpErrorNone(t: Table<Option<HMM>>, models: map<string, HMM>, n: nat)
    requires TableOk(t) && n <= |t.keys|
    ensures SpError(t, models, n).None? <==>
      (n > 0 ==> "sp" in models) &&
      forall i :: 0 <= i < n ==>
        t.keys[i] in t.entries && t.entries[t.keys[i]].Some? && t.entries[t.keys[i]].value.initial.Some? &&
        var sp := models["sp"].stateTransitions;
        (|t.entries[t.keys[i]].value.stateTransitions| >= 1 || |sp| >= 2 || (|sp| == 1 && |sp[0]| == 0))
  {
    if n > 0 {
      SpErrorNone(t, models, n - 1);
      assert t.keys[n - 1] in t.entries;
    }
  }

  /** Once a word fails, the pass has raised: later words change nothing. */
  lemma {:induction false} SpErrorSticky(t: Table<Option<HMM>>, models: map<string, HMM>, i: nat, n: nat)
    requires TableOk(t) && i <= n <= |t.keys| && SpError(t, models, i).Some?
    ensures SpError(t, models, n) == SpError(t, models, i)
  {
    if i < n {
      SpErrorSticky(t, models, i, n - 1);
    }
  }

  /** `@words.each_value { |word| ...; word = word + @models["sp"] }` */
  method CheckWords(t: Table<Option<HMM>>, models: map<string, HMM>) returns (r: Option<NetError>)
    requires TableOk(t)
    ensures r == old(SpError(t, models, |t.keys|))
  {
    var i := 0;
    while i < |t.keys|
      invariant 0 <= i <= |t.keys| && SpError(t, models, i) == None
    {
      var w := t.keys[i];
      assert w in t.entries;
      match t.entries[w]
      case None =>
        SpErrorSticky(t, models, i + 1, |t.keys|);
        return Some(NilWord(w));
      case Some(h) =>
        if "sp" !in models {
          SpErrorSticky(t, models, i + 1, |t.keys|);
          return Some(NoSp);
        }
        if h.initial.None? {
          SpErrorSticky(t, models, i + 1, |t.keys|);
          return Some(NoInitial(w));
        }
        var e := SumError(w, h.stateTransitions, models["sp"].stateTransitions);
        if e.Some? {
          SpErrorSticky(t, models, i + 1, |t.keys|);
          return e;
        }
      i := i + 1;
    }
    return None;
  }

  // ---------------------------------------------------------------------
  // copy_matrix

  /** The nested loops of `copy_matrix`, which raise at the first non-empty row that lands past the end. */
  method CopyMatrixRows(to: Matrix, from: Matrix, off: nat) returns (r: Option<Matrix>)
    requires off <= |to| && Wide(to)
    ensures r == CopyMatrix(to, from, off)
  {
    var rows := AllButLast(from);
    var k := Min(|rows|, |to| - off);
    var block := rows[..k];
    assert Fits(to, block, off);
    var m := to;
    var y := 0;
    while y < |rows|
      invariant 0 <= y <= |rows|
      invariant Fits(to, block[..Min(y, k)], off) && m == Place(to, block[..Min(y, k)], off)
      invariant forall j :: k <= j < y ==> |rows[j]| == 0
    {
      if y < k {
        assert Min(y, k) == y && Min(y + 1, k) == y + 1 && block[y] == rows[y];
        PlaceNextRow(to, block, off, y);
        var row := OverlayRow(m[off + y], rows[y], off);
        m := m[off + y := row];
      } else if |rows[y]| > 0 {
        return None;
      } else {
        assert Min(y + 1, k) == Min(y, k);
      }
      y := y + 1;
    }
    assert block[..Min(y, k)] == block;
    return Some(m);
  }

  // ---------------------------------------------------------------------
  // The layout loops

  /** `@words.each_pair { ...; @sentence.states += word_hmm.states }` */
  method JoinStates(t: Table<Option<HMM>>, ghost ps: seq<Placed>) returns (states: seq<State>)
    requires Names(t, ps) && Mirrors(ps)
    ensures states == AllStates(ps)
  {
    states := [];
    var i := 0;
    while i < |t.keys|
      invariant 0 <= i <= |t.keys| && states == AllStates(ps[..i])
    {
      var h := t.entries[t.keys[i]].value;
      assert h == ps[i].obj;
      assert ps[..i + 1][..i] == ps[..i];
      states := states + h.states;
      i := i + 1;
    }
    assert ps[..i] == ps;
  }

  /** Where the layout has written the offsets of the first `n` placements. */
  ghost predicate OffsetsAfter(ps: seq<Placed>, n: nat)
    requires n <= |ps|
    reads set i | 0 <= i < |ps| :: ps[i].obj`offset
  {
    forall j {:trigger LastPlaced(ps, ps[j].obj, n)} :: 0 <= j < n ==> ps[j].obj.offset == Offset(ps, LastPlaced(ps, ps[j].obj, n).value)
  }

  /** `word_hmm.offset = offset`: the placement just made is now the last one of its object. */
  method SetOffset(ghost ps: seq<Placed>, ghost i: nat, ghost n: nat, h: HMM, offset: int)
    requires n == i + 1 && i < |ps| && h == ps[i].obj && offset == Offset(ps, i) && OffsetsAfter(ps, i)
    modifies h`offset
    ensures OffsetsAfter(ps, n)
  {
    label Before:
    h.offset := offset;
    forall j | 0 <= j < i + 1
      ensures ps[j].obj.offset == Offset(ps, LastPlaced(ps, ps[j].obj, i + 1).value)
    {
      if ps[j].obj != h {
        assert ps[j].obj.offset == old@Before(ps[j].obj.offset);
      }
    }
  }

  /** Once a word cannot be copied, the layout has raised: later words change nothing. */
  lemma {:induction false} LayoutSticky(ps: seq<Placed>, i: nat, n: nat)
    requires i <= n <= |ps| && Layout(ps, i).Failure?
    ensures Layout(ps, n) == Layout(ps, i)
  {
    if i < n {
      LayoutSticky(ps, i, n - 1);
    }
  }

  lemma MapsStep(ps: seq<Placed>, i: nat, starts: map<int, string>, ends: map<int, string>, last: int, w: string)
    requires i < |ps| && starts == Starts(ps, i) && ends == Ends(ps, i)
    requires last == Offset(ps, i) + |ps[i].states| - 1 && w == ps[i].name
    ensures Starts(ps, i + 1) == starts[Offset(ps, i) := w]
    ensures Ends(ps, i + 1) == ends[last := w]
  {
  }

  /** The placements are the table's words, in hash order. */
  predicate Names(t: Table<Option<HMM>>, ps: seq<Placed>)
  {
    |ps| == |t.keys| &&
    forall j :: 0 <= j < |ps| ==>
      t.keys[j] in t.entries && t.entries[t.keys[j]] == Some(ps[j].obj) && ps[j].name == t.keys[j]
  }

  /** The model objects the placements refer to. */
  function Objects(ps: seq<Placed>): set<HMM>
  {
    set j | 0 <= j < |ps| :: ps[j].obj
  }

  /** The placements hold their objects' current states and transitions. */
  ghost predicate Mirrors(ps: seq<Placed>)
    reads Objects(ps)`states, Objects(ps)`stateTransitions
  {
    forall j :: 0 <= j < |ps| ==> ps[j].states == ps[j].obj.states && ps[j].transitions == ps[j].obj.stateTransitions
  }

  /** Every placed object is one of the table's objects. */
  lemma NamesObjects(t: Table<Option<HMM>>, ps: seq<Placed>)
    requires Names(t, ps)
    ensures forall j :: 0 <= j < |ps| ==> ps[j].obj in EntryObjects(t)
  {
    forall j | 0 <= j < |ps|
      ensures ps[j].obj in EntryObjects(t)
    {
      var k := t.keys[j];
      assert t.entries[k].Some? && t.entries[k].value == ps[j].obj;
    }
  }

  lemma SnapshotMirrors(t: Table<Option<HMM>>)
    requires TableOk(t) && AllSet(t)
    ensures Names(t, Snapshot(t, |t.keys|)) && Mirrors(Snapshot(t, |t.keys|))
  {
  }

  /**
   * One pass of the layout loop without its `offset` write: the word's block
   * is copied at the running offset, and its start and end are recorded.
   */
  method CopyWord(ghost ps: seq<Placed>, ghost i: nat, m: Matrix, starts: map<int, string>, ends: map<int, string>,
                  offset: nat, w: string, transitions: Matrix, length: nat, ghost n: nat)
    returns (r: Result<(Matrix, map<int, string>, map<int, string>), NetError>)
    requires n == i + 1 && i < |ps| && Layout(ps, i) == Success(m) && offset == Offset(ps, i)
    requires starts == Starts(ps, i) && ends == Ends(ps, i)
    requires w == ps[i].name && transitions == ps[i].transitions && length == |ps[i].states|
    ensures r.Failure? ==> Layout(ps, |ps|) == Failure(r.error)
    ensures r.Success? ==>
      Layout(ps, n) == Success(r.value.0) && r.value.1 == Starts(ps, n) && r.value.2 == Ends(ps, n)
  {
    OffsetMono(ps, i, |ps|);
    var c := CopyMatrixRows(m, transitions, offset);
    LayoutStep(ps, i, m, c);
    if c.None? {
      LayoutSticky(ps, i + 1, |ps|);
      return Failure(CopyPastEnd(w));
    }
    var last := offset + length - 1;
    MapsStep(ps, i, starts, ends, last, w);
    return Success((c.value, starts[offset := w], ends[last := w]));
  }

  /**
   * The loop that copies each word's block into the zero matrix and records
   * its start, its end and its offset; a later placement of the same model
   * object overwrites the offset of an earlier one.
   */
  method LayoutWords(t: Table<Option<HMM>>, ghost ps: seq<Placed>, ghost objs: set<HMM>, size: nat)
    returns (r: Result<(Matrix, map<int, string>, map<int, string>), NetError>)
    requires Names(t, ps) && Mirrors(ps) && size == Offset(ps, |ps|)
    requires forall j :: 0 <= j < |ps| ==> ps[j].obj in objs
    modifies objs`offset
    ensures r.Failure? ==> Layout(ps, |ps|) == Failure(r.error)
    ensures r.Success? ==> Layout(ps, |ps|) == Success(r.value.0)
    ensures r.Success? ==> r.value.1 == Starts(ps, |ps|) && r.value.2 == Ends(ps, |ps|) && OffsetsAfter(ps, |ps|)
    ensures Mirrors(ps)
  {
    var m := ZeroMatrix(size, size);
    var starts: map<int, string> := map[];
    var ends: map<int, string> := map[];
    var offset := 0;
    var i := 0;
    while i < |t.keys|
      invariant 0 <= i <= |t.keys| && Layout(ps, i) == Success(m) && offset == Offset(ps, i)
      invariant starts == Starts(ps, i) && ends == Ends(ps, i) && OffsetsAfter(ps, i)
    {
      var w := t.keys[i];
      var h := t.entries[w].value;
      assert ps[i].states == old(h.states) && ps[i].transitions == old(h.stateTransitions);
      var n := i + 1;
      var placed := CopyWord(ps, i, m, starts, ends, offset, w, h.stateTransitions, |h.states|, n);
      if placed.Failure? {
        return Failure(placed.error);
      }
      m, starts, ends := placed.value.0, placed.value.1, placed.value.2;
      var next := offset + |h.states|;
      assert next == Offset(ps, n);
      SetOffset(ps, i, n, h, offset);
      offset, i := next, n;
    }
    assert i == |ps|;
    return Success((m, starts, ends));
  }

  // ---------------------------------------------------------------------
  // The bigram loop

  /**
   * What the bigram loop finds once the layout is done: the hash and the
   * placements agree, and every object carries the offset of its last placement.
   */
  ghost predicate Ready(t: Table<Option<HMM>>, ps: seq<Placed>)
    reads Objects(ps)
  {
    TableOk(t) && Names(t, ps) && Mirrors(ps) && Sized(ps) && OffsetsAfter(ps, |ps|)
  }

  /**
   * `@words[name]` read through the hash is the object of the placement
   * `Find` picks, with that placement's states and transitions, and sitting
   * at the offset of its last placement.
   */
  lemma LookupWord(t: Table<Option<HMM>>, ps: seq<Placed>, name: string)
    requires Ready(t, ps)
    ensures name in t.entries <==> Find(ps, name).Some?
    ensures name in t.entries ==>
      var k := Find(ps, name).value; var h := t.entries[name].value;
      h == ps[k].obj && h.stateTransitions == ps[k].transitions &&
      h.offset + |h.states| - 1 == FromState(ps, k) && h.offset == ToState(ps, k)
  {
    if name in t.entries {
      assert name in t.keys;
      var i :| 0 <= i < |t.keys| && t.keys[i] == name;
      assert ps[i].name == name;
      var k := Find(ps, name).value;
      var j := Final(ps, k);
      assert ps[j].states == ps[k].obj.states;
    }
  }

  /**
   * What the bigram loop reads through `@words`: a name is a key exactly
   * when `Find` finds a placement of it, and its object carries that
   * placement's transitions and the span of its last placement.
   */
  ghost predicate Resolves(t: Table<Option<HMM>>, ps: seq<Placed>)
    reads EntryObjects(t)
  {
    Sized(ps) &&
    (forall name :: name in t.entries <==> Find(ps, name).Some?) &&
    forall name :: name in t.entries ==>
      t.entries[name].Some? &&
      var k := Find(ps, name).value; var h := t.entries[name].value;
      h.stateTransitions == ps[k].transitions && h.offset == ToState(ps, k) &&
      h.offset + |h.states| - 1 == FromState(ps, k)
  }

  lemma ReadyResolves(t: Table<Option<HMM>>, ps: seq<Placed>)
    requires Ready(t, ps)
    ensures Resolves(t, ps)
  {
    forall name
      ensures name in t.entries <==> Find(ps, name).Some?
    {
      LookupWord(t, ps, name);
    }
    forall name | name in t.entries
      ensures t.entries[name].Some? &&
        var k := Find(ps, name).value; var h := t.entries[name].value;
        h.stateTransitions == ps[k].transitions && h.offset == ToState(ps, k) &&
        h.offset + |h.states| - 1 == FromState(ps, k)
    {
      LookupWord(t, ps, name);
    }
  }

  /** The first and the last state of `@words[name]` in the sentence network, if the word is known. */
  method WordSpan(t: Table<Option<HMM>>, ghost ps: seq<Placed>, name: string) returns (r: Option<(int, int)>)
    requires Resolves(t, ps)
    ensures r.None? <==> Find(ps, name).None?
    ensures r.Some? ==> r.value.0 == ToState(ps, Find(ps, name).value) && r.value.1 == FromState(ps, Find(ps, name).value)
  {
    if name !in t.entries {
      return None;
    }
    var h := t.entries[name].value;
    return Some((h.offset, h.offset + |h.states| - 1));
  }

  /** `end_transition` of `@words[name]`, for a known word. */
  method WordEnd(t: Table<Option<HMM>>, ghost ps: seq<Placed>, name: string) returns (r: Option<real>)
    requires Resolves(t, ps) && Find(ps, name).Some?
    ensures r == EndTransition(ps[Find(ps, name).value].transitions)
  {
    var h := t.entries[name].value;
    return EndTransition(h.stateTransitions);
  }

  /** The matrix is the sentence matrix's size and the locals index it. */
  predicate Fit(ps: seq<Placed>, m: Matrix, c: Cursor)
  {
    |m| == Offset(ps, |ps|) && Wide(m) && CursorOk(c, |m|)
  }

  /**
   * One line of the bigram file, as the loop body runs it on the hash, the
   * objects' offsets and the two locals.
   */
  method BigramLineStep(t: Table<Option<HMM>>, ghost ps: seq<Placed>, m: Matrix, c: Cursor, line: BigramLine,
                        times: (real, real) -> real)
    returns (r: Result<(Matrix, Cursor), NetError>)
    requires Resolves(t, ps)
    requires Fit(ps, m, c)
    ensures r == BigramStep(ps, m, c, line, times)
  {
    if |line.fields| != 3 {
      return Success((m, c));
    }
    var first := WordSpan(t, ps, line.fields[0]);
    var second := WordSpan(t, ps, line.fields[1]);
    var e := None;
    if first.Some? {
      e := WordEnd(t, ps, line.fields[0]);
    }
    r := WriteLine(ps, m, c, line, times, first, second, e);
  }

  /** The rest of a three-field line once both words have been looked up. */
  method WriteLine(ghost ps: seq<Placed>, m: Matrix, c: Cursor, line: BigramLine, times: (real, real) -> real,
                   first: Option<(int, int)>, second: Option<(int, int)>, e: Option<real>)
    returns (r: Result<(Matrix, Cursor), NetError>)
    requires Sized(ps) && |m| == Offset(ps, |ps|) && Wide(m) && CursorOk(c, |m|) && |line.fields| == 3
    requires first.None? <==> Find(ps, line.fields[0]).None?
    requires first.Some? ==>
               first.value.1 == FromState(ps, Find(ps, line.fields[0]).value) &&
               e == EndTransition(ps[Find(ps, line.fields[0]).value].transitions)
    requires second.None? <==> Find(ps, line.fields[1]).None?
    requires second.Some? ==> second.value.0 == ToState(ps, Find(ps, line.fields[1]).value)
    ensures r == BigramStep(ps, m, c, line, times)
  {
    var from := if first.Some? then Some(first.value.1) else c.from;
    var to := if second.Some? then Some(second.value.0) else c.to;
    assert Cursor(from, to) == Advance(ps, c, line.fields);
    if from.None? || to.None? {
      return Success((m, Cursor(from, to)));
    }
    if first.None? {
      return Failure(UnknownWord(line.fields[0]));
    }
    if e.None? {
      return Failure(NoEndTransition(line.fields[0]));
    }
    var y, x := from.value, to.value;
    assert CursorOk(Cursor(from, to), |m|);
    assert 0 <= y < |m| && 0 <= x < |m| <= |m[y]|;
    return Success((Write(m, y, x, times(line.weight, e.value)), Cursor(from, to)));
  }

  /** Once a bigram line raises, the loop has stopped: later lines change nothing. */
  lemma {:induction false} BigramsSticky(ps: seq<Placed>, m: Matrix, lines: seq<BigramLine>, i: nat, n: nat,
                                         times: (real, real) -> real)
    requires i <= n <= |lines| && Sized(ps) && |m| == Offset(ps, |ps|) && Wide(m)
    requires Bigrams(ps, m, lines, i, times).Failure?
    ensures Bigrams(ps, m, lines, n, times) == Bigrams(ps, m, lines, i, times)
  {
    if i < n {
      BigramsSticky(ps, m, lines, i, n - 1, times);
    }
  }

  /** The state before line `i` fits the sentence matrix, and line `i` takes it one step on. */
  lemma BigramsNext(ps: seq<Placed>, m: Matrix, lines: seq<BigramLine>, i: nat, times: (real, real) -> real)
    requires i < |lines| && Sized(ps) && |m| == Offset(ps, |ps|) && Wide(m)
    requires Bigrams(ps, m, lines, i, times).Success?
    ensures var mc := Bigrams(ps, m, lines, i, times).value;
      Fit(ps, mc.0, mc.1) && Bigrams(ps, m, lines, i + 1, times) == BigramStep(ps, mc.0, mc.1, lines[i], times)
  {
  }

  /** `while (line = file.gets) ... end`, with `from` and `to` surviving from one line to the next. */
  method ApplyBigrams(t: Table<Option<HMM>>, ghost ps: seq<Placed>, m0: Matrix, lines: seq<BigramLine>,
                      times: (real, real) -> real)
    returns (r: Result<(Matrix, Cursor), NetError>)
    requires Resolves(t, ps)
    requires |m0| == Offset(ps, |ps|) && Wide(m0)
    ensures r == Bigrams(ps, m0, lines, |lines|, times)
  {
    r := Success((m0, Cursor(None, None)));
    var i := 0;
    while i < |lines| && r.Success?
      invariant 0 <= i <= |lines| && r == Bigrams(ps, m0, lines, i, times)
    {
      BigramsNext(ps, m0, lines, i, times);
      r := BigramLineStep(t, ps, r.value.0, r.value.1, lines[i], times);
      i := i + 1;
    }
    if i < |lines| {
      BigramsSticky(ps, m0, lines, i, |lines|, times);
    }
  }

  // ---------------------------------------------------------------------
  // make_bigram

  /** `@sentence` with the two location hashes: the joined states, the sentence matrix, word starts and ends. */
  datatype Net = Net(states: seq<State>, transitions: Matrix, starts: map<int, string>, ends: map<int, string>)

  /** `@words` after `@words["<s>"] = @models["sil"]`; a missing "sil" stores nil. */
  function SentenceWords(words: Table<Option<HMM>>, models: map<string, HMM>): (t: Table<Option<HMM>>)
    requires TableOk(words)
    ensures TableOk(t) && "<s>" in t.entries
    ensures t.entries["<s>"] == if "sil" in models then Some(models["sil"]) else None
    ensures forall k :: k in words.entries && k != "<s>" ==> k in t.entries && t.entries[k] == words.entries[k]
    ensures "<s>" in words.entries ==> t.keys == words.keys
    ensures "<s>" !in words.entries ==> t.keys == words.keys + ["<s>"]
  {
    PutSpec(words, "<s>", if "sil" in models then Some(models["sil"]) else None);
    Put(words, "<s>", if "sil" in models then Some(models["sil"]) else None)
  }

  /** A clean "sp" pass has met every word, so none of them is nil. */
  lemma SpErrorAllSet(words: Table<Option<HMM>>, models: map<string, HMM>)
    requires TableOk(words)
    ensures SpError(words, models, |words.keys|).None? ==> AllSet(words)
  {
    SpErrorNone(words, models, |words.keys|);
    if SpError(words, models, |words.keys|).None? {
      forall k | k in words.entries
        ensures words.entries[k].Some?
      {
        assert k in words.keys;
      }
    }
  }

  /** With no nil word and "sil" present, every word of the sentence table is set. */
  lemma SentenceWordsSet(words: Table<Option<HMM>>, models: map<string, HMM>)
    requires TableOk(words) && AllSet(words) && "sil" in models
    ensures AllSet(SentenceWords(words, models))
  {
  }

  /** The sentence network the value-level definitions give for the placements and the bigram lines. */
  predicate Builds(ps: seq<Placed>, lines: seq<BigramLine>, times: (real, real) -> real, r: Result<Net, NetError>)
    requires Sized(ps)
  {
    match SentenceMatrix(ps, lines, times)
    case Failure(e) => r == Failure(e)
    case Success(m) => r == Success(Net(AllStates(ps), m, Starts(ps, |ps|), Ends(ps, |ps|)))
  }

  /** `make_bigram` from the states join on, for a table whose words are all set. */
  method BuildNet(t: Table<Option<HMM>>, ghost ps: seq<Placed>, lines: seq<BigramLine>, times: (real, real) -> real)
    returns (r: Result<Net, NetError>)
    requires TableOk(t) && Names(t, ps) && Mirrors(ps) && Sized(ps)
    modifies EntryObjects(t)`offset
    ensures Builds(ps, lines, times, r)
    ensures r.Success? ==> OffsetsAfter(ps, |ps|)
  {
    var states := JoinStates(t, ps);
    NamesObjects(t, ps);
    var laid := LayoutWords(t, ps, EntryObjects(t), |states|);
    if laid.Failure? {
      assert SentenceMatrix(ps, lines, times) == Failure(laid.error);
      return Failure(laid.error);
    }
    var (m, starts, ends) := laid.value;
    assert Ready(t, ps);
    ReadyResolves(t, ps);
    var bigrams := ApplyBigrams(t, ps, m, lines, times);
    if bigrams.Failure? {
      assert SentenceMatrix(ps, lines, times) == Failure(bigrams.error);
      return Failure(bigrams.error);
    }
    assert SentenceMatrix(ps, lines, times) == Success(bigrams.value.0);
    return Success(Net(states, bigrams.value.0, starts, ends));
  }

  /**
   * `make_bigram`: the "sp" pass, `<s>` bound to "sil", the states joined,
   * every word laid out with its offset written into its object, then the
   * bigram lines. Each way it can raise is the matching `Failure`.
   */
  method MakeBigram(words: Table<Option<HMM>>, models: map<string, HMM>, lines: seq<BigramLine>,
                    times: (real, real) -> real)
    returns (r: Result<Net, NetError>)
    requires TableOk(words) && NonEmptyWords(SentenceWords(words, models))
    modifies EntryObjects(SentenceWords(words, models))`offset
    ensures old(SpError(words, models, |words.keys|)).Some? ==>
              r == Failure(old(SpError(words, models, |words.keys|)).value)
    ensures old(SpError(words, models, |words.keys|)).None? && "sil" !in models ==> r == Failure(NoSil)
    ensures old(SpError(words, models, |words.keys|)).None? && "sil" in models ==>
              var t := SentenceWords(words, models);
              AllSet(t) &&
              var ps := old(Snapshot(t, |t.keys|));
              Sized(ps) && Builds(ps, lines, times, r) && (r.Success? ==> OffsetsAfter(ps, |ps|))
  {
    SpErrorAllSet(words, models);
    var sp := CheckWords(words, models);
    if sp.Some? {
      return Failure(sp.value);
    }
    var t := Put(words, "<s>", if "sil" in models then Some(models["sil"]) else None);
    assert t == SentenceWords(words, models);
    if "sil" !in models {
      return Failure(NoSil);
    }
    SentenceWordsSet(words, models);
    SnapshotSized(t);
    SnapshotMirrors(t);
    ghost var ps := Snapshot(t, |t.keys|);
    assert ps == old(Snapshot(t, |t.keys|));
    r := BuildNet(t, ps, lines, times);
  }
}
