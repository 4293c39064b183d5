/**
 * Reducing the first data row of a BayesTraits log to a table: for every
 * node (sorted) and every character (sorted) the state with the highest
 * reconstructed probability, rendered as `state|probability` under a
 * `#Trait` header.
 *
 * Probabilities come out of the row as text; turning text into a number
 * (`float(...)`) and a number back into text (`str(...)`) are parameters.
 */
module Reduction {
  import opened Wrappers
  import opened Text
  import opened Lists
  import opened Header

  /** `ml_state`: the state chosen so far and its probability; no state before any wins. */
  datatype Best = Best(state: Option<string>, prob: real)

  /** `(None, 0.0)` */
  const NoState := Best(None, 0.0)

  /** One pass of the innermost loop: `if float(prob) > ml_state[1]: ml_state = (state, float(prob))`. */
  function Improve(best: Best, state: string, p: real): Best {
    if p > best.prob then Best(Some(state), p) else best
  }

  /** The innermost loop over the states in order, starting from `(None, 0.0)`. */
  function ArgMax(states: seq<string>, probs: seq<real>): Best
    requires |states| == |probs|
    decreases |states|
  {
    if states == [] then NoState
    else
      var k := |states| - 1;
      Improve(ArgMax(states[..k], probs[..k]), states[k], probs[k])
  }

  /** The winner's probability is at least zero and at least that of every state. */
  lemma {:induction false} ArgMaxIsMaximal(states: seq<string>, probs: seq<real>)
    requires |states| == |probs|
    ensures ArgMax(states, probs).prob >= 0.0
    ensures forall i :: 0 <= i < |probs| ==> probs[i] <= ArgMax(states, probs).prob
    decreases |states|
  {
    if states != [] {
      var k := |states| - 1;
      ArgMaxIsMaximal(states[..k], probs[..k]);
      assert forall i :: 0 <= i < k ==> probs[i] == probs[..k][i];
    }
  }

  /** No state is chosen exactly when no probability exceeds zero; the result is then `(None, 0.0)`. */
  lemma {:induction false} ArgMaxNone(states: seq<string>, probs: seq<real>)
    requires |states| == |probs|
    ensures ArgMax(states, probs).state.None? <==> forall i :: 0 <= i < |probs| ==> probs[i] <= 0.0
    ensures ArgMax(states, probs).state.None? ==> ArgMax(states, probs) == NoState
    decreases |states|
  {
    if states != [] {
      var k := |states| - 1;
      ArgMaxNone(states[..k], probs[..k]);
      ArgMaxIsMaximal(states[..k], probs[..k]);
      assert forall i :: 0 <= i < k ==> probs[i] == probs[..k][i];
      var b := ArgMax(states[..k], probs[..k]);
      if b.state.Some? {
        assert exists i :: 0 <= i < k && probs[..k][i] > 0.0;
      }
    }
  }

  /**
   * A chosen state is the first, in the order given, whose probability is
   * the maximum: every state before it has a strictly smaller probability.
   */
  lemma {:induction false} ArgMaxEarliest(states: seq<string>, probs: seq<real>)
    requires |states| == |probs|
    ensures var b := ArgMax(states, probs);
      b.state.Some? ==> exists i :: 0 <= i < |states| && states[i] == b.state.value && probs[i] == b.prob
                                    && forall j :: 0 <= j < i ==> probs[j] < b.prob
    decreases |states|
  {
    if states != [] {
      var k := |states| - 1;
      var b0 := ArgMax(states[..k], probs[..k]);
      var b := ArgMax(states, probs);
      ArgMaxEarliest(states[..k], probs[..k]);
      ArgMaxIsMaximal(states[..k], probs[..k]);
      ArgMaxNone(states[..k], probs[..k]);
      assert forall i :: 0 <= i < k ==> probs[i] == probs[..k][i] && states[i] == states[..k][i];
      if probs[k] > b0.prob {
        assert forall j :: 0 <= j < k ==> probs[j] < b.prob;
        assert states[k] == b.state.value && probs[k] == b.prob;
      } else if b.state.Some? {
        var i :| 0 <= i < k && states[..k][i] == b0.state.value && probs[..k][i] == b0.prob
                 && forall j :: 0 <= j < i ==> probs[..k][j] < b0.prob;
        assert states[i] == b.state.value && probs[i] == b.prob;
      }
    }
  }

  /** `data_fields[field_mapping[col]]`: KeyError if the header lacked the column, IndexError if the row is short. */
  function FieldAt(data: seq<string>, mapping: map<Column, nat>, col: Column): Result<string, ParseError> {
    if col !in mapping then Failure(MissingColumn(col))
    else if mapping[col] >= |data| then Failure(ShortRow(mapping[col]))
    else Success(data[mapping[col]])
  }

  /** `float(data_fields[field_mapping[col]])` */
  function NumberAt(data: seq<string>, mapping: map<Column, nat>, col: Column, toReal: string -> Option<real>)
    : Result<real, ParseError>
  {
    var text :- FieldAt(data, mapping, col);
    match toReal(text)
    case None => Failure(BadNumber(text))
    case Some(p) => Success(p)
  }

  /** The probabilities of `states[k..]` for one node and character, read in order after `acc`. */
  function ProbabilitiesFrom(data: seq<string>, mapping: map<Column, nat>, node: string, c: int, states: seq<string>,
                             toReal: string -> Option<real>, k: nat, acc: seq<real>): (r: Result<seq<real>, ParseError>)
    requires k <= |states|
    ensures r.Success? ==> |r.value| == |acc| + |states| - k
    decreases |states| - k
  {
    if k == |states| then Success(acc)
    else
      var p :- NumberAt(data, mapping, Cell(node, c, states[k]), toReal);
      ProbabilitiesFrom(data, mapping, node, c, states, toReal, k + 1, acc + [p])
  }

  /** Reading the probabilities succeeds exactly when every state's field can be read, and gives those values. */
  lemma {:induction false} ProbabilitiesFromSpec(data: seq<string>, mapping: map<Column, nat>, node: string, c: int,
                                                 states: seq<string>, toReal: string -> Option<real>, k: nat, acc: seq<real>)
    requires k <= |states|
    ensures var r := ProbabilitiesFrom(data, mapping, node, c, states, toReal, k, acc);
      && (r.Success? <==> forall j :: k <= j < |states| ==> NumberAt(data, mapping, Cell(node, c, states[j]), toReal).Success?)
      && (r.Success? ==>
            && |r.value| == |acc| + |states| - k && r.value[..|acc|] == acc
            && forall j :: k <= j < |states| ==>
                 NumberAt(data, mapping, Cell(node, c, states[j]), toReal) == Success(r.value[|acc| + j - k]))
    decreases |states| - k
  {
    if k < |states| {
      var n := NumberAt(data, mapping, Cell(node, c, states[k]), toReal);
      if n.Success? {
        ProbabilitiesFromSpec(data, mapping, node, c, states, toReal, k + 1, acc + [n.value]);
        var r := ProbabilitiesFrom(data, mapping, node, c, states, toReal, k, acc);
        if r.Success? {
          assert r.value[..|acc| + 1][..|acc|] == acc;
        }
      }
    }
  }

  /** One table cell: the innermost loop for one node and one character, over its sorted states. */
  function CellBest(data: seq<string>, mapping: map<Column, nat>, node: string, c: int, states: seq<string>,
                    toReal: string -> Option<real>): Result<Best, ParseError>
  {
    var probs :- ProbabilitiesFrom(data, mapping, node, c, states, toReal, 0, []);
    Success(ArgMax(states, probs))
  }

  /** The states of a character in `sorted` order. */
  function SortedStates(s: Schema, c: int): seq<string> {
    SortStrings(StatesOf(s.states, c))
  }

  /** The sorted state lists of `chars`, one per character. */
  function StateLists(s: Schema, chars: seq<int>): (r: seq<seq<string>>)
    ensures |r| == |chars| && forall j :: 0 <= j < |chars| ==> r[j] == SortedStates(s, chars[j])
  {
    seq(|chars|, j requires 0 <= j < |chars| => SortedStates(s, chars[j]))
  }

  /** The cells of `chars[k..]` for one node, each over its list of states in `lists`, after `acc`. */
  function CellsFrom(data: seq<string>, mapping: map<Column, nat>, node: string, chars: seq<int>, lists: seq<seq<string>>,
                     toReal: string -> Option<real>, k: nat, acc: seq<Best>): Result<seq<Best>, ParseError>
    requires k <= |chars| == |lists|
    decreases |chars| - k
  {
    if k == |chars| then Success(acc)
    else
      var b :- CellBest(data, mapping, node, chars[k], lists[k], toReal);
      CellsFrom(data, mapping, node, chars, lists, toReal, k + 1, acc + [b])
  }

  /** A node's row: the node name and one cell per character. */
  datatype Row = Row(node: string, cells: seq<Best>)

  /** The cells of one node's row, over the sorted characters `chars`. */
  function NodeCells(data: seq<string>, s: Schema, node: string, chars: seq<int>, toReal: string -> Option<real>)
    : Result<seq<Best>, ParseError>
  {
    CellsFrom(data, s.mapping, node, chars, StateLists(s, chars), toReal, 0, [])
  }

  /** The rows of `nodes[k..]`, after `acc`. */
  function RowsFrom(data: seq<string>, s: Schema, nodes: seq<string>, chars: seq<int>, toReal: string -> Option<real>,
                    k: nat, acc: seq<Row>): Result<seq<Row>, ParseError>
    requires k <= |nodes|
    decreases |nodes| - k
  {
    if k == |nodes| then Success(acc)
    else
      var cells :- NodeCells(data, s, nodes[k], chars, toReal);
      RowsFrom(data, s, nodes, chars, toReal, k + 1, acc + [Row(nodes[k], cells)])
  }

  /** The whole reduction: every node in sorted order, every character in sorted order. */
  function Reduce(data: seq<string>, s: Schema, toReal: string -> Option<real>): Result<seq<Row>, ParseError> {
    RowsFrom(data, s, SortStrings(s.nodes), SortInts(s.characters), toReal, 0, [])
  }

  lemma {:induction false} CellsFromSucceeds(data: seq<string>, mapping: map<Column, nat>, node: string, chars: seq<int>,
                                             lists: seq<seq<string>>, toReal: string -> Option<real>, k: nat, acc: seq<Best>)
    requires k <= |chars| == |lists|
    ensures CellsFrom(data, mapping, node, chars, lists, toReal, k, acc).Success? <==> forall j :: k <= j < |chars| ==>
              CellBest(data, mapping, node, chars[j], lists[j], toReal).Success?
    decreases |chars| - k
  {
    if k < |chars| {
      var b := CellBest(data, mapping, node, chars[k], lists[k], toReal);
      if b.Success? {
        CellsFromSucceeds(data, mapping, node, chars, lists, toReal, k + 1, acc + [b.value]);
      }
    }
  }

  lemma {:induction false} CellsFromValues(data: seq<string>, mapping: map<Column, nat>, node: string, chars: seq<int>,
                                           lists: seq<seq<string>>, toReal: string -> Option<real>, k: nat, acc: seq<Best>)
    requires k <= |chars| == |lists|
    requires CellsFrom(data, mapping, node, chars, lists, toReal, k, acc).Success?
    ensures var r := CellsFrom(data, mapping, node, chars, lists, toReal, k, acc).value;
      && |r| == |acc| + |chars| - k && r[..|acc|] == acc
      && forall j :: k <= j < |chars| ==> CellBest(data, mapping, node, chars[j], lists[j], toReal) == Success(r[|acc| + j - k])
    decreases |chars| - k
  {
    if k < |chars| {
      var b := CellBest(data, mapping, node, chars[k], lists[k], toReal);
      var acc' := acc + [b.value];
      CellsFromValues(data, mapping, node, chars, lists, toReal, k + 1, acc');
      var r := CellsFrom(data, mapping, node, chars, lists, toReal, k + 1, acc').value;
      assert r[..|acc|] == r[..|acc'|][..|acc|];
      assert r[|acc|] == r[..|acc'|][|acc|];
    }
  }

  /** A node's cells are read without error exactly when every one of its cells is. */
  lemma NodeCellsSucceeds(data: seq<string>, s: Schema, node: string, chars: seq<int>, toReal: string -> Option<real>)
    ensures NodeCells(data, s, node, chars, toReal).Success? <==> forall j :: 0 <= j < |chars| ==>
              CellBest(data, s.mapping, node, chars[j], SortedStates(s, chars[j]), toReal).Success?
  {
    var lists := StateLists(s, chars);
    CellsFromSucceeds(data, s.mapping, node, chars, lists, toReal, 0, []);
  }

  /** A node's cells, once read, are one per character: that character's cell. */
  lemma NodeCellsValues(data: seq<string>, s: Schema, node: string, chars: seq<int>, toReal: string -> Option<real>)
    requires NodeCells(data, s, node, chars, toReal).Success?
    ensures var r := NodeCells(data, s, node, chars, toReal).value;
      && |r| == |chars|
      && forall j :: 0 <= j < |chars| ==>
           CellBest(data, s.mapping, node, chars[j], SortedStates(s, chars[j]), toReal) == Success(r[j])
  {
    var lists := StateLists(s, chars);
    CellsFromValues(data, s.mapping, node, chars, lists, toReal, 0, []);
  }

  lemma {:induction false} RowsFromSpec(data: seq<string>, s: Schema, nodes: seq<string>, chars: seq<int>,
                                        toReal: string -> Option<real>, k: nat, acc: seq<Row>)
    requires k <= |nodes|
    ensures var r := RowsFrom(data, s, nodes, chars, toReal, k, acc);
      && (r.Success? <==> forall j :: k <= j < |nodes| ==> NodeCells(data, s, nodes[j], chars, toReal).Success?)
      && (r.Success? ==>
            && |r.value| == |acc| + |nodes| - k && r.value[..|acc|] == acc
            && forall j :: k <= j < |nodes| ==>
                 Success(r.value[|acc| + j - k]) == (var cells :- NodeCells(data, s, nodes[j], chars, toReal); Success(Row(nodes[j], cells))))
    decreases |nodes| - k
  {
    if k < |nodes| {
      var cs := NodeCells(data, s, nodes[k], chars, toReal);
      if cs.Success? {
        RowsFromSpec(data, s, nodes, chars, toReal, k + 1, acc + [Row(nodes[k], cs.value)]);
        var r := RowsFrom(data, s, nodes, chars, toReal, k, acc);
        if r.Success? {
          assert r.value[..|acc| + 1][..|acc|] == acc;
        }
      }
    }
  }

  /** Whether the row holds a readable probability for one (node, character, state). */
  predicate Readable(data: seq<string>, s: Schema, node: string, c: int, st: string, toReal: string -> Option<real>) {
    NumberAt(data, s.mapping, Cell(node, c, st), toReal).Success?
  }

  /**
   * The table has one row per node in sorted order, each with one cell per
   * character in sorted order, and the cell is the arg-max over that
   * character's sorted states of the probabilities the row holds.
   */
  lemma ReduceShape(data: seq<string>, s: Schema, toReal: string -> Option<real>)
    requires Reduce(data, s, toReal).Success?
    ensures var rows := Reduce(data, s, toReal).value;
      var nodes, chars := SortStrings(s.nodes), SortInts(s.characters);
      && |rows| == |nodes|
      && forall i :: 0 <= i < |rows| ==>
           && rows[i].node == nodes[i] && |rows[i].cells| == |chars|
           && forall j :: 0 <= j < |chars| ==>
                CellBest(data, s.mapping, nodes[i], chars[j], SortedStates(s, chars[j]), toReal) == Success(rows[i].cells[j])
  {
    var nodes, chars := SortStrings(s.nodes), SortInts(s.characters);
    RowsFromSpec(data, s, nodes, chars, toReal, 0, []);
    var rows := Reduce(data, s, toReal).value;
    forall i | 0 <= i < |rows|
      ensures rows[i].node == nodes[i] && |rows[i].cells| == |chars|
      ensures forall j :: 0 <= j < |chars| ==>
                CellBest(data, s.mapping, nodes[i], chars[j], SortedStates(s, chars[j]), toReal) == Success(rows[i].cells[j])
    {
      var cs := NodeCells(data, s, nodes[i], chars, toReal);
      assert cs.Success? && rows[i] == Row(nodes[i], cs.value);
      NodeCellsValues(data, s, nodes[i], chars, toReal);
    }
  }

  /** A cell can be computed exactly when each of its states' probabilities can be read. */
  lemma CellBestSucceeds(data: seq<string>, mapping: map<Column, nat>, node: string, c: int, states: seq<string>,
                         toReal: string -> Option<real>)
    ensures CellBest(data, mapping, node, c, states, toReal).Success?
        <==> forall j :: 0 <= j < |states| ==> NumberAt(data, mapping, Cell(node, c, states[j]), toReal).Success?
  {
    ProbabilitiesFromSpec(data, mapping, node, c, states, toReal, 0, []);
  }

  /** The cell for a node and character picks the arg-max of the probabilities the row holds for its sorted states. */
  lemma CellBestIsArgMax(data: seq<string>, mapping: map<Column, nat>, node: string, c: int, states: seq<string>,
                         toReal: string -> Option<real>)
    requires CellBest(data, mapping, node, c, states, toReal).Success?
    ensures forall j :: 0 <= j < |states| ==> NumberAt(data, mapping, Cell(node, c, states[j]), toReal).Success?
    ensures var b := CellBest(data, mapping, node, c, states, toReal).value;
      && b.prob >= 0.0
      && (forall j :: 0 <= j < |states| ==> NumberAt(data, mapping, Cell(node, c, states[j]), toReal).value <= b.prob)
      && (b.state.None? <==> forall j :: 0 <= j < |states| ==> NumberAt(data, mapping, Cell(node, c, states[j]), toReal).value <= 0.0)
      && (b.state.None? ==> b == NoState)
      && (b.state.Some? ==>
            exists i :: (0 <= i < |states| && states[i] == b.state.value
              && NumberAt(data, mapping, Cell(node, c, states[i]), toReal) == Success(b.prob)
              && forall j :: 0 <= j < i ==> NumberAt(data, mapping, Cell(node, c, states[j]), toReal).value < b.prob))
  {
    ProbabilitiesFromSpec(data, mapping, node, c, states, toReal, 0, []);
    var probs := ProbabilitiesFrom(data, mapping, node, c, states, toReal, 0, []).value;
    ArgMaxIsMaximal(states, probs);
    ArgMaxNone(states, probs);
    ArgMaxEarliest(states, probs);
  }

  lemma SortedStringsMembers(xs: seq<string>, x: string)
    ensures x in SortStrings(xs) <==> x in xs
  {
    var r := SortStrings(xs);
    assert x in r <==> x in multiset(r);
    assert x in xs <==> x in multiset(xs);
  }

  lemma SortedIntsMembers(xs: seq<int>, x: int)
    ensures x in SortInts(xs) <==> x in xs
  {
    var r := SortInts(xs);
    assert x in r <==> x in multiset(r);
    assert x in xs <==> x in multiset(xs);
  }

  /**
   * The reduction succeeds exactly when the row holds a readable probability
   * for every node, every character and every state of that character; in
   * particular a combination the header never named makes it fail.
   */
  lemma ReduceSucceedsIffReadable(data: seq<string>, s: Schema, toReal: string -> Option<real>)
    ensures Reduce(data, s, toReal).Success? <==>
      forall n, c, st :: n in s.nodes && c in s.characters && st in StatesOf(s.states, c) ==> Readable(data, s, n, c, st, toReal)
  {
    if Reduce(data, s, toReal).Success? {
      SucceededAllReadable(data, s, toReal);
    } else {
      FailedSomeUnreadable(data, s, toReal);
    }
  }

  lemma SucceededAllReadable(data: seq<string>, s: Schema, toReal: string -> Option<real>)
    requires Reduce(data, s, toReal).Success?
    ensures forall n, c, st :: n in s.nodes && c in s.characters && st in StatesOf(s.states, c) ==> Readable(data, s, n, c, st, toReal)
  {
    var nodes, chars := SortStrings(s.nodes), SortInts(s.characters);
    RowsFromSpec(data, s, nodes, chars, toReal, 0, []);
    forall n, c, st | n in s.nodes && c in s.characters && st in StatesOf(s.states, c)
      ensures Readable(data, s, n, c, st, toReal)
    {
      SortedStringsMembers(s.nodes, n);
      SortedIntsMembers(s.characters, c);
      SortedStringsMembers(StatesOf(s.states, c), st);
      var i :| 0 <= i < |nodes| && nodes[i] == n;
      var j :| 0 <= j < |chars| && chars[j] == c;
      var k :| 0 <= k < |SortedStates(s, c)| && SortedStates(s, c)[k] == st;
      NodeCellsValues(data, s, n, chars, toReal);
      CellBestSucceeds(data, s.mapping, n, c, SortedStates(s, c), toReal);
    }
  }

  lemma FailedSomeUnreadable(data: seq<string>, s: Schema, toReal: string -> Option<real>)
    requires Reduce(data, s, toReal).Failure?
    ensures exists n, c, st :: n in s.nodes && c in s.characters && st in StatesOf(s.states, c) && !Readable(data, s, n, c, st, toReal)
  {
    var nodes, chars := SortStrings(s.nodes), SortInts(s.characters);
    RowsFromSpec(data, s, nodes, chars, toReal, 0, []);
    var i :| 0 <= i < |nodes| && NodeCells(data, s, nodes[i], chars, toReal).Failure?;
    NodeCellsSucceeds(data, s, nodes[i], chars, toReal);
    var j :| 0 <= j < |chars| && CellBest(data, s.mapping, nodes[i], chars[j], SortedStates(s, chars[j]), toReal).Failure?;
    CellBestSucceeds(data, s.mapping, nodes[i], chars[j], SortedStates(s, chars[j]), toReal);
    var k :| 0 <= k < |SortedStates(s, chars[j])|
             && !Readable(data, s, nodes[i], chars[j], SortedStates(s, chars[j])[k], toReal);
    SortedStringsMembers(s.nodes, nodes[i]);
    SortedIntsMembers(s.characters, chars[j]);
    SortedStringsMembers(StatesOf(s.states, chars[j]), SortedStates(s, chars[j])[k]);
  }

  /** A (node, character, state) combination the header never named makes the reduction fail. */
  lemma MissingCombinationFails(data: seq<string>, s: Schema, toReal: string -> Option<real>, n: string, c: int, st: string)
    requires n in s.nodes && c in s.characters && st in StatesOf(s.states, c)
    requires Cell(n, c, st) !in s.mapping
    ensures Reduce(data, s, toReal).Failure?
  {
    ReduceSucceedsIffReadable(data, s, toReal);
    assert !Readable(data, s, n, c, st, toReal);
  }

  /** `str(ml_state[0]) + "|" + str(ml_state[1])` */
  function ShowBest(b: Best, show: real -> string): string {
    (if b.state.Some? then b.state.value else "None") + "|" + show(b.prob)
  }

  function ShowCells(cells: seq<Best>, show: real -> string): (r: seq<string>)
    ensures |r| == |cells| && forall j :: 0 <= j < |cells| ==> r[j] == ShowBest(cells[j], show)
  {
    seq(|cells|, j requires 0 <= j < |cells| => ShowBest(cells[j], show))
  }

  lemma ShowCellsSnoc(cells: seq<Best>, b: Best, show: real -> string)
    ensures ShowCells(cells + [b], show) == ShowCells(cells, show) + [ShowBest(b, show)]
  {
  }

  function IntStrings(chars: seq<int>): (r: seq<string>)
    ensures |r| == |chars| && forall j :: 0 <= j < |chars| ==> r[j] == IntToString(chars[j])
  {
    seq(|chars|, j requires 0 <= j < |chars| => IntToString(chars[j]))
  }

  /** `"#" + "\t".join(["Trait"] + map(str, sorted(all_characters)))` */
  function TraitHeader(chars: seq<int>): string {
    "#" + Join(["Trait"] + IntStrings(chars), "\t")
  }

  /** `"\t".join(curr_fields)` for one node. */
  function RenderRow(row: Row, show: real -> string): string {
    Join([row.node] + ShowCells(row.cells, show), "\t")
  }

  function RenderRows(rows: seq<Row>, show: real -> string): (r: seq<string>)
    ensures |r| == |rows| && forall i :: 0 <= i < |rows| ==> r[i] == RenderRow(rows[i], show)
  {
    seq(|rows|, i requires 0 <= i < |rows| => RenderRow(rows[i], show))
  }

  /** `[l + "\n" for l in output_lines]` */
  function Render(chars: seq<int>, rows: seq<Row>, show: real -> string): seq<string> {
    Terminated([TraitHeader(chars)] + RenderRows(rows, show))
  }

  /**
   * Cut at tabs, a rendered row gives back the node and then one
   * `state|probability` field per character, provided neither the node,
   * nor any chosen state, nor any shown probability holds a tab.
   */
  lemma RenderedRowFields(row: Row, show: real -> string)
    requires '\t' !in row.node
    requires forall j :: 0 <= j < |row.cells| ==> '\t' !in ShowBest(row.cells[j], show)
    ensures Split(RenderRow(row, show), '\t') == [row.node] + ShowCells(row.cells, show)
    ensures |Split(RenderRow(row, show), '\t')| == 1 + |row.cells|
  {
    var parts := [row.node] + ShowCells(row.cells, show);
    forall i | 0 <= i < |parts| ensures '\t' !in parts[i] {
      if i > 0 { assert parts[i] == ShowBest(row.cells[i - 1], show); }
    }
    SplitJoin(parts, '\t');
  }

  /** The output header is "#Trait" followed by one field per character, in sorted order. */
  lemma TraitHeaderFields(chars: seq<int>)
    ensures Split(TraitHeader(chars), '\t') == ["#Trait"] + IntStrings(chars)
  {
    var parts := ["Trait"] + IntStrings(chars);
    forall i | 0 <= i < |parts| ensures '\t' !in parts[i] {
      if i > 0 {
        IntStringHasNoTab(chars[i - 1]);
      }
    }
    JoinFront("#", "Trait", IntStrings(chars), "\t");
    assert "#" + "Trait" == "#Trait";
    var hashed := ["#Trait"] + IntStrings(chars);
    forall i | 0 <= i < |hashed| ensures '\t' !in hashed[i] {
      if i > 0 { assert hashed[i] == parts[i]; }
    }
    SplitJoin(hashed, '\t');
  }

  lemma IntStringHasNoTab(n: int)
    ensures '\t' !in IntToString(n)
  {
    var m: nat := if n < 0 then -n else n;
    assert AllDigits(NatToString(m));
  }

  /** The rendered output has the header line and then one line per row, each ending in a newline. */
  lemma RenderShape(chars: seq<int>, rows: seq<Row>, show: real -> string)
    ensures var out := Render(chars, rows, show);
      && |out| == 1 + |rows|
      && out[0] == TraitHeader(chars) + "\n"
      && forall i :: 0 <= i < |rows| ==> out[i + 1] == RenderRow(rows[i], show) + "\n"
  {
    var lines := [TraitHeader(chars)] + RenderRows(rows, show);
    assert forall i :: 0 <= i < |rows| ==> lines[i + 1] == RenderRow(rows[i], show);
  }
}
