/**
 * The BayesTraits log parser: a line scanner that skips everything up to the
 * header line "Tree No\tLh...", reads the header, and on the first data row
 * after it returns the reduced table. Empty lines are skipped throughout;
 * when no data row follows the header the result is the empty per-tree
 * dictionary.
 */
module Parser {
  import opened Wrappers
  import opened Text
  import opened Lists
  import opened Header
  import opened Reduction

  /** What the parser returns: the table lines, or the empty `per_tree_results` when no data row was read. */
  datatype Output = Table(lines: seq<string>) | NoTrees

  /** `int(text)` */
  function AsInt(text: string): Result<int, ParseError> {
    match ParseInt(text)
    case None => Failure(BadNumber(text))
    case Some(n) => Success(n)
  }

  /**
   * The first data row: its tree number and likelihood are looked up and
   * converted (the likelihood first: Python evaluates the right-hand side of
   * `per_tree_results[int(tree_number)]['likelihood'] = float(likelihood)`
   * before the subscript), then the row is reduced and rendered.
   */
  function ReadRow(s: Schema, line: string, toReal: string -> Option<real>, show: real -> string)
    : Result<seq<string>, ParseError>
  {
    var data := Split(line, '\t');
    var treeText :- FieldAt(data, s.mapping, TreeNumber);
    var likelihood :- NumberAt(data, s.mapping, Likelihood, toReal);
    var tree :- AsInt(treeText);
    var rows :- Reduce(data, s, toReal);
    Success(Render(SortInts(s.characters), rows, show))
  }

  /** Scanning before the header has been read. */
  function SeekHeader(lines: seq<string>, toReal: string -> Option<real>, show: real -> string): Result<Output, ParseError>
    decreases |lines|
  {
    if lines == [] then Success(NoTrees)
    else if lines[0] == "" || !StartsWith(lines[0], HeaderStart) then SeekHeader(lines[1..], toReal, show)
    else
      var s :- HeaderOf(Split(lines[0], '\t'));
      SeekRow(lines[1..], s, toReal, show)
  }

  /** Scanning after the header, for the first data row. */
  function SeekRow(lines: seq<string>, s: Schema, toReal: string -> Option<real>, show: real -> string)
    : Result<Output, ParseError>
    decreases |lines|
  {
    if lines == [] then Success(NoTrees)
    else if lines[0] == "" then SeekRow(lines[1..], s, toReal, show)
    else
      var out :- ReadRow(s, lines[0], toReal, show);
      Success(Table(out))
  }

  /** `parse_reconstruction_output(lines)` */
  function Parse(lines: seq<string>, toReal: string -> Option<real>, show: real -> string): Result<Output, ParseError> {
    SeekHeader(lines, toReal, show)
  }

  /** `parse_reconstruction_output_from_string(output_str)` */
  function ParseString(text: string, toReal: string -> Option<real>, show: real -> string): Result<Output, ParseError> {
    Parse(Split(text, '\n'), toReal, show)
  }

  /** The header loop: classify each field and record it in the column map and the lists. */
  method ReadHeaderFields(fields: seq<string>) returns (r: Result<Schema, ParseError>)
    ensures r == HeaderOf(fields)
  {
    var fieldMapping: map<Column, nat> := map[];
    var allNodes: seq<string> := [];
    var allCharacters: seq<int> := [];
    var statesByCharacter: map<int, seq<string>> := map[];
    ghost var kinds := Classify(fields);
    for i := 0 to |fields|
      invariant Collect(kinds[..i]) == Success(Schema(fieldMapping, allNodes, allCharacters, statesByCharacter))
    {
      var field := fields[i];
      ghost var before := Schema(fieldMapping, allNodes, allCharacters, statesByCharacter);
      CollectNext(fields, i);
      if field == "Tree No" {
        fieldMapping := fieldMapping[TreeNumber := i];
      } else if field == "Lh" {
        fieldMapping := fieldMapping[Likelihood := i];
      } else if StartsWith(field, "q") {
        fieldMapping := fieldMapping[Rate(field) := i];
      } else if Strip(field) != "" {
        var cell := ParseCell(field);
        if cell.Failure? {
          CollectFailurePersists(kinds, i + 1);
          return Failure(cell.error);
        }
        var node, character, state := cell.value.node, cell.value.character, cell.value.state;
        fieldMapping := fieldMapping[Cell(node, character, state) := i];
        if node !in allNodes {
          allNodes := allNodes + [node];
        }
        if character !in allCharacters {
          allCharacters := allCharacters + [character];
        }
        var known := StatesOf(statesByCharacter, character);
        if state !in known {
          statesByCharacter := statesByCharacter[character := known + [state]];
        } else {
          assert statesByCharacter == statesByCharacter[character := known];
        }
        assert Schema(fieldMapping, allNodes, allCharacters, statesByCharacter) == AddColumn(before, i, cell.value);
      }
    }
    assert kinds[..|fields|] == kinds;
    return Success(Schema(fieldMapping, allNodes, allCharacters, statesByCharacter));
  }

  /** The innermost loop: the most probable state of one character at one node. */
  method ChooseState(data: seq<string>, mapping: map<Column, nat>, node: string, character: int, states: seq<string>,
                     toReal: string -> Option<real>) returns (r: Result<Best, ParseError>)
    ensures r == CellBest(data, mapping, node, character, states, toReal)
  {
    var mlState := NoState;
    ghost var probs: seq<real> := [];
    for k := 0 to |states|
      invariant |probs| == k
      invariant ProbabilitiesFrom(data, mapping, node, character, states, toReal, 0, [])
             == ProbabilitiesFrom(data, mapping, node, character, states, toReal, k, probs)
      invariant mlState == ArgMax(states[..k], probs)
    {
      var state := states[k];
      var col := Cell(node, character, state);
      if col !in mapping {
        return Failure(MissingColumn(col));
      }
      if mapping[col] >= |data| {
        return Failure(ShortRow(mapping[col]));
      }
      var prob := toReal(data[mapping[col]]);
      if prob.None? {
        return Failure(BadNumber(data[mapping[col]]));
      }
      assert states[..k + 1][..k] == states[..k] && (probs + [prob.value])[..k] == probs;
      if prob.value > mlState.prob {
        mlState := Best(Some(state), prob.value);
      }
      probs := probs + [prob.value];
    }
    assert states[..|states|] == states;
    return Success(mlState);
  }

  /** The middle loop: one output line for one node, `node` then `state|probability` per character. */
  method NodeLine(data: seq<string>, s: Schema, node: string, chars: seq<int>, toReal: string -> Option<real>,
                  show: real -> string) returns (r: Result<string, ParseError>)
    ensures r == (var cells :- NodeCells(data, s, node, chars, toReal); Success(RenderRow(Row(node, cells), show)))
  {
    var currFields := [node];
    ghost var lists := StateLists(s, chars);
    ghost var cells: seq<Best> := [];
    for j := 0 to |chars|
      invariant |cells| == j
      invariant NodeCells(data, s, node, chars, toReal) == CellsFrom(data, s.mapping, node, chars, lists, toReal, j, cells)
      invariant currFields == [node] + ShowCells(cells, show)
    {
      var states := SortStrings(StatesOf(s.states, chars[j]));
      assert states == lists[j];
      var best := ChooseState(data, s.mapping, node, chars[j], states, toReal);
      if best.Failure? {
        return Failure(best.error);
      }
      ShowCellsSnoc(cells, best.value, show);
      currFields := currFields + [ShowBest(best.value, show)];
      cells := cells + [best.value];
    }
    return Success(Join(currFields, "\t"));
  }

  /** The outer loop: the header line and then one line per node in sorted order. */
  method ReduceRow(data: seq<string>, s: Schema, toReal: string -> Option<real>, show: real -> string)
    returns (r: Result<seq<string>, ParseError>)
    ensures r == (var rows :- Reduce(data, s, toReal); Success(Render(SortInts(s.characters), rows, show)))
  {
    var chars := SortInts(s.characters);
    var nodes := SortStrings(s.nodes);
    var outputLines := [TraitHeader(chars)];
    ghost var rows: seq<Row> := [];
    for i := 0 to |nodes|
      invariant |rows| == i
      invariant Reduce(data, s, toReal) == RowsFrom(data, s, nodes, chars, toReal, i, rows)
      invariant outputLines == [TraitHeader(chars)] + RenderRows(rows, show)
    {
      var line := NodeLine(data, s, nodes[i], chars, toReal, show);
      if line.Failure? {
        return Failure(line.error);
      }
      ghost var cells := NodeCells(data, s, nodes[i], chars, toReal).value;
      outputLines := outputLines + [line.value];
      rows := rows + [Row(nodes[i], cells)];
    }
    return Success(Terminated(outputLines));
  }

  /** The data-row branch of the line loop. */
  method ReadDataRow(s: Schema, line: string, toReal: string -> Option<real>, show: real -> string)
    returns (r: Result<seq<string>, ParseError>)
    ensures r == ReadRow(s, line, toReal, show)
  {
    var dataFields := Split(line, '\t');
    var treeNumber := FieldAt(dataFields, s.mapping, TreeNumber);
    if treeNumber.Failure? {
      return Failure(treeNumber.error);
    }
    var likelihood := FieldAt(dataFields, s.mapping, Likelihood);
    if likelihood.Failure? {
      return Failure(likelihood.error);
    }
    if toReal(likelihood.value).None? {
      return Failure(BadNumber(likelihood.value));
    }
    if ParseInt(treeNumber.value).None? {
      return Failure(BadNumber(treeNumber.value));
    }
    r := ReduceRow(dataFields, s, toReal, show);
  }

  /** `parse_reconstruction_output(lines)`: the two-state line loop. */
  method ParseReconstructionOutput(lines: seq<string>, toReal: string -> Option<real>, show: real -> string)
    returns (r: Result<Output, ParseError>)
    ensures r == Parse(lines, toReal, show)
  {
    var headerParsed := false;
    var schema := EmptySchema;
    for i := 0 to |lines|
      invariant !headerParsed ==> Parse(lines, toReal, show) == SeekHeader(lines[i..], toReal, show)
      invariant headerParsed ==> Parse(lines, toReal, show) == SeekRow(lines[i..], schema, toReal, show)
    {
      var line := lines[i];
      assert lines[i..][0] == line && lines[i..][1..] == lines[i + 1..];
      if line == "" {
        // empty lines are always skipped
      } else if !headerParsed && !StartsWith(line, HeaderStart) {
        // still before the header
      } else {
        var fields := Split(line, '\t');
        if !headerParsed {
          var header := ReadHeaderFields(fields);
          if header.Failure? {
            return Failure(header.error);
          }
          schema := header.value;
          headerParsed := true;
        } else {
          var out := ReadDataRow(schema, line, toReal, show);
          if out.Failure? {
            return Failure(out.error);
          }
          return Success(Table(out.value));
        }
      }
    }
    return Success(NoTrees);
  }

  /** `parse_reconstruction_output_from_string(output_str)` */
  method ParseReconstructionOutputFromString(text: string, toReal: string -> Option<real>, show: real -> string)
    returns (r: Result<Output, ParseError>)
    ensures r == ParseString(text, toReal, show)
  {
    var lines := Split(text, '\n');
    r := ParseReconstructionOutput(lines, toReal, show);
  }

  /** Parsing the text of some lines joined by newlines is parsing those lines. */
  lemma ParseStringOfJoinedLines(lines: seq<string>, toReal: string -> Option<real>, show: real -> string)
    requires |lines| >= 1 && forall i :: 0 <= i < |lines| ==> '\n' !in lines[i]
    ensures ParseString(Join(lines, "\n"), toReal, show) == Parse(lines, toReal, show)
  {
    SplitJoin(lines, '\n');
  }

  predicate NotHeader(line: string) {
    !StartsWith(line, HeaderStart)
  }

  /** Every line before the first header line is ignored, whatever it holds. */
  lemma {:induction false} PreambleIgnored(pre: seq<string>, rest: seq<string>, toReal: string -> Option<real>,
                                           show: real -> string)
    requires forall i :: 0 <= i < |pre| ==> NotHeader(pre[i])
    ensures Parse(pre + rest, toReal, show) == Parse(rest, toReal, show)
    decreases |pre|
  {
    if pre != [] {
      assert (pre + rest)[0] == pre[0] && (pre + rest)[1..] == pre[1..] + rest;
      PreambleIgnored(pre[1..], rest, toReal, show);
    } else {
      assert pre + rest == rest;
    }
  }

  /** A log without a header line gives the empty result. */
  lemma NoHeaderNoTrees(lines: seq<string>, toReal: string -> Option<real>, show: real -> string)
    requires forall i :: 0 <= i < |lines| ==> NotHeader(lines[i])
    ensures Parse(lines, toReal, show) == Success(NoTrees)
  {
    PreambleIgnored(lines, [], toReal, show);
    assert lines + [] == lines;
  }

  predicate NonEmpty(line: string) {
    line != ""
  }

  lemma {:induction false} SeekRowSkipsEmpty(lines: seq<string>, s: Schema, toReal: string -> Option<real>,
                                             show: real -> string)
    ensures SeekRow(Filter(lines, NonEmpty), s, toReal, show) == SeekRow(lines, s, toReal, show)
    decreases |lines|
  {
    if lines != [] {
      SeekRowSkipsEmpty(lines[1..], s, toReal, show);
      if lines[0] != "" {
        var f := Filter(lines, NonEmpty);
        assert f == [lines[0]] + Filter(lines[1..], NonEmpty);
        assert f[0] == lines[0];
      }
    }
  }

  lemma SeekHeaderCons(x: string, rest: seq<string>, toReal: string -> Option<real>, show: real -> string)
    ensures SeekHeader([x] + rest, toReal, show)
         == if x == "" || !StartsWith(x, HeaderStart) then SeekHeader(rest, toReal, show)
            else (var s :- HeaderOf(Split(x, '\t')); SeekRow(rest, s, toReal, show))
  {
    assert ([x] + rest)[0] == x && ([x] + rest)[1..] == rest;
  }

  lemma {:induction false} SeekHeaderSkipsEmpty(lines: seq<string>, toReal: string -> Option<real>, show: real -> string)
    ensures SeekHeader(Filter(lines, NonEmpty), toReal, show) == SeekHeader(lines, toReal, show)
    decreases |lines|
  {
    if lines != [] {
      var x, rest := lines[0], lines[1..];
      assert lines == [x] + rest;
      SeekHeaderSkipsEmpty(rest, toReal, show);
      SeekHeaderCons(x, rest, toReal, show);
      if x != "" {
        assert Filter(lines, NonEmpty) == [x] + Filter(rest, NonEmpty);
        SeekHeaderCons(x, Filter(rest, NonEmpty), toReal, show);
        if StartsWith(x, HeaderStart) {
          var h := HeaderOf(Split(x, '\t'));
          if h.Success? {
            SeekRowSkipsEmpty(rest, h.value, toReal, show);
            assert SeekHeader(lines, toReal, show) == SeekRow(rest, h.value, toReal, show);
            assert SeekHeader(Filter(lines, NonEmpty), toReal, show) == SeekRow(Filter(rest, NonEmpty), h.value, toReal, show);
          } else {
            assert SeekHeader(lines, toReal, show) == Failure(h.error);
            assert SeekHeader(Filter(lines, NonEmpty), toReal, show) == Failure(h.error);
          }
        } else {
          assert SeekHeader(Filter(lines, NonEmpty), toReal, show) == SeekHeader(Filter(rest, NonEmpty), toReal, show);
        }
      } else {
        assert !NonEmpty(x);
        assert Filter(lines, NonEmpty) == Filter(rest, NonEmpty);
      }
    }
  }

  /** Empty lines make no difference anywhere in the log. */
  lemma EmptyLinesIgnored(lines: seq<string>, toReal: string -> Option<real>, show: real -> string)
    ensures Parse(Filter(lines, NonEmpty), toReal, show) == Parse(lines, toReal, show)
  {
    SeekHeaderSkipsEmpty(lines, toReal, show);
  }

  lemma {:induction false} BlanksSkipped(blanks: seq<string>, rest: seq<string>, s: Schema,
                                         toReal: string -> Option<real>, show: real -> string)
    requires forall i :: 0 <= i < |blanks| ==> blanks[i] == ""
    ensures SeekRow(blanks + rest, s, toReal, show) == SeekRow(rest, s, toReal, show)
    decreases |blanks|
  {
    if blanks != [] {
      assert (blanks + rest)[0] == "" && (blanks + rest)[1..] == blanks[1..] + rest;
      BlanksSkipped(blanks[1..], rest, s, toReal, show);
    } else {
      assert blanks + rest == rest;
    }
  }

  /**
   * The first data row after the header decides the result: whatever follows
   * it is never read.
   */
  lemma FirstRowDecides(pre: seq<string>, header: string, blanks: seq<string>, row: string, rest: seq<string>,
                        toReal: string -> Option<real>, show: real -> string)
    requires forall i :: 0 <= i < |pre| ==> NotHeader(pre[i])
    requires StartsWith(header, HeaderStart)
    requires forall i :: 0 <= i < |blanks| ==> blanks[i] == ""
    requires row != ""
    ensures Parse(pre + [header] + blanks + [row] + rest, toReal, show)
         == (var s :- HeaderOf(Split(header, '\t'));
             var out :- ReadRow(s, row, toReal, show);
             Success(Table(out)))
  {
    var tail := [header] + (blanks + ([row] + rest));
    assert pre + [header] + blanks + [row] + rest == pre + tail;
    PreambleIgnored(pre, tail, toReal, show);
    SeekHeaderAtHeader(header, blanks + ([row] + rest), toReal, show);
    var h := HeaderOf(Split(header, '\t'));
    if h.Success? {
      BlanksSkipped(blanks, [row] + rest, h.value, toReal, show);
      SeekRowAtRow(row, rest, h.value, toReal, show);
    }
  }

  lemma SeekHeaderAtHeader(header: string, rest: seq<string>, toReal: string -> Option<real>, show: real -> string)
    requires StartsWith(header, HeaderStart)
    ensures SeekHeader([header] + rest, toReal, show)
         == (var s :- HeaderOf(Split(header, '\t')); SeekRow(rest, s, toReal, show))
  {
    SeekHeaderCons(header, rest, toReal, show);
    assert header != "" by { assert |header| >= |HeaderStart|; }
  }

  lemma SeekRowAtRow(row: string, rest: seq<string>, s: Schema, toReal: string -> Option<real>, show: real -> string)
    requires row != ""
    ensures SeekRow([row] + rest, s, toReal, show) == (var out :- ReadRow(s, row, toReal, show); Success(Table(out)))
  {
    assert ([row] + rest)[0] == row;
  }

  /** A header followed only by empty lines gives the empty result, unless the header itself raises. */
  lemma NoDataRowNoTrees(pre: seq<string>, header: string, blanks: seq<string>,
                         toReal: string -> Option<real>, show: real -> string)
    requires forall i :: 0 <= i < |pre| ==> NotHeader(pre[i])
    requires StartsWith(header, HeaderStart)
    requires forall i :: 0 <= i < |blanks| ==> blanks[i] == ""
    ensures Parse(pre + [header] + blanks, toReal, show)
         == (var s :- HeaderOf(Split(header, '\t')); Success(NoTrees))
  {
    var tail := [header] + blanks;
    assert pre + [header] + blanks == pre + tail;
    PreambleIgnored(pre, tail, toReal, show);
    SeekHeaderAtHeader(header, blanks, toReal, show);
    var h := HeaderOf(Split(header, '\t'));
    if h.Success? {
      BlanksSkipped(blanks, [], h.value, toReal, show);
      assert blanks + [] == blanks;
    }
  }

  /**
   * A data row is read without error exactly when its tree number and
   * likelihood columns exist and convert, and every (node, character, state)
   * probability can be read.
   */
  lemma ReadRowSucceedsIff(s: Schema, line: string, toReal: string -> Option<real>, show: real -> string)
    ensures var data := Split(line, '\t');
      ReadRow(s, line, toReal, show).Success? <==>
        && FieldAt(data, s.mapping, TreeNumber).Success?
        && FieldAt(data, s.mapping, Likelihood).Success?
        && toReal(FieldAt(data, s.mapping, Likelihood).value).Some?
        && ParseInt(FieldAt(data, s.mapping, TreeNumber).value).Some?
        && forall n, c, st :: n in s.nodes && c in s.characters && st in StatesOf(s.states, c) ==>
             Readable(data, s, n, c, st, toReal)
  {
    ReduceSucceedsIffReadable(Split(line, '\t'), s, toReal);
  }
}
