/**
 * The header row of a BayesTraits log: the line starting "Tree No\tLh",
 * cut at tabs. Each field names one column: the tree number, the log
 * likelihood, a rate (`q01`, `q10`, ...) or a reconstructed probability
 * `Node-Character(<int>)-State(<state>)`. Reading the header builds the
 * column map and the deduplicated lists of nodes, characters and states per
 * character, each in first-seen order.
 */
module Header {
  import opened Wrappers
  import opened Text
  import opened Lists

  /** The line that opens the result table. */
  const HeaderStart := "Tree No\tLh"

  /**
   * The key under which a column's index is remembered. The source keys its
   * dictionary by strings ("tree_number", "likelihood", "rate_<field>" and
   * "<node>_<character>_<state>"); this key is the structured form of those.
   */
  datatype Column =
    | TreeNumber
    | Likelihood
    | Rate(name: string)
    | Cell(node: string, character: int, state: string)

  /** Everything that makes the parser raise, named after the Python exception. */
  datatype ParseError =
      /** ValueError: a probability field does not split on '-' into exactly three parts. */
    | BadFieldShape(field: string)
      /** IndexError: the character or state part has no '('. */
    | MissingParenthesis(field: string)
      /** ValueError: the text between the parentheses of the character is not an integer. */
    | BadCharacter(field: string)
      /** KeyError: a column the data row needs was not in the header. */
    | MissingColumn(column: Column)
      /** IndexError: the data row has no field at the column's index. */
    | ShortRow(index: nat)
      /** ValueError: a number field cannot be converted. */
    | BadNumber(text: string)

  /** `x.split("(")[1].split(")")[0]`, or None where indexing the split raises: exactly when x has no '('. */
  function Parenthesized(x: string): (r: Option<string>)
    ensures r.None? <==> '(' !in x
  {
    SplitCount(x, '(');
    var pieces := Split(x, '(');
    if |pieces| < 2 then None else Some(Split(pieces[1], ')')[0])
  }

  /**
   * A probability field `node-Character(c)-State(s)`. It must split on '-'
   * into exactly three parts (else ValueError), the second and third parts
   * must hold a '(' (else IndexError), and the text between the second
   * part's parentheses must be an integer (else ValueError). The cell is the
   * stripped node, that integer and the text between the third part's
   * parentheses.
   */
  function ParseCell(field: string): (r: Result<Column, ParseError>)
    ensures var parts := Split(field, '-');
      && (|parts| != 3 ==> r == Failure(BadFieldShape(field)))
      && (|parts| == 3 && '(' !in parts[1] ==> r == Failure(MissingParenthesis(field)))
      && (|parts| == 3 && '(' in parts[1] && ParseInt(Parenthesized(parts[1]).value).None? ==>
            r == Failure(BadCharacter(field)))
      && (|parts| == 3 && '(' in parts[1] && ParseInt(Parenthesized(parts[1]).value).Some? && '(' !in parts[2] ==>
            r == Failure(MissingParenthesis(field)))
      && (r.Success? <==> |parts| == 3 && '(' in parts[1] && '(' in parts[2] && ParseInt(Parenthesized(parts[1]).value).Some?)
      && (r.Success? ==>
            && r.value.Cell?
            && r.value.node == Strip(parts[0])
            && ParseInt(Parenthesized(parts[1]).value) == Some(r.value.character)
            && Parenthesized(parts[2]) == Some(r.value.state))
  {
    var parts := Split(field, '-');
    if |parts| != 3 then Failure(BadFieldShape(field))
    else
      match Parenthesized(parts[1])
      case None => Failure(MissingParenthesis(field))
      case Some(characterText) =>
        match ParseInt(characterText)
        case None => Failure(BadCharacter(field))
        case Some(character) =>
          match Parenthesized(parts[2])
          case None => Failure(MissingParenthesis(field))
          case Some(state) => Success(Cell(Strip(parts[0]), character, state))
  }

  /** What one header field names; `None` for a whitespace-only field, which is skipped. */
  function ClassifyField(field: string): Result<Option<Column>, ParseError> {
    if field == "Tree No" then Success(Some(TreeNumber))
    else if field == "Lh" then Success(Some(Likelihood))
    else if StartsWith(field, "q") then Success(Some(Rate(field)))
    else if Strip(field) == "" then Success(None)
    else
      match ParseCell(field)
      case Failure(e) => Failure(e)
      case Success(col) => Success(Some(col))
  }

  /** The text of a probability field for a given cell. */
  function CellField(node: string, character: int, state: string): string {
    Join([node, "Character(" + IntToString(character) + ")", "State(" + state + ")"], "-")
  }

  /**
   * What reading a header gathers: `field_mapping`, `all_nodes`,
   * `all_characters` and `states_by_character`.
   */
  datatype Schema = Schema(mapping: map<Column, nat>, nodes: seq<string>, characters: seq<int>,
                           states: map<int, seq<string>>)

  const EmptySchema := Schema(map[], [], [], map[])

  /** `states_by_character[c]` of a defaultdict(list): a missing character has no states. */
  function StatesOf(states: map<int, seq<string>>, c: int): seq<string> {
    if c in states then states[c] else []
  }

  /** Recording that column `col` sits at index `i`. */
  function AddColumn(s: Schema, i: nat, col: Column): Schema {
    match col
    case Cell(node, c, st) =>
      Schema(s.mapping[col := i], AppendNew(s.nodes, node), AppendNew(s.characters, c),
             s.states[c := AppendNew(StatesOf(s.states, c), st)])
    case _ => s.(mapping := s.mapping[col := i])
  }

  /** What classifying one field gives. */
  type Kind = Result<Option<Column>, ParseError>

  /** What each header field names, field by field. */
  function Classify(fields: seq<string>): (r: seq<Kind>)
    ensures |r| == |fields| && forall i :: 0 <= i < |fields| ==> r[i] == ClassifyField(fields[i])
  {
    seq(|fields|, i requires 0 <= i < |fields| => ClassifyField(fields[i]))
  }

  /** The header loop over the classified fields, stopping at the first one that raises. */
  function Collect(kinds: seq<Kind>): Result<Schema, ParseError>
    decreases |kinds|
  {
    if kinds == [] then Success(EmptySchema)
    else
      var last := |kinds| - 1;
      var s :- Collect(kinds[..last]);
      var kind :- kinds[last];
      Success(if kind.Some? then AddColumn(s, last, kind.value) else s)
  }

  /** Reading the header row cut into `fields`. */
  function HeaderOf(fields: seq<string>): Result<Schema, ParseError> {
    Collect(Classify(fields))
  }

  /**
   * The lists hold no duplicates, and they are exactly the nodes, the
   * characters and the states per character of the probability columns.
   */
  ghost predicate Consistent(s: Schema) {
    && NoDuplicates(s.nodes)
    && NoDuplicates(s.characters)
    && (forall c :: c in s.states <==> c in s.characters)
    && (forall c :: c in s.states ==> NoDuplicates(s.states[c]))
    && CellsListed(s)
    && ListsFromCells(s)
  }

  /** Every probability column's node, character and state is listed. */
  ghost predicate CellsListed(s: Schema) {
    forall col :: col in s.mapping && col.Cell? ==>
      col.node in s.nodes && col.character in s.characters && col.state in StatesOf(s.states, col.character)
  }

  /** Everything listed comes from some probability column. */
  ghost predicate ListsFromCells(s: Schema) {
    && (forall n :: n in s.nodes ==> exists c, st :: Cell(n, c, st) in s.mapping)
    && (forall c :: c in s.characters ==> exists n, st :: Cell(n, c, st) in s.mapping)
    && (forall c, st :: c in s.states && st in s.states[c] ==> exists n :: Cell(n, c, st) in s.mapping)
  }

  /** Every column in the map points back at a field naming it, and that is the last such field; every named column is in the map. */
  ghost predicate MapsKinds(s: Schema, kinds: seq<Kind>) {
    && (forall col :: col in s.mapping ==>
          s.mapping[col] < |kinds| && kinds[s.mapping[col]] == Success(Some(col))
          && forall j :: s.mapping[col] < j < |kinds| ==> kinds[j] != Success(Some(col)))
    && (forall i :: 0 <= i < |kinds| && kinds[i].Success? && kinds[i].value.Some? ==>
          kinds[i].value.value in s.mapping)
  }

  predicate IsPrefix<T(==)>(a: seq<T>, b: seq<T>) {
    |a| <= |b| && b[..|a|] == a
  }

  lemma AddColumnConsistent(s: Schema, i: nat, col: Column)
    requires Consistent(s)
    ensures Consistent(AddColumn(s, i, col))
  {
    if col.Cell? {
      AddCellListed(s, i, col);
      AddCellFromCells(s, i, col);
      var t := AddColumn(s, i, col);
      assert forall c :: c in t.states <==> c in t.characters;
      forall c | c in t.states ensures NoDuplicates(t.states[c]) {
        if c != col.character { assert t.states[c] == s.states[c]; }
      }
    } else {
      var t := AddColumn(s, i, col);
      assert forall k :: k in t.mapping && k.Cell? ==> k in s.mapping;
      assert forall k :: k in s.mapping ==> k in t.mapping;
    }
  }

  lemma AddCellListed(s: Schema, i: nat, col: Column)
    requires col.Cell? && CellsListed(s)
    ensures CellsListed(AddColumn(s, i, col))
  {
    var t := AddColumn(s, i, col);
    forall k | k in t.mapping && k.Cell?
      ensures k.node in t.nodes && k.character in t.characters && k.state in StatesOf(t.states, k.character)
    {
      if k != col {
        assert k in s.mapping;
        var oldStates := StatesOf(s.states, k.character);
        assert k.state in oldStates;
        assert IsPrefix(oldStates, StatesOf(t.states, k.character));
      }
    }
  }

  lemma AddCellFromCells(s: Schema, i: nat, col: Column)
    requires col.Cell? && ListsFromCells(s)
    ensures ListsFromCells(AddColumn(s, i, col))
  {
    var t := AddColumn(s, i, col);
    var c := col.character;
    assert forall k :: k in s.mapping ==> k in t.mapping;
    forall n | n in t.nodes ensures exists c', st :: Cell(n, c', st) in t.mapping {
      if n !in s.nodes {
        assert Cell(n, c, col.state) in t.mapping;
      }
    }
    forall c' | c' in t.characters ensures exists n, st :: Cell(n, c', st) in t.mapping {
      if c' !in s.characters {
        assert Cell(col.node, c', col.state) in t.mapping;
      }
    }
    forall c', st | c' in t.states && st in t.states[c'] ensures exists n :: Cell(n, c', st) in t.mapping {
      if c' != c || st in StatesOf(s.states, c) {
        assert st in s.states[c'];
      } else {
        assert Cell(col.node, c', st) in t.mapping;
      }
    }
  }

  /** Whatever header is read, its lists are consistent with its map. */
  lemma {:induction false} CollectConsistent(kinds: seq<Kind>)
    requires Collect(kinds).Success?
    ensures Consistent(Collect(kinds).value)
    decreases |kinds|
  {
    if kinds != [] {
      var last := |kinds| - 1;
      CollectConsistent(kinds[..last]);
      var kind := kinds[last].value;
      if kind.Some? {
        AddColumnConsistent(Collect(kinds[..last]).value, last, kind.value);
      }
    }
  }

  /** The map sends each column the header names to the index of the last field naming it, and holds nothing else. */
  lemma CollectMapsKinds(kinds: seq<Kind>)
    requires Collect(kinds).Success?
    ensures MapsKinds(Collect(kinds).value, kinds)
  {
    forall col | col in Collect(kinds).value.mapping
      ensures var m := Collect(kinds).value.mapping;
        m[col] < |kinds| && kinds[m[col]] == Success(Some(col))
        && forall j :: m[col] < j < |kinds| ==> kinds[j] != Success(Some(col))
    {
      CollectMapsToLast(kinds, col);
    }
    CollectMapsAllNamed(kinds);
  }

  lemma {:induction false} CollectMapsToLast(kinds: seq<Kind>, col: Column)
    requires Collect(kinds).Success? && col in Collect(kinds).value.mapping
    ensures var m := Collect(kinds).value.mapping;
      m[col] < |kinds| && kinds[m[col]] == Success(Some(col))
      && forall j :: m[col] < j < |kinds| ==> kinds[j] != Success(Some(col))
    decreases |kinds|
  {
    var last := |kinds| - 1;
    var prefix := kinds[..last];
    var s := Collect(prefix).value;
    var t := Collect(kinds).value;
    var kind := kinds[last].value;
    CollectLast(kinds);
    if kind.Some? {
      AddColumnMapping(s, last, kind.value);
    }
    if kind.Some? && col == kind.value {
      assert t.mapping[col] == last;
    } else {
      assert col in s.mapping && t.mapping[col] == s.mapping[col];
      CollectMapsToLast(prefix, col);
      var i := s.mapping[col];
      assert kinds[i] == prefix[i];
      forall j | i < j < |kinds| ensures kinds[j] != Success(Some(col)) {
        if j < last { assert kinds[j] == prefix[j]; }
      }
    }
  }

  lemma {:induction false} CollectMapsAllNamed(kinds: seq<Kind>)
    requires Collect(kinds).Success?
    ensures forall i :: 0 <= i < |kinds| && kinds[i].Success? && kinds[i].value.Some? ==>
              kinds[i].value.value in Collect(kinds).value.mapping
    decreases |kinds|
  {
    if kinds != [] {
      var last := |kinds| - 1;
      var prefix := kinds[..last];
      var s := Collect(prefix).value;
      var kind := kinds[last].value;
      CollectLast(kinds);
      if kind.Some? {
        AddColumnMapping(s, last, kind.value);
      }
      CollectMapsAllNamed(prefix);
      forall i | 0 <= i < last && kinds[i].Success? && kinds[i].value.Some?
        ensures kinds[i].value.value in Collect(kinds).value.mapping
      {
        assert kinds[i] == prefix[i];
      }
    }
  }

  /** The header loop's step at field `i`, in terms of the fields. */
  lemma CollectNext(fields: seq<string>, i: nat)
    requires i < |fields|
    ensures var kinds := Classify(fields);
      Collect(kinds[..i + 1])
        == (var s :- Collect(kinds[..i]);
            var kind :- ClassifyField(fields[i]);
            Success(if kind.Some? then AddColumn(s, i, kind.value) else s))
  {
    var kinds := Classify(fields);
    CollectLast(kinds[..i + 1]);
    assert kinds[..i + 1][..i] == kinds[..i];
  }

  lemma AddColumnMapping(s: Schema, i: nat, col: Column)
    ensures AddColumn(s, i, col).mapping == s.mapping[col := i]
  {
  }

  /** The header fails exactly at its first failing field, with that field's error. */
  lemma {:induction false} CollectFailsAtFirstError(kinds: seq<Kind>, i: nat)
    requires i < |kinds| && kinds[i].Failure?
    requires forall j :: 0 <= j < i ==> kinds[j].Success?
    ensures Collect(kinds) == Failure(kinds[i].error)
    decreases |kinds|
  {
    var last := |kinds| - 1;
    var prefix := kinds[..last];
    CollectLast(kinds);
    if i < last {
      assert prefix[i] == kinds[i];
      assert forall j :: 0 <= j < i ==> prefix[j] == kinds[j];
      CollectFailsAtFirstError(prefix, i);
    } else {
      assert forall j :: 0 <= j < |prefix| ==> prefix[j] == kinds[j];
      CollectSucceeds(prefix);
    }
  }

  /** One step of the header loop: the last field is classified after all the earlier ones. */
  lemma CollectLast(kinds: seq<Kind>)
    requires kinds != []
    ensures var last := |kinds| - 1;
      var before := Collect(kinds[..last]);
      Collect(kinds)
        == if before.Failure? then Failure(before.error)
           else if kinds[last].Failure? then Failure(kinds[last].error)
           else if kinds[last].value.Some? then Success(AddColumn(before.value, last, kinds[last].value.value))
           else before
  {
  }

  /** Once a prefix of the header raises, the whole header raises with the same error. */
  lemma {:induction false} CollectFailurePersists(kinds: seq<Kind>, k: nat)
    requires k <= |kinds| && Collect(kinds[..k]).Failure?
    ensures Collect(kinds) == Collect(kinds[..k])
    decreases |kinds| - k
  {
    if k < |kinds| {
      var prefix := kinds[..|kinds| - 1];
      assert kinds[..k] == prefix[..k];
      CollectFailurePersists(prefix, k);
    } else {
      assert kinds[..k] == kinds;
    }
  }

  /** A header none of whose fields raises is read without error. */
  lemma {:induction false} CollectSucceeds(kinds: seq<Kind>)
    requires forall j :: 0 <= j < |kinds| ==> kinds[j].Success?
    ensures Collect(kinds).Success?
    decreases |kinds|
  {
    if kinds != [] {
      var prefix := kinds[..|kinds| - 1];
      assert forall j :: 0 <= j < |prefix| ==> prefix[j] == kinds[j];
      CollectSucceeds(prefix);
    }
  }

  /** `t` extends `s`: each of its lists starts with the corresponding list of `s`. */
  ghost predicate Extends(s: Schema, t: Schema) {
    && IsPrefix(s.nodes, t.nodes) && IsPrefix(s.characters, t.characters)
    && forall c :: c in s.states ==> c in t.states && IsPrefix(s.states[c], t.states[c])
  }

  lemma ExtendsTransitive(s: Schema, m: Schema, t: Schema)
    requires Extends(s, m) && Extends(m, t)
    ensures Extends(s, t)
  {
    forall c | c in s.states ensures c in t.states && IsPrefix(s.states[c], t.states[c]) {
      assert c in m.states && IsPrefix(s.states[c], m.states[c]);
      assert IsPrefix(m.states[c], t.states[c]);
    }
  }

  lemma AddColumnExtends(s: Schema, i: nat, col: Column)
    ensures Extends(s, AddColumn(s, i, col))
  {
  }

  /**
   * First-seen order: reading more fields only appends to the node list,
   * the character list and each character's state list.
   */
  lemma {:induction false} CollectGrows(kinds: seq<Kind>, k: nat)
    requires k <= |kinds| && Collect(kinds).Success?
    ensures Collect(kinds[..k]).Success?
    ensures Extends(Collect(kinds[..k]).value, Collect(kinds).value)
    decreases |kinds| - k
  {
    if k < |kinds| {
      var last := |kinds| - 1;
      var prefix := kinds[..last];
      assert kinds[..k] == prefix[..k];
      CollectGrows(prefix, k);
      var m := Collect(prefix).value;
      var kind := kinds[last].value;
      if kind.Some? {
        AddColumnExtends(m, last, kind.value);
      }
      ExtendsTransitive(Collect(kinds[..k]).value, m, Collect(kinds).value);
    } else {
      assert kinds[..k] == kinds;
    }
  }

  /** The header row raises at its first field that raises, with that field's error. */
  lemma HeaderFailsAtFirstBadField(fields: seq<string>, i: nat)
    requires i < |fields| && ClassifyField(fields[i]).Failure?
    requires forall j :: 0 <= j < i ==> ClassifyField(fields[j]).Success?
    ensures HeaderOf(fields) == Failure(ClassifyField(fields[i]).error)
  {
    CollectFailsAtFirstError(Classify(fields), i);
  }

  /** Only a whitespace-only field is skipped. */
  lemma SkippedIffBlank(field: string)
    ensures ClassifyField(field) == Success(None) <==> IsBlank(field)
  {
    StripEmptyIffBlank(field);
    if StartsWith(field, "q") {
      assert !IsSpace(field[0]);
    }
    assert !IsSpace("Tree No"[0]);
    assert !IsSpace("Lh"[0]);
  }

  /** How a field's kind follows from its text. */
  lemma ClassifyFieldKinds(field: string)
    ensures ClassifyField(field) == Success(Some(TreeNumber)) <==> field == "Tree No"
    ensures ClassifyField(field) == Success(Some(Likelihood)) <==> field == "Lh"
    ensures forall name :: ClassifyField(field) == Success(Some(Rate(name))) <==>
      (name == field && StartsWith(field, "q") && field != "Tree No" && field != "Lh")
    ensures ClassifyField(field).Success? && ClassifyField(field).value.Some? && ClassifyField(field).value.value.Cell? ==>
      |Split(field, '-')| == 3 && !StartsWith(field, "q") && !IsBlank(field)
  {
    SkippedIffBlank(field);
  }

  /**
   * Reading back a probability field gives the cell it was written for, as
   * long as node and state hold no '-', the state no parenthesis, the
   * character is not negative and the node is neither padded with whitespace nor starts with 'q'.
   */
  lemma CellFieldRoundTrip(node: string, character: int, state: string)
    requires '-' !in node && '-' !in state && '(' !in state && ')' !in state
    requires character >= 0 && Unpadded(node) && !StartsWith(node, "q")
    ensures ClassifyField(CellField(node, character, state)) == Success(Some(Cell(node, character, state)))
  {
    DigitsArePlain(character);
    ParseIntOfIntToString(character);
    FieldRoundTrip(node, IntToString(character), character, state);
  }

  lemma FieldRoundTrip(node: string, digits: string, character: int, state: string)
    requires '-' !in node && '-' !in state && '(' !in state && ')' !in state
    requires '-' !in digits && '(' !in digits && ')' !in digits && ParseInt(digits) == Some(character)
    requires Unpadded(node) && !StartsWith(node, "q")
    ensures ClassifyField(Join([node, "Character(" + digits + ")", "State(" + state + ")"], "-"))
         == Success(Some(Cell(node, character, state)))
  {
    var cpart, spart := "Character(" + digits + ")", "State(" + state + ")";
    LabelsArePlain();
    assert cpart == "Character" + "(" + digits + ")";
    assert spart == "State" + "(" + state + ")";
    ParenthesizedOf("Character", digits);
    ParenthesizedOf("State", state);
    SplitCellField(node, digits, state);
    ParseCellOfParts(node, cpart, spart);
    CellFieldDispatch(node, cpart, spart);
    ClassifyProbabilityField(Join([node, cpart, spart], "-"));
    StripUnpadded(node);
  }

  lemma SplitCellField(node: string, digits: string, state: string)
    requires '-' !in node && '-' !in state && '-' !in digits
    ensures Split(Join([node, "Character(" + digits + ")", "State(" + state + ")"], "-"), '-')
         == [node, "Character(" + digits + ")", "State(" + state + ")"]
  {
    var cpart, spart := "Character(" + digits + ")", "State(" + state + ")";
    LabelsArePlain();
    assert '-' !in cpart && '-' !in spart;
    SplitJoin([node, cpart, spart], '-');
  }

  /**
   * A field that is neither "Tree No", "Lh", a rate nor blank is read as a
   * probability field: it raises exactly what reading the cell raises, and
   * otherwise names that cell.
   */
  lemma ClassifyProbabilityField(field: string)
    requires field != "Tree No" && field != "Lh" && !StartsWith(field, "q") && Strip(field) != ""
    ensures ParseCell(field).Failure? ==> ClassifyField(field) == Failure(ParseCell(field).error)
    ensures ParseCell(field).Success? ==> ClassifyField(field) == Success(Some(ParseCell(field).value))
  {
  }

  lemma DigitsArePlain(character: int)
    requires character >= 0
    ensures '-' !in IntToString(character) && '(' !in IntToString(character) && ')' !in IntToString(character)
  {
    assert AllDigits(IntToString(character));
  }

  lemma LabelsArePlain()
    ensures '-' !in "Character(" && '-' !in "State(" && '-' !in ")"
    ensures '(' !in "Character" && '(' !in "State"
  {
  }

  /** Reading a field whose three '-'-parts are known. */
  lemma ParseCellOfParts(node: string, cpart: string, spart: string)
    requires Split(Join([node, cpart, spart], "-"), '-') == [node, cpart, spart]
    requires Parenthesized(cpart).Some? && ParseInt(Parenthesized(cpart).value).Some? && Parenthesized(spart).Some?
    ensures ParseCell(Join([node, cpart, spart], "-"))
         == Success(Cell(Strip(node), ParseInt(Parenthesized(cpart).value).value, Parenthesized(spart).value))
  {
    var field := Join([node, cpart, spart], "-");
    assert Split(field, '-')[1] == cpart && Split(field, '-')[2] == spart && Split(field, '-')[0] == node;
  }

  /** A field `node-Character(...)-...` is a probability field, not a special one nor a blank one. */
  lemma CellFieldDispatch(node: string, cpart: string, spart: string)
    requires StartsWith(cpart, "C") && !StartsWith(node, "q")
    ensures var field := Join([node, cpart, spart], "-");
      field != "Tree No" && field != "Lh" && !StartsWith(field, "q") && Strip(field) != ""
  {
    var field := Join([node, cpart, spart], "-");
    JoinThree(node, cpart, spart, "-");
    assert field[|node|] == '-' && field[|node| + 1] == 'C';
    assert 'C' in field;
    assert 'C' !in "Tree No" && 'C' !in "Lh";
    assert !StartsWith(field, "q") by {
      if node == [] { assert field[0] == '-'; } else { assert field[0] == node[0]; }
    }
    StripEmptyIffBlank(field);
    assert !IsSpace(field[|node| + 1]);
  }

  lemma JoinThree(a: string, b: string, c: string, sep: string)
    ensures Join([a, b, c], sep) == a + sep + b + sep + c
  {
    assert [a, b, c][1..] == [b, c];
    JoinTwo(b, c, sep);
  }

  lemma ParenthesizedOf(name: string, inner: string)
    requires '(' !in name && '(' !in inner && ')' !in inner
    ensures Parenthesized(name + "(" + inner + ")") == Some(inner)
  {
    assert name + "(" + inner + ")" == name + "(" + (inner + ")");
    JoinTwo(name, inner + ")", "(");
    SplitJoin([name, inner + ")"], '(');
    JoinTwo(inner, "", ")");
    assert inner + ")" + "" == inner + ")";
    SplitJoin([inner, ""], ')');
  }

  lemma JoinTwo(a: string, b: string, sep: string)
    ensures Join([a, b], sep) == a + sep + b
  {
    assert [a, b][1..] == [b];
  }
}
