# BayesTraits script generator and log parser

PICRUSt uses BayesTraits for ancestral state reconstruction. A small
Python module, `picrust/bayestraits.py`, sits between the two. This
project models its two text transformations and proves properties of
them.

- **Script generation** (`make_bayestraits_script`,
  `get_bt_addmrca_commands`). A rooted tree becomes the control script
  that BayesTraits reads from stdin:
  - the menu answer for the method;
  - the menu answer for the analysis mode;
  - optionally `RestrictAll q01`;
  - `#Add nodes to analyze`, then one `AddMRCA parent_of_<tip> <names>`
    line per tip;
  - `run`.

  With comments, the interactive prompts are added as `#` lines. The path
  of the log BayesTraits writes is predicted by
  `predict_bayestraits_output_file`.
- **Log parsing** (`parse_reconstruction_output` and its string wrapper).
  The parser is a two-state line scanner:
  - it skips lines up to the header `Tree No\tLh...`;
  - it classifies the header fields into the column map and the
    first-seen lists of nodes, characters and states per character;
  - on the first data row it reduces every (node, character) pair to its
    most probable state;
  - it returns that as a `#Trait` table.

  If no data row follows the header, it returns the empty per-tree
  dictionary.

Modules, in dependency order:

- `Wrappers`: `Option` and `Result`.
- `Text`: Python's `split`, `join`, `strip`, `startswith`, Python 2
  `int()` and `str()` of an int, list filtering.
- `Lists`: `sorted` as an insertion sort, with Python 2 string order;
  append-if-absent.
- `Tree`: the tree as a value, `iterTips` with `Parent`, `childGroups`.
- `Script`: the script generator.
- `Header`: the header grammar and the fold that reads it.
- `Reduction`: the arg-max and the output table.
- `Parser`: the line scanner and the loops of the parser.

The loops of the source are methods with loop invariants. Each method is
proved equal to a specification function, and the properties are proved
as lemmas about those functions:

- `Script.MakeBayesTraitsScript`, `Script.GetAddMrcaCommands`,
  `Script.CollectSiblingNames` and `Script.AppendEntryNames`;
- `Parser.ReadHeaderFields`, `Parser.ChooseState`, `Parser.NodeLine`,
  `Parser.ReduceRow`, `Parser.ReadDataRow` and
  `Parser.ParseReconstructionOutput`.

## Model

| member | source | states |
|---|---|---|
| Script.MakeBayesTraitsScript | picrust/bayestraits.py:92-189 | The step-by-step construction of `script_lines` gives exactly the script `MakeScript` describes, including its ValueError results. |
| Script.MakeScriptOutcome | picrust/bayestraits.py:134-168 | An unknown method gives ValueError "method not supported". For a known method, an unknown analysis method gives ValueError "analysis method not supported". A script is returned if and only if both names are known. |
| Script.MenuAnswers | picrust/bayestraits.py:134-168 | Known methods answer one of "1" to "6". Known analysis methods answer "1" or "2". Each answer is a single character that is not '#'. |
| Script.ScriptWithoutComments | picrust/bayestraits.py:148-189 | Without comments the script is, in order: the method answer, the analysis answer, `RestrictAll q01` only for a single rate, "#Add nodes to analyze", one AddMRCA line per tip in tip order, and `run` last. Every entry gets one further newline, and the length is 2 or 3, plus tips, plus 2. |
| Script.RestrictIffSingleRate | picrust/bayestraits.py:171-175 | With or without comments, the script contains `RestrictAll q01` if and only if a single rate is requested. |
| Script.CommentsOnlyAdd | picrust/bayestraits.py:120-187 | The `comments=False` result is the `comments=True` result with the prompt-comment entries filtered out. Both results fail in the same way. |
| Script.PromptCommentsOfScript | picrust/bayestraits.py:121-181 | The entries removed are, in order: the header, the method menu, the analysis menu, "#Restrict to a single rate" (single rate only), and "#Reconstruct parent nodes for each tip". |
| Script.PromptCommentEntries | picrust/bayestraits.py:121-181 | Each prompt comment is recognised as one. The menu answers, `RestrictAll q01` and `run` are not. |
| Script.AddMrcaLinesAreNotComments | picrust/bayestraits.py:201-232 | The AddMRCA block is the "#Add nodes to analyze" line, then lines that start with "AddMRCA " and end in a newline. None of them is a prompt comment. |
| Script.AddMrcaLineEnds | picrust/bayestraits.py:201-231 | Every line built from the template "AddMRCA %s %s\n" starts with "AddMRCA " and ends in "\n". |
| Script.GetAddMrcaCommands | picrust/bayestraits.py:191-234 | The nested loops over tips, child groups and entries compute exactly `AddMrcaCommands`. |
| Script.CollectSiblingNames | picrust/bayestraits.py:208-222 | The loop over one parent's child groups yields each group's entry names, in group order. |
| Script.AppendEntryNames | picrust/bayestraits.py:212-221 | The loop over one group appends, for each entry in order, the entry's own name if it is a tip, or the names of all tips below it otherwise. |
| Script.AddMrcaCommandsSpec | picrust/bayestraits.py:201-234 | Never fails, under the modelled child grouping. Returns 1 + (number of tips) lines: "#Add nodes to analyze" first, then for the k-th tip left to right, `AddMRCA parent_of_<tip>` with the translated leaves of the tip's parent. The tips are the tree's leaves in order. Each argument list contains the tip's own translated name, so "No sibling names found!" is unreachable. |
| Script.AddMrcaCommandsLines | picrust/bayestraits.py:201-232 | The block has one command per tip, in tip order, after the comment line. |
| Script.CommandsFromSucceeds | picrust/bayestraits.py:203-232 | The loop over tips keeps what was already appended. It adds exactly the remaining tips' commands in order and does not raise. |
| Script.TipNamedAmongArguments | picrust/bayestraits.py:208-228 | A tip's translated name is among the translated leaves of its parent, so the argument list is never empty. |
| Script.TranslateAll | picrust/bayestraits.py:223-224 | Each name becomes its translation if the table has one, and stays unchanged otherwise. Order and length are kept. |
| Script.PredictOutputFile | picrust/bayestraits.py:236-238 | The predicted log path is the table path followed by ".log.txt". |
| Tree.TipParentsInTree | picrust/bayestraits.py:203-206 | The parent reported with each tip is a node of the tree. |
| Tree.TipsWithParentsSpec | picrust/bayestraits.py:203-208 | `iterTips()` with `Parent` reports tips left to right; their names are the tree's leaf names. Each reported tip is a tip and one of its reported parent's children. |
| Tree.ChildGroupsFlatten | picrust/bayestraits.py:208 | The child groups concatenate back to the children, in order. |
| Tree.ChildGroupsUniform | picrust/bayestraits.py:208 | Each child group is all tips or all internal nodes, and the first group starts with the first child. |
| Tree.SiblingNamesOfAnySplit | picrust/bayestraits.py:208-221 | For any split of the children whose groups concatenate back to them, the collected sibling names are the children's leaf names in order, with repeats kept. |
| Tree.TipAmongParentLeaves | picrust/bayestraits.py:203-221 | A tip's name is among the leaf names of its parent's children. |
| Parser.ParseReconstructionOutputFromString | picrust/bayestraits.py:241-247 | Splitting on "\n" and parsing gives exactly `ParseString`. |
| Parser.ParseStringOfJoinedLines | picrust/bayestraits.py:241-247 | Parsing the newline-join of newline-free lines is parsing those lines. |
| Parser.ParseReconstructionOutput | picrust/bayestraits.py:249-350 | The line loop with its `header_parsed` flag computes exactly `Parse`: the header scan, then the row scan. |
| Parser.PreambleIgnored | picrust/bayestraits.py:276-283 | Lines before the first header line are ignored, whatever they hold. |
| Parser.NoHeaderNoTrees | picrust/bayestraits.py:276-350 | A log without a header line gives the empty per-tree result. |
| Parser.EmptyLinesIgnored | picrust/bayestraits.py:277-279 | Removing every empty line anywhere in the log does not change the result. |
| Parser.SeekHeaderSkipsEmpty | picrust/bayestraits.py:277-283 | Before the header, removing empty lines does not change the result. |
| Parser.SeekRowSkipsEmpty | picrust/bayestraits.py:277-279 | After the header, removing empty lines does not change the result. |
| Parser.BlanksSkipped | picrust/bayestraits.py:277-279 | Empty lines ahead of the data row are skipped. |
| Parser.FirstRowDecides | picrust/bayestraits.py:321-348 | With ignored lines, a header, empty lines, a data row and anything after it, the result is decided by reading the header and that one row. Later lines are never read. |
| Parser.NoDataRowNoTrees | picrust/bayestraits.py:321-350 | A header followed only by empty lines gives the empty per-tree result, unless the header itself raises. |
| Parser.ReadHeaderFields | picrust/bayestraits.py:286-322 | The loop over header fields, with its column map and node, character and state lists, computes exactly `HeaderOf`, including the error raised by the first bad field. |
| Parser.ReadDataRow | picrust/bayestraits.py:324-348 | Reading a data row computes exactly `ReadRow`. The tree number and likelihood are looked up, the likelihood is converted before the tree number, then the row is reduced and rendered. |
| Parser.ReadRowSucceedsIff | picrust/bayestraits.py:324-341 | A data row is read without error if and only if all of these hold: the tree-number and likelihood columns are present and convert, and every (node, character, state) the header named has a readable probability. |
| Parser.ReduceRow | picrust/bayestraits.py:331-348 | The loop over sorted nodes computes the rendered table of `Reduce`. It fails exactly when `Reduce` fails. |
| Parser.NodeLine | picrust/bayestraits.py:333-347 | The loop over one node's sorted characters renders that node's row of `Reduce`. |
| Parser.ChooseState | picrust/bayestraits.py:336-343 | The innermost loop, `ml_state` updated by strict `>` from `(None, 0.0)` over the sorted states, computes `CellBest`. |
| Header.ParseCell | picrust/bayestraits.py:301-306 | A field that does not split on '-' into three parts raises BadFieldShape (ValueError). A missing '(' in the character part raises MissingParenthesis (IndexError). Non-integer text between the character's parentheses raises BadCharacter (ValueError). A missing '(' in the state part then raises MissingParenthesis. Parsing succeeds if and only if none of these happens. The cell is then the stripped node, the integer and the text between the state's parentheses. |
| Header.ClassifyProbabilityField | picrust/bayestraits.py:295-311 | A field that is not "Tree No", "Lh", a rate or blank is read as a probability field: it raises exactly the cell parser's error, and otherwise names that cell. |
| Header.ClassifyFieldKinds | picrust/bayestraits.py:289-306 | A field is the tree-number column if and only if it is "Tree No". It is the likelihood column if and only if it is "Lh". It is a rate column, named by the field, if and only if it is neither of those and starts with 'q'. Any cell column comes from a field that is none of these and is not blank. |
| Header.SkippedIffBlank | picrust/bayestraits.py:297-298 | A field is skipped if and only if it consists of whitespace only. |
| Header.CellFieldRoundTrip | picrust/bayestraits.py:301-306 | Reading back `node-Character(c)-State(s)` gives the cell (node, c, s). This holds when node and state hold no '-', the state has no parenthesis, c is not negative, and the node is unpadded and does not start with 'q'. |
| Header.FieldRoundTrip | picrust/bayestraits.py:301-306 | The same holds for any digit text that `int()` reads as the character. |
| Header.HeaderFailsAtFirstBadField | picrust/bayestraits.py:288-306 | The header raises the error of its first failing field. |
| Header.CollectFailsAtFirstError | picrust/bayestraits.py:288-306 | The fold over classified fields fails with the first failure's error. |
| Header.CollectSucceeds | picrust/bayestraits.py:288-318 | A header none of whose fields raises is read without error. |
| Header.CollectConsistent | picrust/bayestraits.py:288-318 | A header that is read has duplicate-free node, character and state lists. Its characters are exactly the keys of the state table. Its lists are exactly the nodes, characters and per-character states of its probability columns. |
| Header.CollectMapsKinds | picrust/bayestraits.py:288-311 | The column map sends each column the header names to the index of the last field naming it, and maps nothing else. |
| Header.CollectGrows | picrust/bayestraits.py:313-318 | First-seen order: reading more fields only appends to the node list, the character list and each character's state list. |
| Header.AddColumnConsistent | picrust/bayestraits.py:311-318 | Recording one column keeps the lists duplicate-free and consistent with the map. |
| Lists.AppendNew | picrust/bayestraits.py:313-318 | `if x not in s: s.append(x)` keeps s as a prefix and adds x at most once. It keeps a duplicate-free list duplicate-free. |
| Lists.SortSpec | picrust/bayestraits.py:331-339 | `sorted` returns its input rearranged into order: a sorted permutation. |
| Lists.SortStrings | picrust/bayestraits.py:333 | Sorting node names or states gives a permutation in Python 2 byte-string order. |
| Lists.SortInts | picrust/bayestraits.py:335 | Sorting characters gives a permutation in ascending order. |
| Reduction.ArgMaxIsMaximal | picrust/bayestraits.py:336-343 | The chosen probability is at least 0.0 and at least that of every state. |
| Reduction.ArgMaxNone | picrust/bayestraits.py:336-343 | No state is chosen if and only if no probability exceeds 0.0. The result is then `(None, 0.0)`. |
| Reduction.ArgMaxEarliest | picrust/bayestraits.py:339-343 | A chosen state has the maximum probability, and every earlier state has a strictly smaller one: ties go to the earliest sorted state. |
| Reduction.ProbabilitiesFromSpec | picrust/bayestraits.py:339-342 | The states' probabilities are read without error if and only if each state's field can be read. Each value read is that field's number. |
| Reduction.CellBestSucceeds | picrust/bayestraits.py:339-342 | A (node, character) cell can be computed if and only if every state's probability can be read. |
| Reduction.CellBestIsArgMax | picrust/bayestraits.py:336-346 | A computed cell is the strict arg-max of the probabilities the row holds for the sorted states, with the properties above. |
| Reduction.NodeCellsSucceeds | picrust/bayestraits.py:334-346 | A node's cells are read if and only if each of its characters' cells is. |
| Reduction.NodeCellsValues | picrust/bayestraits.py:334-346 | A node's cells are one per character, each that character's arg-max over its sorted states. |
| Reduction.RowsFromSpec | picrust/bayestraits.py:333-347 | The rows are read if and only if every node's cells are. They come one per node, in order. |
| Reduction.ReduceShape | picrust/bayestraits.py:331-347 | One row per node in sorted order. Each row has one cell per character in sorted order, and each cell is the arg-max over that character's sorted states. |
| Reduction.ReduceSucceedsIffReadable | picrust/bayestraits.py:339-341 | The reduction succeeds if and only if the row holds a readable probability for every node, character and state the header listed. |
| Reduction.SucceededAllReadable | picrust/bayestraits.py:339-341 | If the reduction succeeds, every listed combination is readable. |
| Reduction.FailedSomeUnreadable | picrust/bayestraits.py:339-341 | If the reduction fails, some listed combination is unreadable. |
| Reduction.MissingCombinationFails | picrust/bayestraits.py:339-341 | A listed (node, character, state) whose column the header never named makes the lookup fail. |
| Reduction.TraitHeaderFields | picrust/bayestraits.py:331 | Cut at tabs, the output header is "#Trait" followed by each character's decimal text, in the given order. |
| Reduction.RenderedRowFields | picrust/bayestraits.py:346-347 | Cut at tabs, a rendered row is the node followed by one field per character, the state and its probability joined by a vertical bar. This holds when no part holds a tab. |
| Reduction.RenderShape | picrust/bayestraits.py:331-348 | The output is the header line, then one line per row, each ending in "\n". |
| Text.StripEmptyIffBlank | picrust/bayestraits.py:297 | `not field.strip()` holds if and only if the field is only whitespace. |
| Text.ParseIntOfIntToString | picrust/bayestraits.py:305 | `int(str(n)) == n` for every integer n, so a header written with any character id reads back. |
| Text.SplitJoin | picrust/bayestraits.py:243 | Splitting the join of separator-free pieces gives back the pieces. |
| Text.JoinSplit | picrust/bayestraits.py:243 | Joining the pieces of a split with the separator gives back the string. |

## Left out

- The `BayesTraits` command-line application wrapper (lines 49-88) and
  `main` (lines 352-398). They run a subprocess, read and write files,
  load trees with PyCogent, time and print. None of this is a text
  transformation.
- The debug `print` statements (lines 275 and 300). They only write to
  the console.
- `float()` of a likelihood or probability, and `str()` of a float, are
  the parameters `toReal: string -> Option<real>` and
  `show: real -> string`.
  - The model does not fix how text becomes a number or a number becomes
    text.
  - `None` stands for the ValueError of text `float()` rejects.
  - NaN and infinities are not modelled: probabilities are reals, so
    `>` is a total order.
- PyCogent's `iterTips`, `Parent`, `isTip` and `childGroups` are not part
  of this model.
  - The tree is a value `Node(name, children)`.
  - `childGroups` is modelled as the split of the children into maximal
    runs of tips and of internal nodes.
  - `Tree.SiblingNamesOfAnySplit` shows that the sibling names are the
    same for any split whose groups concatenate back to the children.
    The result therefore does not depend on the library's exact grouping.
  - A parent with a single child is modelled like any other: its one
    child forms a one-element group. PyCogent's `childGroups()` may
    instead return the lone child node itself, not a group holding it;
    that library is not part of this model. If it does, the loop at
    line 212 iterates that child's children. For a tip that is an only
    child there are none, and line 228 raises "No sibling names found!".
- Script.AddMrcaCommandsSpec: "never fails" holds under the modelled
  child grouping. A lone tip child under PyCogent's behaviour described
  above is not covered.
- The column map is keyed by a datatype (tree number, likelihood,
  rate of a field, or a (node, character, state) cell). The source keys
  it by the strings "tree_number", "likelihood", "rate_<field>" and
  "<node>_<character>_<state>".
  - Distinct cells can collide as strings in the source.
  - Example: node "a_1", character 2 and state "x" give the same key as
    node "a", character 1 and state "2_x".
  - Example: rate field "q_1_x" collides with node "rate_q", character 1,
    state "x".
  - In those cases the source's later field overwrites the earlier one.
    The model keeps both.
- `per_tree_results` is modelled only as the empty result `NoTrees`. The
  source returns from inside the loop at the first data row. It therefore
  only reaches `return per_tree_results` when no data row was read, and
  the dictionary is always empty at that point.
  - The likelihood and tree number of the first row are still converted,
    and their errors kept. The value they store is discarded.
- The source's order among errors inside the data row is kept: likelihood
  conversion comes before tree-number conversion, then the cells. The
  exception types are an error datatype, not Python exceptions.
- MCMC logs are not modelled: the parser's targets are maximum-likelihood
  logs.
- The test file covers a different module and is not part of this model.
- `#Add nodes to analyze` comes from `get_bt_addmrca_commands`, so
  scripts with and without comments both have it. `Script.IsPromptComment`
  does not count it as a prompt comment.
