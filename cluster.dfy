/** What the script does with the language model's answer (blog_bot.py,
    lines 140-156 and 167-171): strip code fences, keep the text from the
    first '[' to the last ']', repair the column names of the parsed table,
    add the label column, and render the issues as bullets by count. */
module Cluster {
  import opened Wrappers
  import opened Text
  import opened Counting

  // ---------------------------------------------------------------------
  // Response cleanup
  // ---------------------------------------------------------------------

  predicate StartsWithTicks(s: string)
  {
    |s| >= 3 && s[0] == '`' && s[1] == '`' && s[2] == '`'
  }

  /** "json" under IGNORECASE; Python's case folding also lets the long s match 's'. */
  predicate StartsWithJson(s: string)
  {
    && |s| >= 4
    && (s[0] == 'j' || s[0] == 'J')
    && (s[1] == 's' || s[1] == 'S' || s[1] == 'ſ')
    && (s[2] == 'o' || s[2] == 'O')
    && (s[3] == 'n' || s[3] == 'N')
  }

  /** re.sub(r"^```(?:json)?|```$", "", s, flags=re.I|re.M), scanning left to
      right: at the start of a line three backticks and an optional "json"
      go; elsewhere three backticks go when a line break or the end follows.
      lineStart says whether the text before s ended a line. */
  function StripFences(s: string, lineStart: bool): (r: string)
    ensures |r| <= |s|
    decreases |s|
  {
    if s == [] then []
    else if lineStart && StartsWithTicks(s) then StripFences(if StartsWithJson(s[3..]) then s[7..] else s[3..], false)
    else if StartsWithTicks(s) && (|s| == 3 || s[3] == '\n') then StripFences(s[3..], false)
    else [s[0]] + StripFences(s[1..], s[0] == '\n')
  }

  /** raw[raw.find('['): raw.rfind(']') + 1] */
  function BracketSpan(raw: string): (r: string)
    ensures |r| <= |raw|
  {
    PySlice(raw, Find(raw, '['), RFind(raw, ']') + 1)
  }

  /** The answer text as it is handed to json.loads. */
  function CleanResponse(content: string): string
  {
    BracketSpan(Strip(StripFences(Strip(content), true)))
  }

  /** A character other than a backtick is copied and only sets the line flag. */
  lemma StripFencesPlainChar(b: string, t: string, lineStart: bool)
    requires b != [] && b[0] != '`'
    ensures StripFences(b + t, lineStart) == [b[0]] + StripFences(b[1..] + t, b[0] == '\n')
  {
    assert (b + t)[0] == b[0];
    assert (b + t)[1..] == b[1..] + t;
  }

  /** Text without backticks passes through the fence removal untouched. */
  lemma {:induction false} StripFencesPlain(b: string, t: string, lineStart: bool)
    requires '`' !in b
    ensures StripFences(b + t, lineStart)
         == b + StripFences(t, if b == [] then lineStart else b[|b| - 1] == '\n')
  {
    if b == [] {
      assert b + t == t;
      assert b + StripFences(t, lineStart) == StripFences(t, lineStart);
    } else {
      var rest, ends := b[1..], b[|b| - 1] == '\n';
      StripFencesPlainChar(b, t, lineStart);
      StripFencesPlain(rest, t, b[0] == '\n');
      if rest != [] {
        assert rest[|rest| - 1] == b[|b| - 1];
      }
      assert [b[0]] + rest == b;
      ConsAppend(b[0], rest, StripFences(t, ends));
    }
  }

  lemma ConsAppend(c: char, r: string, u: string)
    ensures [c] + (r + u) == ([c] + r) + u
  {
  }

  /** When some '[' comes before some ']', the cleaned text is exactly the
      stretch from the first '[' to the last ']', both included. */
  lemma BracketSpanExact(raw: string, i: nat, j: nat)
    requires i < j < |raw| && raw[i] == '[' && raw[j] == ']'
    ensures var a, b := Find(raw, '['), RFind(raw, ']');
      && 0 <= a <= i && j <= b < |raw|
      && BracketSpan(raw) == raw[a..b + 1]
  {
    var a, b := Find(raw, '['), RFind(raw, ']');
    assert a <= i;
    assert j <= b;
    PySliceWithin(raw, a, b + 1);
  }

  /** Otherwise the slice is empty, except that with no '[' at all the index
      -1 counts from the end, so a text ending in ']' leaves that one character. */
  lemma BracketSpanOtherwise(raw: string)
    requires !exists i, j :: 0 <= i < j < |raw| && raw[i] == '[' && raw[j] == ']'
    ensures BracketSpan(raw) == if '[' !in raw && |raw| > 0 && raw[|raw| - 1] == ']' then "]" else ""
  {
    var a, b := Find(raw, '['), RFind(raw, ']');
    if a >= 0 && b >= 0 {
      assert !(a < b);
    }
  }

  lemma StripKeeps(s: string)
    requires s != [] && !IsSpace(s[0]) && !IsSpace(s[|s| - 1])
    ensures Strip(s) == s
  {
  }

  lemma FencesOfJsonBlock(body: string)
    requires '`' !in body
    ensures StripFences("```json\n" + body + "\n```", true) == "\n" + body + "\n"
  {
    var rest := body + "\n```";
    var content := "```json" + ("\n" + rest);
    assert content == "```json\n" + body + "\n```";
    assert content[3..][..4] == "json";
    assert content[7..] == "\n" + rest;
    calc {
      StripFences(content, true);
      StripFences("\n" + rest, false);
      { StripFencesPlainChar("\n", rest, false);
        assert "\n"[1..] + rest == rest; }
      "\n" + StripFences(rest, true);
      { StripFencesPlain(body, "\n```", true);
        ClosingFence(if body == [] then true else body[|body| - 1] == '\n'); }
      "\n" + (body + "\n");
      { ConsAppend('\n', body, "\n"); }
      "\n" + body + "\n";
    }
  }


  /** The closing fence on its own line leaves only the line break before it. */
  lemma ClosingFence(lineStart: bool)
    ensures StripFences("\n```", lineStart) == "\n"
  {
    assert "\n```"[1..] == "```";
  }


  lemma StripOfLine(body: string)
    requires body != [] && !IsSpace(body[0]) && !IsSpace(body[|body| - 1])
    ensures Strip("\n" + body + "\n") == body
  {
    var mid := "\n" + body + "\n";
    assert TrimLeft(mid, IsSpace) == TrimLeft(body + "\n", IsSpace) by {
      assert mid[1..] == body + "\n";
    }
    assert TrimLeft(body + "\n", IsSpace) == body + "\n";
    assert TrimRight(body + "\n", IsSpace) == body by {
      assert (body + "\n")[..|body|] == body;
    }
  }

  lemma BracketSpanWhole(body: string)
    requires |body| >= 2 && body[0] == '[' && body[|body| - 1] == ']'
    ensures BracketSpan(body) == body
  {
    assert Find(body, '[') == 0;
    assert RFind(body, ']') == |body| - 1;
  }

  /** An answer wrapped as a fenced json block comes back as exactly the
      array inside it. */
  lemma CleanFencedArray(body: string)
    requires |body| >= 2 && body[0] == '[' && body[|body| - 1] == ']' && '`' !in body
    ensures CleanResponse("```json\n" + body + "\n```") == body
  {
    StripKeeps("```json\n" + body + "\n```");
    FencesOfJsonBlock(body);
    StripOfLine(body);
    BracketSpanWhole(body);
  }

  // ---------------------------------------------------------------------
  // Column repair
  // ---------------------------------------------------------------------

  /** A parsed JSON value in a table cell; Missing is a key absent from a record. */
  datatype Cell = Int(i: int) | Str(s: string) | Missing

  /** Records that are objects give named columns; records that are arrays give numbered ones. */
  datatype ColumnName = Named(text: string) | Positional(index: nat)

  datatype Column = Column(name: ColumnName, cells: seq<Cell>)

  datatype Frame = Frame(columns: seq<Column>, height: nat)

  const LabelName := "구분"
  const CountName := Named("count")
  const TypeName := Named("type")

  function Names(cols: seq<Column>): (ns: seq<ColumnName>)
    ensures |ns| == |cols|
    ensures forall i :: 0 <= i < |cols| ==> ns[i] == cols[i].name
  {
    if cols == [] then [] else [cols[0].name] + Names(cols[1..])
  }

  /** The column's dtype is numeric: integers, with gaps filled by NaN. */
  predicate NumericCells(cells: seq<Cell>)
  {
    && (forall k :: 0 <= k < |cells| ==> cells[k].Int? || cells[k].Missing?)
    && (exists k :: 0 <= k < |cells| && cells[k].Int?)
  }

  /** is_numeric_dtype(df[c]): a name held by two columns selects a frame, which is not numeric. */
  predicate IsNumeric(cols: seq<Column>, i: nat)
    requires i < |cols|
  {
    NumericCells(cols[i].cells) && Count(Names(cols), cols[i].name) == 1
  }

  /** A candidate for "type": not numeric and not the label column. */
  predicate IsCategorical(cols: seq<Column>, i: nat)
    requires i < |cols|
  {
    !IsNumeric(cols, i) && cols[i].name != Named(LabelName)
  }

  /** The first numeric column at or after lo, or |cols|. */
  function FirstNumeric(cols: seq<Column>, lo: nat): (i: nat)
    requires lo <= |cols|
    ensures lo <= i <= |cols|
    ensures i < |cols| ==> IsNumeric(cols, i)
    ensures forall k :: lo <= k < i ==> !IsNumeric(cols, k)
    decreases |cols| - lo
  {
    if lo == |cols| then lo else if IsNumeric(cols, lo) then lo else FirstNumeric(cols, lo + 1)
  }

  /** The first categorical column at or after lo, or |cols|. */
  function FirstCategorical(cols: seq<Column>, lo: nat): (i: nat)
    requires lo <= |cols|
    ensures lo <= i <= |cols|
    ensures i < |cols| ==> IsCategorical(cols, i)
    ensures forall k :: lo <= k < i ==> !IsCategorical(cols, k)
    decreases |cols| - lo
  {
    if lo == |cols| then lo else if IsCategorical(cols, lo) then lo else FirstCategorical(cols, lo + 1)
  }

  /** df.rename(columns={old: new}): every column called oldName is renamed. */
  function Rename(cols: seq<Column>, oldName: ColumnName, newName: ColumnName): (r: seq<Column>)
    ensures |r| == |cols|
  {
    if cols == [] then []
    else [if cols[0].name == oldName then Column(newName, cols[0].cells) else cols[0]] + Rename(cols[1..], oldName, newName)
  }

  lemma {:induction false} RenameAt(cols: seq<Column>, oldName: ColumnName, newName: ColumnName, k: nat)
    requires k < |cols|
    ensures Rename(cols, oldName, newName)[k] == if cols[k].name == oldName then Column(newName, cols[k].cells) else cols[k]
  {
    if k > 0 {
      RenameAt(cols[1..], oldName, newName, k - 1);
    }
  }

  /** The fallback to "count": when no column is called count, the first numeric one is renamed. */
  function CountStep(cols: seq<Column>): (r: seq<Column>)
    ensures |r| == |cols|
  {
    if CountName in Names(cols) then cols
    else
      var i := FirstNumeric(cols, 0);
      if i < |cols| then Rename(cols, cols[i].name, CountName) else cols
  }

  /** The fallback to "type": when no column is called type, every column
      carrying the name of the first categorical one is renamed. */
  function TypeStep(cols: seq<Column>): (r: seq<Column>)
    ensures |r| == |cols|
  {
    if TypeName in Names(cols) then cols
    else
      var i := FirstCategorical(cols, 0);
      if i < |cols| then Rename(cols, cols[i].name, TypeName) else cols
  }

  /** Column k after the count fallback: renamed to count exactly when no
      count column exists and k is the first numeric column. */
  lemma CountStepAt(cols: seq<Column>, k: nat)
    requires k < |cols|
    ensures CountStep(cols)[k]
         == if CountName !in Names(cols) && k == FirstNumeric(cols, 0) then Column(CountName, cols[k].cells) else cols[k]
  {
    if CountName !in Names(cols) {
      var i := FirstNumeric(cols, 0);
      if i < |cols| {
        RenameAt(cols, cols[i].name, CountName, k);
        if k != i && cols[k].name == cols[i].name {
          DistinctCountTwo(Names(cols), i, k);
        }
      }
    }
  }

  /** The count fallback renames at most the first numeric column and only
      when no count column exists; afterwards a count column exists exactly
      when one did or some column was numeric. Cells never change. */
  lemma CountStepSpec(cols: seq<Column>)
    ensures var r := CountStep(cols);
      && |r| == |cols|
      && (CountName in Names(r) <==> CountName in Names(cols) || exists k :: 0 <= k < |cols| && IsNumeric(cols, k))
      && (forall k :: 0 <= k < |cols| ==> r[k].cells == cols[k].cells)
      && (forall k :: 0 <= k < |cols| && r[k].name != cols[k].name ==>
            && r[k].name == CountName && CountName !in Names(cols)
            && IsNumeric(cols, k) && (forall j :: 0 <= j < k ==> !IsNumeric(cols, j)))
      && (CountName !in Names(cols) && FirstNumeric(cols, 0) < |cols| ==> r[FirstNumeric(cols, 0)].name == CountName)
  {
    var r := CountStep(cols);
    var i := FirstNumeric(cols, 0);
    forall k | 0 <= k < |cols|
      ensures r[k] == if CountName !in Names(cols) && k == i then Column(CountName, cols[k].cells) else cols[k]
    {
      CountStepAt(cols, k);
    }
    if CountName in Names(cols) {
      assert r == cols;
    } else if i < |cols| {
      assert Names(r)[i] == CountName && IsNumeric(cols, i);
    } else {
      assert r == cols;
    }
  }

  /** Two positions holding the same value make its count at least two. */
  lemma {:induction false} DistinctCountTwo<T>(xs: seq<T>, i: nat, k: nat)
    requires i < |xs| && k < |xs| && i != k && xs[i] == xs[k]
    ensures Count(xs, xs[i]) >= 2
  {
    if i > 0 && k > 0 {
      DistinctCountTwo(xs[1..], i - 1, k - 1);
    } else {
      var j := if i == 0 then k else i;
      assert xs[1..][j - 1] == xs[0];
      CountPositive(xs[1..], xs[0]);
    }
  }

  /** Column k after the type fallback: renamed to type exactly when no type
      column exists and k carries the first categorical column's name. */
  lemma TypeStepAt(cols: seq<Column>, k: nat)
    requires k < |cols|
    ensures var i := FirstCategorical(cols, 0);
      TypeStep(cols)[k]
        == if TypeName !in Names(cols) && i < |cols| && cols[k].name == cols[i].name
           then Column(TypeName, cols[k].cells) else cols[k]
  {
    if TypeName !in Names(cols) {
      var i := FirstCategorical(cols, 0);
      if i < |cols| {
        RenameAt(cols, cols[i].name, TypeName, k);
      }
    }
  }

  /** The type fallback renames only when no type column exists, and then
      exactly the columns carrying the first categorical column's name;
      afterwards a type column exists exactly when one did or some column
      was categorical. Cells never change. */
  lemma TypeStepSpec(cols: seq<Column>)
    ensures var r := TypeStep(cols);
      && |r| == |cols|
      && (TypeName in Names(r) <==> TypeName in Names(cols) || exists k :: 0 <= k < |cols| && IsCategorical(cols, k))
      && (forall k :: 0 <= k < |cols| ==> r[k].cells == cols[k].cells)
      && (forall k :: 0 <= k < |cols| && r[k].name != cols[k].name ==>
            && r[k].name == TypeName && TypeName !in Names(cols)
            && cols[k].name == cols[FirstCategorical(cols, 0)].name)
      && (forall k ::
            (0 <= k < |cols| && TypeName !in Names(cols) && FirstCategorical(cols, 0) < |cols|
             && cols[k].name == cols[FirstCategorical(cols, 0)].name)
            ==> r[k].name == TypeName)
  {
    var r := TypeStep(cols);
    var i := FirstCategorical(cols, 0);
    forall k | 0 <= k < |cols|
      ensures r[k] == if TypeName !in Names(cols) && i < |cols| && cols[k].name == cols[i].name
                      then Column(TypeName, cols[k].cells) else cols[k]
    {
      TypeStepAt(cols, k);
    }
    if TypeName !in Names(cols) && i < |cols| {
      assert r[i].name == TypeName;
    }
  }

  predicate HasPositional(cols: seq<Column>)
  {
    exists k :: 0 <= k < |cols| && cols[k].name.Positional?
  }

  /** [c.lower() for c in issue_df.columns]; a numbered column has no lower(). */
  function LowerNames(cols: seq<Column>): (r: Result<seq<Column>>)
    ensures r.Failure? <==> HasPositional(cols)
    ensures r.Success? ==> |r.value| == |cols| && forall k :: 0 <= k < |cols| ==>
      r.value[k] == Column(Named(Lower(cols[k].name.text)), cols[k].cells)
  {
    if cols == [] then Success([])
    else if cols[0].name.Positional? then Failure("AttributeError: 'int' object has no attribute 'lower'")
    else
      match LowerNames(cols[1..])
      case Failure(e) => Failure(e)
      case Success(rest) =>
        assert forall k :: 1 <= k < |cols| ==> cols[k] == cols[1..][k - 1];
        Success([Column(Named(Lower(cols[0].name.text)), cols[0].cells)] + rest)
  }

  /** The label column inserted first: the category in every row. */
  function LabelColumn(category: string, height: nat): Column
  {
    Column(Named(LabelName), seq(height, _ => Str(category)))
  }

  /** Lower-case names, the two fallbacks, then insert(0, '구分', label),
      which raises when a column of that name is already there. */
  function RepairColumns(frame: Frame, category: string): Result<Frame>
  {
    match LowerNames(frame.columns)
    case Failure(e) => Failure(e)
    case Success(lowered) =>
      var cols := TypeStep(CountStep(lowered));
      if Named(LabelName) in Names(cols) then Failure("ValueError: cannot insert 구분, already exists")
      else Success(Frame([LabelColumn(category, frame.height)] + cols, frame.height))
  }

  lemma LowerLabel(s: string)
    ensures Lower(s) == LabelName <==> s == LabelName
  {
    if Lower(s) == LabelName {
      assert |s| == 2;
      assert LowerChar(s[0]) == '구' && LowerChar(s[1]) == '분';
      assert s == [s[0], s[1]];
    }
  }

  /** Column k after both fallbacks keeps its cells and is named by its own
      name, count or type. */
  lemma FallbacksAt(lowered: seq<Column>, k: nat)
    requires k < |lowered|
    ensures var c := TypeStep(CountStep(lowered))[k];
      && c.cells == lowered[k].cells
      && (c.name == lowered[k].name || c.name == CountName || c.name == TypeName)
  {
    CountStepAt(lowered, k);
    TypeStepAt(CountStep(lowered), k);
  }

  /** On success the repaired table is the label column followed by the
      original columns in order, each with its cells untouched and its name
      lower-cased or replaced by "count" or "type". */
  lemma RepairColumnsShape(frame: Frame, category: string)
    requires RepairColumns(frame, category).Success?
    ensures var cols := RepairColumns(frame, category).value.columns;
      && RepairColumns(frame, category).value.height == frame.height
      && |cols| == |frame.columns| + 1
      && cols[0] == LabelColumn(category, frame.height)
      && forall k :: 0 <= k < |frame.columns| ==>
           && cols[k + 1].cells == frame.columns[k].cells
           && (|| cols[k + 1].name == Named(Lower(frame.columns[k].name.text))
               || cols[k + 1].name == CountName || cols[k + 1].name == TypeName)
  {
    var lowered := LowerNames(frame.columns).value;
    var cols := RepairColumns(frame, category).value.columns;
    forall k | 0 <= k < |frame.columns|
      ensures cols[k + 1].cells == frame.columns[k].cells
      ensures || cols[k + 1].name == Named(Lower(frame.columns[k].name.text))
              || cols[k + 1].name == CountName || cols[k + 1].name == TypeName
    {
      assert cols[k + 1] == TypeStep(CountStep(lowered))[k];
      FallbacksAt(lowered, k);
    }
  }

  /** After the fallbacks a column is called 구분 exactly when it was so
      called and is not the numeric column renamed to count. */
  lemma LabelSurvives(lowered: seq<Column>, k: nat)
    requires k < |lowered|
    ensures TypeStep(CountStep(lowered))[k].name == Named(LabelName) <==>
      lowered[k].name == Named(LabelName) && !(CountName !in Names(lowered) && k == FirstNumeric(lowered, 0))
  {
    CountStepAt(lowered, k);
    TypeStepAt(CountStep(lowered), k);
  }

  /** The repaired table still holds one cell per row in every column. */
  lemma RepairColumnsWellFormed(frame: Frame, category: string)
    requires WellFormed(frame) && RepairColumns(frame, category).Success?
    ensures WellFormed(RepairColumns(frame, category).value)
  {
    var lowered := LowerNames(frame.columns).value;
    var repaired := RepairColumns(frame, category).value;
    forall k | 0 <= k < |repaired.columns|
      ensures |repaired.columns[k].cells| == repaired.height
    {
      if k > 0 {
        assert repaired.columns[k] == TypeStep(CountStep(lowered))[k - 1];
        FallbacksAt(lowered, k - 1);
      }
    }
  }

  /** The call fails exactly when the columns are numbered, or when a column
      called 구분 survives the fallbacks, that is, unless it is the single
      numeric column that the count fallback renames. */
  lemma RepairColumnsFailure(frame: Frame, category: string)
    ensures RepairColumns(frame, category).Failure? <==>
      || HasPositional(frame.columns)
      || exists k :: 0 <= k < |frame.columns| && frame.columns[k].name == Named(LabelName)
           && !(CountName !in Names(LowerNames(frame.columns).value) && k == FirstNumeric(LowerNames(frame.columns).value, 0))
  {
    if !HasPositional(frame.columns) {
      var lowered := LowerNames(frame.columns).value;
      var cols := TypeStep(CountStep(lowered));
      forall k | 0 <= k < |frame.columns|
        ensures cols[k].name == Named(LabelName) <==>
          frame.columns[k].name == Named(LabelName) && !(CountName !in Names(lowered) && k == FirstNumeric(lowered, 0))
      {
        LowerLabel(frame.columns[k].name.text);
        LabelSurvives(lowered, k);
      }
      assert Named(LabelName) in Names(cols) <==> exists k :: 0 <= k < |cols| && cols[k].name == Named(LabelName);
    }
  }

  // ---------------------------------------------------------------------
  // gpt_cluster's post-processing end to end
  // ---------------------------------------------------------------------

  /** From the model's answer to the labelled table; the JSON parse and the
      frame construction are the parameter parse, None when json.loads raises. */
  function ClusterTable(content: string, parse: string -> Option<Frame>, category: string): Result<Frame>
  {
    match parse(CleanResponse(content))
    case None => Failure("JSONDecodeError")
    case Some(frame) => RepairColumns(frame, category)
  }

  /** A fenced array answer reaches the parser as the bare array, so the
      table is the parser's records with their columns repaired. */
  lemma ClusterTableFenced(body: string, parse: string -> Option<Frame>, category: string)
    requires |body| >= 2 && body[0] == '[' && body[|body| - 1] == ']' && '`' !in body
    ensures ClusterTable("```json\n" + body + "\n```", parse, category)
         == if parse(body).None? then Failure("JSONDecodeError") else RepairColumns(parse(body).value, category)
  {
    CleanFencedArray(body);
  }

  // ---------------------------------------------------------------------
  // make_bullet
  // ---------------------------------------------------------------------

  /** One issue line of the table: its type cell and its count. */
  datatype Issue = Issue(kind: Cell, count: int)

  /** Every column holds one cell per row. */
  predicate WellFormed(frame: Frame)
  {
    forall k :: 0 <= k < |frame.columns| ==> |frame.columns[k].cells| == frame.height
  }

  predicate AllInt(cells: seq<Cell>)
  {
    forall k :: 0 <= k < |cells| ==> cells[k].Int?
  }

  /** The (type, count) pairs of the table's rows, read from the first
      columns with those names. sort_values('count') runs first: a missing
      count column is its KeyError, a repeated one its ValueError, and counts
      that are not integers are refused. Only then is row['type'] read, once
      per row, so a missing type column fails only on a table with rows. */
  function IssuesOf(frame: Frame): (r: Result<seq<Issue>>)
    requires WellFormed(frame)
    ensures r.Success? ==> |r.value| == frame.height
  {
    var names := Names(frame.columns);
    var t, c := IndexOf(names, TypeName), IndexOf(names, CountName);
    if c == |names| then Failure("KeyError: 'count'")
    else if Count(names, CountName) > 1 then Failure("ValueError: The column label 'count' is not unique")
    else if !AllInt(frame.columns[c].cells) then Failure("count cells that are not integers")
    else if frame.height == 0 then Success([])
    else if t == |names| then Failure("KeyError: 'type'")
    else
      var types, counts := frame.columns[t].cells, frame.columns[c].cells;
      Success(seq(frame.height, i requires 0 <= i < frame.height => Issue(types[i], counts[i].i)))
  }

  /** Reading the issues fails exactly when the count column is missing or
      repeated, a count is not an integer, or the table has rows but no type
      column; otherwise row i pairs the i-th cell of the first type column
      with the i-th count. */
  lemma IssuesOfSpec(frame: Frame)
    requires WellFormed(frame)
    ensures var names := Names(frame.columns);
      var t, c := IndexOf(names, TypeName), IndexOf(names, CountName);
      && (IssuesOf(frame).Failure? <==>
            || CountName !in names || Count(names, CountName) > 1 || !AllInt(frame.columns[c].cells)
            || (frame.height > 0 && TypeName !in names))
      && (IssuesOf(frame).Success? ==> forall i :: 0 <= i < frame.height ==>
            && IssuesOf(frame).value[i].kind == frame.columns[t].cells[i]
            && frame.columns[c].cells[i] == Int(IssuesOf(frame).value[i].count))
  {
  }

  function CountOf(x: Issue): int { x.count }

  /** f"{value}" for a cell; a NaN gap prints as nan. */
  function CellText(c: Cell): string
  {
    match c
    case Int(i) => IntText(i)
    case Str(s) => s
    case Missing => "nan"
  }

  /** f"- **{row['type']}** : {row['count']}건" */
  function BulletLine(x: Issue): string
  {
    "- **" + CellText(x.kind) + "** : " + IntText(x.count) + "건"
  }

  function JoinLines(lines: seq<string>): string
  {
    if lines == [] then "" else if |lines| == 1 then lines[0] else lines[0] + "\n" + JoinLines(lines[1..])
  }

  /** str.split('\n'): the pieces between line breaks. */
  function SplitLines(s: string): (parts: seq<string>)
    ensures parts != []
    decreases |s|
  {
    if '\n' !in s then [s]
    else
      var i := Find(s, '\n');
      [s[..i]] + SplitLines(s[i + 1..])
  }

  /** The first line break of head + "\n" + rest is the one after head. */
  lemma SplitAtBreak(head: string, rest: string)
    requires '\n' !in head
    ensures var s := head + "\n" + rest;
      && Find(s, '\n') == |head| && s[..|head|] == head && s[|head| + 1..] == rest
  {
    var s := head + "\n" + rest;
    assert s[|head|] == '\n';
    assert forall k :: 0 <= k < |head| ==> s[k] == head[k];
  }

  /** Joining lines free of line breaks and splitting the text again gives the lines back. */
  lemma {:induction false} SplitJoinLines(lines: seq<string>)
    requires lines != [] && forall i :: 0 <= i < |lines| ==> '\n' !in lines[i]
    ensures SplitLines(JoinLines(lines)) == lines
  {
    if |lines| > 1 {
      var head, rest := lines[0], JoinLines(lines[1..]);
      SplitAtBreak(head, rest);
      SplitJoinLines(lines[1..]);
      assert [head] + lines[1..] == lines;
    }
  }

  /** The order of the bullets: largest count first, ties in table order. */
  function BulletOrder(issues: seq<Issue>): seq<Issue>
  {
    SortDesc(issues, CountOf)
  }

  /** The bullet order lists every issue once, puts larger counts first and
      keeps issues with equal counts in table order. */
  lemma BulletOrderSpec(issues: seq<Issue>)
    ensures var order := BulletOrder(issues);
      && |order| == |issues|
      && multiset(order) == multiset(issues)
      && (forall i, j :: 0 <= i < j < |order| ==> order[i].count >= order[j].count)
      && (forall v :: Filter(order, CountOf, v) == Filter(issues, CountOf, v))
  {
    SortDescSpec(issues, CountOf);
  }

  /** The bullet lines, one per issue in bullet order. */
  function BulletLines(issues: seq<Issue>): (lines: seq<string>)
    ensures |lines| == |issues|
    ensures forall i :: 0 <= i < |lines| ==> lines[i] == BulletLine(BulletOrder(issues)[i])
  {
    var order := BulletOrder(issues);
    seq(|order|, i requires 0 <= i < |order| => BulletLine(order[i]))
  }

  /** make_bullet: the lines joined by line breaks. */
  function MakeBullet(frame: Frame): Result<string>
    requires WellFormed(frame)
  {
    match IssuesOf(frame)
    case Failure(e) => Failure(e)
    case Success(issues) => Success(JoinLines(BulletLines(issues)))
  }

  /** A bullet spans one line when its type text does: the count prints as digits. */
  lemma BulletLineOneLine(x: Issue)
    requires '\n' !in CellText(x.kind)
    ensures '\n' !in BulletLine(x)
  {
    var n := if x.count < 0 then -x.count else x.count;
    assert forall i :: 0 <= i < |Digits(n)| ==> Digits(n)[i] != '\n';
  }

  /** When no type text holds a line break, the report text splits back into
      exactly one bullet per row, in bullet order. */
  lemma MakeBulletLines(frame: Frame)
    requires WellFormed(frame) && IssuesOf(frame).Success? && frame.height > 0
    requires forall i :: 0 <= i < frame.height ==> '\n' !in CellText(IssuesOf(frame).value[i].kind)
    ensures MakeBullet(frame).Success?
    ensures SplitLines(MakeBullet(frame).value) == BulletLines(IssuesOf(frame).value)
  {
    var issues := IssuesOf(frame).value;
    var lines := BulletLines(issues);
    BulletOrderSpec(issues);
    forall i | 0 <= i < |lines|
      ensures '\n' !in lines[i]
    {
      var x := BulletOrder(issues)[i];
      assert x in multiset(BulletOrder(issues));
      assert x in issues;
      BulletLineOneLine(x);
    }
    SplitJoinLines(lines);
  }

  /** Each count prints as its decimal digits, so it reads back unchanged. */
  lemma CountTextRoundTrip(n: nat)
    ensures IntText(n) == Digits(n) && DigitsValue(IntText(n)) == n
  {
    DigitsRoundTrip(n);
  }
}
