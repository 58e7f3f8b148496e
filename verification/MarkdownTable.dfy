/** Reading the first matching table of a markdown text. */
module MarkdownTable {
  import opened Wrappers
  import opened Text

  // Rows

  function StripAll(cells: seq<string>): (r: seq<string>)
    ensures |r| == |cells|
    ensures forall i | 0 <= i < |cells| :: r[i] == Strip(cells[i])
  {
    seq(|cells|, i requires 0 <= i < |cells| => Strip(cells[i]))
  }

  predicate IsRow(line: string) {
    "|" <= Strip(line)
  }

  function Cells(line: string): (cells: seq<string>)
    ensures |cells| > 0
  {
    StripAll(Split(StripPipes(Strip(line)), '|'))
  }

  /** `:?-{3,}:?` */
  predicate IsRule(cell: string) {
    var left := if ":" <= cell then cell[1..] else cell;
    var core := if left != "" && left[|left| - 1] == ':' then left[..|left| - 1] else left;
    |core| >= 3 && forall c | c in core :: c == '-'
  }

  /** A line as the parser sees it: whether it opens with a bar, its cells, and whether all of these are rules. */
  datatype Line = Line(isRow: bool, cells: seq<string>, isRule: bool)

  function View(line: string): Line {
    Line(IsRow(line), Cells(line), forall cell | cell in Cells(line) :: IsRule(cell))
  }

  function MapLines(view: string -> Line, lines: seq<string>): (r: seq<Line>)
    ensures |r| == |lines| && forall i | 0 <= i < |lines| :: r[i] == view(lines[i])
  {
    seq(|lines|, i requires 0 <= i < |lines| => view(lines[i]))
  }

  function Views(lines: seq<string>): seq<Line> {
    MapLines(View, lines)
  }

  predicate IsHeader(line: Line, required: set<string>) {
    line.isRow && forall h | h in required :: h in line.cells
  }

  predicate IsSeparator(line: Line, width: nat) {
    |line.cells| == width && line.isRule
  }

  /** `dict(zip(headers, cells))` */
  function RowDict(headers: seq<string>, cells: seq<string>): map<string, string>
    requires |headers| == |cells|
  {
    if headers == [] then map[]
    else RowDict(headers[..|headers| - 1], cells[..|cells| - 1])[headers[|headers| - 1] := cells[|cells| - 1]]
  }

  datatype TableError = MissingTable | MissingSeparator | WrongWidth(line: nat) | NoRows

  type Rows = seq<map<string, string>>

  /** The first header, which must not be the last line. */
  predicate HeaderAt(lines: seq<Line>, required: set<string>, k: int) {
    0 <= k && k + 1 < |lines| && (lines[k].isRow && forall h | h in required :: h in lines[k].cells) &&
    forall j | 0 <= j < k :: !(lines[j].isRow && forall h | h in required :: h in lines[j].cells)
  }

  /** The verdict on the lines that follow a header: its separator and then the `tail`. */
  predicate BodyVerdict(headers: seq<string>, separator: Line, tail: seq<Line>, r: Result<Rows, TableError>) {
    (r == Failure(MissingSeparator) <==> |separator.cells| != |headers| || !separator.isRule) &&
    match r
    case Success(rows) =>
      rows != [] && RowsAre(headers, tail, rows) && (|rows| < |tail| ==> !tail[|rows|].isRow)
    case Failure(MissingTable) => false
    case Failure(MissingSeparator) => true
    case Failure(WrongWidth(i)) =>
      i < |tail| && tail[i].isRow && |tail[i].cells| != |headers| &&
      forall j | 0 <= j < i :: tail[j].isRow && |tail[j].cells| == |headers|
    case Failure(NoRows) => tail != [] ==> !tail[0].isRow
  }

  predicate RowsAre(headers: seq<string>, tail: seq<Line>, rows: Rows) {
    |rows| <= |tail| &&
    forall j | 0 <= j < |rows| :: tail[j].isRow && |tail[j].cells| == |headers| && rows[j] == RowDict(headers, tail[j].cells)
  }

  /** What `markdown_table_rows` answers: the first header decides, or there is none. */
  ghost predicate TableVerdict(lines: seq<Line>, required: set<string>, r: Result<Rows, TableError>) {
    (forall k :: HeaderAt(lines, required, k) ==> BodyVerdict(lines[k].cells, lines[k + 1], lines[k + 2..], r)) &&
    ((forall k :: !HeaderAt(lines, required, k)) ==> r == Failure(MissingTable))
  }

  method TableRows(lines: seq<Line>, required: set<string>) returns (r: Result<Rows, TableError>)
    ensures TableVerdict(lines, required, r)
  {
    var index := 0;
    while index + 1 < |lines|
      invariant forall j | 0 <= j < index && j < |lines| :: !IsHeader(lines[j], required)
    {
      if IsHeader(lines[index], required) {
        assert HeaderAt(lines, required, index);
        assert forall k :: HeaderAt(lines, required, k) ==> k == index;
        r := BodyRows(lines[index].cells, lines[index + 1], lines[index + 2..]);
        return;
      }
      index := index + 1;
    }
    return Failure(MissingTable);
  }

  method BodyRows(headers: seq<string>, separator: Line, tail: seq<Line>) returns (r: Result<Rows, TableError>)
    ensures BodyVerdict(headers, separator, tail, r)
  {
    if !IsSeparator(separator, |headers|) {
      return Failure(MissingSeparator);
    }
    var rows: Rows := [];
    while |rows| < |tail| && tail[|rows|].isRow
      invariant RowsAre(headers, tail, rows)
      decreases |tail| - |rows|
    {
      var cells := tail[|rows|].cells;
      if |cells| != |headers| {
        return Failure(WrongWidth(|rows|));
      }
      rows := rows + [RowDict(headers, cells)];
    }
    if rows == [] {
      return Failure(NoRows);
    }
    return Success(rows);
  }

  /** `markdown_table_rows` */
  method MarkdownTableRows(markdown: string, required: set<string>) returns (r: Result<Rows, TableError>)
    ensures TableVerdict(Views(SplitLines(markdown)), required, r)
  {
    r := TableRows(Views(SplitLines(markdown)), required);
  }

  // Rendering

  function Padded(cells: seq<string>): (r: seq<string>)
    ensures |r| == |cells| && forall i | 0 <= i < |cells| :: r[i] == " " + cells[i] + " "
  {
    seq(|cells|, i requires 0 <= i < |cells| => " " + cells[i] + " ")
  }

  /** `| a | b |` */
  function RenderRow(cells: seq<string>): string {
    "|" + Join(Padded(cells), '|') + "|"
  }

  predicate CleanCell(cell: string) {
    Trimmed(cell) && '|' !in cell && OneLine(cell)
  }

  predicate CleanRow(cells: seq<string>, width: nat) {
    |cells| == width && forall i | 0 <= i < width :: CleanCell(cells[i])
  }

  lemma {:induction false} PaddedEnds(cells: seq<string>)
    requires cells != []
    ensures var inner := Join(Padded(cells), '|');
            inner != "" && inner[0] == ' ' && inner[|inner| - 1] == ' '
  {
    if |cells| > 1 {
      PaddedEnds(cells[1..]);
      assert Padded(cells)[1..] == Padded(cells[1..]);
    }
  }

  lemma StripKeepsBars(inner: string)
    ensures Strip("|" + inner + "|") == "|" + inner + "|"
  {
    var line := "|" + inner + "|";
    assert line[0] == '|' && line[|line| - 1] == '|';
    StripTrimmed(line);
  }

  lemma StripPipesOf(inner: string)
    requires inner != "" && inner[0] == ' ' && inner[|inner| - 1] == ' '
    ensures StripPipes("|" + inner + "|") == inner
  {
    assert "|" + inner + "|" == "|" + (inner + "|");
    TrimLeftPadded("|", inner + "|", IsPipe);
    TrimRightPadded(inner, "|", IsPipe);
  }

  lemma RowReads(line: string, inner: string, cells: seq<string>)
    requires Strip(line) == line && line != "" && line[0] == '|' && StripPipes(line) == inner
    requires StripAll(Split(inner, '|')) == cells
    ensures IsRow(line) && Cells(line) == cells
  {
  }

  lemma PaddedReads(cells: seq<string>)
    requires cells != [] && CleanRow(cells, |cells|)
    ensures StripAll(Split(Join(Padded(cells), '|'), '|')) == cells
  {
    forall i | 0 <= i < |cells| ensures '|' !in Padded(cells)[i] && Strip(Padded(cells)[i]) == cells[i] {
      assert CleanCell(cells[i]);
      StripPadded(" ", cells[i], " ");
    }
    SplitJoin(Padded(cells), '|');
  }

  /** Reading a rendered row gives its cells back. */
  lemma RenderedRowReads(cells: seq<string>)
    requires cells != [] && CleanRow(cells, |cells|)
    ensures IsRow(RenderRow(cells)) && Cells(RenderRow(cells)) == cells
  {
    var inner := Join(Padded(cells), '|');
    PaddedEnds(cells);
    StripKeepsBars(inner);
    StripPipesOf(inner);
    PaddedReads(cells);
    RowReads(RenderRow(cells), inner, cells);
  }

  function Rules(width: nat): seq<string> {
    seq(width, _ => "---")
  }

  lemma RulesRead(width: nat)
    requires width > 0
    ensures var line := RenderRow(Rules(width));
            OneLine(line) && View(line).isRow && View(line).cells == Rules(width) && View(line).isRule
  {
    assert CleanCell("---") && IsRule("---");
    RenderedRowReads(Rules(width));
    RenderedRowIsOneLine(Rules(width));
  }

  lemma {:induction false} JoinIsOneLine(parts: seq<string>)
    requires forall i | 0 <= i < |parts| :: OneLine(parts[i])
    ensures OneLine(Join(parts, '|'))
  {
    if |parts| > 1 {
      JoinIsOneLine(parts[1..]);
    }
  }

  lemma RenderedRowIsOneLine(cells: seq<string>)
    requires forall i | 0 <= i < |cells| :: CleanCell(cells[i])
    ensures OneLine(RenderRow(cells))
  {
    JoinIsOneLine(Padded(cells));
  }

  function RenderRows(body: seq<seq<string>>): (lines: seq<string>)
    ensures |lines| == |body| && forall i | 0 <= i < |body| :: lines[i] == RenderRow(body[i])
  {
    seq(|body|, i requires 0 <= i < |body| => RenderRow(body[i]))
  }

  function RenderTable(headers: seq<string>, body: seq<seq<string>>): seq<string> {
    [RenderRow(headers), RenderRow(Rules(|headers|))] + RenderRows(body)
  }

  function DictsOf(headers: seq<string>, body: seq<seq<string>>): (rows: Rows)
    requires forall i | 0 <= i < |body| :: |body[i]| == |headers|
  {
    seq(|body|, i requires 0 <= i < |body| => RowDict(headers, body[i]))
  }

  /** A table that the parser is meant to read: clean cells, the required headers among its own, at least one row. */
  predicate GoodTable(required: set<string>, headers: seq<string>, body: seq<seq<string>>) {
    headers != [] && CleanRow(headers, |headers|) && (forall h | h in required :: h in headers) &&
    body != [] && forall i | 0 <= i < |body| :: CleanRow(body[i], |headers|)
  }

  /** Text around a table: no matching header before it, no row right after it. */
  predicate GoodSurroundings(required: set<string>, before: seq<Line>, after: seq<Line>) {
    (forall i | 0 <= i < |before| :: !IsHeader(before[i], required)) && (after != [] ==> !after[0].isRow)
  }

  /** The lines of a table as the parser sees them. */
  predicate IsTable(table: seq<Line>, headers: seq<string>, body: seq<seq<string>>) {
    |table| == 2 + |body| && table[0].isRow && table[0].cells == headers && IsSeparator(table[1], |headers|) &&
    forall i | 0 <= i < |body| :: table[2..][i].isRow && table[2..][i].cells == body[i]
  }

  lemma RenderedRowView(cells: seq<string>)
    requires cells != [] && CleanRow(cells, |cells|)
    ensures View(RenderRow(cells)).isRow && View(RenderRow(cells)).cells == cells
  {
    RenderedRowReads(cells);
  }

  /** Which lines make a table, for any way of reading lines. */
  lemma ReadsAsTable(view: string -> Line, lines: seq<string>, headers: seq<string>, body: seq<seq<string>>)
    requires |lines| == 2 + |body| && view(lines[0]).isRow && view(lines[0]).cells == headers
    requires IsSeparator(view(lines[1]), |headers|)
    requires forall i | 0 <= i < |body| :: view(lines[2..][i]).isRow && view(lines[2..][i]).cells == body[i]
    ensures IsTable(MapLines(view, lines), headers, body)
  {
    assert MapLines(view, lines)[2..] == MapLines(view, lines[2..]);
  }

  lemma RenderedIsTable(headers: seq<string>, body: seq<seq<string>>)
    requires headers != [] && CleanRow(headers, |headers|) && forall i | 0 <= i < |body| :: CleanRow(body[i], |headers|)
    ensures IsTable(Views(RenderTable(headers, body)), headers, body)
  {
    RenderedRowView(headers);
    RulesRead(|headers|);
    var rows := RenderRows(body);
    forall i | 0 <= i < |body| ensures View(rows[i]).isRow && View(rows[i]).cells == body[i] {
      RenderedRowView(body[i]);
    }
    assert RenderTable(headers, body)[2..] == rows;
    ReadsAsTable(View, RenderTable(headers, body), headers, body);
  }

  /** Parsing a table in its surroundings returns exactly the table's rows. */
  lemma TableParses(required: set<string>, before: seq<Line>, table: seq<Line>, headers: seq<string>, body: seq<seq<string>>,
                    after: seq<Line>, r: Result<Rows, TableError>)
    requires IsTable(table, headers, body) && GoodSurroundings(required, before, after)
    requires body != [] && (forall h | h in required :: h in headers) && forall i | 0 <= i < |body| :: |body[i]| == |headers|
    requires TableVerdict(before + table + after, required, r)
    ensures r == Success(DictsOf(headers, body))
  {
    var lines := before + table + after;
    var k := |before|;
    assert forall j | 0 <= j < k :: lines[j] == before[j];
    assert lines[k] == table[0] && lines[k + 1] == table[1];
    assert HeaderAt(lines, required, k);
    assert lines[k + 2..] == table[2..] + after;
    BodyParses(headers, table[1], table[2..], after, body, r);
  }

  lemma BodyParses(headers: seq<string>, separator: Line, rows: seq<Line>, after: seq<Line>, body: seq<seq<string>>, r: Result<Rows, TableError>)
    requires BodyVerdict(headers, separator, rows + after, r) && IsSeparator(separator, |headers|)
    requires |rows| == |body| > 0 && (after != [] ==> !after[0].isRow)
    requires forall i | 0 <= i < |body| :: rows[i].isRow && rows[i].cells == body[i] && |body[i]| == |headers|
    ensures r == Success(DictsOf(headers, body))
  {
    var tail := rows + after;
    assert forall i | 0 <= i < |rows| :: tail[i] == rows[i];
    assert after != [] ==> tail[|rows|] == after[0];
    match r
    case Success(dicts) =>
      assert |dicts| == |rows|;
      assert dicts == DictsOf(headers, body);
    case Failure(WrongWidth(i)) =>
      assert false;
    case Failure(_) =>
  }

  lemma MapLinesConcat(view: string -> Line, a: seq<string>, b: seq<string>, c: seq<string>)
    ensures MapLines(view, a + b + c) == MapLines(view, a) + MapLines(view, b) + MapLines(view, c)
  {
  }

  lemma TextSplits(before: seq<string>, table: seq<string>, after: seq<string>, closed: bool)
    requires forall line | line in before + after + table :: OneLine(line)
    requires table != [] && table[|table| - 1] != "" && (!closed && after != [] ==> after[|after| - 1] != "")
    ensures SplitLines(TextOf(before + table + after, closed)) == before + table + after
  {
    forall i | 0 <= i < |before + table + after| ensures OneLine((before + table + after)[i]) {
      assert (before + table + after)[i] in before + after + table;
    }
    LinesOfText(before + table + after, closed, IsLineBreak);
  }

  /**
   * On text: a rendered table, with no line before it that matches and no row right after it, is read back exactly,
   * provided no line holds a character that `splitlines` would break at. The text may end without a line feed.
   */
  lemma RenderedTextParses(required: set<string>, before: seq<string>, headers: seq<string>, body: seq<seq<string>>, after: seq<string>,
                           closed: bool, r: Result<Rows, TableError>)
    requires GoodTable(required, headers, body) && GoodSurroundings(required, Views(before), Views(after))
    requires (forall line | line in before + after :: OneLine(line)) && (!closed && after != [] ==> after[|after| - 1] != "")
    requires TableVerdict(Views(SplitLines(TextOf(before + RenderTable(headers, body) + after, closed))), required, r)
    ensures r == Success(DictsOf(headers, body))
  {
    var table := RenderTable(headers, body);
    RenderedLinesAreClean(headers, body);
    LastRowIsNotEmpty(headers, body);
    TextSplits(before, table, after, closed);
    MapLinesConcat(View, before, table, after);
    RenderedIsTable(headers, body);
    TableParses(required, Views(before), Views(table), headers, body, Views(after), r);
  }

  lemma LastRowIsNotEmpty(headers: seq<string>, body: seq<seq<string>>)
    requires headers != [] && body != []
    ensures var table := RenderTable(headers, body); table[|table| - 1] != ""
  {
    var table := RenderTable(headers, body);
    assert table[|table| - 1] == RenderRow(body[|body| - 1]);
  }

  lemma RenderedLinesAreClean(headers: seq<string>, body: seq<seq<string>>)
    requires headers != [] && CleanRow(headers, |headers|) && forall i | 0 <= i < |body| :: CleanRow(body[i], |headers|)
    ensures forall line | line in RenderTable(headers, body) :: OneLine(line)
  {
    var rows := RenderRows(body);
    RenderedRowIsOneLine(headers);
    RulesRead(|headers|);
    forall line | line in rows ensures OneLine(line) {
      var i :| 0 <= i < |rows| && rows[i] == line;
      RenderedRowIsOneLine(body[i]);
    }
  }

  /** With distinct headers, a row dictionary has exactly one entry per column. */
  lemma {:induction false} RowDictExact(headers: seq<string>, cells: seq<string>)
    requires |headers| == |cells| && forall i, j | 0 <= i < j < |headers| :: headers[i] != headers[j]
    ensures forall h :: h in RowDict(headers, cells) <==> h in headers
    ensures forall i | 0 <= i < |headers| :: RowDict(headers, cells)[headers[i]] == cells[i]
  {
    if headers != [] {
      var n := |headers| - 1;
      RowDictExact(headers[..n], cells[..n]);
      assert headers == headers[..n] + [headers[n]];
      assert forall i | 0 <= i < n :: headers[..n][i] == headers[i] && cells[..n][i] == cells[i];
    }
  }

  // What the parser takes a line for

  function Dashes(n: nat): (s: string)
    ensures |s| == n && forall i | 0 <= i < n :: s[i] == '-'
  {
    seq(n, _ => '-')
  }

  /** Three or more dashes, with a colon allowed at either end. */
  ghost predicate IsRuleText(cell: string) {
    exists left, n: nat, right :: left in {"", ":"} && n >= 3 && right in {"", ":"} && cell == left + Dashes(n) + right
  }

  lemma RuleSplits(cell: string)
    requires IsRule(cell)
    ensures IsRuleText(cell)
  {
    var left := if ":" <= cell then ":" else "";
    var middle := cell[|left|..];
    var right := if middle != "" && middle[|middle| - 1] == ':' then ":" else "";
    var core := middle[..|middle| - |right|];
    forall i | 0 <= i < |core| ensures core[i] == '-' { assert core[i] in core; }
    assert core == Dashes(|core|);
    assert cell == left + Dashes(|core|) + right;
  }

  lemma RuleReads(left: string, n: nat, right: string)
    requires left in {"", ":"} && n >= 3 && right in {"", ":"}
    ensures IsRule(left + Dashes(n) + right)
  {
    var cell, middle := left + Dashes(n) + right, Dashes(n) + right;
    assert cell[0] == if left == "" then '-' else ':';
    assert cell[|left|..] == middle;
    assert middle[|middle| - 1] == if right == "" then '-' else ':';
    assert middle[..n] == Dashes(n);
  }

  lemma RuleIff(cell: string)
    ensures IsRule(cell) <==> IsRuleText(cell)
  {
    if IsRule(cell) {
      RuleSplits(cell);
    }
    if left, n: nat, right :| left in {"", ":"} && n >= 3 && right in {"", ":"} && cell == left + Dashes(n) + right {
      RuleReads(left, n, right);
    }
  }

  /** A line is a row when, blanks aside, it starts with a bar; it is a rule line when all its cells are rules. */
  lemma ViewIs(line: string)
    ensures View(line).isRow <==> Strip(line) != "" && Strip(line)[0] == '|'
    ensures View(line).cells == StripAll(Split(StripPipes(Strip(line)), '|'))
    ensures View(line).isRule <==> forall i | 0 <= i < |View(line).cells| :: IsRuleText(View(line).cells[i])
  {
    forall i | 0 <= i < |View(line).cells| ensures View(line).cells[i] in View(line).cells && (IsRule(View(line).cells[i]) <==> IsRuleText(View(line).cells[i])) {
      RuleIff(View(line).cells[i]);
    }
  }
}
