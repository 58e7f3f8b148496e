/** The exception file: a line-by-line reader of a small YAML subset, and rendering for it. */
module ExceptionFile {
  import opened Wrappers
  import opened Text
  import opened AuditGate

  /** Line boundaries of a text file read with universal newlines. */
  predicate IsNewline(c: char) {
    c == '\n' || c == '\r'
  }

  predicate IsQuoted(value: string, quote: char) {
    value != "" && value[0] == quote && value[|value| - 1] == quote
  }

  /** `value[1:-1]` */
  function Inner(value: string): string {
    if |value| < 2 then "" else value[1..|value| - 1]
  }

  /** `split_kv` of a line that has a colon. */
  function SplitKv(line: string): (string, string)
    requires ':' in line
  {
    IndexOfFinds(line, ':');
    var k := IndexOf(line, ':');
    var value := Strip(line[k + 1..]);
    (Strip(line[..k]), if IsQuoted(value, '"') || IsQuoted(value, '\'') then Inner(value) else value)
  }

  /** `exceptions` and `current`. */
  datatype State = State(entries: seq<Entry>, current: Option<Entry>)

  datatype ParseError = NoColon(line: string)

  /** `if current: exceptions.append(current)` */
  function Flushed(st: State): seq<Entry> {
    if st.current.Some? && st.current.value != map[] then st.entries + [st.current.value] else st.entries
  }

  predicate IsIgnored(line: string) {
    line == "" || "#" <= line || "version:" <= line || "exceptions:" <= line
  }

  /** One line, already stripped. */
  function StepStripped(st: State, line: string): Result<State, ParseError> {
    if IsIgnored(line) then Success(st)
    else if "- " <= line then
      var rest := Strip(line[2..]);
      if rest == "" then Success(State(Flushed(st), Some(map[])))
      else if ':' !in rest then Failure(NoColon(rest))
      else Success(State(Flushed(st), Some(map[SplitKv(rest).0 := SplitKv(rest).1])))
    else if st.current.Some? && ':' in line then
      Success(st.(current := Some(st.current.value[SplitKv(line).0 := SplitKv(line).1])))
    else Success(st)
  }

  function Step(st: State, raw: string): Result<State, ParseError> {
    StepStripped(st, Strip(raw))
  }

  /** The loop over the lines, for any treatment of one line. */
  function Run(step: (State, string) -> Result<State, ParseError>, st: State, lines: seq<string>): Result<State, ParseError>
    decreases |lines|
  {
    if lines == [] then Success(st)
    else
      match step(st, lines[0])
      case Failure(e) => Failure(e)
      case Success(next) => Run(step, next, lines[1..])
  }

  /** What the whole file parses to. */
  function Parsed(text: string): Result<seq<Entry>, ParseError> {
    match Run(Step, State([], None), LinesOf(text, IsNewline))
    case Failure(e) => Failure(e)
    case Success(st) => Success(Flushed(st))
  }

  /** `parse_exceptions` */
  method ParseExceptions(text: string) returns (r: Result<seq<Entry>, ParseError>)
    ensures r == Parsed(text)
  {
    var lines := LinesOf(text, IsNewline);
    var st := State([], None);
    var i := 0;
    while i < |lines|
      invariant 0 <= i <= |lines|
      invariant Run(Step, State([], None), lines) == Run(Step, st, lines[i..])
    {
      assert lines[i..][0] == lines[i] && lines[i..][1..] == lines[i + 1..];
      var next := Step(st, lines[i]);
      if next.Failure? {
        return Failure(next.error);
      }
      st := next.value;
      i := i + 1;
    }
    return Success(Flushed(st));
  }

  // Rendering

  /** How a value is written: between quotes of either kind, or as it is. */
  datatype Quoting = Double | Single | Bare

  datatype Pair = Pair(key: string, value: string, quoting: Quoting)

  function Written(kv: Pair): string {
    match kv.quoting
    case Double => "\"" + kv.value + "\""
    case Single => "'" + kv.value + "'"
    case Bare => kv.value
  }

  /** What follows the colon. */
  function AfterColon(kv: Pair): string {
    if Written(kv) == "" then "" else " " + Written(kv)
  }

  function KvLine(kv: Pair): string {
    kv.key + ":" + AfterColon(kv)
  }

  /** A value as it is may not have blanks around it or look quoted. */
  predicate GoodValue(kv: Pair) {
    kv.quoting == Bare ==> Trimmed(kv.value) && !IsQuoted(kv.value, '"') && !IsQuoted(kv.value, '\'')
  }

  function Bullet(kv: Pair): string {
    "- " + KvLine(kv)
  }

  function Indented(kv: Pair): string {
    "  " + KvLine(kv)
  }

  function RenderEntry(kvs: seq<Pair>): (lines: seq<string>)
    ensures |lines| == |kvs|
  {
    seq(|kvs|, i requires 0 <= i < |kvs| => if i == 0 then Bullet(kvs[i]) else Indented(kvs[i]))
  }

  function RenderAll(entries: seq<seq<Pair>>): seq<string> {
    if entries == [] then [] else RenderEntry(entries[0]) + RenderAll(entries[1..])
  }

  /** Later pairs win. */
  function MapOf(kvs: seq<Pair>): Entry {
    if kvs == [] then map[] else MapOf(kvs[..|kvs| - 1])[kvs[|kvs| - 1].key := kvs[|kvs| - 1].value]
  }

  predicate HasPair(kvs: seq<Pair>, key: string, value: string) {
    exists i :: 0 <= i < |kvs| && kvs[i].key == key && kvs[i].value == value
  }

  /** With distinct keys nothing is lost: the entry holds exactly the pairs written. */
  lemma {:induction false} MapOfExact(kvs: seq<Pair>, key: string, value: string)
    requires forall i, j | 0 <= i < j < |kvs| :: kvs[i].key != kvs[j].key
    ensures key in MapOf(kvs) && MapOf(kvs)[key] == value <==> HasPair(kvs, key, value)
    decreases |kvs|
  {
    if kvs != [] {
      var n := |kvs| - 1;
      MapOfExact(kvs[..n], key, value);
      assert kvs == kvs[..n] + [kvs[n]];
      assert forall i | 0 <= i < n :: kvs[..n][i].key != kvs[n].key;
    }
  }

  function MapsOf(entries: seq<seq<Pair>>): (maps: seq<Entry>)
    ensures |maps| == |entries|
  {
    seq(|entries|, i requires 0 <= i < |entries| => MapOf(entries[i]))
  }

  /** A key that can be written before a colon at all. */
  predicate GoodKey(key: string) {
    key != "" && Trimmed(key) && ':' !in key
  }

  /** A key that can also open a line: not a comment, not a list item, not one of the two file keywords. */
  predicate GoodLineKey(key: string) {
    GoodKey(key) && !("#" <= key) && !("- " <= key) && key != "version" && key != "exceptions"
  }

  predicate GoodEntry(kvs: seq<Pair>) {
    kvs != [] && GoodKey(kvs[0].key) && (forall i | 0 < i < |kvs| :: GoodLineKey(kvs[i].key)) && forall i | 0 <= i < |kvs| :: GoodValue(kvs[i])
  }

  lemma LineEnds(kv: Pair)
    requires GoodKey(kv.key) && GoodValue(kv)
    ensures Trimmed(KvLine(kv)) && KvLine(kv)[0] == kv.key[0]
  {
    var line := KvLine(kv);
    assert line[|line| - 1] == if Written(kv) == "" then ':' else Written(kv)[|Written(kv)| - 1];
  }

  lemma StripKv(lead: string, kv: Pair)
    requires GoodKey(kv.key) && GoodValue(kv) && forall c | c in lead :: IsSpace(c)
    ensures Strip(lead + KvLine(kv)) == KvLine(kv)
  {
    LineEnds(kv);
    StripPadded(lead, KvLine(kv), "");
    assert lead + KvLine(kv) + "" == lead + KvLine(kv);
  }

  /** What is between the quotes, or the text itself. */
  function Unquoted(value: string): string {
    if IsQuoted(value, '"') || IsQuoted(value, '\'') then Inner(value) else value
  }

  lemma WrittenReads(kv: Pair)
    requires GoodValue(kv)
    ensures Strip(AfterColon(kv)) == Written(kv) && Unquoted(Written(kv)) == kv.value
  {
    var w := Written(kv);
    if kv.quoting != Bare {
      assert w[0] == w[|w| - 1] && w[1..|w| - 1] == kv.value;
    }
    if w == "" {
      StripTrimmed("");
    } else {
      StripPadded(" ", w, "");
      assert " " + w + "" == " " + w;
    }
  }

  /** Splitting at the first colon: key and value without blanks around them, the value without its quotes. */
  lemma SplitKvIs(key: string, tail: string)
    requires ':' !in key
    ensures ':' in key + ":" + tail && SplitKv(key + ":" + tail) == (Strip(key), Unquoted(Strip(tail)))
  {
    var line := key + ":" + tail;
    assert line[|key|] == ':';
    IndexOfAt(key, ':', tail);
    assert line[..|key|] == key && line[|key| + 1..] == tail;
  }

  /** Reading a rendered pair gives the pair back, whatever a quoted value contains. */
  lemma SplitRendered(kv: Pair)
    requires GoodKey(kv.key) && GoodValue(kv)
    ensures ':' in KvLine(kv) && SplitKv(KvLine(kv)) == (kv.key, kv.value)
  {
    SplitKvIs(kv.key, AfterColon(kv));
    StripTrimmed(kv.key);
    WrittenReads(kv);
  }

  lemma PlainLine(kv: Pair)
    requires GoodLineKey(kv.key) && GoodValue(kv)
    ensures !IsIgnored(KvLine(kv)) && !("- " <= KvLine(kv))
  {
    var line := KvLine(kv);
    FirstPieceIs("version", kv.key, ':', AfterColon(kv));
    FirstPieceIs("exceptions", kv.key, ':', AfterColon(kv));
    assert "version" + ":" == "version:" && "exceptions" + ":" == "exceptions:";
    assert line[0] == kv.key[0];
    assert line[1] == if |kv.key| > 1 then kv.key[1] else ':';
  }

  lemma FirstLine(st: State, kv: Pair)
    requires GoodKey(kv.key) && GoodValue(kv)
    ensures Step(st, Bullet(kv)) == Success(State(Flushed(st), Some(map[kv.key := kv.value])))
  {
    var raw := Bullet(kv);
    LineEnds(kv);
    assert raw[0] == '-' && raw[|raw| - 1] == KvLine(kv)[|KvLine(kv)| - 1];
    StripTrimmed(raw);
    assert raw[2..] == KvLine(kv);
    StripTrimmed(KvLine(kv));
    SplitRendered(kv);
    ItemLine(st, raw, KvLine(kv));
  }

  lemma ItemLine(st: State, line: string, rest: string)
    requires "- " <= line && Strip(line[2..]) == rest && rest != "" && ':' in rest
    ensures StepStripped(st, line) == Success(State(Flushed(st), Some(map[SplitKv(rest).0 := SplitKv(rest).1])))
  {
    assert line[0] == '-';
  }

  lemma NextLine(st: State, kv: Pair)
    requires GoodLineKey(kv.key) && GoodValue(kv) && st.current.Some?
    ensures Step(st, Indented(kv)) == Success(st.(current := Some(st.current.value[kv.key := kv.value])))
  {
    StripKv("  ", kv);
    PlainLine(kv);
    SplitRendered(kv);
  }

  lemma {:induction false} RunConcat(
      step: (State, string) -> Result<State, ParseError>, st: State, a: seq<string>, b: seq<string>)
    requires Run(step, st, a).Success?
    ensures Run(step, st, a + b) == Run(step, Run(step, st, a).value, b)
    decreases |a|
  {
    if a == [] {
      assert a + b == b;
    } else {
      assert (a + b)[1..] == a[1..] + b;
      RunConcat(step, step(st, a[0]).value, a[1..], b);
    }
  }

  lemma RunOne(step: (State, string) -> Result<State, ParseError>, st: State, line: string)
    ensures Run(step, st, [line]) == step(st, line)
  {
    assert [line][1..] == [];
    if step(st, line).Success? {
      assert Run(step, step(st, line).value, []) == step(st, line);
    }
  }

  /** What `FirstLine` and `NextLine` say of `Step`, said of any treatment of one line. */
  ghost predicate ReadsPairs(step: (State, string) -> Result<State, ParseError>) {
    (forall st: State, kv: Pair | GoodKey(kv.key) && GoodValue(kv) ::
       step(st, Bullet(kv)) == Success(State(Flushed(st), Some(map[kv.key := kv.value]))))
    && (forall st: State, kv: Pair | GoodLineKey(kv.key) && GoodValue(kv) && st.current.Some? ::
          step(st, Indented(kv)) == Success(st.(current := Some(st.current.value[kv.key := kv.value]))))
  }

  lemma StepReadsPairs()
    ensures ReadsPairs(Step)
  {
    forall st: State, kv: Pair | GoodKey(kv.key) && GoodValue(kv)
      ensures Step(st, Bullet(kv)) == Success(State(Flushed(st), Some(map[kv.key := kv.value])))
    {
      FirstLine(st, kv);
    }
    forall st: State, kv: Pair | GoodLineKey(kv.key) && GoodValue(kv) && st.current.Some?
      ensures Step(st, Indented(kv)) == Success(st.(current := Some(st.current.value[kv.key := kv.value])))
    {
      NextLine(st, kv);
    }
  }

  lemma RenderOneMore(init: seq<Pair>, last: Pair)
    requires init != []
    ensures RenderEntry(init + [last]) == RenderEntry(init) + [Indented(last)]
  {
  }

  lemma MapOfOneMore(init: seq<Pair>, last: Pair)
    ensures MapOf(init + [last]) == MapOf(init)[last.key := last.value]
  {
    assert (init + [last])[..|init|] == init;
  }

  lemma FirstPairReads(step: (State, string) -> Result<State, ParseError>, st: State, kv: Pair)
    requires ReadsPairs(step) && GoodEntry([kv])
    ensures Run(step, st, RenderEntry([kv])) == Success(State(Flushed(st), Some(MapOf([kv]))))
  {
    assert [kv][0] == kv && RenderEntry([kv]) == [Bullet(kv)];
    RunOne(step, st, Bullet(kv));
    MapOfOneMore([], kv);
    assert [] + [kv] == [kv];
  }

  lemma GoodInit(kvs: seq<Pair>)
    requires GoodEntry(kvs) && |kvs| > 1
    ensures var last := kvs[|kvs| - 1];
            GoodEntry(kvs[..|kvs| - 1]) && GoodLineKey(last.key) && GoodValue(last)
  {
  }

  /** The lines of one entry flush the entry before it and leave this one current. */
  lemma {:induction false} EntryReads(
      step: (State, string) -> Result<State, ParseError>, st: State, kvs: seq<Pair>)
    requires ReadsPairs(step) && GoodEntry(kvs)
    ensures Run(step, st, RenderEntry(kvs)) == Success(State(Flushed(st), Some(MapOf(kvs))))
    decreases |kvs|
  {
    var init, last := kvs[..|kvs| - 1], kvs[|kvs| - 1];
    assert kvs == init + [last];
    if init == [] {
      assert kvs == [last];
      FirstPairReads(step, st, last);
    } else {
      GoodInit(kvs);
      EntryReads(step, st, init);
      OneMorePair(step, st, init, last);
    }
  }

  lemma OneMorePair(step: (State, string) -> Result<State, ParseError>, st: State, init: seq<Pair>, last: Pair)
    requires ReadsPairs(step) && init != [] && GoodLineKey(last.key) && GoodValue(last)
    requires Run(step, st, RenderEntry(init)) == Success(State(Flushed(st), Some(MapOf(init))))
    ensures Run(step, st, RenderEntry(init + [last])) == Success(State(Flushed(st), Some(MapOf(init + [last]))))
  {
    MapOfOneMore(init, last);
    RenderOneMore(init, last);
    NextPairReads(step, st, RenderEntry(init), MapOf(init), last);
  }

  lemma NextPairReads(
      step: (State, string) -> Result<State, ParseError>, st: State, lines: seq<string>, entry: Entry, kv: Pair)
    requires ReadsPairs(step) && GoodLineKey(kv.key) && GoodValue(kv)
    requires Run(step, st, lines) == Success(State(Flushed(st), Some(entry)))
    ensures Run(step, st, lines + [Indented(kv)]) == Success(State(Flushed(st), Some(entry[kv.key := kv.value])))
  {
    RunConcat(step, st, lines, [Indented(kv)]);
    RunOne(step, State(Flushed(st), Some(entry)), Indented(kv));
  }

  lemma {:induction false} EntriesRead(
      step: (State, string) -> Result<State, ParseError>, st: State, entries: seq<seq<Pair>>)
    requires ReadsPairs(step)
    requires forall i | 0 <= i < |entries| :: GoodEntry(entries[i])
    ensures Run(step, st, RenderAll(entries)).Success?
    ensures Flushed(Run(step, st, RenderAll(entries)).value) == Flushed(st) + MapsOf(entries)
    decreases |entries|
  {
    if entries == [] {
      assert Flushed(st) + MapsOf(entries) == Flushed(st);
    } else {
      var first := State(Flushed(st), Some(MapOf(entries[0])));
      EntryReads(step, st, entries[0]);
      RunConcat(step, st, RenderEntry(entries[0]), RenderAll(entries[1..]));
      EntriesRead(step, first, entries[1..]);
      FlushesEntry(st, entries);
    }
  }

  lemma FlushesEntry(st: State, entries: seq<seq<Pair>>)
    requires entries != [] && GoodEntry(entries[0])
    ensures Flushed(State(Flushed(st), Some(MapOf(entries[0])))) + MapsOf(entries[1..]) == Flushed(st) + MapsOf(entries)
  {
    assert entries[0][|entries[0]| - 1].key in MapOf(entries[0]);
    assert MapsOf(entries) == [MapOf(entries[0])] + MapsOf(entries[1..]);
  }

  lemma {:induction false} IgnoredLines(st: State, lines: seq<string>)
    requires forall i | 0 <= i < |lines| :: IsIgnored(Strip(lines[i]))
    ensures Run(Step, st, lines) == Success(st)
    decreases |lines|
  {
    if lines != [] {
      IgnoredLines(st, lines[1..]);
    }
  }

  lemma {:induction false} LastLineIsNotEmpty(entries: seq<seq<Pair>>)
    requires entries != [] && forall i | 0 <= i < |entries| :: GoodEntry(entries[i])
    ensures var lines := RenderAll(entries); lines != [] && lines[|lines| - 1] != ""
  {
    var first := RenderEntry(entries[0]);
    if |entries| > 1 {
      LastLineIsNotEmpty(entries[1..]);
    } else {
      assert RenderAll(entries[1..]) == [] && first + [] == first;
      assert first[|first| - 1][0] in {'-', ' '};
    }
  }

  /** Rendering then parsing gives the entries back: after any ignored head, for any one-line keys and values. */
  lemma RenderedFileParses(head: seq<string>, entries: seq<seq<Pair>>, closed: bool)
    requires forall i | 0 <= i < |entries| :: GoodEntry(entries[i])
    requires forall i | 0 <= i < |head| :: IsNoise(head[i])
    requires forall i | 0 <= i < |head + RenderAll(entries)| :: WithoutBreaks((head + RenderAll(entries))[i], IsNewline)
    requires !closed && entries == [] && head != [] ==> head[|head| - 1] != ""
    ensures Parsed(TextOf(head + RenderAll(entries), closed)) == Success(MapsOf(entries))
  {
    var st := State([], None);
    if entries != [] {
      LastLineIsNotEmpty(entries);
    }
    LinesOfText(head + RenderAll(entries), closed, IsNewline);
    forall i | 0 <= i < |head| ensures IsIgnored(Strip(head[i])) { NoiseIff(head[i]); }
    IgnoredLines(st, head);
    RunConcat(Step, st, head, RenderAll(entries));
    StepReadsPairs();
    EntriesRead(Step, st, entries);
    assert Flushed(st) + MapsOf(entries) == MapsOf(entries);
  }

  // Lines that do not matter, and lines that are errors

  /** A line that is blank, a comment, or starts with one of the two file keywords. */
  predicate IsNoise(raw: string) {
    var line := Strip(raw);
    line == "" || line[0] == '#' || "version:" <= line || "exceptions:" <= line
  }

  lemma NoiseIff(raw: string)
    ensures IsNoise(raw) <==> IsIgnored(Strip(raw))
  {
  }

  /** Lines end at a line feed or a carriage return. */
  lemma NewlineIff(c: char)
    ensures IsNewline(c) <==> c in "\n\r"
  {
  }

  /** What a value is read as: a quoted one without its quotes, a lone quote as nothing, any other as it is. */
  lemma UnquotedIs(value: string)
    ensures Unquoted("\"" + value + "\"") == value && Unquoted("'" + value + "'") == value
    ensures Unquoted("\"") == "" && Unquoted("'") == ""
    ensures value == "" || (value[0] != '"' && value[0] != '\'') || value[0] != value[|value| - 1] ==> Unquoted(value) == value
  {
    var double, single := "\"" + value + "\"", "'" + value + "'";
    assert double[0] == '"' && double[|double| - 1] == '"' && double[1..|double| - 1] == value;
    assert single[0] == '\'' && single[|single| - 1] == '\'' && single[1..|single| - 1] == value;
  }

  /** Noise may stand anywhere without changing what is read. */
  lemma IgnoredAnywhere(before: seq<string>, ignored: string, after: seq<string>)
    requires IsNoise(ignored) && Run(Step, State([], None), before).Success?
    ensures Run(Step, State([], None), before + [ignored] + after) == Run(Step, State([], None), before + after)
  {
    var st := State([], None);
    NoiseIff(ignored);
    RunConcat(Step, st, before, after);
    RunConcat(Step, st, before, [ignored]);
    RunConcat(Step, st, before + [ignored], after);
    RunOne(Step, Run(Step, st, before).value, ignored);
  }

  /** A list item that is not a pair: `- ` and some text without a colon. */
  predicate IsBareItem(raw: string) {
    var line := Strip(raw);
    !IsIgnored(line) && "- " <= line && Strip(line[2..]) != "" && ':' !in line[2..]
  }

  lemma StepFailsIff(st: State, raw: string)
    ensures Step(st, raw).Failure? <==> IsBareItem(raw)
  {
    if "- " <= Strip(raw) {
      StripKeeps(Strip(raw)[2..], ':');
    }
  }

  /** Stripping removes blanks only. */
  lemma StripKeeps(s: string, c: char)
    requires !IsSpace(c)
    ensures c in Strip(s) <==> c in s
  {
    TrimLeftKeeps(s, c);
    TrimRightKeeps(TrimLeft(s, IsSpace), c);
  }

  lemma {:induction false} TrimLeftKeeps(s: string, c: char)
    requires !IsSpace(c)
    ensures c in TrimLeft(s, IsSpace) <==> c in s
  {
    if s != "" && IsSpace(s[0]) {
      TrimLeftKeeps(s[1..], c);
      assert s == [s[0]] + s[1..];
    }
  }

  lemma {:induction false} TrimRightKeeps(s: string, c: char)
    requires !IsSpace(c)
    ensures c in TrimRight(s, IsSpace) <==> c in s
  {
    if s != "" && IsSpace(s[|s| - 1]) {
      TrimRightKeeps(s[..|s| - 1], c);
      assert s == s[..|s| - 1] + [s[|s| - 1]];
    }
  }

  predicate HasBareItem(lines: seq<string>) {
    exists i :: 0 <= i < |lines| && IsBareItem(lines[i])
  }

  /** Reading fails exactly when some line is a list item that is not a pair. */
  lemma {:induction false} ReadingFailsIff(st: State, lines: seq<string>)
    ensures Run(Step, st, lines).Failure? <==> HasBareItem(lines)
    decreases |lines|
  {
    if lines != [] {
      StepFailsIff(st, lines[0]);
      if Step(st, lines[0]).Success? {
        ReadingFailsIff(Step(st, lines[0]).value, lines[1..]);
        assert forall i | 1 <= i < |lines| :: lines[i] == lines[1..][i - 1];
      }
    }
  }

  lemma ParsedFailsIff(text: string)
    ensures Parsed(text).Failure? <==> HasBareItem(LinesOf(text, IsNewline))
  {
    ReadingFailsIff(State([], None), LinesOf(text, IsNewline));
  }
}
