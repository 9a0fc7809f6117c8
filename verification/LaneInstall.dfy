/** install_lane of scripts/codex-productive.py: one dispatch lane inserted into, or
    taken out of, a maintained YAML file without touching anything else in it. */
module LaneInstall {
  import opened Common

  type Line = seq<char>

  /** A text as its newline-terminated lines and what follows the last newline. */
  datatype Document = Document(lines: seq<Line>, rest: Line)

  // ---- text and lines ----

  function Terminated(lines: seq<Line>): string {
    if lines == [] then "" else lines[0] + "\n" + Terminated(lines[1..])
  }

  function Text(d: Document): string { Terminated(d.lines) + d.rest }

  /** The document of a text, given the line being read. */
  function Parse(line: Line, text: string): Document
    decreases |text|
  {
    if text == "" then Document([], line)
    else if text[0] == '\n' then
      var d := Parse("", text[1..]);
      Document([line] + d.lines, d.rest)
    else Parse(line + [text[0]], text[1..])
  }

  predicate OneLine(line: Line) { '\n' !in line }

  predicate ProperLines(lines: seq<Line>) { forall i :: 0 <= i < |lines| ==> OneLine(lines[i]) }

  lemma {:induction false} ParseKeepsText(line: Line, text: string)
    ensures Text(Parse(line, text)) == line + text
    decreases |text|
  {
    if text == "" {
      assert line + text == line;
    } else if text[0] == '\n' {
      ParseKeepsText("", text[1..]);
      TextOfFirstLine(line, Parse("", text[1..]));
      assert line + text == line + "\n" + ("" + text[1..]);
    } else {
      ParseKeepsText(line + [text[0]], text[1..]);
      assert line + text == line + [text[0]] + text[1..];
    }
  }

  lemma TextOfFirstLine(line: Line, d: Document)
    ensures Text(Document([line] + d.lines, d.rest)) == line + "\n" + Text(d)
  {
    assert ([line] + d.lines)[1..] == d.lines;
  }

  lemma {:induction false} ParsedLinesAreProper(line: Line, text: string)
    requires OneLine(line)
    ensures ProperLines(Parse(line, text).lines) && OneLine(Parse(line, text).rest)
    decreases |text|
  {
    if text != "" {
      if text[0] == '\n' {
        ParsedLinesAreProper("", text[1..]);
      } else {
        ParsedLinesAreProper(line + [text[0]], text[1..]);
      }
    }
  }

  lemma {:induction false} ParseLine(line: Line, more: Line, text: string)
    requires OneLine(more)
    ensures Parse(line, more + text) == Parse(line + more, text)
    decreases |more|
  {
    if more == "" {
      assert more + text == text && line + more == line;
    } else {
      assert (more + text)[1..] == more[1..] + text;
      assert line + more == line + [more[0]] + more[1..];
      ParseLine(line + [more[0]], more[1..], text);
    }
  }

  lemma {:induction false} ParseTerminated(lines: seq<Line>, rest: Line)
    requires ProperLines(lines) && OneLine(rest)
    ensures Parse("", Terminated(lines) + rest) == Document(lines, rest)
  {
    if lines == [] {
      assert Terminated(lines) + rest == rest + "";
      ParseLine("", rest, "");
    } else {
      var tail := Terminated(lines[1..]) + rest;
      assert Terminated(lines) + rest == lines[0] + ("\n" + tail);
      ParseLine("", lines[0], "\n" + tail);
      assert "" + lines[0] == lines[0];
      assert ("\n" + tail)[1..] == tail;
      assert forall i :: 0 <= i < |lines[1..]| ==> lines[1..][i] == lines[i + 1];
      ParseTerminated(lines[1..], rest);
      assert [lines[0]] + lines[1..] == lines;
    }
  }

  // ---- what the patterns look for ----

  /** The characters that count as white space, other than the newline. */
  predicate IsSpace(c: char) {
    || c == ' ' || '\U{9}' == c || '\U{B}' <= c <= '\U{D}' || '\U{1C}' <= c <= '\U{1F}' || c == '\U{85}' || c == '\U{A0}'
    || c == '\U{1680}' || '\U{2000}' <= c <= '\U{200A}' || c == '\U{2028}' || c == '\U{2029}' || c == '\U{202F}'
    || c == '\U{205F}' || c == '\U{3000}'
  }

  predicate IsLetter(c: char) { 'A' <= c <= 'Z' || 'a' <= c <= 'z' }

  predicate IsNameChar(c: char) { IsLetter(c) || '0' <= c <= '9' || c == '_' || c == '.' || c == '-' }

  predicate IsLabelChar(c: char) { IsNameChar(c) || c == ':' }

  predicate IsName(s: Line) { s != "" && forall c :: c in s ==> IsNameChar(c) }

  predicate IsLabel(s: Line) { s != "" && forall c :: c in s ==> IsLabelChar(c) }

  predicate IsBlank(line: Line) { forall c :: c in line ==> IsSpace(c) }

  predicate StartsWith(line: Line, prefix: Line) { |prefix| <= |line| && line[..|prefix|] == prefix }

  const LABEL: Line := "    - label: "
  const WORKERS: Line := "      workers:"
  const WORKER: Line := "      - "
  const WHEN_IDLE: Line := "      when_empty: idle"
  const WHEN_NORMAL: Line := "      when_empty: normal"

  datatype Mark = Header(name: Line) | Unindented | PluckKey | Written | NotRow

  predicate Matches(mark: Mark, line: Line) {
    match mark
    case Header(name) => StartsWith(line, name) && IsBlank(line[|name|..])
    case Unindented => line != "" && !IsSpace(line[0])
    case PluckKey => |line| >= 3 && line[0] == line[1] == ' ' && (IsLetter(line[2]) || line[2] == '_')
    case Written => !IsBlank(line)
    case NotRow => !StartsWith(line, "    -") && !StartsWith(line, "      ")
  }

  /** The first matching line of [from, to), or `to`. */
  function Find(lines: seq<Line>, mark: Mark, from: nat, to: nat): (f: nat)
    requires from <= to <= |lines|
    ensures from <= f <= to
    ensures forall i :: from <= i < f ==> !Matches(mark, lines[i])
    ensures f < to ==> Matches(mark, lines[f])
    decreases |lines| - from
  {
    if from == to || Matches(mark, lines[from]) then from else Find(lines, mark, from + 1, to)
  }

  datatype Refusal = InvalidLabel | MissingStrands | MissingPluck | UnrecognizedLayout | ComplexLayout
                   | OwnedLaneDiffers | WorkerBound

  /** Where the rows of the lanes list begin and end, and where its block ends. */
  datatype Rows = Rows(header: nat, first: nat, end: nat, blockEnd: nat)

  /** A mapping key's line within [from, to), and where its block ends. */
  function KeyBlock(lines: seq<Line>, key: Line, endMark: Mark, from: nat, to: nat): (r: Option<(nat, nat)>)
    requires from <= to <= |lines|
    ensures r.Some? ==> from <= r.value.0 < r.value.1 <= to
  {
    var h := Find(lines, Header(key), from, to);
    if h == to then None else Some((h, Find(lines, endMark, h + 1, to)))
  }

  function Locate(lines: seq<Line>): (r: Result<Rows, Refusal>)
    ensures r.Ok? ==> r.value.header < r.value.first <= r.value.end <= r.value.blockEnd <= |lines|
  {
    var strands := KeyBlock(lines, "strands:", Unindented, 0, |lines|);
    if strands.None? then Err(MissingStrands)
    else
      var pluck := KeyBlock(lines, "  pluck:", PluckKey, strands.value.0 + 1, strands.value.1);
      if pluck.None? then Err(MissingPluck)
      else
        var end := pluck.value.1;
        var lanes := Find(lines, Header("    lanes:"), pluck.value.0 + 1, end);
        if lanes == end then Err(UnrecognizedLayout)
        else
          // the white space after the header runs on over blank lines
          var first := Find(lines, Written, lanes + 1, end);
          Ok(Rows(lanes, first, Find(lines, NotRow, first, end), end))
  }

  // ---- rows ----

  datatype Entry = Entry(tag: Line, workers: seq<Line>, idle: bool)
  {
    predicate Valid() {
      IsLabel(tag) && workers != [] && forall i :: 0 <= i < |workers| ==> IsName(workers[i])
    }
  }

  function WorkerLines(workers: seq<Line>): (r: seq<Line>)
    ensures |r| == |workers| && forall i :: 0 <= i < |r| ==> r[i] == WORKER + workers[i]
  {
    seq(|workers|, i requires 0 <= i < |workers| => WORKER + workers[i])
  }

  function Render(e: Entry): (r: seq<Line>)
    ensures |r| == |e.workers| + 3
  {
    [LABEL + e.tag, WORKERS] + WorkerLines(e.workers) + [if e.idle then WHEN_IDLE else WHEN_NORMAL]
  }

  function RenderAll(es: seq<Entry>): seq<Line> {
    if es == [] then [] else Render(es[0]) + RenderAll(es[1..])
  }

  predicate IsWorkerLine(line: Line) { StartsWith(line, WORKER) && IsName(line[|WORKER|..]) }

  /** How many worker lines follow one another from i. */
  function WorkerRun(rows: seq<Line>, i: nat): (k: nat)
    requires i <= |rows|
    ensures i + k <= |rows|
    decreases |rows| - i
  {
    if i == |rows| || !IsWorkerLine(rows[i]) then 0 else 1 + WorkerRun(rows, i + 1)
  }

  predicate StartsEntry(rows: seq<Line>) {
    && |rows| >= 4
    && StartsWith(rows[0], LABEL) && IsLabel(rows[0][|LABEL|..])
    && rows[1] == WORKERS
    && var k := WorkerRun(rows, 2);
       1 <= k && 2 + k < |rows| && (rows[2 + k] == WHEN_IDLE || rows[2 + k] == WHEN_NORMAL)
  }

  function FirstEntry(rows: seq<Line>): Entry
    requires StartsEntry(rows)
  {
    var k := WorkerRun(rows, 2);
    Entry(rows[0][|LABEL|..],
          seq(k, i requires 0 <= i < k => if |rows[2 + i]| < |WORKER| then "" else rows[2 + i][|WORKER|..]),
          rows[2 + k] == WHEN_IDLE)
  }

  /** The entries the rows consist of, if they consist of entries. */
  function ParseRows(rows: seq<Line>): Option<seq<Entry>>
    decreases |rows|
  {
    if rows == [] then Some([])
    else if !StartsEntry(rows) then None
    else
      var more := ParseRows(rows[WorkerRun(rows, 2) + 3..]);
      if more.None? then None else Some([FirstEntry(rows)] + more.value)
  }

  lemma {:induction false} WorkerRunIs(rows: seq<Line>, i: nat, k: nat)
    requires i + k < |rows| && (forall j :: i <= j < i + k ==> IsWorkerLine(rows[j])) && !IsWorkerLine(rows[i + k])
    ensures WorkerRun(rows, i) == k
    decreases k
  {
    if k > 0 {
      WorkerRunIs(rows, i + 1, k - 1);
    }
  }

  lemma {:induction false} WorkerRunLines(rows: seq<Line>, i: nat)
    requires i <= |rows|
    ensures forall j :: i <= j < i + WorkerRun(rows, i) ==> IsWorkerLine(rows[j])
    ensures i + WorkerRun(rows, i) < |rows| ==> !IsWorkerLine(rows[i + WorkerRun(rows, i)])
    decreases |rows| - i
  {
    if i < |rows| && IsWorkerLine(rows[i]) {
      WorkerRunLines(rows, i + 1);
    }
  }

  lemma WhenIsNoWorker(line: Line)
    requires line == WHEN_IDLE || line == WHEN_NORMAL
    ensures !IsWorkerLine(line)
  {
    assert line[6] == 'w' && WORKER[6] == '-';
  }

  /** A rendered entry is read back, whatever rows follow it. */
  lemma RenderStarts(e: Entry, more: seq<Line>)
    requires e.Valid()
    ensures var rows := Render(e) + more;
            StartsEntry(rows) && WorkerRun(rows, 2) == |e.workers| && FirstEntry(rows) == e && rows[|e.workers| + 3..] == more
  {
    var rows := Render(e) + more;
    var k := |e.workers|;
    forall j | 2 <= j < 2 + k ensures IsWorkerLine(rows[j]) && rows[j][|WORKER|..] == e.workers[j - 2] {
      assert rows[j] == WORKER + e.workers[j - 2];
    }
    WhenIsNoWorker(rows[2 + k]);
    WorkerRunIs(rows, 2, k);
    assert rows[0][|LABEL|..] == e.tag;
    assert FirstEntry(rows).workers == e.workers;
  }

  lemma WorkerLineParts(line: Line)
    requires IsWorkerLine(line)
    ensures |WORKER| <= |line| && IsName(line[|WORKER|..]) && WORKER + line[|WORKER|..] == line
  {
  }

  lemma RenderIs(e: Entry, rows: seq<Line>)
    requires |rows| == |e.workers| + 3 && rows[0] == LABEL + e.tag && rows[1] == WORKERS
    requires forall j :: 0 <= j < |e.workers| ==> rows[2 + j] == WORKER + e.workers[j]
    requires rows[|rows| - 1] == if e.idle then WHEN_IDLE else WHEN_NORMAL
    ensures Render(e) == rows
  {
    assert rows[2..|rows| - 1] == WorkerLines(e.workers);
  }

  /** What is read as an entry renders to the same lines. */
  lemma FirstRenders(rows: seq<Line>)
    requires StartsEntry(rows)
    ensures FirstEntry(rows).Valid() && Render(FirstEntry(rows)) == rows[..WorkerRun(rows, 2) + 3]
  {
    hide IsWorkerLine, IsName, Render, WorkerRun;
    var k, e := WorkerRun(rows, 2), FirstEntry(rows);
    WorkerRunLines(rows, 2);
    forall j | 0 <= j < k ensures IsName(e.workers[j]) && WORKER + e.workers[j] == rows[2 + j] {
      WorkerLineParts(rows[2 + j]);
    }
    assert LABEL + e.tag == rows[0];
    RenderIs(e, rows[..k + 3]);
  }

  predicate AllValid(es: seq<Entry>) { forall i :: 0 <= i < |es| ==> es[i].Valid() }

  lemma ParseStep(rows: seq<Line>)
    requires rows != [] && ParseRows(rows).Some?
    ensures StartsEntry(rows)
    ensures var rest := rows[WorkerRun(rows, 2) + 3..];
            ParseRows(rest).Some? && ParseRows(rows).value == [FirstEntry(rows)] + ParseRows(rest).value
  {
    hide FirstEntry, IsLabel, WorkerRun;
  }

  lemma {:induction false} ParsedRowsRender(rows: seq<Line>)
    requires ParseRows(rows).Some?
    ensures RenderAll(ParseRows(rows).value) == rows && AllValid(ParseRows(rows).value)
    decreases |rows|
  {
    if rows != [] {
      ParseStep(rows);
      FirstRenders(rows);
      hide ParseRows, StartsEntry, FirstEntry, Render, WorkerRun, RenderAll;
      var k := WorkerRun(rows, 2);
      ParsedRowsRender(rows[k + 3..]);
      RenderCons(FirstEntry(rows), ParseRows(rows[k + 3..]).value);
      assert rows == rows[..k + 3] + rows[k + 3..];
    }
  }

  lemma RenderCons(e: Entry, es: seq<Entry>)
    ensures RenderAll([e] + es) == Render(e) + RenderAll(es)
  {
    assert ([e] + es)[1..] == es;
  }

  lemma {:induction false} RenderedRowsParse(es: seq<Entry>)
    requires AllValid(es)
    ensures ParseRows(RenderAll(es)) == Some(es)
  {
    if es != [] {
      RenderStarts(es[0], RenderAll(es[1..]));
      hide StartsEntry, FirstEntry, WorkerRun, Render;
      RenderedRowsParse(es[1..]);
      assert [es[0]] + es[1..] == es;
    }
  }

  lemma {:induction false} RenderAllAppend(xs: seq<Entry>, ys: seq<Entry>)
    ensures RenderAll(xs + ys) == RenderAll(xs) + RenderAll(ys)
  {
    if xs == [] {
      assert xs + ys == ys;
    } else {
      assert (xs + ys)[1..] == xs[1..] + ys;
      RenderAllAppend(xs[1..], ys);
    }
  }

  lemma RenderOne(e: Entry)
    ensures RenderAll([e]) == Render(e)
  {
    assert RenderAll([e][1..]) == [];
  }

  /** Rows with a block appended read as the old entries followed by the block's. */
  lemma ParseAppended(rows: seq<Line>, e: Entry)
    requires ParseRows(rows).Some? && e.Valid()
    ensures ParseRows(rows + Render(e)) == Some(ParseRows(rows).value + [e])
  {
    var es := ParseRows(rows).value;
    ParsedRowsRender(rows);
    RenderAllAppend(es, [e]);
    RenderOne(e);
    RenderedRowsParse(es + [e]);
  }

  // ---- the edit ----

  /** The lane of the settings: its label and the workers it dispatches to. */
  datatype Lane = Lane(tag: Line, names: seq<Line>)

  function Own(lane: Lane): Entry { Entry(lane.tag, lane.names, true) }

  predicate ValidTag(tag: Line) { IsLabel(tag) && (IsLetter(tag[0]) || '0' <= tag[0] <= '9') }

  /** What reading the settings has already checked of the worker names. */
  predicate ValidNames(lane: Lane) {
    lane.names != [] && forall i :: 0 <= i < |lane.names| ==> IsName(lane.names[i])
  }

  function FirstOwn(es: seq<Entry>, tag: Line): (i: nat)
    ensures i <= |es|
    ensures forall j :: 0 <= j < i ==> es[j].tag != tag
    ensures i < |es| ==> es[i].tag == tag
  {
    if es == [] || es[0].tag == tag then 0 else 1 + FirstOwn(es[1..], tag)
  }

  predicate Shares(e: Entry, names: seq<Line>) { exists w :: w in e.workers && w in names }

  predicate SharesAny(es: seq<Entry>, names: seq<Line>) { exists i :: 0 <= i < |es| && Shares(es[i], names) }

  function Inserted(lines: seq<Line>, at: nat, block: seq<Line>): seq<Line>
    requires at <= |lines|
  {
    lines[..at] + block + lines[at..]
  }

  function Removed(lines: seq<Line>, at: nat, n: nat): seq<Line>
    requires at + n <= |lines|
  {
    lines[..at] + lines[at + n..]
  }

  lemma RenderThree(xs: seq<Entry>, e: Entry, ys: seq<Entry>)
    ensures RenderAll(xs + [e] + ys) == RenderAll(xs) + Render(e) + RenderAll(ys)
  {
    hide Render, RenderAll;
    RenderOne(e);
    RenderAllAppend(xs, [e]);
    RenderAllAppend(xs + [e], ys);
  }

  /** Entry i lies inside the rows, after the entries before it. */
  lemma EntryWithin(es: seq<Entry>, i: nat)
    requires i < |es|
    ensures RenderAll(es) == RenderAll(es[..i]) + Render(es[i]) + RenderAll(es[i + 1..])
  {
    hide *;
    SplitAt(es, i);
    RenderThree(es[..i], es[i], es[i + 1..]);
  }

  lemma SplitAt(es: seq<Entry>, i: nat)
    requires i < |es|
    ensures es == es[..i] + [es[i]] + es[i + 1..]
  {
  }

  predicate RowsAre(lines: seq<Line>, at: Rows, es: seq<Entry>) {
    at.first <= at.end <= |lines| && lines[at.first..at.end] == RenderAll(es)
  }

  /** install_lane on the lines of a file: the new lines, or why it is refused. */
  function Edit(lane: Lane, lines: seq<Line>, remove: bool): Result<seq<Line>, Refusal> {
    if !ValidTag(lane.tag) then Err(InvalidLabel)
    else
      match Locate(lines)
      case Err(e) => Err(e)
      case Ok(at) =>
        var rows := lines[at.first..at.end];
        if ParseRows(rows).None? then Err(ComplexLayout)
        else
          ParsedRowsRender(rows);
          EditRows(lane, lines, at, ParseRows(rows).value, remove)
  }

  function EditRows(lane: Lane, lines: seq<Line>, at: Rows, es: seq<Entry>, remove: bool): Result<seq<Line>, Refusal>
    requires RowsAre(lines, at, es)
  {
    var i, block := FirstOwn(es, lane.tag), Render(Own(lane));
    if i < |es| then
      if FirstOwn(es[i + 1..], lane.tag) < |es| - i - 1 || Render(es[i]) != block then Err(OwnedLaneDiffers)
      else if !remove then Ok(lines)
      else
        EntryWithin(es, i);
        Ok(Removed(lines, at.first + |RenderAll(es[..i])|, |block|))
    else if remove then Ok(lines)
    else if SharesAny(es, lane.names) then Err(WorkerBound)
    else Ok(Inserted(lines, at.end, block))
  }

  // ---- an inserted block is found where it was put ----

  lemma {:induction false} FindIs(lines: seq<Line>, mark: Mark, from: nat, to: nat, f: nat)
    requires from <= f <= to <= |lines| && (forall i :: from <= i < f ==> !Matches(mark, lines[i]))
    requires f < to ==> Matches(mark, lines[f])
    ensures Find(lines, mark, from, to) == f
    decreases f - from
  {
    if from < f {
      FindIs(lines, mark, from + 1, to, f);
    }
  }

  lemma InsertedAt(lines: seq<Line>, at: nat, block: seq<Line>, i: nat)
    requires at <= |lines| && i < |lines| + |block|
    ensures Inserted(lines, at, block)[i]
            == if i < at then lines[i] else if i < at + |block| then block[i - at] else lines[i - |block|]
  {
  }

  /** What is found before the insertion is found again; what is found behind it moves
      along, if nothing in the block is such a line. */
  lemma FindAcross(lines: seq<Line>, mark: Mark, from: nat, to: nat, at: nat, block: seq<Line>, to': nat)
    requires from <= to <= |lines| && from <= at <= |lines|
    requires var f := Find(lines, mark, from, to);
             || (f < at && f < to && f < to')
             || (at <= f && to' == to + |block| && forall i :: 0 <= i < |block| ==> !Matches(mark, block[i]))
    requires from <= to' <= |lines| + |block|
    ensures var f := Find(lines, mark, from, to);
            Find(Inserted(lines, at, block), mark, from, to') == if f < at then f else f + |block|
  {
    hide Matches;
    var f, longer := Find(lines, mark, from, to), Inserted(lines, at, block);
    var g := if f < at then f else f + |block|;
    forall i | from <= i < g ensures !Matches(mark, longer[i]) {
      InsertedAt(lines, at, block, i);
    }
    if g < to' {
      InsertedAt(lines, at, block, g);
    }
    FindIs(longer, mark, from, to', g);
  }

  /** Lines that belong to a list of lanes. */
  predicate RowLines(block: seq<Line>) {
    block != [] && !IsBlank(block[0]) && forall i :: 0 <= i < |block| ==> !Matches(NotRow, block[i])
  }

  lemma RowLineIsInside(line: Line)
    requires !Matches(NotRow, line)
    ensures !Matches(Unindented, line) && !Matches(PluckKey, line)
  {
    assert StartsWith(line, "    -") ==> line[0] == "    -"[0] && line[2] == "    -"[2];
    assert StartsWith(line, "      ") ==> line[0] == "      "[0] && line[2] == "      "[2];
  }

  predicate NoneMatches(block: seq<Line>, mark: Mark) {
    forall i :: 0 <= i < |block| ==> !Matches(mark, block[i])
  }

  lemma KeyBlockAcross(lines: seq<Line>, key: Line, endMark: Mark, from: nat, to: nat, at: nat, block: seq<Line>)
    requires from <= to <= |lines| && KeyBlock(lines, key, endMark, from, to).Some? && NoneMatches(block, endMark)
    requires var b := KeyBlock(lines, key, endMark, from, to).value; b.0 < at <= b.1
    ensures at <= |lines| && to + |block| <= |Inserted(lines, at, block)|
    ensures var b := KeyBlock(lines, key, endMark, from, to).value;
            KeyBlock(Inserted(lines, at, block), key, endMark, from, to + |block|) == Some((b.0, b.1 + |block|))
  {
    hide Matches, Find;
    InsertedLength(lines, at, block);
    var b := KeyBlock(lines, key, endMark, from, to).value;
    hide Inserted;
    FindAcross(lines, Header(key), from, to, at, block, to + |block|);
    FindAcross(lines, endMark, b.0 + 1, to, at, block, to + |block|);
  }

  lemma LocateInserted(lines: seq<Line>, block: seq<Line>)
    requires Locate(lines).Ok? && RowLines(block)
    ensures var at := Locate(lines).value;
            Locate(Inserted(lines, at.end, block))
            == Ok(Rows(at.header, at.first, at.end + |block|, at.blockEnd + |block|))
  {
    hide RowLines, NoneMatches, KeyBlock, Find, Inserted, Locate;
    var at := Locate(lines).value;
    var strands, pluck := Located(lines);
    RowLinesAreInside(block);
    InsertedLength(lines, at.end, block);
    KeyBlockAcross(lines, "strands:", Unindented, 0, |lines|, at.end, block);
    KeyBlockAcross(lines, "  pluck:", PluckKey, strands.0 + 1, strands.1, at.end, block);
    RowsAcross(lines, at, pluck, block);
    LocateIs(Inserted(lines, at.end, block), (strands.0, strands.1 + |block|), (pluck.0, pluck.1 + |block|),
             Rows(at.header, at.first, at.end + |block|, at.blockEnd + |block|));
  }

  /** The searches behind a located list of lanes. */
  predicate LocatedBy(lines: seq<Line>, strands: (nat, nat), pluck: (nat, nat), at: Rows) {
    && strands.0 < strands.1 <= |lines| && pluck.0 < pluck.1 <= strands.1 && strands.0 < pluck.0
    && pluck.0 < at.header < at.first <= at.end <= at.blockEnd == pluck.1
    && KeyBlock(lines, "strands:", Unindented, 0, |lines|) == Some(strands)
    && KeyBlock(lines, "  pluck:", PluckKey, strands.0 + 1, strands.1) == Some(pluck)
    && at.header == Find(lines, Header("    lanes:"), pluck.0 + 1, pluck.1)
    && at.first == Find(lines, Written, at.header + 1, pluck.1)
    && at.end == Find(lines, NotRow, at.first, pluck.1)
  }

  lemma Located(lines: seq<Line>) returns (strands: (nat, nat), pluck: (nat, nat))
    requires Locate(lines).Ok?
    ensures LocatedBy(lines, strands, pluck, Locate(lines).value)
  {
    hide KeyBlock, Find;
    strands := KeyBlock(lines, "strands:", Unindented, 0, |lines|).value;
    pluck := KeyBlock(lines, "  pluck:", PluckKey, strands.0 + 1, strands.1).value;
  }

  // ---- the list of lanes, in the text itself ----

  /** White space other than the newline, by code point. */
  predicate White(c: char) {
    var n := c as int;
    || n == 32 || n == 9 || 11 <= n <= 13 || 28 <= n <= 31 || n == 133 || n == 160 || n == 5760 || 8192 <= n <= 8202
    || n == 8232 || n == 8233 || n == 8239 || n == 8287 || n == 12288
  }

  predicate Letter(c: char) { 65 <= c as int <= 90 || 97 <= c as int <= 122 }

  predicate WhiteLine(line: Line) { forall i :: 0 <= i < |line| ==> White(line[i]) }

  /** The line is this key and nothing but white space. */
  predicate KeyLine(line: Line, key: Line) {
    |key| <= |line| && line[..|key|] == key && WhiteLine(line[|key|..])
  }

  predicate AtMargin(line: Line) { 0 < |line| && !White(line[0]) }

  /** A key of the block one level below the margin. */
  predicate InnerKey(line: Line) { 2 < |line| && line[..2] == "  " && (Letter(line[2]) || line[2] == '_') }

  predicate RowText(line: Line) {
    (5 <= |line| && line[..5] == "    -") || (6 <= |line| && line[..6] == "      ")
  }

  predicate Digit(c: char) { 48 <= c as int <= 57 }

  /** A name is letters, digits, `_`, `.` and `-`; a label may hold `:` besides, and the
      lane's own starts with a letter or digit. */
  lemma NamesInText(line: Line)
    ensures IsName(line) <==> 0 < |line| && forall i :: 0 <= i < |line| ==> Letter(line[i]) || Digit(line[i]) || line[i] in "_.-"
    ensures IsLabel(line) <==> 0 < |line| && forall i :: 0 <= i < |line| ==> Letter(line[i]) || Digit(line[i]) || line[i] in "_.:-"
    ensures ValidTag(line) <==> IsLabel(line) && (Letter(line[0]) || Digit(line[0]))
  {
    assert forall c: char :: IsNameChar(c) <==> Letter(c) || Digit(c) || c in "_.-";
    assert forall c: char :: IsLabelChar(c) <==> Letter(c) || Digit(c) || c in "_.:-";
    assert forall i :: 0 <= i < |line| ==> line[i] in line;
    hide IsNameChar, IsLabelChar, Letter, Digit, IsLetter;
    assert ValidTag(line) <==> IsLabel(line) && (Letter(line[0]) || Digit(line[0])) by {
      if line != "" {
        FirstLetter(line[0]);
      }
    }
  }

  lemma FirstLetter(c: char)
    ensures IsLetter(c) <==> Letter(c)
    ensures '0' <= c <= '9' <==> Digit(c)
  {
  }

  lemma MarksInText(line: Line)
    ensures forall key :: Matches(Header(key), line) <==> KeyLine(line, key)
    ensures Matches(Unindented, line) <==> AtMargin(line)
    ensures Matches(PluckKey, line) <==> InnerKey(line)
    ensures Matches(Written, line) <==> !WhiteLine(line)
    ensures Matches(NotRow, line) <==> !RowText(line)
  {
    BlankIsWhite(line);
    forall key ensures Matches(Header(key), line) <==> KeyLine(line, key) {
      if |key| <= |line| {
        BlankIsWhite(line[|key|..]);
      }
    }
    if 2 < |line| {
      assert line[..2] == "  " <==> line[0] == line[1] == ' ';
    }
  }

  lemma BlankIsWhite(line: Line)
    ensures IsBlank(line) <==> WhiteLine(line)
  {
    forall c: char ensures IsSpace(c) <==> White(c) {
    }
    hide IsSpace, White;
    if IsBlank(line) {
      forall i | 0 <= i < |line| ensures White(line[i]) {
        assert line[i] in line;
      }
    }
  }

  /** The first `strands:` at the margin, the first `pluck:` inside it before the next line at
      the margin, the first `lanes:` inside that before its next key; the rows are the lines
      after it, blank ones skipped, as long as they look like rows. */
  ghost predicate LanesAt(lines: seq<Line>, s: nat, p: nat, at: Rows) {
    && s < p < at.header < at.first <= at.end <= at.blockEnd <= |lines|
    && KeyLine(lines[s], "strands:") && (forall i :: 0 <= i < s ==> !KeyLine(lines[i], "strands:"))
    && KeyLine(lines[p], "  pluck:") && (forall i :: s < i < p ==> !KeyLine(lines[i], "  pluck:"))
    && KeyLine(lines[at.header], "    lanes:") && (forall i :: p < i < at.header ==> !KeyLine(lines[i], "    lanes:"))
    && (forall i :: s < i < at.blockEnd ==> !AtMargin(lines[i]))
    && (forall i :: p < i < at.blockEnd ==> !InnerKey(lines[i]))
    && (at.blockEnd < |lines| ==> AtMargin(lines[at.blockEnd]) || InnerKey(lines[at.blockEnd]))
    && (forall i :: at.header < i < at.first ==> WhiteLine(lines[i]))
    && (at.first < at.blockEnd ==> !WhiteLine(lines[at.first]))
    && (forall i :: at.first <= i < at.end ==> RowText(lines[i]))
    && (at.end < at.blockEnd ==> !RowText(lines[at.end]))
  }

  /** The same in terms of the patterns. */
  ghost predicate LanesMarked(lines: seq<Line>, s: nat, p: nat, at: Rows) {
    && s < p < at.header < at.first <= at.end <= at.blockEnd <= |lines|
    && Matches(Header("strands:"), lines[s]) && (forall i :: 0 <= i < s ==> !Matches(Header("strands:"), lines[i]))
    && Matches(Header("  pluck:"), lines[p]) && (forall i :: s < i < p ==> !Matches(Header("  pluck:"), lines[i]))
    && Matches(Header("    lanes:"), lines[at.header])
    && (forall i :: p < i < at.header ==> !Matches(Header("    lanes:"), lines[i]))
    && (forall i :: s < i < at.blockEnd ==> !Matches(Unindented, lines[i]))
    && (forall i :: p < i < at.blockEnd ==> !Matches(PluckKey, lines[i]))
    && (at.blockEnd < |lines| ==> Matches(Unindented, lines[at.blockEnd]) || Matches(PluckKey, lines[at.blockEnd]))
    && (forall i :: at.header < i < at.first ==> !Matches(Written, lines[i]))
    && (at.first < at.blockEnd ==> Matches(Written, lines[at.first]))
    && (forall i :: at.first <= i < at.end ==> !Matches(NotRow, lines[i]))
    && (at.end < at.blockEnd ==> Matches(NotRow, lines[at.end]))
  }

  lemma LocatedMarks(lines: seq<Line>) returns (s: nat, p: nat)
    requires Locate(lines).Ok?
    ensures LanesMarked(lines, s, p, Locate(lines).value)
  {
    hide Matches, Locate;
    var strands, pluck := Located(lines);
    s, p := strands.0, pluck.0;
  }

  lemma LocatedInText(lines: seq<Line>) returns (s: nat, p: nat)
    requires Locate(lines).Ok?
    ensures LanesAt(lines, s, p, Locate(lines).value)
  {
    s, p := LocatedMarks(lines);
    hide Locate;
    MarkedInText(lines, s, p, Locate(lines).value);
  }

  lemma MarkedInText(lines: seq<Line>, s: nat, p: nat, at: Rows)
    requires LanesMarked(lines, s, p, at)
    ensures LanesAt(lines, s, p, at)
  {
    hide Matches, KeyLine, AtMargin, InnerKey, WhiteLine, RowText;
    forall i | 0 <= i < |lines| ensures InText(lines[i]) {
      TextOfMarks(lines[i]);
    }
  }

  ghost predicate InText(line: Line) {
    && (Matches(Header("strands:"), line) <==> KeyLine(line, "strands:"))
    && (Matches(Header("  pluck:"), line) <==> KeyLine(line, "  pluck:"))
    && (Matches(Header("    lanes:"), line) <==> KeyLine(line, "    lanes:"))
    && (Matches(Unindented, line) <==> AtMargin(line))
    && (Matches(PluckKey, line) <==> InnerKey(line))
    && (Matches(Written, line) <==> !WhiteLine(line))
    && (Matches(NotRow, line) <==> !RowText(line))
  }

  lemma TextOfMarks(line: Line)
    ensures InText(line)
  {
    hide Matches, KeyLine, AtMargin, InnerKey, WhiteLine, RowText;
    MarksInText(line);
  }

  lemma LocateIs(lines: seq<Line>, strands: (nat, nat), pluck: (nat, nat), at: Rows)
    requires LocatedBy(lines, strands, pluck, at)
    ensures Locate(lines) == Ok(at)
  {
    hide KeyBlock, Find;
  }

  lemma InsertedLength(lines: seq<Line>, at: nat, block: seq<Line>)
    requires at <= |lines|
    ensures |Inserted(lines, at, block)| == |lines| + |block|
  {
  }

  lemma RowLinesAreInside(block: seq<Line>)
    requires RowLines(block)
    ensures NoneMatches(block, Unindented) && NoneMatches(block, PluckKey)
  {
    hide Matches;
    forall i | 0 <= i < |block| ensures !Matches(Unindented, block[i]) && !Matches(PluckKey, block[i]) {
      RowLineIsInside(block[i]);
    }
  }

  /** The list of lanes grows by the inserted block. */
  lemma RowsAcross(lines: seq<Line>, at: Rows, pluck: (nat, nat), block: seq<Line>)
    requires pluck.0 < pluck.1 <= |lines| && RowLines(block) && at.blockEnd == pluck.1
    requires at.header < at.first <= at.end <= at.blockEnd && pluck.0 < at.header
    requires at.header == Find(lines, Header("    lanes:"), pluck.0 + 1, pluck.1)
    requires at.first == Find(lines, Written, at.header + 1, pluck.1)
    requires at.end == Find(lines, NotRow, at.first, pluck.1)
    ensures var longer, end := Inserted(lines, at.end, block), pluck.1 + |block|;
            && end <= |longer|
            && Find(longer, Header("    lanes:"), pluck.0 + 1, end) == at.header
            && Find(longer, Written, at.header + 1, end) == at.first
            && Find(longer, NotRow, at.first, end) == at.end + |block|
  {
    hide Matches, IsBlank, Find;
    var end := pluck.1 + |block|;
    FindAcross(lines, Header("    lanes:"), pluck.0 + 1, pluck.1, at.end, block, end);
    FirstRowInserted(lines, at.header + 1, at.first, at.end, pluck.1, block);
    FindAcross(lines, NotRow, at.first, pluck.1, at.end, block, end);
  }

  lemma FirstRowInserted(lines: seq<Line>, from: nat, first: nat, end: nat, to: nat, block: seq<Line>)
    requires from <= first <= end <= to <= |lines| && first == Find(lines, Written, from, to) && RowLines(block)
    ensures Find(Inserted(lines, end, block), Written, from, to + |block|) == first
  {
    if first < end {
      FindAcross(lines, Written, from, to, end, block, to + |block|);
    } else {
      var longer := Inserted(lines, end, block);
      assert longer[first] == block[0];
      assert forall i :: from <= i < first ==> longer[i] == lines[i];
      FindIs(longer, Written, from, to + |block|, first);
    }
  }

  lemma BlockIsRows(e: Entry)
    requires e.Valid()
    ensures RowLines(Render(e)) && ProperLines(Render(e))
  {
    var block := Render(e);
    NamesAreOneLine(e);
    forall i | 0 <= i < |block| ensures !Matches(NotRow, block[i]) && OneLine(block[i]) {
      if i == 0 {
        assert block[0][..5] == "    -";
      } else if i == 1 {
        assert block[1][..6] == "      ";
      } else if i < |e.workers| + 2 {
        assert block[i] == WORKER + e.workers[i - 2];
        assert block[i][..6] == "      ";
      } else {
        assert block[i][..6] == "      ";
      }
    }
    assert block[0][4] == '-' && !IsSpace('-');
    assert block[0][4] in block[0];
  }

  lemma NamesAreOneLine(e: Entry)
    requires e.Valid()
    ensures OneLine(LABEL + e.tag) && forall i :: 0 <= i < |e.workers| ==> OneLine(WORKER + e.workers[i])
  {
    assert OneLine(LABEL) && OneLine(WORKER);
    forall i | 0 <= i < |e.workers| ensures OneLine(WORKER + e.workers[i]) {
      assert IsName(e.workers[i]);
    }
  }

  // ---- install and remove ----

  lemma {:induction false} FirstOwnAppended(es: seq<Entry>, e: Entry)
    requires FirstOwn(es, e.tag) == |es|
    ensures FirstOwn(es + [e], e.tag) == |es|
  {
    if es != [] {
      assert (es + [e])[1..] == es[1..] + [e];
      FirstOwnAppended(es[1..], e);
    }
  }

  lemma AppendedOwn(es: seq<Entry>, lane: Lane)
    requires FirstOwn(es, lane.tag) == |es|
    ensures FirstOwn(es + [Own(lane)], lane.tag) == |es|
    ensures (es + [Own(lane)])[..|es|] == es && (es + [Own(lane)])[|es| + 1..] == [] && (es + [Own(lane)])[|es|] == Own(lane)
  {
    FirstOwnAppended(es, Own(lane));
  }

  /** An edit that inserted the block did so at the end of rows without the lane. */
  lemma InsertionFound(lane: Lane, lines: seq<Line>) returns (at: Rows, es: seq<Entry>)
    requires Edit(lane, lines, false).Ok? && Edit(lane, lines, false).value != lines
    ensures ValidTag(lane.tag) && Locate(lines) == Ok(at) && ParseRows(lines[at.first..at.end]) == Some(es)
    ensures RowsAre(lines, at, es) && FirstOwn(es, lane.tag) == |es|
    ensures Edit(lane, lines, false).value == Inserted(lines, at.end, Render(Own(lane)))
  {
    hide Locate, ParseRows, Render, Inserted, SharesAny;
    at := Locate(lines).value;
    es := ParseRows(lines[at.first..at.end]).value;
    ParsedRowsRender(lines[at.first..at.end]);
  }

  /** What the parser sees of a file once the block is in it. */
  lemma InsertionParsed(lane: Lane, lines: seq<Line>, at: Rows, es: seq<Entry>)
    requires ValidTag(lane.tag) && ValidNames(lane)
    requires Locate(lines) == Ok(at) && ParseRows(lines[at.first..at.end]) == Some(es)
    ensures var block := Render(Own(lane));
            var longer := Inserted(lines, at.end, block);
            && Locate(longer) == Ok(Rows(at.header, at.first, at.end + |block|, at.blockEnd + |block|))
            && at.end + |block| <= |longer|
            && longer[at.first..at.end + |block|] == lines[at.first..at.end] + block
            && ParseRows(longer[at.first..at.end + |block|]) == Some(es + [Own(lane)])
  {
    hide Locate, ParseRows, Render, Inserted, RowLines, IsLabel;
    var block := Render(Own(lane));
    BlockIsRows(Own(lane));
    LocateInserted(lines, block);
    InsertedLength(lines, at.end, block);
    InsertedSlice(lines, at.first, at.end, block);
    ParseAppended(lines[at.first..at.end], Own(lane));
  }

  lemma InsertedSlice(lines: seq<Line>, first: nat, end: nat, block: seq<Line>)
    requires first <= end <= |lines|
    ensures end + |block| <= |Inserted(lines, end, block)|
    ensures Inserted(lines, end, block)[first..end + |block|] == lines[first..end] + block
  {
  }

  lemma RemovedInserted(lines: seq<Line>, at: nat, block: seq<Line>)
    requires at <= |lines|
    ensures at + |block| <= |Inserted(lines, at, block)|
    ensures Removed(Inserted(lines, at, block), at, |block|) == lines
  {
  }

  /** Where the block was inserted, removing it restores every line, and installing it
      again changes nothing. */
  lemma RemoveUndoesInstall(lane: Lane, lines: seq<Line>)
    requires ValidNames(lane) && Edit(lane, lines, false).Ok? && Edit(lane, lines, false).value != lines
    ensures Edit(lane, Edit(lane, lines, false).value, true) == Ok(lines)
    ensures Edit(lane, Edit(lane, lines, false).value, false) == Edit(lane, lines, false)
  {
    hide Locate, ParseRows, Inserted, Removed, Render, RenderAll, Edit, Own;
    var at, es := InsertionFound(lane, lines);
    var block, longer := Render(Own(lane)), Edit(lane, lines, false).value;
    InsertionParsed(lane, lines, at, es);
    AppendedOwn(es, lane);
    RemovedInserted(lines, at.end, block);
    EditOfInserted(lane, longer, Rows(at.header, at.first, at.end + |block|, at.blockEnd + |block|), es);
    RowsLength(lines, at, es);
  }

  lemma RowsLength(lines: seq<Line>, at: Rows, es: seq<Entry>)
    requires RowsAre(lines, at, es)
    ensures at.first + |RenderAll(es)| == at.end
  {
  }

  /** On a file whose last lane is the block, installing keeps it and removing cuts it out. */
  lemma EditOfInserted(lane: Lane, longer: seq<Line>, at: Rows, es: seq<Entry>)
    requires ValidTag(lane.tag) && Locate(longer) == Ok(at)
    requires ParseRows(longer[at.first..at.end]) == Some(es + [Own(lane)]) && FirstOwn(es, lane.tag) == |es|
    ensures Edit(lane, longer, false) == Ok(longer)
    ensures at.first + |RenderAll(es)| + |Render(Own(lane))| <= |longer|
    ensures Edit(lane, longer, true) == Ok(Removed(longer, at.first + |RenderAll(es)|, |Render(Own(lane))|))
  {
    hide Locate, ParseRows, Render, RenderAll, Removed, Own, IsLabel;
    AppendedOwn(es, lane);
    var all := es + [Own(lane)];
    ParsedRowsRender(longer[at.first..at.end]);
    EntryWithin(all, |es|);
    NoLaterOwn(lane.tag);
  }

  lemma NoLaterOwn(tag: Line)
    ensures FirstOwn([], tag) == 0
  {
  }

  // ---- remove and install ----

  lemma InsertedRemoved(lines: seq<Line>, at: nat, n: nat)
    requires at + n <= |lines|
    ensures |Removed(lines, at, n)| == |lines| - n
    ensures Inserted(Removed(lines, at, n), at, lines[at..at + n]) == lines
    ensures forall i :: 0 <= i < at ==> Removed(lines, at, n)[i] == lines[i]
    ensures forall i :: at <= i < |lines| - n ==> Removed(lines, at, n)[i] == lines[i + n]
  {
  }

  lemma RemovedLength(lines: seq<Line>, at: nat, n: nat)
    requires at + n <= |lines|
    ensures |Removed(lines, at, n)| == |lines| - n
  {
  }

  /** What is found outside the removed lines is found again. */
  lemma FindOutside(lines: seq<Line>, mark: Mark, from: nat, to: nat, at: nat, n: nat, to': nat)
    requires from <= to <= |lines| && from <= at && at + n <= |lines|
    requires var f := Find(lines, mark, from, to);
             (f < at && f < to && f < to') || (at + n <= f && to' == to - n)
    requires from <= to' <= |lines| - n
    ensures var f := Find(lines, mark, from, to);
            Find(Removed(lines, at, n), mark, from, to') == if f < at then f else f - n
  {
    hide Matches, Find;
    InsertedRemoved(lines, at, n);
    var f, shorter := Find(lines, mark, from, to), Removed(lines, at, n);
    hide Removed;
    FindIs(shorter, mark, from, to', if f < at then f else f - n);
  }

  lemma KeyBlockOutside(lines: seq<Line>, key: Line, endMark: Mark, from: nat, to: nat, at: nat, n: nat)
    requires from <= to <= |lines| && KeyBlock(lines, key, endMark, from, to).Some? && at + n <= |lines|
    requires var b := KeyBlock(lines, key, endMark, from, to).value; b.0 < at && at + n <= b.1
    ensures from <= to - n <= |Removed(lines, at, n)|
    ensures var b := KeyBlock(lines, key, endMark, from, to).value;
            KeyBlock(Removed(lines, at, n), key, endMark, from, to - n) == Some((b.0, b.1 - n))
  {
    hide Matches, Find, Removed;
    RemovedLength(lines, at, n);
    var b := KeyBlock(lines, key, endMark, from, to).value;
    FindOutside(lines, Header(key), from, to, at, n, to - n);
    FindOutside(lines, endMark, b.0 + 1, to, at, n, to - n);
  }

  /** Once lines [start, start + n) are gone, the line at the first row is not blank, or
      there is none. */
  predicate RowsStay(lines: seq<Line>, at: Rows, start: nat, n: nat) {
    at.first < start || at.first + n == at.blockEnd || (at.first + n < |lines| && !IsBlank(lines[at.first + n]))
  }

  lemma LocateRemoved(lines: seq<Line>, at: Rows, start: nat, n: nat)
    requires Locate(lines) == Ok(at) && at.first <= start && start + n <= at.end && RowsStay(lines, at, start, n)
    ensures Locate(Removed(lines, start, n)) == Ok(Rows(at.header, at.first, at.end - n, at.blockEnd - n))
  {
    hide KeyBlock, Find, Locate, RowsStay, Removed;
    hide Matches, IsBlank;
    var strands, pluck := Located(lines);
    RemovedLength(lines, start, n);
    KeyBlockOutside(lines, "strands:", Unindented, 0, |lines|, start, n);
    KeyBlockOutside(lines, "  pluck:", PluckKey, strands.0 + 1, strands.1, start, n);
    RowsOutside(lines, at, pluck, start, n);
    LocateIs(Removed(lines, start, n), (strands.0, strands.1 - n), (pluck.0, pluck.1 - n),
             Rows(at.header, at.first, at.end - n, at.blockEnd - n));
  }

  /** The list of lanes shrinks by the removed lines. */
  lemma RowsOutside(lines: seq<Line>, at: Rows, pluck: (nat, nat), start: nat, n: nat)
    requires pluck.0 < pluck.1 <= |lines| && at.blockEnd == pluck.1 && RowsStay(lines, at, start, n)
    requires pluck.0 < at.header < at.first <= start && start + n <= at.end <= at.blockEnd
    requires at.header == Find(lines, Header("    lanes:"), pluck.0 + 1, pluck.1)
    requires at.first == Find(lines, Written, at.header + 1, pluck.1)
    requires at.end == Find(lines, NotRow, at.first, pluck.1)
    ensures var shorter, end := Removed(lines, start, n), pluck.1 - n;
            && 0 <= end <= |shorter|
            && Find(shorter, Header("    lanes:"), pluck.0 + 1, end) == at.header
            && Find(shorter, Written, at.header + 1, end) == at.first
            && Find(shorter, NotRow, at.first, end) == at.end - n
  {
    hide Find, RowsStay, Removed, Matches;
    RemovedLength(lines, start, n);
    FindOutside(lines, Header("    lanes:"), pluck.0 + 1, pluck.1, start, n, pluck.1 - n);
    FirstRowOutside(lines, at, start, n);
    FindOutside(lines, NotRow, at.first, pluck.1, start, n, pluck.1 - n);
  }

  lemma FirstRowOutside(lines: seq<Line>, at: Rows, start: nat, n: nat)
    requires at.header < at.first <= start && start + n <= at.end <= at.blockEnd <= |lines|
    requires at.first == Find(lines, Written, at.header + 1, at.blockEnd) && RowsStay(lines, at, start, n)
    ensures at.blockEnd - n <= |Removed(lines, start, n)|
    ensures Find(Removed(lines, start, n), Written, at.header + 1, at.blockEnd - n) == at.first
  {
    InsertedRemoved(lines, start, n);
    hide Removed, IsBlank;
    if at.first < start {
      FindOutside(lines, Written, at.header + 1, at.blockEnd, start, n, at.blockEnd - n);
    } else {
      FindIs(Removed(lines, start, n), Written, at.header + 1, at.blockEnd - n, at.first);
    }
  }

  /** The file has the lane as entry i of its rows, once, exactly as the settings give it. */
  ghost predicate HasOwn(lane: Lane, lines: seq<Line>, at: Rows, es: seq<Entry>, i: nat) {
    && ValidTag(lane.tag) && ValidNames(lane)
    && Locate(lines) == Ok(at) && ParseRows(lines[at.first..at.end]) == Some(es)
    && i < |es| && FirstOwn(es, lane.tag) == i && FirstOwn(es[i + 1..], lane.tag) == |es| - i - 1
    && Render(es[i]) == Render(Own(lane))
  }

  function Others(es: seq<Entry>, i: nat): seq<Entry>
    requires i < |es|
  {
    es[..i] + es[i + 1..]
  }

  lemma {:induction false} NoneOwn(es: seq<Entry>, tag: Line)
    ensures FirstOwn(es, tag) == |es| <==> forall i :: 0 <= i < |es| ==> es[i].tag != tag
  {
    if es != [] {
      NoneOwn(es[1..], tag);
      assert forall i :: 1 <= i < |es| ==> es[i] == es[1..][i - 1];
    }
  }

  /** Another lane under the same label, or one that is not as the settings give it. */
  ghost predicate Differs(lane: Lane, es: seq<Entry>) {
    exists i :: 0 <= i < |es| && es[i].tag == lane.tag && (Render(es[i]) != Render(Own(lane)) || Repeated(es, i))
  }

  predicate Repeated(es: seq<Entry>, i: nat)
    requires i < |es|
  {
    exists j :: 0 <= j < |es| && j != i && es[j].tag == es[i].tag
  }

  /** A worker of the settings that some lane on file already lists. */
  ghost predicate Bound(lane: Lane, es: seq<Entry>) {
    exists i, w :: 0 <= i < |es| && w in es[i].workers && w in lane.names
  }

  lemma OneOwn(es: seq<Entry>, tag: Line)
    requires FirstOwn(es, tag) < |es|
    ensures var i := FirstOwn(es, tag);
            FirstOwn(es[i + 1..], tag) < |es| - i - 1 <==> Repeated(es, i)
  {
    var i := FirstOwn(es, tag);
    var later := es[i + 1..];
    NoneOwn(later, tag);
    var f := FirstOwn(later, tag);
    if f < |later| {
      assert later[f] == es[i + 1 + f];
    }
    if Repeated(es, i) {
      var j :| 0 <= j < |es| && j != i && es[j].tag == es[i].tag;
      assert later[j - i - 1] == es[j];
    }
  }

  lemma DiffersAtFirst(lane: Lane, es: seq<Entry>)
    ensures var i := FirstOwn(es, lane.tag);
            Differs(lane, es) <==> i < |es| && (Render(es[i]) != Render(Own(lane)) || Repeated(es, i))
  {
    hide Render, Own;
    var i := FirstOwn(es, lane.tag);
    NoneOwn(es, lane.tag);
    if Differs(lane, es) {
      var k :| 0 <= k < |es| && es[k].tag == lane.tag && (Render(es[k]) != Render(Own(lane)) || Repeated(es, k));
      if k != i {
        assert es[k].tag == es[i].tag;
      }
    }
  }

  /** What a readable file is refused for: its own label on more than one lane, or on one
      that differs; or, to install, a worker that another lane has. */
  lemma RefusedExactly(lane: Lane, lines: seq<Line>, at: Rows, es: seq<Entry>, remove: bool)
    requires ValidTag(lane.tag) && Locate(lines) == Ok(at) && ParseRows(lines[at.first..at.end]) == Some(es)
    ensures Edit(lane, lines, remove) == Err(OwnedLaneDiffers) <==> Differs(lane, es)
    ensures Edit(lane, lines, remove) == Err(WorkerBound)
            <==> !remove && (forall i :: 0 <= i < |es| ==> es[i].tag != lane.tag) && Bound(lane, es)
    ensures Edit(lane, lines, remove).Err? ==> Edit(lane, lines, remove).error in {OwnedLaneDiffers, WorkerBound}
  {
    hide Locate, ParseRows, Render, RenderAll, Own, Inserted, Removed, IsLabel;
    NoneOwn(es, lane.tag);
    DiffersAtFirst(lane, es);
    BoundIsShared(lane, es);
    if FirstOwn(es, lane.tag) < |es| {
      OneOwn(es, lane.tag);
    }
    hide Differs, Bound, SharesAny, Repeated, FirstOwn;
    ParsedRowsRender(lines[at.first..at.end]);
  }

  lemma BoundIsShared(lane: Lane, es: seq<Entry>)
    ensures SharesAny(es, lane.names) <==> Bound(lane, es)
  {
    if SharesAny(es, lane.names) {
      var i :| 0 <= i < |es| && Shares(es[i], lane.names);
      assert exists w :: w in es[i].workers && w in lane.names;
    }
    if Bound(lane, es) {
      var i, w :| 0 <= i < |es| && w in es[i].workers && w in lane.names;
      assert Shares(es[i], lane.names);
    }
  }

  lemma OthersHaveNoOwn(es: seq<Entry>, i: nat, tag: Line)
    requires i < |es| && FirstOwn(es, tag) == i && FirstOwn(es[i + 1..], tag) == |es| - i - 1
    ensures FirstOwn(Others(es, i), tag) == |es| - 1
    ensures i + 1 < |es| ==> es[i + 1].tag != tag
  {
    NoneOwn(es[i + 1..], tag);
    NoneOwn(Others(es, i), tag);
    if i + 1 < |es| {
      assert es[i + 1] == es[i + 1..][0];
    }
  }

  /** The block starts at `start` among the rows, and without it `left` is left of them. */
  ghost predicate BlockLies(lines: seq<Line>, at: Rows, start: nat, block: seq<Line>, left: seq<Line>) {
    && at.first <= start && start + |block| <= at.end <= |lines|
    && lines[start..start + |block|] == block
    && Removed(lines, start, |block|)[at.first..at.end - |block|] == left
  }

  /** Where the block of entry i lies, and what is left of the rows without it. */
  lemma OwnBlock(lane: Lane, lines: seq<Line>, at: Rows, es: seq<Entry>, i: nat) returns (start: nat)
    requires HasOwn(lane, lines, at, es, i)
    ensures var block := Render(Own(lane));
            && BlockLies(lines, at, start, block, RenderAll(Others(es, i)))
            && Edit(lane, lines, true) == Ok(Removed(lines, start, |block|))
            && (i + 1 == |es| <==> start + |block| == at.end)
            && (i + 1 < |es| ==> lines[start + |block|] == LABEL + es[i + 1].tag)
            && (i == 0 <==> start == at.first)
  {
    hide Locate, ParseRows, IsLabel, IsName, Edit, BlockLies;
    var before, block, behind := RenderAll(es[..i]), Render(Own(lane)), RenderAll(es[i + 1..]);
    start := at.first + |before|;
    EditRemoves(lane, lines, at, es, i);
    OwnRows(lane, lines, at, es, i);
    OthersRender(es, i);
    hide HasOwn, FirstOwn, Render, RenderAll, Others, Own;
    BlockInRows(lines, at, before, block, behind);
    RenderAllSize(es[..i]);
    RenderAllSize(es[i + 1..]);
  }

  /** The rows around the own lane's block. */
  lemma OwnRows(lane: Lane, lines: seq<Line>, at: Rows, es: seq<Entry>, i: nat)
    requires HasOwn(lane, lines, at, es, i)
    ensures i < |es| && at.first <= at.end <= |lines|
    ensures lines[at.first..at.end] == RenderAll(es[..i]) + Render(Own(lane)) + RenderAll(es[i + 1..])
  {
    OwnFacts(lane, lines, at, es, i);
    hide *;
    EntryWithin(es, i);
  }

  lemma OthersRender(es: seq<Entry>, i: nat)
    requires i < |es|
    ensures RenderAll(Others(es, i)) == RenderAll(es[..i]) + RenderAll(es[i + 1..])
  {
    hide RenderAll;
    RenderAllAppend(es[..i], es[i + 1..]);
  }

  lemma OwnFacts(lane: Lane, lines: seq<Line>, at: Rows, es: seq<Entry>, i: nat)
    requires HasOwn(lane, lines, at, es, i)
    ensures at.first <= at.end <= |lines| && lines[at.first..at.end] == RenderAll(es)
    ensures i < |es| && Render(es[i]) == Render(Own(lane))
  {
    hide Locate, ParseRows, IsLabel, IsName, Render, FirstOwn;
    ParsedRowsRender(lines[at.first..at.end]);
  }

  lemma EditRemoves(lane: Lane, lines: seq<Line>, at: Rows, es: seq<Entry>, i: nat)
    requires HasOwn(lane, lines, at, es, i)
    ensures var start, n := at.first + |RenderAll(es[..i])|, |Render(Own(lane))|;
            start + n <= |lines| && Edit(lane, lines, true) == Ok(Removed(lines, start, n))
  {
    hide Locate, ParseRows, IsLabel, IsName, Render, RenderAll, Removed, Own, FirstOwn;
    ParsedRowsRender(lines[at.first..at.end]);
    EntryWithin(es, i);
  }

  lemma BlockInRows(lines: seq<Line>, at: Rows, before: seq<Line>, block: seq<Line>, behind: seq<Line>)
    requires at.first <= at.end <= |lines| && lines[at.first..at.end] == before + block + behind
    ensures var start := at.first + |before|;
            && BlockLies(lines, at, start, block, before + behind)
            && (behind != [] ==> start + |block| < at.end && lines[start + |block|] == behind[0])
            && (behind == [] ==> start + |block| == at.end)
  {
    var start := at.first + |before|;
    var rows := lines[at.first..at.end];
    assert forall j :: 0 <= j < |rows| ==> lines[at.first + j] == rows[j];
    forall j | 0 <= j < |block| ensures lines[start + j] == block[j] {
      assert lines[start + j] == rows[|before| + j];
    }
    assert lines[start..start + |block|] == block;
    var left := Removed(lines, start, |block|)[at.first..at.end - |block|];
    assert |left| == |before| + |behind|;
    forall j | 0 <= j < |left| ensures left[j] == (before + behind)[j] {
      if j < |before| {
        assert left[j] == rows[j];
      } else {
        assert left[j] == rows[j + |block|];
      }
    }
    if behind != [] {
      assert lines[start + |block|] == rows[|before| + |block|];
    }
  }

  lemma RenderAllSize(es: seq<Entry>)
    ensures RenderAll(es) == [] <==> es == []
    ensures es != [] ==> RenderAll(es)[0] == LABEL + es[0].tag
  {
  }

  /** Nothing keeps a removed lane from coming back where it was. */
  ghost predicate ComesBack(lane: Lane, lines: seq<Line>, at: Rows, es: seq<Entry>, i: nat)
    requires i < |es|
  {
    && i + 1 == |es|
    && !SharesAny(Others(es, i), lane.names)
    && (i > 0 || at.end == at.blockEnd || (at.end < |lines| && !IsBlank(lines[at.end])))
  }

  lemma EntryLineIsWritten(tag: Line)
    ensures !IsBlank(LABEL + tag)
  {
    assert (LABEL + tag)[4] == '-' && !IsSpace('-');
    assert (LABEL + tag)[4] in LABEL + tag;
  }

  lemma EditIs(lane: Lane, lines: seq<Line>, at: Rows, es: seq<Entry>)
    requires ValidTag(lane.tag) && Locate(lines) == Ok(at) && ParseRows(lines[at.first..at.end]) == Some(es)
    requires FirstOwn(es, lane.tag) == |es|
    ensures Edit(lane, lines, false) == if SharesAny(es, lane.names) then Err(WorkerBound)
                                        else Ok(Inserted(lines, at.end, Render(Own(lane))))
  {
    hide Locate, ParseRows, Render, Own, SharesAny, Inserted, IsLabel;
    ParsedRowsRender(lines[at.first..at.end]);
  }

  /** Without the own lane left the rows parse to the other entries. */
  lemma RemovedParsed(lane: Lane, lines: seq<Line>, at: Rows, es: seq<Entry>, i: nat, start: nat)
    requires HasOwn(lane, lines, at, es, i)
    requires var n := |Render(Own(lane))|;
             && at.first <= start && start + n <= at.end && RowsStay(lines, at, start, n)
             && Removed(lines, start, n)[at.first..at.end - n] == RenderAll(Others(es, i))
    ensures var n := |Render(Own(lane))|;
            var left := Removed(lines, start, n);
            && at.end - n <= |left|
            && Edit(lane, left, false)
               == if SharesAny(Others(es, i), lane.names) then Err(WorkerBound)
                  else Ok(Inserted(left, at.end - n, Render(Own(lane))))
  {
    hide Locate, ParseRows, Render, RenderAll, Own, SharesAny, IsLabel, IsName, Inserted, Removed, FirstOwn, RowsStay, Edit;
    var n := |Render(Own(lane))|;
    RemovedLength(lines, start, n);
    OthersHaveNoOwn(es, i, lane.tag);
    OthersParse(lines, at, es, i);
    LocateRemoved(lines, at, start, n);
    EditIs(lane, Removed(lines, start, n), Rows(at.header, at.first, at.end - n, at.blockEnd - n), Others(es, i));
  }

  lemma OthersParse(lines: seq<Line>, at: Rows, es: seq<Entry>, i: nat)
    requires at.first <= at.end <= |lines| && ParseRows(lines[at.first..at.end]) == Some(es) && i < |es|
    ensures ParseRows(RenderAll(Others(es, i))) == Some(Others(es, i))
  {
    hide ParseRows, RenderAll;
    ParsedRowsRender(lines[at.first..at.end]);
    forall j | 0 <= j < |Others(es, i)| ensures Others(es, i)[j].Valid() {
      assert Others(es, i)[j] == if j < i then es[j] else es[j + 1];
    }
    RenderedRowsParse(Others(es, i));
  }

  /** The own lane's block and where it starts. */
  ghost predicate OwnAt(lane: Lane, lines: seq<Line>, at: Rows, es: seq<Entry>, i: nat, start: nat) {
    HasOwn(lane, lines, at, es, i) && BlockLies(lines, at, start, Render(Own(lane)), RenderAll(Others(es, i)))
  }

  lemma LastComesBack(lane: Lane, lines: seq<Line>, at: Rows, es: seq<Entry>, i: nat, start: nat)
    requires OwnAt(lane, lines, at, es, i, start) && RowsStay(lines, at, start, |Render(Own(lane))|)
    requires start + |Render(Own(lane))| == at.end
    ensures Edit(lane, Removed(lines, start, |Render(Own(lane))|), false) == Ok(lines) <==> !SharesAny(Others(es, i), lane.names)
  {
    hide HasOwn, Render, RenderAll, Own, SharesAny, Edit, RowsStay, Others, Removed;
    RemovedParsed(lane, lines, at, es, i, start);
    InsertedRemoved(lines, start, |Render(Own(lane))|);
  }

  lemma EarlierDoesNot(lane: Lane, lines: seq<Line>, at: Rows, es: seq<Entry>, i: nat, start: nat)
    requires OwnAt(lane, lines, at, es, i, start) && RowsStay(lines, at, start, |Render(Own(lane))|)
    requires i + 1 < |es| && start + |Render(Own(lane))| < at.end
    requires lines[start + |Render(Own(lane))|] == LABEL + es[i + 1].tag
    ensures Edit(lane, Removed(lines, start, |Render(Own(lane))|), false) != Ok(lines)
  {
    hide *;
    OwnAtHas(lane, lines, at, es, i, start);
    var n := |Render(Own(lane))|;
    var left := Removed(lines, start, n);
    NextLineDiffers(lane, lines, at, es, i);
    RemovedParsed(lane, lines, at, es, i, start);
    InsertedRemoved(lines, start, n);
    InsertedAt(left, at.end - n, Render(Own(lane)), start);
    assert lines[start] == Render(Own(lane))[0] by {
      assert lines[start..start + n][0] == lines[start];
    }
  }

  lemma OwnAtHas(lane: Lane, lines: seq<Line>, at: Rows, es: seq<Entry>, i: nat, start: nat)
    requires OwnAt(lane, lines, at, es, i, start)
    ensures var n := |Render(Own(lane))|;
            && HasOwn(lane, lines, at, es, i)
            && at.first <= start && start + n <= at.end <= |lines|
            && lines[start..start + n] == Render(Own(lane))
            && Removed(lines, start, n)[at.first..at.end - n] == RenderAll(Others(es, i))
  {
    hide HasOwn, Render, RenderAll, Removed, Others;
  }

  lemma NextLineDiffers(lane: Lane, lines: seq<Line>, at: Rows, es: seq<Entry>, i: nat)
    requires HasOwn(lane, lines, at, es, i) && i + 1 < |es|
    ensures |Render(Own(lane))| > 0 && Render(Own(lane))[0] != LABEL + es[i + 1].tag
  {
    hide Locate, ParseRows, IsLabel, IsName;
    OthersHaveNoOwn(es, i, lane.tag);
    DifferentTags(es[i + 1].tag, lane.tag);
    FirstLineOf(Own(lane));
  }

  /** Removing a lane and installing it again gives back the file if and only if the lane
      was the last one, shares no worker with another, and does not leave an empty list
      in front of a blank line, which the header would swallow. */
  lemma InstallUndoesRemoveExactly(lane: Lane, lines: seq<Line>, at: Rows, es: seq<Entry>, i: nat)
    requires HasOwn(lane, lines, at, es, i)
    ensures Edit(lane, lines, true).Ok?
    ensures Edit(lane, Edit(lane, lines, true).value, false) == Ok(lines) <==> ComesBack(lane, lines, at, es, i)
  {
    hide HasOwn, ParseRows, Render, RenderAll, Own, SharesAny, Edit, FirstOwn, Others, Removed, Locate;
    var start := OwnBlock(lane, lines, at, es, i);
    var n := |Render(Own(lane))|;
    OwnBlockStarts(lane);
    LocatedRows(lane, lines, at, es, i);
    if i + 1 < |es| {
      EntryLineIsWritten(es[i + 1].tag);
    }
    if !RowsStay(lines, at, start, n) {
      SwallowedRows(lane, lines, at, start, n);
    } else if i + 1 == |es| {
      LastComesBack(lane, lines, at, es, i, start);
    } else {
      EarlierDoesNot(lane, lines, at, es, i, start);
    }
  }

  // ---- the least file that does not come back ----

  const BARE: seq<Line> := ["strands:", "  pluck:", "    lanes:"]

  lemma WholeHeader(key: Line)
    ensures Matches(Header(key), key)
  {
    assert key[|key|..] == "";
  }

  lemma LocateBare()
    ensures Locate(BARE) == Ok(Rows(2, 3, 3, 3))
  {
    WholeHeader("strands:");
    WholeHeader("  pluck:");
    WholeHeader("    lanes:");
    FindIs(BARE, Header("strands:"), 0, 3, 0);
    assert !Matches(Unindented, BARE[1]) && !Matches(Unindented, BARE[2]);
    FindIs(BARE, Unindented, 1, 3, 3);
    FindIs(BARE, Header("  pluck:"), 1, 3, 1);
    assert !Matches(PluckKey, BARE[2]);
    FindIs(BARE, PluckKey, 2, 3, 3);
    FindIs(BARE, Header("    lanes:"), 2, 3, 2);
    FindIs(BARE, Written, 3, 3, 3);
    FindIs(BARE, NotRow, 3, 3, 3);
  }

  /** Installing where nothing of the lane is on file yet, and what is read afterwards. */
  lemma InstallsBehind(lane: Lane, lines: seq<Line>, at: Rows, es: seq<Entry>) returns (at': Rows)
    requires ValidTag(lane.tag) && ValidNames(lane)
    requires Locate(lines) == Ok(at) && ParseRows(lines[at.first..at.end]) == Some(es)
    requires FirstOwn(es, lane.tag) == |es| && !SharesAny(es, lane.names)
    ensures Edit(lane, lines, false).Ok?
    ensures var longer := Edit(lane, lines, false).value;
            && Locate(longer) == Ok(at') && ParseRows(longer[at'.first..at'.end]) == Some(es + [Own(lane)])
  {
    hide Locate, ParseRows, Render, Own, SharesAny, Inserted, IsLabel, FirstOwn, Edit, ValidNames, ValidTag;
    EditIs(lane, lines, at, es);
    InsertionParsed(lane, lines, at, es);
    var n := |Render(Own(lane))|;
    at' := Rows(at.header, at.first, at.end + n, at.blockEnd + n);
  }

  lemma FirstInstalled(a: Lane) returns (at: Rows)
    requires a == Lane("a", ["x"]) && ValidTag(a.tag) && ValidNames(a)
    ensures Edit(a, BARE, false).Ok?
    ensures var one := Edit(a, BARE, false).value;
            Locate(one) == Ok(at) && ParseRows(one[at.first..at.end]) == Some([Own(a)])
  {
    LocateBare();
    var none: seq<Entry> := [];
    assert ParseRows(BARE[3..3]) == Some(none);
    assert FirstOwn(none, a.tag) == 0 && !SharesAny(none, a.names);
    hide Edit, Locate, ParseRows, Own, ValidTag, ValidNames, FirstOwn, SharesAny;
    at := InstallsBehind(a, BARE, Rows(2, 3, 3, 3), none);
    assert none + [Own(a)] == [Own(a)];
  }

  lemma SecondInstalled(a: Lane, b: Lane, one: seq<Line>, at: Rows) returns (at': Rows)
    requires a == Lane("a", ["x"]) && b == Lane("b", ["y"]) && ValidTag(b.tag) && ValidNames(b)
    requires Locate(one) == Ok(at) && ParseRows(one[at.first..at.end]) == Some([Own(a)])
    ensures Edit(b, one, false).Ok?
    ensures var both := Edit(b, one, false).value;
            Locate(both) == Ok(at') && ParseRows(both[at'.first..at'.end]) == Some([Own(a), Own(b)])
  {
    OneLane(a, b);
    hide Edit, Locate, ParseRows, Own, ValidTag, ValidNames, FirstOwn, SharesAny;
    at' := InstallsBehind(b, one, at, [Own(a)]);
    assert [Own(a)] + [Own(b)] == [Own(a), Own(b)];
  }

  /** Two lanes installed into the bare file one after the other, and the first of them
      taken out and installed again: it comes back behind the second. */
  lemma EarlierLaneMoves(a: Lane, b: Lane)
    requires a == Lane("a", ["x"]) && b == Lane("b", ["y"])
    ensures Edit(a, BARE, false).Ok? && Edit(b, Edit(a, BARE, false).value, false).Ok?
    ensures var both := Edit(b, Edit(a, BARE, false).value, false).value;
            Edit(a, both, true).Ok? && Edit(a, Edit(a, both, true).value, false) != Ok(both)
  {
    ValidLanes(a, b);
    hide Edit, Locate, ParseRows, Own, ValidTag, ValidNames, HasOwn, ComesBack;
    var one := FirstInstalled(a);
    var two := SecondInstalled(a, b, Edit(a, BARE, false).value, one);
    var both := Edit(b, Edit(a, BARE, false).value, false).value;
    FirstOfTwo(a, b, both, two);
    InstallUndoesRemoveExactly(a, both, two, [Own(a), Own(b)], 0);
  }

  lemma ValidLanes(a: Lane, b: Lane)
    requires a == Lane("a", ["x"]) && b == Lane("b", ["y"])
    ensures ValidTag(a.tag) && ValidNames(a) && ValidTag(b.tag) && ValidNames(b)
  {
  }

  lemma OneLane(a: Lane, b: Lane)
    requires a == Lane("a", ["x"]) && b == Lane("b", ["y"])
    ensures FirstOwn([Own(a)], b.tag) == 1 && !SharesAny([Own(a)], b.names)
  {
    assert [Own(a)][1..] == [];
  }

  lemma FirstOfTwo(a: Lane, b: Lane, lines: seq<Line>, at: Rows)
    requires a == Lane("a", ["x"]) && b == Lane("b", ["y"]) && ValidTag(a.tag) && ValidNames(a)
    requires Locate(lines) == Ok(at) && ParseRows(lines[at.first..at.end]) == Some([Own(a), Own(b)])
    ensures HasOwn(a, lines, at, [Own(a), Own(b)], 0) && !ComesBack(a, lines, at, [Own(a), Own(b)], 0)
  {
    hide Locate, ParseRows, Render, ValidTag, ValidNames, SharesAny, IsBlank;
    var es := [Own(a), Own(b)];
    assert es[1..] == [Own(b)] && [Own(b)][1..] == [];
    assert FirstOwn(es[1..], a.tag) == 1;
  }

  lemma LocatedRows(lane: Lane, lines: seq<Line>, at: Rows, es: seq<Entry>, i: nat)
    requires HasOwn(lane, lines, at, es, i)
    ensures Locate(lines) == Ok(at) && at.end <= at.blockEnd <= |lines| && i < |es|
  {
    hide Render, FirstOwn, ParseRows;
  }

  lemma OwnBlockStarts(lane: Lane)
    ensures |Render(Own(lane))| > 0 && !IsBlank(Render(Own(lane))[0])
  {
    EntryLineIsWritten(lane.tag);
  }

  lemma FirstLineOf(e: Entry)
    ensures Render(e)[0] == LABEL + e.tag
  {
  }

  lemma DifferentTags(a: Line, b: Line)
    requires a != b
    ensures LABEL + a != LABEL + b
  {
    assert (LABEL + a)[|LABEL|..] == a && (LABEL + b)[|LABEL|..] == b;
  }

  /** If the header swallows the blank line behind the removed rows, whatever is
      installed now lies behind it. */
  lemma SwallowedRows(lane: Lane, lines: seq<Line>, at: Rows, start: nat, n: nat)
    requires Locate(lines) == Ok(at) && start == at.first && start + n <= at.end && 0 < n == |Render(Own(lane))|
    requires start + n < at.blockEnd && IsBlank(lines[start + n]) && !IsBlank(lines[start])
    ensures Edit(lane, Removed(lines, start, n), false) != Ok(lines)
  {
    hide IsBlank, ParseRows, Render, Own, SharesAny;
    var left := Removed(lines, start, n);
    InsertedRemoved(lines, start, n);
    var edited := Edit(lane, left, false);
    if edited.Ok? && edited.value != left {
      var at', es' := InsertionFound(lane, left);
      RowsAfterBlank(lines, at, n, at');
      InsertedAt(left, at'.end, Render(Own(lane)), start);
    }
  }

  lemma RowsAfterBlank(lines: seq<Line>, at: Rows, n: nat, at': Rows)
    requires Locate(lines) == Ok(at) && at.first + n <= at.end && at.first + n < at.blockEnd
    requires IsBlank(lines[at.first + n]) && Locate(Removed(lines, at.first, n)) == Ok(at')
    ensures at.first < at'.first
  {
    hide KeyBlock, Find, Locate, IsBlank, Removed;
    var start, left := at.first, Removed(lines, at.first, n);
    RemovedLength(lines, start, n);
    var strands, pluck := Located(lines);
    var strands', pluck' := Located(left);
    KeyBlockOutside(lines, "strands:", Unindented, 0, |lines|, start, n);
    KeyBlockOutside(lines, "  pluck:", PluckKey, strands.0 + 1, strands.1, start, n);
    FindOutside(lines, Header("    lanes:"), pluck.0 + 1, pluck.1, start, n, pluck.1 - n);
    BlankBefore(lines, at.header + 1, start, at.blockEnd, n);
  }

  /** Every line from the header up to and including the blank one is skipped. */
  lemma BlankBefore(lines: seq<Line>, from: nat, start: nat, to: nat, n: nat)
    requires from <= start < to - n && to <= |lines| && start == Find(lines, Written, from, to)
    requires IsBlank(lines[start + n])
    ensures to - n <= |Removed(lines, start, n)| && start < Find(Removed(lines, start, n), Written, from, to - n)
  {
    hide IsBlank;
    InsertedRemoved(lines, start, n);
    var left := Removed(lines, start, n);
    hide Removed;
    forall i | from <= i <= start ensures !Matches(Written, left[i]) {
    }
    FindBeyond(left, Written, from, to - n, start);
  }

  lemma FindBeyond(lines: seq<Line>, mark: Mark, from: nat, to: nat, n: nat)
    requires from <= n < to <= |lines| && forall i :: from <= i <= n ==> !Matches(mark, lines[i])
    ensures n < Find(lines, mark, from, to)
  {
    hide Matches;
    var f := Find(lines, mark, from, to);
    assert f < to ==> Matches(mark, lines[f]);
  }

  /** The same for the text of the file, character by character. */
  function EditText(lane: Lane, text: string, remove: bool): Result<string, Refusal> {
    var d := Parse("", text);
    match Edit(lane, d.lines, remove)
    case Err(e) => Err(e)
    case Ok(lines) => Ok(Text(Document(lines, d.rest)))
  }

  lemma InsertedIsProper(lines: seq<Line>, at: nat, block: seq<Line>)
    requires at <= |lines| && ProperLines(lines) && ProperLines(block)
    ensures ProperLines(Inserted(lines, at, block))
  {
    forall i | 0 <= i < |Inserted(lines, at, block)| ensures OneLine(Inserted(lines, at, block)[i]) {
      InsertedAt(lines, at, block, i);
    }
  }

  /** For any text in which the lane is installed anew, taking it out gives back the
      text exactly, and installing it again changes nothing. */
  lemma RemoveRestoresText(lane: Lane, text: string)
    requires ValidNames(lane) && EditText(lane, text, false).Ok? && EditText(lane, text, false).value != text
    ensures EditText(lane, EditText(lane, text, false).value, true) == Ok(text)
    ensures EditText(lane, EditText(lane, text, false).value, false) == EditText(lane, text, false)
  {
    hide Edit, Parse, Terminated, Locate, ParseRows, Render;
    ParseKeepsText("", text);
    ParsedLinesAreProper("", text);
    assert "" + text == text;
    var d := Parse("", text);
    var edited := Edit(lane, d.lines, false).value;
    assert edited != d.lines;
    var at, es := InsertionFound(lane, d.lines);
    BlockIsRows(Own(lane));
    InsertedIsProper(d.lines, at.end, Render(Own(lane)));
    RemoveUndoesInstall(lane, d.lines);
    ParseTerminated(edited, d.rest);
  }

  lemma RemovedIsProper(lines: seq<Line>, at: nat, n: nat)
    requires at + n <= |lines| && ProperLines(lines)
    ensures ProperLines(Removed(lines, at, n))
  {
  }

  /** No edit puts a newline inside a line. */
  lemma EditIsProper(lane: Lane, lines: seq<Line>, remove: bool)
    requires ValidNames(lane) && ProperLines(lines) && Edit(lane, lines, remove).Ok?
    ensures ProperLines(Edit(lane, lines, remove).value)
  {
    hide Locate, ParseRows, Render, RenderAll, Inserted, Removed, ProperLines, SharesAny;
    var at := Locate(lines).value;
    var es := ParseRows(lines[at.first..at.end]).value;
    ParsedRowsRender(lines[at.first..at.end]);
    var i, block := FirstOwn(es, lane.tag), Render(Own(lane));
    BlockIsRows(Own(lane));
    if i == |es| {
      InsertedIsProper(lines, at.end, block);
    } else if Render(es[i]) == block {
      EntryWithin(es, i);
      RemovedIsProper(lines, at.first + |RenderAll(es[..i])|, |block|);
    }
  }

  /** The other direction for the text: a lane that is taken out and installed again
      gives back the text exactly when its lines come back. */
  lemma InstallRestoresTextExactly(lane: Lane, text: string, at: Rows, es: seq<Entry>, i: nat)
    requires HasOwn(lane, Parse("", text).lines, at, es, i)
    ensures EditText(lane, text, true).Ok?
    ensures EditText(lane, EditText(lane, text, true).value, false) == Ok(text)
            <==> ComesBack(lane, Parse("", text).lines, at, es, i)
  {
    var d := Parse("", text);
    assert ValidNames(lane);
    hide Edit, Parse, Terminated, Locate, ParseRows, Render, HasOwn, ComesBack, ProperLines, ValidNames;
    InstallUndoesRemoveExactly(lane, d.lines, at, es, i);
    ParseKeepsText("", text);
    assert "" + text == text;
    ParsedLinesAreProper("", text);
    EditIsProper(lane, d.lines, true);
    var left := Edit(lane, d.lines, true).value;
    ParseTerminated(left, d.rest);
    if Edit(lane, left, false).Ok? {
      EditIsProper(lane, left, false);
      ParseTerminated(Edit(lane, left, false).value, d.rest);
    }
  }
}
