/** CSV records and the scheduled-task table of src/boot_config.rs. */
module Csv {
  import opened Text

  // ---- one record ----

  /** Fields of the rest of a record, with `current` read so far and `quoted` telling whether a quote is open. */
  function Scan(s: string, current: string, quoted: bool): (r: seq<string>)
    ensures |r| >= 1
    decreases |s|
  {
    if s == "" then [current]
    else if s[0] == '"' && quoted && |s| > 1 && s[1] == '"' then Scan(s[2..], current + ['"'], quoted)
    else if s[0] == '"' then Scan(s[1..], current, !quoted)
    else if s[0] == ',' && !quoted then [current] + Scan(s[1..], "", quoted)
    else Scan(s[1..], current + [s[0]], quoted)
  }

  /** split_csv_line: the quote-state loop with one character of lookahead. */
  method SplitCsvLine(line: string) returns (fields: seq<string>)
    ensures fields == Scan(line, "", false)
  {
    fields := [];
    var current := "";
    var quoted := false;
    var i := 0;
    while i < |line|
      invariant 0 <= i <= |line|
      invariant fields + Scan(line[i..], current, quoted) == Scan(line, "", false)
      decreases |line| - i
    {
      var c := line[i];
      ghost var rest := line[i..];
      assert rest[1..] == line[i + 1..];
      assert |rest| > 1 ==> rest[1] == line[i + 1] && rest[2..] == line[i + 2..];
      i := i + 1;
      if c == '"' && quoted && i < |line| && line[i] == '"' {
        current := current + ['"'];
        i := i + 1;
      } else if c == '"' {
        quoted := !quoted;
      } else if c == ',' && !quoted {
        fields := fields + [current];
        current := "";
      } else {
        current := current + [c];
      }
    }
    fields := fields + [current];
  }

  /** A field as section 2 of RFC 4180 writes it: bare, or in double quotes with inner quotes doubled. */
  datatype Cell = Bare(text: string) | Quoted(text: string)

  predicate IsCell(c: Cell) {
    c.Bare? ==> ',' !in c.text && '"' !in c.text
  }

  function Doubled(s: string): string {
    if s == "" then ""
    else (if s[0] == '"' then ['"', '"'] else [s[0]]) + Doubled(s[1..])
  }

  function Render(c: Cell): string {
    match c
    case Bare(t) => t
    case Quoted(t) => ['"'] + Doubled(t) + ['"']
  }

  function RenderRecord(cells: seq<Cell>): string
    requires cells != []
  {
    if |cells| == 1 then Render(cells[0]) else Render(cells[0]) + [','] + RenderRecord(cells[1..])
  }

  function Texts(cells: seq<Cell>): (r: seq<string>)
    ensures |r| == |cells| && forall i :: 0 <= i < |r| ==> r[i] == cells[i].text
  {
    seq(|cells|, i requires 0 <= i < |cells| => cells[i].text)
  }

  predicate AreCells(cells: seq<Cell>) {
    forall i :: 0 <= i < |cells| ==> IsCell(cells[i])
  }

  lemma {:induction false} ScanBare(t: string, rest: string, current: string)
    requires ',' !in t && '"' !in t
    ensures Scan(t + rest, current, false) == Scan(rest, current + t, false)
  {
    if t == "" {
      assert t + rest == rest && current + t == current;
    } else {
      var s := t + rest;
      assert t[0] in t && s[0] == t[0];
      assert s[1..] == t[1..] + rest;
      ScanBare(t[1..], rest, current + [t[0]]);
      assert current + [t[0]] + t[1..] == current + t;
    }
  }

  lemma {:induction false} ScanQuoted(t: string, rest: string, current: string)
    requires rest == "" || rest[0] != '"'
    ensures Scan(Doubled(t) + ['"'] + rest, current, true) == Scan(rest, current + t, false)
  {
    var s := Doubled(t) + ['"'] + rest;
    if t == "" {
      assert s[1..] == rest && current + t == current;
    } else {
      var tail := Doubled(t[1..]) + ['"'] + rest;
      if t[0] == '"' {
        assert s == ['"', '"'] + tail;
        assert s[2..] == tail;
      } else {
        assert s == [t[0]] + tail;
        assert s[1..] == tail;
      }
      ScanQuoted(t[1..], rest, current + [t[0]]);
      assert current + [t[0]] + t[1..] == current + t;
    }
  }

  lemma ScanCell(c: Cell, rest: string)
    requires IsCell(c) && (rest == "" || rest[0] == ',')
    ensures Scan(Render(c) + rest, "", false) == Scan(rest, c.text, false)
  {
    match c {
      case Bare(t) =>
        ScanBare(t, rest, "");
        assert "" + t == t;
      case Quoted(t) =>
        var s := Render(c) + rest;
        assert s[1..] == Doubled(t) + ['"'] + rest;
        ScanQuoted(t, rest, "");
        assert "" + t == t;
    }
  }

  /** Every non-empty record, bare and quoted fields mixed in any way, is split back into exactly its fields. */
  lemma {:induction false} RecordRoundTrip(cells: seq<Cell>)
    requires cells != [] && AreCells(cells)
    ensures Scan(RenderRecord(cells), "", false) == Texts(cells)
  {
    hide Render;
    var first, tail := cells[0], cells[1..];
    if tail == [] {
      ScanCell(first, "");
      assert Render(first) + "" == RenderRecord(cells);
    } else {
      var rest := [','] + RenderRecord(tail);
      assert rest[1..] == RenderRecord(tail);
      ScanCell(first, rest);
      assert Render(first) + rest == RenderRecord(cells);
      RecordRoundTrip(tail);
      assert Texts(cells) == [first.text] + Texts(tail);
    }
  }

  // ---- fields of several pieces ----

  /**
   * A field may also change between bare and quoted pieces; two quoted ones cannot touch, as their quotes would read as
   * one doubled quote.
   */
  predicate IsMixed(pieces: seq<Cell>) {
    && AreCells(pieces)
    && forall i :: 0 < i < |pieces| && pieces[i - 1].Quoted? ==> pieces[i].Bare? && pieces[i].text != ""
  }

  function MixedText(pieces: seq<Cell>): string {
    if pieces == [] then "" else Render(pieces[0]) + MixedText(pieces[1..])
  }

  function MixedValue(pieces: seq<Cell>): string {
    if pieces == [] then "" else pieces[0].text + MixedValue(pieces[1..])
  }

  lemma ScanPiece(c: Cell, rest: string, current: string)
    requires IsCell(c) && (c.Quoted? ==> rest == "" || rest[0] != '"')
    ensures Scan(Render(c) + rest, current, false) == Scan(rest, current + c.text, false)
  {
    match c {
      case Bare(t) => ScanBare(t, rest, current);
      case Quoted(t) =>
        assert (Render(c) + rest)[1..] == Doubled(t) + ['"'] + rest;
        ScanQuoted(t, rest, current);
    }
  }

  lemma MixedTail(pieces: seq<Cell>, rest: string)
    requires pieces != [] && IsMixed(pieces) && (rest == "" || rest[0] == ',')
    ensures IsMixed(pieces[1..]) && IsCell(pieces[0])
    ensures var more := MixedText(pieces[1..]) + rest; pieces[0].Quoted? ==> more == "" || more[0] != '"'
  {
    if |pieces| > 1 && pieces[0].Quoted? {
      var next := pieces[1];
      assert next.Bare? && next.text != "" && IsCell(next);
      assert next.text[0] in next.text;
      assert MixedText(pieces[1..])[0] == next.text[0];
    }
  }

  /** A field is the text of its pieces, whatever their quoting. */
  lemma {:induction false} ScanMixed(pieces: seq<Cell>, rest: string, current: string)
    requires IsMixed(pieces) && (rest == "" || rest[0] == ',')
    ensures Scan(MixedText(pieces) + rest, current, false) == Scan(rest, current + MixedValue(pieces), false)
    decreases |pieces|
  {
    hide Scan, Render, IsMixed;
    if pieces == [] {
      assert "" + rest == rest && current + "" == current;
    } else {
      var c, tail := pieces[0], pieces[1..];
      MixedTail(pieces, rest);
      ScanPiece(c, MixedText(tail) + rest, current);
      ScanMixed(tail, rest, current + c.text);
      assert MixedText(pieces) + rest == Render(c) + (MixedText(tail) + rest);
      assert current + c.text + MixedValue(tail) == current + MixedValue(pieces);
    }
  }

  /** A quote that is never closed takes the rest of the line, commas included. */
  lemma {:induction false} UnclosedQuote(t: string, current: string)
    ensures Scan(Doubled(t), current, true) == [current + t]
    ensures Scan(['"'] + Doubled(t), current, false) == [current + t]
  {
    assert (['"'] + Doubled(t))[1..] == Doubled(t);
    if t == "" {
      assert current + "" == current;
    } else {
      var tail := Doubled(t[1..]);
      if t[0] == '"' {
        assert Doubled(t) == ['"', '"'] + tail && Doubled(t)[2..] == tail;
      } else {
        assert Doubled(t) == [t[0]] + tail && Doubled(t)[1..] == tail;
      }
      UnclosedQuote(t[1..], current + [t[0]]);
      assert current + [t[0]] + t[1..] == current + t;
    }
  }

  function MixedRecord(fields: seq<seq<Cell>>): string
    requires fields != []
  {
    if |fields| == 1 then MixedText(fields[0]) else MixedText(fields[0]) + [','] + MixedRecord(fields[1..])
  }

  function MixedValues(fields: seq<seq<Cell>>): (r: seq<string>)
    ensures |r| == |fields| && forall i :: 0 <= i < |r| ==> r[i] == MixedValue(fields[i])
  {
    seq(|fields|, i requires 0 <= i < |fields| => MixedValue(fields[i]))
  }

  predicate AreMixed(fields: seq<seq<Cell>>) {
    forall i :: 0 <= i < |fields| ==> IsMixed(fields[i])
  }

  /** Every record of such fields is split into exactly their texts. */
  lemma {:induction false} MixedRoundTrip(fields: seq<seq<Cell>>)
    requires fields != [] && AreMixed(fields)
    ensures Scan(MixedRecord(fields), "", false) == MixedValues(fields)
  {
    hide MixedText, MixedValue, IsMixed;
    var first, tail := fields[0], fields[1..];
    if tail == [] {
      ScanMixed(first, "", "");
      assert MixedText(first) + "" == MixedRecord(fields);
      assert "" + MixedValue(first) == MixedValue(first);
    } else {
      var rest := [','] + MixedRecord(tail);
      assert rest[1..] == MixedRecord(tail);
      ScanMixed(first, rest, "");
      assert MixedText(first) + rest == MixedRecord(fields);
      assert "" + MixedValue(first) == MixedValue(first);
      MixedRoundTrip(tail);
      assert MixedValues(fields) == [MixedValue(first)] + MixedValues(tail);
    }
  }

  // ---- scheduled tasks ----

  datatype Status = Enabled | Disabled | Unknown

  datatype ItemType = ScheduledTask

  datatype StartupItem = StartupItem(
    name: string,
    description: Option<string>,
    itemType: ItemType,
    status: Status,
    command: Option<string>,
    publisher: Option<string>,
    location: Option<string>,
    bootImpact: Option<string>)

  /** Index of the first column with this name. */
  function Column(columns: seq<string>, name: string): (r: Option<nat>)
    ensures r.Some? ==> r.value < |columns| && columns[r.value] == name && name !in columns[..r.value]
    ensures r.None? ==> name !in columns
  {
    if columns == [] then None
    else if columns[0] == name then Some(0)
    else
      match Column(columns[1..], name)
      case None => None
      case Some(k) => Some(k + 1)
  }

  function Field(fields: seq<string>, at: nat): string {
    if at < |fields| then fields[at] else ""
  }

  predicate AtStartup(schedule: string) {
    var s := Lower(schedule);
    Contains(s, "logon") || Contains(s, "start up") || Contains(s, "startup") || Contains(s, "boot")
  }

  function StatusOf(text: string): Status {
    if text == "Ready" || text == "Running" then Enabled
    else if text == "Disabled" then Disabled
    else Unknown
  }

  /** The item for one task, or nothing when its trigger is not startup or logon. */
  function Task(name: string, status: string, schedule: string, command: string): Option<StartupItem> {
    if !AtStartup(schedule) then None
    else
      Some(StartupItem(name, None, ScheduledTask, StatusOf(status),
                       if command == "" then None else Some(command),
                       None, Some("Task Scheduler"), None))
  }

  datatype Columns = Columns(name: nat, status: nat, schedule: nat, command: nat)

  function FindColumns(columns: seq<string>): Option<Columns> {
    var name, status := Column(columns, TASK_NAME), Column(columns, STATUS);
    var schedule, command := Column(columns, SCHEDULE), Column(columns, COMMAND);
    if name.Some? && status.Some? && schedule.Some? && command.Some? then
      Some(Columns(name.value, status.value, schedule.value, command.value))
    else None
  }

  function TaskOf(fields: seq<string>, at: Columns): Option<StartupItem> {
    Task(Field(fields, at.name), Field(fields, at.status), Field(fields, at.schedule), Field(fields, at.command))
  }

  function Appended<T>(items: seq<T>, item: Option<T>): seq<T> {
    if item.Some? then items + [item.value] else items
  }

  function TasksOf(lines: seq<string>, at: Columns): seq<StartupItem> {
    if lines == [] then []
    else
      var n := |lines| - 1;
      Appended(TasksOf(lines[..n], at), TaskOf(Scan(lines[n], "", false), at))
  }

  function StartupTasks(stdout: string): seq<StartupItem> {
    var lines := Lines(stdout);
    if lines == [] then []
    else
      match FindColumns(Scan(lines[0], "", false))
      case None => []
      case Some(at) => TasksOf(lines[1..], at)
  }

  /** startup_tasks_from_csv. */
  method StartupTasksFromCsv(stdout: string) returns (items: seq<StartupItem>)
    ensures items == StartupTasks(stdout)
  {
    items := [];
    var lines := Lines(stdout);
    if lines == [] {
      return;
    }
    var columns := SplitCsvLine(lines[0]);
    var found := FindColumns(columns);
    if found.None? {
      return;
    }
    var at := found.value;
    ghost var rows := lines[1..];
    for k := 1 to |lines|
      invariant items == TasksOf(rows[..k - 1], at)
    {
      assert rows[..k][..k - 1] == rows[..k - 1] && rows[..k][k - 1] == lines[k];
      var fields := SplitCsvLine(lines[k]);
      var schedule := Field(fields, at.schedule);
      if !AtStartup(schedule) {
        continue;
      }
      var status := StatusOf(Field(fields, at.status));
      var command := Field(fields, at.command);
      items := items + [StartupItem(Field(fields, at.name), None, ScheduledTask, status,
                                    if command == "" then None else Some(command),
                                    None, Some("Task Scheduler"), None)];
    }
    assert rows[..|lines| - 1] == rows;
  }

  // ---- tables ----

  /** Lines with one terminator style; the last one may go without. */
  function TableText(lines: seq<string>, crlf: bool, ended: bool): string
    requires lines != []
  {
    if |lines| == 1 then (if ended then Terminated(lines[0], crlf) else lines[0])
    else Terminated(lines[0], crlf) + TableText(lines[1..], crlf, ended)
  }

  /** An empty last line without a terminator is no line at all. */
  function Delivered(lines: seq<string>, ended: bool): seq<string>
    requires lines != []
  {
    if !ended && lines[|lines| - 1] == "" then lines[..|lines| - 1] else lines
  }

  lemma LastTableLine(line: string, crlf: bool, ended: bool)
    requires NoBreak(line)
    ensures Lines(TableText([line], crlf, ended)) == Delivered([line], ended)
  {
    if ended {
      LinesFirst(line, crlf, "");
      hide Terminated;
      assert Terminated(line, crlf) + "" == Terminated(line, crlf);
    } else if line != "" {
      LinesLast(line);
    }
  }

  lemma {:induction false} TableLines(lines: seq<string>, crlf: bool, ended: bool)
    requires lines != []
    requires forall i :: 0 <= i < |lines| ==> NoBreak(lines[i])
    ensures Lines(TableText(lines, crlf, ended)) == Delivered(lines, ended)
  {
    hide Lines, Terminated, NoBreak;
    if |lines| == 1 {
      LastTableLine(lines[0], crlf, ended);
      assert lines == [lines[0]];
    } else {
      LinesFirst(lines[0], crlf, TableText(lines[1..], crlf, ended));
      TableLines(lines[1..], crlf, ended);
      assert Delivered(lines, ended) == [lines[0]] + Delivered(lines[1..], ended);
    }
  }

  /** A table row: the first column of each name decides where its value stands. */
  type Record = map<string, string>

  /** A row too short for a column gives the empty value. */
  function RecordOf(header: seq<string>, row: seq<string>): Record {
    map i | 0 <= i < |header| && Column(header, header[i]) == Some(i) :: header[i] := Field(row, i)
  }

  lemma RecordKeys(header: seq<string>, row: seq<string>, name: string)
    ensures name in RecordOf(header, row) <==> name in header
    ensures name in header ==> RecordOf(header, row)[name] == Field(row, Column(header, name).value)
  {
    var c := Column(header, name);
    if c.Some? {
      assert header[c.value] == name && Column(header, header[c.value]) == c;
    }
  }

  lemma {:induction false} ColumnIs(columns: seq<string>, i: nat)
    requires i < |columns| && columns[i] !in columns[..i]
    ensures Column(columns, columns[i]) == Some(i)
  {
    if i > 0 {
      assert columns[..i][0] == columns[0];
      assert columns[1..][..i - 1] == columns[..i][1..];
      ColumnIs(columns[1..], i - 1);
    }
  }

  /** A value stands where its name first stands in the header, and is empty when the row is too short for that. */
  lemma ValueIs(header: seq<string>, row: seq<string>, i: nat)
    requires i < |header| && header[i] !in header[..i]
    ensures header[i] in RecordOf(header, row)
    ensures RecordOf(header, row)[header[i]] == if i < |row| then row[i] else ""
  {
    var name := header[i];
    RecordKeys(header, row, name);
    ColumnIs(header, i);
  }

  const TASK_NAME: string := "TaskName"
  const STATUS: string := "Status"
  const SCHEDULE: string := "Schedule Type"
  const COMMAND: string := "Task To Run"

  predicate HasColumns(r: Record) {
    TASK_NAME in r && STATUS in r && SCHEDULE in r && COMMAND in r
  }

  /** The four column names the reader looks for are all in the header. */
  predicate NamesColumns(header: seq<string>) {
    TASK_NAME in header && STATUS in header && SCHEDULE in header && COMMAND in header
  }

  function TaskOfRecord(r: Record): Option<StartupItem>
    requires HasColumns(r)
  {
    Task(r[TASK_NAME], r[STATUS], r[SCHEDULE], r[COMMAND])
  }

  /** The startup-scheduled records, in order. */
  function Scheduled(records: seq<Record>): seq<StartupItem>
    requires forall i :: 0 <= i < |records| ==> HasColumns(records[i])
  {
    if records == [] then []
    else Appended(Scheduled(records[..|records| - 1]), TaskOfRecord(records[|records| - 1]))
  }

  /** The character is this lower-case letter, in either case. */
  predicate IsLetterOf(c: char, letter: char) {
    c == letter || ('A' <= c <= 'Z' && c as int + 32 == letter as int)
  }

  predicate StandsAt(s: string, w: string, i: nat) {
    i + |w| <= |s| && forall k :: 0 <= k < |w| ==> IsLetterOf(s[i + k], w[k])
  }

  /** The word stands somewhere in the text, in upper or lower case. */
  predicate Mentions(s: string, w: string) {
    exists i :: 0 <= i <= |s| && StandsAt(s, w, i)
  }

  predicate IsLowerCase(w: string) {
    forall k :: 0 <= k < |w| ==> !('A' <= w[k] <= 'Z')
  }

  lemma LetterIff(c: char, letter: char)
    requires !('A' <= letter <= 'Z')
    ensures LowerChar(c) == letter <==> IsLetterOf(c, letter)
  {
  }

  lemma StandsIff(s: string, w: string, i: nat)
    requires IsLowerCase(w)
    ensures OccursAt(Lower(s), w, i) <==> StandsAt(s, w, i)
  {
    if i + |w| <= |s| {
      var part := Lower(s)[i..i + |w|];
      hide LowerChar, IsLetterOf;
      forall k | 0 <= k < |w|
        ensures part[k] == w[k] <==> IsLetterOf(s[i + k], w[k])
      {
        LetterIff(s[i + k], w[k]);
      }
      assert part == w <==> forall k :: 0 <= k < |w| ==> part[k] == w[k];
    }
  }

  lemma MentionsIff(s: string, w: string)
    requires IsLowerCase(w)
    ensures Contains(Lower(s), w) <==> Mentions(s, w)
  {
    forall i: nat
      ensures OccursAt(Lower(s), w, i) <==> StandsAt(s, w, i)
    {
      StandsIff(s, w, i);
    }
    hide OccursAt, StandsAt;
  }

  /** The schedule type names a start of the system or a logon. */
  predicate NamesStart(schedule: string) {
    Mentions(schedule, "logon") || Mentions(schedule, "start up") || Mentions(schedule, "startup")
    || Mentions(schedule, "boot")
  }

  lemma StartIff(schedule: string)
    ensures AtStartup(schedule) <==> NamesStart(schedule)
  {
    MentionsIff(schedule, "logon");
    MentionsIff(schedule, "start up");
    MentionsIff(schedule, "startup");
    MentionsIff(schedule, "boot");
    hide Contains, Lower, Mentions;
  }

  /** What the reader makes of one row, from the values of the four columns it looks up. */
  predicate IsItem(item: StartupItem, r: Record)
    requires HasColumns(r)
  {
    && item.name == r["TaskName"]
    && (item.status == Enabled <==> r["Status"] == "Ready" || r["Status"] == "Running")
    && (item.status == Disabled <==> r["Status"] == "Disabled")
    && (item.command == None <==> r["Task To Run"] == "")
    && (item.command.Some? ==> item.command.value == r["Task To Run"])
    && item.itemType == ScheduledTask && item.location == Some("Task Scheduler")
    && item.description == None && item.publisher == None && item.bootImpact == None
  }

  /**
   * A row gives an item exactly when its schedule type names a start or a logon in any case, and then that item. Rows
   * lacking one of the four columns are never looked at.
   */
  lemma RowMeaning(r: Record)
    ensures HasColumns(r) <==> "TaskName" in r && "Status" in r && "Schedule Type" in r && "Task To Run" in r
    ensures HasColumns(r) && !NamesStart(r["Schedule Type"]) ==> Scheduled([r]) == []
    ensures HasColumns(r) && NamesStart(r["Schedule Type"]) ==> |Scheduled([r])| == 1 && IsItem(Scheduled([r])[0], r)
  {
    if HasColumns(r) {
      StartIff(r["Schedule Type"]);
      assert [r][..0] == [];
      assert Scheduled([r][..0]) == [];
    }
    hide NamesStart, AtStartup;
  }

  /** Rows are read one after another. */
  lemma {:induction false} ScheduledConcat(a: seq<Record>, b: seq<Record>)
    requires forall i :: 0 <= i < |a| ==> HasColumns(a[i])
    requires forall i :: 0 <= i < |b| ==> HasColumns(b[i])
    ensures Scheduled(a + b) == Scheduled(a) + Scheduled(b)
  {
    hide HasColumns, TaskOfRecord;
    if b == [] {
      assert a + b == a;
    } else {
      var n := |b| - 1;
      assert (a + b)[..|a| + n] == a + b[..n];
      ScheduledConcat(a, b[..n]);
    }
  }

  /** Cells that can be printed as one line. */
  predicate IsRow(cells: seq<Cell>) {
    cells != [] && AreCells(cells) && forall i :: 0 <= i < |cells| ==> NoBreak(cells[i].text)
  }

  predicate AreRows(rows: seq<seq<Cell>>) {
    forall i :: 0 <= i < |rows| ==> IsRow(rows[i])
  }

  /** Rows may be shorter or longer than the header, and header names may repeat. */
  predicate IsTable(header: seq<Cell>, rows: seq<seq<Cell>>) {
    IsRow(header) && AreRows(rows)
  }

  function RecordLines(rows: seq<seq<Cell>>): (r: seq<string>)
    requires forall i :: 0 <= i < |rows| ==> rows[i] != []
    ensures |r| == |rows| && forall i :: 0 <= i < |r| ==> r[i] == RenderRecord(rows[i])
  {
    seq(|rows|, i requires 0 <= i < |rows| => RenderRecord(rows[i]))
  }

  function Print(header: seq<Cell>, rows: seq<seq<Cell>>, crlf: bool, ended: bool): string
    requires IsTable(header, rows)
  {
    TableText([RenderRecord(header)] + RecordLines(rows), crlf, ended)
  }

  function Records(header: seq<Cell>, rows: seq<seq<Cell>>): (r: seq<Record>)
    ensures |r| == |rows|
    ensures forall i :: 0 <= i < |r| ==> r[i] == RecordOf(Texts(header), Texts(rows[i]))
  {
    seq(|rows|, i requires 0 <= i < |rows| => RecordOf(Texts(header), Texts(rows[i])))
  }

  lemma {:induction false} DoubledNoBreak(t: string)
    requires NoBreak(t)
    ensures NoBreak(Doubled(t))
  {
    if t == "" {
    } else {
      assert t[0] in t;
      assert forall c :: c in t[1..] ==> c in t;
      DoubledNoBreak(t[1..]);
    }
  }

  lemma {:induction false} RecordLineIsLine(cells: seq<Cell>)
    requires IsRow(cells)
    ensures NoBreak(RenderRecord(cells))
  {
    DoubledNoBreak(cells[0].text);
    if |cells| == 1 {
    } else {
      RecordLineIsLine(cells[1..]);
    }
  }

  lemma NamedRecords(header: seq<Cell>, rows: seq<seq<Cell>>)
    requires NamesColumns(Texts(header))
    ensures forall i :: 0 <= i < |rows| ==> HasColumns(Records(header, rows)[i])
  {
    hide RecordOf;
    forall i | 0 <= i < |rows|
      ensures HasColumns(Records(header, rows)[i])
    {
      WantedInRecord(Texts(header), Texts(rows[i]));
    }
  }

  lemma TaskOfLine(names: seq<string>, row: seq<Cell>, at: Columns)
    requires IsRow(row) && FindColumns(names) == Some(at)
    ensures HasColumns(RecordOf(names, Texts(row)))
    ensures TaskOf(Scan(RenderRecord(row), "", false), at) == TaskOfRecord(RecordOf(names, Texts(row)))
  {
    RecordRoundTrip(row);
    hide Scan, RenderRecord, RecordOf, Texts, FindColumns;
    WantedColumns(names);
    WantedInRecord(names, Texts(row));
    TaskInRecord(names, Texts(row), at);
  }

  lemma WantedInRecord(names: seq<string>, row: seq<string>)
    requires NamesColumns(names)
    ensures HasColumns(RecordOf(names, row))
  {
    hide RecordOf;
    RecordKeys(names, row, TASK_NAME);
    RecordKeys(names, row, STATUS);
    RecordKeys(names, row, SCHEDULE);
    RecordKeys(names, row, COMMAND);
  }

  lemma TaskInRecord(names: seq<string>, row: seq<string>, at: Columns)
    requires FindColumns(names) == Some(at) && HasColumns(RecordOf(names, row))
    ensures TaskOf(row, at) == TaskOfRecord(RecordOf(names, row))
  {
    hide Column, Task, RecordOf, Field;
    RecordKeys(names, row, TASK_NAME);
    RecordKeys(names, row, STATUS);
    RecordKeys(names, row, SCHEDULE);
    RecordKeys(names, row, COMMAND);
  }

  lemma {:induction false} TasksOfRows(header: seq<Cell>, rows: seq<seq<Cell>>, at: Columns)
    requires IsTable(header, rows) && FindColumns(Texts(header)) == Some(at)
    requires forall i :: 0 <= i < |rows| ==> HasColumns(Records(header, rows)[i])
    ensures TasksOf(RecordLines(rows), at) == Scheduled(Records(header, rows))
  {
    assert forall i :: 0 <= i < |rows| ==> rows[i] != [];
    hide FindColumns, IsRow, Scan, RenderRecord, TaskOf, TaskOfRecord, RecordOf, HasColumns, Texts, Appended;
    if rows == [] {
    } else {
      var n := |rows| - 1;
      var records := Records(header, rows);
      assert records[..n] == Records(header, rows[..n]);
      assert RecordLines(rows)[..n] == RecordLines(rows[..n]);
      TasksOfRows(header, rows[..n], at);
      TaskOfLine(Texts(header), rows[n], at);
    }
  }

  lemma WantedColumns(names: seq<string>)
    ensures FindColumns(names).Some? <==> NamesColumns(names)
  {
    ColumnIff(names, TASK_NAME);
    ColumnIff(names, STATUS);
    ColumnIff(names, SCHEDULE);
    ColumnIff(names, COMMAND);
  }

  lemma ColumnIff(names: seq<string>, name: string)
    ensures Column(names, name).Some? <==> name in names
  {
    var c := Column(names, name);
    if c.Some? {
      assert names[c.value] == name;
    }
  }

  /** An empty line holds no startup task. */
  lemma EmptyLine(at: Columns)
    ensures TaskOf(Scan("", "", false), at) == None
  {
    assert Scan("", "", false) == [""];
    assert Lower("") == "";
    assert forall w :: w != "" ==> !Contains("", w);
  }

  lemma DeliveredTasks(lines: seq<string>, ended: bool, at: Columns)
    requires lines != []
    ensures TasksOf(Delivered(lines, ended), at) == TasksOf(lines, at)
  {
    EmptyLine(at);
    hide Scan, TaskOf;
  }

  lemma PrintedLines(header: seq<Cell>, rows: seq<seq<Cell>>, crlf: bool, ended: bool)
    requires IsTable(header, rows)
    ensures Lines(Print(header, rows, crlf, ended)) == Delivered([RenderRecord(header)] + RecordLines(rows), ended)
  {
    hide RenderRecord, TableText, Lines, Delivered;
    var lines := [RenderRecord(header)] + RecordLines(rows);
    forall i | 0 <= i < |lines|
      ensures NoBreak(lines[i])
    {
      RecordLineIsLine(if i == 0 then header else rows[i - 1]);
    }
    TableLines(lines, crlf, ended);
  }

  /** The two halves of the reader on a printed table. */
  lemma ReadPrinted(header: seq<Cell>, rows: seq<seq<Cell>>, crlf: bool, ended: bool)
    requires IsTable(header, rows)
    ensures StartupTasks(Print(header, rows, crlf, ended))
         == match FindColumns(Texts(header)) case None => [] case Some(at) => TasksOf(RecordLines(rows), at)
  {
    var head := RenderRecord(header);
    var lines, all := Lines(Print(header, rows, crlf, ended)), [head] + RecordLines(rows);
    PrintedLines(header, rows, crlf, ended);
    RecordRoundTrip(header);
    hide FindColumns, TasksOf, Scan, RenderRecord, Print, Lines, Texts, IsTable;
    if rows == [] {
      assert all == [head];
      if lines == [] {
        EmptyHeader(header);
      }
    } else {
      assert all[1..] == RecordLines(rows);
      assert lines[1..] == Delivered(RecordLines(rows), ended);
      if at :| FindColumns(Texts(header)) == Some(at) {
        DeliveredTasks(RecordLines(rows), ended, at);
      }
    }
  }

  lemma EmptyHeader(header: seq<Cell>)
    requires IsRow(header) && RenderRecord(header) == ""
    ensures FindColumns(Texts(header)) == None
  {
    RecordRoundTrip(header);
    assert Scan("", "", false) == [""];
    WantedColumns([""]);
    assert TASK_NAME !in [""];
  }

  /**
   * Reading a printed table gives its startup-scheduled rows in order, looked up by the first column of each name,
   * with the empty value where a row is too short; nothing without the four columns.
   */
  lemma TableRoundTrip(header: seq<Cell>, rows: seq<seq<Cell>>, crlf: bool, ended: bool)
    requires IsTable(header, rows)
    ensures NamesColumns(Texts(header)) ==>
      (forall i :: 0 <= i < |rows| ==> HasColumns(Records(header, rows)[i]))
      && StartupTasks(Print(header, rows, crlf, ended)) == Scheduled(Records(header, rows))
    ensures !NamesColumns(Texts(header)) ==>
      StartupTasks(Print(header, rows, crlf, ended)) == []
  {
    ReadPrinted(header, rows, crlf, ended);
    WantedColumns(Texts(header));
    hide FindColumns, TasksOf, Scheduled, Print, StartupTasks, HasColumns, IsTable, Texts, Records, NamesColumns;
    if NamesColumns(Texts(header)) {
      NamedRecords(header, rows);
      TasksOfRows(header, rows, FindColumns(Texts(header)).value);
    }
  }

  // ---- column order does not matter ----

  predicate IsPermutation(p: seq<nat>) {
    (forall i :: 0 <= i < |p| ==> p[i] < |p|) && (forall k :: 0 <= k < |p| ==> k in p)
    && (forall i, j :: 0 <= i < j < |p| ==> p[i] != p[j])
  }

  function Permute<T>(s: seq<T>, p: seq<nat>): (r: seq<T>)
    requires |p| == |s| && IsPermutation(p)
    ensures |r| == |s| && forall i :: 0 <= i < |r| ==> r[i] == s[p[i]]
  {
    seq(|p|, i requires 0 <= i < |p| => s[p[i]])
  }

  /** At most one column has this name. */
  predicate Once(header: seq<string>, name: string) {
    forall i, j :: 0 <= i < |header| && 0 <= j < |header| && header[i] == name && header[j] == name ==> i == j
  }

  lemma PermutedValue(header: seq<string>, row: seq<string>, p: seq<nat>, name: string)
    requires Once(header, name) && |row| == |header| == |p| && IsPermutation(p)
    ensures var a, b := RecordOf(Permute(header, p), Permute(row, p)), RecordOf(header, row);
      (name in a <==> name in b) && (name in b ==> a[name] == b[name])
  {
    hide RecordOf;
    RecordKeys(header, row, name);
    RecordKeys(Permute(header, p), Permute(row, p), name);
    SameMembers(header, p, name);
    ColumnIff(header, name);
    ColumnIff(Permute(header, p), name);
    if name in header {
      var i, k := Column(header, name).value, Column(Permute(header, p), name).value;
      assert p[k] < |header|;
      hide Column, Permute, IsPermutation;
      assert Permute(header, p)[k] == header[p[k]];
      assert p[k] == i;
    }
  }

  /** The four columns the reader looks up agree. */
  predicate SameTask(a: Record, b: Record) {
    (HasColumns(a) <==> HasColumns(b)) && (HasColumns(b) ==> TaskOfRecord(a) == TaskOfRecord(b))
  }

  lemma PermutedTask(header: seq<string>, row: seq<string>, p: seq<nat>)
    requires OnceEach(header) && |row| == |header| == |p| && IsPermutation(p)
    ensures SameTask(RecordOf(Permute(header, p), Permute(row, p)), RecordOf(header, row))
  {
    hide RecordOf, Once, Permute, IsPermutation, Task;
    PermutedValue(header, row, p, TASK_NAME);
    PermutedValue(header, row, p, STATUS);
    PermutedValue(header, row, p, SCHEDULE);
    PermutedValue(header, row, p, COMMAND);
  }

  lemma {:induction false} SameScheduled(a: seq<Record>, b: seq<Record>)
    requires |a| == |b| && forall i :: 0 <= i < |a| ==> HasColumns(a[i]) && HasColumns(b[i]) && SameTask(a[i], b[i])
    ensures Scheduled(a) == Scheduled(b)
  {
    hide HasColumns, TaskOfRecord;
    if a == [] {
    } else {
      SameScheduled(a[..|a| - 1], b[..|b| - 1]);
      assert SameTask(a[|a| - 1], b[|b| - 1]);
    }
  }

  function PermuteRows(rows: seq<seq<Cell>>, p: seq<nat>): (r: seq<seq<Cell>>)
    requires IsPermutation(p) && forall i :: 0 <= i < |rows| ==> |rows[i]| == |p|
    ensures |r| == |rows| && forall i :: 0 <= i < |r| ==> r[i] == Permute(rows[i], p)
  {
    seq(|rows|, i requires 0 <= i < |rows| => Permute(rows[i], p))
  }

  /** Each of the four names looked up stands at most once in the header; others may repeat. */
  predicate OnceEach(header: seq<string>) {
    Once(header, TASK_NAME) && Once(header, STATUS) && Once(header, SCHEDULE) && Once(header, COMMAND)
  }

  /** The names looked up are unambiguous, and rows are as wide as the header. */
  predicate IsAligned(header: seq<Cell>, rows: seq<seq<Cell>>) {
    OnceEach(Texts(header)) && forall i :: 0 <= i < |rows| ==> |rows[i]| == |header|
  }

  lemma PermutedRow(cells: seq<Cell>, p: seq<nat>)
    requires IsRow(cells) && |p| == |cells| && IsPermutation(p)
    ensures IsRow(Permute(cells, p)) && Texts(Permute(cells, p)) == Permute(Texts(cells), p)
  {
  }

  lemma PermutedTable(header: seq<Cell>, rows: seq<seq<Cell>>, p: seq<nat>)
    requires IsTable(header, rows) && IsAligned(header, rows) && |p| == |header| && IsPermutation(p)
    ensures IsTable(Permute(header, p), PermuteRows(rows, p))
    ensures var a, b := Records(Permute(header, p), PermuteRows(rows, p)), Records(header, rows);
      forall i :: 0 <= i < |rows| ==> SameTask(a[i], b[i])
  {
    hide IsRow, RecordOf, Texts, IsPermutation, OnceEach, SameTask;
    var h, rs := Permute(header, p), PermuteRows(rows, p);
    PermutedRow(header, p);
    forall i | 0 <= i < |rows|
      ensures IsRow(rs[i]) && SameTask(RecordOf(Texts(h), Texts(rs[i])), RecordOf(Texts(header), Texts(rows[i])))
    {
      PermutedRow(rows[i], p);
      PermutedTask(Texts(header), Texts(rows[i]), p);
    }
  }

  lemma PermutedWanted(header: seq<Cell>, p: seq<nat>)
    requires IsRow(header) && |p| == |header| && IsPermutation(p)
    ensures NamesColumns(Texts(Permute(header, p))) <==> NamesColumns(Texts(header))
  {
    PermutedRow(header, p);
    hide IsRow, Texts, Permute, IsPermutation;
    SameMembers(Texts(header), p, TASK_NAME);
    SameMembers(Texts(header), p, STATUS);
    SameMembers(Texts(header), p, SCHEDULE);
    SameMembers(Texts(header), p, COMMAND);
  }

  /**
   * Permuting the columns of the header and every row alike leaves the startup tasks unchanged, whatever the line
   * ends.
   */
  lemma ColumnOrderIsIrrelevant(header: seq<Cell>, rows: seq<seq<Cell>>, p: seq<nat>, crlf: bool, ended: bool,
                                crlf': bool, ended': bool)
    requires IsTable(header, rows) && IsAligned(header, rows) && |p| == |header| && IsPermutation(p)
    ensures IsTable(Permute(header, p), PermuteRows(rows, p))
    ensures StartupTasks(Print(Permute(header, p), PermuteRows(rows, p), crlf, ended))
            == StartupTasks(Print(header, rows, crlf', ended'))
  {
    var h, rs := Permute(header, p), PermuteRows(rows, p);
    PermutedTable(header, rows, p);
    PermutedWanted(header, p);
    hide Permute, PermuteRows, IsPermutation, Texts, Records, Scheduled, NamesColumns, StartupTasks, Print, HasColumns;
    TableRoundTrip(h, rs, crlf, ended);
    TableRoundTrip(header, rows, crlf', ended');
    if NamesColumns(Texts(header)) {
      hide SameTask;
      SameScheduled(Records(h, rs), Records(header, rows));
    }
  }

  lemma SameMembers(s: seq<string>, p: seq<nat>, x: string)
    requires |p| == |s| && IsPermutation(p)
    ensures x in Permute(s, p) <==> x in s
  {
    if x in s {
      var i: nat :| i < |s| && s[i] == x;
      assert i in p;
      var k :| 0 <= k < |p| && p[k] == i;
      assert Permute(s, p)[k] == x;
    }
  }
}
