/** Rows and tables of /proc/net and the per-family enumeration of src/connections.rs. */
module NetTables {
  import opened ProcNet
  import opened Text

  datatype Protocol = Tcp | Tcp6 | Udp | Udp6

  datatype State =
    | Unknown
    | Closed
    | Listen
    | SynSent
    | SynReceived
    | Established
    | FinWait1
    | FinWait2
    | CloseWait
    | Closing
    | LastAck
    | TimeWait
    | Stateless

  function TcpState(code: nat): State {
    match code
    case 1 => Established
    case 2 => SynSent
    case 3 => SynReceived
    case 4 => FinWait1
    case 5 => FinWait2
    case 6 => TimeWait
    case 7 => Closed
    case 8 => CloseWait
    case 9 => LastAck
    case 10 => Listen
    case 11 => Closing
    case _ => Unknown
  }

  datatype Connection = Connection(
    protocol: Protocol,
    localIp: Ip,
    localPort: Option<nat>,
    remoteIp: Option<Ip>,
    remotePort: Option<nat>,
    state: State,
    pid: Option<nat>,
    processName: Option<string>)

  /** What the process table says: the owner of a socket inode and the name of a process. */
  datatype Processes = Processes(ownerOf: string -> Option<nat>, nameOf: nat -> Option<string>)

  /** A line gives a row, or nothing, or slices past the end of an address. */
  datatype LineResult = Row(row: Connection) | NoRow | Crash

  function IsV6(p: Protocol): bool {
    p.Tcp6? || p.Udp6?
  }

  function StateOf(protocol: Protocol, hex: string): State {
    if protocol.Tcp? || protocol.Tcp6? then
      match ParseUnsigned(hex, 16, U32)
      case None => TcpState(0)
      case Some(code) => TcpState(code)
    else Stateless
  }

  function RowOf(protocol: Protocol, local: Parsed, remote: Parsed, state: State, inode: string, procs: Processes)
    : Connection
    requires local.Address? && remote.Address?
  {
    var shown := state != Listen && remote.port != 0;
    var pid := procs.ownerOf(inode);
    Connection(protocol, local.ip, Some(local.port),
               if shown then Some(remote.ip) else None,
               if shown then Some(remote.port) else None,
               state, pid,
               match pid case None => None case Some(p) => procs.nameOf(p))
  }

  /** parse_proc_net_line. */
  function ParseLine(line: string, protocol: Protocol, procs: Processes): LineResult {
    var parts := Tokens(line);
    if |parts| < 10 then NoRow
    else
      var local := ParseAddress(parts[1], IsV6(protocol));
      if local.Panicked? then Crash
      else if local.Rejected? then NoRow
      else
        var remote := ParseAddress(parts[2], IsV6(protocol));
        if remote.Panicked? then Crash
        else if remote.Rejected? then NoRow
        else Row(RowOf(protocol, local, remote, StateOf(protocol, parts[3]), parts[9], procs))
  }

  // ---- states ----

  predicate IsTcpState(s: State) {
    !s.Unknown? && !s.Stateless?
  }

  /** The number the kernel gives each TCP state (include/net/tcp_states.h). */
  function KernelNumber(s: State): nat
    requires IsTcpState(s)
  {
    match s
    case Established => 1
    case SynSent => 2
    case SynReceived => 3
    case FinWait1 => 4
    case FinWait2 => 5
    case TimeWait => 6
    case Closed => 7
    case CloseWait => 8
    case LastAck => 9
    case Listen => 10
    case Closing => 11
  }

  /** The number stands for the state; 0 and everything above 11 stand for none that is known. */
  predicate IsNumberOf(code: nat, state: State) {
    if state.Unknown? then code == 0 || code > 11 else IsTcpState(state) && code == KernelNumber(state)
  }

  /** Decoding a state inverts the kernel's numbering. */
  lemma StateIff(code: nat, state: State)
    ensures TcpState(code) == state <==> IsNumberOf(code, state)
  {
  }

  /** The state a row of this protocol should show. */
  function Shown(protocol: Protocol, state: State): State {
    match protocol
    case Tcp => state
    case Tcp6 => state
    case Udp => Stateless
    case Udp6 => Stateless
  }

  /**
   * The state of every row: none for UDP; for TCP the one whose number the fourth word spells in hexadecimal, and
   * unknown for any other number and for text that is no number.
   */
  lemma RowStateIs(line: string, protocol: Protocol, procs: Processes, state: State)
    requires ParseLine(line, protocol, procs).Row?
    ensures var row, code := ParseLine(line, protocol, procs).row, ParseUnsigned(Tokens(line)[3], 16, 0x1_0000_0000);
      && row.protocol == protocol
      && (IsUdp(protocol) ==> row.state == Stateless)
      && (!IsUdp(protocol) && code.Some? ==> (row.state == state <==> IsNumberOf(code.value, state)))
      && (!IsUdp(protocol) && code.None? ==> row.state == Unknown)
  {
    if code: nat :| ParseUnsigned(Tokens(line)[3], 16, U32) == Some(code) {
      StateIff(code, state);
    }
    StateIff(0, Unknown);
    hide ParseAddress, TokensFrom, ParseUnsigned, TcpState, IsNumberOf;
  }

  predicate IsUdp(protocol: Protocol) {
    protocol == Udp || protocol == Udp6
  }

  // ---- kernel rows ----

  /** The words of an IPv4 row as the kernel prints them, with anything in the fields that are not read. */
  predicate IsKernelRow(words: seq<string>, local: seq<nat>, localPort: nat, remote: seq<nat>, remotePort: nat,
                        code: nat, state: State) {
    && |words| >= 10
    && |local| == 4 && AreBytes(local) && |remote| == 4 && AreBytes(remote)
    && localPort < 65536 && remotePort < 65536 && code < 256 && IsNumberOf(code, state)
    && words[1] == KernelV4(local, localPort)
    && words[2] == KernelV4(remote, remotePort)
    && words[3] == Hex(code, 2)
  }

  /** However the columns are padded, the line has the words that were printed. */
  lemma PaddedRow(words: seq<string>, gaps: seq<string>,
                  local: seq<nat>, localPort: nat, remote: seq<nat>, remotePort: nat, code: nat, state: State)
    requires |gaps| == |words| + 1 && AreGaps(gaps) && forall w :: w in words ==> IsWord(w)
    ensures IsKernelRow(words, local, localPort, remote, remotePort, code, state) ==>
      IsKernelRow(Tokens(Spaced(words, gaps)), local, localPort, remote, remotePort, code, state)
    ensures IsKernelRow6(words, local, localPort, remote, remotePort, code, state) ==>
      IsKernelRow6(Tokens(Spaced(words, gaps)), local, localPort, remote, remotePort, code, state)
  {
    TokensSpaced(words, gaps);
  }

  /** The row of a socket: the remote end is given exactly when the socket does not listen and has a remote port. */
  predicate IsSocket(row: Connection, protocol: Protocol, state: State,
                     local: Ip, localPort: nat, remote: Ip, remotePort: nat) {
    && row.protocol == protocol && row.state == state
    && row.localIp == local && row.localPort == Some(localPort)
    && (row.remoteIp.Some? <==> state != Listen && remotePort != 0)
    && (row.remotePort.Some? <==> row.remoteIp.Some?)
    && (row.remoteIp.Some? ==> row.remoteIp.value == remote && row.remotePort.value == remotePort)
  }

  /** The row names the owner of the inode, and the process name that owner has, if any. */
  predicate IsOwned(row: Connection, procs: Processes, inode: string) {
    && row.pid == procs.ownerOf(inode)
    && (row.pid.None? ==> row.processName.None?)
    && (row.pid.Some? ==> row.processName == procs.nameOf(row.pid.value))
  }

  /**
   * Every line whose words are those of an IPv4 kernel row decodes to its own endpoints, owner and state; the remote
   * end is given exactly for non-listening sockets with a port.
   */
  lemma RowRoundTrip(line: string, protocol: Protocol, procs: Processes, local: seq<nat>, localPort: nat,
                     remote: seq<nat>, remotePort: nat, code: nat, state: State)
    requires IsKernelRow(Tokens(line), local, localPort, remote, remotePort, code, state) && !IsV6(protocol)
    ensures var r := ParseLine(line, protocol, procs);
      && r.Row? && IsOwned(r.row, procs, Tokens(line)[9])
      && IsSocket(r.row, protocol, Shown(protocol, state), V4(local[0], local[1], local[2], local[3]), localPort,
                  V4(remote[0], remote[1], remote[2], remote[3]), remotePort)
  {
    V4RoundTrip(local, localPort);
    V4RoundTrip(remote, remotePort);
    StateReads(protocol, code, state);
    hide ParseAddress, KernelV4, Hex, TokensFrom, ParseUnsigned, StateOf, NoSpace, AreBytes, IsNumberOf, Shown;
  }

  lemma StateReads(protocol: Protocol, code: nat, state: State)
    requires code < 256 && IsNumberOf(code, state)
    ensures StateOf(protocol, Hex(code, 2)) == Shown(protocol, state)
  {
    Powers();
    HexRoundTrip(code, 2, U32);
    StateIff(code, state);
    hide Hex, ParseUnsigned, TcpState, IsNumberOf;
  }

  /** The words of an IPv6 row. */
  predicate IsKernelRow6(words: seq<string>, local: seq<nat>, localPort: nat, remote: seq<nat>, remotePort: nat,
                         code: nat, state: State) {
    && |words| >= 10
    && |local| == 16 && AreBytes(local) && |remote| == 16 && AreBytes(remote)
    && localPort < 65536 && remotePort < 65536 && code < 256 && IsNumberOf(code, state)
    && words[1] == KernelV6(local, localPort)
    && words[2] == KernelV6(remote, remotePort)
    && words[3] == Hex(code, 2)
  }

  /**
   * Every line whose words are those of an IPv6 kernel row gives its own ports, owner and state, but addresses with the
   * bytes of each word reversed: an end is right exactly when every word of it reads the same backwards.
   */
  lemma RowSwaps6(line: string, protocol: Protocol, procs: Processes, local: seq<nat>, localPort: nat,
                  remote: seq<nat>, remotePort: nat, code: nat, state: State)
    requires IsKernelRow6(Tokens(line), local, localPort, remote, remotePort, code, state) && IsV6(protocol)
    ensures var r := ParseLine(line, protocol, procs);
      && r.Row? && IsOwned(r.row, procs, Tokens(line)[9])
      && IsSocket(r.row, protocol, Shown(protocol, state), V6(WordSwapped(local)), localPort,
                  V6(WordSwapped(remote)), remotePort)
      && (r.row.localIp == V6(local) <==> WordsArePalindromes(local))
      && (r.row.remoteIp.Some? ==> (r.row.remoteIp == Some(V6(remote)) <==> WordsArePalindromes(remote)))
  {
    V6SwapsWords(local, localPort);
    V6SwapsWords(remote, remotePort);
    SwapFixes(local);
    SwapFixes(remote);
    StateReads(protocol, code, state);
    hide ParseAddress, KernelV6, Hex, TokensFrom, ParseUnsigned, StateOf, NoSpace, AreBytes, WordSwapped,
         WordsArePalindromes, IsNumberOf, Shown;
  }

  /** A line gives a row exactly when it has ten words and its second and third are addresses. */
  lemma RowIff(line: string, protocol: Protocol, procs: Processes)
    ensures ParseLine(line, protocol, procs).Row? <==>
      var words := Tokens(line);
      && |words| >= 10
      && IsAddressText(words[1], protocol == Tcp6 || protocol == Udp6)
      && IsAddressText(words[2], protocol == Tcp6 || protocol == Udp6)
  {
    var words := Tokens(line);
    if |words| >= 10 {
      AddressIff(words[1], IsV6(protocol));
      AddressIff(words[2], IsV6(protocol));
    }
    hide ParseAddress, IsAddressText, TokensFrom;
  }

  /**
   * A line panics exactly on an IPv6 row of ten words whose local field panics, or parses before a remote one that
   * does.
   */
  lemma LineCrashIff(line: string, protocol: Protocol, procs: Processes)
    ensures ParseLine(line, protocol, procs).Crash? <==>
      var words := Tokens(line);
      && |words| >= 10 && IsV6(protocol)
      && (Cut(words[1]) || (ParseAddress(words[1], true).Address? && Cut(words[2])))
  {
    var words := Tokens(line);
    if |words| >= 10 {
      PanicIff(words[1], IsV6(protocol));
      PanicIff(words[2], IsV6(protocol));
      hide ParseAddress, ParseUnsigned, Split, Tokens;
    }
  }

  /** An address field with a good port and fewer than 32 characters before the colon. */
  predicate Cut(field: string) {
    var parts := Split(field, ':');
    |parts| == 2 && ParseUnsigned(parts[1], 16, U16).Some? && |parts[0]| < 32
  }

  // ---- tables ----

  datatype TableResult = Table(rows: seq<Connection>) | IoError | TableCrash

  /** A file that can be opened as its lines, each read or failed. */
  type File = Option<seq<Option<string>>>

  /** The lines after the header; the first failure ends the table. */
  function ReadRows(lines: seq<Option<string>>, protocol: Protocol, procs: Processes): TableResult {
    if lines == [] then Table([])
    else if lines[0].None? then IoError
    else
      match ParseLine(lines[0].value, protocol, procs)
      case Crash => TableCrash
      case NoRow => ReadRows(lines[1..], protocol, procs)
      case Row(row) =>
        match ReadRows(lines[1..], protocol, procs)
        case Table(rows) => Table([row] + rows)
        case other => other
  }

  function Prepend(rows: seq<Connection>, r: TableResult): TableResult {
    match r
    case Table(more) => Table(rows + more)
    case other => other
  }

  /** The header is skipped before its read is looked at. */
  function ReadFile(file: File, protocol: Protocol, procs: Processes): TableResult {
    match file
    case None => IoError
    case Some(lines) => if lines == [] then Table([]) else ReadRows(lines[1..], protocol, procs)
  }

  /** parse_proc_net. */
  method ParseProcNet(file: File, protocol: Protocol, procs: Processes) returns (r: TableResult)
    ensures r == ReadFile(file, protocol, procs)
  {
    hide ParseLine;
    if file.None? {
      return IoError;
    }
    var lines := file.value;
    var connections: seq<Connection> := [];
    for i := 0 to |lines|
      invariant i == 0 ==> connections == []
      invariant i > 0 ==>
        Prepend(connections, ReadRows(lines[i..], protocol, procs)) == ReadRows(lines[1..], protocol, procs)
    {
      if i == 0 {
        assert Prepend([], ReadRows(lines[1..], protocol, procs)) == ReadRows(lines[1..], protocol, procs);
        continue;
      }
      ghost var rest := lines[i..];
      assert rest[0] == lines[i] && rest[1..] == lines[i + 1..];
      if lines[i].None? {
        return IoError;
      }
      var parsed := ParseLine(lines[i].value, protocol, procs);
      if parsed.Crash? {
        return TableCrash;
      }
      if parsed.Row? {
        PrependOne(connections, parsed.row, ReadRows(lines[i + 1..], protocol, procs));
        connections := connections + [parsed.row];
      }
    }
    r := Table(connections);
    assert lines[|lines|..] == [];
    assert connections + [] == connections;
  }

  lemma PrependOne(rows: seq<Connection>, row: Connection, r: TableResult)
    ensures Prepend(rows, Prepend([row], r)) == Prepend(rows + [row], r)
  {
    if r.Table? {
      assert rows + ([row] + r.rows) == (rows + [row]) + r.rows;
    }
  }

  /** Lines that could be read and did not slice past their end. */
  predicate AllSound(lines: seq<Option<string>>, protocol: Protocol, procs: Processes) {
    forall i :: 0 <= i < |lines| ==> lines[i].Some? && !ParseLine(lines[i].value, protocol, procs).Crash?
  }

  /** Line i was read and gives a row. */
  predicate GivesRow(lines: seq<Option<string>>, protocol: Protocol, procs: Processes, i: nat) {
    i < |lines| && lines[i].Some? && ParseLine(lines[i].value, protocol, procs).Row?
  }

  /** How many of the first i lines give a row. */
  function RowsBefore(lines: seq<Option<string>>, protocol: Protocol, procs: Processes, i: nat): nat
    requires i <= |lines|
    decreases i
  {
    if i == 0 then 0
    else
      RowsBefore(lines, protocol, procs, i - 1) + (if GivesRow(lines, protocol, procs, i - 1) then 1 else 0)
  }

  lemma {:induction false} RowsBeforeTail(lines: seq<Option<string>>, protocol: Protocol, procs: Processes, i: nat)
    requires i < |lines|
    ensures RowsBefore(lines, protocol, procs, i + 1)
         == (if GivesRow(lines, protocol, procs, 0) then 1 else 0) + RowsBefore(lines[1..], protocol, procs, i)
  {
    hide ParseLine;
    if i > 0 {
      RowsBeforeTail(lines, protocol, procs, i - 1);
      assert lines[1..][i - 1] == lines[i];
    }
  }

  lemma SoundTail(lines: seq<Option<string>>, protocol: Protocol, procs: Processes)
    requires lines != []
    ensures AllSound(lines, protocol, procs) <==>
      lines[0].Some? && !ParseLine(lines[0].value, protocol, procs).Crash? && AllSound(lines[1..], protocol, procs)
  {
    hide ParseLine;
    assert forall i :: 0 <= i < |lines[1..]| ==> lines[1..][i] == lines[i + 1];
    assert forall i :: 1 <= i < |lines| ==> lines[i] == lines[1..][i - 1];
  }

  /** A table is delivered exactly when every line is sound, and then it has one row per well-formed line. */
  lemma {:induction false} TableIff(lines: seq<Option<string>>, protocol: Protocol, procs: Processes)
    ensures ReadRows(lines, protocol, procs).Table? <==> AllSound(lines, protocol, procs)
    ensures ReadRows(lines, protocol, procs).Table? ==>
      |ReadRows(lines, protocol, procs).rows| == RowsBefore(lines, protocol, procs, |lines|)
  {
    hide ParseLine;
    if lines == [] {
    } else {
      TableIff(lines[1..], protocol, procs);
      SoundTail(lines, protocol, procs);
      RowsBeforeTail(lines, protocol, procs, |lines| - 1);
      hide AllSound, RowsBefore;
    }
  }

  /** The row of every well-formed line stands in the table, in file order: after the rows of the lines before it. */
  lemma {:induction false} RowPlace(lines: seq<Option<string>>, protocol: Protocol, procs: Processes, i: nat)
    requires i < |lines|
    ensures ReadRows(lines, protocol, procs).Table? && GivesRow(lines, protocol, procs, i) ==>
      var rows, n := ReadRows(lines, protocol, procs).rows, RowsBefore(lines, protocol, procs, i);
      n < |rows| && Row(rows[n]) == ParseLine(lines[i].value, protocol, procs)
  {
    hide ParseLine;
    if i > 0 {
      var tail := lines[1..];
      assert tail[i - 1] == lines[i];
      RowPlace(tail, protocol, procs, i - 1);
      RowsBeforeTail(lines, protocol, procs, i - 1);
      hide RowsBefore;
    }
  }

  /** Every row of a table comes from one well-formed line, which stands at its place. */
  lemma {:induction false} RowOrigin(lines: seq<Option<string>>, protocol: Protocol, procs: Processes, n: nat)
    returns (i: nat)
    requires ReadRows(lines, protocol, procs).Table? && n < |ReadRows(lines, protocol, procs).rows|
    ensures GivesRow(lines, protocol, procs, i) && RowsBefore(lines, protocol, procs, i) == n
    ensures ParseLine(lines[i].value, protocol, procs) == Row(ReadRows(lines, protocol, procs).rows[n])
  {
    hide ParseLine;
    var tail := lines[1..];
    var own := GivesRow(lines, protocol, procs, 0);
    if own && n == 0 {
      i := 0;
    } else {
      var k := RowOrigin(tail, protocol, procs, if own then n - 1 else n);
      assert tail[k] == lines[k + 1];
      RowsBeforeTail(lines, protocol, procs, k);
      hide RowsBefore;
      i := k + 1;
    }
  }

  /** A table crashes exactly when some line slices past its end and every line before it was sound. */
  lemma {:induction false} CrashIff(lines: seq<Option<string>>, protocol: Protocol, procs: Processes)
    ensures ReadRows(lines, protocol, procs).TableCrash? <==>
      exists k :: 0 <= k < |lines| && CrashesAt(lines, protocol, procs, k)
  {
    hide ParseLine;
    if lines == [] {
    } else {
      var tail := lines[1..];
      CrashIff(tail, protocol, procs);
      hide ReadRows;
      StepCrash(lines, protocol, procs);
      hide CrashesAt;
      if k :| 0 <= k < |lines| && CrashesAt(lines, protocol, procs, k) {
        CrashInTail(lines, protocol, procs, k);
      }
      if k :| 0 <= k < |tail| && CrashesAt(tail, protocol, procs, k) {
        CrashInTail(lines, protocol, procs, k + 1);
      }
      CrashInTail(lines, protocol, procs, 0);
    }
  }

  lemma StepCrash(lines: seq<Option<string>>, protocol: Protocol, procs: Processes)
    requires lines != []
    ensures ReadRows(lines, protocol, procs).TableCrash? <==>
      lines[0].Some?
      && (ParseLine(lines[0].value, protocol, procs).Crash? || ReadRows(lines[1..], protocol, procs).TableCrash?)
  {
    hide ParseLine;
  }

  /** Line k slices past its end, and every line before it was sound. */
  predicate CrashesAt(lines: seq<Option<string>>, protocol: Protocol, procs: Processes, k: nat)
    requires k < |lines|
  {
    AllSound(lines[..k], protocol, procs) && lines[k].Some? && ParseLine(lines[k].value, protocol, procs).Crash?
  }

  lemma CrashInTail(lines: seq<Option<string>>, protocol: Protocol, procs: Processes, k: nat)
    requires k < |lines|
    ensures CrashesAt(lines, protocol, procs, k) <==>
      lines[0].Some?
      && if k == 0 then ParseLine(lines[0].value, protocol, procs).Crash?
         else !ParseLine(lines[0].value, protocol, procs).Crash? && CrashesAt(lines[1..], protocol, procs, k - 1)
  {
    hide ParseLine;
    if k > 0 {
      SoundTail(lines[..k], protocol, procs);
      hide AllSound;
      assert lines[..k][1..] == lines[1..][..k - 1] && lines[..k][0] == lines[0];
    }
  }

  // ---- all families ----

  const FAMILIES: seq<Protocol> := [Tcp, Tcp6, Udp, Udp6]

  /** The rows of the families that could be read and the families that could not; or a panic, which ends the call. */
  datatype Checked = Answer(rows: seq<Connection>, errors: seq<Protocol>) | Crashed

  function Tables(files: seq<File>, procs: Processes): (r: seq<TableResult>)
    requires |files| == |FAMILIES|
    ensures |r| == |FAMILIES| && forall i :: 0 <= i < |r| ==> r[i] == ReadFile(files[i], FAMILIES[i], procs)
  {
    seq(|FAMILIES|, i requires 0 <= i < |FAMILIES| => ReadFile(files[i], FAMILIES[i], procs))
  }

  function RowsUpTo(tables: seq<TableResult>, k: nat): seq<Connection>
    requires k <= |tables|
  {
    if k == 0 then []
    else RowsUpTo(tables, k - 1) + (if tables[k - 1].Table? then tables[k - 1].rows else [])
  }

  function ErrorsUpTo(tables: seq<TableResult>, k: nat): seq<Protocol>
    requires k <= |tables| == |FAMILIES|
  {
    if k == 0 then []
    else ErrorsUpTo(tables, k - 1) + (if tables[k - 1].IoError? then [FAMILIES[k - 1]] else [])
  }

  ghost function CheckAll(files: seq<File>, procs: Processes): Checked
    requires |files| == |FAMILIES|
  {
    var tables := Tables(files, procs);
    if exists i :: 0 <= i < |tables| && tables[i].TableCrash? then Crashed
    else Answer(RowsUpTo(tables, |FAMILIES|), ErrorsUpTo(tables, |FAMILIES|))
  }

  /** all_connections_checked: all four tables are read before the first one is looked at. */
  method AllConnectionsChecked(files: seq<File>, procs: Processes) returns (r: Checked)
    requires |files| == |FAMILIES|
    ensures r == CheckAll(files, procs)
  {
    hide ReadFile;
    var results: seq<TableResult> := [];
    for k := 0 to |FAMILIES|
      invariant results == Tables(files, procs)[..k]
      invariant forall i :: 0 <= i < k ==> !Tables(files, procs)[i].TableCrash?
    {
      var table := ParseProcNet(files[k], FAMILIES[k], procs);
      if table.TableCrash? {
        assert Tables(files, procs)[k].TableCrash?;
        return Crashed;
      }
      results := results + [table];
    }
    assert results == Tables(files, procs);
    var rows: seq<Connection>, errors: seq<Protocol> := [], [];
    for k := 0 to |FAMILIES|
      invariant rows == RowsUpTo(results, k) && errors == ErrorsUpTo(results, k)
    {
      match results[k] {
        case Table(found) => rows := rows + found;
        case IoError => errors := errors + [FAMILIES[k]];
        case TableCrash => assert false;
      }
    }
    r := Answer(rows, errors);
  }

  /** Family i's file has a line that panics, with only sound lines between it and the header. */
  ghost predicate Panics(files: seq<File>, procs: Processes, i: nat)
    requires i < |files| == |FAMILIES|
  {
    files[i].Some? && files[i].value != []
    && exists k :: 0 <= k < |files[i].value[1..]| && CrashesAt(files[i].value[1..], FAMILIES[i], procs, k)
  }

  lemma PanicsIff(files: seq<File>, procs: Processes, i: nat)
    requires i < |files| == |FAMILIES|
    ensures Panics(files, procs, i) <==> Tables(files, procs)[i].TableCrash?
  {
    hide CrashesAt;
    if files[i].Some? && files[i].value != [] {
      CrashIff(files[i].value[1..], FAMILIES[i], procs);
    }
  }

  /**
   * An answer is delivered if and only if no family's table panics: one bad line in one file loses all rows and
   * errors.
   */
  lemma AnswerIff(files: seq<File>, procs: Processes)
    requires |files| == |FAMILIES|
    ensures CheckAll(files, procs).Answer? <==> forall i :: 0 <= i < |FAMILIES| ==> !Panics(files, procs, i)
  {
    hide Panics, Tables;
    forall i | 0 <= i < |FAMILIES|
      ensures Panics(files, procs, i) <==> Tables(files, procs)[i].TableCrash?
    {
      PanicsIff(files, procs, i);
    }
  }

  /** Ten words whose local field is a short address. */
  const CUT_WORDS: seq<string> := seq(10, i => if i == 1 then "0:1" else "0")
  const CUT_LINE: string := Join(CUT_WORDS, " ")

  lemma CutLine()
    ensures Tokens(CUT_LINE) == CUT_WORDS
  {
    TokensJoin(CUT_WORDS);
  }

  /** A failing input: one short address in the tcp6 file panics, and the rows and errors of every family are lost. */
  lemma OneLineLosesAll(files: seq<File>, procs: Processes)
    requires |files| == |FAMILIES| && files[1] == Some([Some("header"), Some(CUT_LINE)])
    ensures CheckAll(files, procs) == Crashed
  {
    CutCrashes(procs);
    var lines := files[1].value;
    hide ParseLine, CUT_LINE, Panics;
    assert lines[1..] == [Some(CUT_LINE)];
    assert CrashesAt(lines[1..], FAMILIES[1], procs, 0);
    FirstLinePanics(files, procs, 1);
    AnswerIff(files, procs);
  }

  lemma FirstLinePanics(files: seq<File>, procs: Processes, i: nat)
    requires i < |files| == |FAMILIES| && files[i].Some? && |files[i].value| > 1
    requires CrashesAt(files[i].value[1..], FAMILIES[i], procs, 0)
    ensures Panics(files, procs, i)
  {
    hide CrashesAt;
  }

  lemma CutCrashes(procs: Processes)
    ensures ParseLine(CUT_LINE, Tcp6, procs).Crash?
  {
    CutLine();
    assert CUT_WORDS[1] == "0:1" && |CUT_WORDS| == 10;
    CutField();
    hide ParseLine, CUT_LINE, CUT_WORDS, Cut, Tokens;
    LineCrashIff(CUT_LINE, Tcp6, procs);
  }

  lemma CutField()
    ensures Cut("0:1")
  {
    SplitFirst("0", ':', "1");
    SplitWhole("1", ':');
    assert "0:1" == "0" + [':'] + "1";
    assert Split("0:1", ':') == ["0", "1"];
    OneReads();
  }

  lemma OneReads()
    ensures ParseUnsigned("1", 16, U16) == Some(1)
  {
    assert "1"[1..] == "";
    assert Number("1", 16) == 1;
  }

  /** Line k of family i's file, after the header, gives the row. */
  predicate LineGives(files: seq<File>, procs: Processes, i: nat, k: nat, c: Connection)
    requires i < |files| == |FAMILIES|
  {
    && files[i].Some? && 1 <= k < |files[i].value| && files[i].value[k].Some?
    && ParseLine(files[i].value[k].value, FAMILIES[i], procs) == Row(c)
  }

  /** The family was read to its end without a failed or panicking line. */
  predicate Readable(files: seq<File>, procs: Processes, i: nat)
    requires i < |files| == |FAMILIES|
  {
    files[i].Some? && (files[i].value == [] || AllSound(files[i].value[1..], FAMILIES[i], procs))
  }

  lemma ReadableIff(files: seq<File>, procs: Processes, i: nat)
    requires i < |files| == |FAMILIES|
    ensures Readable(files, procs, i) <==> Tables(files, procs)[i].Table?
  {
    hide AllSound;
    if files[i].Some? && files[i].value != [] {
      TableIff(files[i].value[1..], FAMILIES[i], procs);
    }
  }

  lemma OwnProtocol(line: string, protocol: Protocol, procs: Processes)
    ensures ParseLine(line, protocol, procs).Row? ==> ParseLine(line, protocol, procs).row.protocol == protocol
  {
    hide ParseAddress, Tokens;
  }

  /** A table holds exactly the rows its lines give. */
  lemma FamilyRows(files: seq<File>, procs: Processes, i: nat, c: Connection)
    requires i < |files| == |FAMILIES| && Tables(files, procs)[i].Table?
    ensures c in Tables(files, procs)[i].rows <==> exists k :: LineGives(files, procs, i, k, c)
  {
    hide ParseLine;
    var lines, rows := files[i].value, Tables(files, procs)[i].rows;
    if lines != [] {
      var tail := lines[1..];
      if c in rows {
        var n :| 0 <= n < |rows| && rows[n] == c;
        var k := RowOrigin(tail, FAMILIES[i], procs, n);
        assert tail[k] == lines[k + 1];
        assert LineGives(files, procs, i, k + 1, c);
      }
      if k: nat :| LineGives(files, procs, i, k, c) {
        assert tail[k - 1] == lines[k];
        RowPlace(tail, FAMILIES[i], procs, k - 1);
      }
    }
  }

  lemma {:induction false} InSomeTable(tables: seq<TableResult>, k: nat, c: Connection)
    requires k <= |tables|
    ensures c in RowsUpTo(tables, k) <==> exists i :: 0 <= i < k && tables[i].Table? && c in tables[i].rows
  {
    if k == 0 {
    } else {
      InSomeTable(tables, k - 1, c);
      var own := if tables[k - 1].Table? then tables[k - 1].rows else [];
      assert RowsUpTo(tables, k) == RowsUpTo(tables, k - 1) + own;
    }
  }

  /**
   * The rows of an answer are exactly the rows that well-formed lines of readable families give, each under its own
   * family.
   */
  lemma NoRowIsHidden(files: seq<File>, procs: Processes, c: Connection)
    requires |files| == |FAMILIES| && CheckAll(files, procs).Answer?
    ensures c in CheckAll(files, procs).rows <==>
      exists i, k ::
        0 <= i < |FAMILIES| && Readable(files, procs, i) && LineGives(files, procs, i, k, c)
        && c.protocol == FAMILIES[i]
  {
    var tables := Tables(files, procs);
    InSomeTable(tables, |FAMILIES|, c);
    forall i | 0 <= i < |FAMILIES|
      ensures Readable(files, procs, i) <==> tables[i].Table?
      ensures tables[i].Table? ==> (c in tables[i].rows <==> exists k :: LineGives(files, procs, i, k, c))
      ensures forall k :: LineGives(files, procs, i, k, c) ==> c.protocol == FAMILIES[i]
    {
      ReadableIff(files, procs, i);
      if tables[i].Table? {
        FamilyRows(files, procs, i, c);
      }
      LinesOwnProtocol(files, procs, i, c);
    }
    hide Tables, RowsUpTo, ErrorsUpTo, Readable, LineGives;
  }

  lemma LinesOwnProtocol(files: seq<File>, procs: Processes, i: nat, c: Connection)
    requires i < |files| == |FAMILIES|
    ensures forall k :: LineGives(files, procs, i, k, c) ==> c.protocol == FAMILIES[i]
  {
    hide ParseLine;
    forall k: nat | LineGives(files, procs, i, k, c)
      ensures c.protocol == FAMILIES[i]
    {
      OwnProtocol(files[i].value[k].value, FAMILIES[i], procs);
    }
  }

  /** Families follow one another: row n of family i stands right after the rows of the families before it. */
  lemma {:induction false} RowPosition(tables: seq<TableResult>, k: nat, i: nat, n: nat)
    requires i < k <= |tables| && tables[i].Table? && n < |tables[i].rows|
    ensures |RowsUpTo(tables, i)| + n < |RowsUpTo(tables, k)|
    ensures RowsUpTo(tables, k)[|RowsUpTo(tables, i)| + n] == tables[i].rows[n]
  {
    if k == i + 1 {
      assert RowsUpTo(tables, k) == RowsUpTo(tables, i) + tables[i].rows;
    } else {
      RowPosition(tables, k - 1, i, n);
    }
  }

  lemma {:induction false} InErrors(tables: seq<TableResult>, k: nat, p: Protocol)
    requires k <= |tables| == |FAMILIES|
    ensures p in ErrorsUpTo(tables, k) <==> exists i :: 0 <= i < k && tables[i].IoError? && FAMILIES[i] == p
  {
    if k == 0 {
    } else {
      InErrors(tables, k - 1, p);
    }
  }

  /** An answer names a family as failed exactly when its file could not be read to the end. */
  lemma NoErrorIsHidden(files: seq<File>, procs: Processes, i: nat)
    requires i < |files| == |FAMILIES| && CheckAll(files, procs).Answer?
    ensures FAMILIES[i] in CheckAll(files, procs).errors <==> !Readable(files, procs, i)
  {
    var tables := Tables(files, procs);
    InErrors(tables, |FAMILIES|, FAMILIES[i]);
    ReadableIff(files, procs, i);
    hide Tables, RowsUpTo, ErrorsUpTo, Readable;
    assert forall m, n :: 0 <= m < n < |FAMILIES| ==> FAMILIES[m] != FAMILIES[n];
  }
}
