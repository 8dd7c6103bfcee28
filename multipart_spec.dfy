/** Functional specification of the byte-at-a-time multipart/form-data body parser.

    One call of `multipart_parser_execute` over a chunk `buf` is `Feed`; it runs `Step` on
    every byte in turn.  `Step` follows the `switch` on the parser state case by case; the C
    fall-throughs from a `_start` state into its main state are written as "enter the main
    state, then handle the same byte under its rules".

    Callbacks are modelled by an event log: every callback invocation appends its event, and
    the oracle `aborts` says, given the log including that event, whether the callback returned
    non-zero (which makes `execute` return the current offset).
*/
module MultipartSpec {

  const CR: char := '\r'
  const LF: char := '\n'
  const Hyphen: char := '-'
  const Colon: char := ':'
  const Space: char := ' '

  /** The parser states, in the order of the C `enum state` (s_uninitialized is never reached). */
  datatype Phase =
    | Start
    | StartBoundary
    | HeaderFieldStart
    | HeaderField
    | HeadersAlmostDone
    | HeaderValueStart
    | HeaderValue
    | HeaderValueAlmostDone
    | PartDataStart
    | PartData
    | End

  /** One callback invocation, named after the callback in `multipart_parser_settings`.  Data
      callbacks carry the bytes they are handed. */
  datatype Event =
    | OnPartDataBegin
    | OnHeadersComplete
    | OnHeaderField(bytes: seq<char>)
    | OnHeaderValue(bytes: seq<char>)
    | OnPartData(bytes: seq<char>)
    | OnPartDataEnd
    | OnBodyEnd

  /** The persistent parser state: `state`, `index`, the two `flags` bits, `parsed` and the
      contents of the lookbehind buffer. */
  datatype Machine = Machine(
    phase: Phase,
    index: nat,
    partBoundary: bool,
    lastBoundary: bool,
    parsed: nat,
    lookbehind: seq<char>)

  /** What a parser is constructed with: the boundary and the behaviour of its callbacks. */
  datatype Config = Config(boundary: seq<char>, aborts: seq<Event> -> bool)

  /** Everything one `execute` call threads from byte to byte: the machine, the local `mark`
      and the callback log. */
  datatype Cursor = Cursor(m: Machine, mark: nat, log: seq<Event>)

  /** The result of handling one byte: go on with the next byte, or return `ret` from `execute`. */
  datatype Outcome = Next(c: Cursor) | Halt(c: Cursor, ret: nat) {
    predicate IsFailure() { Halt? }
    function PropagateFailure(): Outcome requires Halt? { this }
    function Extract(): Cursor requires Next? { c }
  }

  /** What one `execute` call leaves behind and returns. */
  datatype Fed = Fed(m: Machine, log: seq<Event>, consumed: nat)

  /** The bounds every reachable machine keeps: the lookbehind holds `|boundary| + 8` bytes,
      the match counter stays within `|boundary| + 3` while scanning part data and within
      `|boundary|` while checking the opening delimiter, and is 0 in every other state. */
  predicate WellFormed(L: nat, m: Machine) {
    |m.lookbehind| == L + 8 &&
    (m.phase == StartBoundary ==> m.index <= L) &&
    (m.phase == PartData ==> m.index <= L + 3) &&
    (m.phase != StartBoundary && m.phase != PartData ==> m.index == 0)
  }

  /** The preconditions of handling byte `i` of `buf`. */
  predicate Ready(cfg: Config, buf: seq<char>, i: nat, cur: Cursor) {
    |cfg.boundary| >= 1 && i < |buf| && cur.mark <= i && WellFormed(|cfg.boundary|, cur.m)
  }

  /** The machine `init_multipart_parser` builds: state s_start, index, flags and parsed 0, and
      a lookbehind of `|boundary| + 8` bytes whose initial contents are irrelevant. */
  function Initial(L: nat, junk: seq<char>): (m: Machine)
    requires |junk| == L + 8
    ensures WellFormed(L, m) && m.lookbehind == junk
    ensures m.phase == Start && m.index == 0 && m.parsed == 0
    ensures !m.partBoundary && !m.lastBoundary
  {
    Machine(Start, 0, false, false, 0, junk)
  }

  /** `tolower(c)` lies in 'a'..'z' exactly for the ASCII letters. */
  predicate IsAsciiLetter(c: char) {
    ('a' <= c <= 'z') || ('A' <= c <= 'Z')
  }

  /** Invoke the callback for `e`; if it reports failure, `execute` returns `at`. */
  function Emit(cfg: Config, cur: Cursor, e: Event, at: nat): (r: Outcome)
    ensures r.c == cur.(log := cur.log + [e])
    ensures DataLength(r.c.log) == DataLength(cur.log) + EventData(e)
    ensures r.Halt? <==> cfg.aborts(cur.log + [e])
    ensures r.Halt? ==> r.ret == at
  {
    var c1 := Logged(cur, e);
    if cfg.aborts(c1.log) then Halt(c1, at) else Next(c1)
  }

  /** Log `e` without looking at what the callback returns. */
  function Logged(cur: Cursor, e: Event): (r: Cursor)
    ensures r == cur.(log := cur.log + [e])
    ensures DataLength(r.log) == DataLength(cur.log) + EventData(e)
  {
    var r := cur.(log := cur.log + [e]);
    assert r.log[..|cur.log|] == cur.log;
    r
  }

  /** The sum of the lengths of the part-data chunks in `log`. */
  function DataLength(log: seq<Event>): nat {
    if log == [] then 0
    else DataLength(log[..|log| - 1]) + EventData(log[|log| - 1])
  }

  function EventData(e: Event): nat {
    if e.OnPartData? then |e.bytes| else 0
  }

  /** The properties every step keeps: the bounds; the mark stays at or before the byte; the
      log only grows; `execute` returns at most one past the byte; and `parsed` grows by exactly
      the number of part-data bytes delivered. */
  predicate Advances(cfg: Config, buf: seq<char>, i: nat, cur: Cursor, r: Outcome) {
    WellFormed(|cfg.boundary|, r.c.m) &&
    r.c.mark <= i &&
    cur.log <= r.c.log &&
    (r.Halt? ==> r.ret <= i + 1) &&
    Counted(cur, r.c)
  }

  /** `parsed` has grown by exactly the part-data bytes logged between `a` and `b`. */
  predicate Counted(a: Cursor, b: Cursor) {
    b.m.parsed + DataLength(a.log) == a.m.parsed + DataLength(b.log)
  }

  // ---------------------------------------------------------------------------------------
  // The states, one function each
  // ---------------------------------------------------------------------------------------

  /** s_start_boundary: the bytes after the first must be `boundary[1..]`, then CR, then LF. */
  function StartBoundaryByte(cfg: Config, buf: seq<char>, i: nat, cur: Cursor): (r: Outcome)
    requires Ready(cfg, buf, i, cur) && cur.m.phase == StartBoundary
    ensures Advances(cfg, buf, i, cur, r)
    ensures r.c.mark == cur.mark
  {
    var L := |cfg.boundary|;
    var m := cur.m;
    var c := buf[i];
    if m.index == L - 1 then
      if c != CR then Halt(cur, i) else Next(cur.(m := m.(index := m.index + 1)))
    else if m.index == L then
      if c != LF then Halt(cur, i)
      else
        var c1 :- Emit(cfg, cur.(m := m.(index := 0)), OnPartDataBegin, i);
        Next(c1.(m := c1.m.(phase := HeaderFieldStart)))
    else if c != cfg.boundary[m.index + 1] then Halt(cur, i)
    else Next(cur.(m := m.(index := m.index + 1)))
  }

  /** s_header_field: letters and hyphens extend the name, `:` delivers it, CR ends the header
      block; at the chunk's last byte the name so far is flushed (without that byte). */
  function HeaderFieldByte(cfg: Config, buf: seq<char>, i: nat, cur: Cursor): (r: Outcome)
    requires Ready(cfg, buf, i, cur) && cur.m.phase == HeaderField
    ensures Advances(cfg, buf, i, cur, r)
  {
    var c := buf[i];
    if c == CR then Next(cur.(m := cur.m.(phase := HeadersAlmostDone)))
    else if c == Hyphen then Next(cur)
    else if c == Colon then
      var c1 :- Emit(cfg, cur, OnHeaderField(buf[cur.mark..i]), i);
      Next(c1.(m := c1.m.(phase := HeaderValueStart)))
    else if !IsAsciiLetter(c) then Halt(cur, i)
    else if i == |buf| - 1 then Emit(cfg, cur, OnHeaderField(buf[cur.mark..i]), i)
    else Next(cur)
  }

  /** s_header_value: CR delivers the value; at the chunk's last byte the value so far is
      flushed (without that byte), a second time when that byte is the CR. */
  function HeaderValueByte(cfg: Config, buf: seq<char>, i: nat, cur: Cursor): (r: Outcome)
    requires Ready(cfg, buf, i, cur) && cur.m.phase == HeaderValue
    ensures Advances(cfg, buf, i, cur, r)
  {
    var c := buf[i];
    var value := OnHeaderValue(buf[cur.mark..i]);
    var c1 :- if c == CR then Emit(cfg, cur, value, i) else Next(cur);
    var c2 := if c == CR then c1.(m := c1.m.(phase := HeaderValueAlmostDone)) else c1;
    if i == |buf| - 1 then Emit(cfg, c2, value, i) else Next(c2)
  }

  /** The CRLF trim: 2 when the bytes before the candidate boundary byte are CR LF and the byte
      after it is a hyphen, all inside the current chunk and after `mark`; otherwise 0. */
  function Adjustment(buf: seq<char>, i: nat, mark: nat): (adj: nat)
    requires mark <= i < |buf|
    ensures adj <= i - mark
    ensures adj == 2 <==> (2 <= i && i + 1 < |buf| && mark <= i - 2 &&
                           buf[i - 1] == LF && buf[i - 2] == CR && buf[i + 1] == Hyphen)
    ensures adj != 2 ==> adj == 0
  {
    if 2 <= i && i + 1 < |buf| && mark <= i - 2 &&
       buf[i - 1] == LF && buf[i - 2] == CR && buf[i + 1] == Hyphen
    then 2 else 0
  }

  /** The tail of s_part_data: store the byte in lookbehind while a match is in flight; on a
      failed match replay the `prev` held bytes as data and restart the data mark at this byte;
      at the chunk's last byte with no match in flight flush the data up to the end. */
  function Settle(cfg: Config, buf: seq<char>, i: nat, cur: Cursor, prev: nat): (r: Outcome)
    requires |cfg.boundary| >= 1 && i < |buf| && cur.mark <= i
    requires cur.m.phase == PartData && |cur.m.lookbehind| == |cfg.boundary| + 8
    requires cur.m.index <= |cfg.boundary| + 3 && prev <= |cfg.boundary| + 3
    ensures Advances(cfg, buf, i, cur, r) && r.c.m.phase == PartData
  {
    var m := cur.m;
    if m.index > 0 then
      Next(cur.(m := m.(lookbehind := m.lookbehind[m.index - 1 := buf[i]])))
    else
      var c1 :=
        if prev > 0 then Logged(Cursor(m.(parsed := m.parsed + prev), i, cur.log), OnPartData(m.lookbehind[..prev]))
        else cur;
      if i == |buf| - 1 then
        var data := buf[c1.mark..];
        Emit(cfg, c1.(m := c1.m.(parsed := c1.m.parsed + |data|)), OnPartData(data), |buf|)
      else Next(c1)
  }

  /** s_part_data: compare the byte with `boundary[index]` while the boundary is incomplete,
      then with the CR / `--` CR LF that may follow a complete boundary. */
  function PartDataByte(cfg: Config, buf: seq<char>, i: nat, cur: Cursor): (r: Outcome)
    requires Ready(cfg, buf, i, cur) && cur.m.phase == PartData
    ensures Advances(cfg, buf, i, cur, r)
  {
    if cur.m.index < |cfg.boundary| then BoundaryByte(cfg, buf, i, cur)
    else DelimiterByte(cfg, buf, i, cur)
  }

  /** s_part_data with `index < |boundary|`.  A byte that starts a candidate boundary first
      delivers the data before it (less a trimmed CR LF); a mismatch resets the counter. */
  function BoundaryByte(cfg: Config, buf: seq<char>, i: nat, cur: Cursor): (r: Outcome)
    requires Ready(cfg, buf, i, cur) && cur.m.phase == PartData && cur.m.index < |cfg.boundary|
    ensures Advances(cfg, buf, i, cur, r)
  {
    var m := cur.m;
    var p := m.index;
    if cfg.boundary[p] != buf[i] then Settle(cfg, buf, i, cur.(m := m.(index := 0)), p)
    else if p > 0 then Settle(cfg, buf, i, cur.(m := m.(index := p + 1)), p)
    else
      var adj := Adjustment(buf, i, cur.mark);
      var data := buf[cur.mark..i - adj];
      var e := Emit(cfg, cur.(m := m.(parsed := m.parsed + |data|)), OnPartData(data), i - adj);
      if e.Halt? then e else Settle(cfg, buf, i, e.c.(m := e.c.m.(index := 1)), p)
  }

  /** A confirmed delimiter: `on_part_data_end`, then `closing` (`on_part_data_begin` for a part
      boundary, `on_body_end` for the terminal one), then the state `to`; the held bytes are
      dropped, never delivered. */
  function Delimited(cfg: Config, buf: seq<char>, i: nat, cur: Cursor, closing: Event, to: Phase): (r: Outcome)
    requires Ready(cfg, buf, i, cur) && cur.m.phase == PartData && cur.m.index == 0
    requires to == HeaderFieldStart || to == End
    requires !closing.OnPartData?
    ensures Advances(cfg, buf, i, cur, r)
  {
    var ended := Emit(cfg, cur, OnPartDataEnd, i);
    if ended.Halt? then ended else
    var closed := Emit(cfg, ended.c, closing, i);
    if closed.Halt? then closed else Next(closed.c.(m := closed.c.m.(phase := to)))
  }

  /** s_part_data with `index >= |boundary|`: CR or `-` after the boundary sets a flag; a set
      part flag then needs LF (a part boundary), a set last flag needs `-`, CR, LF (the end). */
  function DelimiterByte(cfg: Config, buf: seq<char>, i: nat, cur: Cursor): (r: Outcome)
    requires Ready(cfg, buf, i, cur) && cur.m.phase == PartData && cur.m.index >= |cfg.boundary|
    ensures Advances(cfg, buf, i, cur, r)
  {
    var L := |cfg.boundary|;
    var m := cur.m;
    var c := buf[i];
    var p := m.index;
    if p == L then
      if c == CR then Settle(cfg, buf, i, cur.(m := m.(index := p + 1, partBoundary := true)), p)
      else if c == Hyphen then Settle(cfg, buf, i, cur.(m := m.(index := p + 1, lastBoundary := true)), p)
      else Settle(cfg, buf, i, cur.(m := m.(index := 0)), p)
    else if p == L + 1 then
      if m.partBoundary then
        if c == LF then Delimited(cfg, buf, i, cur.(m := m.(index := 0, partBoundary := false)), OnPartDataBegin, HeaderFieldStart)
        else Settle(cfg, buf, i, cur.(m := m.(index := 0)), p)
      else if m.lastBoundary then
        Settle(cfg, buf, i, cur.(m := m.(index := if c == Hyphen then p + 1 else 0)), p)
      else Settle(cfg, buf, i, cur.(m := m.(index := 0)), p)
    else if p == L + 2 then
      Settle(cfg, buf, i, cur.(m := m.(index := if c == CR then p + 1 else 0)), p)
    else if c == LF then Delimited(cfg, buf, i, cur.(m := m.(index := 0)), OnBodyEnd, End)
    else Settle(cfg, buf, i, cur.(m := m.(index := 0)), p)
  }

  /** One iteration of the `for` loop of `multipart_parser_execute`. */
  function Step(cfg: Config, buf: seq<char>, i: nat, cur: Cursor): (r: Outcome)
    requires Ready(cfg, buf, i, cur)
    ensures Advances(cfg, buf, i, cur, r)
  {
    var c := buf[i];
    match cur.m.phase
    case Start => Next(cur.(m := cur.m.(index := 0, phase := StartBoundary)))
    case StartBoundary => StartBoundaryByte(cfg, buf, i, cur)
    case HeaderFieldStart => HeaderFieldByte(cfg, buf, i, Cursor(cur.m.(phase := HeaderField), i, cur.log))
    case HeaderField => HeaderFieldByte(cfg, buf, i, cur)
    case HeadersAlmostDone =>
      if c != LF then Halt(cur, i) else Next(cur.(m := cur.m.(phase := PartDataStart)))
    case HeaderValueStart =>
      if c == Space then Next(cur)
      else HeaderValueByte(cfg, buf, i, Cursor(cur.m.(phase := HeaderValue), i, cur.log))
    case HeaderValue => HeaderValueByte(cfg, buf, i, cur)
    case HeaderValueAlmostDone =>
      if c != LF then Halt(cur, i) else Next(cur.(m := cur.m.(phase := HeaderFieldStart)))
    case PartDataStart =>
      var c1 :- Emit(cfg, cur, OnHeadersComplete, i);
      PartDataByte(cfg, buf, i, Cursor(c1.m.(phase := PartData), i, c1.log))
    case PartData => PartDataByte(cfg, buf, i, cur)
    case End => Next(cur)
  }

  /** Handle bytes `i .. n-1` of the chunk `buf`, stopping at the first `return`. */
  function Run(cfg: Config, buf: seq<char>, n: nat, i: nat, cur: Cursor): (r: Outcome)
    requires |cfg.boundary| >= 1 && i <= n <= |buf| && cur.mark <= i
    requires WellFormed(|cfg.boundary|, cur.m)
    ensures WellFormed(|cfg.boundary|, r.c.m)
    ensures cur.log <= r.c.log
    ensures r.Next? ==> r.c.mark <= n
    ensures r.Halt? ==> r.ret <= n
    decreases n - i, 1
  {
    if i == n then Next(cur) else Resume(cfg, buf, n, i, cur)
  }

  /** Handle byte `i`, then, unless it returned, bytes `i + 1 .. n-1`. */
  function Resume(cfg: Config, buf: seq<char>, n: nat, i: nat, cur: Cursor): (r: Outcome)
    requires |cfg.boundary| >= 1 && i < n <= |buf| && cur.mark <= i
    requires WellFormed(|cfg.boundary|, cur.m)
    ensures WellFormed(|cfg.boundary|, r.c.m)
    ensures cur.log <= r.c.log
    ensures r.Next? ==> r.c.mark <= n
    ensures r.Halt? ==> r.ret <= n
    decreases n - i, 0
  {
    var c1 :- Step(cfg, buf, i, cur);
    Run(cfg, buf, n, i + 1, c1)
  }

  /** One call `multipart_parser_execute(p, buf, len)`: the new machine, the callbacks it made
      and its return value. */
  function Feed(cfg: Config, m: Machine, log: seq<Event>, buf: seq<char>): (r: Fed)
    requires |cfg.boundary| >= 1 && WellFormed(|cfg.boundary|, m)
    ensures WellFormed(|cfg.boundary|, r.m)
    ensures log <= r.log
    ensures r.consumed <= |buf|
  {
    match Run(cfg, buf, |buf|, 0, Cursor(m, 0, log))
    case Next(c) => Fed(c.m, c.log, |buf|)
    case Halt(c, k) => Fed(c.m, c.log, k)
  }
}
