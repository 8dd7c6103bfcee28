/** Payload bytes in s_part_data, the CR LF that the trim before a failed candidate loses, and
    the order of callbacks over whole parts and a whole two-part body in one chunk. */
module MultipartPayload {
  import opened MultipartSpec
  import opened MultipartProperties

  // ---------------------------------------------------------------------------------------
  // Plain payload
  // ---------------------------------------------------------------------------------------

  /** A payload byte that cannot start a boundary, with no match in flight and not the chunk's
      last byte, changes nothing: it is delivered later with the data around it. */
  lemma DataByte(cfg: Config, buf: seq<char>, i: nat, cur: Cursor)
    requires Ready(cfg, buf, i, cur) && cur.m.phase == PartData && cur.m.index == 0
    requires i < |buf| - 1 && buf[i] != cfg.boundary[0]
    ensures Step(cfg, buf, i, cur) == Next(cur)
  {
    StepInPartData(cfg, buf, i, cur);
    PartDataSettles(cfg, buf, i, cur);
    assert Advanced(cfg.boundary, cur.m, buf[i]) == cur.m;
  }

  /** The chunk's last byte, when it cannot start a boundary and no match is in flight, flushes
      the data from the mark to the end of the chunk, that byte included, as one chunk; `parsed`
      grows by its length and an abort makes `execute` return the chunk length. */
  lemma LastDataByte(cfg: Config, buf: seq<char>, cur: Cursor)
    requires |buf| >= 1 && Ready(cfg, buf, |buf| - 1, cur) && cur.m.phase == PartData && cur.m.index == 0
    requires buf[|buf| - 1] != cfg.boundary[0]
    ensures var done := Cursor(cur.m.(parsed := cur.m.parsed + (|buf| - cur.mark)), cur.mark,
                               cur.log + [OnPartData(buf[cur.mark..])]);
      Step(cfg, buf, |buf| - 1, cur) == if cfg.aborts(done.log) then Halt(done, |buf|) else Next(done)
  {
    var i := |buf| - 1;
    StepInPartData(cfg, buf, i, cur);
    PartDataSettles(cfg, buf, i, cur);
    assert Advanced(cfg.boundary, cur.m, buf[i]) == cur.m;
  }

  /** A stretch of such payload bytes changes nothing. */
  lemma {:induction false} DataScan(cfg: Config, buf: seq<char>, n: nat, s: nat, t: nat, cur: Cursor)
    requires |cfg.boundary| >= 1 && cur.mark <= s <= t <= n <= |buf| && t < |buf|
    requires cur.m.phase == PartData && cur.m.index == 0 && WellFormed(|cfg.boundary|, cur.m)
    requires forall k :: s <= k < t ==> buf[k] != cfg.boundary[0]
    ensures Run(cfg, buf, n, s, cur) == Run(cfg, buf, n, t, cur)
    decreases t - s
  {
    if s < t {
      DataByte(cfg, buf, s, cur);
      var s1 := s + 1;
      RunStep(cfg, buf, n, s, cur, s1, cur);
      DataScan(cfg, buf, n, s1, t, cur);
    }
  }

  // ---------------------------------------------------------------------------------------
  // The CR LF lost before a failed candidate
  // ---------------------------------------------------------------------------------------

  /** As written, a CR LF trimmed before a candidate boundary is lost when the candidate then
      fails.  With a boundary whose second byte is `-` (the usual `--` prefix), the bytes CR,
      LF, `boundary[0]`, `-` and a byte other than `boundary[2]` deliver the data before the
      CR LF, then replay only the two held bytes, and restart the data mark after them.  The
      CR LF at `j - 2` and `j - 1` is in no event, and `parsed` counts two bytes fewer than
      the chunk holds up to the mark. */
  lemma TrimmedLineBreakLost(cfg: Config, buf: seq<char>, n: nat, j: nat, cur: Cursor, j3: nat, after: Cursor)
    requires Ready(cfg, buf, j, cur) && cur.m.phase == PartData && cur.m.index == 0
    requires |cfg.boundary| >= 3 && cfg.boundary[1] == Hyphen
    requires 2 <= j && cur.mark <= j - 2 && j3 == j + 3 && j3 <= n <= |buf| && j3 < |buf|
    requires buf[j - 2] == CR && buf[j - 1] == LF
    requires buf[j] == cfg.boundary[0] && buf[j + 1] == Hyphen && buf[j + 2] != cfg.boundary[2]
    requires !cfg.aborts(cur.log + [OnPartData(buf[cur.mark..j - 2])])
    requires after == Cursor(cur.m.(parsed := cur.m.parsed + (j - 2 - cur.mark) + 2,
                                    lookbehind := cur.m.lookbehind[0 := cfg.boundary[0]][1 := Hyphen]),
                             j + 2, cur.log + [OnPartData(buf[cur.mark..j - 2]), OnPartData(cfg.boundary[..2])])
    ensures Run(cfg, buf, n, j, cur) == Run(cfg, buf, n, j3, after)
  {
    var lead := buf[cur.mark..j - 2];
    assert Adjustment(buf, j, cur.mark) == 2;
    assert Leading(buf, j, cur.mark) == lead;
    var j1 := j + 1;
    var c1 := Cursor(cur.m.(parsed := cur.m.parsed + |lead|, index := 1,
                            lookbehind := cur.m.lookbehind[0 := cfg.boundary[0]]),
                     cur.mark, cur.log + [OnPartData(lead)]);
    CandidateRun(cfg, buf, n, j, cur, j1, c1);
    assert c1.log + [OnPartData(cfg.boundary[..2])]
        == cur.log + [OnPartData(lead), OnPartData(cfg.boundary[..2])];
    HeldPairReplayed(cfg, buf, n, j1, c1, j3, after);
  }

  /** The second boundary byte `-` is held, then a byte other than `boundary[2]` replays the
      two held bytes and restarts the data mark at itself. */
  lemma HeldPairReplayed(cfg: Config, buf: seq<char>, n: nat, j1: nat, c1: Cursor, j3: nat, after: Cursor)
    requires Ready(cfg, buf, j1, c1) && c1.m.phase == PartData && c1.m.index == 1
    requires |cfg.boundary| >= 3 && cfg.boundary[1] == Hyphen
    requires c1.m.lookbehind[0] == cfg.boundary[0]
    requires j3 == j1 + 2 && j3 <= n <= |buf| && j3 < |buf|
    requires buf[j1] == Hyphen && buf[j1 + 1] != cfg.boundary[2]
    requires after == Cursor(c1.m.(index := 0, parsed := c1.m.parsed + 2,
                                   lookbehind := c1.m.lookbehind[1 := Hyphen]),
                             j1 + 1, c1.log + [OnPartData(cfg.boundary[..2])])
    ensures Run(cfg, buf, n, j1, c1) == Run(cfg, buf, n, j3, after)
  {
    var j2 := j1 + 1;
    var c2 := c1.(m := c1.m.(index := 2, lookbehind := c1.m.lookbehind[1 := Hyphen]));
    TentativeByte(cfg, buf, j1, c1);
    assert Step(cfg, buf, j1, c1) == Next(c2);
    RunStep(cfg, buf, n, j1, c1, j2, c2);
    MismatchReplay(cfg, buf, j2, c2);
    assert c2.m.lookbehind[..2] == cfg.boundary[..2];
    assert Step(cfg, buf, j2, c2) == Next(after);
    RunStep(cfg, buf, n, j2, c2, j3, after);
  }

  /** An instance: with the boundary `--B`, one call on `x` CR LF `--Xyz` in s_part_data
      delivers `x`, `--` and `Xyz`.  Eight payload bytes arrive as six; the CR LF is lost. */
  lemma LostLineBreakExample(cfg: Config, m: Machine, log: seq<Event>)
    requires cfg.boundary == "--B" && forall l :: !cfg.aborts(l)
    requires WellFormed(3, m) && m.phase == PartData && m.index == 0
    ensures var r := Feed(cfg, m, log, "x\r\n--Xyz");
      r.log == log + [OnPartData("x"), OnPartData("--"), OnPartData("Xyz")] &&
      r.m.parsed == m.parsed + 6 && r.m.phase == PartData && r.consumed == 8
  {
    var buf := "x\r\n--Xyz";
    var after := Cursor(m.(parsed := m.parsed + 3, lookbehind := m.lookbehind[0 := '-'][1 := '-']),
                        5, log + [OnPartData("x"), OnPartData("--")]);
    assert buf[0..1] == "x";
    ExampleUpToReplay(cfg, buf, m, log, after, 8, 3, 6);
    ExampleTail(cfg, buf, after);
    assert after.log + [OnPartData("Xyz")] == log + [OnPartData("x"), OnPartData("--"), OnPartData("Xyz")];
  }

  /** The instance up to the replay: `x` is delivered, the CR LF is trimmed, and `--` is
      replayed with the mark on `X`.  The chunk length and the two positions come in as
      parameters so that the solver does not unfold the run on literal positions. */
  lemma ExampleUpToReplay(cfg: Config, buf: seq<char>, m: Machine, log: seq<Event>, after: Cursor, n: nat, j: nat, j3: nat)
    requires n == 8 && j == 3 && j3 == 6
    requires cfg.boundary == "--B" && forall l :: !cfg.aborts(l)
    requires |buf| == 8 && buf[0] == 'x' && buf[1] == CR && buf[2] == LF && buf[3] == '-' && buf[4] == '-' && buf[5] == 'X'
    requires WellFormed(3, m) && m.phase == PartData && m.index == 0
    requires after == Cursor(m.(parsed := m.parsed + 3, lookbehind := m.lookbehind[0 := '-'][1 := '-']),
                             5, log + [OnPartData(buf[0..1]), OnPartData("--")])
    ensures Run(cfg, buf, n, 0, Cursor(m, 0, log)) == Run(cfg, buf, n, j3, after)
  {
    var cur := Cursor(m, 0, log);
    DataScan(cfg, buf, n, 0, j, cur);
    assert cfg.boundary[..2] == "--";
    TrimmedLineBreakLost(cfg, buf, n, j, cur, j3, after);
  }

  /** The instance after the replay: `y` is held in the chunk and the last byte `z` flushes
      `Xyz` from the mark. */
  lemma ExampleTail(cfg: Config, buf: seq<char>, after: Cursor)
    requires cfg.boundary == "--B" && buf == "x\r\n--Xyz" && forall l :: !cfg.aborts(l)
    requires WellFormed(3, after.m) && after.m.phase == PartData && after.m.index == 0 && after.mark == 5
    ensures Run(cfg, buf, 8, 6, after)
         == Next(Cursor(after.m.(parsed := after.m.parsed + 3), 5, after.log + [OnPartData("Xyz")]))
  {
    var last := Cursor(after.m.(parsed := after.m.parsed + 3), 5, after.log + [OnPartData("Xyz")]);
    DataScan(cfg, buf, 8, 6, 7, after);
    assert buf[5..] == "Xyz";
    StepInPartData(cfg, buf, 7, after);
    PartDataSettles(cfg, buf, 7, after);
    assert Advanced(cfg.boundary, after.m, buf[7]) == after.m;
    assert Step(cfg, buf, 7, after) == Next(last);
    RunStep(cfg, buf, 8, 7, after, 8, last);
  }

  // ---------------------------------------------------------------------------------------
  // Whole parts and a whole body
  // ---------------------------------------------------------------------------------------

  /** The first payload byte raises `on_headers_complete` and, when it cannot start a
      boundary, is then held in the chunk as data with the mark on it. */
  lemma PayloadStart(cfg: Config, buf: seq<char>, n: nat, j: nat, cur: Cursor, j1: nat, c0: Cursor)
    requires Ready(cfg, buf, j, cur) && cur.m.phase == PartDataStart
    requires j < n <= |buf| && j < |buf| - 1 && j1 == j + 1 && buf[j] != cfg.boundary[0]
    requires !cfg.aborts(cur.log + [OnHeadersComplete])
    requires c0 == Cursor(cur.m.(phase := PartData), j, cur.log + [OnHeadersComplete])
    ensures Run(cfg, buf, n, j, cur) == Run(cfg, buf, n, j1, c0)
  {
    HeadersCompleteOnFirstPayloadByte(cfg, buf, j, cur);
    StepInPartData(cfg, buf, j, c0);
    DataByte(cfg, buf, j, c0);
    RunStep(cfg, buf, n, j, cur, j1, c0);
  }

  /** A payload of bytes that cannot start a boundary, from s_part_data_start at `j` up to
      `k`: only `on_headers_complete` is raised, and the data mark stays at `j`. */
  lemma PayloadRun(cfg: Config, buf: seq<char>, n: nat, j: nat, k: nat, cur: Cursor, c0: Cursor)
    requires |cfg.boundary| >= 1 && cur.mark <= j < k && k < n <= |buf| && WellFormed(|cfg.boundary|, cur.m)
    requires cur.m.phase == PartDataStart && !cfg.aborts(cur.log + [OnHeadersComplete])
    requires forall t :: j <= t < k ==> buf[t] != cfg.boundary[0]
    requires c0 == Cursor(cur.m.(phase := PartData), j, cur.log + [OnHeadersComplete])
    ensures Run(cfg, buf, n, j, cur) == Run(cfg, buf, n, k, c0)
  {
    PayloadStart(cfg, buf, n, j, cur, j + 1, c0);
    DataScan(cfg, buf, n, j + 1, k, c0);
  }

  /** A part's payload from s_part_data_start at `j`, then a part boundary at `k`: the events
      are `on_headers_complete`, the payload up to `k` (less a CR LF trimmed before the
      boundary), `on_part_data_end` and `on_part_data_begin`, and the parser is at the start
      of the next part's header lines. */
  lemma PayloadThenBoundary(cfg: Config, buf: seq<char>, n: nat, j: nat, k: nat, e: nat, cur: Cursor, lead: seq<char>, next: Cursor)
    requires |cfg.boundary| >= 1 && cur.mark <= j < k && WellFormed(|cfg.boundary|, cur.m)
    requires cur.m.phase == PartDataStart && forall l :: !cfg.aborts(l)
    requires e == k + |cfg.boundary| + 2 && e <= n <= |buf|
    requires forall t :: j <= t < k ==> buf[t] != cfg.boundary[0]
    requires buf[k..e] == cfg.boundary + [CR, LF]
    requires lead == Leading(buf, k, j)
    requires next == Cursor(cur.m.(phase := HeaderFieldStart, index := 0, partBoundary := false,
                                   parsed := cur.m.parsed + |lead|,
                                   lookbehind := Absorbed(cur.m.lookbehind, cfg.boundary + [CR], 0)),
                            j, cur.log + [OnHeadersComplete, OnPartData(lead), OnPartDataEnd, OnPartDataBegin])
    ensures Run(cfg, buf, n, j, cur) == Run(cfg, buf, n, e, next)
  {
    var c0 := Cursor(cur.m.(phase := PartData), j, cur.log + [OnHeadersComplete]);
    PayloadRun(cfg, buf, n, j, k, cur, c0);
    BoundaryCursor(cur, c0, lead, cfg.boundary, next);
    PartBoundaryLine(cfg, buf, n, k, c0, e, lead);
  }

  /** The cursor after a part boundary, written from s_part_data or from s_part_data_start. */
  lemma BoundaryCursor(cur: Cursor, c0: Cursor, lead: seq<char>, b: seq<char>, next: Cursor)
    requires |b| + 8 == |cur.m.lookbehind|
    requires c0 == Cursor(cur.m.(phase := PartData), c0.mark, cur.log + [OnHeadersComplete])
    requires next == Cursor(cur.m.(phase := HeaderFieldStart, index := 0, partBoundary := false,
                                   parsed := cur.m.parsed + |lead|,
                                   lookbehind := Absorbed(cur.m.lookbehind, b + [CR], 0)),
                            c0.mark, cur.log + [OnHeadersComplete, OnPartData(lead), OnPartDataEnd, OnPartDataBegin])
    ensures next == Cursor(c0.m.(phase := HeaderFieldStart, index := 0, partBoundary := false,
                                 parsed := c0.m.parsed + |lead|,
                                 lookbehind := Absorbed(c0.m.lookbehind, b + [CR], 0)),
                           c0.mark, c0.log + [OnPartData(lead), OnPartDataEnd, OnPartDataBegin])
  {
    assert c0.log + [OnPartData(lead), OnPartDataEnd, OnPartDataBegin]
        == cur.log + [OnHeadersComplete, OnPartData(lead), OnPartDataEnd, OnPartDataBegin];
  }

  /** The last part's payload from s_part_data_start at `j`, then the terminal boundary at `k`
      ending the run: the events are `on_headers_complete`, the payload, `on_part_data_end`
      and `on_body_end`, and the parser is in s_end. */
  lemma PayloadThenTerminal(cfg: Config, buf: seq<char>, n: nat, j: nat, k: nat, e: nat, cur: Cursor, lead: seq<char>, done: Cursor)
    requires |cfg.boundary| >= 1 && cur.mark <= j < k && WellFormed(|cfg.boundary|, cur.m)
    requires cur.m.phase == PartDataStart && !cur.m.partBoundary && forall l :: !cfg.aborts(l)
    requires e == k + |cfg.boundary| + 4 && e <= n <= |buf|
    requires forall t :: j <= t < k ==> buf[t] != cfg.boundary[0]
    requires buf[k..e] == cfg.boundary + [Hyphen, Hyphen, CR, LF]
    requires lead == Leading(buf, k, j)
    requires done == Cursor(cur.m.(phase := End, index := 0, lastBoundary := true,
                                   parsed := cur.m.parsed + |lead|,
                                   lookbehind := Absorbed(cur.m.lookbehind, cfg.boundary + [Hyphen, Hyphen, CR], 0)),
                            j, cur.log + [OnHeadersComplete, OnPartData(lead), OnPartDataEnd, OnBodyEnd])
    ensures Run(cfg, buf, n, j, cur) == Next(done)
  {
    var c0 := Cursor(cur.m.(phase := PartData), j, cur.log + [OnHeadersComplete]);
    PayloadRun(cfg, buf, n, j, k, cur, c0);
    TerminalCursor(cur, c0, lead, cfg.boundary, done);
    TerminalLine(cfg, buf, n, k, c0, e, lead);
  }

  /** The cursor after the terminal boundary, written from s_part_data or from
      s_part_data_start. */
  lemma TerminalCursor(cur: Cursor, c0: Cursor, lead: seq<char>, b: seq<char>, done: Cursor)
    requires |b| + 8 == |cur.m.lookbehind|
    requires c0 == Cursor(cur.m.(phase := PartData), c0.mark, cur.log + [OnHeadersComplete])
    requires done == Cursor(cur.m.(phase := End, index := 0, lastBoundary := true,
                                   parsed := cur.m.parsed + |lead|,
                                   lookbehind := Absorbed(cur.m.lookbehind, b + [Hyphen, Hyphen, CR], 0)),
                            c0.mark, cur.log + [OnHeadersComplete, OnPartData(lead), OnPartDataEnd, OnBodyEnd])
    ensures done == Cursor(c0.m.(phase := End, index := 0, lastBoundary := true,
                                 parsed := c0.m.parsed + |lead|,
                                 lookbehind := Absorbed(c0.m.lookbehind, b + [Hyphen, Hyphen, CR], 0)),
                           c0.mark, c0.log + [OnPartData(lead), OnPartDataEnd, OnBodyEnd])
  {
    assert c0.log + [OnPartData(lead), OnPartDataEnd, OnBodyEnd]
        == cur.log + [OnHeadersComplete, OnPartData(lead), OnPartDataEnd, OnBodyEnd];
  }

  /** A body of two parts without header lines, in one chunk, fed to the parser `init` builds,
      with callbacks that never fail.  The callbacks come in the order part_data_begin,
      headers_complete, the first payload, part_data_end, part_data_begin, headers_complete,
      the second payload, part_data_end, body_end; the parser ends in s_end and `execute`
      returns the chunk length. */
  lemma TwoPartBody(cfg: Config, junk: seq<char>, buf: seq<char>, k1: nat, e1: nat, k2: nat)
    requires |cfg.boundary| >= 1 && |junk| == |cfg.boundary| + 8 && forall l :: !cfg.aborts(l)
    requires |cfg.boundary| + 4 < k1 && e1 == k1 + |cfg.boundary| + 2 && e1 + 2 < k2
    requires |buf| == k2 + |cfg.boundary| + 4
    requires buf[1..|cfg.boundary| + 2] == OpeningTail(cfg.boundary)
    requires buf[|cfg.boundary| + 2] == CR && buf[|cfg.boundary| + 3] == LF
    requires forall t :: |cfg.boundary| + 4 <= t < k1 ==> buf[t] != cfg.boundary[0]
    requires buf[k1..e1] == cfg.boundary + [CR, LF]
    requires buf[e1] == CR && buf[e1 + 1] == LF
    requires forall t :: e1 + 2 <= t < k2 ==> buf[t] != cfg.boundary[0]
    requires buf[k2..] == cfg.boundary + [Hyphen, Hyphen, CR, LF]
    ensures var r := Feed(cfg, Initial(|cfg.boundary|, junk), [], buf);
      r.log == [OnPartDataBegin, OnHeadersComplete, OnPartData(Leading(buf, k1, |cfg.boundary| + 4)), OnPartDataEnd,
                OnPartDataBegin, OnHeadersComplete, OnPartData(Leading(buf, k2, e1 + 2)), OnPartDataEnd, OnBodyEnd] &&
      r.m.phase == End && r.consumed == |buf|
  {
    var L := |cfg.boundary|;
    var cur := Cursor(Initial(L, junk), 0, []);
    var lead1 := Leading(buf, k1, L + 4);
    var c3 := FirstPart(cfg, buf, cur, k1, e1, lead1);
    var lead2 := Leading(buf, k2, e1 + 2);
    LastPart(cfg, buf, c3, e1, k2, lead2);
    assert c3.log + [OnHeadersComplete, OnPartData(lead2), OnPartDataEnd, OnBodyEnd]
        == [OnPartDataBegin, OnHeadersComplete, OnPartData(lead1), OnPartDataEnd,
            OnPartDataBegin, OnHeadersComplete, OnPartData(lead2), OnPartDataEnd, OnBodyEnd];
  }

  /** The opening delimiter and a blank line: the parser is at the first payload byte with
      `on_part_data_begin` logged. */
  lemma OpeningThenBlank(cfg: Config, buf: seq<char>, n: nat, cur: Cursor, c2: Cursor)
    requires |cfg.boundary| >= 1 && |cfg.boundary| + 4 <= n <= |buf| && forall l :: !cfg.aborts(l)
    requires cur.m.phase == Start && cur.mark == 0 && WellFormed(|cfg.boundary|, cur.m)
    requires buf[1..|cfg.boundary| + 2] == OpeningTail(cfg.boundary)
    requires buf[|cfg.boundary| + 2] == CR && buf[|cfg.boundary| + 3] == LF
    requires c2 == Cursor(cur.m.(phase := PartDataStart, index := 0), |cfg.boundary| + 2, cur.log + [OnPartDataBegin])
    ensures Run(cfg, buf, n, 0, cur) == Run(cfg, buf, n, |cfg.boundary| + 4, c2)
  {
    var L := |cfg.boundary|;
    OpeningAccepted(cfg, buf, n, cur);
    var c1 := Cursor(cur.m.(phase := HeaderFieldStart, index := 0), 0, cur.log + [OnPartDataBegin]);
    BlankLine(cfg, buf, n, L + 2, c1);
    assert c2 == Cursor(c1.m.(phase := PartDataStart), L + 2, c1.log);
  }

  /** The opening delimiter, a blank line and the first part, up to the part boundary. */
  lemma FirstPart(cfg: Config, buf: seq<char>, cur: Cursor, k1: nat, e1: nat, lead1: seq<char>) returns (c3: Cursor)
    requires |cfg.boundary| >= 1 && forall l :: !cfg.aborts(l)
    requires cur.m.phase == Start && cur.mark == 0 && cur.log == [] && WellFormed(|cfg.boundary|, cur.m)
    requires |cfg.boundary| + 4 < k1 && e1 == k1 + |cfg.boundary| + 2 && e1 + 2 < |buf|
    requires buf[1..|cfg.boundary| + 2] == OpeningTail(cfg.boundary)
    requires buf[|cfg.boundary| + 2] == CR && buf[|cfg.boundary| + 3] == LF
    requires forall t :: |cfg.boundary| + 4 <= t < k1 ==> buf[t] != cfg.boundary[0]
    requires buf[k1..e1] == cfg.boundary + [CR, LF]
    requires lead1 == Leading(buf, k1, |cfg.boundary| + 4)
    ensures c3.m.phase == HeaderFieldStart && !c3.m.partBoundary && WellFormed(|cfg.boundary|, c3.m)
    ensures c3.mark <= e1
    ensures c3.log == [OnPartDataBegin, OnHeadersComplete, OnPartData(lead1), OnPartDataEnd, OnPartDataBegin]
    ensures Run(cfg, buf, |buf|, 0, cur) == Run(cfg, buf, |buf|, e1, c3)
  {
    var L := |cfg.boundary|;
    var n := |buf|;
    var c2 := Cursor(cur.m.(phase := PartDataStart, index := 0), L + 2, [OnPartDataBegin]);
    OpeningThenBlank(cfg, buf, n, cur, c2);
    c3 := Cursor(c2.m.(phase := HeaderFieldStart, index := 0, partBoundary := false,
                        parsed := c2.m.parsed + |lead1|,
                        lookbehind := Absorbed(c2.m.lookbehind, cfg.boundary + [CR], 0)),
                 L + 4, [OnPartDataBegin, OnHeadersComplete, OnPartData(lead1), OnPartDataEnd, OnPartDataBegin]);
    assert c2.log + [OnHeadersComplete, OnPartData(lead1), OnPartDataEnd, OnPartDataBegin] == c3.log;
    PayloadThenBoundary(cfg, buf, n, L + 4, k1, e1, c2, lead1, c3);
  }

  /** A blank line and the last part, up to the end of the chunk. */
  lemma LastPart(cfg: Config, buf: seq<char>, c3: Cursor, e1: nat, k2: nat, lead2: seq<char>)
    requires |cfg.boundary| >= 1 && forall l :: !cfg.aborts(l)
    requires c3.m.phase == HeaderFieldStart && !c3.m.partBoundary && WellFormed(|cfg.boundary|, c3.m)
    requires c3.mark <= e1 && e1 + 2 < k2 && |buf| == k2 + |cfg.boundary| + 4
    requires buf[e1] == CR && buf[e1 + 1] == LF
    requires forall t :: e1 + 2 <= t < k2 ==> buf[t] != cfg.boundary[0]
    requires buf[k2..] == cfg.boundary + [Hyphen, Hyphen, CR, LF]
    requires lead2 == Leading(buf, k2, e1 + 2)
    ensures var r := Run(cfg, buf, |buf|, e1, c3);
      r.Next? && r.c.m.phase == End &&
      r.c.log == c3.log + [OnHeadersComplete, OnPartData(lead2), OnPartDataEnd, OnBodyEnd]
  {
    var n := |buf|;
    var c4 := Cursor(c3.m.(phase := PartDataStart), e1, c3.log);
    assert Run(cfg, buf, n, e1, c3) == Run(cfg, buf, n, e1 + 2, c4) by {
      BlankLine(cfg, buf, n, e1, c3);
    }
    var done := Cursor(c4.m.(phase := End, index := 0, lastBoundary := true,
                             parsed := c4.m.parsed + |lead2|,
                             lookbehind := Absorbed(c4.m.lookbehind, cfg.boundary + [Hyphen, Hyphen, CR], 0)),
                       e1 + 2, c4.log + [OnHeadersComplete, OnPartData(lead2), OnPartDataEnd, OnBodyEnd]);
    assert Run(cfg, buf, n, e1 + 2, c4) == Next(done) by {
      assert buf[k2..n] == buf[k2..];
      PayloadThenTerminal(cfg, buf, n, e1 + 2, k2, n, c4, lead2, done);
    }
  }
}
