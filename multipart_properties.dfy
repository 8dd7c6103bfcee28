/** Properties of the parser specification in `MultipartSpec`: the grammar of the opening
    delimiter and of header lines, the boundary scan with its lookbehind replay, the chunk-end
    flush, and the bookkeeping of `parsed` and of the flags. */
module MultipartProperties {
  import opened MultipartSpec

  // ---------------------------------------------------------------------------------------
  // Running several bytes
  // ---------------------------------------------------------------------------------------

  /** Within one call, running up to `n1` and then on to `n2` is running up to `n2`. */
  lemma {:induction false} RunSplit(cfg: Config, buf: seq<char>, n1: nat, n2: nat, i: nat, cur: Cursor)
    requires |cfg.boundary| >= 1 && i <= n1 <= n2 <= |buf| && cur.mark <= i
    requires WellFormed(|cfg.boundary|, cur.m)
    ensures Run(cfg, buf, n1, i, cur).Halt? ==> Run(cfg, buf, n2, i, cur) == Run(cfg, buf, n1, i, cur)
    ensures Run(cfg, buf, n1, i, cur).Next? ==>
      Run(cfg, buf, n2, i, cur) == Run(cfg, buf, n2, n1, Run(cfg, buf, n1, i, cur).c)
    decreases n1 - i
  {
    if i < n1 {
      var r := Step(cfg, buf, i, cur);
      if r.Next? {
        RunStep(cfg, buf, n1, i, cur, i + 1, r.c);
        RunStep(cfg, buf, n2, i, cur, i + 1, r.c);
        RunSplit(cfg, buf, n1, n2, i + 1, r.c);
      } else {
        RunHalts(cfg, buf, n1, i, cur);
        RunHalts(cfg, buf, n2, i, cur);
      }
    }
  }

  /** In s_end every byte is ignored: no event, no change, and the run reaches its end. */
  lemma {:induction false} EndAbsorbs(cfg: Config, buf: seq<char>, n: nat, i: nat, cur: Cursor)
    requires |cfg.boundary| >= 1 && i <= n <= |buf| && cur.mark <= i
    requires WellFormed(|cfg.boundary|, cur.m) && cur.m.phase == End
    ensures Run(cfg, buf, n, i, cur) == Next(cur)
    decreases n - i
  {
    if i < n {
      EndAbsorbs(cfg, buf, n, i + 1, cur);
    }
  }

  /** A call that starts in s_end consumes the whole chunk and changes nothing. */
  lemma FeedAtEnd(cfg: Config, m: Machine, log: seq<Event>, buf: seq<char>)
    requires |cfg.boundary| >= 1 && WellFormed(|cfg.boundary|, m) && m.phase == End
    ensures Feed(cfg, m, log, buf) == Fed(m, log, |buf|)
  {
    EndAbsorbs(cfg, buf, |buf|, 0, Cursor(m, 0, log));
  }

  // ---------------------------------------------------------------------------------------
  // The opening delimiter
  // ---------------------------------------------------------------------------------------

  /** The bytes expected after the (unchecked) first byte: the rest of the boundary, CR, LF. */
  function OpeningTail(b: seq<char>): (t: seq<char>)
    requires |b| >= 1
    ensures |t| == |b| + 1 && t[|b| - 1] == CR && t[|b|] == LF
    ensures forall k :: 0 <= k < |b| - 1 ==> t[k] == b[k + 1]
  {
    b[1..] + [CR, LF]
  }

  /** After `k` bytes that agree with the opening delimiter, the parser is in s_start_boundary
      with `k - 1` bytes matched and no event. */
  lemma {:induction false} OpeningPrefix(cfg: Config, buf: seq<char>, n: nat, k: nat, cur: Cursor, at: Cursor)
    requires |cfg.boundary| >= 1 && 1 <= k <= |cfg.boundary| + 1 && k <= n <= |buf|
    requires cur.m.phase == Start && cur.mark == 0 && WellFormed(|cfg.boundary|, cur.m)
    requires forall t :: 1 <= t < k ==> buf[t] == OpeningTail(cfg.boundary)[t - 1]
    requires at == Cursor(cur.m.(phase := StartBoundary, index := k - 1), 0, cur.log)
    ensures Run(cfg, buf, n, 0, cur) == Run(cfg, buf, n, k, at)
    decreases k
  {
    if k > 1 {
      var k0 := k - 1;
      var before := Cursor(cur.m.(phase := StartBoundary, index := k0 - 1), 0, cur.log);
      OpeningPrefix(cfg, buf, n, k0, cur, before);
      assert Step(cfg, buf, k0, before) == Next(at);
      RunStep(cfg, buf, n, k0, before, k, at);
    } else {
      RunStep(cfg, buf, n, 0, cur, k, at);
    }
  }

  /** A chunk that begins with any byte, then the rest of the boundary, CR and LF, emits exactly
      one `on_part_data_begin` and enters s_header_field_start. */
  lemma OpeningAccepted(cfg: Config, buf: seq<char>, n: nat, cur: Cursor)
    requires |cfg.boundary| >= 1 && |cfg.boundary| + 2 <= n <= |buf|
    requires cur.m.phase == Start && cur.mark == 0 && WellFormed(|cfg.boundary|, cur.m)
    requires buf[1..|cfg.boundary| + 2] == OpeningTail(cfg.boundary)
    requires !cfg.aborts(cur.log + [OnPartDataBegin])
    ensures Run(cfg, buf, n, 0, cur)
         == Run(cfg, buf, n, |cfg.boundary| + 2,
                Cursor(cur.m.(phase := HeaderFieldStart, index := 0), 0, cur.log + [OnPartDataBegin]))
  {
    var L := |cfg.boundary|;
    var L1 := L + 1;
    forall t | 1 <= t < L1 ensures buf[t] == OpeningTail(cfg.boundary)[t - 1] {
      assert buf[1..L + 2][t - 1] == buf[t];
    }
    assert buf[L1] == buf[1..L + 2][L];
    var at := Cursor(cur.m.(phase := StartBoundary, index := L), 0, cur.log);
    OpeningPrefix(cfg, buf, n, L1, cur, at);
    var done := Cursor(cur.m.(phase := HeaderFieldStart, index := 0), 0, cur.log + [OnPartDataBegin]);
    OpeningLF(cfg, buf, L1, at, done);
    RunStep(cfg, buf, n, L1, at, L + 2, done);
  }

  /** The LF that ends the opening delimiter raises `on_part_data_begin`. */
  lemma OpeningLF(cfg: Config, buf: seq<char>, i: nat, at: Cursor, done: Cursor)
    requires Ready(cfg, buf, i, at) && at.m.phase == StartBoundary && at.m.index == |cfg.boundary|
    requires buf[i] == LF && !cfg.aborts(at.log + [OnPartDataBegin])
    requires done == Cursor(at.m.(phase := HeaderFieldStart, index := 0), at.mark, at.log + [OnPartDataBegin])
    ensures Step(cfg, buf, i, at) == Next(done)
  {
    assert Step(cfg, buf, i, at) == StartBoundaryByte(cfg, buf, i, at);
  }

  /** If byte `k` is the first that departs from the opening delimiter, `execute` returns `k`
      without any callback, and the parser stays in s_start_boundary. */
  lemma OpeningRejected(cfg: Config, buf: seq<char>, n: nat, k: nat, cur: Cursor)
    requires |cfg.boundary| >= 1 && 1 <= k <= |cfg.boundary| + 1 && k < n <= |buf|
    requires cur.m.phase == Start && cur.mark == 0 && WellFormed(|cfg.boundary|, cur.m)
    requires forall t :: 1 <= t < k ==> buf[t] == OpeningTail(cfg.boundary)[t - 1]
    requires buf[k] != OpeningTail(cfg.boundary)[k - 1]
    ensures Run(cfg, buf, n, 0, cur)
         == Halt(Cursor(cur.m.(phase := StartBoundary, index := k - 1), 0, cur.log), k)
  {
    OpeningPrefix(cfg, buf, n, k, cur, Cursor(cur.m.(phase := StartBoundary, index := k - 1), 0, cur.log));
  }

  /** The same at the level of one `execute` call on a fresh parser: a malformed start returns
      the offset of the first wrong byte, less than the chunk length, and makes no callback. */
  lemma MalformedStart(cfg: Config, junk: seq<char>, log: seq<Event>, buf: seq<char>, k: nat)
    requires |cfg.boundary| >= 1 && |junk| == |cfg.boundary| + 8
    requires 1 <= k <= |cfg.boundary| + 1 && k < |buf|
    requires forall t :: 1 <= t < k ==> buf[t] == OpeningTail(cfg.boundary)[t - 1]
    requires buf[k] != OpeningTail(cfg.boundary)[k - 1]
    ensures Feed(cfg, Initial(|cfg.boundary|, junk), log, buf).consumed == k < |buf|
    ensures Feed(cfg, Initial(|cfg.boundary|, junk), log, buf).log == log
  {
    OpeningRejected(cfg, buf, |buf|, k, Cursor(Initial(|cfg.boundary|, junk), 0, log));
  }

  // ---------------------------------------------------------------------------------------
  // Header lines
  // ---------------------------------------------------------------------------------------

  /** The bytes s_header_field lets through without ending the name. */
  predicate IsNameByte(c: char) {
    IsAsciiLetter(c) || c == Hyphen
  }

  /** Name bytes that are not the chunk's last byte change nothing. */
  lemma {:induction false} NameScan(cfg: Config, buf: seq<char>, n: nat, s: nat, t: nat, cur: Cursor)
    requires |cfg.boundary| >= 1 && cur.mark <= s <= t <= n <= |buf| && t < |buf|
    requires cur.m.phase == HeaderField && WellFormed(|cfg.boundary|, cur.m)
    requires forall k :: s <= k < t ==> IsNameByte(buf[k])
    ensures Run(cfg, buf, n, s, cur) == Run(cfg, buf, n, t, cur)
    decreases t - s
  {
    if s < t {
      NameByte(cfg, buf, s, cur);
      var s1 := s + 1;
      RunStep(cfg, buf, n, s, cur, s1, cur);
      NameScan(cfg, buf, n, s1, t, cur);
    }
  }

  lemma NameByte(cfg: Config, buf: seq<char>, i: nat, cur: Cursor)
    requires Ready(cfg, buf, i, cur) && cur.m.phase == HeaderField
    requires i < |buf| - 1 && IsNameByte(buf[i])
    ensures Step(cfg, buf, i, cur) == Next(cur)
  {
    assert Step(cfg, buf, i, cur) == HeaderFieldByte(cfg, buf, i, cur);
  }

  /** A header line in s_header_field_start at `j`, with name bytes up to the first other byte
      at `k`: a `:` delivers exactly `buf[j..k)` (case and hyphens kept, colon dropped) and
      moves to s_header_value_start; a CR ends the header block without delivering anything;
      any other byte makes `execute` return `k` with no callback. */
  lemma HeaderLine(cfg: Config, buf: seq<char>, n: nat, j: nat, k: nat, cur: Cursor)
    requires |cfg.boundary| >= 1 && cur.mark <= j <= k < n <= |buf|
    requires cur.m.phase == HeaderFieldStart && WellFormed(|cfg.boundary|, cur.m)
    requires forall t :: j <= t < k ==> IsNameByte(buf[t])
    requires !IsNameByte(buf[k])
    ensures buf[k] == Colon && !cfg.aborts(cur.log + [OnHeaderField(buf[j..k])]) ==>
      Run(cfg, buf, n, j, cur)
        == Run(cfg, buf, n, k + 1,
               Cursor(cur.m.(phase := HeaderValueStart), j, cur.log + [OnHeaderField(buf[j..k])]))
    ensures buf[k] == CR ==>
      Run(cfg, buf, n, j, cur)
        == Run(cfg, buf, n, k + 1, Cursor(cur.m.(phase := HeadersAlmostDone), j, cur.log))
    ensures buf[k] != Colon && buf[k] != CR ==>
      Run(cfg, buf, n, j, cur) == Halt(Cursor(cur.m.(phase := HeaderField), j, cur.log), k)
  {
    var inField := Cursor(cur.m.(phase := HeaderField), j, cur.log);
    if j < k {
      assert Step(cfg, buf, j, cur) == Next(inField);
      var j1 := j + 1;
      RunStep(cfg, buf, n, j, cur, j1, inField);
      NameScan(cfg, buf, n, j1, k, inField);
      NameEnd(cfg, buf, n, k, inField);
    } else {
      assert Run(cfg, buf, n, j, cur) == Resume(cfg, buf, n, j, cur);
    }
  }

  /** The byte that ends a header name, once inside s_header_field. */
  lemma NameEnd(cfg: Config, buf: seq<char>, n: nat, k: nat, c: Cursor)
    requires |cfg.boundary| >= 1 && c.mark <= k < n <= |buf|
    requires c.m.phase == HeaderField && WellFormed(|cfg.boundary|, c.m)
    requires !IsNameByte(buf[k])
    ensures buf[k] == Colon && !cfg.aborts(c.log + [OnHeaderField(buf[c.mark..k])]) ==>
      Run(cfg, buf, n, k, c)
        == Run(cfg, buf, n, k + 1,
               Cursor(c.m.(phase := HeaderValueStart), c.mark, c.log + [OnHeaderField(buf[c.mark..k])]))
    ensures buf[k] == CR ==>
      Run(cfg, buf, n, k, c) == Run(cfg, buf, n, k + 1, Cursor(c.m.(phase := HeadersAlmostDone), c.mark, c.log))
    ensures buf[k] != Colon && buf[k] != CR ==> Run(cfg, buf, n, k, c) == Halt(c, k)
  {
    assert Run(cfg, buf, n, k, c) == Resume(cfg, buf, n, k, c);
  }

  /** Leading spaces in s_header_value_start change nothing. */
  lemma {:induction false} SpaceScan(cfg: Config, buf: seq<char>, n: nat, s: nat, t: nat, cur: Cursor)
    requires |cfg.boundary| >= 1 && cur.mark <= s <= t <= n <= |buf|
    requires cur.m.phase == HeaderValueStart && WellFormed(|cfg.boundary|, cur.m)
    requires forall k :: s <= k < t ==> buf[k] == Space
    ensures Run(cfg, buf, n, s, cur) == Run(cfg, buf, n, t, cur)
    decreases t - s
  {
    if s < t {
      assert Step(cfg, buf, s, cur) == Next(cur);
      var s1 := s + 1;
      RunStep(cfg, buf, n, s, cur, s1, cur);
      SpaceScan(cfg, buf, n, s1, t, cur);
    }
  }

  /** Value bytes other than CR that are not the chunk's last byte change nothing. */
  lemma {:induction false} ValueScan(cfg: Config, buf: seq<char>, n: nat, s: nat, t: nat, cur: Cursor)
    requires |cfg.boundary| >= 1 && cur.mark <= s <= t <= n <= |buf| && t < |buf|
    requires cur.m.phase == HeaderValue && WellFormed(|cfg.boundary|, cur.m)
    requires forall k :: s <= k < t ==> buf[k] != CR
    ensures Run(cfg, buf, n, s, cur) == Run(cfg, buf, n, t, cur)
    decreases t - s
  {
    if s < t {
      ValueByte(cfg, buf, s, cur);
      var s1 := s + 1;
      RunStep(cfg, buf, n, s, cur, s1, cur);
      ValueScan(cfg, buf, n, s1, t, cur);
    }
  }

  lemma ValueByte(cfg: Config, buf: seq<char>, i: nat, cur: Cursor)
    requires Ready(cfg, buf, i, cur) && cur.m.phase == HeaderValue
    requires i < |buf| - 1 && buf[i] != CR
    ensures Step(cfg, buf, i, cur) == Next(cur)
  {
    assert Step(cfg, buf, i, cur) == HeaderValueByte(cfg, buf, i, cur);
  }

  /** A header value in s_header_value_start at `j`: spaces up to `s`, then bytes up to the
      CR at `k`, which is not the chunk's last byte.  Exactly `buf[s..k)` is delivered (spaces
      after the first other byte are kept), then LF returns to s_header_field_start and any
      other byte makes `execute` return `k + 1`. */
  lemma HeaderValueLine(cfg: Config, buf: seq<char>, n: nat, j: nat, s: nat, k: nat, cur: Cursor)
    requires |cfg.boundary| >= 1 && cur.mark <= j <= s <= k && k + 2 <= n <= |buf|
    requires cur.m.phase == HeaderValueStart && WellFormed(|cfg.boundary|, cur.m)
    requires forall t :: j <= t < s ==> buf[t] == Space
    requires buf[s] != Space
    requires forall t :: s <= t < k ==> buf[t] != CR
    requires buf[k] == CR
    requires !cfg.aborts(cur.log + [OnHeaderValue(buf[s..k])])
    ensures buf[k + 1] == LF ==>
      Run(cfg, buf, n, j, cur)
        == Run(cfg, buf, n, k + 2,
               Cursor(cur.m.(phase := HeaderFieldStart), s, cur.log + [OnHeaderValue(buf[s..k])]))
    ensures buf[k + 1] != LF ==>
      Run(cfg, buf, n, j, cur)
        == Halt(Cursor(cur.m.(phase := HeaderValueAlmostDone), s, cur.log + [OnHeaderValue(buf[s..k])]), k + 1)
  {
    SpaceScan(cfg, buf, n, j, s, cur);
    ValueToCR(cfg, buf, n, s, k, cur);
    var done := Cursor(cur.m.(phase := HeaderValueAlmostDone), s, cur.log + [OnHeaderValue(buf[s..k])]);
    if buf[k + 1] == LF {
      assert Step(cfg, buf, k + 1, done) == Next(done.(m := done.m.(phase := HeaderFieldStart)));
    } else {
      assert Step(cfg, buf, k + 1, done) == Halt(done, k + 1);
    }
  }

  /** From the first byte of a header value to just past its CR. */
  lemma ValueToCR(cfg: Config, buf: seq<char>, n: nat, s: nat, k: nat, cur: Cursor)
    requires |cfg.boundary| >= 1 && cur.mark <= s <= k && k + 2 <= n <= |buf|
    requires cur.m.phase == HeaderValueStart && WellFormed(|cfg.boundary|, cur.m)
    requires buf[s] != Space
    requires forall t :: s <= t < k ==> buf[t] != CR
    requires buf[k] == CR
    requires !cfg.aborts(cur.log + [OnHeaderValue(buf[s..k])])
    ensures Run(cfg, buf, n, s, cur)
         == Run(cfg, buf, n, k + 1, Cursor(cur.m.(phase := HeaderValueAlmostDone), s, cur.log + [OnHeaderValue(buf[s..k])]))
  {
    var inValue := Cursor(cur.m.(phase := HeaderValue), s, cur.log);
    var done := Cursor(cur.m.(phase := HeaderValueAlmostDone), s, cur.log + [OnHeaderValue(buf[s..k])]);
    var k1 := k + 1;
    ValueEnd(cfg, buf, s, k, inValue, done);
    if s < k {
      assert Step(cfg, buf, s, cur) == HeaderValueByte(cfg, buf, s, inValue);
      ValueByte(cfg, buf, s, inValue);
      var s1 := s + 1;
      RunStep(cfg, buf, n, s, cur, s1, inValue);
      ValueScan(cfg, buf, n, s1, k, inValue);
      RunStep(cfg, buf, n, k, inValue, k1, done);
    } else {
      assert Step(cfg, buf, s, cur) == HeaderValueByte(cfg, buf, s, inValue);
      RunStep(cfg, buf, n, k, cur, k1, done);
    }
  }

  /** The CR that ends a header value delivers it. */
  lemma ValueEnd(cfg: Config, buf: seq<char>, s: nat, k: nat, inValue: Cursor, done: Cursor)
    requires Ready(cfg, buf, k, inValue) && inValue.m.phase == HeaderValue
    requires s == inValue.mark && s <= k && k < |buf| - 1 && buf[k] == CR
    requires !cfg.aborts(inValue.log + [OnHeaderValue(buf[s..k])])
    requires done == Cursor(inValue.m.(phase := HeaderValueAlmostDone), s, inValue.log + [OnHeaderValue(buf[s..k])])
    ensures HeaderValueByte(cfg, buf, k, inValue) == Next(done)
    ensures Step(cfg, buf, k, inValue) == Next(done)
  {
  }

  /** A blank line (CR LF in s_header_field_start) ends the headers without any callback:
      `on_headers_complete` is not raised on the LF. */
  lemma BlankLine(cfg: Config, buf: seq<char>, n: nat, j: nat, cur: Cursor)
    requires |cfg.boundary| >= 1 && cur.mark <= j && j + 2 <= n <= |buf|
    requires cur.m.phase == HeaderFieldStart && WellFormed(|cfg.boundary|, cur.m)
    requires buf[j] == CR
    ensures buf[j + 1] == LF ==>
      Run(cfg, buf, n, j, cur) == Run(cfg, buf, n, j + 2, Cursor(cur.m.(phase := PartDataStart), j, cur.log))
    ensures buf[j + 1] != LF ==>
      Run(cfg, buf, n, j, cur) == Halt(Cursor(cur.m.(phase := HeadersAlmostDone), j, cur.log), j + 1)
  {
    var almost := Cursor(cur.m.(phase := HeadersAlmostDone), j, cur.log);
    assert Step(cfg, buf, j, cur) == Next(almost);
    var j1 := j + 1;
    RunStep(cfg, buf, n, j, cur, j1, almost);
    if buf[j1] == LF {
      var payload := Cursor(cur.m.(phase := PartDataStart), j, cur.log);
      assert Step(cfg, buf, j1, almost) == Next(payload);
      RunStep(cfg, buf, n, j1, almost, j + 2, payload);
    } else {
      assert Step(cfg, buf, j1, almost) == Halt(almost, j1);
      RunHalts(cfg, buf, n, j1, almost);
    }
  }

  /** `on_headers_complete` is raised when the first payload byte is processed, before any
      part data; that byte is then handled as part data with the data mark on it. */
  lemma HeadersCompleteOnFirstPayloadByte(cfg: Config, buf: seq<char>, i: nat, cur: Cursor)
    requires Ready(cfg, buf, i, cur) && cur.m.phase == PartDataStart
    ensures var r := Step(cfg, buf, i, cur);
      |r.c.log| > |cur.log| && r.c.log[|cur.log|] == OnHeadersComplete
    ensures cfg.aborts(cur.log + [OnHeadersComplete]) ==>
      Step(cfg, buf, i, cur) == Halt(cur.(log := cur.log + [OnHeadersComplete]), i)
    ensures !cfg.aborts(cur.log + [OnHeadersComplete]) ==>
      Step(cfg, buf, i, cur)
        == PartDataByte(cfg, buf, i, Cursor(cur.m.(phase := PartData), i, cur.log + [OnHeadersComplete]))
  {
    var r := Step(cfg, buf, i, cur);
    assert cur.log + [OnHeadersComplete] <= r.c.log;
  }

  // ---------------------------------------------------------------------------------------
  // The boundary scan in s_part_data, one byte at a time
  // ---------------------------------------------------------------------------------------

  /** The data delivered when byte `i` starts a candidate boundary: from the mark up to that
      byte, less the trimmed CR LF. */
  function Leading(buf: seq<char>, i: nat, mark: nat): (d: seq<char>)
    requires mark <= i < |buf|
    ensures d == buf[mark..i] || (|d| + 2 == i - mark && d == buf[mark..i - 2] && buf[i - 2..i] == [CR, LF])
  {
    buf[mark..i - Adjustment(buf, i, mark)]
  }

  /** Byte `c` carries an in-flight match one byte further. */
  predicate Extends(b: seq<char>, m: Machine, c: char) {
    var L := |b|;
    var p := m.index;
    (p < L && b[p] == c) ||
    (p == L && (c == CR || c == Hyphen)) ||
    (p == L + 1 && !m.partBoundary && m.lastBoundary && c == Hyphen) ||
    (p == L + 2 && c == CR)
  }

  /** Byte `c` confirms a delimiter: the LF of a part boundary or of the terminal one. */
  predicate Confirms(b: seq<char>, m: Machine, c: char) {
    c == LF && ((m.index == |b| + 1 && m.partBoundary) || m.index == |b| + 3)
  }

  /** What the lookbehind holds while in s_part_data: the matched boundary prefix, then CR or
      `-` after the full boundary, then `-`, then CR. */
  predicate Held(b: seq<char>, m: Machine)
    requires WellFormed(|b|, m)
  {
    m.phase == PartData ==>
      (forall k :: 0 <= k < m.index && k < |b| ==> m.lookbehind[k] == b[k]) &&
      (m.index > |b| ==> m.lookbehind[|b|] == CR || m.lookbehind[|b|] == Hyphen) &&
      (m.index > |b| + 1 ==> m.lookbehind[|b| + 1] == Hyphen) &&
      (m.index > |b| + 2 ==> m.lookbehind[|b| + 2] == CR)
  }

  /** A byte that starts a candidate boundary delivers the data before it (even at the
      chunk's end), is held in lookbehind[0], and sets the counter to 1. */
  lemma CandidateStart(cfg: Config, buf: seq<char>, i: nat, cur: Cursor)
    requires Ready(cfg, buf, i, cur) && cur.m.phase == PartData && cur.m.index == 0
    requires buf[i] == cfg.boundary[0]
    ensures var lead := Leading(buf, i, cur.mark);
      var c1 := Cursor(cur.m.(parsed := cur.m.parsed + |lead|), cur.mark, cur.log + [OnPartData(lead)]);
      Step(cfg, buf, i, cur)
        == if cfg.aborts(c1.log) then Halt(c1, i - Adjustment(buf, i, cur.mark))
           else Next(c1.(m := c1.m.(index := 1, lookbehind := cur.m.lookbehind[0 := buf[i]])))
  {
    StepInPartData(cfg, buf, i, cur);
    PartDataCandidate(cfg, buf, i, cur);
    var lead := Leading(buf, i, cur.mark);
    var c1 := Cursor(cur.m.(parsed := cur.m.parsed + |lead|), cur.mark, cur.log + [OnPartData(lead)]);
    if !cfg.aborts(c1.log) {
      SettleEffect(cfg, buf, i, c1.(m := c1.m.(index := 1)), 0);
    }
  }

  /** A byte that extends an in-flight match delivers nothing and is stored at
      `lookbehind[index]` (at most position `|boundary| + 2`). */
  lemma TentativeByte(cfg: Config, buf: seq<char>, i: nat, cur: Cursor)
    requires Ready(cfg, buf, i, cur) && cur.m.phase == PartData && cur.m.index > 0
    requires Extends(cfg.boundary, cur.m, buf[i])
    ensures cur.m.index <= |cfg.boundary| + 2
    ensures var L := |cfg.boundary|; var p := cur.m.index; var c := buf[i];
      Step(cfg, buf, i, cur)
        == Next(Cursor(cur.m.(index := p + 1, lookbehind := cur.m.lookbehind[p := c],
                              partBoundary := cur.m.partBoundary || (p == L && c == CR),
                              lastBoundary := cur.m.lastBoundary || (p == L && c == Hyphen)),
                       cur.mark, cur.log))
  {
  }

  /** A byte that neither extends nor confirms an in-flight match of `p` bytes un-commits it:
      exactly the `p` held bytes are delivered as one chunk, `parsed` grows by `p`, and the
      data mark restarts at this byte, which is not compared with `boundary[0]` again.  At the
      chunk's last byte that byte is then flushed on its own. */
  lemma MismatchReplay(cfg: Config, buf: seq<char>, i: nat, cur: Cursor)
    requires Ready(cfg, buf, i, cur) && cur.m.phase == PartData && cur.m.index > 0
    requires !Extends(cfg.boundary, cur.m, buf[i]) && !Confirms(cfg.boundary, cur.m, buf[i])
    ensures var p := cur.m.index;
      var replay := cur.log + [OnPartData(cur.m.lookbehind[..p])];
      var after := cur.m.(index := 0, parsed := cur.m.parsed + p);
      (i < |buf| - 1 ==> Step(cfg, buf, i, cur) == Next(Cursor(after, i, replay))) &&
      (i == |buf| - 1 ==>
        Step(cfg, buf, i, cur).c
          == Cursor(after.(parsed := after.parsed + 1), i, replay + [OnPartData([buf[i]])]) &&
        (Step(cfg, buf, i, cur).Halt? ==> Step(cfg, buf, i, cur).ret == |buf|))
    ensures Held(cfg.boundary, cur.m) && cur.m.index <= |cfg.boundary| ==>
      cur.m.lookbehind[..cur.m.index] == cfg.boundary[..cur.m.index]
  {
    StepInPartData(cfg, buf, i, cur);
    PartDataSettles(cfg, buf, i, cur);
    if i == |buf| - 1 {
      assert buf[i..] == [buf[i]];
    }
  }

  /** A complete boundary, CR, then LF: the part flag is cleared, `on_part_data_end` then
      `on_part_data_begin` are raised, the state becomes s_header_field_start, and the held
      boundary and CR are never delivered as data. */
  lemma PartBoundaryConfirmed(cfg: Config, buf: seq<char>, i: nat, cur: Cursor)
    requires Ready(cfg, buf, i, cur) && cur.m.phase == PartData
    requires cur.m.index == |cfg.boundary| + 1 && cur.m.partBoundary && buf[i] == LF
    requires !cfg.aborts(cur.log + [OnPartDataEnd])
    requires !cfg.aborts(cur.log + [OnPartDataEnd, OnPartDataBegin])
    ensures Step(cfg, buf, i, cur)
         == Next(Cursor(cur.m.(phase := HeaderFieldStart, index := 0, partBoundary := false),
                        cur.mark, cur.log + [OnPartDataEnd, OnPartDataBegin]))
  {
    assert cur.log + [OnPartDataEnd] + [OnPartDataBegin] == cur.log + [OnPartDataEnd, OnPartDataBegin];
  }

  /** A complete boundary, `--`, CR, then LF: `on_part_data_end` then `on_body_end` are raised
      and the state becomes s_end, again without delivering the held bytes. */
  lemma TerminalBoundaryConfirmed(cfg: Config, buf: seq<char>, i: nat, cur: Cursor)
    requires Ready(cfg, buf, i, cur) && cur.m.phase == PartData
    requires cur.m.index == |cfg.boundary| + 3 && buf[i] == LF
    requires !cfg.aborts(cur.log + [OnPartDataEnd])
    requires !cfg.aborts(cur.log + [OnPartDataEnd, OnBodyEnd])
    ensures Step(cfg, buf, i, cur)
         == Next(Cursor(cur.m.(phase := End, index := 0), cur.mark, cur.log + [OnPartDataEnd, OnBodyEnd]))
  {
    assert cur.log + [OnPartDataEnd] + [OnBodyEnd] == cur.log + [OnPartDataEnd, OnBodyEnd];
  }

  /** The machine after a byte in s_part_data that confirms no delimiter: the counter moves
      on when the byte extends the match and drops to 0 otherwise; after a complete boundary CR
      sets the part flag and `-` the last flag. */
  function Advanced(b: seq<char>, m: Machine, c: char): Machine {
    m.(index := if Extends(b, m, c) then m.index + 1 else 0,
       partBoundary := m.partBoundary || (m.index == |b| && c == CR),
       lastBoundary := m.lastBoundary || (m.index == |b| && c == Hyphen))
  }

  /** In s_part_data, `Step` is the byte handler of that state. */
  lemma StepInPartData(cfg: Config, buf: seq<char>, i: nat, cur: Cursor)
    requires Ready(cfg, buf, i, cur) && cur.m.phase == PartData
    ensures Step(cfg, buf, i, cur) == PartDataByte(cfg, buf, i, cur)
  {
  }

  /** Below a complete boundary, a byte that does not start a candidate ends in `Settle` with
      the advanced machine. */
  lemma BoundaryByteSettles(cfg: Config, buf: seq<char>, i: nat, cur: Cursor)
    requires Ready(cfg, buf, i, cur) && cur.m.phase == PartData && cur.m.index < |cfg.boundary|
    requires cur.m.index > 0 || buf[i] != cfg.boundary[0]
    ensures PartDataByte(cfg, buf, i, cur)
         == Settle(cfg, buf, i, cur.(m := Advanced(cfg.boundary, cur.m, buf[i])), cur.m.index)
  {
    assert PartDataByte(cfg, buf, i, cur) == BoundaryByte(cfg, buf, i, cur);
  }

  /** From a complete boundary on, a byte that confirms no delimiter ends in `Settle` with the
      advanced machine. */
  lemma DelimiterByteSettles(cfg: Config, buf: seq<char>, i: nat, cur: Cursor)
    requires Ready(cfg, buf, i, cur) && cur.m.phase == PartData && cur.m.index >= |cfg.boundary|
    requires !Confirms(cfg.boundary, cur.m, buf[i])
    ensures PartDataByte(cfg, buf, i, cur)
         == Settle(cfg, buf, i, cur.(m := Advanced(cfg.boundary, cur.m, buf[i])), cur.m.index)
  {
    assert PartDataByte(cfg, buf, i, cur) == DelimiterByte(cfg, buf, i, cur);
  }

  /** Every byte in s_part_data that neither starts a candidate nor confirms a delimiter ends
      in `Settle` with the advanced machine. */
  lemma PartDataSettles(cfg: Config, buf: seq<char>, i: nat, cur: Cursor)
    requires Ready(cfg, buf, i, cur) && cur.m.phase == PartData
    requires !Confirms(cfg.boundary, cur.m, buf[i]) && (cur.m.index > 0 || buf[i] != cfg.boundary[0])
    ensures PartDataByte(cfg, buf, i, cur)
         == Settle(cfg, buf, i, cur.(m := Advanced(cfg.boundary, cur.m, buf[i])), cur.m.index)
  {
    if cur.m.index < |cfg.boundary| {
      BoundaryByteSettles(cfg, buf, i, cur);
    } else {
      DelimiterByteSettles(cfg, buf, i, cur);
    }
  }

  /** A byte that starts a candidate emits the leading data, then settles with counter 1. */
  lemma PartDataCandidate(cfg: Config, buf: seq<char>, i: nat, cur: Cursor)
    requires Ready(cfg, buf, i, cur) && cur.m.phase == PartData
    requires cur.m.index == 0 && buf[i] == cfg.boundary[0]
    ensures var lead := Leading(buf, i, cur.mark);
      var e := Emit(cfg, cur.(m := cur.m.(parsed := cur.m.parsed + |lead|)), OnPartData(lead), i - Adjustment(buf, i, cur.mark));
      PartDataByte(cfg, buf, i, cur)
        == if e.Halt? then e else Settle(cfg, buf, i, e.c.(m := e.c.m.(index := 1)), 0)
  {
    assert PartDataByte(cfg, buf, i, cur) == BoundaryByte(cfg, buf, i, cur);
  }

  /** A byte that confirms a delimiter drops the counter (and, for a part boundary, the part
      flag) before the callbacks. */
  lemma PartDataConfirmed(cfg: Config, buf: seq<char>, i: nat, cur: Cursor)
    requires Ready(cfg, buf, i, cur) && cur.m.phase == PartData
    requires Confirms(cfg.boundary, cur.m, buf[i])
    ensures var part := cur.m.index == |cfg.boundary| + 1;
      PartDataByte(cfg, buf, i, cur)
        == Delimited(cfg, buf, i, cur.(m := cur.m.(index := 0, partBoundary := cur.m.partBoundary && !part)),
                     if part then OnPartDataBegin else OnBodyEnd, if part then HeaderFieldStart else End)
  {
    assert PartDataByte(cfg, buf, i, cur) == DelimiterByte(cfg, buf, i, cur);
  }

  /** What `Settle` does to the counter, the flags, the lookbehind and the chunk-end flush. */
  lemma SettleEffect(cfg: Config, buf: seq<char>, i: nat, cur: Cursor, prev: nat)
    requires |cfg.boundary| >= 1 && i < |buf| && cur.mark <= i
    requires cur.m.phase == PartData && |cur.m.lookbehind| == |cfg.boundary| + 8
    requires cur.m.index <= |cfg.boundary| + 3 && prev <= |cfg.boundary| + 3
    ensures var r := Settle(cfg, buf, i, cur, prev);
      r.c.m.index == cur.m.index && r.c.m.partBoundary == cur.m.partBoundary &&
      r.c.m.lastBoundary == cur.m.lastBoundary &&
      (cur.m.index > 0 ==> r == Next(cur.(m := cur.m.(lookbehind := cur.m.lookbehind[cur.m.index - 1 := buf[i]])))) &&
      (cur.m.index == 0 ==>
        r.c.m.lookbehind == cur.m.lookbehind &&
        r.c.mark == (if prev > 0 then i else cur.mark) &&
        r.c.log == cur.log + (if prev > 0 then [OnPartData(cur.m.lookbehind[..prev])] else [])
                           + (if i == |buf| - 1 then [OnPartData(buf[r.c.mark..])] else []) &&
        r.c.m.parsed == cur.m.parsed + prev + (if i == |buf| - 1 then |buf| - r.c.mark else 0) &&
        (i < |buf| - 1 ==> r.Next?) &&
        (i == |buf| - 1 ==>
          r.c.mark <= i && |r.c.log| > |cur.log| && r.c.log[|r.c.log| - 1] == OnPartData(buf[r.c.mark..]) &&
          (r.Halt? ==> r.ret == |buf|)))
  {
    if cur.m.index == 0 {
      SettleDelivers(cfg, buf, i, cur, prev);
    }
  }

  /** With no match in flight after the byte, `Settle` replays the `prev` held bytes (and
      restarts the mark at this byte) when a match was in flight before, then at the chunk's
      last byte flushes the data from the mark to the end; `parsed` grows by exactly what is
      delivered. */
  lemma SettleDelivers(cfg: Config, buf: seq<char>, i: nat, cur: Cursor, prev: nat)
    requires |cfg.boundary| >= 1 && i < |buf| && cur.mark <= i
    requires cur.m.phase == PartData && |cur.m.lookbehind| == |cfg.boundary| + 8
    requires cur.m.index == 0 && prev <= |cfg.boundary| + 3
    ensures var r := Settle(cfg, buf, i, cur, prev);
      r.c.mark == (if prev > 0 then i else cur.mark) &&
      r.c.log == cur.log + (if prev > 0 then [OnPartData(cur.m.lookbehind[..prev])] else [])
                         + (if i == |buf| - 1 then [OnPartData(buf[r.c.mark..])] else []) &&
      r.c.m.parsed == cur.m.parsed + prev + (if i == |buf| - 1 then |buf| - r.c.mark else 0)
  {
    if prev > 0 {
      SettleReplays(cfg, buf, i, cur, prev);
    } else {
      SettleKeeps(cfg, buf, i, cur);
    }
  }

  /** `SettleDelivers` after a failed match: the held bytes, then the byte alone at the end. */
  lemma SettleReplays(cfg: Config, buf: seq<char>, i: nat, cur: Cursor, prev: nat)
    requires |cfg.boundary| >= 1 && i < |buf| && cur.mark <= i
    requires cur.m.phase == PartData && |cur.m.lookbehind| == |cfg.boundary| + 8
    requires cur.m.index == 0 && 0 < prev <= |cfg.boundary| + 3
    ensures var r := Settle(cfg, buf, i, cur, prev);
      r.c.mark == i &&
      r.c.log == cur.log + [OnPartData(cur.m.lookbehind[..prev])]
                         + (if i == |buf| - 1 then [OnPartData(buf[i..])] else []) &&
      r.c.m.parsed == cur.m.parsed + prev + (if i == |buf| - 1 then |buf| - i else 0)
  {
    var m := cur.m;
    var held := OnPartData(m.lookbehind[..prev]);
    var c1 := Cursor(m.(parsed := m.parsed + prev), i, cur.log + [held]);
    if i == |buf| - 1 {
      assert Settle(cfg, buf, i, cur, prev).c
        == c1.(m := c1.m.(parsed := c1.m.parsed + (|buf| - i)), log := c1.log + [OnPartData(buf[i..])]);
    } else {
      assert Settle(cfg, buf, i, cur, prev) == Next(c1);
      assert c1.log == cur.log + [held] + [];
    }
  }

  /** `SettleDelivers` with nothing held: the data from the incoming mark at the end. */
  lemma SettleKeeps(cfg: Config, buf: seq<char>, i: nat, cur: Cursor)
    requires |cfg.boundary| >= 1 && i < |buf| && cur.mark <= i
    requires cur.m.phase == PartData && |cur.m.lookbehind| == |cfg.boundary| + 8
    requires cur.m.index == 0
    ensures var r := Settle(cfg, buf, i, cur, 0);
      r.c.mark == cur.mark &&
      r.c.log == cur.log + (if i == |buf| - 1 then [OnPartData(buf[cur.mark..])] else []) &&
      r.c.m.parsed == cur.m.parsed + (if i == |buf| - 1 then |buf| - cur.mark else 0)
  {
    if i == |buf| - 1 {
      assert Settle(cfg, buf, i, cur, 0).c
        == cur.(m := cur.m.(parsed := cur.m.parsed + (|buf| - cur.mark)), log := cur.log + [OnPartData(buf[cur.mark..])]);
    } else {
      assert Settle(cfg, buf, i, cur, 0) == Next(cur);
      assert cur.log == cur.log + [];
    }
  }

  /** A confirmed delimiter leaves the counter and the flags alone and logs `on_part_data_end`
      and then, unless that aborted, `closing`; no held byte is delivered.  It either reaches
      the state `to` with both events logged, or returns the index of the LF. */
  lemma DelimitedEffect(cfg: Config, buf: seq<char>, i: nat, cur: Cursor, closing: Event, to: Phase)
    requires Ready(cfg, buf, i, cur) && cur.m.phase == PartData && cur.m.index == 0
    requires to == HeaderFieldStart || to == End
    requires !closing.OnPartData?
    ensures var r := Delimited(cfg, buf, i, cur, closing, to);
      r.c.m.index == 0 && r.c.m.partBoundary == cur.m.partBoundary &&
      r.c.m.lastBoundary == cur.m.lastBoundary &&
      (r.Next? ==> r.c.m.phase == to) && (r.Halt? ==> r.ret == i) &&
      (r.c.log == cur.log + [OnPartDataEnd] || r.c.log == cur.log + [OnPartDataEnd, closing]) &&
      (r.Next? ==> r.c.log == cur.log + [OnPartDataEnd, closing])
  {
    assert cur.log + [OnPartDataEnd] + [closing] == cur.log + [OnPartDataEnd, closing];
  }

  /** How one byte in s_part_data may change the machine `m` into `r`: the last flag is set by
      `-` right after a complete boundary, the part flag by CR there and cleared only by the LF
      that confirms a part boundary, and the lookbehind invariant is kept. */
  predicate FlagsAndHeld(b: seq<char>, m: Machine, c: char, r: Machine)
    requires WellFormed(|b|, m) && WellFormed(|b|, r)
  {
    var L := |b|;
    var p := m.index;
    r.lastBoundary == (m.lastBoundary || (p == L && c == Hyphen)) &&
    r.partBoundary
      == (if p == L + 1 && m.partBoundary && c == LF then false
          else m.partBoundary || (p == L && c == CR)) &&
    (Held(b, m) ==> Held(b, r))
  }

  /** s_part_data on a byte: the flags and the lookbehind invariant. */
  lemma PartDataByteEffect(cfg: Config, buf: seq<char>, i: nat, cur: Cursor)
    requires Ready(cfg, buf, i, cur) && cur.m.phase == PartData
    ensures FlagsAndHeld(cfg.boundary, cur.m, buf[i], PartDataByte(cfg, buf, i, cur).c.m)
  {
    var b := cfg.boundary;
    var c := buf[i];
    if Confirms(b, cur.m, c) {
      ConfirmedEffect(cfg, buf, i, cur);
    } else if cur.m.index == 0 && c == b[0] {
      CandidateEffect(cfg, buf, i, cur);
    } else {
      SettledEffect(cfg, buf, i, cur);
    }
  }

  lemma ConfirmedEffect(cfg: Config, buf: seq<char>, i: nat, cur: Cursor)
    requires Ready(cfg, buf, i, cur) && cur.m.phase == PartData
    requires Confirms(cfg.boundary, cur.m, buf[i])
    ensures FlagsAndHeld(cfg.boundary, cur.m, buf[i], PartDataByte(cfg, buf, i, cur).c.m)
  {
    PartDataConfirmed(cfg, buf, i, cur);
    var part := cur.m.index == |cfg.boundary| + 1;
    DelimitedEffect(cfg, buf, i, cur.(m := cur.m.(index := 0, partBoundary := cur.m.partBoundary && !part)),
                    if part then OnPartDataBegin else OnBodyEnd, if part then HeaderFieldStart else End);
  }

  lemma CandidateEffect(cfg: Config, buf: seq<char>, i: nat, cur: Cursor)
    requires Ready(cfg, buf, i, cur) && cur.m.phase == PartData
    requires cur.m.index == 0 && buf[i] == cfg.boundary[0]
    ensures FlagsAndHeld(cfg.boundary, cur.m, buf[i], PartDataByte(cfg, buf, i, cur).c.m)
  {
    PartDataCandidate(cfg, buf, i, cur);
    var lead := Leading(buf, i, cur.mark);
    var e := Emit(cfg, cur.(m := cur.m.(parsed := cur.m.parsed + |lead|)), OnPartData(lead), i - Adjustment(buf, i, cur.mark));
    if e.Next? {
      SettleEffect(cfg, buf, i, e.c.(m := e.c.m.(index := 1)), 0);
    }
  }

  lemma SettledEffect(cfg: Config, buf: seq<char>, i: nat, cur: Cursor)
    requires Ready(cfg, buf, i, cur) && cur.m.phase == PartData
    requires !Confirms(cfg.boundary, cur.m, buf[i])
    requires cur.m.index > 0 || buf[i] != cfg.boundary[0]
    ensures FlagsAndHeld(cfg.boundary, cur.m, buf[i], PartDataByte(cfg, buf, i, cur).c.m)
  {
    PartDataSettles(cfg, buf, i, cur);
    SettleEffect(cfg, buf, i, cur.(m := Advanced(cfg.boundary, cur.m, buf[i])), cur.m.index);
  }

  /** What the chunk's last byte does in s_part_data, given the outcome `r` of its step.
      A byte that neither starts a candidate nor confirms a delimiter, and leaves no match in
      flight, ends with the data from the mark to the end of the chunk, that byte included, as
      the last chunk delivered; if that callback aborts, `execute` returns the chunk length.
      When a match is in flight after the byte, the step does not return and nothing but the
      data before a candidate starting at this byte is delivered: the matched bytes wait in
      lookbehind for the next call.  A candidate whose data callback aborts, and a confirmed
      delimiter whose callback aborts, return the offset of the byte itself. */
  predicate FlushedAtEnd(cfg: Config, buf: seq<char>, cur: Cursor, r: Outcome)
    requires |cfg.boundary| >= 1 && |buf| >= 1 && cur.mark <= |buf| - 1
    requires cur.m.index <= |cur.m.lookbehind|
  {
    var i := |buf| - 1;
    var candidate := cur.m.index == 0 && buf[i] == cfg.boundary[0];
    var confirmed := Confirms(cfg.boundary, cur.m, buf[i]);
    (!confirmed && !candidate && r.c.m.index == 0 ==>
      r.c.m.phase == PartData && r.c.mark <= i && |r.c.log| > |cur.log| &&
      r.c.log[|r.c.log| - 1] == OnPartData(buf[r.c.mark..]) && (r.Halt? ==> r.ret == |buf|) &&
      r.c.mark == (if cur.m.index > 0 then i else cur.mark) &&
      r.c.log == cur.log + (if cur.m.index > 0 then [OnPartData(cur.m.lookbehind[..cur.m.index])] else [])
                         + [OnPartData(buf[r.c.mark..])] &&
      r.c.m.parsed == cur.m.parsed + cur.m.index + (|buf| - r.c.mark)) &&
    (r.c.m.index > 0 ==>
      r.Next? && (r.c.log == cur.log || (cur.m.index == 0 && r.c.log == cur.log + [OnPartData(buf[cur.mark..i])]))) &&
    ((candidate || confirmed) && r.Halt? ==> r.ret == i) &&
    (confirmed && r.Next? ==> r.c.m.phase != PartData)
  }

  /** The chunk-end flush of s_part_data. */
  lemma ChunkEndFlush(cfg: Config, buf: seq<char>, cur: Cursor)
    requires |buf| >= 1 && Ready(cfg, buf, |buf| - 1, cur) && cur.m.phase == PartData
    ensures FlushedAtEnd(cfg, buf, cur, Step(cfg, buf, |buf| - 1, cur))
  {
    var c := buf[|buf| - 1];
    if Confirms(cfg.boundary, cur.m, c) {
      StepInPartData(cfg, buf, |buf| - 1, cur);
      ChunkEndConfirmed(cfg, buf, cur);
    } else if cur.m.index == 0 && c == cfg.boundary[0] {
      ChunkEndCandidate(cfg, buf, cur);
    } else {
      StepInPartData(cfg, buf, |buf| - 1, cur);
      ChunkEndSettled(cfg, buf, cur);
    }
  }

  lemma ChunkEndConfirmed(cfg: Config, buf: seq<char>, cur: Cursor)
    requires |buf| >= 1 && Ready(cfg, buf, |buf| - 1, cur) && cur.m.phase == PartData
    requires Confirms(cfg.boundary, cur.m, buf[|buf| - 1])
    ensures FlushedAtEnd(cfg, buf, cur, PartDataByte(cfg, buf, |buf| - 1, cur))
  {
    var i := |buf| - 1;
    var part := cur.m.index == |cfg.boundary| + 1;
    var into := cur.(m := cur.m.(index := 0, partBoundary := cur.m.partBoundary && !part));
    var closing := if part then OnPartDataBegin else OnBodyEnd;
    var to := if part then HeaderFieldStart else End;
    PartDataConfirmed(cfg, buf, i, cur);
    DelimitedEffect(cfg, buf, i, into, closing, to);
    FlushedWhenConfirmed(cfg, buf, cur, Delimited(cfg, buf, i, into, closing, to));
  }

  /** A confirming last byte satisfies `FlushedAtEnd` as soon as it drops the counter, returns
      its own offset on an abort and leaves s_part_data otherwise. */
  lemma FlushedWhenConfirmed(cfg: Config, buf: seq<char>, cur: Cursor, r: Outcome)
    requires |cfg.boundary| >= 1 && |buf| >= 1 && cur.mark <= |buf| - 1
    requires cur.m.index <= |cur.m.lookbehind|
    requires Confirms(cfg.boundary, cur.m, buf[|buf| - 1])
    requires r.c.m.index == 0 && (r.Halt? ==> r.ret == |buf| - 1) && (r.Next? ==> r.c.m.phase != PartData)
    ensures FlushedAtEnd(cfg, buf, cur, r)
  {
  }

  lemma ChunkEndCandidate(cfg: Config, buf: seq<char>, cur: Cursor)
    requires |buf| >= 1 && Ready(cfg, buf, |buf| - 1, cur) && cur.m.phase == PartData
    requires cur.m.index == 0 && buf[|buf| - 1] == cfg.boundary[0]
    ensures FlushedAtEnd(cfg, buf, cur, Step(cfg, buf, |buf| - 1, cur))
  {
    var i := |buf| - 1;
    CandidateStart(cfg, buf, i, cur);
    assert Adjustment(buf, i, cur.mark) == 0;
  }

  lemma ChunkEndSettled(cfg: Config, buf: seq<char>, cur: Cursor)
    requires |buf| >= 1 && Ready(cfg, buf, |buf| - 1, cur) && cur.m.phase == PartData
    requires !Confirms(cfg.boundary, cur.m, buf[|buf| - 1])
    requires cur.m.index > 0 || buf[|buf| - 1] != cfg.boundary[0]
    ensures FlushedAtEnd(cfg, buf, cur, PartDataByte(cfg, buf, |buf| - 1, cur))
  {
    var i := |buf| - 1;
    PartDataSettles(cfg, buf, i, cur);
    SettleEffect(cfg, buf, i, cur.(m := Advanced(cfg.boundary, cur.m, buf[i])), cur.m.index);
  }

  /** Every step keeps the lookbehind holding exactly the bytes of the match in flight. */
  lemma StepKeepsHeld(cfg: Config, buf: seq<char>, i: nat, cur: Cursor)
    requires Ready(cfg, buf, i, cur) && Held(cfg.boundary, cur.m)
    ensures Held(cfg.boundary, Step(cfg, buf, i, cur).c.m)
  {
    if cur.m.phase == PartData {
      StepInPartData(cfg, buf, i, cur);
      PartDataByteEffect(cfg, buf, i, cur);
    } else if cur.m.phase == PartDataStart {
      HeadersCompleteOnFirstPayloadByte(cfg, buf, i, cur);
      var e := Emit(cfg, cur, OnHeadersComplete, i);
      if e.Next? {
        PartDataByteEffect(cfg, buf, i, Cursor(e.c.m.(phase := PartData), i, e.c.log));
      }
    } else {
      StepOutsideData(cfg, buf, i, cur);
    }
  }

  /** Running any stretch of a chunk keeps the lookbehind holding exactly the bytes of the
      match in flight. */
  lemma {:induction false} RunKeepsHeld(cfg: Config, buf: seq<char>, n: nat, i: nat, cur: Cursor)
    requires |cfg.boundary| >= 1 && i <= n <= |buf| && cur.mark <= i
    requires WellFormed(|cfg.boundary|, cur.m) && Held(cfg.boundary, cur.m)
    ensures Held(cfg.boundary, Run(cfg, buf, n, i, cur).c.m)
    decreases n - i
  {
    if i < n {
      StepKeepsHeld(cfg, buf, i, cur);
      var r := Step(cfg, buf, i, cur);
      assert Run(cfg, buf, n, i, cur) == Resume(cfg, buf, n, i, cur);
      if r.Next? {
        RunKeepsHeld(cfg, buf, n, i + 1, r.c);
      }
    }
  }

  /** Outside s_part_data and s_part_data_start no step reaches s_part_data. */
  lemma StepOutsideData(cfg: Config, buf: seq<char>, i: nat, cur: Cursor)
    requires Ready(cfg, buf, i, cur) && cur.m.phase != PartData && cur.m.phase != PartDataStart
    ensures Step(cfg, buf, i, cur).c.m.phase != PartData
  {
  }

  // ---------------------------------------------------------------------------------------
  // Delimiters across several bytes
  // ---------------------------------------------------------------------------------------

  /** The lookbehind after the bytes `s[p..]` of a delimiter were stored from position `p` on. */
  function Absorbed(lb: seq<char>, s: seq<char>, p: nat): (r: seq<char>)
    requires p <= |s| <= |lb|
    ensures |r| == |lb| && r[..p] == lb[..p] && r[p..|s|] == s[p..] && r[|s|..] == lb[|s|..]
  {
    lb[..p] + s[p..] + lb[|s|..]
  }

  lemma AbsorbedStep(lb: seq<char>, s: seq<char>, p: nat)
    requires p < |s| <= |lb|
    ensures Absorbed(lb[p := s[p]], s, p + 1) == Absorbed(lb, s, p)
  {
    var x := Absorbed(lb[p := s[p]], s, p + 1);
    var y := Absorbed(lb, s, p);
    forall k | 0 <= k < |lb| ensures x[k] == y[k] {
      if k < p {
        assert x[k] == x[..p + 1][k] && y[k] == y[..p][k];
      } else if k == p {
        assert x[k] == x[..p + 1][k] && y[k] == y[p..|s|][0];
      } else if k < |s| {
        assert x[k] == x[p + 1..|s|][k - p - 1] && y[k] == y[p..|s|][k - p];
      } else {
        assert x[k] == x[|s|..][k - |s|] && y[k] == y[|s|..][k - |s|];
      }
    }
  }

  lemma AbsorbedExtend(lb: seq<char>, s: seq<char>, p: nat, c: char)
    requires p <= |s| < |lb|
    ensures Absorbed(lb, s, p)[|s| := c] == Absorbed(lb, s + [c], p)
  {
    var x := Absorbed(lb, s, p)[|s| := c];
    var y := Absorbed(lb, s + [c], p);
    forall k | 0 <= k < |lb| ensures x[k] == y[k] {
      if k < p {
        assert x[k] == Absorbed(lb, s, p)[..p][k] && y[k] == y[..p][k];
      } else if k < |s| {
        assert x[k] == Absorbed(lb, s, p)[p..|s|][k - p] && y[k] == y[p..|s| + 1][k - p];
      } else if k == |s| {
        assert y[k] == y[p..|s| + 1][k - p];
      } else {
        assert x[k] == Absorbed(lb, s, p)[|s|..][k - |s|] && y[k] == y[|s| + 1..][k - |s| - 1];
      }
    }
  }

  // Positions and cursors that a chain of `Run` equalities passes on are lemma parameters
  // below, tied to their values by `requires`, so that each link meets the next one in the
  // same terms.

  /** One step that does not return moves `Run` one byte on. */
  lemma RunStep(cfg: Config, buf: seq<char>, n: nat, i: nat, cur: Cursor, i1: nat, next: Cursor)
    requires Ready(cfg, buf, i, cur) && i < n <= |buf| && i1 == i + 1
    requires Step(cfg, buf, i, cur) == Next(next)
    ensures Run(cfg, buf, n, i, cur) == Run(cfg, buf, n, i1, next)
  {
    assert Run(cfg, buf, n, i, cur) == Resume(cfg, buf, n, i, cur);
  }

  /** A step that returns ends `Run` with that return. */
  lemma RunHalts(cfg: Config, buf: seq<char>, n: nat, i: nat, cur: Cursor)
    requires Ready(cfg, buf, i, cur) && i < n <= |buf|
    requires Step(cfg, buf, i, cur).Halt?
    ensures Run(cfg, buf, n, i, cur) == Step(cfg, buf, i, cur)
  {
    assert Run(cfg, buf, n, i, cur) == Resume(cfg, buf, n, i, cur);
  }

  /** The rest of the boundary, from a match of `p >= 1` bytes on, is absorbed without any
      callback: the counter reaches `|boundary|` at `u` and the bytes are held in lookbehind. */
  lemma {:induction false} HoldBoundary(cfg: Config, buf: seq<char>, n: nat, t: nat, cur: Cursor, u: nat, held: Cursor)
    requires |cfg.boundary| >= 1 && cur.mark <= t && WellFormed(|cfg.boundary|, cur.m)
    requires cur.m.phase == PartData && 1 <= cur.m.index <= |cfg.boundary|
    requires u == t + (|cfg.boundary| - cur.m.index) && u <= n <= |buf|
    requires buf[t..u] == cfg.boundary[cur.m.index..]
    requires held == cur.(m := cur.m.(index := |cfg.boundary|, lookbehind := Absorbed(cur.m.lookbehind, cfg.boundary, cur.m.index)))
    ensures Run(cfg, buf, n, t, cur) == Run(cfg, buf, n, u, held)
    decreases |cfg.boundary| - cur.m.index
  {
    var b := cfg.boundary;
    var p := cur.m.index;
    if p < |b| {
      assert buf[t] == buf[t..u][0];
      TentativeByte(cfg, buf, t, cur);
      var next := cur.(m := cur.m.(index := p + 1, lookbehind := cur.m.lookbehind[p := b[p]]));
      var t1 := t + 1;
      RunStep(cfg, buf, n, t, cur, t1, next);
      assert buf[t1..u] == buf[t..u][1..];
      AbsorbedStep(cur.m.lookbehind, b, p);
      HoldBoundary(cfg, buf, n, t1, next, u, held);
    } else {
      assert Absorbed(cur.m.lookbehind, b, p) == cur.m.lookbehind;
    }
  }

  /** CR LF after a complete boundary. */
  lemma PartTail(cfg: Config, buf: seq<char>, n: nat, u: nat, cur: Cursor, e: nat)
    requires |cfg.boundary| >= 1 && cur.mark <= u && WellFormed(|cfg.boundary|, cur.m)
    requires cur.m.phase == PartData && cur.m.index == |cfg.boundary|
    requires e == u + 2 && e <= n <= |buf| && buf[u] == CR && buf[u + 1] == LF
    requires !cfg.aborts(cur.log + [OnPartDataEnd])
    requires !cfg.aborts(cur.log + [OnPartDataEnd, OnPartDataBegin])
    ensures Run(cfg, buf, n, u, cur)
         == Run(cfg, buf, n, e,
                Cursor(cur.m.(phase := HeaderFieldStart, index := 0, partBoundary := false,
                              lookbehind := cur.m.lookbehind[|cfg.boundary| := CR]),
                       cur.mark, cur.log + [OnPartDataEnd, OnPartDataBegin]))
  {
    var L := |cfg.boundary|;
    TentativeByte(cfg, buf, u, cur);
    var m2 := cur.m.(index := L + 1, lookbehind := cur.m.lookbehind[L := CR], partBoundary := true);
    var u1 := u + 1;
    RunStep(cfg, buf, n, u, cur, u1, Cursor(m2, cur.mark, cur.log));
    PartBoundaryConfirmed(cfg, buf, u1, Cursor(m2, cur.mark, cur.log));
    RunStep(cfg, buf, n, u1, Cursor(m2, cur.mark, cur.log), e,
            Cursor(m2.(phase := HeaderFieldStart, index := 0, partBoundary := false), cur.mark, cur.log + [OnPartDataEnd, OnPartDataBegin]));
  }

  /** `--` after a complete boundary with the part flag clear. */
  lemma HyphensTail(cfg: Config, buf: seq<char>, n: nat, u: nat, cur: Cursor, e: nat, next: Cursor)
    requires |cfg.boundary| >= 1 && cur.mark <= u && WellFormed(|cfg.boundary|, cur.m)
    requires cur.m.phase == PartData && cur.m.index == |cfg.boundary| && !cur.m.partBoundary
    requires e == u + 2 && e <= n <= |buf| && buf[u] == Hyphen && buf[u + 1] == Hyphen
    requires next == cur.(m := cur.m.(index := |cfg.boundary| + 2, lastBoundary := true,
                                      lookbehind := cur.m.lookbehind[|cfg.boundary| := Hyphen][|cfg.boundary| + 1 := Hyphen]))
    ensures Run(cfg, buf, n, u, cur) == Run(cfg, buf, n, e, next)
  {
    var L := |cfg.boundary|;
    TentativeByte(cfg, buf, u, cur);
    var m2 := cur.m.(index := L + 1, lookbehind := cur.m.lookbehind[L := Hyphen], lastBoundary := true);
    var u1 := u + 1;
    RunStep(cfg, buf, n, u, cur, u1, Cursor(m2, cur.mark, cur.log));
    TentativeByte(cfg, buf, u1, Cursor(m2, cur.mark, cur.log));
    RunStep(cfg, buf, n, u1, Cursor(m2, cur.mark, cur.log), e, next);
  }

  /** CR LF after a complete boundary and `--`. */
  lemma TerminalTail(cfg: Config, buf: seq<char>, n: nat, u: nat, cur: Cursor, e: nat)
    requires |cfg.boundary| >= 1 && cur.mark <= u && WellFormed(|cfg.boundary|, cur.m)
    requires cur.m.phase == PartData && cur.m.index == |cfg.boundary| + 2
    requires e == u + 2 && e <= n <= |buf| && buf[u] == CR && buf[u + 1] == LF
    requires !cfg.aborts(cur.log + [OnPartDataEnd])
    requires !cfg.aborts(cur.log + [OnPartDataEnd, OnBodyEnd])
    ensures Run(cfg, buf, n, u, cur)
         == Run(cfg, buf, n, e,
                Cursor(cur.m.(phase := End, index := 0, lookbehind := cur.m.lookbehind[|cfg.boundary| + 2 := CR]),
                       cur.mark, cur.log + [OnPartDataEnd, OnBodyEnd]))
  {
    var L := |cfg.boundary|;
    TentativeByte(cfg, buf, u, cur);
    var m2 := cur.m.(index := L + 3, lookbehind := cur.m.lookbehind[L + 2 := CR]);
    var u1 := u + 1;
    RunStep(cfg, buf, n, u, cur, u1, Cursor(m2, cur.mark, cur.log));
    TerminalBoundaryConfirmed(cfg, buf, u1, Cursor(m2, cur.mark, cur.log));
    RunStep(cfg, buf, n, u1, Cursor(m2, cur.mark, cur.log), e,
            Cursor(m2.(phase := End, index := 0), cur.mark, cur.log + [OnPartDataEnd, OnBodyEnd]));
  }

  /** A part boundary that straddles calls: from a match of `p >= 1` boundary bytes on, the
      rest of the boundary, CR and LF (ending at `e`) raise `on_part_data_end` and
      `on_part_data_begin` and reach s_header_field_start with the part flag clear and the
      delimiter held in lookbehind; nothing is delivered as data. */
  lemma PartBoundaryResumes(cfg: Config, buf: seq<char>, n: nat, t: nat, cur: Cursor, e: nat, after: Cursor)
    requires |cfg.boundary| >= 1 && cur.mark <= t && WellFormed(|cfg.boundary|, cur.m)
    requires cur.m.phase == PartData && 1 <= cur.m.index <= |cfg.boundary|
    requires e == t + (|cfg.boundary| - cur.m.index) + 2 && e <= n <= |buf|
    requires buf[t..e] == cfg.boundary[cur.m.index..] + [CR, LF]
    requires !cfg.aborts(cur.log + [OnPartDataEnd])
    requires !cfg.aborts(cur.log + [OnPartDataEnd, OnPartDataBegin])
    requires after == Cursor(cur.m.(phase := HeaderFieldStart, index := 0, partBoundary := false,
                                    lookbehind := Absorbed(cur.m.lookbehind, cfg.boundary + [CR], cur.m.index)),
                             cur.mark, cur.log + [OnPartDataEnd, OnPartDataBegin])
    ensures Run(cfg, buf, n, t, cur) == Run(cfg, buf, n, e, after)
  {
    var b := cfg.boundary;
    var L := |b|;
    var p := cur.m.index;
    var u := t + (L - p);
    var w := buf[t..e];
    assert buf[t..u] == w[..L - p];
    assert buf[u] == w[L - p] && buf[u + 1] == w[L - p + 1];
    var held := cur.(m := cur.m.(index := L, lookbehind := Absorbed(cur.m.lookbehind, b, p)));
    HoldBoundary(cfg, buf, n, t, cur, u, held);
    PartTail(cfg, buf, n, u, held, e);
    AbsorbedExtend(cur.m.lookbehind, b, p, CR);
  }

  /** The terminal boundary that straddles calls: from a match of `p >= 1` boundary bytes on,
      with the part flag clear, the rest of the boundary and `--` CR LF (ending at `e`) raise
      `on_part_data_end` and `on_body_end` and reach s_end; nothing is delivered as data. */
  lemma TerminalResumes(cfg: Config, buf: seq<char>, n: nat, t: nat, cur: Cursor, e: nat, after: Cursor)
    requires |cfg.boundary| >= 1 && cur.mark <= t && WellFormed(|cfg.boundary|, cur.m)
    requires cur.m.phase == PartData && 1 <= cur.m.index <= |cfg.boundary| && !cur.m.partBoundary
    requires e == t + (|cfg.boundary| - cur.m.index) + 4 && e <= n <= |buf|
    requires buf[t..e] == cfg.boundary[cur.m.index..] + [Hyphen, Hyphen, CR, LF]
    requires !cfg.aborts(cur.log + [OnPartDataEnd])
    requires !cfg.aborts(cur.log + [OnPartDataEnd, OnBodyEnd])
    requires after == Cursor(cur.m.(phase := End, index := 0, lastBoundary := true,
                                    lookbehind := Absorbed(cur.m.lookbehind, cfg.boundary + [Hyphen, Hyphen, CR], cur.m.index)),
                             cur.mark, cur.log + [OnPartDataEnd, OnBodyEnd])
    ensures Run(cfg, buf, n, t, cur) == Run(cfg, buf, n, e, after)
  {
    var b := cfg.boundary;
    var p := cur.m.index;
    var u := t + (|b| - p);
    var u2 := u + 2;
    TerminalSlices(buf, t, u, u2, e, b[p..]);
    var c1 := cur.(m := cur.m.(index := |cfg.boundary|, lookbehind := Absorbed(cur.m.lookbehind, cfg.boundary, cur.m.index)));
    HoldBoundary(cfg, buf, n, t, cur, u, c1);
    AbsorbedTerminal(cur.m.lookbehind, b, p);
    TerminalFinish(cfg, buf, n, u, c1, u2, e, after);
  }

  lemma TerminalSlices(buf: seq<char>, t: nat, u: nat, u2: nat, e: nat, s: seq<char>)
    requires u == t + |s| && u2 == u + 2 && e == u2 + 2 && e <= |buf|
    requires buf[t..e] == s + [Hyphen, Hyphen, CR, LF]
    ensures buf[t..u] == s && buf[u] == Hyphen && buf[u + 1] == Hyphen && buf[u2] == CR && buf[u2 + 1] == LF
  {
    var w := buf[t..e];
    assert buf[t..u] == w[..|s|];
    assert buf[u] == w[|s|] && buf[u + 1] == w[|s| + 1] && buf[u2] == w[|s| + 2] && buf[u2 + 1] == w[|s| + 3];
  }

  /** `--` CR LF after a complete boundary with the part flag clear. */
  lemma TerminalFinish(cfg: Config, buf: seq<char>, n: nat, u: nat, c1: Cursor, u2: nat, e: nat, after: Cursor)
    requires |cfg.boundary| >= 1 && c1.mark <= u && WellFormed(|cfg.boundary|, c1.m)
    requires c1.m.phase == PartData && c1.m.index == |cfg.boundary| && !c1.m.partBoundary
    requires u2 == u + 2 && e == u2 + 2 && e <= n <= |buf|
    requires buf[u] == Hyphen && buf[u + 1] == Hyphen && buf[u2] == CR && buf[u2 + 1] == LF
    requires !cfg.aborts(c1.log + [OnPartDataEnd])
    requires !cfg.aborts(c1.log + [OnPartDataEnd, OnBodyEnd])
    requires after == Cursor(c1.m.(phase := End, index := 0, lastBoundary := true,
                                   lookbehind := c1.m.lookbehind[|cfg.boundary| := Hyphen][|cfg.boundary| + 1 := Hyphen]
                                                                [|cfg.boundary| + 2 := CR]),
                             c1.mark, c1.log + [OnPartDataEnd, OnBodyEnd])
    ensures Run(cfg, buf, n, u, c1) == Run(cfg, buf, n, e, after)
  {
    var L := |cfg.boundary|;
    var c2 := c1.(m := c1.m.(index := L + 2, lastBoundary := true,
                             lookbehind := c1.m.lookbehind[L := Hyphen][L + 1 := Hyphen]));
    HyphensTail(cfg, buf, n, u, c1, u2, c2);
    TerminalTail(cfg, buf, n, u2, c2, e);
    assert after == Cursor(c2.m.(phase := End, index := 0, lookbehind := c2.m.lookbehind[|cfg.boundary| + 2 := CR]),
                           c2.mark, c2.log + [OnPartDataEnd, OnBodyEnd]);
  }

  lemma AbsorbedTerminal(lb: seq<char>, b: seq<char>, p: nat)
    requires p <= |b| && |b| + 3 <= |lb|
    ensures Absorbed(lb, b, p)[|b| := Hyphen][|b| + 1 := Hyphen][|b| + 2 := CR]
         == Absorbed(lb, b + [Hyphen, Hyphen, CR], p)
  {
    AbsorbedExtend(lb, b, p, Hyphen);
    AbsorbedExtend(lb, b + [Hyphen], p, Hyphen);
    AbsorbedExtend(lb, b + [Hyphen] + [Hyphen], p, CR);
    assert b + [Hyphen] + [Hyphen] + [CR] == b + [Hyphen, Hyphen, CR];
  }

  /** A candidate boundary start that the callback accepts moves the run on with the leading
      data delivered and one boundary byte held. */
  lemma CandidateRun(cfg: Config, buf: seq<char>, n: nat, j: nat, cur: Cursor, j1: nat, c1: Cursor)
    requires Ready(cfg, buf, j, cur) && cur.m.phase == PartData && cur.m.index == 0
    requires j < n <= |buf| && buf[j] == cfg.boundary[0] && j1 == j + 1
    requires !cfg.aborts(cur.log + [OnPartData(Leading(buf, j, cur.mark))])
    requires c1 == Cursor(cur.m.(parsed := cur.m.parsed + |Leading(buf, j, cur.mark)|, index := 1,
                                 lookbehind := cur.m.lookbehind[0 := cfg.boundary[0]]),
                          cur.mark, cur.log + [OnPartData(Leading(buf, j, cur.mark))])
    ensures Run(cfg, buf, n, j, cur) == Run(cfg, buf, n, j1, c1)
  {
    CandidateAccepted(cfg, buf, j, cur);
    RunStep(cfg, buf, n, j, cur, j1, c1);
  }

  lemma CandidateAccepted(cfg: Config, buf: seq<char>, j: nat, cur: Cursor)
    requires Ready(cfg, buf, j, cur) && cur.m.phase == PartData && cur.m.index == 0
    requires buf[j] == cfg.boundary[0]
    requires !cfg.aborts(cur.log + [OnPartData(Leading(buf, j, cur.mark))])
    ensures var lead := Leading(buf, j, cur.mark);
      Step(cfg, buf, j, cur)
        == Next(Cursor(cur.m.(parsed := cur.m.parsed + |lead|, index := 1,
                              lookbehind := cur.m.lookbehind[0 := cfg.boundary[0]]),
                       cur.mark, cur.log + [OnPartData(lead)]))
  {
    CandidateStart(cfg, buf, j, cur);
  }

  /** A chunk that holds `b + tail` from `j` to `e` holds `b[0]` at `j` and `b[1..] + tail`
      after it. */
  lemma SliceAfterFirst(buf: seq<char>, j: nat, e: nat, b: seq<char>, tail: seq<char>)
    requires |b| >= 1 && e == j + |b| + |tail| && e <= |buf| && buf[j..e] == b + tail
    ensures buf[j] == b[0] && buf[j + 1..e] == b[1..] + tail
  {
    assert buf[j] == buf[j..e][0];
    assert buf[j + 1..e] == buf[j..e][1..];
    assert (b + tail)[1..] == b[1..] + tail;
  }

  /** The cursor after the first boundary byte, carried through the rest of a part boundary,
      is the one the whole delimiter leads to from `cur`. */
  lemma PartResumed(cur: Cursor, lead: seq<char>, b: seq<char>)
    requires 1 <= |b| && |b| + 8 == |cur.m.lookbehind|
    ensures var c1 := Cursor(cur.m.(parsed := cur.m.parsed + |lead|, index := 1, lookbehind := cur.m.lookbehind[0 := b[0]]),
                             cur.mark, cur.log + [OnPartData(lead)]);
      c1.log + [OnPartDataEnd] == cur.log + [OnPartData(lead), OnPartDataEnd] &&
      c1.log + [OnPartDataEnd, OnPartDataBegin] == cur.log + [OnPartData(lead), OnPartDataEnd, OnPartDataBegin] &&
      Cursor(c1.m.(phase := HeaderFieldStart, index := 0, partBoundary := false,
                   lookbehind := Absorbed(c1.m.lookbehind, b + [CR], c1.m.index)),
             c1.mark, c1.log + [OnPartDataEnd, OnPartDataBegin])
      == Cursor(cur.m.(phase := HeaderFieldStart, index := 0, partBoundary := false,
                       parsed := cur.m.parsed + |lead|,
                       lookbehind := Absorbed(cur.m.lookbehind, b + [CR], 0)),
                cur.mark, cur.log + [OnPartData(lead), OnPartDataEnd, OnPartDataBegin])
  {
    assert (b + [CR])[0] == b[0];
    AbsorbedStep(cur.m.lookbehind, b + [CR], 0);
    assert cur.log + [OnPartData(lead)] + [OnPartDataEnd, OnPartDataBegin] == cur.log + [OnPartData(lead), OnPartDataEnd, OnPartDataBegin];
    assert cur.log + [OnPartData(lead)] + [OnPartDataEnd] == cur.log + [OnPartData(lead), OnPartDataEnd];
  }

  /** The same for the terminal boundary. */
  lemma TerminalResumed(cur: Cursor, lead: seq<char>, b: seq<char>)
    requires 1 <= |b| && |b| + 8 == |cur.m.lookbehind|
    ensures var c1 := Cursor(cur.m.(parsed := cur.m.parsed + |lead|, index := 1, lookbehind := cur.m.lookbehind[0 := b[0]]),
                             cur.mark, cur.log + [OnPartData(lead)]);
      c1.log + [OnPartDataEnd] == cur.log + [OnPartData(lead), OnPartDataEnd] &&
      c1.log + [OnPartDataEnd, OnBodyEnd] == cur.log + [OnPartData(lead), OnPartDataEnd, OnBodyEnd] &&
      Cursor(c1.m.(phase := End, index := 0, lastBoundary := true,
                   lookbehind := Absorbed(c1.m.lookbehind, b + [Hyphen, Hyphen, CR], c1.m.index)),
             c1.mark, c1.log + [OnPartDataEnd, OnBodyEnd])
      == Cursor(cur.m.(phase := End, index := 0, lastBoundary := true,
                       parsed := cur.m.parsed + |lead|,
                       lookbehind := Absorbed(cur.m.lookbehind, b + [Hyphen, Hyphen, CR], 0)),
                cur.mark, cur.log + [OnPartData(lead), OnPartDataEnd, OnBodyEnd])
  {
    assert (b + [Hyphen, Hyphen, CR])[0] == b[0];
    AbsorbedStep(cur.m.lookbehind, b + [Hyphen, Hyphen, CR], 0);
    assert cur.log + [OnPartData(lead)] + [OnPartDataEnd, OnBodyEnd] == cur.log + [OnPartData(lead), OnPartDataEnd, OnBodyEnd];
    assert cur.log + [OnPartData(lead)] + [OnPartDataEnd] == cur.log + [OnPartData(lead), OnPartDataEnd];
  }

  /** A mid-body part boundary: in s_part_data with no match in flight, the boundary then CR
      LF from `j` to `e` deliver exactly the data `lead` from the mark up to `j` (less a CR LF
      trimmed before it), then raise `on_part_data_end` and `on_part_data_begin`, and reach
      s_header_field_start with the part flag clear.  `parsed` grows by `|lead|`. */
  lemma PartBoundaryLine(cfg: Config, buf: seq<char>, n: nat, j: nat, cur: Cursor, e: nat, lead: seq<char>)
    requires Ready(cfg, buf, j, cur) && cur.m.phase == PartData && cur.m.index == 0
    requires e == j + |cfg.boundary| + 2 && e <= n <= |buf|
    requires buf[j..e] == cfg.boundary + [CR, LF]
    requires lead == Leading(buf, j, cur.mark)
    requires !cfg.aborts(cur.log + [OnPartData(lead)])
    requires !cfg.aborts(cur.log + [OnPartData(lead), OnPartDataEnd])
    requires !cfg.aborts(cur.log + [OnPartData(lead), OnPartDataEnd, OnPartDataBegin])
    ensures Run(cfg, buf, n, j, cur)
         == Run(cfg, buf, n, e,
                Cursor(cur.m.(phase := HeaderFieldStart, index := 0, partBoundary := false,
                              parsed := cur.m.parsed + |lead|,
                              lookbehind := Absorbed(cur.m.lookbehind, cfg.boundary + [CR], 0)),
                       cur.mark, cur.log + [OnPartData(lead), OnPartDataEnd, OnPartDataBegin]))
  {
    SliceAfterFirst(buf, j, e, cfg.boundary, [CR, LF]);
    var c1 := Cursor(cur.m.(parsed := cur.m.parsed + |lead|, index := 1,
                            lookbehind := cur.m.lookbehind[0 := cfg.boundary[0]]),
                     cur.mark, cur.log + [OnPartData(lead)]);
    CandidateRun(cfg, buf, n, j, cur, j + 1, c1);
    PartResumed(cur, lead, cfg.boundary);
    PartBoundaryResumes(cfg, buf, n, j + 1, c1, e,
                        Cursor(cur.m.(phase := HeaderFieldStart, index := 0, partBoundary := false,
                                      parsed := cur.m.parsed + |lead|,
                                      lookbehind := Absorbed(cur.m.lookbehind, cfg.boundary + [CR], 0)),
                               cur.mark, cur.log + [OnPartData(lead), OnPartDataEnd, OnPartDataBegin]));
  }

  /** The terminal boundary in the body: with the part flag clear, the boundary then `--` CR LF
      from `j` to `e` deliver exactly the data `lead` before it, raise `on_part_data_end` and
      `on_body_end`, and reach s_end, which ignores everything after it. */
  lemma TerminalLine(cfg: Config, buf: seq<char>, n: nat, j: nat, cur: Cursor, e: nat, lead: seq<char>)
    requires Ready(cfg, buf, j, cur) && cur.m.phase == PartData && cur.m.index == 0
    requires !cur.m.partBoundary
    requires e == j + |cfg.boundary| + 4 && e <= n <= |buf|
    requires buf[j..e] == cfg.boundary + [Hyphen, Hyphen, CR, LF]
    requires lead == Leading(buf, j, cur.mark)
    requires !cfg.aborts(cur.log + [OnPartData(lead)])
    requires !cfg.aborts(cur.log + [OnPartData(lead), OnPartDataEnd])
    requires !cfg.aborts(cur.log + [OnPartData(lead), OnPartDataEnd, OnBodyEnd])
    ensures Run(cfg, buf, n, j, cur)
         == Next(Cursor(cur.m.(phase := End, index := 0, lastBoundary := true,
                               parsed := cur.m.parsed + |lead|,
                               lookbehind := Absorbed(cur.m.lookbehind, cfg.boundary + [Hyphen, Hyphen, CR], 0)),
                        cur.mark, cur.log + [OnPartData(lead), OnPartDataEnd, OnBodyEnd]))
  {
    SliceAfterFirst(buf, j, e, cfg.boundary, [Hyphen, Hyphen, CR, LF]);
    var c1 := Cursor(cur.m.(parsed := cur.m.parsed + |lead|, index := 1,
                            lookbehind := cur.m.lookbehind[0 := cfg.boundary[0]]),
                     cur.mark, cur.log + [OnPartData(lead)]);
    CandidateRun(cfg, buf, n, j, cur, j + 1, c1);
    TerminalResumed(cur, lead, cfg.boundary);
    var done := Cursor(cur.m.(phase := End, index := 0, lastBoundary := true,
                              parsed := cur.m.parsed + |lead|,
                              lookbehind := Absorbed(cur.m.lookbehind, cfg.boundary + [Hyphen, Hyphen, CR], 0)),
                       cur.mark, cur.log + [OnPartData(lead), OnPartDataEnd, OnBodyEnd]);
    TerminalResumes(cfg, buf, n, j + 1, c1, e, done);
    EndAbsorbs(cfg, buf, n, e, done);
  }

  /** As written, a part flag left set by a boundary followed by CR and then a byte other than
      LF is never cleared by anything but a later part boundary.  While it is set, the terminal
      boundary is not recognised: the boundary and the first `-` (the bytes from `j` to `e`)
      are replayed as data, no `on_part_data_end` or `on_body_end` is raised, and the parser
      stays in s_part_data. */
  lemma StalePartFlagHidesTerminal(cfg: Config, buf: seq<char>, n: nat, j: nat, cur: Cursor, e: nat, lead: seq<char>)
    requires Ready(cfg, buf, j, cur) && cur.m.phase == PartData && cur.m.index == 0
    requires cur.m.partBoundary
    requires e == j + |cfg.boundary| + 2 && e <= n <= |buf| && e < |buf|
    requires buf[j..e] == cfg.boundary + [Hyphen, Hyphen]
    requires lead == Leading(buf, j, cur.mark)
    requires !cfg.aborts(cur.log + [OnPartData(lead)])
    ensures Run(cfg, buf, n, j, cur)
         == Run(cfg, buf, n, e,
                Cursor(cur.m.(index := 0, lastBoundary := true, parsed := cur.m.parsed + |lead| + |cfg.boundary| + 1,
                              lookbehind := Absorbed(cur.m.lookbehind, cfg.boundary + [Hyphen], 0)),
                       j + |cfg.boundary| + 1, cur.log + [OnPartData(lead), OnPartData(cfg.boundary + [Hyphen])]))
  {
    var b := cfg.boundary;
    var lb := cur.m.lookbehind;
    var u := j + |cfg.boundary|;
    StaleSlices(buf, j, u, e, b);
    var c1 := Cursor(cur.m.(parsed := cur.m.parsed + |lead|, index := 1, lookbehind := lb[0 := b[0]]),
                     cur.mark, cur.log + [OnPartData(lead)]);
    var c2 := c1.(m := c1.m.(index := |cfg.boundary|, lookbehind := Absorbed(c1.m.lookbehind, cfg.boundary, c1.m.index)));
    assert Run(cfg, buf, n, j, cur) == Run(cfg, buf, n, u, c2) by {
      StaleHead(cfg, buf, n, j, cur, u, c2, lead);
    }
    var fin := Cursor(cur.m.(index := 0, lastBoundary := true, parsed := cur.m.parsed + |lead| + |cfg.boundary| + 1,
                             lookbehind := Absorbed(cur.m.lookbehind, cfg.boundary + [Hyphen], 0)),
                      j + |cfg.boundary| + 1, cur.log + [OnPartData(lead), OnPartData(cfg.boundary + [Hyphen])]);
    assert Run(cfg, buf, n, u, c2) == Run(cfg, buf, n, e, fin) by {
      StaleCursor(cur, lead, b);
      assert WellFormed(|cfg.boundary|, c2.m);
      assert fin == Cursor(c2.m.(index := 0, lastBoundary := true, parsed := c2.m.parsed + (|cfg.boundary| + 1),
                                 lookbehind := c2.m.lookbehind[|cfg.boundary| := Hyphen]),
                           u + 1, c2.log + [OnPartData(c2.m.lookbehind[|cfg.boundary| := Hyphen][..|cfg.boundary| + 1])]);
      StaleTail(cfg, buf, n, u, c2, e, fin);
    }
  }

  /** The boundary itself: its first byte flushes the leading data, the rest is held. */
  lemma StaleHead(cfg: Config, buf: seq<char>, n: nat, j: nat, cur: Cursor, u: nat, c2: Cursor, lead: seq<char>)
    requires Ready(cfg, buf, j, cur) && cur.m.phase == PartData && cur.m.index == 0
    requires u == j + |cfg.boundary| && u < n <= |buf|
    requires buf[j] == cfg.boundary[0] && buf[j + 1..u] == cfg.boundary[1..]
    requires lead == Leading(buf, j, cur.mark)
    requires !cfg.aborts(cur.log + [OnPartData(lead)])
    requires c2 == Cursor(cur.m.(parsed := cur.m.parsed + |lead|, index := |cfg.boundary|,
                                 lookbehind := Absorbed(cur.m.lookbehind[0 := cfg.boundary[0]], cfg.boundary, 1)),
                          cur.mark, cur.log + [OnPartData(lead)])
    ensures Run(cfg, buf, n, j, cur) == Run(cfg, buf, n, u, c2)
  {
    var c1 := Cursor(cur.m.(parsed := cur.m.parsed + |lead|, index := 1, lookbehind := cur.m.lookbehind[0 := cfg.boundary[0]]),
                     cur.mark, cur.log + [OnPartData(lead)]);
    CandidateRun(cfg, buf, n, j, cur, j + 1, c1);
    HoldBoundary(cfg, buf, n, j + 1, c1, u, c2);
  }

  lemma StaleSlices(buf: seq<char>, j: nat, u: nat, e: nat, b: seq<char>)
    requires |b| >= 1 && u == j + |b| && e == u + 2 && e <= |buf| && buf[j..e] == b + [Hyphen, Hyphen]
    ensures buf[j] == b[0] && buf[j + 1..u] == b[1..] && buf[u] == Hyphen && buf[u + 1] == Hyphen
  {
    var w := buf[j..e];
    assert buf[j] == w[0] && buf[u] == w[|b|] && buf[u + 1] == w[|b| + 1];
    forall k | 0 <= k < |b| - 1 ensures buf[j + 1..u][k] == b[1..][k] {
      assert buf[j + 1 + k] == w[1 + k];
    }
  }

  /** The cursor that the replay after a held boundary and `-` leaves, in terms of the
      cursor before the boundary. */
  lemma StaleCursor(cur: Cursor, lead: seq<char>, b: seq<char>)
    requires 1 <= |b| && |b| + 8 == |cur.m.lookbehind|
    ensures var c1 := Cursor(cur.m.(parsed := cur.m.parsed + |lead|, index := 1, lookbehind := cur.m.lookbehind[0 := b[0]]),
                             cur.mark, cur.log + [OnPartData(lead)]);
      var c2 := c1.(m := c1.m.(index := |b|, lookbehind := Absorbed(c1.m.lookbehind, b, c1.m.index)));
      c2.m.(index := 0, lastBoundary := true, parsed := c2.m.parsed + (|b| + 1),
            lookbehind := c2.m.lookbehind[|b| := Hyphen])
      == cur.m.(index := 0, lastBoundary := true, parsed := cur.m.parsed + |lead| + |b| + 1,
                lookbehind := Absorbed(cur.m.lookbehind, b + [Hyphen], 0)) &&
      c2.log + [OnPartData(c2.m.lookbehind[|b| := Hyphen][..|b| + 1])]
      == cur.log + [OnPartData(lead), OnPartData(b + [Hyphen])]
  {
    var lb := cur.m.lookbehind;
    AbsorbedStep(lb, b, 0);
    AbsorbedExtend(lb, b, 0, Hyphen);
    assert Absorbed(lb, b + [Hyphen], 0)[..|b| + 1] == b + [Hyphen];
  }

  /** With the part flag set, `-` after a complete boundary is held and the second `-` ends
      the match: the held bytes and the first `-` are replayed as data and the mark moves to
      the second `-`. */
  lemma StaleTail(cfg: Config, buf: seq<char>, n: nat, u: nat, c2: Cursor, e: nat, after: Cursor)
    requires |cfg.boundary| >= 1 && c2.mark <= u && WellFormed(|cfg.boundary|, c2.m)
    requires c2.m.phase == PartData && c2.m.index == |cfg.boundary| && c2.m.partBoundary
    requires e == u + 2 && e <= n <= |buf| && e < |buf| && buf[u] == Hyphen && buf[u + 1] == Hyphen
    requires after == Cursor(c2.m.(index := 0, lastBoundary := true, parsed := c2.m.parsed + (|cfg.boundary| + 1),
                                   lookbehind := c2.m.lookbehind[|cfg.boundary| := Hyphen]),
                             u + 1, c2.log + [OnPartData(c2.m.lookbehind[|cfg.boundary| := Hyphen][..|cfg.boundary| + 1])])
    ensures Run(cfg, buf, n, u, c2) == Run(cfg, buf, n, e, after)
  {
    var L := |cfg.boundary|;
    var u1 := u + 1;
    var c3 := c2.(m := c2.m.(index := L + 1, lastBoundary := true, lookbehind := c2.m.lookbehind[L := Hyphen]));
    StaleHyphen(cfg, buf, n, u, c2, u1, c3);
    StaleReplayCursor(c2, |cfg.boundary|, u1, c3, after);
    StaleReplay(cfg, buf, n, u1, c3, e, after);
  }

  lemma StaleHyphen(cfg: Config, buf: seq<char>, n: nat, u: nat, c2: Cursor, u1: nat, c3: Cursor)
    requires |cfg.boundary| >= 1 && c2.mark <= u && WellFormed(|cfg.boundary|, c2.m)
    requires c2.m.phase == PartData && c2.m.index == |cfg.boundary| && c2.m.partBoundary
    requires u1 == u + 1 && u1 < n <= |buf| && buf[u] == Hyphen
    requires c3 == c2.(m := c2.m.(index := |cfg.boundary| + 1, lastBoundary := true,
                                  lookbehind := c2.m.lookbehind[|cfg.boundary| := Hyphen]))
    ensures WellFormed(|cfg.boundary|, c3.m) && c3.mark <= u1
    ensures Run(cfg, buf, n, u, c2) == Run(cfg, buf, n, u1, c3)
  {
    TentativeByte(cfg, buf, u, c2);
    RunStep(cfg, buf, n, u, c2, u1, c3);
  }

  lemma StaleReplayCursor(c2: Cursor, L: nat, u1: nat, c3: Cursor, after: Cursor)
    requires L < |c2.m.lookbehind|
    requires c3 == c2.(m := c2.m.(index := L + 1, lastBoundary := true, lookbehind := c2.m.lookbehind[L := Hyphen]))
    requires after == Cursor(c2.m.(index := 0, lastBoundary := true, parsed := c2.m.parsed + (L + 1),
                                   lookbehind := c2.m.lookbehind[L := Hyphen]),
                             u1, c2.log + [OnPartData(c2.m.lookbehind[L := Hyphen][..L + 1])])
    ensures after == Cursor(c3.m.(index := 0, parsed := c3.m.parsed + c3.m.index), u1,
                            c3.log + [OnPartData(c3.m.lookbehind[..c3.m.index])])
  {
  }

  lemma StaleReplay(cfg: Config, buf: seq<char>, n: nat, i: nat, c3: Cursor, e: nat, after: Cursor)
    requires Ready(cfg, buf, i, c3) && c3.m.phase == PartData && buf[i] == Hyphen
    requires c3.m.index == |cfg.boundary| + 1 && c3.m.partBoundary
    requires e == i + 1 && e <= n <= |buf| && e < |buf|
    requires after == Cursor(c3.m.(index := 0, parsed := c3.m.parsed + c3.m.index), i,
                             c3.log + [OnPartData(c3.m.lookbehind[..c3.m.index])])
    ensures Run(cfg, buf, n, i, c3) == Run(cfg, buf, n, e, after)
  {
    MismatchReplay(cfg, buf, i, c3);
    RunStep(cfg, buf, n, i, c3, e, after);
  }

  /** A part boundary split across two calls: a call that starts with `p >= 1` boundary bytes
      in lookbehind and whose chunk opens with the rest of the boundary, CR and LF raises
      `on_part_data_end` then `on_part_data_begin` before anything else. */
  lemma StraddlingPartBoundary(cfg: Config, m: Machine, log: seq<Event>, buf: seq<char>)
    requires |cfg.boundary| >= 1 && WellFormed(|cfg.boundary|, m)
    requires m.phase == PartData && 1 <= m.index <= |cfg.boundary|
    requires |cfg.boundary| - m.index + 2 <= |buf|
    requires buf[..|cfg.boundary| - m.index + 2] == cfg.boundary[m.index..] + [CR, LF]
    requires !cfg.aborts(log + [OnPartDataEnd]) && !cfg.aborts(log + [OnPartDataEnd, OnPartDataBegin])
    ensures log + [OnPartDataEnd, OnPartDataBegin] <= Feed(cfg, m, log, buf).log
  {
    var e := |cfg.boundary| - m.index + 2;
    assert buf[0..e] == buf[..e];
    var after := Cursor(m.(phase := HeaderFieldStart, index := 0, partBoundary := false,
                           lookbehind := Absorbed(m.lookbehind, cfg.boundary + [CR], m.index)),
                        0, log + [OnPartDataEnd, OnPartDataBegin]);
    PartBoundaryResumes(cfg, buf, |buf|, 0, Cursor(m, 0, log), e, after);
  }

  /** The terminal boundary split across two calls: the call consumes its whole chunk, raises
      exactly `on_part_data_end` and `on_body_end`, and leaves the parser in s_end. */
  lemma StraddlingTerminalBoundary(cfg: Config, m: Machine, log: seq<Event>, buf: seq<char>)
    requires |cfg.boundary| >= 1 && WellFormed(|cfg.boundary|, m)
    requires m.phase == PartData && 1 <= m.index <= |cfg.boundary| && !m.partBoundary
    requires |cfg.boundary| - m.index + 4 <= |buf|
    requires buf[..|cfg.boundary| - m.index + 4] == cfg.boundary[m.index..] + [Hyphen, Hyphen, CR, LF]
    requires !cfg.aborts(log + [OnPartDataEnd]) && !cfg.aborts(log + [OnPartDataEnd, OnBodyEnd])
    ensures var r := Feed(cfg, m, log, buf);
      r.log == log + [OnPartDataEnd, OnBodyEnd] && r.m.phase == End && r.consumed == |buf|
  {
    var e := |cfg.boundary| - m.index + 4;
    assert buf[0..e] == buf[..e];
    var done := Cursor(m.(phase := End, index := 0, lastBoundary := true,
                          lookbehind := Absorbed(m.lookbehind, cfg.boundary + [Hyphen, Hyphen, CR], m.index)),
                       0, log + [OnPartDataEnd, OnBodyEnd]);
    TerminalResumes(cfg, buf, |buf|, 0, Cursor(m, 0, log), e, done);
    EndAbsorbs(cfg, buf, |buf|, e, done);
  }

  // ---------------------------------------------------------------------------------------
  // Flags
  // ---------------------------------------------------------------------------------------

  /** The flags change only in s_part_data after a complete boundary: CR sets
      `f_part_boundary`, `-` sets `f_last_boundary`, a confirmed part boundary clears
      `f_part_boundary`, and nothing ever clears `f_last_boundary`. */
  lemma StepFlags(cfg: Config, buf: seq<char>, i: nat, cur: Cursor)
    requires Ready(cfg, buf, i, cur)
    ensures var r := Step(cfg, buf, i, cur); var L := |cfg.boundary|;
      var p := cur.m.index; var c := buf[i]; var inData := cur.m.phase == PartData;
      r.c.m.lastBoundary == (cur.m.lastBoundary || (inData && p == L && c == Hyphen)) &&
      r.c.m.partBoundary
        == (if inData && p == L + 1 && cur.m.partBoundary && c == LF then false
            else cur.m.partBoundary || (inData && p == L && c == CR))
  {
    match cur.m.phase
    case PartData => PartDataByteEffect(cfg, buf, i, cur);
    case PartDataStart =>
      var e := Emit(cfg, cur, OnHeadersComplete, i);
      if e.Next? {
        PartDataByteEffect(cfg, buf, i, Cursor(e.c.m.(phase := PartData), i, e.c.log));
      }
    case StartBoundary => StartBoundaryFrame(cfg, buf, i, cur);
    case HeaderFieldStart => HeaderFieldFrame(cfg, buf, i, Cursor(cur.m.(phase := HeaderField), i, cur.log));
    case HeaderField => HeaderFieldFrame(cfg, buf, i, cur);
    case HeaderValueStart =>
      if buf[i] != Space {
        HeaderValueFrame(cfg, buf, i, Cursor(cur.m.(phase := HeaderValue), i, cur.log));
      }
    case HeaderValue => HeaderValueFrame(cfg, buf, i, cur);
    case _ =>
  }

  lemma StartBoundaryFrame(cfg: Config, buf: seq<char>, i: nat, cur: Cursor)
    requires Ready(cfg, buf, i, cur) && cur.m.phase == StartBoundary
    ensures var r := StartBoundaryByte(cfg, buf, i, cur);
      r.c.m.partBoundary == cur.m.partBoundary && r.c.m.lastBoundary == cur.m.lastBoundary
  {
  }

  lemma HeaderFieldFrame(cfg: Config, buf: seq<char>, i: nat, cur: Cursor)
    requires Ready(cfg, buf, i, cur) && cur.m.phase == HeaderField
    ensures var r := HeaderFieldByte(cfg, buf, i, cur);
      r.c.m.partBoundary == cur.m.partBoundary && r.c.m.lastBoundary == cur.m.lastBoundary
  {
  }

  lemma HeaderValueFrame(cfg: Config, buf: seq<char>, i: nat, cur: Cursor)
    requires Ready(cfg, buf, i, cur) && cur.m.phase == HeaderValue
    ensures var r := HeaderValueByte(cfg, buf, i, cur);
      r.c.m.partBoundary == cur.m.partBoundary && r.c.m.lastBoundary == cur.m.lastBoundary
  {
  }
}
