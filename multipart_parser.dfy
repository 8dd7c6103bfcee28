/** The parser object of `multipart_parser.c`: the fields of `multipart_parser_state`, with the
    lookbehind buffer as an array that `Execute` writes in place.  Every callback invocation is
    appended to `events`; `aborts` stands for the callbacks' return codes.  Each method is proved
    to do exactly what the functional specification in `MultipartSpec` says. */
module MultipartParser {
  import opened MultipartSpec
  import MultipartProperties

  /** The outcome the functional specification gives for what a handler method returned. */
  function Returned(halt: bool, ret: nat, c: Cursor): Outcome {
    if halt then Halt(c, ret) else Next(c)
  }

  class Parser {
    const boundary: seq<char>
    const aborts: seq<Event> -> bool
    const lookbehind: array<char>
    var state: Phase
    var index: nat
    var partBoundary: bool
    var lastBoundary: bool
    var parsed: nat
    var events: seq<Event>

    function Cfg(): Config {
      Config(boundary, aborts)
    }

    /** The persistent state as a value of the specification. */
    function Model(): Machine
      reads this, lookbehind
    {
      Machine(state, index, partBoundary, lastBoundary, parsed, lookbehind[..])
    }

    /** The object invariant: the specification's bounds, the lookbehind holding exactly the
        bytes of the match in flight, and `parsed` equal to the number of part-data bytes
        handed to the callbacks so far. */
    ghost predicate Valid()
      reads this, lookbehind
    {
      Shaped() && MultipartProperties.Held(boundary, Model()) && parsed == DataLength(events)
    }

    /** The specification's bounds on the state. */
    ghost predicate Shaped()
      reads this, lookbehind
    {
      |boundary| >= 1 && WellFormed(|boundary|, Model())
    }

    /** `init_multipart_parser`: the boundary is kept, the lookbehind reserves
        `|boundary| + 8` bytes, and the state is s_start with everything else zero. */
    constructor (boundary: seq<char>, aborts: seq<Event> -> bool)
      requires |boundary| >= 1
      ensures Valid() && fresh(lookbehind)
      ensures this.boundary == boundary && this.aborts == aborts
      ensures lookbehind.Length == |boundary| + 8
      ensures Model() == Initial(|boundary|, lookbehind[..]) && events == []
    {
      this.boundary := boundary;
      this.aborts := aborts;
      lookbehind := new char[|boundary| + 8];
      index := 0;
      state := Start;
      partBoundary, lastBoundary := false, false;
      parsed := 0;
      events := [];
    }

    /** A callback invocation: log the event and report whether the callback failed. */
    method Invoke(e: Event) returns (failed: bool)
      modifies this`events
      ensures events == old(events) + [e]
      ensures failed == aborts(events)
    {
      events := events + [e];
      failed := aborts(events);
    }

    /** `multipart_parser_execute(p, buf, len)`. */
    method Execute(buf: seq<char>) returns (ret: nat)
      requires Valid()
      modifies this, lookbehind
      ensures Valid()
      ensures Feed(Cfg(), old(Model()), old(events), buf) == Fed(Model(), events, ret)
    {
      var i: nat := 0;
      var mark: nat := 0;
      while i < |buf|
        invariant i <= |buf| && mark <= i && Valid()
        invariant Run(Cfg(), buf, |buf|, 0, Cursor(old(Model()), 0, old(events)))
               == Run(Cfg(), buf, |buf|, i, Cursor(Model(), mark, events))
      {
        ghost var before := Cursor(Model(), mark, events);
        MultipartProperties.StepKeepsHeld(Cfg(), buf, i, before);
        var halt, r;
        halt, r, mark := StepByte(buf, i, mark);
        ghost var after := Cursor(Model(), mark, events);
        assert Step(Cfg(), buf, i, before) == Returned(halt, r, after);
        if halt {
          MultipartProperties.RunHalts(Cfg(), buf, |buf|, i, before);
          return r;
        }
        MultipartProperties.RunStep(Cfg(), buf, |buf|, i, before, i + 1, after);
        i := i + 1;
      }
      ret := |buf|;
    }

    /** One iteration of the loop: the `switch` on the state. */
    method StepByte(buf: seq<char>, i: nat, mark: nat) returns (halt: bool, r: nat, mark': nat)
      requires Shaped() && mark <= i < |buf|
      modifies this, lookbehind
      ensures Step(Cfg(), buf, i, Cursor(old(Model()), mark, old(events)))
           == Returned(halt, r, Cursor(Model(), mark', events))
    {
      var c := buf[i];
      halt, r, mark' := false, 0, mark;
      match state {
        case Start =>
          index := 0;
          state := StartBoundary;
        case StartBoundary =>
          halt, r := StartBoundaryByte(buf, i, mark);
        case HeaderFieldStart =>
          mark' := i;
          state := HeaderField;
          halt, r := HeaderFieldByte(buf, i, mark');
        case HeaderField =>
          halt, r := HeaderFieldByte(buf, i, mark);
        case HeadersAlmostDone =>
          if c != LF {
            return true, i, mark;
          }
          state := PartDataStart;
        case HeaderValueStart =>
          if c != Space {
            mark' := i;
            state := HeaderValue;
            halt, r := HeaderValueByte(buf, i, mark');
          }
        case HeaderValue =>
          halt, r := HeaderValueByte(buf, i, mark);
        case HeaderValueAlmostDone =>
          if c != LF {
            return true, i, mark;
          }
          state := HeaderFieldStart;
        case PartDataStart =>
          halt := Invoke(OnHeadersComplete);
          if halt {
            return true, i, mark;
          }
          state := PartData;
          halt, r, mark' := PartDataByte(buf, i, i);
        case PartData =>
          halt, r, mark' := PartDataByte(buf, i, mark);
        case End =>
      }
    }

    /** s_start_boundary. */
    method StartBoundaryByte(buf: seq<char>, i: nat, mark: nat) returns (halt: bool, ret: nat)
      requires Shaped() && mark <= i < |buf| && state == StartBoundary
      modifies this
      ensures MultipartSpec.StartBoundaryByte(Cfg(), buf, i, Cursor(old(Model()), mark, old(events)))
          == Returned(halt, ret, Cursor(Model(), mark, events))
    {
      var c := buf[i];
      halt, ret := false, 0;
      if index == |boundary| - 1 {
        if c != CR {
          return true, i;
        }
        index := index + 1;
      } else if index == |boundary| {
        if c != LF {
          return true, i;
        }
        index := 0;
        var failed := Invoke(OnPartDataBegin);
        if failed {
          return true, i;
        }
        state := HeaderFieldStart;
      } else {
        if c != boundary[index + 1] {
          return true, i;
        }
        index := index + 1;
      }
    }

    /** s_header_field (entered from s_header_field_start with `mark` at this byte). */
    method HeaderFieldByte(buf: seq<char>, i: nat, mark: nat) returns (halt: bool, ret: nat)
      requires Shaped() && mark <= i < |buf| && state == HeaderField
      modifies this
      ensures MultipartSpec.HeaderFieldByte(Cfg(), buf, i, Cursor(old(Model()), mark, old(events)))
          == Returned(halt, ret, Cursor(Model(), mark, events))
    {
      var c := buf[i];
      halt, ret := false, 0;
      if c == CR {
        state := HeadersAlmostDone;
      } else if c == Hyphen {
      } else if c == Colon {
        var failed := Invoke(OnHeaderField(buf[mark..i]));
        if failed {
          return true, i;
        }
        state := HeaderValueStart;
      } else if !IsAsciiLetter(c) {
        return true, i;
      } else if i == |buf| - 1 {
        var failed := Invoke(OnHeaderField(buf[mark..i]));
        if failed {
          return true, i;
        }
      }
    }

    /** s_header_value (entered from s_header_value_start with `mark` at this byte). */
    method HeaderValueByte(buf: seq<char>, i: nat, mark: nat) returns (halt: bool, ret: nat)
      requires Shaped() && mark <= i < |buf| && state == HeaderValue
      modifies this
      ensures MultipartSpec.HeaderValueByte(Cfg(), buf, i, Cursor(old(Model()), mark, old(events)))
          == Returned(halt, ret, Cursor(Model(), mark, events))
    {
      var c := buf[i];
      halt, ret := false, 0;
      if c == CR {
        var failed := Invoke(OnHeaderValue(buf[mark..i]));
        if failed {
          return true, i;
        }
        state := HeaderValueAlmostDone;
      }
      if i == |buf| - 1 {
        var failed := Invoke(OnHeaderValue(buf[mark..i]));
        if failed {
          return true, i;
        }
      }
    }

    /** s_part_data: boundary matching, lookbehind replay and the chunk-end flush. */
    method PartDataByte(buf: seq<char>, i: nat, mark: nat) returns (halt: bool, ret: nat, mark': nat)
      requires Shaped() && mark <= i < |buf| && state == PartData
      modifies this, lookbehind
      ensures MultipartSpec.PartDataByte(Cfg(), buf, i, Cursor(old(Model()), mark, old(events)))
          == Returned(halt, ret, Cursor(Model(), mark', events))
    {
      if index < |boundary| {
        halt, ret, mark' := BoundaryByte(buf, i, mark);
      } else {
        halt, ret, mark' := DelimiterByte(buf, i, mark);
      }
    }

    /** s_part_data while `index < |boundary|`. */
    method BoundaryByte(buf: seq<char>, i: nat, mark: nat) returns (halt: bool, ret: nat, mark': nat)
      requires Shaped() && mark <= i < |buf| && state == PartData && index < |boundary|
      modifies this, lookbehind
      ensures MultipartSpec.BoundaryByte(Cfg(), buf, i, Cursor(old(Model()), mark, old(events)))
          == Returned(halt, ret, Cursor(Model(), mark', events))
    {
      if index == 0 && boundary[0] == buf[i] {
        halt, ret, mark' := CandidateByte(buf, i, mark);
        return;
      }
      var prevIndex := index;
      if boundary[index] == buf[i] {
        index := index + 1;
      } else {
        index := 0;
      }
      halt, ret, mark' := Settle(buf, i, mark, prevIndex);
    }

    /** The first byte of a candidate boundary: the data before it is delivered (without a
        CR LF that may precede the boundary), then the byte is held with the counter at 1. */
    method CandidateByte(buf: seq<char>, i: nat, mark: nat) returns (halt: bool, ret: nat, mark': nat)
      requires Shaped() && mark <= i < |buf| && state == PartData && index == 0 && boundary[0] == buf[i]
      modifies this, lookbehind
      ensures MultipartSpec.BoundaryByte(Cfg(), buf, i, Cursor(old(Model()), mark, old(events)))
          == Returned(halt, ret, Cursor(Model(), mark', events))
    {
      ghost var cur := Cursor(Model(), mark, events);
      var adjustment := Adjustment(buf, i, mark);
      ghost var data := buf[mark..i - adjustment];
      ghost var c1 := Cursor(cur.m.(parsed := cur.m.parsed + |data|), mark, cur.log + [OnPartData(data)]);
      assert MultipartSpec.BoundaryByte(Cfg(), buf, i, cur)
          == if aborts(c1.log) then Halt(c1, i - adjustment)
             else MultipartSpec.Settle(Cfg(), buf, i, c1.(m := c1.m.(index := 1)), 0);
      parsed := parsed + (i - adjustment - mark);
      var failed := Invoke(OnPartData(buf[mark..i - adjustment]));
      assert Cursor(Model(), mark, events) == c1;
      if failed {
        return true, i - adjustment, mark;
      }
      index := 1;
      halt, ret, mark' := Settle(buf, i, mark, 0);
    }

    /** s_part_data once `index >= |boundary|`: the bytes after a complete boundary. */
    method DelimiterByte(buf: seq<char>, i: nat, mark: nat) returns (halt: bool, ret: nat, mark': nat)
      requires Shaped() && mark <= i < |buf| && state == PartData && index >= |boundary|
      modifies this, lookbehind
      ensures MultipartSpec.DelimiterByte(Cfg(), buf, i, Cursor(old(Model()), mark, old(events)))
          == Returned(halt, ret, Cursor(Model(), mark', events))
    {
      ghost var spec := MultipartSpec.DelimiterByte(Cfg(), buf, i, Cursor(Model(), mark, events));
      var c := buf[i];
      var L := |boundary|;
      var prevIndex := index;
      if index == L {
        index := index + 1;
        if c == CR {
          partBoundary := true;
        } else if c == Hyphen {
          lastBoundary := true;
        } else {
          index := 0;
        }
      } else if index == L + 1 {
        if partBoundary {
          index := 0;
          if c == LF {
            partBoundary := false;
            assert spec == MultipartSpec.Delimited(Cfg(), buf, i, Cursor(Model(), mark, events), OnPartDataBegin, HeaderFieldStart);
            halt, ret := Delimited(buf, i, mark, OnPartDataBegin, HeaderFieldStart);
            return halt, ret, mark;
          }
        } else if lastBoundary {
          if c == Hyphen {
            index := index + 1;
          } else {
            index := 0;
          }
        } else {
          index := 0;
        }
      } else if index == L + 2 {
        if c == CR {
          index := index + 1;
        } else {
          index := 0;
        }
      } else {
        index := 0;
        if c == LF {
          assert spec == MultipartSpec.Delimited(Cfg(), buf, i, Cursor(Model(), mark, events), OnBodyEnd, End);
          halt, ret := Delimited(buf, i, mark, OnBodyEnd, End);
          return halt, ret, mark;
        }
      }
      assert spec == MultipartSpec.Settle(Cfg(), buf, i, Cursor(Model(), mark, events), prevIndex);
      halt, ret, mark' := Settle(buf, i, mark, prevIndex);
    }

    /** A confirmed delimiter: `on_part_data_end`, then `closing`, then the state `to`. */
    method Delimited(buf: seq<char>, i: nat, mark: nat, closing: Event, to: Phase) returns (halt: bool, ret: nat)
      requires Shaped() && mark <= i < |buf| && state == PartData && index == 0
      requires to == HeaderFieldStart || to == End
      requires !closing.OnPartData?
      modifies this
      ensures MultipartSpec.Delimited(Cfg(), buf, i, Cursor(old(Model()), mark, old(events)), closing, to)
          == Returned(halt, ret, Cursor(Model(), mark, events))
    {
      var failed := Invoke(OnPartDataEnd);
      if failed {
        return true, i;
      }
      failed := Invoke(closing);
      if failed {
        return true, i;
      }
      state := to;
      halt, ret := false, 0;
    }

    /** The tail of s_part_data: lookbehind store, replay of a failed match, chunk-end flush. */
    method Settle(buf: seq<char>, i: nat, mark: nat, prev: nat) returns (halt: bool, ret: nat, mark': nat)
      requires |boundary| >= 1 && mark <= i < |buf| && state == PartData
      requires lookbehind.Length == |boundary| + 8 && index <= |boundary| + 3 && prev <= |boundary| + 3
      modifies this, lookbehind
      ensures MultipartSpec.Settle(Cfg(), buf, i, Cursor(old(Model()), mark, old(events)), prev)
          == Returned(halt, ret, Cursor(Model(), mark', events))
    {
      halt, ret, mark' := false, 0, mark;
      if index > 0 {
        lookbehind[index - 1] := buf[i];
      } else if prev > 0 {
        parsed := parsed + prev;
        var ignored := Invoke(OnPartData(lookbehind[..prev]));
        mark' := i;
      }

      if index == 0 && i == |buf| - 1 {
        parsed := parsed + (|buf| - mark');
        var failed := Invoke(OnPartData(buf[mark'..]));
        if failed {
          return true, |buf|, mark';
        }
      }
    }
  }
}
