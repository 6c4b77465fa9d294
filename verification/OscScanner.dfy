/** Pulling `ESC ] code ; data (BEL | ST)` sequences out of a terminal stream; a char stands for one byte. */
module OscScanning {
  import opened Options

  const ESC: char := '\U{1B}'
  const BEL: char := '\U{07}'
  const OSC_INTRODUCER: char := ']'
  const ST_FINAL: char := '\\'

  /** Cap on a body in progress. */
  const MAX_PENDING: nat := 8192

  datatype RawOsc = RawOsc(code: nat, data: string)

  datatype State = Idle | EscArmed | InBody | BodyEsc

  datatype Config = Config(state: State, body: string)

  const QUIET := Config(Idle, "")

  // ---------------------------------------------------------------- body

  /** Text before and after the first separator. */
  function SplitOnce(text: string, separator: char): (parts: Option<(string, string)>)
    ensures parts.None? <==> separator !in text
    ensures parts.Some? ==> separator !in parts.value.0 && text == parts.value.0 + [separator] + parts.value.1
  {
    if text == "" then None
    else if text[0] == separator then Some(("", text[1..]))
    else
      match SplitOnce(text[1..], separator)
      case None => None
      case Some((before, after)) => Some(([text[0]] + before, after))
  }

  lemma {:induction false} SplitOnceAt(before: string, separator: char, after: string)
    requires separator !in before
    ensures SplitOnce(before + [separator] + after, separator) == Some((before, after))
  {
    var text := before + [separator] + after;
    if before == "" {
      assert text[1..] == after;
    } else {
      assert before[0] in before;
      assert text[1..] == before[1..] + [separator] + after;
      SplitOnceAt(before[1..], separator, after);
      assert [text[0]] + before[1..] == before;
    }
  }

  predicate Digit(c: char) {
    '0' <= c <= '9'
  }

  function DigitValue(c: char): nat
    requires Digit(c)
  {
    c as int - '0' as int
  }

  function Value(digits: string): nat
    requires forall i :: 0 <= i < |digits| ==> Digit(digits[i])
  {
    if digits == "" then 0 else 10 * Value(digits[..|digits| - 1]) + DigitValue(digits[|digits| - 1])
  }

  function WithoutSign(text: string): string {
    if text != "" && text[0] == '+' then text[1..] else text
  }

  function ParseDigits(digits: string): Option<nat> {
    if digits != "" && (forall i :: 0 <= i < |digits| ==> Digit(digits[i])) && Value(digits) <= 65535 then
      Some(Value(digits))
    else None
  }

  /** A 16-bit unsigned number: an optional plus sign, then digits. */
  function ParseU16(text: string): Option<nat> {
    ParseDigits(WithoutSign(text))
  }

  function ParseBody(body: string): Option<RawOsc> {
    match SplitOnce(body, ';')
    case None => None
    case Some((code, data)) =>
      match ParseU16(code)
      case None => None
      case Some(value) => Some(RawOsc(value, data))
  }

  // ---------------------------------------------------------------- one byte

  function Accumulate(body: string, b: char): Config {
    if |body + [b]| > MAX_PENDING then QUIET else Config(InBody, body + [b])
  }

  /** A byte completes at most one sequence. */
  function Step(c: Config, b: char): (Config, Option<RawOsc>) {
    match c.state
    case Idle => (if b == ESC then c.(state := EscArmed) else c, None)
    case EscArmed =>
      (if b == OSC_INTRODUCER then Config(InBody, "") else if b == ESC then c else c.(state := Idle), None)
    case InBody =>
      if b == BEL then (QUIET, ParseBody(c.body))
      else if b == ESC then (c.(state := BodyEsc), None)
      else (Accumulate(c.body, b), None)
    case BodyEsc =>
      if b == ST_FINAL then (QUIET, ParseBody(c.body))
      else if b == ESC then (Config(EscArmed, ""), None)
      else (QUIET, None)
  }

  function Prepend(first: Option<RawOsc>, rest: seq<RawOsc>): seq<RawOsc> {
    if first.Some? then [first.value] + rest else rest
  }

  /** Feeding a whole stream. */
  function Run(c: Config, bytes: string): (Config, seq<RawOsc>)
    decreases |bytes|
  {
    if bytes == "" then (c, [])
    else
      var (next, first) := Step(c, bytes[0]);
      var (last, rest) := Run(next, bytes[1..]);
      (last, Prepend(first, rest))
  }

  class OscScanner {
    var state: State
    var body: string

    ghost function Now(): Config
      reads this
    {
      Config(state, body)
    }

    /** Between calls the pending body is bounded, and empty when no sequence is open. */
    ghost predicate Valid()
      reads this
    {
      Bounded(Now())
    }

    constructor ()
      ensures Now() == QUIET && Valid()
    {
      state := Idle;
      body := "";
    }

    method Push(bytes: string) returns (out: seq<RawOsc>)
      requires Valid()
      modifies this
      ensures Valid()
      ensures (Now(), out) == Run(old(Now()), bytes)
    {
      hide ParseBody, Step, Run, Bounded;
      out := [];
      ghost var start := Now();
      assert bytes[0..] == bytes && [] + Run(start, bytes).1 == Run(start, bytes).1;
      for i := 0 to |bytes|
        invariant Valid()
        invariant Run(start, bytes) == (Run(Now(), bytes[i..]).0, out + Run(Now(), bytes[i..]).1)
      {
        RunByte(Now(), bytes, i, out);
        out := Feed(bytes[i], out);
      }
      assert bytes[|bytes|..] == "";
      RunNothing(Now());
      assert out + [] == out;
    }

    /** One byte of the loop. */
    method Feed(b: char, out: seq<RawOsc>) returns (more: seq<RawOsc>)
      requires Valid()
      modifies this
      ensures Valid()
      ensures Now() == Step(old(Now()), b).0 && more == out + Prepend(Step(old(Now()), b).1, [])
    {
      hide ParseBody;
      more := out;
      match state {
        case Idle =>
          if b == ESC { state := EscArmed; }
        case EscArmed =>
          if b == OSC_INTRODUCER {
            state := InBody;
            body := "";
          } else if b != ESC {
            state := Idle;
          }
        case InBody =>
          if b == BEL {
            more := Finish(out);
          } else if b == ESC {
            state := BodyEsc;
          } else {
            AccumulateByte(b);
          }
        case BodyEsc =>
          if b == ST_FINAL {
            more := Finish(out);
          } else if b == ESC {
            body := "";
            state := EscArmed;
          } else {
            body := "";
            state := Idle;
          }
      }
    }

    method AccumulateByte(b: char)
      modifies this
      ensures Now() == if |old(body) + [b]| > MAX_PENDING then QUIET else Config(old(state), old(body) + [b])
    {
      body := body + [b];
      if |body| > MAX_PENDING {
        Reset();
      }
    }

    method Finish(out: seq<RawOsc>) returns (more: seq<RawOsc>)
      modifies this
      ensures Now() == QUIET && more == out + Prepend(ParseBody(old(body)), [])
    {
      var osc := ParseBody(body);
      more := if osc.Some? then out + [osc.value] else out;
      Reset();
    }

    method Reset()
      modifies this
      ensures Now() == QUIET
    {
      state := Idle;
      body := "";
    }
  }

  /** What a run makes of the next byte. */
  lemma RunByte(c: Config, bytes: string, i: nat, out: seq<RawOsc>)
    requires i < |bytes|
    ensures var (next, first) := Step(c, bytes[i]);
            Run(c, bytes[i..]).0 == Run(next, bytes[i + 1..]).0 &&
            out + Run(c, bytes[i..]).1 == out + Prepend(first, []) + Run(next, bytes[i + 1..]).1
  {
    hide Step;
    assert bytes[i..][1..] == bytes[i + 1..];
    var (next, first) := Step(c, bytes[i]);
    var later := Run(next, bytes[i + 1..]).1;
    assert out + Prepend(first, later) == out + Prepend(first, []) + later;
  }

  lemma RunNothing(c: Config)
    ensures Run(c, "") == (c, [])
  {
  }

  predicate Clean(text: string) {
    ESC !in text && BEL !in text
  }

  predicate Bounded(c: Config) {
    && |c.body| <= MAX_PENDING && Clean(c.body)
    && (c.state == Idle || c.state == EscArmed ==> c.body == "")
  }

  /** Over every stream the pending body stays bounded, and empty when no sequence is open. */
  lemma {:induction false} RunStaysBounded(c: Config, bytes: string)
    requires Bounded(c)
    ensures Bounded(Run(c, bytes).0)
    decreases |bytes|
  {
    if bytes != "" {
      RunStaysBounded(Step(c, bytes[0]).0, bytes[1..]);
    }
  }

  // ---------------------------------------------------------------- chunks

  lemma {:induction false} RunAppend(c: Config, a: string, b: string)
    ensures var (middle, first) := Run(c, a);
            var (last, rest) := Run(middle, b);
            Run(c, a + b) == (last, first + rest)
    decreases |a|
  {
    if a == "" {
      assert a + b == b && [] + Run(c, b).1 == Run(c, b).1;
    } else {
      assert (a + b)[1..] == a[1..] + b;
      var (next, first) := Step(c, a[0]);
      RunAppend(next, a[1..], b);
      var (middle, some) := Run(next, a[1..]);
      var rest := Run(middle, b).1;
      assert Prepend(first, some) + rest == Prepend(first, some + rest);
    }
  }

  function Flatten(chunks: seq<string>): string {
    if chunks == [] then "" else chunks[0] + Flatten(chunks[1..])
  }

  /** What a scanner does when the stream arrives in pieces. */
  function RunChunks(c: Config, chunks: seq<string>): (Config, seq<RawOsc>)
    decreases |chunks|
  {
    if chunks == [] then (c, [])
    else
      var (next, first) := Run(c, chunks[0]);
      var (last, rest) := RunChunks(next, chunks[1..]);
      (last, first + rest)
  }

  /** However a stream is cut, the scanner ends in the same state having emitted the same sequences. */
  lemma {:induction false} ChunkingIsInvisible(c: Config, chunks: seq<string>)
    ensures RunChunks(c, chunks) == Run(c, Flatten(chunks))
    decreases |chunks|
  {
    if chunks != [] {
      ChunkingIsInvisible(Run(c, chunks[0]).0, chunks[1..]);
      RunAppend(c, chunks[0], Flatten(chunks[1..]));
    }
  }

  // ---------------------------------------------------------------- grammar

  /** What a stream is made of. `Again` and `Restart` are followed by another ESC. */
  datatype Item =
    | Plain(c: char)
    | Stray(c: char)
    | Again
    | Frame(body: string, bel: bool)
    | Broken(body: string, c: char)
    | Restart(body: string)
    | Runaway(body: string)

  /** How a stream may stop. */
  datatype Tail = Nothing | LoneEsc | Open(body: string) | OpenEsc(body: string)

  const INTRODUCER: string := [ESC, OSC_INTRODUCER]

  function ItemText(item: Item): string {
    match item
    case Plain(c) => [c]
    case Stray(c) => [ESC, c]
    case Again => [ESC]
    case Frame(body, bel) => INTRODUCER + body + if bel then [BEL] else [ESC, ST_FINAL]
    case Broken(body, c) => INTRODUCER + body + [ESC, c]
    case Restart(body) => INTRODUCER + body + [ESC]
    case Runaway(body) => INTRODUCER + body
  }

  predicate ItemOk(item: Item) {
    match item
    case Plain(c) => c != ESC
    case Stray(c) => c != ESC && c != OSC_INTRODUCER
    case Again => true
    case Frame(body, _) => Clean(body) && |body| <= MAX_PENDING
    case Broken(body, c) => Clean(body) && |body| <= MAX_PENDING && c != ESC && c != ST_FINAL
    case Restart(body) => Clean(body) && |body| <= MAX_PENDING
    case Runaway(body) => Clean(body) && |body| == MAX_PENDING + 1
  }

  function TailText(tail: Tail): string {
    match tail
    case Nothing => ""
    case LoneEsc => [ESC]
    case Open(body) => INTRODUCER + body
    case OpenEsc(body) => INTRODUCER + body + [ESC]
  }

  predicate TailOk(tail: Tail) {
    tail.Open? || tail.OpenEsc? ==> Clean(tail.body) && |tail.body| <= MAX_PENDING
  }

  function StreamText(items: seq<Item>, tail: Tail): string {
    if items == [] then TailText(tail) else ItemText(items[0]) + StreamText(items[1..], tail)
  }

  /** A parse of a stream: every item well formed, and an ESC where one is announced. */
  predicate Parses(items: seq<Item>, tail: Tail) {
    if items == [] then TailOk(tail)
    else
      && ItemOk(items[0])
      && (items[0].Again? || items[0].Restart? ==> [ESC] <= StreamText(items[1..], tail))
      && Parses(items[1..], tail)
  }

  function Emission(item: Item): Option<RawOsc> {
    if item.Frame? then ParseBody(item.body) else None
  }

  /** The sequences of the terminated frames whose body has a number and a semicolon. */
  function Emissions(items: seq<Item>): seq<RawOsc> {
    if items == [] then []
    else Prepend(Emission(items[0]), Emissions(items[1..]))
  }

  function TailConfig(tail: Tail): Config {
    match tail
    case Nothing => QUIET
    case LoneEsc => Config(EscArmed, "")
    case Open(body) => Config(InBody, body)
    case OpenEsc(body) => Config(BodyEsc, body)
  }

  /** A clean body that fits is taken in byte by byte. */
  lemma {:induction false} RunBody(pending: string, body: string, rest: string)
    requires Clean(body) && |pending| + |body| <= MAX_PENDING
    ensures Run(Config(InBody, pending), body + rest) == Run(Config(InBody, pending + body), rest)
    decreases |body|
  {
    if body == "" {
      assert body + rest == rest && pending + body == pending;
    } else {
      assert (body + rest)[1..] == body[1..] + rest;
      assert pending + [body[0]] + body[1..] == pending + body;
      assert body[0] in body;
      assert Clean(body[1..]);
      RunBody(pending + [body[0]], body[1..], rest);
      assert Step(Config(InBody, pending), (body + rest)[0]) == (Config(InBody, pending + [body[0]]), None);
    }
  }

  lemma RunFrameStart(body: string, rest: string)
    requires Clean(body) && |body| <= MAX_PENDING
    ensures Run(QUIET, INTRODUCER + body + rest) == Run(Config(InBody, body), rest)
  {
    var text := INTRODUCER + body + rest;
    assert text[1..][1..] == body + rest;
    RunBody("", body, rest);
    assert "" + body == body;
    assert Run(QUIET, text) == Run(Config(EscArmed, ""), text[1..]);
  }

  /** One item leaves the scanner where it was and emits only if it is a frame. */
  lemma ItemRuns(item: Item, rest: string)
    requires ItemOk(item) && (item.Again? || item.Restart? ==> [ESC] <= rest)
    ensures var (last, out) := Run(QUIET, rest);
            Run(QUIET, ItemText(item) + rest) == (last, Prepend(Emission(item), out))
  {
    hide ParseBody, Run;
    match item
    case Plain(c) => PlainRuns(c, rest);
    case Stray(c) => StrayRuns(c, rest);
    case Again => AgainRuns(rest);
    case Frame(body, bel) => FrameRuns(body, bel, rest);
    case Broken(body, c) => BrokenRuns(body, c, rest);
    case Restart(body) => RestartRuns(body, rest);
    case Runaway(body) => RunawayRuns(body, rest);
  }

  lemma PlainRuns(c: char, rest: string)
    requires c != ESC
    ensures Run(QUIET, [c] + rest) == Run(QUIET, rest)
  {
    assert ([c] + rest)[1..] == rest;
  }

  lemma StrayRuns(c: char, rest: string)
    requires c != ESC && c != OSC_INTRODUCER
    ensures Run(QUIET, [ESC, c] + rest) == Run(QUIET, rest)
  {
    assert ([ESC, c] + rest)[1..][1..] == rest;
  }

  lemma AgainRuns(rest: string)
    requires [ESC] <= rest
    ensures Run(QUIET, [ESC] + rest) == Run(QUIET, rest)
  {
    assert ([ESC] + rest)[1..] == rest;
  }

  lemma RestartRuns(body: string, rest: string)
    requires Clean(body) && |body| <= MAX_PENDING && [ESC] <= rest
    ensures Run(QUIET, INTRODUCER + body + [ESC] + rest) == Run(QUIET, rest)
  {
    hide Clean;
    var end := [ESC] + rest;
    assert INTRODUCER + body + [ESC] + rest == INTRODUCER + body + end;
    RunFrameStart(body, end);
    assert end[1..] == rest;
  }

  lemma FrameRuns(body: string, bel: bool, rest: string)
    requires Clean(body) && |body| <= MAX_PENDING
    ensures var (last, out) := Run(QUIET, rest);
            Run(QUIET, ItemText(Frame(body, bel)) + rest) == (last, Prepend(ParseBody(body), out))
  {
    hide ParseBody;
    var end := (if bel then [BEL] else [ESC, ST_FINAL]) + rest;
    assert ItemText(Frame(body, bel)) + rest == INTRODUCER + body + end;
    RunFrameStart(body, end);
    if bel { assert end[1..] == rest; } else { assert end[1..][1..] == rest; }
  }

  lemma BrokenRuns(body: string, c: char, rest: string)
    requires ItemOk(Broken(body, c))
    ensures Run(QUIET, ItemText(Broken(body, c)) + rest) == Run(QUIET, rest)
  {
    var end := [ESC, c] + rest;
    assert ItemText(Broken(body, c)) + rest == INTRODUCER + body + end;
    RunFrameStart(body, end);
    assert end[1..][1..] == rest;
  }

  lemma RunawayRuns(body: string, rest: string)
    requires ItemOk(Runaway(body))
    ensures Run(QUIET, ItemText(Runaway(body)) + rest) == Run(QUIET, rest)
  {
    var fits, over := body[..MAX_PENDING], body[MAX_PENDING..] + rest;
    assert Clean(fits) && body[MAX_PENDING] in body;
    assert ItemText(Runaway(body)) + rest == INTRODUCER + fits + over;
    RunFrameStart(fits, over);
    assert over[1..] == rest;
  }

  /** The scanner refines the grammar: on any parse it emits exactly the frames, in order. */
  lemma {:induction false} ScannerFollowsGrammar(items: seq<Item>, tail: Tail)
    requires Parses(items, tail)
    ensures Run(QUIET, StreamText(items, tail)) == (TailConfig(tail), Emissions(items))
  {
    if items != [] {
      ScannerFollowsGrammar(items[1..], tail);
      ItemRuns(items[0], StreamText(items[1..], tail));
    } else {
      match tail
      case Nothing =>
      case LoneEsc =>
        assert Run(Config(EscArmed, ""), [ESC][1..]) == (Config(EscArmed, ""), []);
      case Open(body) =>
        assert TailText(tail) == INTRODUCER + body + "";
        RunFrameStart(body, "");
      case OpenEsc(body) =>
        RunFrameStart(body, [ESC]);
        assert [ESC][1..] == "";
    }
  }

  /** The length of the clean run at the front, up to one past the cap. */
  function BodyLength(text: string, limit: nat): (n: nat)
    ensures n <= |text| && n <= limit && Clean(text[..n])
    ensures n < limit && n < |text| ==> text[n] == ESC || text[n] == BEL
  {
    if limit == 0 || text == "" || text[0] == ESC || text[0] == BEL then 0
    else
      var n := 1 + BodyLength(text[1..], limit - 1);
      assert text[..n] == [text[0]] + text[1..][..n - 1];
      n
  }

  /** Every stream whatsoever has a parse. */
  lemma {:induction false} EveryStreamParses(text: string) returns (items: seq<Item>, tail: Tail)
    ensures Parses(items, tail) && StreamText(items, tail) == text
    decreases |text|, 1
  {
    if text == "" {
      return [], Nothing;
    } else if text == [ESC] {
      return [], LoneEsc;
    } else if text[0] != ESC {
      items, tail := PrependItem(Plain(text[0]), text[1..]);
    } else if text[1] == ESC {
      items, tail := PrependItem(Again, text[1..]);
    } else if text[1] != OSC_INTRODUCER {
      assert text == [ESC, text[1]] + text[2..];
      items, tail := PrependItem(Stray(text[1]), text[2..]);
    } else {
      items, tail := OpenedStreamParses(text[2..]);
      assert text == INTRODUCER + text[2..];
    }
  }

  /** Parsing what follows `item`, in front of which it then stands. */
  lemma {:induction false} PrependItem(item: Item, rest: string) returns (items: seq<Item>, tail: Tail)
    requires ItemOk(item) && (item.Again? || item.Restart? ==> [ESC] <= rest)
    ensures Parses(items, tail) && StreamText(items, tail) == ItemText(item) + rest
    decreases |rest|, 2
  {
    items, tail := EveryStreamParses(rest);
    var more := [item] + items;
    assert more[1..] == items;
    items := more;
  }

  lemma TailAlone(tail: Tail)
    requires TailOk(tail)
    ensures Parses([], tail) && StreamText([], tail) == TailText(tail)
  {
  }

  lemma {:induction false} OpenedStreamParses(text: string) returns (items: seq<Item>, tail: Tail)
    ensures Parses(items, tail) && StreamText(items, tail) == INTRODUCER + text
    decreases |text|, 4
  {
    hide BodyLength, Parses, StreamText, Clean;
    var n := BodyLength(text, MAX_PENDING + 1);
    var body, rest := text[..n], text[n..];
    assert text == body + rest;
    if n > MAX_PENDING {
      items, tail := PrependItem(Runaway(body), rest);
      assert INTRODUCER + body + rest == INTRODUCER + text;
    } else if rest == "" {
      items, tail := [], Open(body);
      TailAlone(tail);
    } else if rest[0] == BEL {
      items, tail := PrependItem(Frame(body, true), rest[1..]);
      assert INTRODUCER + body + [BEL] + rest[1..] == INTRODUCER + text;
    } else {
      items, tail := EscapedStreamParses(body, rest[1..]);
      assert INTRODUCER + body + [ESC] + rest[1..] == INTRODUCER + text;
    }
  }

  lemma {:induction false} EscapedStreamParses(body: string, rest: string) returns (items: seq<Item>, tail: Tail)
    requires Clean(body) && |body| <= MAX_PENDING
    ensures Parses(items, tail) && StreamText(items, tail) == INTRODUCER + body + [ESC] + rest
    decreases |rest|, 3
  {
    hide Parses, StreamText, Clean;
    if rest == "" {
      items, tail := [], OpenEsc(body);
      TailAlone(tail);
    } else if rest[0] == ESC {
      items, tail := PrependItem(Restart(body), rest);
    } else {
      var item := if rest[0] == ST_FINAL then Frame(body, false) else Broken(body, rest[0]);
      items, tail := PrependItem(item, rest[1..]);
      assert INTRODUCER + body + [ESC, rest[0]] + rest[1..] == INTRODUCER + body + [ESC] + rest;
    }
  }

  /** In any chunking of any stream, what comes out is exactly the frames of its parse. */
  lemma EmissionsAreTheFrames(chunks: seq<string>) returns (items: seq<Item>, tail: Tail)
    ensures Parses(items, tail) && StreamText(items, tail) == Flatten(chunks)
    ensures RunChunks(QUIET, chunks) == (TailConfig(tail), Emissions(items))
  {
    items, tail := EveryStreamParses(Flatten(chunks));
    ScannerFollowsGrammar(items, tail);
    ChunkingIsInvisible(QUIET, chunks);
  }
}
