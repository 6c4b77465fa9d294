/** Notifications carried by OSC 9, 777 and 99, and the builders of the same sequences. */
module OscNotifications {
  import opened Options
  import opened OscScanning

  datatype ParsedNotification = ParsedNotification(title: string, subtitle: string, body: string)

  // ---------------------------------------------------------------- parse

  function ParseNotification(osc: RawOsc): Option<ParsedNotification> {
    if osc.code == 9 then ParseOsc9(osc.data)
    else if osc.code == 777 then ParseOsc777(osc.data)
    else if osc.code == 99 then ParseOsc99(osc.data)
    else None
  }

  function ParseOsc9(data: string): Option<ParsedNotification> {
    if data == "" then None else Some(ParsedNotification("", "", data))
  }

  function ParseOsc777(data: string): Option<ParsedNotification> {
    if !("notify;" <= data) then None
    else
      var rest := data[|"notify;"|..];
      var (title, body) := match SplitOnce(rest, ';')
        case Some((t, b)) => (t, b)
        case None => (rest, "");
      if title == "" && body == "" then None else Some(ParsedNotification(title, "", body))
  }

  /** Text between separators; one piece more than there are separators. */
  function SplitAll(text: string, separator: char): (pieces: seq<string>)
    ensures pieces != []
  {
    if text == "" then [""]
    else
      var rest := SplitAll(text[1..], separator);
      if text[0] == separator then [""] + rest else [[text[0]] + rest[0]] + rest[1..]
  }

  /** The field that `key=value` pairs select: the value of the last `p`, body when there is none. */
  function FieldOf(pairs: seq<string>): string {
    if pairs == [] then "body"
    else
      match SplitOnce(pairs[|pairs| - 1], '=')
      case Some((key, value)) => if key == "p" then value else FieldOf(pairs[..|pairs| - 1])
      case None => FieldOf(pairs[..|pairs| - 1])
  }

  method SelectField(meta: string) returns (field: string)
    ensures field == FieldOf(SplitAll(meta, ':'))
  {
    var pairs := SplitAll(meta, ':');
    field := "body";
    for i := 0 to |pairs|
      invariant field == FieldOf(pairs[..i])
    {
      assert pairs[..i + 1][..i] == pairs[..i];
      var pair := SplitOnce(pairs[i], '=');
      if pair.Some? && pair.value.0 == "p" {
        field := pair.value.1;
      }
    }
    assert pairs[..|pairs|] == pairs;
  }

  function Fill(field: string, payload: string): ParsedNotification {
    if field == "title" then ParsedNotification(payload, "", "")
    else if field == "subtitle" then ParsedNotification("", payload, "")
    else ParsedNotification("", "", payload)
  }

  function ParseOsc99(data: string): Option<ParsedNotification> {
    match SplitOnce(data, ';')
    case None => None
    case Some((meta, payload)) =>
      if payload == "" then None else Some(Fill(FieldOf(SplitAll(meta, ':')), payload))
  }

  // ---------------------------------------------------------------- build

  function BuildOsc9(body: string): string {
    [ESC] + "]9;" + body + [BEL]
  }

  function BuildOsc777(title: string, body: string): string {
    [ESC] + "]777;notify;" + title + ";" + body + [BEL]
  }

  function BuildOsc99(field: string, payload: string): string {
    [ESC] + "]99;p=" + field + ";" + payload + [ESC] + "\\"
  }

  // ---------------------------------------------------------------- round trips

  /** All notifications of a stream, in order. */
  function Notifications(oscs: seq<RawOsc>): seq<ParsedNotification> {
    if oscs == [] then []
    else
      match ParseNotification(oscs[0])
      case None => Notifications(oscs[1..])
      case Some(n) => [n] + Notifications(oscs[1..])
  }

  lemma {:induction false} NotificationsAppend(a: seq<RawOsc>, b: seq<RawOsc>)
    ensures Notifications(a + b) == Notifications(a) + Notifications(b)
  {
    if a == [] {
      assert a + b == b;
    } else {
      assert (a + b)[1..] == a[1..] + b;
      NotificationsAppend(a[1..], b);
    }
  }

  lemma BodyParses(code: string, value: nat, data: string)
    requires ';' !in code && ParseU16(code) == Some(value)
    ensures ParseBody(code + ";" + data) == Some(RawOsc(value, data))
  {
    SplitOnceAt(code, ';', data);
  }

  lemma CodesParse()
    ensures ParseU16("9") == Some(9) && ParseU16("99") == Some(99) && ParseU16("777") == Some(777)
  {
    DigitsParse("9");
    assert "9"[..0] == "";
    assert Value("9") == 9;
    DigitsParse("99");
    assert "99"[..1] == "9";
    assert Value("99") == 99;
    assert "7"[..0] == "";
    assert Value("7") == 7;
    assert "77"[..1] == "7";
    assert Value("77") == 77;
    DigitsParse("777");
    assert "777"[..2] == "77";
    assert Value("777") == 777;
  }

  lemma DigitsParse(text: string)
    requires text != "" && forall i :: 0 <= i < |text| ==> Digit(text[i])
    ensures Value(text) <= 65535 ==> ParseU16(text) == Some(Value(text))
  {
    assert Digit(text[0]);
  }

  /**
   * A built sequence anywhere in a stream, cut in any way: once what precedes it leaves the scanner idle,
   * exactly one sequence more comes out, and the rest is scanned as if it stood alone.
   */
  lemma EmbeddedFrameScans(before: string, frame: Item, after: string, chunks: seq<string>)
    requires frame.Frame? && ItemOk(frame)
    requires Run(QUIET, before).0 == QUIET
    requires Flatten(chunks) == before + ItemText(frame) + after
    ensures RunChunks(QUIET, chunks) ==
            (Run(QUIET, after).0,
             Run(QUIET, before).1 + Prepend(ParseBody(frame.body), Run(QUIET, after).1))
  {
    hide Run, RunChunks, Flatten, ItemText, ItemOk, ParseBody;
    ChunkingIsInvisible(QUIET, chunks);
    assert before + ItemText(frame) + after == before + (ItemText(frame) + after);
    RunAppend(QUIET, before, ItemText(frame) + after);
    ItemRuns(frame, after);
  }

  /** What a listener of the stream is told: the notifications around the built one are undisturbed. */
  lemma EmbeddedNotification(before: string, frame: Item, after: string, chunks: seq<string>, osc: RawOsc)
    requires frame.Frame? && ItemOk(frame) && ParseBody(frame.body) == Some(osc)
    requires Run(QUIET, before).0 == QUIET
    requires Flatten(chunks) == before + ItemText(frame) + after
    ensures Notifications(RunChunks(QUIET, chunks).1) ==
            Notifications(Run(QUIET, before).1) + Notifications([osc]) + Notifications(Run(QUIET, after).1)
  {
    hide Run, RunChunks, Notifications, ParseBody, ItemText, ItemOk, Flatten;
    EmbeddedFrameScans(before, frame, after, chunks);
    assert RunChunks(QUIET, chunks).1 == Run(QUIET, before).1 + ([osc] + Run(QUIET, after).1);
    var a, b := Run(QUIET, before).1, Run(QUIET, after).1;
    NotificationsAppend(a, [osc] + b);
    NotificationsAppend([osc], b);
  }

  /** The same for a sequence given by its code and data. */
  lemma EmbeddedOsc(before: string, code: string, value: nat, data: string, bel: bool, after: string,
                    chunks: seq<string>)
    requires Clean(code) && Clean(data) && |code| + 1 + |data| <= MAX_PENDING
    requires ';' !in code && ParseU16(code) == Some(value)
    requires Run(QUIET, before).0 == QUIET
    requires Flatten(chunks) == before + ItemText(Frame(code + ";" + data, bel)) + after
    ensures Notifications(RunChunks(QUIET, chunks).1) ==
            Notifications(Run(QUIET, before).1) + Notifications([RawOsc(value, data)]) +
            Notifications(Run(QUIET, after).1)
  {
    BodyParses(code, value, data);
    assert Clean(code + ";" + data);
    EmbeddedNotification(before, Frame(code + ";" + data, bel), after, chunks, RawOsc(value, data));
  }

  lemma NotificationOf(osc: RawOsc)
    ensures Notifications([osc]) ==
            match ParseNotification(osc) { case None => [] case Some(n) => [n] }
  {
  }

  /** OSC 9: the body comes back, and an empty one shows nothing. */
  lemma Osc9RoundTrip(before: string, body: string, after: string, chunks: seq<string>)
    requires Clean(body) && |"9;"| + |body| <= MAX_PENDING
    requires Run(QUIET, before).0 == QUIET
    requires Flatten(chunks) == before + BuildOsc9(body) + after
    ensures Notifications(RunChunks(QUIET, chunks).1) ==
            Notifications(Run(QUIET, before).1) +
            (if body == "" then [] else [ParsedNotification("", "", body)]) +
            Notifications(Run(QUIET, after).1)
  {
    hide Run, RunChunks, ParseU16;
    CodesParse();
    assert BuildOsc9(body) == ItemText(Frame("9" + ";" + body, true));
    EmbeddedOsc(before, "9", 9, body, true, after, chunks);
    NotificationOf(RawOsc(9, body));
  }

  lemma Osc777Parses(title: string, body: string)
    ensures ';' !in title ==>
              ParseOsc777("notify;" + title + ";" + body) ==
              if title == "" && body == "" then None else Some(ParsedNotification(title, "", body))
    ensures ';' in title ==>
              ParseOsc777("notify;" + title + ";" + body).Some? ==>
              ParseOsc777("notify;" + title + ";" + body).value.title != title
  {
    var data := "notify;" + title + ";" + body;
    var rest := data[|"notify;"|..];
    assert rest == title + ";" + body;
    if ';' !in title {
      SplitOnceAt(title, ';', body);
    } else {
      assert ';' in rest;
    }
  }

  /** OSC 777 gives back both fields exactly when the title has no semicolon. */
  lemma Osc777RoundTrip(before: string, title: string, body: string, after: string, chunks: seq<string>)
    requires Clean(title) && Clean(body) && |"777;notify;;"| + |title| + |body| <= MAX_PENDING
    requires title != "" || body != ""
    requires Run(QUIET, before).0 == QUIET
    requires Flatten(chunks) == before + BuildOsc777(title, body) + after
    ensures Notifications(RunChunks(QUIET, chunks).1) ==
            Notifications(Run(QUIET, before).1) + [ParsedNotification(title, "", body)] +
            Notifications(Run(QUIET, after).1)
            <==> ';' !in title
  {
    hide Run, RunChunks, ParseU16, ParseOsc777;
    var data := "notify;" + title + ";" + body;
    CodesParse();
    assert BuildOsc777(title, body) == ItemText(Frame("777" + ";" + data, true));
    EmbeddedOsc(before, "777", 777, data, true, after, chunks);
    NotificationOf(RawOsc(777, data));
    Osc777Parses(title, body);
    var shown := Notifications([RawOsc(777, data)]);
    assert shown == match ParseOsc777(data) case None => [] case Some(n) => [n];
    var a, b := Notifications(Run(QUIET, before).1), Notifications(Run(QUIET, after).1);
    var asked := ParsedNotification(title, "", body);
    if a + shown + b == a + [asked] + b {
      assert |shown| == 1;
      assert (a + shown + b)[|a|] == shown[0] && (a + [asked] + b)[|a|] == asked;
    }
  }

  lemma {:induction false} SplitAllWithout(text: string, separator: char)
    requires separator !in text
    ensures SplitAll(text, separator) == [text]
  {
    if text != "" {
      assert text[0] in text;
      SplitAllWithout(text[1..], separator);
      assert [text[0]] + text[1..] == text;
    }
  }

  lemma Osc99Parses(field: string, payload: string)
    requires ';' !in field && ':' !in field
    ensures ParseOsc99("p=" + field + ";" + payload) == if payload == "" then None else Some(Fill(field, payload))
  {
    var meta := "p=" + field;
    SplitOnceAt(meta, ';', payload);
    assert meta + [';'] + payload == "p=" + field + ";" + payload;
    SplitAllWithout(meta, ':');
    SplitOnceAt("p", '=', field);
    assert "p" + ['='] + field == meta;
    assert [meta][..0] == [];
  }

  /** OSC 99: the payload comes back in the field asked for. */
  lemma Osc99RoundTrip(before: string, field: string, payload: string, after: string, chunks: seq<string>)
    requires Clean(field) && Clean(payload) && |"99;p=;"| + |field| + |payload| <= MAX_PENDING
    requires ';' !in field && ':' !in field && payload != ""
    requires Run(QUIET, before).0 == QUIET
    requires Flatten(chunks) == before + BuildOsc99(field, payload) + after
    ensures Notifications(RunChunks(QUIET, chunks).1) ==
            Notifications(Run(QUIET, before).1) + [Fill(field, payload)] + Notifications(Run(QUIET, after).1)
  {
    hide Run, RunChunks, ParseU16, ParseOsc99;
    var data := "p=" + field + ";" + payload;
    CodesParse();
    assert BuildOsc99(field, payload) == ItemText(Frame("99" + ";" + data, false));
    EmbeddedOsc(before, "99", 99, data, false, after, chunks);
    NotificationOf(RawOsc(99, data));
    Osc99Parses(field, payload);
  }
}
