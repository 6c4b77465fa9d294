/** Terminal sequences spelled out in characters: which come through, and what each notification shows. */
module OscLaws {
  import opened Options
  import opened OscScanning
  import opened OscNotifications

  // ---------------------------------------------------------------- one sequence

  predicate Plain(text: string) {
    '\U{1B}' !in text && '\U{07}' !in text
  }

  /** Inside a body other bytes are kept, up to 8192 of them; one more and the sequence is given up. */
  lemma {:induction false} BodyRuns(body: string, data: string)
    requires Plain(data) && |body| <= 8192
    ensures Run(Config(InBody, body), data) ==
            (if |body| + |data| <= 8192 then Config(InBody, body + data) else QUIET, [])
    decreases |data|
  {
    if data == "" {
      assert body + data == body;
    } else {
      assert data[0] in data && forall c :: c in data[1..] ==> c in data;
      assert body + [data[0]] + data[1..] == body + data;
      if |body| < 8192 { BodyRuns(body + [data[0]], data[1..]); } else { PlainRuns(data[1..]); }
    }
  }

  lemma {:induction false} PlainRuns(data: string)
    requires '\U{1B}' !in data
    ensures Run(QUIET, data) == (QUIET, [])
  {
    if data != "" {
      assert data[0] in data && forall c :: c in data[1..] ==> c in data;
      PlainRuns(data[1..]);
    }
  }

  function Terminator(bel: bool): string {
    if bel then "\U{07}" else "\U{1B}\\"
  }

  /** A sequence ended by BEL, or by ESC and a backslash, comes through if its body fits; nothing else does. */
  lemma SequenceScans(body: string, bel: bool)
    requires Plain(body)
    ensures var (end, out) := Run(QUIET, "\U{1B}]" + body + Terminator(bel));
            out == if |body| <= 8192 then Prepend(ParseBody(body), []) else []
    ensures |body| <= 8192 ==> Run(QUIET, "\U{1B}]" + body + Terminator(bel)).0 == QUIET
  {
    var opening := "\U{1B}]";
    OpeningRuns();
    BodyRuns("", body);
    assert "" + body == body;
    hide ParseBody;
    TerminatorRuns(body, bel);
    hide Run;
    RunAppend(QUIET, opening, body);
    RunAppend(QUIET, opening + body, Terminator(bel));
  }

  lemma OpeningRuns()
    ensures Run(QUIET, "\U{1B}]") == (Config(InBody, ""), [])
  {
    var opening := "\U{1B}]";
    assert opening[1..] == "]" && opening[1..][1..] == "";
  }

  lemma TerminatorRuns(body: string, bel: bool)
    ensures Run(Config(InBody, body), Terminator(bel)) == (QUIET, Prepend(ParseBody(body), []))
    ensures Run(QUIET, Terminator(bel)).1 == []
  {
    hide ParseBody;
    var t := Terminator(bel);
    if bel {
      assert t[1..] == "";
    } else {
      assert t[1..] == "\\" && t[1..][1..] == "";
      assert Run(Config(BodyEsc, body), "\\") == (QUIET, Prepend(ParseBody(body), []));
      assert Run(QUIET, t).0 == Run(Config(EscArmed, ""), "\\").0 && Run(Config(EscArmed, ""), "\\").1 == [];
    }
  }

  // ---------------------------------------------------------------- code and data

  /** Reading digits from the front. */
  function Reading(digits: string, sofar: nat): nat
    requires forall i :: 0 <= i < |digits| ==> '0' <= digits[i] <= '9'
  {
    if digits == "" then sofar else Reading(digits[1..], 10 * sofar + (digits[0] as int - '0' as int))
  }

  lemma {:induction false} ReadingSnoc(digits: string, last: char, sofar: nat)
    requires forall i :: 0 <= i < |digits| ==> '0' <= digits[i] <= '9'
    requires '0' <= last <= '9'
    ensures Reading(digits + [last], sofar) == 10 * Reading(digits, sofar) + (last as int - '0' as int)
  {
    if digits == "" {
      assert (digits + [last])[1..] == "";
    } else {
      assert (digits + [last])[1..] == digits[1..] + [last];
      ReadingSnoc(digits[1..], last, 10 * sofar + (digits[0] as int - '0' as int));
    }
  }

  lemma {:induction false} ReadingIsValue(digits: string)
    requires forall i :: 0 <= i < |digits| ==> '0' <= digits[i] <= '9'
    ensures Reading(digits, 0) == Value(digits)
  {
    if digits != "" {
      var front, last := digits[..|digits| - 1], digits[|digits| - 1];
      assert digits == front + [last];
      ReadingIsValue(front);
      ReadingSnoc(front, last, 0);
    }
  }

  predicate IsNumber(digits: string, n: nat) {
    digits != "" && (forall i :: 0 <= i < |digits| ==> '0' <= digits[i] <= '9') && Reading(digits, 0) == n <= 65535
  }

  /** A number, with or without a plus sign. */
  predicate IsCode(code: string, n: nat) {
    IsNumber(if code != "" && code[0] == '+' then code[1..] else code, n)
  }

  lemma NumberParsesExactlyWhen(digits: string, n: nat)
    ensures IsNumber(digits, n) <==> ParseDigits(digits) == Some(n)
  {
    assert forall i :: 0 <= i < |digits| ==> (Digit(digits[i]) <==> '0' <= digits[i] <= '9');
    if forall i :: 0 <= i < |digits| ==> Digit(digits[i]) { ReadingIsValue(digits); }
  }

  /** A body is a decimal number below 65536, a semicolon, and the data, which may hold more of them. */
  lemma BodyParsesExactlyWhen(body: string, n: nat, data: string)
    ensures ParseBody(body) == Some(RawOsc(n, data)) <==>
            exists code :: body == code + ";" + data && ';' !in code && IsCode(code, n)
  {
    forall code ensures IsCode(code, n) <==> ParseU16(code) == Some(n) {
      NumberParsesExactlyWhen(WithoutSign(code), n);
    }
    hide ParseU16, IsCode;
    if ParseBody(body) == Some(RawOsc(n, data)) {
      var parts := SplitOnce(body, ';').value;
      assert body == parts.0 + ";" + data;
    }
    forall code | body == code + ";" + data && ';' !in code && IsCode(code, n)
      ensures ParseBody(body) == Some(RawOsc(n, data))
    {
      SplitOnceAt(code, ';', data);
    }
  }

  // ---------------------------------------------------------------- what is shown

  /** OSC 9 shows its data as the body. */
  lemma Osc9Shows(data: string)
    ensures ParseNotification(RawOsc(9, data)) ==
            if data == "" then None else Some(ParsedNotification("", "", data))
  {
  }

  lemma Osc777Splits(rest: string, title: string, body: string)
    requires SplitOnce(rest, ';') == Some((title, body)) || (SplitOnce(rest, ';').None? && rest == title && body == "")
    ensures ParseOsc777("notify;" + rest) ==
            if title == "" && body == "" then None else Some(ParsedNotification(title, "", body))
  {
    hide SplitOnce;
    assert ("notify;" + rest)[|"notify;"|..] == rest;
  }

  /** OSC 777 shows the text up to the first semicolon as the title, all of it when there is none. */
  lemma Osc777Shows(title: string, body: string, closed: bool)
    requires ';' !in title && (!closed ==> body == "")
    ensures ParseNotification(RawOsc(777, "notify;" + title + if closed then ";" + body else "")) ==
            if title == "" && body == "" then None else Some(ParsedNotification(title, "", body))
  {
    hide SplitOnce, ParseOsc777;
    var rest := title + if closed then ";" + body else "";
    assert "notify;" + title + (if closed then ";" + body else "") == "notify;" + rest;
    if closed {
      SplitOnceAt(title, ';', body);
      assert title + [';'] + body == rest;
    } else {
      assert rest == title;
    }
    Osc777Splits(rest, title, body);
  }

  lemma Osc777ShowsNothingElse(data: string)
    requires !("notify;" <= data)
    ensures ParseNotification(RawOsc(777, data)).None?
  {
  }

  function JoinWith(pieces: seq<string>, separator: char): string
    requires pieces != []
  {
    if |pieces| == 1 then pieces[0] else pieces[0] + [separator] + JoinWith(pieces[1..], separator)
  }

  lemma {:induction false} SplitAllStep(piece: string, separator: char, rest: string)
    requires separator !in piece
    ensures SplitAll(piece + [separator] + rest, separator) == [piece] + SplitAll(rest, separator)
  {
    var text := piece + [separator] + rest;
    if piece == "" {
      assert text[1..] == rest;
    } else {
      assert piece[0] in piece && forall c :: c in piece[1..] ==> c in piece;
      assert text[1..] == piece[1..] + [separator] + rest;
      SplitAllStep(piece[1..], separator, rest);
      assert [piece[0]] + piece[1..] == piece;
    }
  }

  lemma {:induction false} SplitAllExactly(pieces: seq<string>, separator: char)
    requires pieces != [] && forall i :: 0 <= i < |pieces| ==> separator !in pieces[i]
    ensures SplitAll(JoinWith(pieces, separator), separator) == pieces
  {
    if |pieces| == 1 {
      SplitAllWithout(pieces[0], separator);
    } else {
      SplitAllExactly(pieces[1..], separator);
      SplitAllStep(pieces[0], separator, JoinWith(pieces[1..], separator));
      assert pieces == [pieces[0]] + pieces[1..];
    }
  }

  lemma {:induction false} JoinIsWithout(pieces: seq<string>, separator: char, c: char)
    requires pieces != [] && c != separator && forall i :: 0 <= i < |pieces| ==> c !in pieces[i]
    ensures c !in JoinWith(pieces, separator)
  {
    if |pieces| > 1 { JoinIsWithout(pieces[1..], separator, c); }
  }

  lemma PairSelects(pair: string)
    ensures var parts := SplitOnce(pair, '=');
            parts.Some? && parts.value.0 == "p" <==> "p=" <= pair
    ensures "p=" <= pair ==> SplitOnce(pair, '=').value.1 == pair[2..]
  {
    if "p=" <= pair {
      assert pair == "p" + ['='] + pair[2..];
      SplitOnceAt("p", '=', pair[2..]);
    }
  }

  lemma {:induction false} FieldIsLast(before: seq<string>, field: string, after: seq<string>)
    requires forall i :: 0 <= i < |after| ==> !("p=" <= after[i])
    ensures FieldOf(before + ["p=" + field] + after) == field
    decreases |after|
  {
    var pairs := before + ["p=" + field] + after;
    PairSelects(pairs[|pairs| - 1]);
    if after == [] {
      assert pairs[|pairs| - 1] == "p=" + field && ("p=" + field)[2..] == field;
    } else {
      assert pairs[|pairs| - 1] == after[|after| - 1];
      assert pairs[..|pairs| - 1] == before + ["p=" + field] + after[..|after| - 1];
      FieldIsLast(before, field, after[..|after| - 1]);
    }
  }

  lemma {:induction false} FieldIsBody(pairs: seq<string>)
    requires forall i :: 0 <= i < |pairs| ==> !("p=" <= pairs[i])
    ensures FieldOf(pairs) == "body"
  {
    if pairs != [] {
      PairSelects(pairs[|pairs| - 1]);
      FieldIsBody(pairs[..|pairs| - 1]);
    }
  }

  lemma MetadataIsRead(pairs: seq<string>, payload: string)
    requires pairs != [] && forall i :: 0 <= i < |pairs| ==> ':' !in pairs[i] && ';' !in pairs[i]
    ensures ParseNotification(RawOsc(99, JoinWith(pairs, ':') + ";" + payload)) ==
            if payload == "" then None else Some(Fill(FieldOf(pairs), payload))
  {
    hide FieldOf, Fill;
    var meta := JoinWith(pairs, ':');
    SplitAllExactly(pairs, ':');
    JoinIsWithout(pairs, ':', ';');
    SplitOnceAt(meta, ';', payload);
    assert meta + [';'] + payload == meta + ";" + payload;
  }

  /** OSC 99 shows its payload in the field that the last `p=` of its colon-separated metadata names. */
  lemma Osc99Shows(before: seq<string>, field: string, after: seq<string>, payload: string)
    requires var pairs := before + ["p=" + field] + after;
             forall i :: 0 <= i < |pairs| ==> ':' !in pairs[i] && ';' !in pairs[i]
    requires forall i :: 0 <= i < |after| ==> !("p=" <= after[i])
    ensures ParseNotification(RawOsc(99, JoinWith(before + ["p=" + field] + after, ':') + ";" + payload)) ==
            if payload == "" then None
            else if field == "title" then Some(ParsedNotification(payload, "", ""))
            else if field == "subtitle" then Some(ParsedNotification("", payload, ""))
            else Some(ParsedNotification("", "", payload))
  {
    hide FieldOf, ParseNotification, JoinWith;
    FieldIsLast(before, field, after);
    MetadataIsRead(before + ["p=" + field] + after, payload);
  }

  /** And in the body when none does. */
  lemma Osc99ShowsBody(pairs: seq<string>, payload: string)
    requires pairs != [] && payload != ""
    requires forall i :: 0 <= i < |pairs| ==> ':' !in pairs[i] && ';' !in pairs[i] && !("p=" <= pairs[i])
    ensures ParseNotification(RawOsc(99, JoinWith(pairs, ':') + ";" + payload)) ==
            Some(ParsedNotification("", "", payload))
  {
    hide FieldOf, ParseNotification, JoinWith;
    FieldIsBody(pairs);
    MetadataIsRead(pairs, payload);
  }

  lemma Osc99NeedsSemicolon(data: string)
    requires ';' !in data
    ensures ParseNotification(RawOsc(99, data)).None?
  {
  }

  lemma OtherCodesShowNothing(osc: RawOsc)
    requires osc.code != 9 && osc.code != 777 && osc.code != 99
    ensures ParseNotification(osc).None?
  {
  }
}
