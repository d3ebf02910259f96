/** The marker parser of the simple schema: a machine over quotes, escapes and brackets.
    One `char` is one rune. */
module Markers {
  import opened Fieldpath

  datatype MarkerType = Required | Default | Description

  datatype Marker = Marker(markerType: MarkerType, key: string, value: string)

  /** `Panics` is the outcome of an input on which the source slices out of range. */
  datatype Outcome = Parsed(markers: seq<Marker>) | Failed | Panics

  function KeyOf(t: MarkerType): string {
    match t
    case Required => "required"
    case Default => "default"
    case Description => "description"
  }

  function MarkerTypeFromString(s: string): Option<MarkerType> {
    if s == "required" then Some(Required)
    else if s == "default" then Some(Default)
    else if s == "description" then Some(Description)
    else None
  }

  /** `unicode.IsSpace`. */
  predicate IsSpace(c: char) {
    || c == ' ' || '\t' <= c <= '\r' || c == '\U{85}' || c == '\U{A0}' || c == '\U{1680}'
    || '\U{2000}' <= c <= '\U{200A}' || c == '\U{2028}' || c == '\U{2029}' || c == '\U{202F}'
    || c == '\U{205F}' || c == '\U{3000}'
  }

  function TrimSpaceLeft(s: string): string {
    if s != "" && IsSpace(s[0]) then TrimSpaceLeft(s[1..]) else s
  }

  function TrimSpaceRight(s: string): string {
    if s != "" && IsSpace(s[|s| - 1]) then TrimSpaceRight(s[..|s| - 1]) else s
  }

  /** `strings.TrimSpace`. */
  function TrimSpace(s: string): string { TrimSpaceRight(TrimSpaceLeft(s)) }

  // ------------------------------------------------------------ unescaping

  function UnescapeFrom(s: string, escaped: bool): string {
    if s == "" then ""
    else if escaped then
      (if s[0] != '"' && s[0] != '\\' then "\\" else "") + [s[0]] + UnescapeFrom(s[1..], false)
    else if s[0] == '\\' then UnescapeFrom(s[1..], true)
    else [s[0]] + UnescapeFrom(s[1..], false)
  }

  /** `unescapeString`. */
  method UnescapeString(s: string) returns (result: string)
    ensures result == UnescapeFrom(s, false)
  {
    hide UnescapeFrom;
    result := "";
    var escaped := false;
    for i := 0 to |s|
      invariant UnescapeFrom(s, false) == result + UnescapeFrom(s[i..], escaped)
    {
      var char_ := s[i];
      UnescapeNext(result, s[i..], escaped);
      if escaped {
        if char_ != '"' && char_ != '\\' {
          result := result + "\\";
        }
        result := result + [char_];
        escaped := false;
      } else if char_ == '\\' {
        escaped := true;
      } else {
        result := result + [char_];
      }
    }
    UnescapeEnd(s[|s|..], escaped);
  }

  lemma UnescapeEnd(s: string, escaped: bool)
    requires s == ""
    ensures UnescapeFrom(s, escaped) == ""
  {
  }

  lemma UnescapeNext(before: string, s: string, escaped: bool)
    requires s != ""
    ensures before + UnescapeFrom(s, escaped) ==
      if escaped then
        before + (if s[0] != '"' && s[0] != '\\' then "\\" else "") + [s[0]] + UnescapeFrom(s[1..], false)
      else if s[0] == '\\' then before + UnescapeFrom(s[1..], true)
      else before + [s[0]] + UnescapeFrom(s[1..], false)
  {
  }

  /** A quote or backslash gets a backslash in front. */
  function Escaped(v: string): string {
    if v == "" then "" else EscapedChar(v[0]) + Escaped(v[1..])
  }

  function EscapedChar(c: char): string { if c == '"' || c == '\\' then ['\\', c] else [c] }

  lemma UnescapeChar(c: char, rest: string)
    ensures UnescapeFrom(EscapedChar(c) + rest, false) == [c] + UnescapeFrom(rest, false)
  {
    var s := EscapedChar(c) + rest;
    if c == '"' || c == '\\' {
      assert s[1..] == [c] + rest && ([c] + rest)[1..] == rest;
      assert UnescapeFrom(s, false) == UnescapeFrom(s[1..], true);
      assert "" + [c] == [c];
    } else {
      assert s[1..] == rest;
    }
  }

  lemma {:induction false} UnescapeUndoesEscape(v: string)
    ensures UnescapeFrom(Escaped(v), false) == v
  {
    hide UnescapeFrom, EscapedChar;
    if v == "" {
      assert UnescapeFrom("", false) == "" by { NothingEscaped(); }
    } else {
      UnescapeChar(v[0], Escaped(v[1..]));
      UnescapeUndoesEscape(v[1..]);
    }
  }

  /** A backslash before any other character stays, and one at the very end is lost. */
  lemma OtherEscapesStay(c: char, rest: string)
    requires c != '"' && c != '\\'
    ensures UnescapeFrom(['\\', c] + rest, false) == ['\\', c] + UnescapeFrom(rest, false)
    ensures UnescapeFrom("\\", false) == ""
  {
    var s := ['\\', c] + rest;
    assert s[1..] == [c] + rest && s[1..][1..] == rest;
    assert UnescapeFrom(s, false) == UnescapeFrom(s[1..], true);
    assert "\\" + [c] + UnescapeFrom(rest, false) == ['\\', c] + UnescapeFrom(rest, false);
    assert "\\"[1..] == "";
  }

  lemma NothingEscaped()
    ensures UnescapeFrom("", false) == ""
  {
  }

  /** `value` starts and ends with a quote, which may be the same one. */
  predicate LooksQuoted(value: string) { value != "" && value[0] == '"' && value[|value| - 1] == '"' }

  /** `processValue`; `None` where the slice is out of range. */
  function ProcessValue(value: string): Option<string> {
    if LooksQuoted(value) then
      if |value| == 1 then None else Some(UnescapeFrom(value[1..|value| - 1], false))
    else Some(TrimSpace(value))
  }

  // ------------------------------------------------------------- the machine

  datatype State = State(
    result: seq<Marker>, current: Option<MarkerType>, inQuotes: bool, bracketCount: int,
    buffer: string, escaped: bool)

  datatype Step = Go(next: State) | Stop | Panic

  const START := State([], None, false, 0, "", false)

  function Write(st: State, c: char): State { st.(buffer := st.buffer + [c]) }

  /** The marker is complete. */
  function Complete(st: State): Step
    requires st.current.Some?
  {
    match ProcessValue(st.buffer)
    case None => Panic
    case Some(v) =>
      Go(st.(result := st.result + [Marker(st.current.value, KeyOf(st.current.value), v)], current := None,
             buffer := ""))
  }

  /** One character. */
  function Feed(st: State, c: char): Step {
    var plain := !st.inQuotes && st.bracketCount == 0;
    if c == '=' && st.current.None? && plain then
      var key := TrimSpace(st.buffer);
      match MarkerTypeFromString(key)
      case None => Stop
      case Some(t) => Go(st.(current := Some(t), buffer := ""))
    else if c == '"' && !st.escaped then Go(Write(st, c).(inQuotes := !st.inQuotes))
    else if c == '\\' && st.inQuotes && !st.escaped then Go(Write(st, c).(escaped := true))
    else if (c == '{' || c == '[') && !st.inQuotes then Go(Write(st, c).(bracketCount := st.bracketCount + 1))
    else if (c == '}' || c == ']') && !st.inQuotes then
      if st.bracketCount - 1 < 0 then Stop else Go(Write(st, c).(bracketCount := st.bracketCount - 1))
    else if IsSpace(c) && plain then
      if st.current.Some? then Complete(st) else Go(st)
    else Go(Write(st, c).(escaped := st.escaped && !st.inQuotes))
  }

  function Run(st: State, s: string): Step
    decreases |s|
  {
    if s == "" then Go(st)
    else match Feed(st, s[0])
      case Go(next) => Run(next, s[1..])
      case other => other
  }

  /** The end of the input. */
  function Finish(st: State): Outcome {
    if st.current.Some? && Complete(st).Panic? then Panics
    else if st.inQuotes || st.bracketCount > 0 then Failed
    else if st.current.Some? then Parsed(Complete(st).next.result)
    else Parsed(st.result)
  }

  function ParseFrom(st: State, s: string): Outcome {
    match Run(st, s)
    case Stop => Failed
    case Panic => Panics
    case Go(last) => Finish(last)
  }

  /** `parseMarkers`: the loop over the characters, with its flags and its buffer. */
  method ParseMarkers(markers: string) returns (r: Outcome)
    ensures r == ParseFrom(START, markers)
  {
    hide Feed, Finish, ProcessValue, TrimSpace, MarkerTypeFromString;
    var st := START;
    for i := 0 to |markers|
      invariant Run(START, markers) == Run(st, markers[i..])
    {
      assert markers[i..][0] == markers[i] && markers[i..][1..] == markers[i + 1..];
      var step := FeedStep(st, markers[i]);
      match step {
        case Stop => return Failed;
        case Panic => return Panics;
        case Go(next) => st := next;
      }
    }
    r := FinishStep(st);
  }

  /** The switch of the loop, on the flags and the buffer. */
  method FeedStep(st: State, char_: char) returns (step: Step)
    ensures step == Feed(st, char_)
  {
    hide TrimSpace, KeyOf, UnescapeFrom, IsSpace;
    var result, currentMarker, inQuotes := st.result, st.current, st.inQuotes;
    var bracketCount, buffer, escaped := st.bracketCount, st.buffer, st.escaped;
    if char_ == '=' && currentMarker == None && !inQuotes && bracketCount == 0 {
      var key := TrimSpace(buffer);
      if key == "" {
        return Stop;
      }
      var markerType := MarkerTypeFromString(key);
      if markerType == None {
        return Stop;
      }
      currentMarker, buffer := markerType, "";
    } else if char_ == '"' && !escaped {
      inQuotes := !inQuotes;
      buffer := buffer + [char_];
    } else if char_ == '\\' && inQuotes && !escaped {
      escaped := true;
      buffer := buffer + [char_];
    } else if (char_ == '{' || char_ == '[') && !inQuotes {
      bracketCount := bracketCount + 1;
      buffer := buffer + [char_];
    } else if (char_ == '}' || char_ == ']') && !inQuotes {
      bracketCount := bracketCount - 1;
      buffer := buffer + [char_];
      if bracketCount < 0 {
        return Stop;
      }
    } else if IsSpace(char_) && !inQuotes && bracketCount == 0 {
      if currentMarker.Some? {
        var value, panics := ProcessValueStep(buffer);
        if panics {
          return Panic;
        }
        result := result + [Marker(currentMarker.value, KeyOf(currentMarker.value), value)];
        currentMarker, buffer := None, "";
      }
    } else {
      if escaped && inQuotes {
        escaped := false;
      }
      buffer := buffer + [char_];
    }
    return Go(State(result, currentMarker, inQuotes, bracketCount, buffer, escaped));
  }

  method ProcessValueStep(value: string) returns (r: string, panics: bool)
    ensures panics <==> ProcessValue(value) == None
    ensures !panics ==> ProcessValue(value) == Some(r)
  {
    if |value| > 0 && value[0] == '"' && value[|value| - 1] == '"' {
      if |value| - 1 < 1 {
        return "", true;
      }
      r := UnescapeString(value[1..|value| - 1]);
      return r, false;
    }
    return TrimSpace(value), false;
  }

  method FinishStep(st: State) returns (r: Outcome)
    ensures r == Finish(st)
  {
    var result := st.result;
    if st.current.Some? {
      var value, panics := ProcessValueStep(st.buffer);
      if panics {
        return Panics;
      }
      result := result + [Marker(st.current.value, KeyOf(st.current.value), value)];
    }
    if st.inQuotes {
      return Failed;
    }
    if st.bracketCount > 0 {
      return Failed;
    }
    return Parsed(result);
  }

  // ------------------------------------------------------ when the source panics

  /** Escapes occur only in quotes; with a marker open, the buffer is empty only outside quotes
      and a lone quote only inside. */
  predicate Sane(st: State) {
    && (st.escaped ==> st.inQuotes)
    && (st.current.Some? ==> (st.buffer == "" ==> !st.inQuotes) && (st.buffer == "\"" ==> st.inQuotes))
  }

  lemma LoneQuote(b: string, c: char)
    ensures b + [c] == "\"" <==> b == "" && c == '"'
    ensures b + [c] != ""
  {
    assert (b + [c])[|b|] == c;
    if b == "" {
      assert b + [c] == [c];
    }
  }

  lemma FeedKeepsSane(st: State, c: char)
    requires Sane(st)
    ensures !Feed(st, c).Panic?
    ensures Feed(st, c).Go? ==> Sane(Feed(st, c).next)
  {
    hide TrimSpace, UnescapeFrom, MarkerTypeFromString;
    LoneQuote(st.buffer, c);
    assert LooksQuoted(st.buffer) && |st.buffer| == 1 ==> st.buffer == "\"";
  }

  lemma {:induction false} RunKeepsSane(st: State, s: string)
    requires Sane(st)
    ensures !Run(st, s).Panic?
    ensures Run(st, s).Go? ==> Sane(Run(st, s).next)
    decreases |s|
  {
    hide Feed, Sane;
    if s != "" {
      FeedKeepsSane(st, s[0]);
      if Feed(st, s[0]).Go? {
        RunKeepsSane(Feed(st, s[0]).next, s[1..]);
      }
    }
  }

  lemma {:induction false} RunAppend(st: State, a: string, b: string)
    ensures Run(st, a + b) == match Run(st, a) { case Go(mid) => Run(mid, b) case other => other }
    decreases |a|
  {
    hide Feed;
    if a == "" {
      assert a + b == b;
    } else {
      assert (a + b)[1..] == a[1..] + b;
      if Feed(st, a[0]).Go? {
        RunAppend(Feed(st, a[0]).next, a[1..], b);
      }
    }
  }

  /** The input so far ends in a `=` that closed a known key. */
  predicate KeyJustRead(s: string) {
    var r := Run(START, s);
    r.Go? && r.next.current.Some? && r.next.buffer == ""
  }

  /** The source panics exactly on inputs that end in a quote right after the `=` of a marker: such
      an input ends in `="`. */
  lemma PanicsIff(s: string)
    ensures ParseFrom(START, s).Panics? <==> s != "" && s[|s| - 1] == '"' && KeyJustRead(s[..|s| - 1])
    ensures ParseFrom(START, s).Panics? ==> |s| >= 2 && s[|s| - 2] == '='
  {
    hide Run, UnescapeFrom, TrimSpace;
    RunKeepsSane(START, s);
    if s == "" {
      assert Run(START, s) == Go(START) by { EmptyRun(START); }
    } else {
      var p, c := s[..|s| - 1], s[|s| - 1];
      assert s == p + [c];
      RunAppend(START, p, [c]);
      RunKeepsSane(START, p);
      if Run(START, p).Go? {
        OneRun(Run(START, p).next, c);
        LastQuote(Run(START, p).next, c);
      }
      if KeyJustRead(p) {
        KeyJustReadEndsInEquals(p);
      }
    }
  }

  lemma KeyJustReadEndsInEquals(s: string)
    requires KeyJustRead(s)
    ensures s != "" && s[|s| - 1] == '='
  {
    hide Run, UnescapeFrom, TrimSpace, Feed;
    EmptyRun(START);
    if s != "" {
      var p, c := s[..|s| - 1], s[|s| - 1];
      assert s == p + [c];
      RunAppend(START, p, [c]);
      if Run(START, p).Go? {
        OneRun(Run(START, p).next, c);
        OnlyEqualsOpens(Run(START, p).next, c);
      }
    }
  }

  lemma OnlyEqualsOpens(st: State, c: char)
    requires Feed(st, c).Go? && Feed(st, c).next.current.Some? && Feed(st, c).next.buffer == ""
    ensures c == '='
  {
    hide TrimSpace, UnescapeFrom, MarkerTypeFromString, KeyOf;
    LoneQuote(st.buffer, c);
  }

  /** Concretely: a marker whose value is a single quote. */
  lemma LoneQuotePanics(t: MarkerType)
    ensures ParseFrom(START, KeyOf(t) + "=" + "\"").Panics?
  {
    hide Run, KeyOf;
    var s := KeyOf(t) + "=" + "\"";
    RunKey([], t);
    assert s[..|s| - 1] == KeyOf(t) + "=";
    PanicsIff(s);
  }

  lemma EmptyRun(st: State)
    ensures Run(st, "") == Go(st)
  {
  }

  lemma OneRun(st: State, c: char)
    ensures Run(st, [c]) == Feed(st, c)
  {
    hide Feed;
    assert [c][1..] == "";
    if Feed(st, c).Go? {
      EmptyRun(Feed(st, c).next);
    }
  }

  lemma LastQuote(st: State, c: char)
    requires Sane(st)
    ensures Feed(st, c).Go? && Finish(Feed(st, c).next).Panics? <==> c == '"' && st.current.Some? && st.buffer == ""
  {
    hide TrimSpace, UnescapeFrom, MarkerTypeFromString;
    LoneQuote(st.buffer, c);
    var r := Feed(st, c);
    if r.Go? {
      assert LooksQuoted(r.next.buffer) && |r.next.buffer| == 1 <==> r.next.buffer == "\"";
    }
  }

  // ---------------------------------------------------------------- round trip

  /** A marker as a user writes it: quoted with escapes, or bare. */
  datatype Item = Quoted(markerType: MarkerType, value: string) | Bare(markerType: MarkerType, value: string)

  predicate Ordinary(c: char) {
    !IsSpace(c) && c != '"' && c != '{' && c != '}' && c != '[' && c != ']'
  }

  /** A quoted value may hold anything; a bare one must not hold spaces, quotes or brackets. */
  predicate Printable(item: Item) {
    item.Bare? ==> forall i | 0 <= i < |item.value| :: Ordinary(item.value[i])
  }

  function ValueText(item: Item): string {
    match item
    case Quoted(_, v) => "\"" + Escaped(v) + "\""
    case Bare(_, v) => v
  }

  function ItemText(item: Item): string { KeyOf(item.markerType) + "=" + ValueText(item) }

  /** The items one after the other, each followed by a space. */
  function Text(items: seq<Item>): string {
    if items == [] then "" else ItemText(items[0]) + " " + Text(items[1..])
  }

  function Meaning(item: Item): Marker { Marker(item.markerType, KeyOf(item.markerType), item.value) }

  function Meanings(items: seq<Item>): (r: seq<Marker>)
    ensures |r| == |items|
  {
    seq(|items|, i requires 0 <= i < |items| => Meaning(items[i]))
  }

  /** Between two markers. */
  function Between(result: seq<Marker>): State { State(result, None, false, 0, "", false) }

  function Reading(result: seq<Marker>, t: MarkerType, inQuotes: bool, buffer: string): State {
    State(result, Some(t), inQuotes, 0, buffer, false)
  }

  /** Ordinary characters go to the buffer; `=` does so once the key is read. */
  lemma {:induction false} RunOrdinary(st: State, s: string)
    requires !st.inQuotes && !st.escaped
    requires forall i | 0 <= i < |s| :: Ordinary(s[i]) && (s[i] != '=' || st.current.Some?)
    ensures Run(st, s) == Go(st.(buffer := st.buffer + s))
    decreases |s|
  {
    hide IsSpace, TrimSpace, MarkerTypeFromString;
    if s == "" {
      assert st.buffer + s == st.buffer;
    } else {
      assert Ordinary(s[0]);
      assert Feed(st, s[0]) == Go(Write(st, s[0]));
      RunOrdinary(Write(st, s[0]), s[1..]);
      assert st.buffer + [s[0]] + s[1..] == st.buffer + s;
    }
  }

  /** An escaped value inside quotes goes to the buffer as it is, whatever it holds. */
  lemma {:induction false} RunEscaped(result: seq<Marker>, t: MarkerType, buffer: string, v: string)
    ensures Run(Reading(result, t, true, buffer), Escaped(v)) == Go(Reading(result, t, true, buffer + Escaped(v)))
    decreases |v|
  {
    hide Feed, Run, EscapedChar;
    var st := Reading(result, t, true, buffer);
    if v == "" {
      EmptyRun(st);
      assert buffer + "" == buffer;
    } else {
      var c := EscapedChar(v[0]);
      RunEscapedChar(result, t, buffer, v[0]);
      RunAppend(st, c, Escaped(v[1..]));
      RunEscaped(result, t, buffer + c, v[1..]);
      assert buffer + c + Escaped(v[1..]) == buffer + Escaped(v);
    }
  }

  lemma RunEscapedChar(result: seq<Marker>, t: MarkerType, buffer: string, c: char)
    ensures Run(Reading(result, t, true, buffer), EscapedChar(c)) ==
      Go(Reading(result, t, true, buffer + EscapedChar(c)))
  {
    hide IsSpace, TrimSpace, MarkerTypeFromString, Run;
    var st := Reading(result, t, true, buffer);
    if c == '"' || c == '\\' {
      assert ['\\', c] == ['\\'] + [c];
      RunAppend(st, ['\\'], [c]);
      OneRun(st, '\\');
      var mid := Write(st, '\\').(escaped := true);
      OneRun(mid, c);
      assert buffer + ['\\'] + [c] == buffer + ['\\', c];
    } else {
      OneRun(st, c);
    }
  }

  lemma KeyIsOrdinary(t: MarkerType)
    ensures forall i | 0 <= i < |KeyOf(t)| :: Ordinary(KeyOf(t)[i]) && KeyOf(t)[i] != '='
    ensures TrimSpace(KeyOf(t)) == KeyOf(t) && MarkerTypeFromString(KeyOf(t)) == Some(t)
  {
    OrdinaryUntrimmed(KeyOf(t));
  }

  lemma OrdinaryUntrimmed(s: string)
    requires forall i | 0 <= i < |s| :: Ordinary(s[i])
    ensures TrimSpace(s) == s
  {
  }

  lemma RunKey(result: seq<Marker>, t: MarkerType)
    ensures Run(Between(result), KeyOf(t) + "=") == Go(Reading(result, t, false, ""))
  {
    hide Run, KeyOf, TrimSpace, MarkerTypeFromString, Ordinary;
    var st := Between(result);
    KeyIsOrdinary(t);
    RunOrdinary(st, KeyOf(t));
    assert "" + KeyOf(t) == KeyOf(t);
    RunAppend(st, KeyOf(t), "=");
    OneRun(st.(buffer := KeyOf(t)), '=');
  }

  /** Key and value of one item are read; the marker is still open. */
  lemma RunItem(result: seq<Marker>, item: Item)
    requires Printable(item)
    ensures Run(Between(result), ItemText(item)) == Go(Reading(result, item.markerType, false, ValueText(item)))
  {
    hide Run, Feed, KeyOf, Escaped, Ordinary;
    var t := item.markerType;
    RunKey(result, t);
    RunAppend(Between(result), KeyOf(t) + "=", ValueText(item));
    var st := Reading(result, t, false, "");
    match item
    case Bare(_, v) =>
      RunOrdinary(st, v);
      assert "" + v == v;
    case Quoted(_, v) =>
      RunQuoted(result, t, v);
  }

  lemma RunQuoted(result: seq<Marker>, t: MarkerType, v: string)
    ensures Run(Reading(result, t, false, ""), "\"" + Escaped(v) + "\"") ==
      Go(Reading(result, t, false, "\"" + Escaped(v) + "\""))
  {
    hide Run, Escaped, TrimSpace, MarkerTypeFromString, IsSpace;
    var st := Reading(result, t, false, "");
    RunAppend(st, "\"" + Escaped(v), "\"");
    RunAppend(st, "\"", Escaped(v));
    OneRun(st, '"');
    assert "" + ['"'] == "\"";
    RunEscaped(result, t, "\"", v);
    OneRun(Reading(result, t, true, "\"" + Escaped(v)), '"');
  }

  lemma CompleteItem(result: seq<Marker>, item: Item)
    requires Printable(item)
    ensures Complete(Reading(result, item.markerType, false, ValueText(item))) == Go(Between(result + [Meaning(item)]))
  {
    hide UnescapeFrom, Escaped, TrimSpace;
    match item
    case Bare(_, v) =>
      OrdinaryUntrimmed(v);
      assert v != "" ==> Ordinary(v[0]);
    case Quoted(_, v) =>
      var text := ValueText(item);
      assert text[1..|text| - 1] == Escaped(v);
      UnescapeUndoesEscape(v);
  }

  lemma {:induction false} RunText(result: seq<Marker>, items: seq<Item>)
    requires forall i | 0 <= i < |items| :: Printable(items[i])
    ensures Run(Between(result), Text(items)) == Go(Between(result + Meanings(items)))
    decreases |items|
  {
    hide Run, ItemText, Complete, Printable, Meaning;
    if items == [] {
      EmptyRun(Between(result));
      assert result + Meanings(items) == result;
    } else {
      var item, rest := items[0], items[1..];
      RunItem(result, item);
      CompleteItem(result, item);
      var st := Reading(result, item.markerType, false, ValueText(item));
      OneRun(st, ' ');
      RunAppend(Between(result), ItemText(item), " ");
      RunAppend(Between(result), ItemText(item) + " ", Text(rest));
      RunText(result + [Meaning(item)], rest);
      assert result + [Meaning(item)] + Meanings(rest) == result + Meanings(items);
    }
  }

  /** Parsing undoes printing, with or without a space after the last marker: values in quotes
      may hold any text at all, quotes, backslashes, spaces, brackets and equal signs included. */
  lemma ParsePrinted(items: seq<Item>, last: Item)
    requires Printable(last) && forall i | 0 <= i < |items| :: Printable(items[i])
    ensures ParseFrom(START, Text(items)) == Parsed(Meanings(items))
    ensures ParseFrom(START, Text(items) + ItemText(last)) == Parsed(Meanings(items) + [Meaning(last)])
  {
    hide Run, ItemText, Printable, Complete, Meaning;
    RunText([], items);
    assert [] + Meanings(items) == Meanings(items);
    RunAppend(START, Text(items), ItemText(last));
    RunItem(Meanings(items), last);
    CompleteItem(Meanings(items), last);
  }

  /** The text has no `=` outside quotes and brackets, closes what it opens, and closes nothing else;
      a backslash hides what follows it inside quotes. */
  predicate Inert(s: string, inQuotes: bool, depth: nat, escaped: bool) {
    if s == "" then !inQuotes && depth == 0
    else
      var c, rest := s[0], s[1..];
      if c == '=' && !inQuotes && depth == 0 then false
      else if c == '"' && !escaped then Inert(rest, !inQuotes, depth, escaped)
      else if c == '\\' && inQuotes && !escaped then Inert(rest, inQuotes, depth, true)
      else if (c == '{' || c == '[') && !inQuotes then Inert(rest, inQuotes, depth + 1, escaped)
      else if (c == '}' || c == ']') && !inQuotes then depth > 0 && Inert(rest, inQuotes, depth - 1, escaped)
      else Inert(rest, inQuotes, depth, escaped && !inQuotes)
  }

  /** Markers are only added, and an open one is added, too, if there is no error. */
  lemma {:induction false} MarkersGrow(st: State, s: string)
    ensures ParseFrom(st, s).Parsed? ==> |ParseFrom(st, s).markers| >= |st.result| + if st.current.Some? then 1 else 0
    decreases |s|
  {
    hide TrimSpace, MarkerTypeFromString, UnescapeFrom, IsSpace, KeyOf;
    if s != "" && Feed(st, s[0]).Go? {
      MarkersGrow(Feed(st, s[0]).next, s[1..]);
    }
  }

  /** Between two markers a text leaves the result as it is exactly if it is inert. */
  lemma {:induction false} InertIff(st: State, s: string)
    requires st.current.None? && st.bracketCount >= 0
    ensures ParseFrom(st, s) == Parsed(st.result) <==> Inert(s, st.inQuotes, st.bracketCount, st.escaped)
    decreases |s|
  {
    hide TrimSpace, MarkerTypeFromString, UnescapeFrom, IsSpace, KeyOf;
    if s != "" && Feed(st, s[0]).Go? {
      var next := Feed(st, s[0]).next;
      if next.current.Some? {
        MarkersGrow(next, s[1..]);
      } else {
        InertIff(next, s[1..]);
      }
    }
  }

  /** Text after the last marker is dropped without an error exactly if it is inert. */
  lemma TrailingTextIsDroppedIff(items: seq<Item>, trailing: string)
    requires forall i | 0 <= i < |items| :: Printable(items[i])
    ensures ParseFrom(START, Text(items) + trailing) == Parsed(Meanings(items)) <==> Inert(trailing, false, 0, false)
  {
    hide Run, ItemText, Printable, Meaning, Inert;
    RunText([], items);
    assert [] + Meanings(items) == Meanings(items);
    RunAppend(START, Text(items), trailing);
    InertIff(Between(Meanings(items)), trailing);
  }
}
