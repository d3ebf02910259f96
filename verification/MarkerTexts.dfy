/** Which texts the marker parser accepts, and what it makes of them. */
module MarkerTexts {
  import opened Fieldpath
  import opened Markers

  /** A marker as it stands in a text: the key, possibly with spaces in it, the value, and the space
      after it. */
  datatype Written = Written(key: string, markerType: MarkerType, value: string, space: char)

  /** The text without its spaces. */
  function Squeeze(s: string): string {
    if s == "" then "" else (if IsSpace(s[0]) then "" else [s[0]]) + Squeeze(s[1..])
  }

  /** The value closes the quotes and brackets it opens, closes nothing else, and has spaces only
      inside them; a backslash in quotes hides what follows it. */
  predicate Closes(v: string, inQuotes: bool, depth: nat, escaped: bool) {
    if v == "" then !inQuotes && depth == 0
    else
      var c, rest := v[0], v[1..];
      if c == '"' && !escaped then Closes(rest, !inQuotes, depth, escaped)
      else if c == '\\' && inQuotes && !escaped then Closes(rest, inQuotes, depth, true)
      else if (c == '{' || c == '[') && !inQuotes then Closes(rest, inQuotes, depth + 1, escaped)
      else if (c == '}' || c == ']') && !inQuotes then depth > 0 && Closes(rest, inQuotes, depth - 1, escaped)
      else (!IsSpace(c) || inQuotes || depth > 0) && Closes(rest, inQuotes, depth, escaped && !inQuotes)
  }

  predicate Legal(w: Written) {
    Squeeze(w.key) == KeyOf(w.markerType) && Closes(w.value, false, 0, false) && IsSpace(w.space)
  }

  function WrittenText(w: Written): string { w.key + "=" + w.value }

  function Lines(ws: seq<Written>): string {
    if ws == [] then "" else WrittenText(ws[0]) + [ws[0].space] + Lines(ws[1..])
  }

  /** A value in quotes is meant without them and unescaped, any other as it is. */
  function ValueOf(v: string): string {
    if LooksQuoted(v) && |v| > 1 then UnescapeFrom(v[1..|v| - 1], false) else v
  }

  function Meant(w: Written): Marker { Marker(w.markerType, KeyOf(w.markerType), ValueOf(w.value)) }

  function AllMeant(ws: seq<Written>): (r: seq<Marker>)
    ensures |r| == |ws|
  {
    seq(|ws|, i requires 0 <= i < |ws| => Meant(ws[i]))
  }

  // ------------------------------------------------------------------ spaces

  lemma {:induction false} SqueezeAppend(a: string, b: string)
    ensures Squeeze(a + b) == Squeeze(a) + Squeeze(b)
  {
    hide IsSpace;
    if a == "" {
      assert a + b == b;
    } else {
      assert (a + b)[1..] == a[1..] + b;
      SqueezeAppend(a[1..], b);
    }
  }

  lemma SqueezeOne(c: char)
    ensures Squeeze([c]) == if IsSpace(c) then "" else [c]
  {
    hide IsSpace;
    assert [c][1..] == "" && Squeeze("") == "";
  }

  lemma {:induction false} SqueezeTrimLeft(s: string)
    ensures Squeeze(TrimSpaceLeft(s)) == Squeeze(s)
  {
    hide IsSpace;
    if s != "" && IsSpace(s[0]) {
      SqueezeTrimLeft(s[1..]);
    }
  }

  lemma {:induction false} SqueezeTrimRight(s: string)
    ensures Squeeze(TrimSpaceRight(s)) == Squeeze(s)
  {
    hide IsSpace;
    if s != "" && IsSpace(s[|s| - 1]) {
      var n := |s| - 1;
      SqueezeTrimRight(s[..n]);
      assert s == s[..n] + [s[n]];
      SqueezeAppend(s[..n], [s[n]]);
      SqueezeOne(s[n]);
    }
  }

  lemma SqueezeTrim(s: string)
    ensures Squeeze(TrimSpace(s)) == Squeeze(s)
  {
    SqueezeTrimLeft(s);
    SqueezeTrimRight(TrimSpaceLeft(s));
  }

  lemma {:induction false} SqueezeNothing(s: string)
    requires forall i | 0 <= i < |s| :: !IsSpace(s[i])
    ensures Squeeze(s) == s
  {
    hide IsSpace;
    if s != "" {
      SqueezeNothing(s[1..]);
    }
  }

  lemma {:induction false} SqueezeKeeps(s: string, i: nat)
    requires i < |s| && !IsSpace(s[i])
    ensures s[i] in Squeeze(s)
  {
    hide IsSpace;
    if i > 0 {
      SqueezeKeeps(s[1..], i - 1);
    }
  }

  lemma KeySqueezed(t: MarkerType)
    ensures Squeeze(KeyOf(t)) == KeyOf(t)
  {
    KeyIsOrdinary(t);
    SqueezeNothing(KeyOf(t));
  }

  /** A closed value neither begins nor ends with a space. */
  lemma {:induction false} ClosedEnds(v: string, inQuotes: bool, depth: nat, escaped: bool)
    requires Closes(v, inQuotes, depth, escaped) && v != ""
    ensures !IsSpace(v[|v| - 1])
    ensures !inQuotes && depth == 0 ==> !IsSpace(v[0])
    decreases |v|
  {
    var c, rest := v[0], v[1..];
    if rest != "" {
      if c == '"' && !escaped {
        ClosedEnds(rest, !inQuotes, depth, escaped);
      } else if c == '\\' && inQuotes && !escaped {
        ClosedEnds(rest, inQuotes, depth, true);
      } else if (c == '{' || c == '[') && !inQuotes {
        ClosedEnds(rest, inQuotes, depth + 1, escaped);
      } else if (c == '}' || c == ']') && !inQuotes {
        ClosedEnds(rest, inQuotes, depth - 1, escaped);
      } else {
        ClosedEnds(rest, inQuotes, depth, escaped && !inQuotes);
      }
    }
  }

  lemma ClosedIsProcessed(v: string)
    requires Closes(v, false, 0, false)
    ensures ProcessValue(v) == Some(ValueOf(v))
  {
    hide IsSpace, UnescapeFrom;
    if v != "" {
      ClosedEnds(v, false, 0, false);
    }
    LoneQuoteIsOpen();
    assert LooksQuoted(v) && |v| == 1 ==> v == "\"";
  }

  lemma LoneQuoteIsOpen()
    ensures !Closes("\"", false, 0, false)
  {
    assert "\""[1..] == "";
  }

  // ---------------------------------------------------- legal texts are read

  lemma {:induction false} RunKeyText(st: State, k: string)
    requires st.current.None? && !st.inQuotes && st.bracketCount == 0 && !st.escaped
    requires forall i | 0 <= i < |k| :: KeyChar(k[i])
    ensures Run(st, k) == Go(st.(buffer := st.buffer + Squeeze(k)))
    decreases |k|
  {
    hide IsSpace, TrimSpace, MarkerTypeFromString, Feed, KeyChar, Squeeze;
    if k == "" {
      assert Squeeze("") == "" by { EmptySqueezed(); }
      assert st.buffer + "" == st.buffer;
    } else {
      var next := if IsSpace(k[0]) then st else Write(st, k[0]);
      FeedKeyChar(st, k[0]);
      RunKeyText(next, k[1..]);
      SqueezeFirst(st.buffer, k);
    }
  }

  predicate KeyChar(c: char) { IsSpace(c) || (Ordinary(c) && c != '=') }

  lemma SqueezeFirst(before: string, k: string)
    requires k != ""
    ensures before + Squeeze(k) == (if IsSpace(k[0]) then before else before + [k[0]]) + Squeeze(k[1..])
  {
    hide IsSpace;
    JoinFirst(before, if IsSpace(k[0]) then "" else [k[0]], Squeeze(k[1..]));
  }

  lemma JoinFirst(before: string, first: string, rest: string)
    ensures before + (first + rest) == before + first + rest
    ensures first == "" ==> before + first == before
  {
  }

  lemma FeedKeyChar(st: State, c: char)
    requires st.current.None? && !st.inQuotes && st.bracketCount == 0 && !st.escaped
    requires KeyChar(c)
    ensures Feed(st, c) == Go(if IsSpace(c) then st else Write(st, c))
  {
    hide IsSpace, TrimSpace, MarkerTypeFromString;
    SpaceIsNoMark(c);
  }

  lemma SpaceIsNoMark(c: char)
    ensures IsSpace(c) ==> c != '=' && c != '"' && c != '\\' && c != '{' && c != '[' && c != '}' && c != ']'
  {
  }

  lemma KeyTextIsOrdinary(k: string, t: MarkerType)
    requires Squeeze(k) == KeyOf(t)
    ensures forall i | 0 <= i < |k| :: KeyChar(k[i])
  {
    hide IsSpace, KeyOf;
    KeyIsOrdinary(t);
    forall i | 0 <= i < |k| && !IsSpace(k[i]) ensures Ordinary(k[i]) && k[i] != '=' {
      SqueezeKeeps(k, i);
    }
  }

  /** A value is read to its end. */
  lemma {:induction false} RunValue(st: State, v: string)
    requires st.current.Some? && st.bracketCount >= 0 && (st.escaped ==> st.inQuotes)
    requires Closes(v, st.inQuotes, st.bracketCount, st.escaped)
    ensures Run(st, v) == Go(st.(buffer := st.buffer + v, inQuotes := false, bracketCount := 0, escaped := false))
    decreases |v|
  {
    hide IsSpace, TrimSpace, MarkerTypeFromString;
    if v == "" {
      assert st.buffer + "" == st.buffer;
    } else {
      assert Feed(st, v[0]).Go?;
      var next := Feed(st, v[0]).next;
      RunValue(next, v[1..]);
      assert st.buffer + [v[0]] + v[1..] == st.buffer + v;
    }
  }

  lemma RunWritten(result: seq<Marker>, w: Written)
    requires Legal(w)
    ensures Run(Between(result), WrittenText(w)) == Go(Reading(result, w.markerType, false, w.value))
    ensures Complete(Reading(result, w.markerType, false, w.value)) == Go(Between(result + [Meant(w)]))
  {
    hide Run, IsSpace, KeyOf, TrimSpace, UnescapeFrom, ProcessValue, ValueOf;
    var st, t := Between(result), w.markerType;
    KeyTextIsOrdinary(w.key, t);
    RunKeyText(st, w.key);
    assert "" + KeyOf(t) == KeyOf(t);
    KeyIsOrdinary(t);
    var keyed := st.(buffer := KeyOf(t));
    RunAppend(st, w.key, "=");
    OneRun(keyed, '=');
    RunAppend(st, w.key + "=", w.value);
    RunValue(Reading(result, t, false, ""), w.value);
    assert "" + w.value == w.value;
    ClosedIsProcessed(w.value);
  }

  lemma {:induction false} RunLines(result: seq<Marker>, ws: seq<Written>)
    requires forall i | 0 <= i < |ws| :: Legal(ws[i])
    ensures Run(Between(result), Lines(ws)) == Go(Between(result + AllMeant(ws)))
    decreases |ws|
  {
    hide Run, Complete, Legal, Meant, WrittenText, Feed;
    if ws == [] {
      EmptyRun(Between(result));
      assert result + AllMeant(ws) == result;
    } else {
      var w, rest := ws[0], ws[1..];
      RunWritten(result, w);
      SpaceCompletes(result, w);
      RunAppend(Between(result), WrittenText(w), [w.space]);
      RunAppend(Between(result), WrittenText(w) + [w.space], Lines(rest));
      RunLines(result + [Meant(w)], rest);
      assert result + [Meant(w)] + AllMeant(rest) == result + AllMeant(ws);
    }
  }

  lemma SpaceCompletes(result: seq<Marker>, w: Written)
    requires Legal(w)
    ensures Run(Reading(result, w.markerType, false, w.value), [w.space]) == Go(Between(result + [Meant(w)]))
  {
    hide Run, Complete, Meant, WrittenText, Closes, IsSpace, Squeeze, KeyOf, MarkerTypeFromString, TrimSpace;
    RunWritten(result, w);
    SpaceIsNoMark(w.space);
    OneRun(Reading(result, w.markerType, false, w.value), w.space);
  }

  // ------------------------------------------- whatever is read is a legal text

  /** Before a marker opens, a text either is inert or has the `=` that opens it. */
  lemma {:induction false} OpensOrInert(st: State, s: string) returns (i: nat)
    requires st.current.None? && st.bracketCount >= 0 && ParseFrom(st, s).Parsed?
    ensures i <= |s| && (i == |s| ==> Inert(s, st.inQuotes, st.bracketCount, st.escaped))
    ensures i < |s| ==> s[i] == '=' && Run(st, s[..i]).Go? && OpensFrom(st, Run(st, s[..i]).next, s[..i])
    decreases |s|
  {
    hide TrimSpace, MarkerTypeFromString, UnescapeFrom, IsSpace, KeyOf, Squeeze;
    if s == "" {
      return 0;
    }
    var next := Feed(st, s[0]).next;
    if next.current.Some? {
      i := 0;
      assert s[..0] == "" && Squeeze("") == "" by { EmptySqueezed(); }
      assert Squeeze(st.buffer) + "" == Squeeze(st.buffer);
    } else {
      i := OpensOrInert(next, s[1..]);
      if i < |s| - 1 {
        FeedSqueezes(st, s[0]);
        assert s[..i + 1] == [s[0]] + s[1..][..i] && s[..i + 1][1..] == s[1..][..i];
        SqueezeAppend([s[0]], s[1..][..i]);
        assert Squeeze(st.buffer) + Squeeze([s[0]]) + Squeeze(s[1..][..i]) == Squeeze(st.buffer) + Squeeze(s[..i + 1]);
      }
      i := i + 1;
    }
  }

  /** Ready for the `=`; what was not a space is in the buffer. */
  predicate OpensFrom(st: State, m: State, before: string) {
    && m.current.None? && !m.inQuotes && m.bracketCount == 0 && m.result == st.result
    && Squeeze(m.buffer) == Squeeze(st.buffer) + Squeeze(before)
    && MarkerTypeFromString(TrimSpace(m.buffer)).Some?
  }

  lemma EmptySqueezed()
    ensures Squeeze("") == ""
  {
  }

  lemma FeedSqueezes(st: State, c: char)
    requires Feed(st, c).Go? && st.current.None? && Feed(st, c).next.current.None?
    ensures Squeeze(Feed(st, c).next.buffer) == Squeeze(st.buffer) + Squeeze([c])
    ensures Feed(st, c).next.result == st.result
  {
    hide TrimSpace, MarkerTypeFromString, UnescapeFrom, IsSpace, KeyOf, Squeeze;
    SqueezeOne(c);
    SqueezeAppend(st.buffer, [c]);
    assert Squeeze(st.buffer) + "" == Squeeze(st.buffer);
  }

  /** An open marker's value ends at the first space outside quotes and brackets, or with the text. */
  lemma {:induction false} ValueEnds(st: State, s: string) returns (j: nat)
    requires st.current.Some? && st.bracketCount >= 0 && (st.escaped ==> st.inQuotes) && ParseFrom(st, s).Parsed?
    ensures j <= |s| && Closes(s[..j], st.inQuotes, st.bracketCount, st.escaped) && (j < |s| ==> IsSpace(s[j]))
    decreases |s|
  {
    hide TrimSpace, MarkerTypeFromString, UnescapeFrom, IsSpace, KeyOf;
    j := 0;
    if s != "" {
      var c := s[0];
      SpaceIsNoMark(c);
      if IsSpace(c) && !st.inQuotes && st.bracketCount == 0 {
        assert s[..0] == "";
      } else {
        assert Feed(st, c).Go?;
        j := ValueEnds(Feed(st, c).next, s[1..]);
        j := j + 1;
        assert s[..j] == [c] + s[1..][..j - 1] && s[..j][1..] == s[1..][..j - 1];
      }
    }
  }

  /** How an accepted text is made up: markers with a space after each, and either one more or a rest
      that is dropped. */
  ghost predicate Spells(s: string, ms: seq<Marker>, ws: seq<Written>, rest: string, last: Option<Written>) {
    && (forall i | 0 <= i < |ws| :: Legal(ws[i])) && s == Lines(ws) + rest
    && match last
       case None => Inert(rest, false, 0, false) && ms == AllMeant(ws)
       case Some(w) => Legal(w) && rest == WrittenText(w) && ms == AllMeant(ws) + [Meant(w)]
  }

  lemma {:induction false} Spelled(result: seq<Marker>, s: string)
    returns (ms: seq<Marker>, ws: seq<Written>, rest: string, last: Option<Written>)
    requires ParseFrom(Between(result), s).Parsed?
    ensures Spells(s, ms, ws, rest, last) && ParseFrom(Between(result), s) == Parsed(result + ms)
    decreases |s|
  {
    hide Run, Feed, TrimSpace, MarkerTypeFromString, UnescapeFrom, IsSpace, KeyOf, Squeeze, Inert, Closes, ProcessValue,
      Spells, Legal, Meant, WrittenText;
    var st := Between(result);
    var i := OpensOrInert(st, s);
    if i == |s| {
      ms, ws, rest, last := [], [], s, None;
      InertIff(st, s);
      InertIsSpelled(s);
      assert result + [] == result;
    } else {
      var w, j := FirstWritten(result, s, i);
      if j == |s| {
        ms, ws, rest, last := [Meant(w)], [], s, Some(w);
        assert s[..j] == s;
        LastIsParsed(result, w);
        LastIsSpelled(w);
      } else {
        var tail := s[j + 1..];
        assert s == WrittenText(w) + [w.space] + tail;
        ThenTail(result, w, tail);
        ms, ws, rest, last := Spelled(result + [Meant(w)], tail);
        assert result + [Meant(w)] + ms == result + ([Meant(w)] + ms);
        MoreIsSpelled(w, tail, ms, ws, rest, last);
        ms, ws := [Meant(w)] + ms, [w] + ws;
      }
    }
  }

  lemma InertIsSpelled(s: string)
    requires Inert(s, false, 0, false)
    ensures Spells(s, [], [], s, None)
  {
    hide Inert;
    assert "" + s == s && AllMeant([]) == [];
  }

  lemma LastIsSpelled(w: Written)
    requires Legal(w)
    ensures Spells(WrittenText(w), [Meant(w)], [], WrittenText(w), Some(w))
  {
    hide Legal, WrittenText, Meant;
    assert "" + WrittenText(w) == WrittenText(w) && AllMeant([]) + [Meant(w)] == [Meant(w)];
  }

  lemma MoreIsSpelled(w: Written, tail: string, ms: seq<Marker>, ws: seq<Written>, rest: string, last: Option<Written>)
    requires Legal(w) && Spells(tail, ms, ws, rest, last)
    ensures Spells(WrittenText(w) + [w.space] + tail, [Meant(w)] + ms, [w] + ws, rest, last)
  {
    hide Legal, WrittenText, Meant, Inert;
    assert ([w] + ws)[1..] == ws;
    assert WrittenText(w) + [w.space] + (Lines(ws) + rest) == WrittenText(w) + [w.space] + Lines(ws) + rest;
    assert AllMeant([w] + ws) == [Meant(w)] + AllMeant(ws);
    assert last.Some? ==> [Meant(w)] + (AllMeant(ws) + [Meant(last.value)]) == AllMeant([w] + ws) + [Meant(last.value)];
  }

  lemma LastIsParsed(result: seq<Marker>, w: Written)
    requires Legal(w)
    ensures ParseFrom(Between(result), WrittenText(w)) == Parsed(result + [Meant(w)])
  {
    hide Run, Legal, WrittenText, Complete, Meant;
    RunWritten(result, w);
  }

  lemma ThenTail(result: seq<Marker>, w: Written, tail: string)
    requires Legal(w)
    ensures ParseFrom(Between(result), WrittenText(w) + [w.space] + tail)
         == ParseFrom(Between(result + [Meant(w)]), tail)
  {
    hide Run, Legal, WrittenText, Meant, Finish;
    RunWritten(result, w);
    SpaceCompletes(result, w);
    RunAppend(Between(result), WrittenText(w), [w.space]);
    RunAppend(Between(result), WrittenText(w) + [w.space], tail);
  }

  /** The first marker of an accepted text that is not inert; it ends at `j`. */
  lemma FirstWritten(result: seq<Marker>, s: string, i: nat) returns (w: Written, j: nat)
    requires ParseFrom(Between(result), s).Parsed? && i < |s| && s[i] == '='
    requires Run(Between(result), s[..i]).Go? && OpensFrom(Between(result), Run(Between(result), s[..i]).next, s[..i])
    ensures Legal(w) && j <= |s| && s[..j] == WrittenText(w) && (j < |s| ==> w.space == s[j])
  {
    hide Run, TrimSpace, UnescapeFrom, IsSpace, KeyOf, Squeeze, Inert, Closes, ProcessValue;
    var st := Between(result);
    var m := Run(st, s[..i]).next;
    var t := MarkerTypeFromString(TrimSpace(m.buffer)).value;
    KeyIs(TrimSpace(m.buffer), t);
    SqueezeTrim(m.buffer);
    KeySqueezed(t);
    assert Squeeze("") == "" by { EmptySqueezed(); }
    assert "" + Squeeze(s[..i]) == Squeeze(s[..i]);
    var v := s[i + 1..];
    assert s == s[..i] + "=" + v;
    RunAppend(st, s[..i], "=");
    OneRun(m, '=');
    RunAppend(st, s[..i] + "=", v);
    var open := Feed(m, '=').next;
    NotEscaped(st, s[..i]);
    var n := ValueEnds(open, v);
    j := i + 1 + n;
    w := Written(s[..i], t, v[..n], if n < |v| then v[n] else ' ');
    assert IsSpace(' ') by { SpaceIsSpace(); }
    assert s[..j] == s[..i] + "=" + v[..n];
  }

  lemma SpaceIsSpace()
    ensures IsSpace(' ')
  {
  }

  lemma KeyIs(key: string, t: MarkerType)
    requires MarkerTypeFromString(key) == Some(t)
    ensures key == KeyOf(t)
  {
  }

  /** Escapes last only in quotes. */
  lemma NotEscaped(st: State, s: string)
    requires Sane(st) && Run(st, s).Go?
    ensures Sane(Run(st, s).next)
  {
    RunKeepsSane(st, s);
  }

  /** Exactly the texts that are made up in this way are accepted, and for what they say. */
  lemma ParsedIff(s: string, ms: seq<Marker>)
    ensures ParseFrom(START, s) == Parsed(ms) <==> exists ws, rest, last :: Spells(s, ms, ws, rest, last)
  {
    hide Run, Spells;
    assert START == Between([]);
    if ParseFrom(START, s) == Parsed(ms) {
      var ms', ws, rest, last := Spelled([], s);
      assert [] + ms' == ms';
    }
    if ws, rest, last :| Spells(s, ms, ws, rest, last) {
      SpelledIsParsed(s, ms, ws, rest, last);
    }
  }

  lemma SpelledIsParsed(s: string, ms: seq<Marker>, ws: seq<Written>, rest: string, last: Option<Written>)
    requires Spells(s, ms, ws, rest, last)
    ensures ParseFrom(START, s) == Parsed(ms)
  {
    hide Run, Legal, WrittenText, Meant, Inert, Finish;
    assert START == Between([]);
    RunLines([], ws);
    assert [] + AllMeant(ws) == AllMeant(ws);
    RunAppend(START, Lines(ws), rest);
    match last
    case None => InertIff(Between(AllMeant(ws)), rest);
    case Some(w) => LastIsParsed(AllMeant(ws), w);
  }

  /** Spaces inside a key are ignored. */
  lemma SpaceInKey(t: MarkerType, i: nat)
    requires i <= |KeyOf(t)|
    ensures Squeeze(KeyOf(t)[..i] + (" " + KeyOf(t)[i..])) == KeyOf(t)
  {
    hide KeyOf, IsSpace, Squeeze;
    var k := KeyOf(t);
    KeyIsOrdinary(t);
    SqueezeNothing(k[..i]);
    SqueezeNothing(k[i..]);
    SqueezeOne(' ');
    assert IsSpace(' ') by { SpaceIsSpace(); }
    SqueezeAppend(" ", k[i..]);
    SqueezeAppend(k[..i], " " + k[i..]);
    assert k[..i] + ("" + k[i..]) == k;
  }

  /** Concretely: the three keys. */
  lemma KeysAreRead()
    ensures ParseFrom(START, "required=") == Parsed([Marker(Required, "required", "")])
    ensures ParseFrom(START, "default=") == Parsed([Marker(Default, "default", "")])
    ensures ParseFrom(START, "description=") == Parsed([Marker(Description, "description", "")])
  {
    KeyIsRead(Required);
    KeyIsRead(Default);
    KeyIsRead(Description);
    assert KeyOf(Required) + "=" == "required=" && KeyOf(Default) + "=" == "default=";
    assert KeyOf(Description) + "=" == "description=";
  }

  lemma KeyIsRead(t: MarkerType)
    ensures ParseFrom(START, KeyOf(t) + "=") == Parsed([Marker(t, KeyOf(t), "")])
  {
    hide Squeeze, ParseFrom, KeyOf;
    var w := Written(KeyOf(t), t, "", ' ');
    KeySqueezed(t);
    assert IsSpace(' ') by { SpaceIsSpace(); }
    LastIsParsed([], w);
    assert KeyOf(t) + "=" + "" == KeyOf(t) + "=";
    assert START == Between([]) && [] + [Meant(w)] == [Meant(w)];
  }

  /** Concretely: a space in the key, and one in brackets. */
  lemma SpacesAreRead()
    ensures ParseFrom(START, "re quired=[ ]") == Parsed([Marker(Required, "required", "[ ]")])
  {
    hide Squeeze, ParseFrom;
    var w := Written("re quired", Required, "[ ]", ' ');
    SpaceInKey(Required, 2);
    assert KeyOf(Required)[..2] + (" " + KeyOf(Required)[2..]) == "re quired";
    assert IsSpace(' ') by { SpaceIsSpace(); }
    assert "]"[1..] == "" && " ]"[1..] == "]" && "[ ]"[1..] == " ]";
    assert Closes("]", false, 1, false);
    assert Closes(" ]", false, 1, false);
    assert Legal(w);
    LastIsParsed([], w);
    assert START == Between([]) && WrittenText(w) == "re quired=[ ]" && [] + [Meant(w)] == [Meant(w)];
  }
}
