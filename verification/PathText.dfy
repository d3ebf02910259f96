/** The two path printers and their round trips through the parser. */
module PathText {
  import opened Fieldpath

  /** One step into a resource: a map key or an array position. */
  datatype Step = Key(name: string) | At(index: nat)

  type Walk = seq<Step>

  function SegmentOf(st: Step): Segment {
    match st
    case Key(n) => Named(n)
    case At(i) => Indexed(i)
  }

  /** How the resolver reads a segment: any negative index is a key access. */
  function StepOf(s: Segment): Step {
    if s.index >= 0 then At(s.index) else Key(s.name)
  }

  function SegmentsOf(w: Walk): (r: seq<Segment>)
    ensures |r| == |w|
  {
    seq(|w|, i requires 0 <= i < |w| => SegmentOf(w[i]))
  }

  function StepsOf(segments: seq<Segment>): (w: Walk)
    ensures |w| == |segments|
  {
    seq(|segments|, i requires 0 <= i < |segments| => StepOf(segments[i]))
  }

  lemma StepsOfSegmentsOf(w: Walk)
    ensures StepsOf(SegmentsOf(w)) == w
  {
  }

  // ------------------------------------------------------------ the printers

  function HexDigit(n: nat): char
    requires n < 16
  {
    if n < 10 then Digit(n) else 'a' + (n - 10) as char
  }

  predicate NeedsEscape(c: char) {
    c == '"' || c == '\\' || c < ' ' || c == 0x7f as char
  }

  /** One byte under the `%q` verb. */
  function Escape(c: char): string {
    if !NeedsEscape(c) then [c]
    else if c == '"' then "\\\""
    else if c == '\\' then "\\\\"
    else if c == 7 as char then "\\a"
    else if c == 8 as char then "\\b"
    else if c == 9 as char then "\\t"
    else if c == 10 as char then "\\n"
    else if c == 11 as char then "\\v"
    else if c == 12 as char then "\\f"
    else if c == 13 as char then "\\r"
    else ['\\', 'x', HexDigit(c as int / 16), HexDigit(c as int % 16)]
  }

  function EscapeAll(s: string): string {
    if s == "" then "" else Escape(s[0]) + EscapeAll(s[1..])
  }

  /** `%q`. */
  function Quote(s: string): string { "\"" + EscapeAll(s) + "\"" }

  predicate Dotted(name: string) { name == "" || '.' in name }

  function JoinPathAndFieldName(path: string, name: string): string {
    if Dotted(name) then path + "[" + Quote(name) + "]"
    else if path == "" then name
    else path + "." + name
  }

  function ItemPath(path: string, i: nat): string { path + "[" + Itoa(i) + "]" }

  /** The path string a traversal has built when it has taken the steps `w`. */
  function PathOf(w: Walk): string {
    if w == [] then ""
    else match w[|w| - 1]
      case Key(n) => JoinPathAndFieldName(PathOf(w[..|w| - 1]), n)
      case At(i) => ItemPath(PathOf(w[..|w| - 1]), i)
  }

  // ------------------------------------------------- the text left to right

  function Piece(st: Step, first: bool): string {
    match st
    case Key(n) => if Dotted(n) then "[" + Quote(n) + "]" else if first then n else "." + n
    case At(i) => "[" + Itoa(i) + "]"
  }

  function Text(w: Walk, first: bool): string {
    if w == [] then "" else Piece(w[0], first) + Text(w[1..], false)
  }

  lemma TextNonEmpty(w: Walk, first: bool)
    ensures Text(w, first) == "" <==> w == []
  {
  }

  lemma {:induction false} TextSnoc(w: Walk, st: Step, first: bool)
    ensures Text(w + [st], first) == Text(w, first) + Piece(st, first && w == [])
  {
    if w == [] {
      assert [] + [st] == [st] && [st][1..] == [];
    } else {
      assert (w + [st])[1..] == w[1..] + [st];
      TextSnoc(w[1..], st, false);
    }
  }

  lemma JoinAppendsPiece(path: string, n: string)
    ensures JoinPathAndFieldName(path, n) == path + Piece(Key(n), path == "")
  {
    if Dotted(n) {
      assert path + "[" + Quote(n) + "]" == path + ("[" + Quote(n) + "]");
    } else if path == "" {
      assert path + n == n;
    } else {
      assert path + "." + n == path + ("." + n);
    }
  }

  lemma ItemAppendsPiece(path: string, i: nat)
    ensures ItemPath(path, i) == path + Piece(At(i), path == "")
  {
    assert path + "[" + Itoa(i) + "]" == path + ("[" + Itoa(i) + "]");
  }

  lemma {:induction false} PathOfIsText(w: Walk)
    ensures PathOf(w) == Text(w, true)
  {
    hide Piece, JoinPathAndFieldName, ItemPath;
    if w != [] {
      var init, st := w[..|w| - 1], w[|w| - 1];
      PathOfIsText(init);
      TextSnoc(init, st, true);
      TextNonEmpty(init, true);
      assert init + [st] == w;
      match st
      case Key(n) => JoinAppendsPiece(PathOf(init), n);
      case At(i) => ItemAppendsPiece(PathOf(init), i);
    }
  }

  // --------------------------------------------- what the parser does with it

  lemma IndexFirst(r: string, a: seq<Segment>, rest: string)
    requires IndexAhead(r) && ArrayIndex(r) == Token(a, rest)
    ensures Parse(r) == Prepend(a, Parse(SkipDot(rest)))
  {
    assert FieldPart(r) == Token([], r);
    assert [] + a == a;
  }

  /** A field token is followed by an optional dot, whatever comes next. */
  lemma FieldFirst(r: string, name: string, t: string)
    requires FieldPart(r) == Token([Named(name)], t) && |t| < |r|
    ensures Parse(r) == Prepend([Named(name)], Parse(SkipDot(t)))
  {
    if IndexAhead(t) {
      match ArrayIndex(t)
      case Bad =>
        assert Parse(t) == SyntaxError;
      case Token(b, rest) =>
        IndexFirst(t, b, rest);
        PrependPrepend([Named(name)], b, Parse(SkipDot(rest)));
    } else {
      assert [Named(name)] + [] == [Named(name)];
    }
  }

  lemma {:induction false} FindAfter(a: string, b: string, stops: set<char>)
    requires forall k | 0 <= k < |a| :: a[k] !in stops
    ensures Find(a + b, stops) == |a| + Find(b, stops)
  {
    if a == "" {
      assert a + b == b;
    } else {
      assert (a + b)[1..] == a[1..] + b;
      FindAfter(a[1..], b, stops);
    }
  }

  lemma NameStep(n: string, t: string)
    requires n != "" && '.' !in n && '[' !in n && |n + t| > 1
    requires t == "" || t[0] == '.' || t[0] == '['
    ensures Parse(n + t) == Prepend([Named(n)], Parse(SkipDot(t)))
  {
    FindAfter(n, t, {'.', '['});
    assert (n + t)[..|n|] == n && (n + t)[|n|..] == t;
    FieldFirst(n + t, n, t);
  }

  /** Where the parts of a bracketed token sit. */
  lemma Brackets(open: string, mid: string, close: string, t: string)
    ensures var r := open + mid + close + t;
      && r[|open|..] == mid + (close + t)
      && r[|open|..|open| + |mid|] == mid
      && r[|open| + |mid| + |close|..] == t
      && r[..|open|] == open
      && (forall k | 0 <= k < |close| :: r[|open| + |mid| + k] == close[k])
  {
  }

  lemma QuotedToken(q: string, t: string)
    requires '"' !in q
    ensures QuotedAhead("[\"" + q + "\"]" + t)
    ensures QuotedField("[\"" + q + "\"]" + t) == Token([Named(q)], t)
  {
    var open, close := "[\"", "\"]";
    var r := open + q + close + t;
    Brackets(open, q, close, t);
    assert r[0] == r[..2][0] && r[1] == r[..2][1];
    FindAfter(q, close + t, {'"'});
    assert Find(close + t, {'"'}) == 0;
    assert r[2 + |q| + 1] == close[1];
  }

  lemma QuotedStep(q: string, t: string)
    requires '"' !in q
    ensures Parse("[\"" + q + "\"]" + t) == Prepend([Named(q)], Parse(SkipDot(t)))
  {
    QuotedToken(q, t);
    FieldFirst("[\"" + q + "\"]" + t, q, t);
  }

  lemma IndexStep(i: nat, t: string)
    requires i <= MAX_INT
    ensures Parse("[" + Itoa(i) + "]" + t) == Prepend([Indexed(i)], Parse(SkipDot(t)))
  {
    AtoiOfItoa(i);
    BracketedNumber(Itoa(i), t);
    IndexFirst("[" + Itoa(i) + "]" + t, [Indexed(i)], t);
  }

  // ------------------------------------------------------------- round trips

  predicate NoEscape(s: string) {
    forall i | 0 <= i < |s| :: !NeedsEscape(s[i])
  }

  /** Steps whose printed form the parser reads back. */
  predicate CleanStep(st: Step) {
    match st
    case Key(n) => if Dotted(n) then NoEscape(n) else '[' !in n
    case At(i) => true
  }

  predicate Clean(w: Walk) { forall i | 0 <= i < |w| :: CleanStep(w[i]) }

  /** Array positions are Go `int`s. */
  predicate InRange(w: Walk) { forall i | 0 <= i < |w| && w[i].At? :: w[i].index <= MAX_INT }

  predicate ShortKey(st: Step) { st.Key? && !Dotted(st.name) && |st.name| == 1 }

  /** The path ends in an undotted name of one byte. */
  predicate EndsShort(w: Walk) { w != [] && ShortKey(w[|w| - 1]) }

  lemma {:induction false} EscapeAllClean(s: string)
    requires NoEscape(s)
    ensures EscapeAll(s) == s
  {
    if s != "" {
      EscapeAllClean(s[1..]);
    }
  }

  lemma PieceHead(st: Step)
    ensures SkipDot(Piece(st, false)) == Piece(st, true) && Piece(st, true) != ""
    ensures Piece(st, false) != "" && (Piece(st, false)[0] == '.' || Piece(st, false)[0] == '[')
  {
    match st
    case At(i) =>
    case Key(n) =>
  }

  lemma SkipDotAppend(a: string, b: string)
    requires a != ""
    ensures SkipDot(a + b) == SkipDot(a) + b && (a + b)[0] == a[0]
  {
  }

  lemma SkipDotText(w: Walk)
    ensures SkipDot(Text(w, false)) == Text(w, true)
    ensures w != [] ==> Text(w, false)[0] == '.' || Text(w, false)[0] == '['
  {
    if w != [] {
      PieceHead(w[0]);
      SkipDotAppend(Piece(w[0], false), Text(w[1..], false));
    }
  }

  lemma TextOfHead(w: Walk)
    requires w != []
    ensures Text(w, true) == Piece(w[0], true) + Text(w[1..], false)
    ensures Text(w[1..], false) == "" <==> |w| == 1
  {
    TextNonEmpty(w[1..], false);
  }

  lemma QuotedPiece(n: string)
    requires Dotted(n)
    ensures Piece(Key(n), true) == "[\"" + EscapeAll(n) + "\"]"
  {
  }

  lemma HeadKey(n: string, t: string)
    requires CleanStep(Key(n)) && (t == "" || t[0] == '.' || t[0] == '[')
    requires !(t == "" && ShortKey(Key(n)))
    ensures Parse(Piece(Key(n), true) + t) == Prepend([Named(n)], Parse(SkipDot(t)))
  {
    if Dotted(n) {
      EscapeAllClean(n);
      QuotedPiece(n);
      QuotedStep(n, t);
    } else {
      NameStep(n, t);
    }
  }

  /** One clean step of the printed text is read back as that step. */
  lemma CleanHead(w: Walk)
    requires w != [] && InRange(w) && CleanStep(w[0]) && !(|w| == 1 && ShortKey(w[0]))
    ensures Parse(Text(w, true)) == Prepend([SegmentOf(w[0])], Parse(Text(w[1..], true)))
  {
    var t := Text(w[1..], false);
    TextOfHead(w);
    SkipDotText(w[1..]);
    match w[0]
    case At(i) =>
      IndexStep(i, t);
    case Key(n) =>
      HeadKey(n, t);
  }

  lemma SegmentsCons(w: Walk)
    requires w != []
    ensures SegmentsOf(w) == [SegmentOf(w[0])] + SegmentsOf(w[1..])
  {
  }

  lemma SpinsAtShortKey(n: string)
    requires ShortKey(Key(n)) && CleanStep(Key(n))
    ensures Parse(n) == Spins
  {
    StuckIff(n);
    assert n[0] in n;
  }

  /** Reading back the text of a clean walk gives the walk, except that an undotted
      one-byte name at the very end makes the parser spin. */
  lemma {:induction false} ParseText(w: Walk)
    requires Clean(w) && InRange(w)
    ensures Parse(Text(w, true)) == if EndsShort(w) then Spins else Segments(SegmentsOf(w))
  {
    if w == [] {
      assert Text(w, true) == "";
    } else if |w| == 1 && ShortKey(w[0]) {
      TextOfHead(w);
      SpinsAtShortKey(w[0].name);
    } else {
      CleanHead(w);
      ParseText(w[1..]);
      SegmentsCons(w);
    }
  }

  // ----------------------------------------- and nothing else is read back

  predicate StartsWith(r: ParseResult, s: Segment) {
    r.Segments? && r.segments != [] && r.segments[0] == s
  }

  /** An undotted name with a bracket in it is cut short or taken for an index or a quoted name. */
  lemma BracketedNameLost(n: string, t: string)
    requires !Dotted(n) && '[' in n && (n == "[" ==> t == "" || t[0] == '.' || t[0] == '[')
    ensures !StartsWith(Parse(n + t), Named(n))
  {
    var r := n + t;
    if n[0] == '[' {
      if QuotedAhead(r) {
        assert r[1] == n[1] == '"';
        QuotedNameHasNoQuote(r);
      } else {
        IndexHasNoName(r);
      }
    } else {
      var k := Find(r, {'.', '['});
      var j :| 0 <= j < |n| && n[j] == '[';
      assert r[j] == '[';
      FieldFirst(r, r[..k], r[k..]);
      assert |r[..k]| < |n|;
    }
  }

  lemma QuotedNameHasNoQuote(r: string)
    requires QuotedAhead(r)
    ensures Parse(r).Segments? ==>
      Parse(r).segments != [] && '"' !in Parse(r).segments[0].name
  {
    var i := 2 + Find(r[2..], {'"'});
    match QuotedField(r)
    case Bad =>
    case Token(_, t) =>
      var q := r[2..i];
      FieldFirst(r, q, t);
      forall k | 0 <= k < |q| ensures q[k] != '"' {
        assert q[k] == r[2..][k];
      }
  }

  lemma IndexHasNoName(r: string)
    requires IndexAhead(r)
    ensures Parse(r).Segments? ==> Parse(r).segments != [] && Parse(r).segments[0].name == ""
  {
    match ArrayIndex(r)
    case Bad =>
    case Token(a, t) => IndexFirst(r, a, t);
  }

  lemma {:induction false} EscapeAllLonger(s: string)
    ensures |EscapeAll(s)| >= |s|
    ensures !NoEscape(s) ==> |EscapeAll(s)| > |s|
  {
    hide Escape, NeedsEscape;
    if s != "" {
      EscapeAllLonger(s[1..]);
      EscapeHasNoQuote(s[0]);
      assert forall i | 1 <= i < |s| :: s[i] == s[1..][i - 1];
    }
  }

  lemma {:induction false} EscapeAllHasNoQuote(s: string)
    requires '"' !in s
    ensures '"' !in EscapeAll(s)
  {
    hide Escape;
    if s != "" {
      EscapeHasNoQuote(s[0]);
      EscapeAllHasNoQuote(s[1..]);
    }
  }

  lemma EscapeHasNoQuote(c: char)
    ensures c != '"' ==> '"' !in Escape(c)
    ensures |Escape(c)| >= 1 && (NeedsEscape(c) ==> |Escape(c)| >= 2)
  {
  }

  /** A quoted name that needed escaping comes back still escaped. */
  lemma EscapedNameLost(n: string, t: string)
    requires Dotted(n) && !NoEscape(n)
    ensures !StartsWith(Parse(Piece(Key(n), true) + t), Named(n))
  {
    var e := EscapeAll(n);
    var r := "[\"" + e + "\"]" + t;
    QuotedPiece(n);
    Brackets("[\"", e, "\"]", t);
    assert r[0] == r[..2][0] == '[' && r[1] == r[..2][1] == '"';
    EscapeAllLonger(n);
    if '"' in n {
      QuotedNameHasNoQuote(r);
    } else {
      EscapeAllHasNoQuote(n);
      QuotedStep(e, t);
    }
  }

  lemma UncleanHeadLost(w: Walk)
    requires w != [] && !CleanStep(w[0])
    ensures !StartsWith(Parse(Text(w, true)), SegmentOf(w[0]))
  {
    var n, t := w[0].name, Text(w[1..], false);
    TextOfHead(w);
    SkipDotText(w[1..]);
    if Dotted(n) {
      EscapedNameLost(n, t);
    } else {
      BracketedNameLost(n, t);
    }
  }

  lemma PrependInjective(x: Segment, r: ParseResult, rest: seq<Segment>)
    requires Prepend([x], r) == Segments([x] + rest)
    ensures r == Segments(rest)
  {
    assert r.segments == ([x] + r.segments)[1..] && rest == ([x] + rest)[1..];
  }

  lemma CleanCons(w: Walk)
    requires w != [] && CleanStep(w[0]) && !(|w| == 1 && ShortKey(w[0]))
    requires Clean(w[1..]) && !EndsShort(w[1..])
    ensures Clean(w) && !EndsShort(w)
  {
    assert forall i | 1 <= i < |w| :: w[i] == w[1..][i - 1];
  }

  lemma HeadIsRead(w: Walk)
    requires w != [] && InRange(w) && Parse(Text(w, true)) == Segments(SegmentsOf(w))
    ensures CleanStep(w[0]) && !(|w| == 1 && ShortKey(w[0]))
  {
    if !CleanStep(w[0]) {
      UncleanHeadLost(w);
    } else if |w| == 1 && ShortKey(w[0]) {
      ParseText(w);
    }
  }

  lemma {:induction false} ParseTextOnlyIf(w: Walk)
    requires InRange(w) && Parse(Text(w, true)) == Segments(SegmentsOf(w))
    ensures Clean(w) && !EndsShort(w)
  {
    if w != [] {
      SegmentsCons(w);
      HeadIsRead(w);
      CleanHead(w);
      SegmentsCons(w);
      PrependInjective(SegmentOf(w[0]), Parse(Text(w[1..], true)), SegmentsOf(w[1..]));
      ParseTextOnlyIf(w[1..]);
      CleanCons(w);
    }
  }

  /** The exact condition under which an emitted path is read back as the walk it was
      built from: names that need no escaping when quoted, no opening bracket in the
      others, and no undotted one-byte name at the end. */
  lemma PathRoundTripIff(w: Walk)
    requires InRange(w)
    ensures Parse(PathOf(w)) == Segments(SegmentsOf(w)) <==> Clean(w) && !EndsShort(w)
  {
    PathOfIsText(w);
    if Clean(w) {
      ParseText(w);
    }
    if Parse(PathOf(w)) == Segments(SegmentsOf(w)) {
      ParseTextOnlyIf(w);
    }
  }

  /** On paths whose names are clean, the parser never fails, and it spins exactly when
      the last step is an undotted one-byte name. */
  lemma PathSpinsIff(w: Walk)
    requires Clean(w) && InRange(w)
    ensures Parse(PathOf(w)) != SyntaxError
    ensures Parse(PathOf(w)) == Spins <==> EndsShort(w)
  {
    PathOfIsText(w);
    ParseText(w);
  }

  /** Concretely: the path of field `x` under `spec` is never parsed. */
  lemma OneByteFieldSpins()
    ensures PathOf([Key("spec"), Key("x")]) == "spec.x"
    ensures Parse("spec.x") == Spins
  {
    var w := [Key("spec"), Key("x")];
    assert w[..1] == [Key("spec")] && [Key("spec")][..0] == [];
    assert PathOf([Key("spec")]) == "spec";
    ParseText(w);
    PathOfIsText(w);
  }

  // ---------------------------------------------------------------- Build

  predicate EndsInBracket(s: string) { s != "" && s[|s| - 1] == ']' }

  function FormatInt(i: int): string { if i < 0 then "-" + Itoa(-i) else Itoa(i) }

  function BuildPiece(s: Segment): string {
    if s.index != -1 then "[" + FormatInt(s.index) + "]"
    else if '.' in s.name then "[" + Quote(s.name) + "]"
    else s.name
  }

  /** What the builder holds after the given segments. */
  function BuildText(segments: seq<Segment>): string {
    if segments == [] then ""
    else
      var b := BuildText(segments[..|segments| - 1]);
      var separated := if |segments| > 1 && !EndsInBracket(b) then b + "." else b;
      separated + BuildPiece(segments[|segments| - 1])
  }

  /** `Build`: a loop that appends to a buffer and looks at its last byte. */
  method Build(segments: seq<Segment>) returns (b: string)
    ensures b == BuildText(segments)
  {
    hide FormatInt, Quote, EndsInBracket, BuildText;
    b := "";
    BuildTextOf(segments);
    for i := 0 to |segments|
      invariant b == BuildText(segments[..i])
    {
      var segment := segments[i];
      BuildTextNext(segments, i);
      if i > 0 && !EndsInBracket(b) {
        b := b + ".";
      }
      if segment.index != -1 {
        b := b + ("[" + FormatInt(segment.index) + "]");
        continue;
      }
      if '.' in segment.name {
        b := b + ("[" + Quote(segment.name) + "]");
      } else {
        b := b + segment.name;
      }
    }
  }

  lemma BuildTextOf(segments: seq<Segment>)
    ensures BuildText(segments[..0]) == "" && segments[..|segments|] == segments
  {
  }

  lemma BuildTextNext(segments: seq<Segment>, i: nat)
    requires i < |segments|
    ensures var b := BuildText(segments[..i]);
      BuildText(segments[..i + 1]) == (if i > 0 && !EndsInBracket(b) then b + "." else b) + BuildPiece(segments[i])
  {
    hide EndsInBracket, BuildPiece;
    assert segments[..i + 1][..i] == segments[..i];
  }

  predicate PlainName(s: Segment) { s.index == -1 && '.' !in s.name }

  /** Segments as the builder needs them: a name where there is no index. */
  predicate Given(segments: seq<Segment>) {
    forall i | 0 <= i < |segments| && segments[i].index == -1 :: segments[i].name != ""
  }

  const MIN_INT := -MAX_INT - 1

  /** Segments whose printed form survives: bare indices in range, names that need no escaping
      if dotted, else free of opening brackets and not swallowing the separator. */
  predicate BuildCleanAt(segments: seq<Segment>, i: nat)
    requires i < |segments|
  {
    var s := segments[i];
    if s.index != -1 then s.name == "" && MIN_INT <= s.index <= MAX_INT
    else if '.' in s.name then NoEscape(s.name)
    else
      && '[' !in s.name
      && (EndsInBracket(s.name) && i + 1 < |segments| ==> !PlainName(segments[i + 1]))
  }

  predicate BuildClean(segments: seq<Segment>) {
    forall i | 0 <= i < |segments| :: BuildCleanAt(segments, i)
  }

  predicate ShortPlain(s: Segment) { PlainName(s) && |s.name| == 1 }

  predicate EndsShortPlain(segments: seq<Segment>) {
    segments != [] && ShortPlain(segments[|segments| - 1])
  }

  /** What the builder appends for segment `i`. */
  function TokenAt(segments: seq<Segment>, i: nat): string
    requires i < |segments|
  {
    if i > 0 && !EndsInBracket(BuildPiece(segments[i - 1])) then "." + BuildPiece(segments[i])
    else BuildPiece(segments[i])
  }

  /** The printed text from segment `i` on. */
  function TailText(segments: seq<Segment>, i: nat): string
    requires i <= |segments|
    decreases |segments| - i
  {
    if i == |segments| then "" else TokenAt(segments, i) + TailText(segments, i + 1)
  }

  lemma PieceNonEmpty(segments: seq<Segment>, i: nat)
    requires Given(segments) && i < |segments|
    ensures BuildPiece(segments[i]) != "" && BuildPiece(segments[i])[0] != '.'
    ensures !PlainName(segments[i]) ==> BuildPiece(segments[i])[0] == '[' && EndsInBracket(BuildPiece(segments[i]))
    ensures PlainName(segments[i]) ==> BuildPiece(segments[i]) == segments[i].name
  {
  }

  lemma {:induction false} BuildTextMeetsTail(segments: seq<Segment>, i: nat)
    requires Given(segments) && i <= |segments|
    ensures BuildText(segments[..i]) + TailText(segments, i) == TailText(segments, 0)
    ensures i > 0 ==>
      EndsInBracket(BuildText(segments[..i])) == EndsInBracket(BuildPiece(segments[i - 1]))
  {
    hide BuildPiece, TokenAt, EndsInBracket, Given;
    if i > 0 {
      BuildTextMeetsTail(segments, i - 1);
      PieceNonEmpty(segments, i - 1);
      BuildTextStep(segments, i - 1);
      Associate(BuildText(segments[..i - 1]), TokenAt(segments, i - 1), TailText(segments, i));
    }
  }

  lemma BuildTextStep(segments: seq<Segment>, i: nat)
    requires i < |segments| && BuildPiece(segments[i]) != ""
    requires i > 0 ==>
      EndsInBracket(BuildText(segments[..i])) == EndsInBracket(BuildPiece(segments[i - 1]))
    ensures BuildText(segments[..i + 1]) == BuildText(segments[..i]) + TokenAt(segments, i)
    ensures EndsInBracket(BuildText(segments[..i + 1])) == EndsInBracket(BuildPiece(segments[i]))
  {
    var b, piece := BuildText(segments[..i]), BuildPiece(segments[i]);
    assert segments[..i + 1][..i] == segments[..i];
    Associate(b, ".", piece);
    LastOfAppend(b, piece);
    LastOfAppend(b + ".", piece);
  }

  lemma Associate(a: string, b: string, c: string)
    ensures a + (b + c) == a + b + c
  {
  }

  lemma LastOfAppend(a: string, b: string)
    requires b != ""
    ensures EndsInBracket(a + b) == EndsInBracket(b)
  {
  }

  lemma DotAppend(x: string)
    ensures SkipDot("." + x) == x && ("." + x)[0] == '.'
  {
  }

  /** The text from segment `i` on, after the separator. */
  function BareTail(segments: seq<Segment>, i: nat): string
    requires i <= |segments|
  {
    if i == |segments| then "" else BuildPiece(segments[i]) + TailText(segments, i + 1)
  }

  lemma SkipDotTail(segments: seq<Segment>, i: nat)
    requires Given(segments) && i <= |segments|
    ensures SkipDot(TailText(segments, i)) == BareTail(segments, i)
    ensures i < |segments| ==> TailText(segments, i) != ""
    ensures i < |segments| ==>
      TailText(segments, i)[0] == if TokenAt(segments,
                                             i) == BuildPiece(segments[i]) then BuildPiece(segments[i])[0] else '.'
  {
    if i < |segments| {
      PieceNonEmpty(segments, i);
      var piece, t := BuildPiece(segments[i]), TailText(segments, i + 1);
      if TokenAt(segments, i) == piece {
        SkipDotAppend(piece, t);
      } else {
        Associate(".", piece, t);
        DotAppend(piece + t);
      }
    }
  }

  /** What follows a printed name ends it, unless the name ends in a bracket and another name follows. */
  lemma NameIsDelimited(segments: seq<Segment>, i: nat)
    requires Given(segments) && i < |segments| && PlainName(segments[i])
    requires EndsInBracket(segments[i].name) && i + 1 < |segments| ==> !PlainName(segments[i + 1])
    ensures var t := TailText(segments, i + 1);
      (t == "" <==> i + 1 == |segments|) && (t == "" || t[0] == '.' || t[0] == '[')
  {
    PieceNonEmpty(segments, i);
    SkipDotTail(segments, i + 1);
    if i + 1 < |segments| {
      PieceNonEmpty(segments, i + 1);
    }
  }

  lemma AtoiOfFormatInt(i: int)
    ensures Atoi(FormatInt(i)) == if MIN_INT <= i <= MAX_INT then Some(i) else None
    ensures FormatInt(i) != "" && ']' !in FormatInt(i) && FormatInt(i)[0] != '"'
  {
    if i < 0 {
      DecimalValueOfItoa(-i);
      assert FormatInt(i)[1..] == Itoa(-i);
    } else {
      DecimalValueOfItoa(i);
      assert Itoa(i)[0] != '-' && Itoa(i)[0] != '+';
    }
  }

  lemma IndexPiece(i: int, t: string)
    ensures var r := "[" + FormatInt(i) + "]" + t;
      IndexAhead(r) && Parse(r) ==
        if MIN_INT <= i <= MAX_INT then Prepend([Indexed(i)], Parse(SkipDot(t))) else SyntaxError
  {
    hide Atoi, FormatInt, Parse;
    AtoiOfFormatInt(i);
    BracketedNumber(FormatInt(i), t);
    var r := "[" + FormatInt(i) + "]" + t;
    if MIN_INT <= i <= MAX_INT {
      IndexFirst(r, [Indexed(i)], t);
    } else {
      BadIndexFirst(r);
    }
  }

  lemma BracketedNumber(mid: string, t: string)
    requires mid != "" && ']' !in mid && mid[0] != '"'
    ensures var r := "[" + mid + "]" + t;
      IndexAhead(r) && ArrayIndex(r) == if Atoi(mid).Some? then Token([Indexed(Atoi(mid).value)], t) else Bad
  {
    hide Atoi;
    var r := "[" + mid + "]" + t;
    Brackets("[", mid, "]", t);
    assert r[0] == r[..1][0] == '[' && r[1] == r[1..1 + |mid|][0] == mid[0];
    FindAfter(mid, "]" + t, {']'});
    assert Find("]" + t, {']'}) == 0;
  }

  lemma BadIndexFirst(r: string)
    requires IndexAhead(r) && ArrayIndex(r).Bad?
    ensures Parse(r) == SyntaxError
  {
    assert FieldPart(r) == Token([], r);
  }

  /** One clean segment of the printed text is read back as that segment. */
  lemma BuiltHead(segments: seq<Segment>, i: nat)
    requires Given(segments) && i < |segments| && BuildCleanAt(segments, i)
    requires !(i + 1 == |segments| && ShortPlain(segments[i]))
    ensures Parse(BareTail(segments, i)) == Prepend([segments[i]], Parse(BareTail(segments, i + 1)))
  {
    var s, t := segments[i], TailText(segments, i + 1);
    SkipDotTail(segments, i + 1);
    if s.index != -1 {
      IndexPiece(s.index, t);
    } else if '.' in s.name {
      EscapeAllClean(s.name);
      QuotedPiece(s.name);
      assert BuildPiece(s) == Piece(Key(s.name), true);
      QuotedStep(s.name, t);
    } else {
      NameIsDelimited(segments, i);
      NameStep(s.name, t);
    }
  }

  lemma NothingBuilt(segments: seq<Segment>)
    ensures Parse(BareTail(segments, |segments|)) == Segments([])
  {
  }

  lemma {:induction false} ParseOfTail(segments: seq<Segment>, i: nat)
    requires Given(segments) && BuildClean(segments) && i <= |segments| && !EndsShortPlain(segments)
    ensures Parse(BareTail(segments, i)) == Segments(segments[i..])
    decreases |segments| - i
  {
    hide Parse, BareTail, BuildCleanAt;
    if i < |segments| {
      BuiltHead(segments, i);
      ParseOfTail(segments, i + 1);
      assert segments[i..] == [segments[i]] + segments[i + 1..];
    } else {
      NothingBuilt(segments);
    }
  }

  /** A name without a delimiter after it is read as a longer one. */
  lemma LongerNameRead(n: string, t: string)
    requires '.' !in n && '[' !in n && t != "" && t[0] != '.' && t[0] != '[' && n != ""
    ensures !StartsWith(Parse(n + t), Named(n))
  {
    var r := n + t;
    FindAfter(n, t, {'.', '['});
    var k := Find(r, {'.', '['});
    FieldFirst(r, r[..k], r[k..]);
    assert |r[..k]| > |n|;
  }

  lemma BracketAfterNameLost(n: string, m: string, t: string, rest: seq<Segment>)
    requires '.' !in n && '[' !in n && n != "" && !Dotted(m) && m[0] == '['
    requires m == "[" ==> t == "" || t[0] == '.' || t[0] == '['
    ensures Parse(n + (m + t)) != Segments([Named(n)] + ([Named(m)] + rest))
  {
    hide Parse;
    NameStep(n, m + t);
    BracketedNameLost(m, t);
    NotPrepended(Named(n), Named(m), Parse(SkipDot(m + t)), rest);
  }

  lemma NotPrepended(x: Segment, y: Segment, r: ParseResult, rest: seq<Segment>)
    requires !StartsWith(r, y)
    ensures Prepend([x], r) != Segments([x] + ([y] + rest))
  {
    if r.Segments? {
      assert ([x] + r.segments)[1..] == r.segments && ([x] + ([y] + rest))[1..] == [y] + rest;
      assert ([y] + rest)[0] == y;
    }
  }

  /** A name that ends in a bracket runs into the name after it. */
  lemma SwallowedNameLost(segments: seq<Segment>, i: nat)
    requires Given(segments) && i + 1 < |segments| && PlainName(segments[i]) && PlainName(segments[i + 1])
    requires '[' !in segments[i].name && EndsInBracket(segments[i].name)
    ensures Parse(BareTail(segments, i)) != Segments(segments[i..])
  {
    hide Parse, Dotted, BareTail, TailText;
    var n, m := segments[i].name, segments[i + 1].name;
    var t := TailText(segments, i + 2);
    PieceNonEmpty(segments, i);
    PieceNonEmpty(segments, i + 1);
    TwoNames(segments, i);
    assert segments[i..] == [Named(n)] + ([Named(m)] + segments[i + 2..]);
    if m[0] == '[' {
      if m == "[" {
        NameIsDelimited(segments, i + 1);
      }
      PlainIsUndotted(m);
      BracketAfterNameLost(n, m, t, segments[i + 2..]);
    } else {
      LongerNameRead(n, m + t);
    }
  }

  lemma TwoNames(segments: seq<Segment>, i: nat)
    requires i + 1 < |segments| && PlainName(segments[i]) && PlainName(segments[i + 1])
    requires EndsInBracket(segments[i].name)
    ensures BareTail(segments, i) == segments[i].name + (segments[i + 1].name + TailText(segments, i + 2))
  {
  }

  lemma PlainIsUndotted(m: string)
    requires m != "" && '.' !in m
    ensures !Dotted(m)
  {
  }

  /** An unclean segment is not read back. */
  lemma UncleanSegmentLost(segments: seq<Segment>, i: nat)
    requires Given(segments) && i < |segments| && !BuildCleanAt(segments, i)
    ensures Parse(BareTail(segments, i)) != Segments(segments[i..])
  {
    var s, t := segments[i], TailText(segments, i + 1);
    assert segments[i..][0] == s;
    PieceNonEmpty(segments, i);
    if s.index != -1 {
      IndexPiece(s.index, t);
      IndexHasNoName("[" + FormatInt(s.index) + "]" + t);
    } else if '.' in s.name {
      assert BuildPiece(s) == Piece(Key(s.name), true) by { QuotedPiece(s.name); }
      EscapedNameLost(s.name, t);
    } else if '[' in s.name {
      if s.name == "[" {
        NameIsDelimited(segments, i);
      }
      BracketedNameLost(s.name, t);
    } else {
      SwallowedNameLost(segments, i);
    }
  }

  lemma {:induction false} ParseOfTailOnlyIf(segments: seq<Segment>, i: nat)
    requires Given(segments) && i <= |segments| && Parse(BareTail(segments, i)) == Segments(segments[i..])
    ensures forall j | i <= j < |segments| :: BuildCleanAt(segments, j)
    ensures i < |segments| ==> !EndsShortPlain(segments)
    decreases |segments| - i
  {
    hide Parse, Prepend, BareTail, BuildCleanAt;
    if i < |segments| {
      if !BuildCleanAt(segments, i) {
        UncleanSegmentLost(segments, i);
      }
      assert segments[i..] == [segments[i]] + segments[i + 1..];
      LastShortSpins(segments, i);
      BuiltHead(segments, i);
      PrependInjective(segments[i], Parse(BareTail(segments, i + 1)), segments[i + 1..]);
      ParseOfTailOnlyIf(segments, i + 1);
    }
  }

  lemma LastShortSpins(segments: seq<Segment>, i: nat)
    requires i < |segments| && BuildCleanAt(segments, i)
    ensures i + 1 == |segments| && ShortPlain(segments[i]) ==> Parse(BareTail(segments, i)) == Spins
  {
    if i + 1 == |segments| && ShortPlain(segments[i]) {
      assert segments[i].name + "" == segments[i].name;
      SpinsAtShortKey(segments[i].name);
    }
  }

  // Empty names: there are fewer opening brackets in the text than reading the list back takes.

  function Opens(s: string): nat { multiset(s)['['] }

  /** Opening brackets in what the builder appends. */
  function OpensPrinted(s: Segment): nat {
    if s.index != -1 then 1
    else if '.' in s.name then 1 + Opens(s.name)
    else Opens(s.name)
  }

  /** Opening brackets that the parser has to meet to give the segment. */
  function OpensRead(s: Segment): nat {
    if s.index != -1 then 1
    else if s.name == "" || '.' in s.name || '[' in s.name then 1 + Opens(s.name)
    else 0
  }

  function AllRead(segments: seq<Segment>): nat {
    if segments == [] then 0 else OpensRead(segments[0]) + AllRead(segments[1..])
  }

  lemma OpensAppend(a: string, b: string)
    ensures Opens(a + b) == Opens(a) + Opens(b)
  {
  }

  lemma {:induction false} OpensEscaped(s: string)
    ensures Opens(EscapeAll(s)) == Opens(s)
  {
    if s != "" {
      OpensEscaped(s[1..]);
      assert s == [s[0]] + s[1..];
      OpensAppend([s[0]], s[1..]);
      OpensAppend(Escape(s[0]), EscapeAll(s[1..]));
      EscapeOpensNothing(s[0]);
    }
  }

  lemma EscapeOpensNothing(c: char)
    ensures Opens(Escape(c)) == if c == '[' then 1 else 0
  {
  }

  lemma NoOpens(s: string)
    requires '[' !in s
    ensures Opens(s) == 0
  {
  }

  lemma OpensOfPiece(s: Segment)
    ensures Opens(BuildPiece(s)) == OpensPrinted(s)
  {
    hide EscapeAll, Opens;
    assert Opens("[") == 1 && Opens("]") == 0 && Opens("\"") == 0 by { OpensOfMarks(); }
    if s.index != -1 {
      var digits := FormatInt(s.index);
      NoOpens(digits);
      OpensAppend("[", digits);
      OpensAppend("[" + digits, "]");
    } else if '.' in s.name {
      OpensEscaped(s.name);
      OpensAppend("\"", EscapeAll(s.name));
      OpensAppend("\"" + EscapeAll(s.name), "\"");
      OpensAppend("[", Quote(s.name));
      OpensAppend("[" + Quote(s.name), "]");
    }
  }

  lemma OpensOfMarks()
    ensures Opens("[") == 1 && Opens("]") == 0 && Opens("\"") == 0 && Opens("") == 0 && Opens(".") == 0
  {
  }

  lemma {:induction false} AllReadSnoc(segments: seq<Segment>, s: Segment)
    ensures AllRead(segments + [s]) == AllRead(segments) + OpensRead(s)
  {
    hide OpensRead;
    if segments == [] {
      assert [s][1..] == [] && segments + [s] == [s];
    } else {
      assert (segments + [s])[1..] == segments[1..] + [s];
      AllReadSnoc(segments[1..], s);
    }
  }

  /** The text never has more opening brackets than reading the list back takes, and has fewer if
      a name is empty. */
  lemma {:induction false} OpensOfText(segments: seq<Segment>)
    ensures Opens(BuildText(segments)) <= AllRead(segments)
    ensures !Given(segments) ==> Opens(BuildText(segments)) < AllRead(segments)
  {
    hide Opens, BuildPiece, OpensPrinted, OpensRead;
    OpensOfMarks();
    if segments != [] {
      var init, last := segments[..|segments| - 1], segments[|segments| - 1];
      var b := BuildText(init);
      OpensOfText(init);
      AllReadSnoc(init, last);
      assert init + [last] == segments;
      OpensOfPiece(last);
      OpensAppend(b, ".");
      OpensAppend(b, BuildPiece(last));
      OpensAppend(b + ".", BuildPiece(last));
      PrintedAtMostRead(last);
    }
  }

  lemma PrintedAtMostRead(s: Segment)
    ensures OpensPrinted(s) <= OpensRead(s)
    ensures s.index == -1 && s.name == "" ==> OpensPrinted(s) < OpensRead(s)
  {
    OpensOfMarks();
    if s.index == -1 && '[' !in s.name {
      NoOpens(s.name);
    }
  }

  /** Whatever is read was paid for with opening brackets. */
  lemma {:induction false} OpensOfParse(r: string)
    requires Parse(r).Segments?
    ensures AllRead(Parse(r).segments) <= Opens(r)
    decreases |r|
  {
    hide Opens, FieldPart, IndexPart, OpensRead;
    if r != "" {
      var a := FieldPart(r);
      FieldPays(r);
      IndexPays(a.rest);
      var b := IndexPart(a.rest);
      var rest := SkipDot(b.rest);
      SkipPays(b.rest);
      OpensOfParse(rest);
      AllReadAppend(a.segments, b.segments);
      AllReadAppend(a.segments + b.segments, Parse(rest).segments);
    }
  }

  lemma {:induction false} AllReadAppend(a: seq<Segment>, b: seq<Segment>)
    ensures AllRead(a + b) == AllRead(a) + AllRead(b)
  {
    hide OpensRead;
    if a == [] {
      assert a + b == b;
    } else {
      assert (a + b)[1..] == a[1..] + b;
      AllReadAppend(a[1..], b);
    }
  }

  lemma OpensOfParts(r: string, i: nat)
    requires i <= |r|
    ensures Opens(r) == Opens(r[..i]) + Opens(r[i..])
  {
    assert r == r[..i] + r[i..];
  }

  lemma OneRead(s: Segment)
    ensures AllRead([s]) == OpensRead(s) && AllRead([]) == 0
  {
    assert [s][1..] == [];
  }

  lemma FieldPays(r: string)
    requires FieldPart(r).Token?
    ensures AllRead(FieldPart(r).segments) + Opens(FieldPart(r).rest) <= Opens(r)
  {
    hide Opens, AllRead;
    OneRead(Named(""));
    OpensOfMarks();
    if QuotedAhead(r) {
      var i := 2 + Find(r[2..], {'"'});
      var name := r[2..i];
      OneRead(Named(name));
      assert r[..2] == "[" + "\"" && r[2..][..i - 2] == name && r[2..][i - 2..] == r[i..] && r[i..][2..] == r[i + 2..];
      OpensAppend("[", "\"");
      OpensOfParts(r, 2);
      OpensOfParts(r[2..], i - 2);
      OpensOfParts(r[i..], 2);
    } else if |r| >= 2 && r[0] != '[' {
      var i := Find(r, {'.', '['});
      OneRead(Named(r[..i]));
      OpensOfParts(r, i);
    }
  }

  lemma IndexPays(r: string)
    requires IndexPart(r).Token?
    ensures AllRead(IndexPart(r).segments) + Opens(IndexPart(r).rest) <= Opens(r)
  {
    hide Opens, AllRead, Atoi;
    OpensOfMarks();
    if IndexAhead(r) {
      var i := 1 + Find(r[1..], {']'});
      OneRead(Indexed(Atoi(r[1..i]).value));
      assert r[..1] == "[" && r[1..][i..] == r[i + 1..];
      OpensOfParts(r, 1);
      OpensOfParts(r[1..], i);
    } else {
      OneRead(Named(""));
    }
  }

  lemma SkipPays(r: string)
    ensures Opens(SkipDot(r)) <= Opens(r)
  {
    if r != "" {
      OpensOfParts(r, 1);
    }
  }

  /** The exact condition under which `Parse` undoes `Build`, for all lists of segments: there is
      a name where there is no index, every segment is clean, and the last is no one-byte name. */
  lemma BuildRoundTripIff(segments: seq<Segment>)
    ensures Parse(BuildText(segments)) == Segments(segments) <==>
      Given(segments) && BuildClean(segments) && !EndsShortPlain(segments)
  {
    hide Parse, BuildText, Given, BuildClean, AllRead, Opens;
    if Given(segments) {
      GivenRoundTrip(segments);
    } else if Parse(BuildText(segments)) == Segments(segments) {
      OpensOfText(segments);
      OpensOfParse(BuildText(segments));
      assert false;
    }
  }

  lemma GivenRoundTrip(segments: seq<Segment>)
    requires Given(segments)
    ensures Parse(BuildText(segments)) == Segments(segments) <==> BuildClean(segments) && !EndsShortPlain(segments)
  {
    BuildTextMeetsTail(segments, |segments|);
    assert segments[..|segments|] == segments && segments[0..] == segments;
    assert BuildText(segments) + "" == BuildText(segments);
    assert TailText(segments, 0) == BareTail(segments, 0);
    if BuildClean(segments) && !EndsShortPlain(segments) {
      ParseOfTail(segments, 0);
    }
    if Parse(BuildText(segments)) == Segments(segments) {
      ParseOfTailOnlyIf(segments, 0);
    }
  }
}
