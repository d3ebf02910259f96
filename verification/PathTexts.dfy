/** Which texts the path parser accepts, and what it makes of them. */
module PathTexts {
  import opened Fieldpath
  import opened PathText

  /** A part of a path, with or without a dot after it. */
  datatype Part =
    | Bare(name: string, dot: bool)
    | Quoted(name: string, dot: bool)
    | Index(digits: string, dot: bool)

  function Body(p: Part): string {
    match p
    case Bare(n, _) => n
    case Quoted(n, _) => "[\"" + n + "\"]"
    case Index(d, _) => "[" + d + "]"
  }

  function Dot(p: Part): string { if p.dot then "." else "" }

  function SegmentOf(p: Part): Segment
    requires p.Index? ==> Atoi(p.digits).Some?
  {
    match p
    case Bare(n, _) => Named(n)
    case Quoted(n, _) => Named(n)
    case Index(d, _) => Indexed(Atoi(d).value)
  }

  /** The part can stand before `rest`: a bare name ends at a dot, an opening bracket or the end, and is
      not the last single character; a quoted name ends at the first quote; an index is a number. */
  predicate Legal(p: Part, rest: string) {
    && (!p.dot ==> rest == "" || rest[0] != '.')
    && match p
       case Bare(n, dot) =>
         && n != "" && '.' !in n && '[' !in n && |n + Dot(p) + rest| > 1
         && (!dot ==> rest == "" || rest[0] == '[')
       case Quoted(n, _) => '"' !in n
       case Index(d, _) => ']' !in d && Atoi(d).Some?
  }

  /** One more dot at the end does no harm. */
  function PartsText(ps: seq<Part>, more: bool): string {
    if ps == [] then if more then "." else "" else Body(ps[0]) + (Dot(ps[0]) + PartsText(ps[1..], more))
  }

  ghost predicate AllLegal(ps: seq<Part>, more: bool) {
    ps == [] || (Legal(ps[0], PartsText(ps[1..], more)) && AllLegal(ps[1..], more))
  }

  function PartSegments(ps: seq<Part>): seq<Segment>
    requires forall i | 0 <= i < |ps| && ps[i].Index? :: Atoi(ps[i].digits).Some?
  {
    if ps == [] then [] else [SegmentOf(ps[0])] + PartSegments(ps[1..])
  }

  lemma {:induction false} LegalIndices(ps: seq<Part>, more: bool)
    requires AllLegal(ps, more)
    ensures forall i | 0 <= i < |ps| && ps[i].Index? :: Atoi(ps[i].digits).Some?
  {
    hide Atoi;
    if ps != [] {
      LegalIndices(ps[1..], more);
      forall i | 0 < i < |ps| && ps[i].Index? ensures Atoi(ps[i].digits).Some? {
        assert ps[1..][i - 1] == ps[i];
      }
    }
  }

  /** The path is made of these parts and means these segments. */
  ghost predicate MadeOf(r: string, segments: seq<Segment>, ps: seq<Part>, more: bool) {
    AllLegal(ps, more) && r == PartsText(ps, more) && (LegalIndices(ps, more); segments == PartSegments(ps))
  }

  lemma SkipsDot(p: Part, rest: string)
    requires !p.dot ==> rest == "" || rest[0] != '.'
    ensures SkipDot(Dot(p) + rest) == rest
  {
    assert "" + rest == rest && ("." + rest)[1..] == rest;
  }

  /** One part is read as its segment. */
  lemma PartStep(p: Part, rest: string)
    requires Legal(p, rest)
    ensures p.Index? ==> Atoi(p.digits).Some?
    ensures Parse(Body(p) + (Dot(p) + rest)) == Prepend([SegmentOf(p)], Parse(rest))
  {
    hide Parse, Atoi;
    var t := Dot(p) + rest;
    SkipsDot(p, rest);
    match p
    case Bare(n, dot) =>
      assert |n + t| == |n + Dot(p) + rest|;
      NameStep(n, t);
    case Quoted(n, _) =>
      QuotedStep(n, t);
    case Index(d, _) =>
      NumberIsBracketed(d);
      BracketedNumber(d, t);
      IndexFirst("[" + d + "]" + t, [Indexed(Atoi(d).value)], t);
  }

  lemma NumberIsBracketed(d: string)
    requires Atoi(d).Some?
    ensures d != "" && d[0] != '"'
  {
    if d != "" && d[0] != '-' && d[0] != '+' {
      FirstIsDigit(d);
    }
  }

  lemma {:induction false} FirstIsDigit(d: string)
    requires d != "" && DecimalValue(d).Some?
    ensures '0' <= d[0] <= '9'
  {
    if |d| > 1 {
      FirstIsDigit(d[..|d| - 1]);
    }
  }

  lemma {:induction false} PartsAreParsed(ps: seq<Part>, more: bool)
    requires AllLegal(ps, more)
    ensures forall i | 0 <= i < |ps| && ps[i].Index? :: Atoi(ps[i].digits).Some?
    ensures Parse(PartsText(ps, more)) == Segments(PartSegments(ps))
    decreases |ps|
  {
    hide Parse, Atoi, Legal, SegmentOf;
    LegalIndices(ps, more);
    if ps == [] {
      NothingParsed();
    } else {
      PartsAreParsed(ps[1..], more);
      PartStep(ps[0], PartsText(ps[1..], more));
    }
  }

  lemma NothingParsed()
    ensures Parse("") == Segments([]) && Parse(".") == Segments([])
  {
    var none: seq<Segment> := [];
    assert "."[1..] == "" && none + none == none;
  }

  /** The first part of an accepted text. */
  lemma FirstPart(r: string) returns (p: Part, rest: string)
    requires Parse(r).Segments? && r != "" && r != "."
    ensures Legal(p, rest) && r == Body(p) + (Dot(p) + rest)
  {
    hide Parse, Legal;
    if QuotedAhead(r) {
      p, rest := FirstQuoted(r);
    } else if r[0] == '[' {
      p, rest := FirstIndex(r);
    } else {
      p, rest := FirstBare(r);
    }
  }

  lemma FirstQuoted(r: string) returns (p: Part, rest: string)
    requires Parse(r).Segments? && QuotedAhead(r)
    ensures Legal(p, rest) && r == Body(p) + (Dot(p) + rest)
  {
    hide Parse, QuotedField;
    FailsIfBad(r);
    var name, t := CutQuoted(r);
    p, rest := Quoted(name, t != "" && t[0] == '.'), SkipDot(t);
    DotAgain(p, t);
    NoDotLeft(p, t);
  }

  lemma CutQuoted(r: string) returns (name: string, t: string)
    requires QuotedAhead(r) && QuotedField(r).Token?
    ensures '"' !in name && r == "[\"" + name + "\"]" + t
  {
    var i := 2 + Find(r[2..], {'"'});
    name, t := r[2..i], r[i + 2..];
    assert forall k | 0 <= k < |name| :: name[k] == r[2..][k];
    assert r[..2] == "[\"" && r[i..i + 2] == "\"]";
    assert r == r[..2] + name + r[i..i + 2] + t;
  }

  lemma FirstIndex(r: string) returns (p: Part, rest: string)
    requires Parse(r).Segments? && IndexAhead(r)
    ensures Legal(p, rest) && r == Body(p) + (Dot(p) + rest)
  {
    hide Parse, ArrayIndex, Atoi;
    FailsIfBad(r);
    var digits, t := CutIndex(r);
    p, rest := Index(digits, t != "" && t[0] == '.'), SkipDot(t);
    DotAgain(p, t);
    NoDotLeft(p, t);
  }

  lemma CutIndex(r: string) returns (digits: string, t: string)
    requires IndexAhead(r) && ArrayIndex(r).Token?
    ensures ']' !in digits && Atoi(digits).Some? && r == "[" + digits + "]" + t
  {
    hide Atoi;
    var i := 1 + Find(r[1..], {']'});
    digits, t := r[1..i], r[i + 1..];
    assert forall k | 0 <= k < |digits| :: digits[k] == r[1..][k];
    assert r[..1] == "[" && r[i..i + 1] == "]";
    assert r == r[..1] + digits + r[i..i + 1] + t;
  }

  lemma FirstBare(r: string) returns (p: Part, rest: string)
    requires Parse(r).Segments? && r != "" && r != "." && r[0] != '['
    ensures Legal(p, rest) && r == Body(p) + (Dot(p) + rest)
  {
    hide Parse, UnquotedField;
    OneIsStuck(r);
    FailsIfBad(r);
    var name, t := CutBare(r);
    p, rest := Bare(name, t != "" && t[0] == '.'), SkipDot(t);
    DotAgain(p, t);
    NoDotLeft(p, t);
    assert |name + Dot(p) + rest| == |name + t|;
  }

  lemma CutBare(r: string) returns (name: string, t: string)
    requires UnquotedField(r).Token?
    ensures name != "" && '.' !in name && '[' !in name && r == name + t && (t == "" || t[0] == '.' || t[0] == '[')
  {
    var i := Find(r, {'.', '['});
    name, t := r[..i], r[i..];
    assert r == name + t;
    assert forall k | 0 <= k < |name| :: name[k] == r[k];
  }

  /** Only one dot is skipped, but without one there is none. */
  lemma NoDotLeft(p: Part, t: string)
    requires p.dot <==> t != "" && t[0] == '.'
    ensures !p.dot ==> SkipDot(t) == t && (t == "" || t[0] != '.')
  {
  }

  lemma DotAgain(p: Part, t: string)
    requires p.dot <==> t != "" && t[0] == '.'
    ensures t == Dot(p) + SkipDot(t)
  {
    if p.dot {
      assert t == [t[0]] + t[1..];
    }
  }

  lemma OneIsStuck(r: string)
    requires Parse(r).Segments? && r != "" && r != "." && r[0] != '['
    ensures |r| >= 2
  {
    var c := r[0];
    assert |r| == 1 ==> r == [c];
    StuckIff(r);
  }

  lemma FailsIfBad(r: string)
    requires Parse(r).Segments? && r != ""
    ensures FieldPart(r).Token? && (IndexAhead(r) ==> ArrayIndex(r).Token?)
  {
  }

  lemma {:induction false} PartsOf(r: string) returns (ps: seq<Part>, more: bool)
    requires Parse(r).Segments?
    ensures AllLegal(ps, more) && r == PartsText(ps, more)
    decreases |r|
  {
    hide Parse, Legal, Atoi;
    if r == "" || r == "." {
      ps, more := [], r == ".";
    } else {
      var p, rest := FirstPart(r);
      PartStep(p, rest);
      assert Parse(rest).Segments?;
      BodyIsSomething(p, rest);
      ps, more := PartsOf(rest);
      assert ([p] + ps)[1..] == ps;
      ps := [p] + ps;
    }
  }

  lemma BodyIsSomething(p: Part, rest: string)
    requires Legal(p, rest)
    ensures Body(p) != ""
  {
  }

  /** Exactly the texts made of legal parts are accepted, for the segments the parts mean. */
  lemma ParseIff(r: string, segments: seq<Segment>)
    ensures Parse(r) == Segments(segments) <==> exists ps, more :: MadeOf(r, segments, ps, more)
  {
    hide Parse, AllLegal, PartsText, PartSegments, Atoi;
    if Parse(r) == Segments(segments) {
      var ps, more := PartsOf(r);
      PartsAreParsed(ps, more);
      assert MadeOf(r, segments, ps, more);
    }
    if ps, more :| MadeOf(r, segments, ps, more) {
      PartsAreParsed(ps, more);
    }
  }

  // ------------------------------------------------------------ quoted names

  function HexValue(c: char): Option<nat> {
    if '0' <= c <= '9' then Some((c - '0') as nat)
    else if 'a' <= c <= 'f' then Some(10 + (c - 'a') as nat)
    else None
  }

  /** What the escapes of a quoted text stand for, byte by byte. */
  function Unquoted(s: string): Option<string>
    decreases |s|
  {
    if s == "" then Some("")
    else if s[0] != '\\' then Prefixed(s[0] as nat, Unquoted(s[1..]))
    else if |s| < 2 then None
    else match s[1]
      case 'a' => Prefixed(7, Unquoted(s[2..]))
      case 'b' => Prefixed(8, Unquoted(s[2..]))
      case 't' => Prefixed(9, Unquoted(s[2..]))
      case 'n' => Prefixed(10, Unquoted(s[2..]))
      case 'v' => Prefixed(11, Unquoted(s[2..]))
      case 'f' => Prefixed(12, Unquoted(s[2..]))
      case 'r' => Prefixed(13, Unquoted(s[2..]))
      case 'x' =>
        if |s| >= 4 && HexValue(s[2]).Some? && HexValue(s[3]).Some? then
          Prefixed(16 * HexValue(s[2]).value + HexValue(s[3]).value, Unquoted(s[4..]))
        else None
      case c => if c == '"' || c == '\\' then Prefixed(c as nat, Unquoted(s[2..])) else None
  }

  function Prefixed(byte: nat, rest: Option<string>): Option<string> {
    if rest.Some? && byte < 0x80 then Some([byte as char] + rest.value) else None
  }

  /** Names of bytes below 0x80 are printed so that the escapes say what they were. */
  lemma {:induction false} QuotedSaysName(s: string)
    requires forall i | 0 <= i < |s| :: s[i] < 0x80 as char
    ensures Unquoted(EscapeAll(s)) == Some(s)
  {
    hide Escape, NeedsEscape, Unquoted;
    if s == "" {
      NothingQuoted();
    } else {
      QuotedSaysName(s[1..]);
      CharSays(s[0], EscapeAll(s[1..]), s[1..]);
      assert s == [s[0]] + s[1..];
    }
  }

  lemma NothingQuoted()
    ensures Unquoted("") == Some("")
  {
  }

  lemma CharSays(c: char, rest: string, meant: string)
    requires c < 0x80 as char && Unquoted(rest) == Some(meant)
    ensures Unquoted(Escape(c) + rest) == Some([c] + meant)
  {
    var e := Escape(c);
    var s := e + rest;
    assert forall k | 0 <= k < |e| :: s[k] == e[k];
    assert s[|e|..] == rest;
    if NeedsEscape(c) && |e| == 4 {
      HexSays(c as nat / 16);
      HexSays(c as nat % 16);
      assert c as nat == 16 * (c as nat / 16) + c as nat % 16;
    }
  }

  lemma HexSays(n: nat)
    requires n < 16
    ensures HexValue(HexDigit(n)) == Some(n)
  {
  }

  // ---------------------------------------------------------------- numbers

  function Zeros(k: nat): string { if k == 0 then "" else Zeros(k - 1) + "0" }

  /** A text is a number exactly if it is the digits of one, possibly after zeros. */
  lemma DigitsIff(s: string, n: nat)
    requires s != ""
    ensures DecimalValue(s) == Some(n) <==> exists k: nat :: s == Zeros(k) + Itoa(n)
  {
    if DecimalValue(s) == Some(n) {
      var k := ZerosBefore(s, n);
    }
    if k: nat :| s == Zeros(k) + Itoa(n) {
      ZerosDoNotCount(k, n);
    }
  }

  lemma {:induction false} ZerosBefore(s: string, n: nat) returns (k: nat)
    requires s != "" && DecimalValue(s) == Some(n)
    ensures s == Zeros(k) + Itoa(n)
    decreases |s|
  {
    var init, d := s[..|s| - 1], (s[|s| - 1] - '0') as nat;
    assert s == init + [Digit(d)];
    k := 0;
    if init == "" {
      assert n == d && s == Zeros(0) + Itoa(d);
    } else {
      var m := DecimalValue(init).value;
      k := ZerosBefore(init, m);
      if m == 0 {
        assert Itoa(0) == "0" && init == Zeros(k) + "0" == Zeros(k + 1);
        assert Itoa(d) == [Digit(d)];
        k := k + 1;
      } else {
        assert n == 10 * m + d && n / 10 == m && n % 10 == d;
        assert Itoa(n) == Itoa(m) + [Digit(d)];
        assert s == Zeros(k) + Itoa(m) + [Digit(d)] == Zeros(k) + Itoa(n);
      }
    }
  }

  lemma {:induction false} ZerosDoNotCount(k: nat, n: nat)
    ensures DecimalValue(Zeros(k) + Itoa(n)) == Some(n)
    decreases n
  {
    if n < 10 {
      var s := Zeros(k) + Itoa(n);
      assert s[..|s| - 1] == Zeros(k);
      ZerosAreZero(k);
    } else {
      var s := Zeros(k) + Itoa(n);
      assert s == Zeros(k) + Itoa(n / 10) + [Digit(n % 10)];
      assert s[..|s| - 1] == Zeros(k) + Itoa(n / 10);
      ZerosDoNotCount(k, n / 10);
    }
  }

  lemma {:induction false} ZerosAreZero(k: nat)
    ensures DecimalValue(Zeros(k)) == Some(0)
  {
    if k > 0 {
      ZerosAreZero(k - 1);
      assert Zeros(k)[..|Zeros(k)| - 1] == Zeros(k - 1);
    }
  }

  function Valued(sign: string, m: nat): int { if sign == "-" then 0 - m else m }

  predicate Sign(s: string) { s == "" || s == "+" || s == "-" }

  /** Exactly the numbers in range are read, with a sign or not, possibly after zeros. */
  lemma AtoiIff(s: string, n: int)
    ensures Atoi(s) == Some(n) <==>
      exists sign, k: nat, m: nat :: Signed(s, sign, k, m) && n == Valued(sign, m) && MIN_INT <= n <= MAX_INT
  {
    if Atoi(s) == Some(n) {
      var sign := if s[0] == '-' || s[0] == '+' then s[..1] else "";
      var digits := s[|sign|..];
      assert s == sign + digits && (sign == "" || sign == [s[0]]);
      var m := DecimalValue(digits).value;
      var k := ZerosBefore(digits, m);
      assert Signed(s, sign, k, m);
    }
    if sign, k: nat, m: nat :| Signed(s, sign, k, m) && n == Valued(sign, m) && MIN_INT <= n <= MAX_INT {
      SignedIsRead(s, sign, k, m, n);
    }
  }

  predicate Signed(s: string, sign: string, k: nat, m: nat) { Sign(sign) && s == sign + (Zeros(k) + Itoa(m)) }

  lemma SignedIsRead(s: string, sign: string, k: nat, m: nat, n: int)
    requires Signed(s, sign, k, m) && n == Valued(sign, m) && MIN_INT <= n <= MAX_INT
    ensures Atoi(s) == Some(n)
  {
    hide DecimalValue, Itoa, Zeros;
    var digits := Zeros(k) + Itoa(m);
    ZerosDoNotCount(k, m);
    FirstIsDigit(digits);
    if sign == "" {
      assert s == digits;
    } else {
      assert s[1..] == digits && s[0] == sign[0];
    }
  }
}
