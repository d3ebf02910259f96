/** Field paths: the string form of a walk into a resource, its parser, and the
    two printers. Text is modelled byte by byte: one `char` is one byte. */
module Fieldpath {

  datatype Option<+T> = None | Some(value: T)

  /** `index == -1` for a name, as in the source. */
  datatype Segment = Segment(name: string, index: int)

  function Named(name: string): Segment { Segment(name, -1) }

  function Indexed(i: int): Segment { Segment("", i) }

  /** `Spins` is the outcome of an input on which the parser's loop stops advancing. */
  datatype ParseResult = Segments(segments: seq<Segment>) | SyntaxError | Spins

  // ---------------------------------------------------------------- numbers

  function Digit(n: nat): char
    requires n < 10
  {
    '0' + n as char
  }

  /** Decimal digits of a natural number. */
  function Itoa(n: nat): (s: string)
    ensures s != "" && forall i | 0 <= i < |s| :: '0' <= s[i] <= '9'
  {
    if n < 10 then [Digit(n)] else Itoa(n / 10) + [Digit(n % 10)]
  }

  function DecimalValue(s: string): Option<nat> {
    if s == "" then Some(0)
    else if '0' <= s[|s| - 1] <= '9' then
      match DecimalValue(s[..|s| - 1])
      case Some(v) => Some(10 * v + (s[|s| - 1] - '0') as int)
      case None => None
    else None
  }

  const MAX_INT := 0x7FFF_FFFF_FFFF_FFFF

  /** `strconv.Atoi` on a 64-bit platform: optional sign, digits, range check. */
  function Atoi(s: string): Option<int> {
    if s == "" then None
    else if s[0] == '-' || s[0] == '+' then
      if |s| == 1 then None
      else match DecimalValue(s[1..])
        case None => None
        case Some(v) =>
          var n := if s[0] == '-' then 0 - v else v;
          if -MAX_INT - 1 <= n <= MAX_INT then Some(n) else None
    else match DecimalValue(s)
      case None => None
      case Some(v) => if v <= MAX_INT then Some(v) else None
  }

  lemma {:induction false} DecimalValueOfItoa(n: nat)
    ensures DecimalValue(Itoa(n)) == Some(n)
  {
    if n >= 10 {
      DecimalValueOfItoa(n / 10);
      assert Itoa(n)[..|Itoa(n)| - 1] == Itoa(n / 10);
    } else {
      assert Itoa(n)[..0] == "";
    }
  }

  /** Indices survive the trip through decimal text. */
  lemma AtoiOfItoa(n: nat)
    requires n <= MAX_INT
    ensures Atoi(Itoa(n)) == Some(n)
  {
    DecimalValueOfItoa(n);
  }

  // ------------------------------------------------- the parser, as functions

  /** First position whose character is in `stops`, or the length. */
  function Find(r: string, stops: set<char>): (i: nat)
    ensures i <= |r|
    ensures forall k | 0 <= k < i :: r[k] !in stops
    ensures i < |r| ==> r[i] in stops
  {
    if r == "" || r[0] in stops then 0 else 1 + Find(r[1..], stops)
  }

  /** What one sub-parser consumed, on the text that remains. */
  datatype Token = Token(segments: seq<Segment>, rest: string) | Bad

  function QuotedField(r: string): Token
    requires |r| >= 2
  {
    var i := 2 + Find(r[2..], {'"'});
    if i + 1 < |r| && r[i + 1] == ']' then Token([Named(r[2..i])], r[i + 2..]) else Bad
  }

  function UnquotedField(r: string): Token {
    var i := Find(r, {'.', '['});
    if i == 0 then Bad else Token([Named(r[..i])], r[i..])
  }

  function ArrayIndex(r: string): Token
    requires r != ""
  {
    var i := 1 + Find(r[1..], {']'});
    if i >= |r| then Bad
    else match Atoi(r[1..i])
      case None => Bad
      case Some(idx) => Token([Indexed(idx)], r[i + 1..])
  }

  predicate QuotedAhead(r: string) { |r| >= 2 && r[0] == '[' && r[1] == '"' }

  predicate IndexAhead(r: string) { r != "" && r[0] == '[' && !QuotedAhead(r) }

  function FieldPart(r: string): Token {
    if QuotedAhead(r) then QuotedField(r)
    else if |r| >= 2 && r[0] != '[' then UnquotedField(r)
    else Token([], r)
  }

  function IndexPart(r: string): Token {
    if IndexAhead(r) then ArrayIndex(r) else Token([], r)
  }

  function SkipDot(r: string): string {
    if r != "" && r[0] == '.' then r[1..] else r
  }

  /** One iteration of the loop: a field if any, an index if any, a dot if any. */
  function Iteration(r: string): Token {
    match FieldPart(r)
    case Bad => Bad
    case Token(a, r1) =>
      match IndexPart(r1)
      case Bad => Bad
      case Token(b, r2) => Token(a + b, SkipDot(r2))
  }

  function Prepend(a: seq<Segment>, r: ParseResult): ParseResult {
    if r.Segments? then Segments(a + r.segments) else r
  }

  /** `Parse` on the text that remains. */
  function Parse(r: string): ParseResult
    decreases |r|
  {
    if r == "" then Segments([])
    else match Iteration(r)
      case Bad => SyntaxError
      case Token(a, rest) =>
        if |rest| < |r| then Prepend(a, Parse(rest)) else Spins
  }

  /** The loop fails to advance exactly on a single remaining character that is
      neither a dot nor an opening bracket. */
  lemma StuckIff(r: string)
    requires r != ""
    ensures (Iteration(r).Token? && |Iteration(r).rest| == |r|) <==> (|r| == 1 && r[0] != '.' && r[0] != '[')
  {
  }

  /** One character is left, neither a dot nor an opening bracket. */
  predicate Stuck(r: string) { |r| == 1 && r[0] != '.' && r[0] != '[' }

  /** The text that remains after `n` turns of the loop, if it gets that far. */
  function After(r: string, n: nat): Option<string> {
    if n == 0 then Some(r)
    else if r == "" then None
    else match Iteration(r)
      case Bad => None
      case Token(_, rest) => After(rest, n - 1)
  }

  /** For every text: the parser never returns exactly if some number of turns leaves a single
      character that is neither a dot nor an opening bracket. */
  lemma SpinsIff(r: string)
    ensures Parse(r) == Spins <==> exists n: nat :: After(r, n).Some? && Stuck(After(r, n).value)
  {
    if Parse(r) == Spins {
      var n := SpinsAfter(r);
    }
    if n: nat :| After(r, n).Some? && Stuck(After(r, n).value) {
      StuckMeansSpins(r, n);
    }
  }

  lemma {:induction false} SpinsAfter(r: string) returns (n: nat)
    requires Parse(r) == Spins
    ensures After(r, n).Some? && Stuck(After(r, n).value)
    decreases |r|
  {
    StuckIff(r);
    hide Iteration;
    n := 0;
    if !Stuck(r) {
      RestIsShorter(r);
      n := SpinsAfter(Iteration(r).rest);
      n := n + 1;
    }
  }

  lemma RestIsShorter(r: string)
    requires r != "" && Iteration(r).Token? && !Stuck(r)
    ensures |Iteration(r).rest| < |r|
  {
    StuckIff(r);
  }

  lemma {:induction false} StuckMeansSpins(r: string, n: nat)
    requires After(r, n).Some? && Stuck(After(r, n).value)
    ensures Parse(r) == Spins
    decreases n
  {
    hide Iteration;
    if r != "" {
      StuckIff(r);
    }
    if n > 0 && !Stuck(r) {
      StuckMeansSpins(Iteration(r).rest, n - 1);
    }
  }

  // ------------------------------------------------- the parser, as written

  /** The `parser` struct: the input and the position its methods advance. */
  class Parser {
    const input: string
    var pos: nat

    constructor (path: string)
      ensures input == path && pos == 0
    {
      input, pos := path, 0;
    }

    ghost predicate Valid()
      reads this
    {
      pos <= |input|
    }

    ghost function Rest(): string
      requires Valid()
      reads this
    {
      input[pos..]
    }

    method ParseQuotedField() returns (field: Option<string>)
      requires Valid() && QuotedAhead(Rest())
      modifies this`pos
      ensures Valid()
      ensures field.None? <==> QuotedField(old(Rest())).Bad?
      ensures field.Some? ==> QuotedField(old(Rest())) == Token([Named(field.value)], Rest())
    {
      ghost var r := Rest();
      pos := pos + 2;
      var start := pos;
      ghost var k := 2 + Find(r[2..], {'"'});
      while pos < |input|
        invariant start <= pos <= start + k - 2 && start + k - 2 <= |input|
      {
        assert input[pos] == r[2..][pos - start];
        if input[pos] != '"' {
          pos := pos + 1;
          continue;
        }
        var name := input[start..pos];
        assert name == r[2..k];
        pos := pos + 1;
        if pos < |input| && input[pos] == ']' {
          pos := pos + 1;
          return Some(name);
        }
        return None;
      }
      return None;
    }

    method ParseUnquotedField() returns (field: Option<string>)
      requires Valid()
      modifies this`pos
      ensures Valid()
      ensures field.None? <==> UnquotedField(old(Rest())).Bad?
      ensures field.Some? ==> UnquotedField(old(Rest())) == Token([Named(field.value)], Rest())
    {
      ghost var r := Rest();
      var start := pos;
      ghost var k := Find(r, {'.', '['});
      while pos < |input|
        invariant start <= pos <= start + k <= |input|
      {
        assert input[pos] == r[pos - start];
        if input[pos] == '.' || input[pos] == '[' {
          break;
        }
        pos := pos + 1;
      }
      if start == pos {
        return None;
      }
      assert input[start..pos] == r[..k];
      return Some(input[start..pos]);
    }

    method ParseArrayIndex() returns (idx: Option<int>)
      requires Valid() && Rest() != ""
      modifies this`pos
      ensures Valid()
      ensures idx.None? <==> ArrayIndex(old(Rest())).Bad?
      ensures idx.Some? ==> ArrayIndex(old(Rest())) == Token([Indexed(idx.value)], Rest())
    {
      ghost var r := Rest();
      pos := pos + 1;
      var start := pos;
      ghost var k := 1 + Find(r[1..], {']'});
      while pos < |input| && input[pos] != ']'
        invariant start <= pos <= start + k - 1 <= |input|
      {
        assert input[pos] == r[1..][pos - start];
        pos := pos + 1;
      }
      if pos >= |input| {
        return None;
      }
      assert input[pos] == r[1..][pos - start];
      var idxStr := input[start..pos];
      assert idxStr == r[1..k];
      pos := pos + 1;
      return Atoi(idxStr);
    }

    /** The body of the loop. */
    method RunIteration() returns (found: Option<seq<Segment>>)
      requires Valid() && Rest() != ""
      modifies this`pos
      ensures Valid()
      ensures found.None? <==> Iteration(old(Rest())).Bad?
      ensures found.Some? ==> Iteration(old(Rest())) == Token(found.value, Rest())
      ensures found.Some? ==> old(pos) <= pos
    {
      var a := RunFieldPart();
      if a.None? {
        return None;
      }
      var b := RunIndexPart();
      if b.None? {
        return None;
      }
      if pos < |input| && input[pos] == '.' {
        pos := pos + 1;
      }
      return Some(a.value + b.value);
    }

    method RunFieldPart() returns (found: Option<seq<Segment>>)
      requires Valid() && Rest() != ""
      modifies this`pos
      ensures Valid()
      ensures found.None? <==> FieldPart(old(Rest())).Bad?
      ensures found.Some? ==> FieldPart(old(Rest())) == Token(found.value, Rest())
    {
      var field: Option<string>;
      if pos + 1 < |input| && input[pos] == '[' && input[pos + 1] == '"' {
        field := ParseQuotedField();
      } else if pos + 1 < |input| && input[pos] != '[' {
        field := ParseUnquotedField();
      } else {
        return Some([]);
      }
      return if field.None? then None else Some([Named(field.value)]);
    }

    method RunIndexPart() returns (found: Option<seq<Segment>>)
      requires Valid()
      modifies this`pos
      ensures Valid()
      ensures found.None? <==> IndexPart(old(Rest())).Bad?
      ensures found.Some? ==> IndexPart(old(Rest())) == Token(found.value, Rest())
    {
      if pos < |input| && input[pos] == '[' && (pos + 1 >= |input| || input[pos + 1] != '"') {
        var idx := ParseArrayIndex();
        return if idx.None? then None else Some([Indexed(idx.value)]);
      }
      return Some([]);
    }

    /** The source has no check for lack of progress: where this returns `Spins`, it loops forever. */
    method Run() returns (result: ParseResult)
      requires pos == 0
      modifies this`pos
      ensures result == Parse(input)
    {
      hide Iteration;
      assert input[0..] == input;
      var segments: seq<Segment> := [];
      while pos < |input|
        invariant Valid()
        invariant Prepend(segments, Parse(Rest())) == Parse(input)
        decreases |input| - pos
      {
        var before := pos;
        var found := RunIteration();
        if found.None? {
          return SyntaxError;
        }
        if pos == before {
          return Spins;
        }
        PrependPrepend(segments, found.value, Parse(Rest()));
        segments := segments + found.value;
      }
      assert segments + [] == segments;
      return Segments(segments);
    }
  }

  lemma PrependPrepend(a: seq<Segment>, b: seq<Segment>, r: ParseResult)
    ensures Prepend(a, Prepend(b, r)) == Prepend(a + b, r)
  {
    if r.Segments? {
      assert a + (b + r.segments) == a + b + r.segments;
    }
  }
}
