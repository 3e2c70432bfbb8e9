/** The matchers of src/core/cwLex.cpp: each says how many characters from a position on belong to its
    token. The text ends with a NUL, which the matchers that compare strings rely on. */
module LexMatch {

  /** A text buffer of cn characters and the NUL behind them. */
  ghost predicate IsText(cp: seq<char>) { |cp| > 0 && cp[|cp| - 1] == '\0' }

  /** A fixed string, which holds no NUL. */
  predicate IsKey(key: seq<char>) { '\0' !in key }

  /** What a matcher answers: the length of its match (zero for none), whether it found a syntax error,
      and whether the match has a type suffix. */
  datatype Match = Match(n: nat, fault: bool, suffix: bool)

  const NoMatch := Match(0, false, false)
  const Fault := Match(0, true, false)

  function Plain(n: nat): Match { Match(n, false, false) }

  // ----------------------------------------------------------------- runs of characters

  datatype CharClass = Space | Digit | HexDigit | Word

  predicate Is(k: CharClass, c: char) {
    match k
    case Space => c == ' ' || '\t' <= c <= '\r'
    case Digit => '0' <= c <= '9'
    case HexDigit => '0' <= c <= '9' || 'a' <= c <= 'f' || 'A' <= c <= 'F'
    case Word => IsAlpha(c) || '0' <= c <= '9' || c == '_'
  }

  predicate IsAlpha(c: char) { 'a' <= c <= 'z' || 'A' <= c <= 'Z' }

  /** Where the run of characters of a class that starts at i ends. */
  function RunEnd(k: CharClass, cp: seq<char>, i: nat): (r: nat)
    requires i < |cp|
    ensures i <= r < |cp| && (forall j :: i <= j < r ==> Is(k, cp[j])) && (r < |cp| - 1 ==> !Is(k, cp[r]))
    decreases |cp| - i
  {
    if i < |cp| - 1 && Is(k, cp[i]) then RunEnd(k, cp, i + 1) else i
  }

  lemma {:induction false} RunEndIs(k: CharClass, cp: seq<char>, i: nat, r: nat)
    requires i <= r < |cp| && (forall j :: i <= j < r ==> Is(k, cp[j])) && (r < |cp| - 1 ==> !Is(k, cp[r]))
    ensures RunEnd(k, cp, i) == r
    decreases |cp| - i
  {
    if i < r { RunEndIs(k, cp, i + 1, r); }
  }

  method SkipRun(k: CharClass, cp: seq<char>, at: nat) returns (i: nat)
    requires at < |cp|
    ensures i == RunEnd(k, cp, at)
  {
    i := at;
    while i < |cp| - 1 && Is(k, cp[i])
      invariant at <= i < |cp| && forall j :: at <= j < i ==> Is(k, cp[j])
    {
      i := i + 1;
    }
    RunEndIs(k, cp, at, i);
  }

  function SpaceMatch(cp: seq<char>, at: nat): Match
    requires at < |cp|
  {
    Plain(RunEnd(Space, cp, at) - at)
  }

  method SpaceMatcher(cp: seq<char>, at: nat) returns (m: Match)
    requires at < |cp|
    ensures m == SpaceMatch(cp, at)
  {
    var i := SkipRun(Space, cp, at);
    m := Plain(i - at);
  }

  // ----------------------------------------------------------------- numbers

  function SignEnd(cp: seq<char>, at: nat): (r: nat)
    requires at < |cp| - 1
    ensures at <= r < |cp|
  {
    if cp[at] == '-' then at + 1 else at
  }

  /** An integer: an optional sign, digits, and a u that only an unsigned one may have. */
  function IntMatch(cp: seq<char>, at: nat): Match
    requires at < |cp| - 1
  {
    var s := SignEnd(cp, at);
    var e := RunEnd(Digit, cp, s);
    if e == s then NoMatch
    else if e < |cp| - 1 && (cp[e] == 'u' || cp[e] == 'U') then
      if s > at then Fault else Match(e + 1 - at, false, true)
    else Plain(e - at)
  }

  method IntMatcher(cp: seq<char>, at: nat) returns (m: Match)
    requires at < |cp| - 1
    ensures m == IntMatch(cp, at)
  {
    var i, signFl, digitCnt := at, false, 0;
    ghost var s := SignEnd(cp, at);
    while i < |cp| - 1
      invariant at <= i < |cp| && signFl == (i > at && s > at) && digitCnt == if i < s then 0 else i - s
      invariant forall j :: s <= j < i ==> Is(Digit, cp[j])
    {
      if i == at && cp[i] == '-' {
        signFl := true;
      } else {
        if !Is(Digit, cp[i]) { break; }
        digitCnt := digitCnt + 1;
      }
      i := i + 1;
    }
    assert i >= s;
    RunEndIs(Digit, cp, s, i);
    if digitCnt == 0 { return NoMatch; }
    if i < |cp| - 1 && (cp[i] == 'u' || cp[i] == 'U') {
      if signFl { return Fault; }
      return Match(i + 1 - at, false, true);
    }
    m := Plain(i - at);
  }

  /** Where sign, digits, point and digits of a real end. */
  function MantissaEnd(cp: seq<char>, at: nat): (r: nat)
    requires at < |cp| - 1
    ensures RunEnd(Digit, cp, SignEnd(cp, at)) <= r < |cp|
  {
    var e := RunEnd(Digit, cp, SignEnd(cp, at));
    if e < |cp| - 1 && cp[e] == '.' then RunEnd(Digit, cp, e + 1) else e
  }

  /** How many points there are among them: one or none. */
  function Points(cp: seq<char>, at: nat): nat
    requires at < |cp| - 1
  {
    var e := RunEnd(Digit, cp, SignEnd(cp, at));
    if e < |cp| - 1 && cp[e] == '.' then 1 else 0
  }

  function MantissaDigits(cp: seq<char>, at: nat): int
    requires at < |cp| - 1
  {
    MantissaEnd(cp, at) - SignEnd(cp, at) - Points(cp, at)
  }

  predicate AtExponent(cp: seq<char>, i: nat)
    requires i < |cp|
  {
    i < |cp| - 1 && (cp[i] == 'e' || cp[i] == 'E')
  }

  /** Where the digits of an exponent start behind the e. */
  function ExponentSignEnd(cp: seq<char>, j: nat): (r: nat)
    requires j < |cp|
    ensures j <= r < |cp|
  {
    if j < |cp| - 1 && (cp[j] == '-' || cp[j] == '+') then j + 1 else j
  }

  /** A real: an optional sign, digits with at most one point, then maybe an exponent and an f. One of
      these marks must be there, for else it is an integer; the digits of the exponent may be missing
      behind a point. */
  function RealMatch(cp: seq<char>, at: nat): Match
    requires at < |cp| - 1
  {
    var b := MantissaEnd(cp, at);
    if MantissaDigits(cp, at) == 0 then NoMatch
    else
      var j := if AtExponent(cp, b) then ExponentSignEnd(cp, b + 1) else b;
      var e := if AtExponent(cp, b) then RunEnd(Digit, cp, j) else b;
      var suffix := e < |cp| - 1 && (cp[e] == 'f' || cp[e] == 'F');
      if e > j || Points(cp, at) == 1 || suffix then Match((if suffix then e + 1 else e) - at, false, suffix)
      else NoMatch
  }

  method RealMatcher(cp: seq<char>, at: nat) returns (m: Match)
    requires at < |cp| - 1
    ensures m == RealMatch(cp, at)
  {
    var i, n, d := Mantissa(cp, at);
    var fl := false;
    if d > 0 && i < |cp| - 1 && (cp[i] == 'e' || cp[i] == 'E') {
      i, fl := Exponent(cp, i + 1);
    }
    m := NoMatch;
    if d > 0 {
      var floatFl := false;
      if i < |cp| - 1 && (cp[i] == 'F' || cp[i] == 'f') {
        floatFl := true;
        i := i + 1;
      }
      if fl || n == 1 || floatFl { m := Match(i - at, false, floatFl); }
    }
  }

  method Mantissa(cp: seq<char>, at: nat) returns (i: nat, n: nat, d: nat)
    requires at < |cp| - 1
    ensures i == MantissaEnd(cp, at) && n == Points(cp, at) && d == MantissaDigits(cp, at)
  {
    ghost var s := SignEnd(cp, at);
    ghost var e := RunEnd(Digit, cp, s);
    i, n, d := at, 0, 0;
    while i < |cp| - 1 && n <= 1
      invariant at <= i < |cp| && n <= 1 && (n == 1 ==> e < i && cp[e] == '.')
      invariant d == if i < s then 0 else i - s - n
      invariant n == 0 ==> i <= e
      invariant forall j :: e < j < i ==> Is(Digit, cp[j])
      decreases |cp| - i
    {
      if i == at && cp[i] == '-' {
      } else if Is(Digit, cp[i]) {
        d := d + 1;
      } else if cp[i] == '.' && n == 0 {
        n := n + 1;
      } else {
        break;
      }
      i := i + 1;
    }
    assert i >= s;
    if n == 1 { RunEndIs(Digit, cp, e + 1, i); }
  }

  method Exponent(cp: seq<char>, j: nat) returns (i: nat, fl: bool)
    requires j < |cp|
    ensures var s := ExponentSignEnd(cp, j); i == RunEnd(Digit, cp, s) && fl == (i > s)
  {
    ghost var s := ExponentSignEnd(cp, j);
    var e := 0;
    i := j;
    while i < |cp| - 1
      invariant j <= i < |cp| && e == (if i < s then 0 else i - s)
      invariant forall k :: s <= k < i ==> Is(Digit, cp[k])
    {
      if i == j && (cp[i] == '-' || cp[i] == '+') {
      } else if Is(Digit, cp[i]) {
        e := e + 1;
      } else {
        break;
      }
      i := i + 1;
    }
    assert i >= s;
    RunEndIs(Digit, cp, s, i);
    fl := e > 0;
  }

  /** A hexadecimal integer: 0x and any number of digits, even none; but not as the last two characters
      of the text. */
  function HexMatch(cp: seq<char>, at: nat): Match
    requires at < |cp| - 1
  {
    if |cp| - 1 - at >= 3 && cp[at] == '0' && (cp[at + 1] == 'x' || cp[at + 1] == 'X')
    then Plain(RunEnd(HexDigit, cp, at + 2) - at)
    else NoMatch
  }

  method HexMatcher(cp: seq<char>, at: nat) returns (m: Match)
    requires at < |cp| - 1
    ensures m == HexMatch(cp, at)
  {
    var i := at;
    if |cp| - 1 - at < 3 { return NoMatch; }
    if cp[at] == '0' && (cp[at + 1] == 'x' || cp[at + 1] == 'X') {
      i := SkipRun(HexDigit, cp, at + 2);
    }
    m := Plain(i - at);
  }

  function IdentMatch(cp: seq<char>, at: nat): Match
    requires at < |cp| - 1
  {
    if IsAlpha(cp[at]) || cp[at] == '_' then Plain(RunEnd(Word, cp, at + 1) - at) else NoMatch
  }

  method IdentMatcher(cp: seq<char>, at: nat) returns (m: Match)
    requires at < |cp| - 1
    ensures m == IdentMatch(cp, at)
  {
    var i := at;
    if IsAlpha(cp[at]) || cp[at] == '_' {
      i := SkipRun(Word, cp, at + 1);
    }
    m := Plain(i - at);
  }

  // ----------------------------------------------------------------- quotes

  /** The character at q, in a literal that starts at from, has an escape before it. */
  predicate Escaped(cp: seq<char>, from: nat, q: nat)
    requires q < |cp|
    decreases q
  {
    q > from && cp[q - 1] == '\\' && !Escaped(cp, from, q - 1)
  }

  /** The literal ends at q. */
  predicate Closes(cp: seq<char>, from: nat, q: nat, quote: char) {
    from <= q < |cp| - 1 && cp[q] == quote && !Escaped(cp, from, q)
  }

  /** Where a literal that starts at from first ends, looking from i on; behind the text if nowhere. */
  function CloseAt(cp: seq<char>, from: nat, i: nat, quote: char): (q: nat)
    requires from <= i < |cp|
    ensures i <= q < |cp| && (q < |cp| - 1 ==> Closes(cp, from, q, quote))
    ensures forall j :: i <= j < q ==> !Closes(cp, from, j, quote)
    decreases |cp| - i
  {
    if i == |cp| - 1 || Closes(cp, from, i, quote) then i else CloseAt(cp, from, i + 1, quote)
  }

  lemma CloseAtIs(cp: seq<char>, from: nat, q: nat, quote: char)
    requires from <= q < |cp| && (q < |cp| - 1 ==> Closes(cp, from, q, quote))
    requires forall j :: from <= j < q ==> !Closes(cp, from, j, quote)
    ensures CloseAt(cp, from, from, quote) == q
  {
    var c := CloseAt(cp, from, from, quote);
    assert Closes(cp, from, c, quote) ==> c >= q;
  }

  /** A quoted string goes to the first quote without an escape; without one it is an error. */
  function QStrMatch(cp: seq<char>, at: nat): Match
    requires at < |cp| - 1
  {
    if cp[at] != '"' then NoMatch
    else
      var q := CloseAt(cp, at + 1, at + 1, '"');
      if q < |cp| - 1 then Plain(q + 1 - at) else Fault
  }

  method QStrMatcher(cp: seq<char>, at: nat) returns (m: Match)
    requires at < |cp| - 1
    ensures m == QStrMatch(cp, at)
  {
    if cp[at] != '"' { return NoMatch; }
    ghost var from := at + 1;
    var escFl, i := false, at + 1;
    while i < |cp| - 1
      invariant at + 1 <= i < |cp| && escFl == Escaped(cp, at + 1, i)
      invariant forall j :: at + 1 <= j < i ==> !Closes(cp, from, j, '"')
    {
      if escFl {
        escFl := false;
      } else if cp[i] == '\\' {
        escFl := true;
      } else if cp[i] == '"' {
        CloseAtIs(cp, at + 1, i, '"');
        return Plain(i + 1 - at);
      }
      i := i + 1;
    }
    CloseAtIs(cp, at + 1, i, '"');
    m := Fault;
  }

  /** A quoted character: one character, or an escape and one character, between single quotes. Anything
      else that starts with a single quote is an error. */
  function QCharMatch(cp: seq<char>, at: nat): Match
    requires at < |cp| - 1
  {
    if cp[at] != '\'' then NoMatch
    else
      var q := CloseAt(cp, at + 1, at + 1, '\'');
      if q < |cp| - 1 && (q == at + 2 || (q == at + 3 && cp[at + 1] == '\\')) then Plain(q + 1 - at) else Fault
  }

  /** The characters from from to i, an escape and what it escapes being one. */
  function CharCount(cp: seq<char>, from: nat, i: nat): nat
    requires from <= i < |cp|
  {
    if i == from then 0
    else CharCount(cp, from, i - 1) + if cp[i - 1] == '\\' && !Escaped(cp, from, i - 1) then 0 else 1
  }

  lemma {:induction false} CharCountBounds(cp: seq<char>, from: nat, i: nat)
    requires from <= i < |cp|
    ensures i - from <= 2 * CharCount(cp, from, i) + (if Escaped(cp, from, i) then 1 else 0)
    ensures CharCount(cp, from, i) <= i - from
  {
    if i > from { CharCountBounds(cp, from, i - 1); }
  }

  lemma OneChar(cp: seq<char>, from: nat, q: nat)
    requires from <= q < |cp| && !Escaped(cp, from, q)
    ensures CharCount(cp, from, q) == 1 <==> q == from + 1 || (q == from + 2 && cp[from] == '\\')
  {
    CharCountBounds(cp, from, q);
    if q == from + 1 { assert !Escaped(cp, from, from); }
    if q == from + 2 {
      assert CharCount(cp, from, from) == 0 && !Escaped(cp, from, from);
      assert CharCount(cp, from, from + 1) == if cp[from] == '\\' then 0 else 1;
    }
  }

  method QCharMatcher(cp: seq<char>, at: nat) returns (m: Match)
    requires at < |cp| - 1
    ensures m == QCharMatch(cp, at)
  {
    if cp[at] != '\'' { return NoMatch; }
    ghost var from := at + 1;
    var escFl, n, i := false, 0, at + 1;
    while i < |cp| - 1
      invariant at + 1 <= i < |cp| && escFl == Escaped(cp, at + 1, i) && n == CharCount(cp, at + 1, i)
      invariant forall j :: at + 1 <= j < i ==> !Closes(cp, from, j, '\'')
    {
      if escFl {
        escFl, n := false, n + 1;
      } else if cp[i] == '\\' {
        escFl := true;
      } else if cp[i] == '\'' {
        break;
      } else {
        n := n + 1;
      }
      i := i + 1;
    }
    CloseAtIs(cp, at + 1, i, '\'');
    if i >= |cp| - 1 { return Fault; }
    OneChar(cp, at + 1, i);
    if n != 1 { return Fault; }
    m := Plain(i + 1 - at);
  }

  // ----------------------------------------------------------------- fixed strings and comments

  /** The string stands in the text at a position. */
  predicate StandsAt(cp: seq<char>, at: nat, key: seq<char>) {
    at + |key| < |cp| && cp[at..at + |key|] == key
  }

  /** Compares up to the first difference, at the latest with the NUL behind the text. */
  method StartsWith(cp: seq<char>, at: nat, key: seq<char>) returns (same: bool)
    requires IsText(cp) && at < |cp| && IsKey(key)
    ensures same == StandsAt(cp, at, key)
  {
    var i := 0;
    while i < |key|
      invariant i <= |key| && at + i < |cp| && forall j :: 0 <= j < i ==> cp[at + j] == key[j]
    {
      if cp[at + i] != key[i] {
        assert at + |key| < |cp| ==> cp[at..at + |key|][i] == cp[at + i];
        return false;
      }
      assert key[i] != '\0';
      i := i + 1;
    }
    assert cp[at..at + |key|] == key;
    same := true;
  }

  /** The first position from i on where the string stands; behind the text if nowhere. */
  function FindKey(cp: seq<char>, i: nat, key: seq<char>): (r: nat)
    requires i < |cp|
    ensures i <= r < |cp| || r == |cp|
    ensures r < |cp| ==> StandsAt(cp, r, key)
    ensures forall j :: i <= j < r ==> !StandsAt(cp, j, key)
    decreases |cp| - i
  {
    if StandsAt(cp, i, key) then i else if i == |cp| - 1 then |cp| else FindKey(cp, i + 1, key)
  }

  /** The position behind the first occurrence of the string from at on. */
  method ScanTo(cp: seq<char>, at: nat, key: seq<char>) returns (found: bool, r: nat)
    requires IsText(cp) && at < |cp| && IsKey(key)
    ensures found == (FindKey(cp, at, key) < |cp|) && (found ==> r == FindKey(cp, at, key) + |key| < |cp|)
  {
    r := 0;
    if at + |key| < |cp| {
      var i := at;
      while i + |key| < |cp|
        invariant at <= i && i + |key| <= |cp| && forall j :: at <= j < i ==> !StandsAt(cp, j, key)
        decreases |cp| - i
      {
        var same := StartsWith(cp, i, key);
        if same {
          assert FindKey(cp, at, key) == i;
          return true, i + |key|;
        }
        i := i + 1;
      }
    }
    found := false;
  }

  function ExactMatch(cp: seq<char>, at: nat, key: seq<char>): Match {
    Plain(if StandsAt(cp, at, key) then |key| else 0)
  }

  method ExactStringMatcher(cp: seq<char>, at: nat, key: seq<char>) returns (m: Match)
    requires IsText(cp) && at < |cp| - 1 && IsKey(key)
    ensures m == ExactMatch(cp, at, key)
  {
    var same := StartsWith(cp, at, key);
    m := Plain(if same then |key| else 0);
  }

  const BlockBegin := "/*"
  const BlockEnd := "*/"
  const LineBegin := "//"

  /** A block comment goes to its first end; without one it is an error. */
  function BlockMatch(cp: seq<char>, at: nat): Match
    requires at < |cp| - 1
  {
    if !StandsAt(cp, at, BlockBegin) then NoMatch
    else
      var e := FindKey(cp, at + |BlockBegin|, BlockEnd);
      if e < |cp| then Plain(e + |BlockEnd| - at) else Fault
  }

  method BlockCmtMatcher(cp: seq<char>, at: nat) returns (m: Match)
    requires IsText(cp) && at < |cp| - 1
    ensures m == BlockMatch(cp, at)
  {
    var begins := StartsWith(cp, at, BlockBegin);
    if !begins { return NoMatch; }
    var found, r := ScanTo(cp, at + |BlockBegin|, BlockEnd);
    if !found { return Fault; }
    m := Plain(r - at);
  }

  /** A line comment goes up to and with the next newline, or to the end of the text. */
  function LineMatch(cp: seq<char>, at: nat): Match
    requires at < |cp| - 1
  {
    if !StandsAt(cp, at, LineBegin) then NoMatch
    else
      var e := FindKey(cp, at + |LineBegin|, "\n");
      Plain(if e < |cp| then e + 1 - at else |cp| - 1 - at)
  }

  method LineCmtMatcher(cp: seq<char>, at: nat) returns (m: Match)
    requires IsText(cp) && at < |cp| - 1
    ensures m == LineMatch(cp, at)
  {
    var begins := StartsWith(cp, at, LineBegin);
    if !begins { return NoMatch; }
    var found, r := ScanTo(cp, at + |LineBegin|, "\n");
    m := Plain(if found then r - at else |cp| - 1 - at);
  }
}
