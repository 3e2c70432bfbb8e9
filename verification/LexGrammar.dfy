/** The tokens of src/core/cwLex.cpp by their characters, and nothing else: what may stand in a text from
    one position up to another. The matchers are then shown to find the longest of these. */
module LexGrammar {
  import opened LexMatch
  import opened LexTable

  // ----------------------------------------------------------------- the characters of a token

  predicate AllDigits(cp: seq<char>, i: nat, e: nat)
    requires e <= |cp|
  {
    forall j :: i <= j < e ==> '0' <= cp[j] <= '9'
  }

  /** White space. */
  predicate SpaceAt(cp: seq<char>, at: nat, e: nat)
    requires at < e <= |cp|
  {
    forall j :: at <= j < e ==> cp[j] == ' ' || '\t' <= cp[j] <= '\r'
  }

  /** Digits, behind a minus sign or before a u, but not both. */
  predicate IntAt(cp: seq<char>, at: nat, e: nat)
    requires at < e <= |cp|
  {
    var s := if cp[at] == '-' then at + 1 else at;
    var d := if cp[e - 1] == 'u' || cp[e - 1] == 'U' then e - 1 else e;
    s < d && AllDigits(cp, s, d) && (s == at || d == e)
  }

  /** Digits and at most one point among them, behind a minus sign or none. */
  predicate MantissaAt(cp: seq<char>, at: nat, b: nat)
    requires at <= b <= |cp|
  {
    && (exists j :: at <= j < b && '0' <= cp[j] <= '9')
    && (forall j :: at <= j < b ==> '0' <= cp[j] <= '9' || cp[j] == '.' || (j == at && cp[j] == '-'))
    && forall j, k :: at <= j < k < b ==> !(cp[j] == '.' && cp[k] == '.')
  }

  /** Nothing, or an e with a sign or none, and digits or none. */
  predicate ExponentAt(cp: seq<char>, b: nat, f: nat)
    requires b <= f <= |cp|
  {
    && (b < f ==> cp[b] == 'e' || cp[b] == 'E')
    && forall j :: b < j < f ==> '0' <= cp[j] <= '9' || (j == b + 1 && (cp[j] == '-' || cp[j] == '+'))
  }

  /** A mantissa, an exponent and an f, of which the last two may be missing; but there must be a point, a
      digit in the exponent, or the f. */
  predicate RealAt(cp: seq<char>, at: nat, e: nat)
    requires at < e <= |cp|
  {
    exists b :: at <= b <= e && RealParts(cp, at, b, e)
  }

  predicate RealParts(cp: seq<char>, at: nat, b: nat, e: nat)
    requires at <= b <= e <= |cp| && at < e
  {
    var f := if cp[e - 1] == 'f' || cp[e - 1] == 'F' then e - 1 else e;
    && b <= f && MantissaAt(cp, at, b) && ExponentAt(cp, b, f)
    && (f < e || (exists j :: at <= j < b && cp[j] == '.') || exists j :: b < j < f && '0' <= cp[j] <= '9')
  }

  /** 0x and hexadecimal digits, even none, though not in the last two characters of a text. */
  predicate HexAt(cp: seq<char>, at: nat, e: nat)
    requires at < e <= |cp|
  {
    && at + 2 <= e && at + 3 < |cp| && cp[at] == '0' && (cp[at + 1] == 'x' || cp[at + 1] == 'X')
    && forall j :: at + 2 <= j < e ==> '0' <= cp[j] <= '9' || 'a' <= cp[j] <= 'f' || 'A' <= cp[j] <= 'F'
  }

  /** Letters, digits and underscores, the first no digit. */
  predicate IdentAt(cp: seq<char>, at: nat, e: nat)
    requires at < e <= |cp|
  {
    && !('0' <= cp[at] <= '9')
    && forall j :: at <= j < e ==>
         'a' <= cp[j] <= 'z' || 'A' <= cp[j] <= 'Z' || '0' <= cp[j] <= '9' || cp[j] == '_'
  }

  /** Characters that are no quotes, and pairs of an escape and any character. */
  predicate LiteralAt(cp: seq<char>, i: nat, e: nat, quote: char)
    requires i <= e <= |cp|
    decreases e - i
  {
    i == e
    || (cp[i] == '\\' && i + 2 <= e && LiteralAt(cp, i + 2, e, quote))
    || (cp[i] != '\\' && cp[i] != quote && LiteralAt(cp, i + 1, e, quote))
  }

  /** Such characters between two double quotes. */
  predicate QStrAt(cp: seq<char>, at: nat, e: nat)
    requires at < e <= |cp|
  {
    at + 2 <= e && cp[at] == '"' && cp[e - 1] == '"' && LiteralAt(cp, at + 1, e - 1, '"')
  }

  /** One character, or an escape and one character, between two single quotes. */
  predicate QCharAt(cp: seq<char>, at: nat, e: nat)
    requires at < e <= |cp|
  {
    && cp[at] == '\'' && cp[e - 1] == '\''
    && ((e == at + 3 && cp[at + 1] != '\\' && cp[at + 1] != '\'') || (e == at + 4 && cp[at + 1] == '\\'))
  }

  /** Between a slash and a star and the first star and slash behind them. */
  predicate BlockCmtAt(cp: seq<char>, at: nat, e: nat)
    requires at < e <= |cp|
  {
    && at + 4 <= e && cp[at] == '/' && cp[at + 1] == '*' && cp[e - 2] == '*' && cp[e - 1] == '/'
    && forall j :: at + 2 <= j < e - 2 ==> !(cp[j] == '*' && cp[j + 1] == '/')
  }

  /** Two slashes and what is behind them, a newline at most at the end. */
  predicate LineCmtAt(cp: seq<char>, at: nat, e: nat)
    requires at < e <= |cp|
  {
    at + 2 <= e && cp[at] == '/' && cp[at + 1] == '/' && forall j :: at + 2 <= j < e - 1 ==> cp[j] != '\n'
  }

  /** The characters from at up to e are a token of this type. */
  predicate TokenAt(id: nat, cp: seq<char>, at: nat, e: nat)
    requires at < e <= |cp|
  {
    if id == SpaceId then SpaceAt(cp, at, e)
    else if id == RealId then RealAt(cp, at, e)
    else if id == IntId then IntAt(cp, at, e)
    else if id == HexId then HexAt(cp, at, e)
    else if id == IdentId then IdentAt(cp, at, e)
    else if id == QStrId then QStrAt(cp, at, e)
    else if id == QCharId then QCharAt(cp, at, e)
    else if id == BlockCmtId then BlockCmtAt(cp, at, e)
    else id == LineCmtId && LineCmtAt(cp, at, e)
  }

  /** No characters are tokens of two types. */
  lemma OneType(k: nat, l: nat, cp: seq<char>, at: nat, e: nat)
    requires at < e <= |cp| && TokenAt(k, cp, at, e) && TokenAt(l, cp, at, e)
    ensures k == l
  {
    StartOf(k, cp, at, e);
    StartOf(l, cp, at, e);
    if k == RealId || l == RealId { RealHasMark(cp, at, e); }
    if k == IntId || l == IntId { IntHasNoMark(cp, at, e); }
  }

  /** No type but this stands there. */
  ghost predicate NoOther(id: nat, cp: seq<char>, at: nat, e: nat)
    requires at < e <= |cp|
  {
    forall k :: TokenAt(k, cp, at, e) ==> k == id
  }

  lemma TokenHasOneType(id: nat, cp: seq<char>, at: nat, e: nat)
    requires at < e <= |cp| && TokenAt(id, cp, at, e)
    ensures NoOther(id, cp, at, e) == true
  {
    forall k | TokenAt(k, cp, at, e) ensures k == id { OneType(k, id, cp, at, e); }
  }

  /** The first character of a token. */
  lemma StartOf(k: nat, cp: seq<char>, at: nat, e: nat)
    requires at < e <= |cp| && TokenAt(k, cp, at, e)
    ensures k == SpaceId ==> cp[at] == ' ' || '\t' <= cp[at] <= '\r'
    ensures k == RealId ==> '0' <= cp[at] <= '9' || cp[at] == '-' || cp[at] == '.'
    ensures k == IntId ==> '0' <= cp[at] <= '9' || cp[at] == '-'
    ensures k == IdentId ==> 'a' <= cp[at] <= 'z' || 'A' <= cp[at] <= 'Z' || cp[at] == '_'
  {
    if k == RealId {
      var b := RealMantissa(cp, at, e);
      assert at <= at < b;
    }
  }

  /** The mantissa of a real has a character. */
  lemma RealMantissa(cp: seq<char>, at: nat, e: nat) returns (b: nat)
    requires at < e <= |cp| && RealAt(cp, at, e)
    ensures at < b <= e && RealParts(cp, at, b, e)
  {
    b :| at <= b <= e && RealParts(cp, at, b, e);
    assert RealParts(cp, at, b, e) && MantissaAt(cp, at, b);
    var j :| at <= j < b && '0' <= cp[j] <= '9';
  }

  /** A real has a character that an integer has not, and no x. */
  lemma RealHasMark(cp: seq<char>, at: nat, e: nat)
    requires at < e <= |cp| && RealAt(cp, at, e)
    ensures exists j :: at <= j < e && IsMark(cp[j])
    ensures at + 1 < e ==> cp[at + 1] != 'x' && cp[at + 1] != 'X'
  {
    var b := RealMantissa(cp, at, e);
    var f := if cp[e - 1] == 'f' || cp[e - 1] == 'F' then e - 1 else e;
    assert MantissaAt(cp, at, b) && ExponentAt(cp, b, f);
    if f < e {
      assert IsMark(cp[f]);
    } else if b < f {
      assert IsMark(cp[b]);
    } else {
      var j :| at <= j < b && cp[j] == '.';
      assert IsMark(cp[j]);
    }
  }

  predicate IsMark(c: char) { c == '.' || c == 'e' || c == 'E' || c == 'f' || c == 'F' }

  lemma IntHasNoMark(cp: seq<char>, at: nat, e: nat)
    requires at < e <= |cp| && IntAt(cp, at, e)
    ensures forall j :: at <= j < e ==> !IsMark(cp[j])
  {
  }

  // ----------------------------------------------------------------- the matchers find the longest

  predicate KindAt(k: Kind, cp: seq<char>, at: nat, e: nat)
    requires at < e <= |cp|
  {
    match k
    case SpaceKind => SpaceAt(cp, at, e)
    case RealKind => RealAt(cp, at, e)
    case IntKind => IntAt(cp, at, e)
    case HexKind => HexAt(cp, at, e)
    case IdentKind => IdentAt(cp, at, e)
    case QStrKind => QStrAt(cp, at, e)
    case QCharKind => QCharAt(cp, at, e)
    case BlockCmtKind => BlockCmtAt(cp, at, e)
    case LineCmtKind => LineCmtAt(cp, at, e)
    case _ => false
  }

  /** What a matcher finds stands there, and nothing longer does. */
  ghost predicate FindsLongest(k: Kind, cp: seq<char>, at: nat, n: nat) {
    && at + n < |cp| && (n > 0 ==> KindAt(k, cp, at, at + n))
    && forall e :: at + n < e < |cp| ==> !KindAt(k, cp, at, e)
  }

  lemma SpaceIsLongest(cp: seq<char>, at: nat)
    requires at < |cp| - 1
    ensures FindsLongest(SpaceKind, cp, at, SpaceMatch(cp, at).n)
  {
  }

  lemma IntEnds(cp: seq<char>, at: nat, e: nat)
    requires at < e < |cp| && IntAt(cp, at, e)
    ensures var s := SignEnd(cp, at);
            var d := RunEnd(Digit, cp, s);
            s < d && (e <= d || (e == d + 1 && s == at && (cp[d] == 'u' || cp[d] == 'U')))
  {
    var s := SignEnd(cp, at);
    var d := RunEnd(Digit, cp, s);
    var g := if cp[e - 1] == 'u' || cp[e - 1] == 'U' then e - 1 else e;
    DigitsCovered(cp, s, g);
  }

  /** The run goes on as far as there are digits. */
  lemma {:induction false} DigitsCovered(cp: seq<char>, s: nat, g: nat)
    requires s <= g < |cp| && AllDigits(cp, s, g)
    ensures g <= RunEnd(Digit, cp, s)
    decreases g - s
  {
    if s < g { DigitsCovered(cp, s + 1, g); }
  }

  lemma IntIsLongest(cp: seq<char>, at: nat)
    requires at < |cp| - 1 && !IntMatch(cp, at).fault
    ensures FindsLongest(IntKind, cp, at, IntMatch(cp, at).n)
  {
    var s := SignEnd(cp, at);
    var d := RunEnd(Digit, cp, s);
    forall e | at + IntMatch(cp, at).n < e < |cp| ensures !IntAt(cp, at, e) {
      if IntAt(cp, at, e) { IntEnds(cp, at, e); }
    }
  }

  lemma HexIsLongest(cp: seq<char>, at: nat)
    requires at < |cp| - 1
    ensures FindsLongest(HexKind, cp, at, HexMatch(cp, at).n)
  {
  }

  lemma IdentIsLongest(cp: seq<char>, at: nat)
    requires at < |cp| - 1
    ensures FindsLongest(IdentKind, cp, at, IdentMatch(cp, at).n)
  {
  }

  lemma BlockCmtIsLongest(cp: seq<char>, at: nat)
    requires at < |cp| - 1 && !BlockMatch(cp, at).fault
    ensures FindsLongest(BlockCmtKind, cp, at, BlockMatch(cp, at).n)
  {
    if StandsAt(cp, at, BlockBegin) {
      BlockStands(cp, at, FindKey(cp, at + 2, BlockEnd));
    } else {
      TwoStand(cp, BlockBegin);
    }
  }

  /** The first end mark ends a comment. */
  lemma BlockStands(cp: seq<char>, at: nat, r: nat)
    requires at < |cp| - 1 && StandsAt(cp, at, BlockBegin) && at + 2 <= r < |cp| && StandsAt(cp, r, BlockEnd)
    requires forall j :: at + 2 <= j < r ==> !StandsAt(cp, j, BlockEnd)
    ensures r + 2 < |cp| && BlockCmtAt(cp, at, r + 2) == true
    ensures forall e :: r + 2 < e < |cp| ==> BlockCmtAt(cp, at, e) == false
  {
    TwoStand(cp, BlockBegin);
    TwoStand(cp, BlockEnd);
  }

  lemma LineCmtIsLongest(cp: seq<char>, at: nat)
    requires at < |cp| - 1
    ensures FindsLongest(LineCmtKind, cp, at, LineMatch(cp, at).n)
  {
    TwoStand(cp, LineBegin);
    OneStands(cp, "\n");
    var n := LineMatch(cp, at).n;
    if n > 0 {
      assert LineCmtAt(cp, at, at + n);
      forall e | at + n < e < |cp| ensures !LineCmtAt(cp, at, e) { assert cp[at + n - 1] == '\n'; }
    }
  }

  /** A string of two characters (or one) stands where these do. */
  lemma TwoStand(cp: seq<char>, key: seq<char>)
    requires |key| == 2
    ensures forall i: nat :: StandsAt(cp, i, key) <==> i + 2 < |cp| && cp[i] == key[0] && cp[i + 1] == key[1]
  {
    forall i: nat ensures StandsAt(cp, i, key) <==> i + 2 < |cp| && cp[i] == key[0] && cp[i + 1] == key[1] {
      if i + 2 < |cp| {
        var s := cp[i..i + 2];
        assert s[0] == cp[i] && s[1] == cp[i + 1];
        assert s == key <==> s[0] == key[0] && s[1] == key[1];
      }
    }
  }

  lemma OneStands(cp: seq<char>, key: seq<char>)
    requires |key| == 1
    ensures forall i: nat :: StandsAt(cp, i, key) <==> i + 1 < |cp| && cp[i] == key[0]
  {
    forall i: nat ensures StandsAt(cp, i, key) <==> i + 1 < |cp| && cp[i] == key[0] {
      if i + 1 < |cp| { assert cp[i..i + 1] == [cp[i]]; }
    }
  }

  // ----------------------------------------------------------------- reals

  lemma MantissaStands(cp: seq<char>, at: nat)
    requires at < |cp| - 1 && MantissaDigits(cp, at) > 0
    ensures MantissaAt(cp, at, MantissaEnd(cp, at)) && at < MantissaEnd(cp, at)
    ensures var b := MantissaEnd(cp, at); '0' <= cp[b - 1] <= '9' || cp[b - 1] == '.'
    ensures (exists j :: at <= j < MantissaEnd(cp, at) && cp[j] == '.') <==> Points(cp, at) == 1
  {
    var s := SignEnd(cp, at);
    var e, b := RunEnd(Digit, cp, s), MantissaEnd(cp, at);
    assert forall j :: s <= j < e ==> Is(Digit, cp[j]);
    if s < e {
      assert '0' <= cp[s] <= '9';
    } else {
      assert Is(Digit, cp[e + 1]) && '0' <= cp[e + 1] <= '9';
    }
    if Points(cp, at) == 1 { assert cp[e] == '.'; }
  }

  lemma MantissaEnds(cp: seq<char>, at: nat, b: nat)
    requires at < |cp| - 1 && at <= b < |cp| && MantissaAt(cp, at, b)
    ensures b <= MantissaEnd(cp, at) && MantissaDigits(cp, at) > 0
    ensures (exists j :: at <= j < b && cp[j] == '.') ==> Points(cp, at) == 1
  {
    var s := SignEnd(cp, at);
    var e := RunEnd(Digit, cp, s);
    var j :| at <= j < b && '0' <= cp[j] <= '9';
    if e < b {
      assert !Is(Digit, cp[e]);
      assert cp[e] == '.';
      var r := RunEnd(Digit, cp, e + 1);
      assert r < |cp| - 1 ==> !Is(Digit, cp[r]);
    }
  }

  /** Where the matcher of reals finds the end of an exponent that starts at b, or b. */
  function ExponentEnd(cp: seq<char>, b: nat): (e: nat)
    requires b < |cp|
    ensures b <= e < |cp|
  {
    if AtExponent(cp, b) then RunEnd(Digit, cp, ExponentSignEnd(cp, b + 1)) else b
  }

  lemma ExponentStands(cp: seq<char>, b: nat)
    requires b < |cp|
    ensures ExponentAt(cp, b, ExponentEnd(cp, b))
    ensures var e := ExponentEnd(cp, b);
            (exists j :: b < j < e && '0' <= cp[j] <= '9')
            <==> AtExponent(cp, b) && e > ExponentSignEnd(cp, b + 1)
    ensures var e := ExponentEnd(cp, b); e > b ==> cp[e - 1] != 'f' && cp[e - 1] != 'F'
  {
    if AtExponent(cp, b) {
      var j, e := ExponentSignEnd(cp, b + 1), ExponentEnd(cp, b);
      assert forall k :: j <= k < e ==> Is(Digit, cp[k]);
      if e > j { assert '0' <= cp[j] <= '9'; }
    }
  }

  lemma ExponentEnds(cp: seq<char>, b: nat, f: nat)
    requires b <= f < |cp| && ExponentAt(cp, b, f)
    ensures f <= ExponentEnd(cp, b)
    ensures f < ExponentEnd(cp, b) ==> f == b || '0' <= cp[f] <= '9' || cp[f] == '-' || cp[f] == '+'
    ensures f < ExponentEnd(cp, b) && f == b ==> cp[f] == 'e' || cp[f] == 'E'
  {
    if b < f {
      var j := ExponentSignEnd(cp, b + 1);
      var e := RunEnd(Digit, cp, j);
      assert e < |cp| - 1 ==> !Is(Digit, cp[e]);
      if f < e && j <= f { assert Is(Digit, cp[f]); }
    }
  }

  lemma RealStands(cp: seq<char>, at: nat)
    requires at < |cp| - 1 && RealMatch(cp, at).n > 0
    ensures at + RealMatch(cp, at).n < |cp| && RealAt(cp, at, at + RealMatch(cp, at).n)
  {
    var b, e := MantissaEnd(cp, at), at + RealMatch(cp, at).n;
    MantissaStands(cp, at);
    ExponentStands(cp, b);
    var f := if RealMatch(cp, at).suffix then e - 1 else e;
    assert f == ExponentEnd(cp, b) && RealParts(cp, at, b, e);
    assert f == if cp[e - 1] == 'f' || cp[e - 1] == 'F' then e - 1 else e;
  }

  lemma RealSuffix(cp: seq<char>, at: nat)
    requires at < |cp| - 1 && RealMatch(cp, at).n > 0
    ensures at + RealMatch(cp, at).n < |cp|
    ensures var c := cp[at + RealMatch(cp, at).n - 1]; RealMatch(cp, at).suffix <==> c == 'f' || c == 'F'
  {
    RealStands(cp, at);
    MantissaStands(cp, at);
    ExponentStands(cp, MantissaEnd(cp, at));
  }

  /** What a mantissa is made of is no part of an exponent or a suffix. */
  lemma MantissaChar(c: char, first: bool)
    requires '0' <= c <= '9' || c == '.' || (first && c == '-')
    ensures !(c == 'e' || c == 'E' || c == 'f' || c == 'F')
  {
  }

  /** Where the match of a real ends that has a mark. */
  lemma RealMatchEnds(cp: seq<char>, at: nat, b: nat, x: nat)
    requires at < |cp| - 1 && MantissaDigits(cp, at) > 0 && b == MantissaEnd(cp, at) && x == ExponentEnd(cp, b)
    ensures var suffix := x < |cp| - 1 && (cp[x] == 'f' || cp[x] == 'F');
            suffix || Points(cp, at) == 1 || (exists j :: b < j < x && '0' <= cp[j] <= '9')
            ==> RealMatch(cp, at).n == x - at + if suffix then 1 else 0
  {
    ExponentStands(cp, b);
  }

  lemma RealEnds(cp: seq<char>, at: nat, e: nat)
    requires at < |cp| - 1 && at < e < |cp| && RealAt(cp, at, e)
    ensures e <= at + RealMatch(cp, at).n
  {
    var b := RealMantissa(cp, at, e);
    var m := MantissaEnd(cp, at);
    MantissaEnds(cp, at, b);
    RealMatchEnds(cp, at, m, ExponentEnd(cp, m));
    if b == m {
      ExponentEnds(cp, b, if cp[e - 1] == 'f' || cp[e - 1] == 'F' then e - 1 else e);
    } else {
      ShortMantissa(cp, at, b, if cp[e - 1] == 'f' || cp[e - 1] == 'F' then e - 1 else e, e);
    }
  }

  /** A real whose mantissa is not all that could be has nothing behind it. */
  lemma ShortMantissa(cp: seq<char>, at: nat, b: nat, f: nat, e: nat)
    requires at < |cp| - 1 && at < b <= e < |cp| && RealParts(cp, at, b, e)
    requires f == (if cp[e - 1] == 'f' || cp[e - 1] == 'F' then e - 1 else e) && b < MantissaEnd(cp, at)
    ensures e == b && exists j :: at <= j < b && cp[j] == '.'
  {
    MantissaStands(cp, at);
    MantissaChar(cp[b], b == at);
  }

  lemma RealIsLongest(cp: seq<char>, at: nat)
    requires at < |cp| - 1
    ensures FindsLongest(RealKind, cp, at, RealMatch(cp, at).n)
  {
    if RealMatch(cp, at).n > 0 { RealStands(cp, at); }
    forall e | at + RealMatch(cp, at).n < e < |cp| ensures !RealAt(cp, at, e) {
      if RealAt(cp, at, e) { RealEnds(cp, at, e); }
    }
  }

  // ----------------------------------------------------------------- quotes

  /** Behind whole characters of a literal nothing is escaped, and nowhere among them it ends. */
  lemma {:induction false} LiteralGoesOn(cp: seq<char>, from: nat, i: nat, e: nat, quote: char)
    requires from <= i <= e < |cp| && !Escaped(cp, from, i) && LiteralAt(cp, i, e, quote) && quote != '\\'
    ensures !Escaped(cp, from, e) && forall j :: i <= j < e ==> !Closes(cp, from, j, quote)
    decreases e - i
  {
    if i < e {
      if cp[i] == '\\' && i + 2 <= e && LiteralAt(cp, i + 2, e, quote) {
        assert Escaped(cp, from, i + 1) && !Escaped(cp, from, i + 2);
        LiteralGoesOn(cp, from, i + 2, e, quote);
      } else {
        LiteralGoesOn(cp, from, i + 1, e, quote);
      }
    }
  }

  lemma {:induction false} LiteralStands(cp: seq<char>, from: nat, i: nat, e: nat, quote: char)
    requires from <= i <= e < |cp| && !Escaped(cp, from, i) && !Escaped(cp, from, e)
    requires forall j :: i <= j < e ==> !Closes(cp, from, j, quote)
    ensures LiteralAt(cp, i, e, quote)
    decreases e - i
  {
    if i < e {
      assert !Closes(cp, from, i, quote);
      if cp[i] == '\\' {
        assert Escaped(cp, from, i + 1) && (i + 2 < |cp| ==> !Escaped(cp, from, i + 2));
        LiteralStands(cp, from, i + 2, e, quote);
      } else {
        LiteralStands(cp, from, i + 1, e, quote);
      }
    }
  }

  /** A literal closes at q, and nowhere before, exactly when whole characters lead there. */
  lemma LiteralCloses(cp: seq<char>, from: nat, q: nat, quote: char)
    requires from <= q < |cp| - 1 && cp[q] == quote != '\\'
    ensures LiteralAt(cp, from, q, quote) <==> CloseAt(cp, from, from, quote) == q
  {
    if LiteralAt(cp, from, q, quote) {
      LiteralGoesOn(cp, from, from, q, quote);
      CloseAtIs(cp, from, q, quote);
    }
    if CloseAt(cp, from, from, quote) == q { LiteralStands(cp, from, from, q, quote); }
  }

  lemma QStrIsLongest(cp: seq<char>, at: nat)
    requires at < |cp| - 1
    ensures !QStrMatch(cp, at).fault ==> FindsLongest(QStrKind, cp, at, QStrMatch(cp, at).n)
    ensures QStrMatch(cp, at).fault <==> cp[at] == '"' && forall e :: at < e < |cp| ==> !QStrAt(cp, at, e)
  {
    if cp[at] == '"' {
      var c := CloseAt(cp, at + 1, at + 1, '"');
      if c < |cp| - 1 {
        LiteralCloses(cp, at + 1, c, '"');
        assert QStrAt(cp, at, c + 1);
      }
      forall e | at < e < |cp| && QStrAt(cp, at, e) ensures e == c + 1 { LiteralCloses(cp, at + 1, e - 1, '"'); }
    }
  }

  lemma QCharIsLongest(cp: seq<char>, at: nat)
    requires at < |cp| - 1
    ensures !QCharMatch(cp, at).fault ==> FindsLongest(QCharKind, cp, at, QCharMatch(cp, at).n)
    ensures QCharMatch(cp, at).fault <==> cp[at] == '\'' && forall e :: at < e < |cp| ==> !QCharAt(cp, at, e)
  {
    if cp[at] == '\'' {
      var c := CloseAt(cp, at + 1, at + 1, '\'');
      if c < |cp| - 1 { LiteralCloses(cp, at + 1, c, '\''); }
      if c == at + 2 && c < |cp| - 1 { assert QCharAt(cp, at, c + 1) by { assert LiteralAt(cp, at + 1, c, '\''); } }
      if c == at + 3 && c < |cp| - 1 && cp[at + 1] == '\\' { assert QCharAt(cp, at, c + 1); }
      forall e | at < e < |cp| && QCharAt(cp, at, e) ensures e == c + 1 && QCharMatch(cp, at) == Plain(e - at) {
        assert LiteralAt(cp, e - 1, e - 1, '\'');
        if e == at + 3 { assert LiteralAt(cp, at + 2, e - 1, '\''); }
        LiteralCloses(cp, at + 1, e - 1, '\'');
      }
    }
  }

  // ----------------------------------------------------------------- errors

  /** A token starts here that is none: a u behind a number with a sign, or quotes or a block comment that
      do not end as they must. */
  predicate ErrorAt(cp: seq<char>, at: nat, qChars: bool)
    requires at < |cp| - 1
  {
    || (cp[at] == '-' && SignedU(cp, at))
    || (cp[at] == '"' && forall e :: at < e < |cp| ==> !QStrAt(cp, at, e))
    || (qChars && cp[at] == '\'' && forall e :: at < e < |cp| ==> !QCharAt(cp, at, e))
    || (cp[at] == '/' && cp[at + 1] == '*' && at + 2 < |cp| && forall e :: at < e < |cp| ==> !BlockCmtAt(cp, at, e))
  }

  predicate SignedU(cp: seq<char>, at: nat) {
    exists d :: at + 1 < d < |cp| - 1 && AllDigits(cp, at + 1, d) && (cp[d] == 'u' || cp[d] == 'U')
  }

  lemma IntFault(cp: seq<char>, at: nat)
    requires at < |cp| - 1
    ensures IntMatch(cp, at).fault <==> cp[at] == '-' && SignedU(cp, at)
  {
    var s := SignEnd(cp, at);
    var e := RunEnd(Digit, cp, s);
    if s < e { assert AllDigits(cp, s, e); }
    if cp[at] == '-' && SignedU(cp, at) {
      var d :| at + 1 < d < |cp| - 1 && AllDigits(cp, at + 1, d) && (cp[d] == 'u' || cp[d] == 'U');
      RunEndIs(Digit, cp, s, d);
    }
  }

  lemma BlockEndStands(cp: seq<char>, at: nat, e: nat)
    requires at < e < |cp| && BlockCmtAt(cp, at, e)
    ensures at + 2 <= e - 2 && StandsAt(cp, e - 2, BlockEnd)
  {
    TwoStand(cp, BlockEnd);
  }

  lemma BlockCmtFault(cp: seq<char>, at: nat)
    requires at < |cp| - 1
    ensures BlockMatch(cp, at).fault <==>
              && cp[at] == '/' && cp[at + 1] == '*' && at + 2 < |cp|
              && forall e :: at < e < |cp| ==> !BlockCmtAt(cp, at, e)
  {
    TwoStand(cp, BlockBegin);
    TwoStand(cp, BlockEnd);
    if StandsAt(cp, at, BlockBegin) {
      var f := FindKey(cp, at + 2, BlockEnd);
      if f < |cp| {
        assert BlockCmtAt(cp, at, f + 2);
      } else {
        forall e | at < e < |cp| ensures !BlockCmtAt(cp, at, e) {
          if BlockCmtAt(cp, at, e) { BlockEndStands(cp, at, e); }
        }
      }
    }
  }

  /** Every built-in matcher finds the longest of its tokens, if it finds no error. */
  lemma BuiltInFindsLongest(k: Kind, cp: seq<char>, at: nat)
    requires IsBuiltIn(k) && at < |cp| - 1 && !MatchOf(k, cp, at).fault
    ensures FindsLongest(k, cp, at, MatchOf(k, cp, at).n)
  {
    match k
    case SpaceKind => SpaceIsLongest(cp, at);
    case RealKind => RealIsLongest(cp, at);
    case IntKind => IntIsLongest(cp, at);
    case HexKind => HexIsLongest(cp, at);
    case IdentKind => IdentIsLongest(cp, at);
    case QStrKind => QStrIsLongest(cp, at);
    case QCharKind => QCharIsLongest(cp, at);
    case BlockCmtKind => BlockCmtIsLongest(cp, at);
    case LineCmtKind => LineCmtIsLongest(cp, at);
  }

  /** They find these errors. */
  lemma BuiltInFaults(cp: seq<char>, at: nat, qChars: bool)
    requires at < |cp| - 1
    ensures ErrorAt(cp, at, qChars) <==>
              || IntMatch(cp, at).fault || QStrMatch(cp, at).fault || BlockMatch(cp, at).fault
              || (qChars && QCharMatch(cp, at).fault)
  {
    IntFault(cp, at);
    QStrIsLongest(cp, at);
    QCharIsLongest(cp, at);
    BlockCmtFault(cp, at);
  }
}
