/** The lexer of src/core/cwLex.cpp. What it returns token by token is compared with the stream of all
    tokens in the text, which does not depend on what the caller chooses to see. */
module Lexer {
  import opened LexMatch
  import opened LexTable
  import opened LexGrammar

  const ErrorId := 0
  const UnknownId := 1
  const EofId := 2

  datatype RC = Ok | Eof | SyntaxError

  datatype Flags = Flags(
    returnSpace: bool,
    returnComments: bool,
    returnUnknown: bool,
    userDefPriority: bool)

  /** What decides the tokens of a text: the table, and two of the flags. */
  datatype Rules = Rules(mfp: seq<Matcher>, unknown: bool, priority: bool)

  datatype Token = Token(id: nat, at: nat, n: nat, line: nat)

  ghost predicate IsTable(mfp: seq<Matcher>) { forall i :: 0 <= i < |mfp| ==> IsKind(mfp[i].kind) }

  // ----------------------------------------------------------------- one token

  /** The length that a matcher finds; none if it is not enabled. */
  function LengthOf(m: Matcher, cp: seq<char>, at: nat): nat
    requires at < |cp| - 1
  {
    if m.enableFl then MatchOf(m.kind, cp, at).n else 0
  }

  /** Some enabled matcher among the first k finds a syntax error. */
  predicate Faulty(mfp: seq<Matcher>, cp: seq<char>, at: nat, k: nat)
    requires at < |cp| - 1 && k <= |mfp|
  {
    k > 0 && (Faulty(mfp, cp, at, k - 1) || (mfp[k - 1].enableFl && MatchOf(mfp[k - 1].kind, cp, at).fault))
  }

  lemma {:induction false} FaultStays(mfp: seq<Matcher>, cp: seq<char>, at: nat, j: nat, k: nat)
    requires at < |cp| - 1 && j <= k <= |mfp| && Faulty(mfp, cp, at, j)
    ensures Faulty(mfp, cp, at, k)
  {
    if j < k { FaultStays(mfp, cp, at, j, k - 1); }
  }

  /** The best match of the first k matchers. */
  function Chosen(r: Rules, cp: seq<char>, at: nat, k: nat): (b: Best)
    requires at < |cp| - 1 && k <= |r.mfp|
    ensures b.Best? ==> b.i < k && 0 < b.n == LengthOf(r.mfp[b.i], cp, at)
  {
    if k == 0 then Nothing
    else
      var b, n := Chosen(r, cp, at, k - 1), LengthOf(r.mfp[k - 1], cp, at);
      var held := if b.Best? then r.mfp[b.i].typeId else 0;
      if Takes(b, held, n, r.mfp[k - 1].typeId, r.priority) then Best(n, k - 1) else b
  }

  function Lengths(mfp: seq<Matcher>, cp: seq<char>, at: nat): (lens: seq<nat>)
    requires at < |cp| - 1
    ensures |lens| == |mfp|
  {
    seq(|mfp|, i requires 0 <= i < |mfp| => LengthOf(mfp[i], cp, at))
  }

  function Types(mfp: seq<Matcher>): (types: seq<nat>)
    ensures |types| == |mfp|
  {
    seq(|mfp|, i requires 0 <= i < |mfp| => mfp[i].typeId)
  }

  /** It is the pick from the lengths that they find. */
  lemma {:induction false} ChosenIsPick(r: Rules, cp: seq<char>, at: nat, k: nat)
    requires at < |cp| - 1 && k <= |r.mfp|
    ensures Chosen(r, cp, at, k) == Pick(Types(r.mfp), Lengths(r.mfp, cp, at), r.priority, k)
  {
    if k > 0 { ChosenIsPick(r, cp, at, k - 1); }
  }

  /** Some enabled matcher of reals (or of integers) among the first k finds a type suffix. */
  predicate Suffixed(mfp: seq<Matcher>, cp: seq<char>, at: nat, ofReal: bool, k: nat)
    requires at < |cp| - 1 && k <= |mfp|
  {
    k > 0 && (Suffixed(mfp, cp, at, ofReal, k - 1)
              || (mfp[k - 1].enableFl && (if ofReal then mfp[k - 1].kind.RealKind? else mfp[k - 1].kind.IntKind?)
                  && MatchOf(mfp[k - 1].kind, cp, at).suffix))
  }

  datatype Scan = Found(id: nat, n: nat) | Failed

  /** The token at a position. */
  function ScanAt(r: Rules, cp: seq<char>, at: nat): Scan
    requires at < |cp| - 1
  {
    if Faulty(r.mfp, cp, at, |r.mfp|) then Failed
    else
      match Chosen(r, cp, at, |r.mfp|)
      case Best(n, i) => Found(r.mfp[i].typeId, n)
      case Nothing => if r.unknown then Found(UnknownId, 1) else Failed
  }

  /** A token has at least one character, and all of its characters are in the text. */
  lemma ScanAdvances(r: Rules, cp: seq<char>, at: nat)
    requires IsText(cp) && IsTable(r.mfp) && at < |cp| - 1 && ScanAt(r, cp, at).Found?
    ensures 0 < ScanAt(r, cp, at).n < |cp| - at
  {
    match Chosen(r, cp, at, |r.mfp|)
    case Best(n, i) => MatchFits(r.mfp[i].kind, cp, at);
    case Nothing =>
  }

  /** Without priority for user tokens, no enabled matcher finds more than the token; and if the token is
      of unknown type, none finds anything. */
  lemma TokenIsLongest(r: Rules, cp: seq<char>, at: nat, i: nat)
    requires at < |cp| - 1 && !r.priority && ScanAt(r, cp, at).Found? && i < |r.mfp|
    ensures LengthOf(r.mfp[i], cp, at) <= match Chosen(r, cp, at, |r.mfp|)
                                          case Best(n, _) => n
                                          case Nothing => 0
    ensures Chosen(r, cp, at, |r.mfp|).Best? ==> ScanAt(r, cp, at).n == Chosen(r, cp, at, |r.mfp|).n
  {
    ChosenIsPick(r, cp, at, |r.mfp|);
    var lens := Lengths(r.mfp, cp, at);
    MaximalMunch(Types(r.mfp), lens, |r.mfp|);
    assert LengthOf(r.mfp[i], cp, at) == lens[i];
  }

  /** Where the matcher of identifiers stands in the table of every lexer. */
  const IdentPlace := 4

  /** The table of a lexer: built-in matchers, that of identifiers in place e, and behind them those of
      the user. */
  predicate IsLexerTable(mfp: seq<Matcher>, e: nat) {
    && e < |mfp| && mfp[e].kind.IdentKind? && mfp[e].typeId == IdentId
    && forall j :: 0 <= j < |mfp| && j != e ==>
         if j > e && !IsBuiltIn(mfp[j].kind) then mfp[j].typeId >= UserId
         else IsBuiltIn(mfp[j].kind) && !mfp[j].kind.IdentKind?
  }

  lemma BuiltInsAreTable(returnQChar: bool)
    ensures IsLexerTable(BuiltIns(returnQChar), IdentPlace)
  {
  }

  /** A token or a function of the user keeps the table in this form exactly when its id is a user's; an
      id of a built-in matcher that is absent is accepted, but breaks it. */
  lemma TableGrows(mfp: seq<Matcher>, e: nat, m: Matcher)
    requires IsLexerTable(mfp, e) && !IsBuiltIn(m.kind)
    ensures IsLexerTable(mfp + [m], e) <==> m.typeId >= UserId
  {
    assert (mfp + [m])[|mfp|] == m;
    assert forall j :: 0 <= j < |mfp| ==> (mfp + [m])[j] == mfp[j];
  }

  lemma TableSwitched(mfp: seq<Matcher>, e: nat, i: nat, enableFl: bool)
    requires IsLexerTable(mfp, e) && i < |mfp|
    ensures IsLexerTable(mfp[i := mfp[i].(enableFl := enableFl)], e)
  {
  }

  /** The token is the longest that an added matcher finds, and that of matcher e only if none finds any. */
  predicate AddedWin(r: Rules, cp: seq<char>, at: nat, e: nat)
    requires at < |cp| - 1
  {
    var b := Chosen(r, cp, at, |r.mfp|);
    && b.Best?
    && if b.i == e then forall j :: 0 <= j < |r.mfp| && j != e ==> LengthOf(r.mfp[j], cp, at) == 0
       else !IsBuiltIn(r.mfp[b.i].kind)
            && forall j :: 0 <= j < |r.mfp| && j != e ==> LengthOf(r.mfp[j], cp, at) <= b.n
  }

  /** With priority for user tokens, where an identifier is found, the token is the longest that a user
      matcher finds, however short, and the identifier only if there is none. */
  lemma UserTokensWin(r: Rules, cp: seq<char>, at: nat, e: nat)
    requires at < |cp| - 1 && r.priority && IsLexerTable(r.mfp, e) && LengthOf(r.mfp[e], cp, at) > 0
    ensures AddedWin(r, cp, at, e)
  {
    var types, lens := Types(r.mfp), Lengths(r.mfp, cp, at);
    forall j | 0 <= j < |lens| && j != e && lens[j] > 0 ensures e < j && types[j] >= UserId {
      if IsBuiltIn(r.mfp[j].kind) { IdentStandsAlone(r.mfp[j].kind, cp, at); }
    }
    ChosenIsPick(r, cp, at, |r.mfp|);
    PriorityForUser(types, lens, e, |r.mfp|);
    var b := Chosen(r, cp, at, |r.mfp|);
    forall j | 0 <= j < |r.mfp| && j != e
      ensures LengthOf(r.mfp[j], cp, at) <= if b.i == e then 0 else b.n
    {
      assert LengthOf(r.mfp[j], cp, at) == lens[j];
    }
    if b.i != e && IsBuiltIn(r.mfp[b.i].kind) {
      IdentStandsAlone(r.mfp[b.i].kind, cp, at);
    }
  }

  lemma {:induction false} ChosenOfPrefix(r: Rules, m: Matcher, cp: seq<char>, at: nat, k: nat)
    requires at < |cp| - 1 && k <= |r.mfp|
    ensures Chosen(r.(mfp := r.mfp + [m]), cp, at, k) == Chosen(r, cp, at, k)
  {
    if k > 0 { ChosenOfPrefix(r, m, cp, at, k - 1); }
  }

  /** A matcher added under an id below those of the user loses where an identifier is found, unless its
      match is longer. So the added matchers win still exactly when it finds nothing, or a longer match
      than the token without it, or that token is another user's. */
  lemma LowIdWinsExactlyWhen(r: Rules, m: Matcher, cp: seq<char>, at: nat, e: nat)
    requires at < |cp| - 1 && r.priority && IsLexerTable(r.mfp, e) && LengthOf(r.mfp[e], cp, at) > 0
    requires !IsBuiltIn(m.kind) && m.typeId < UserId
    ensures var b, n := Chosen(r, cp, at, |r.mfp|), LengthOf(m, cp, at);
            && b.Best?
            && (AddedWin(r.(mfp := r.mfp + [m]), cp, at, e) <==> n == 0 || n > b.n || b.i != e)
  {
    UserTokensWin(r, cp, at, e);
    ChosenOfPrefix(r, m, cp, at, |r.mfp|);
    var all, b := r.mfp + [m], Chosen(r, cp, at, |r.mfp|);
    var c := Chosen(r.(mfp := all), cp, at, |all|);
    assert all[|r.mfp|] == m && forall j :: 0 <= j < |r.mfp| ==> all[j] == r.mfp[j];
    assert c == if LengthOf(m, cp, at) > b.n then Best(LengthOf(m, cp, at), |r.mfp|) else b;
    if c.i != e && c.i < |r.mfp| { assert LengthOf(all[|r.mfp|], cp, at) <= b.n; }
  }

  /** The string "ab" added under the id of quoted characters, which are not in the table: at "abc" the
      token is the identifier of three characters, with priority for user tokens as without. */
  lemma LowIdLoses(cp: seq<char>)
    requires cp == ['a', 'b', 'c', '\0']
    ensures var m := Matcher(QCharId, Exact(['a', 'b']), true);
            var r := Rules(BuiltIns(false) + [m], false, true);
            && LengthOf(m, cp, 0) == 2 && Chosen(r, cp, 0, |r.mfp|) == Best(3, IdentPlace)
            && !AddedWin(r, cp, 0, IdentPlace)
  {
    var m, r := Matcher(QCharId, Exact(['a', 'b']), true), Rules(BuiltIns(false), false, true);
    BuiltInsAreTable(false);
    RunEndIs(Word, cp, 1, 3);
    assert IdentMatch(cp, 0) == Plain(3) && LengthOf(r.mfp[IdentPlace], cp, 0) == 3;
    UserTokensWin(r, cp, 0, IdentPlace);
    var b := Chosen(r, cp, 0, |r.mfp|);
    assert b == Best(3, IdentPlace) by { assert IsBuiltIn(r.mfp[b.i].kind); }
    assert cp[0..2] == ['a', 'b'];
    LowIdWinsExactlyWhen(r, m, cp, 0, IdentPlace);
    ChosenOfPrefix(r, m, cp, 0, |r.mfp|);
  }

  // ----------------------------------------------------------------- the tokens of a new lexer

  /** The types that a new lexer knows: all, but quoted characters only if it is asked for them. */
  predicate Known(id: nat, qChars: bool) { id == QCharId ==> qChars }

  /** No token of a type that a new lexer knows ends behind e. */
  ghost predicate NoneBehind(cp: seq<char>, at: nat, e: nat, qChars: bool)
    requires at <= e
  {
    forall k, f :: Known(k, qChars) && e < f < |cp| ==> !TokenAt(k, cp, at, f)
  }

  /** The n characters from at on are a token of this type and of no other, and no more characters are a
      token; or they are one character with which no token starts. */
  ghost predicate IsToken(cp: seq<char>, id: nat, at: nat, n: nat, qChars: bool) {
    && 0 < n && at + n < |cp| && NoneBehind(cp, at, at + n, qChars)
    && if id == UnknownId then n == 1 && NoneBehind(cp, at, at, qChars)
       else
         Known(id, qChars) && TokenAt(id, cp, at, at + n) && NoOther(id, cp, at, at + n)
  }

  /** A new lexer with no matchers added knows this table. */
  ghost predicate IsNew(mfp: seq<Matcher>, qChars: bool) { mfp == BuiltIns(qChars) }

  lemma NewTable(qChars: bool, i: nat)
    requires i < |BuiltIns(qChars)|
    ensures var m := BuiltIns(qChars)[i];
            && m.enableFl && IsBuiltIn(m.kind) && Known(m.typeId, qChars) && UnknownId < m.typeId < UserId
            && forall cp: seq<char>, at: nat, e: nat :: at < e <= |cp| ==>
                 TokenAt(m.typeId, cp, at, e) == KindAt(m.kind, cp, at, e)
  {
  }

  /** Where each type stands in it. */
  function PlaceOf(id: nat): nat {
    if id == SpaceId then 0 else if id == RealId then 1 else if id == IntId then 2 else if id == HexId then 3
    else if id == IdentId then 4 else if id == QStrId then 5 else if id == BlockCmtId then 6
    else if id == LineCmtId then 7 else 8
  }

  lemma PlaceIs(id: nat, qChars: bool)
    requires SpaceId <= id < UserId && Known(id, qChars)
    ensures PlaceOf(id) < |BuiltIns(qChars)| && BuiltIns(qChars)[PlaceOf(id)].typeId == id
  {
  }

  /** Without user tokens the longest match is chosen, with priority or not. */
  lemma {:induction false} LongestIsPicked(types: seq<nat>, lens: seq<nat>, priority: bool, k: nat)
    requires |types| == |lens| && k <= |lens| && forall j :: 0 <= j < k ==> types[j] < UserId
    ensures var b := Pick(types, lens, priority, k); IsLongest(lens, if b.Best? then b.n else 0, k)
  {
    if k > 0 { LongestIsPicked(types, lens, priority, k - 1); }
  }

  lemma {:induction false} FaultyIs(mfp: seq<Matcher>, cp: seq<char>, at: nat, k: nat)
    requires at < |cp| - 1 && k <= |mfp|
    ensures Faulty(mfp, cp, at, k) <==>
              exists i :: 0 <= i < k && mfp[i].enableFl && MatchOf(mfp[i].kind, cp, at).fault
  {
    if k > 0 { FaultyIs(mfp, cp, at, k - 1); }
  }

  lemma NewFaults(qChars: bool, cp: seq<char>, at: nat)
    requires at < |cp| - 1
    ensures Faulty(BuiltIns(qChars), cp, at, |BuiltIns(qChars)|) <==> ErrorAt(cp, at, qChars)
  {
    var mfp := BuiltIns(qChars);
    FaultyIs(mfp, cp, at, |mfp|);
    BuiltInFaults(cp, at, qChars);
    assert mfp[2].kind == IntKind && mfp[5].kind == QStrKind && mfp[6].kind == BlockCmtKind;
    if qChars { assert mfp[8].kind == QCharKind; }
  }

  /** None of the types stands behind the longest match. */
  lemma NewNoneBehind(r: Rules, cp: seq<char>, at: nat, n: nat, qChars: bool)
    requires at < |cp| - 1 && IsNew(r.mfp, qChars) && !Faulty(r.mfp, cp, at, |r.mfp|)
    requires forall i :: 0 <= i < |r.mfp| ==> LengthOf(r.mfp[i], cp, at) <= n
    ensures NoneBehind(cp, at, at + n, qChars) == true
  {
    forall k, f | Known(k, qChars) && at + n < f < |cp| ensures !TokenAt(k, cp, at, f) {
      if TokenAt(k, cp, at, f) {
        var i := PlaceOf(k);
        PlaceIs(k, qChars);
        NewTable(qChars, i);
        FaultyIs(r.mfp, cp, at, |r.mfp|);
        BuiltInFindsLongest(r.mfp[i].kind, cp, at);
      }
    }
  }

  /** A new lexer finds the longest token by the characters, and says of what type it is; it fails exactly
      at an error, or, if it does not return unknown characters, where no token starts. */
  lemma NewLexerFinds(r: Rules, cp: seq<char>, at: nat, qChars: bool)
    requires at < |cp| - 1 && IsNew(r.mfp, qChars)
    ensures match ScanAt(r, cp, at)
            case Found(id, n) =>
              IsToken(cp, id, at, n, qChars) == true && !ErrorAt(cp, at, qChars) && (id == UnknownId ==> r.unknown)
            case Failed => ErrorAt(cp, at, qChars) || (!r.unknown && NoneBehind(cp, at, at, qChars) == true)
  {
    NewFaults(qChars, cp, at);
    if !ErrorAt(cp, at, qChars) {
      var b := Chosen(r, cp, at, |r.mfp|);
      NewChoice(r, cp, at, qChars);
      NewNoneBehind(r, cp, at, if b.Best? then b.n else 0, qChars);
      if b.Best? {
        NewToken(r, cp, at, b.i, qChars);
      } else if r.unknown {
        UnknownIsToken(cp, at, qChars);
      }
    }
  }

  lemma UnknownIsToken(cp: seq<char>, at: nat, qChars: bool)
    requires at < |cp| - 1 && NoneBehind(cp, at, at, qChars) == true
    ensures IsToken(cp, UnknownId, at, 1, qChars) == true
  {
  }

  lemma NewChoice(r: Rules, cp: seq<char>, at: nat, qChars: bool)
    requires at < |cp| - 1 && IsNew(r.mfp, qChars)
    ensures var b := Chosen(r, cp, at, |r.mfp|);
            forall i :: 0 <= i < |r.mfp| ==> LengthOf(r.mfp[i], cp, at) <= if b.Best? then b.n else 0
  {
    var types, lens := Types(r.mfp), Lengths(r.mfp, cp, at);
    var b := Chosen(r, cp, at, |r.mfp|);
    forall j | 0 <= j < |r.mfp| ensures types[j] < UserId { NewTable(qChars, j); }
    LongestIsPicked(types, lens, r.priority, |lens|);
    ChosenIsPick(r, cp, at, |r.mfp|);
    forall i | 0 <= i < |r.mfp| ensures LengthOf(r.mfp[i], cp, at) <= if b.Best? then b.n else 0 {
      assert LengthOf(r.mfp[i], cp, at) == lens[i];
    }
  }

  /** What a matcher of the table finds is a token of its type. */
  lemma NewToken(r: Rules, cp: seq<char>, at: nat, i: nat, qChars: bool)
    requires at < |cp| - 1 && IsNew(r.mfp, qChars) && !Faulty(r.mfp, cp, at, |r.mfp|)
    requires i < |r.mfp| && LengthOf(r.mfp[i], cp, at) > 0
    requires NoneBehind(cp, at, at + LengthOf(r.mfp[i], cp, at), qChars) == true
    ensures r.mfp[i].typeId != UnknownId
    ensures IsToken(cp, r.mfp[i].typeId, at, LengthOf(r.mfp[i], cp, at), qChars) == true
  {
    NewTable(qChars, i);
    FaultyIs(r.mfp, cp, at, |r.mfp|);
    BuiltInFindsLongest(r.mfp[i].kind, cp, at);
    KnownIsToken(cp, r.mfp[i].typeId, at, LengthOf(r.mfp[i], cp, at), qChars);
  }

  lemma KnownIsToken(cp: seq<char>, id: nat, at: nat, n: nat, qChars: bool)
    requires 0 < n && at + n < |cp| && NoneBehind(cp, at, at + n, qChars) == true
    requires id != UnknownId && Known(id, qChars) && TokenAt(id, cp, at, at + n) == true
    ensures IsToken(cp, id, at, n, qChars) == true
  {
    TokenHasOneType(id, cp, at, at + n);
  }

  lemma {:induction false} SuffixedIs(mfp: seq<Matcher>, cp: seq<char>, at: nat, ofReal: bool, k: nat)
    requires at < |cp| - 1 && k <= |mfp|
    ensures Suffixed(mfp, cp, at, ofReal, k) <==>
              exists i :: 0 <= i < k && mfp[i].enableFl && MatchOf(mfp[i].kind, cp, at).suffix
                          && if ofReal then mfp[i].kind.RealKind? else mfp[i].kind.IntKind?
  {
    if k > 0 { SuffixedIs(mfp, cp, at, ofReal, k - 1); }
  }

  /** The flags for a token that ends before e: float for a real with an f at its end, unsigned for an
      integer with a u. */
  predicate OfSuffix(cp: seq<char>, e: nat, id: nat, float: bool, unsigned: bool) {
    && 0 < e < |cp|
    && (id == RealId ==> (float <==> cp[e - 1] == 'f' || cp[e - 1] == 'F'))
    && (id == IntId ==> (unsigned <==> cp[e - 1] == 'u' || cp[e - 1] == 'U'))
  }

  /** The suffix flags of a new lexer say that a real ends in an f, and an integer in a u. */
  lemma NewSuffixes(r: Rules, cp: seq<char>, at: nat, qChars: bool, id: nat, n: nat)
    requires at < |cp| - 1 && IsNew(r.mfp, qChars) == true && ScanAt(r, cp, at) == Found(id, n)
    ensures OfSuffix(cp, at + n, id, Suffixed(r.mfp, cp, at, true, |r.mfp|), Suffixed(r.mfp, cp, at, false, |r.mfp|))
            == true
  {
    NewLexerFinds(r, cp, at, qChars);
    NewFlags(cp, at, qChars);
    NewPlaces(r, cp, at, qChars);
    MatchSuffixes(cp, at, id, n);
  }

  lemma MatchSuffixes(cp: seq<char>, at: nat, id: nat, n: nat)
    requires at < |cp| - 1 && n > 0 && at + n < |cp|
    requires (id == RealId ==> n == RealMatch(cp, at).n) && (id == IntId ==> n == IntMatch(cp, at).n)
    ensures OfSuffix(cp, at + n, id, RealMatch(cp, at).suffix, IntMatch(cp, at).suffix) == true
  {
    if id == RealId { RealSuffix(cp, at); }
  }

  lemma NewFlags(cp: seq<char>, at: nat, qChars: bool)
    requires at < |cp| - 1
    ensures var mfp := BuiltIns(qChars);
            && Suffixed(mfp, cp, at, true, |mfp|) == RealMatch(cp, at).suffix
            && Suffixed(mfp, cp, at, false, |mfp|) == IntMatch(cp, at).suffix
  {
    var mfp := BuiltIns(qChars);
    SuffixedIs(mfp, cp, at, true, |mfp|);
    SuffixedIs(mfp, cp, at, false, |mfp|);
    assert mfp[1].kind == RealKind && mfp[2].kind == IntKind;
  }

  lemma NewPlaces(r: Rules, cp: seq<char>, at: nat, qChars: bool)
    requires at < |cp| - 1 && IsNew(r.mfp, qChars) && ScanAt(r, cp, at).Found?
    ensures ScanAt(r, cp, at).id == RealId ==> ScanAt(r, cp, at).n == RealMatch(cp, at).n > 0
    ensures ScanAt(r, cp, at).id == IntId ==> ScanAt(r, cp, at).n == IntMatch(cp, at).n > 0
  {
  }

  /** A text that is one token is found whole, and nothing in the order of the matchers matters. */
  lemma TokenAlone(text: seq<char>, id: nat, qChars: bool, priority: bool)
    requires text != [] && Known(id, qChars) && TokenAt(id, text + ['\0'], 0, |text|)
    requires !ErrorAt(text + ['\0'], 0, qChars)
    ensures ScanAt(Rules(BuiltIns(qChars), false, priority), text + ['\0'], 0) == Found(id, |text|)
  {
    var r, cp := Rules(BuiltIns(qChars), false, priority), text + ['\0'];
    NewLexerFinds(r, cp, 0, qChars);
    assert cp == text + ['\0'] && |cp| - 1 == |text|;
  }

  function First(text: seq<char>): Scan
    requires text != []
  {
    ScanAt(Rules(BuiltIns(true), false, false), text + ['\0'], 0)
  }

  /** One token of each type, with the number that the caller gets for it. */
  lemma OneOfEach()
    ensures First(" \n") == Found(3, 2) && First("12u") == Found(5, 3) && First("0x1F") == Found(6, 4)
    ensures First("_a1") == Found(7, 3) && First("// a") == Found(11, 4)
  {
    TokenAlone(" \n", SpaceId, true, false);
    var u: seq<char> := "12u" + ['\0'];
    assert AllDigits(u, 0, 2);
    TokenAlone("12u", IntId, true, false);
    TokenAlone("0x1F", HexId, true, false);
    TokenAlone("_a1", IdentId, true, false);
    TokenAlone("// a", LineCmtId, true, false);
  }

  lemma OneReal()
    ensures First("-1.5e+3f") == Found(4, 8)
  {
    var cp: seq<char> := "-1.5e+3f" + ['\0'];
    assert cp[2] == '.' && cp[1] == '1' && cp[7] == 'f' && cp[4] == 'e';
    assert MantissaAt(cp, 0, 4) && ExponentAt(cp, 4, 7) && RealParts(cp, 0, 4, 8);
    assert cp[8] == '\0' && forall d :: 1 < d < 8 && AllDigits(cp, 1, d) ==> d <= 2;
    TokenAlone("-1.5e+3f", RealId, true, false);
  }

  lemma OneOfEachInQuotes()
    ensures First("\"a\\\"b\"") == Found(8, 6) && First("'\\n'") == Found(9, 4) && First("/* /**/") == Found(10, 7)
  {
    var s: seq<char> := "\"a\\\"b\"" + ['\0'];
    assert LiteralAt(s, 5, 5, '"') && LiteralAt(s, 4, 5, '"') && LiteralAt(s, 2, 5, '"') && LiteralAt(s, 1, 5, '"');
    assert QStrAt(s, 0, 6);
    TokenAlone("\"a\\\"b\"", QStrId, true, false);
    var c: seq<char> := "'\\n'" + ['\0'];
    assert QCharAt(c, 0, 4);
    TokenAlone("'\\n'", QCharId, true, false);
    var b: seq<char> := "/* /**/" + ['\0'];
    assert BlockCmtAt(b, 0, 7);
    TokenAlone("/* /**/", BlockCmtId, true, false);
  }

  // ----------------------------------------------------------------- all tokens

  /** The number of newlines before a position. */
  function Newlines(cp: seq<char>, at: nat): nat
    requires at <= |cp|
  {
    if at == 0 then 0 else Newlines(cp, at - 1) + if cp[at - 1] == '\n' then 1 else 0
  }

  /** The places of those newlines. */
  function NewlinePlaces(cp: seq<char>, at: nat): (s: set<nat>)
    requires at <= |cp|
    ensures forall i: nat :: i in s <==> i < at && cp[i] == '\n'
  {
    set i: nat | i < at && cp[i] == '\n'
  }

  lemma {:induction false} NewlinesAre(cp: seq<char>, at: nat)
    requires at <= |cp|
    ensures Newlines(cp, at) == |NewlinePlaces(cp, at)|
  {
    if at == 0 {
      assert NewlinePlaces(cp, at) == {};
    } else {
      NewlinesAre(cp, at - 1);
      var was := NewlinePlaces(cp, at - 1);
      assert NewlinePlaces(cp, at) == if cp[at - 1] == '\n' then was + {at - 1} else was;
    }
  }

  /** What starts at each position of a text. */
  ghost function Scans(r: Rules, cp: seq<char>): (s: seq<Scan>)
    requires IsText(cp) && IsTable(r.mfp)
    ensures |s| == |cp| - 1 && AllAdvance(s)
  {
    ScansAdvance(r, cp);
    seq(|cp| - 1, at requires 0 <= at < |cp| - 1 => ScanAt(r, cp, at))
  }

  lemma ScansAdvance(r: Rules, cp: seq<char>)
    requires IsText(cp) && IsTable(r.mfp)
    ensures AllAdvance(seq(|cp| - 1, at requires 0 <= at < |cp| - 1 => ScanAt(r, cp, at)))
  {
    forall at: nat | at < |cp| - 1 && ScanAt(r, cp, at).Found?
      ensures 0 < ScanAt(r, cp, at).n < |cp| - at
    {
      ScanAdvances(r, cp, at);
    }
  }

  /** A token has at least one character, and all its characters are in the text. */
  predicate AllAdvance(scans: seq<Scan>) {
    forall at :: 0 <= at < |scans| && scans[at].Found? ==> 0 < scans[at].n <= |scans| - at
  }

  /** All tokens from a position on, to the end of the text or to an error. */
  function Stream(scans: seq<Scan>, cp: seq<char>, at: nat): seq<Token>
    requires AllAdvance(scans) && at <= |scans| <= |cp|
    decreases |scans| - at
  {
    if at == |scans| || scans[at].Failed? then []
    else [Token(scans[at].id, at, scans[at].n, Newlines(cp, at))] + Stream(scans, cp, at + scans[at].n)
  }

  /** Where they end. */
  function StreamEnd(scans: seq<Scan>, at: nat): (e: nat)
    requires AllAdvance(scans) && at <= |scans|
    ensures at <= e <= |scans| && (e < |scans| ==> scans[e].Failed?)
    decreases |scans| - at
  {
    if at == |scans| || scans[at].Failed? then at else StreamEnd(scans, at + scans[at].n)
  }

  lemma StreamStep(scans: seq<Scan>, cp: seq<char>, at: nat)
    requires AllAdvance(scans) && at < |scans| <= |cp|
    ensures match scans[at]
            case Failed => EndsAt(scans, cp, at) == true
            case Found(id, n) => Goes(scans, cp, at, Token(id, at, n, Newlines(cp, at)), at + n) == true
  {
  }

  /** The token t stands at a position, and the stream goes on at another one. */
  ghost predicate Goes(scans: seq<Scan>, cp: seq<char>, at: nat, t: Token, to: nat)
    requires |scans| <= |cp| && AllAdvance(scans)
  {
    && at < to <= |scans| && Stream(scans, cp, at) == [t] + Stream(scans, cp, to)
    && StreamEnd(scans, at) == StreamEnd(scans, to)
  }

  ghost predicate EndsAt(scans: seq<Scan>, cp: seq<char>, at: nat)
    requires at <= |scans| <= |cp| && AllAdvance(scans)
  {
    Stream(scans, cp, at) == [] && StreamEnd(scans, at) == at
  }

  /** The tokens follow each other without a gap or an overlap, from a position to the end of the
      stream, each on the line that the newlines before it give. */
  ghost predicate Tiles(s: seq<Token>, cp: seq<char>, at: nat, end: nat) {
    && at <= end < |cp|
    && (if s == [] then at == end else s[0].at == at && s[|s| - 1].at + s[|s| - 1].n == end)
    && (forall i :: 0 <= i < |s| ==> s[i].n > 0 && s[i].at <= end && s[i].line == Newlines(cp, s[i].at))
    && (forall i :: 0 < i < |s| ==> s[i].at == s[i - 1].at + s[i - 1].n)
  }

  lemma TilesOn(t: Token, s: seq<Token>, cp: seq<char>, end: nat)
    requires t.n > 0 && Tiles(s, cp, t.at + t.n, end) && t.line == Newlines(cp, t.at)
    ensures Tiles([t] + s, cp, t.at, end)
  {
    var u := [t] + s;
    assert forall i :: 0 < i < |u| ==> u[i] == s[i - 1];
  }

  lemma {:induction false} StreamTiles(scans: seq<Scan>, cp: seq<char>, at: nat)
    requires AllAdvance(scans) && at <= |scans| < |cp|
    ensures Tiles(Stream(scans, cp, at), cp, at, StreamEnd(scans, at))
    decreases |scans| - at
  {
    if at < |scans| && scans[at].Found? {
      var t, e := scans[at], StreamEnd(scans, at);
      StreamTiles(scans, cp, at + t.n);
      TilesOn(Token(t.id, at, t.n, Newlines(cp, at)), Stream(scans, cp, at + t.n), cp, e);
    }
  }

  /** Each token of the stream is the one found where it starts. */
  lemma {:induction false} StreamFound(scans: seq<Scan>, cp: seq<char>, at: nat)
    requires AllAdvance(scans) && at <= |scans| <= |cp|
    ensures forall t :: t in Stream(scans, cp, at) ==> t.at < |scans| && scans[t.at] == Found(t.id, t.n)
    decreases |scans| - at
  {
    if at < |scans| && scans[at].Found? { StreamFound(scans, cp, at + scans[at].n); }
  }

  ghost predicate AreTokens(cp: seq<char>, s: seq<Token>, qChars: bool) {
    forall t :: t in s ==> IsToken(cp, t.id, t.at, t.n, qChars)
  }

  /** All tokens of a new lexer are those of the characters. */
  lemma NewStream(r: Rules, cp: seq<char>, at: nat, qChars: bool)
    requires IsText(cp) && IsTable(r.mfp) && at < |cp| && IsNew(r.mfp, qChars)
    ensures AreTokens(cp, Stream(Scans(r, cp), cp, at), qChars) == true
  {
    StreamFound(Scans(r, cp), cp, at);
    forall t | t in Stream(Scans(r, cp), cp, at) ensures IsToken(cp, t.id, t.at, t.n, qChars) == true {
      NewLexerFinds(r, cp, t.at, qChars);
    }
  }

  // ----------------------------------------------------------------- what the caller sees

  predicate Kept(f: Flags, t: Token) {
    && (t.id == SpaceId ==> f.returnSpace)
    && (t.id == BlockCmtId || t.id == LineCmtId ==> f.returnComments)
  }

  /** The stream less the tokens that the caller's filter holds back. */
  function Filter(f: Flags, s: seq<Token>): seq<Token> {
    if s == [] then [] else (if Kept(f, s[0]) then [s[0]] else []) + Filter(f, s[1..])
  }

  /** What is held back: space unless the caller wants it, and comments of both kinds unless it wants them. */
  lemma {:induction false} FilterHoldsBack(f: Flags, s: seq<Token>, t: Token)
    ensures t in Filter(f, s) <==> t in s && !(t.id == SpaceId && !f.returnSpace)
                                   && !((t.id == BlockCmtId || t.id == LineCmtId) && !f.returnComments)
  {
    if s != [] { FilterHoldsBack(f, s[1..], t); }
  }

  lemma FilterKeeps(f: Flags, cp: seq<char>, s: seq<Token>, qChars: bool)
    requires AreTokens(cp, s, qChars)
    ensures AreTokens(cp, Filter(f, s), qChars) == true
  {
    forall t | t in Filter(f, s) ensures t in s { FilterHoldsBack(f, s, t); }
  }

  /** How many tokens the filter holds back before the next one that the caller sees. */
  function Skipped(f: Flags, s: seq<Token>): (k: nat)
    ensures k <= |s| && (k < |s| ==> Kept(f, s[k])) && forall i :: 0 <= i < k ==> !Kept(f, s[i])
  {
    if s == [] || Kept(f, s[0]) then 0 else
      var k := Skipped(f, s[1..]);
      assert forall i :: 0 < i < k + 1 ==> s[i] == s[1..][i - 1];
      k + 1
  }

  lemma SkippedOn(f: Flags, s: seq<Token>, k: nat)
    requires k < |s|
    ensures s[k..] == [s[k]] + s[k + 1..]
    ensures Skipped(f, s[k..]) == if Kept(f, s[k]) then 0 else 1 + Skipped(f, s[k + 1..])
  {
    assert s[k..][1..] == s[k + 1..];
  }

  lemma {:induction false} FilterSkips(f: Flags, s: seq<Token>)
    ensures var k := Skipped(f, s);
            Filter(f, s) == if k == |s| then [] else [s[k]] + Filter(f, s[k + 1..])
  {
    if s != [] && !Kept(f, s[0]) {
      FilterSkips(f, s[1..]);
      var k := Skipped(f, s[1..]);
      if k < |s| - 1 { assert s[1..][k + 1..] == s[k + 2..]; }
    }
  }

  /** The filter holds back the first k tokens of the stream s, and behind them the scan goes on. */
  ghost predicate SkipsTo(f: Flags, s: seq<Token>, k: nat, scans: seq<Scan>, cp: seq<char>, at: nat, end: nat)
    requires at <= |scans| <= |cp| && AllAdvance(scans)
  {
    && k <= |s| && s[k..] == Stream(scans, cp, at) && StreamEnd(scans, at) == end
    && Skipped(f, s) == k + Skipped(f, s[k..])
  }

  lemma SkipsNone(f: Flags, scans: seq<Scan>, cp: seq<char>, at: nat)
    requires at <= |scans| <= |cp| && AllAdvance(scans)
    ensures SkipsTo(f, Stream(scans, cp, at), 0, scans, cp, at, StreamEnd(scans, at)) == true
  {
    var s := Stream(scans, cp, at);
    assert s[0..] == s;
  }

  lemma SkipsOn(f: Flags, s: seq<Token>, k: nat, scans: seq<Scan>, cp: seq<char>, at: nat, end: nat, t: Token, to: nat)
    requires at < to <= |scans| <= |cp| && AllAdvance(scans)
    requires SkipsTo(f, s, k, scans, cp, at, end) && Goes(scans, cp, at, t, to)
    ensures if Kept(f, t) then IsNextKept(f, s, t, Stream(scans, cp, to)) == true && StreamEnd(scans, to) == end
            else SkipsTo(f, s, k + 1, scans, cp, to, end) == true
  {
    SkippedOn(f, s, k);
    assert s[k] == s[k..][0] && s[k + 1..] == s[k..][1..];
  }

  lemma SkipsAll(f: Flags, s: seq<Token>, k: nat, scans: seq<Scan>, cp: seq<char>, at: nat, end: nat)
    requires at <= |scans| <= |cp| && AllAdvance(scans)
    requires SkipsTo(f, s, k, scans, cp, at, end) && EndsAt(scans, cp, at)
    ensures Skipped(f, s) == |s| && at == end
  {
  }

  /** Token t is the next of the stream s that the filter keeps, and rest is what is behind it. */
  predicate IsNextKept(f: Flags, s: seq<Token>, t: Token, rest: seq<Token>) {
    var k := Skipped(f, s);
    k < |s| && t == s[k] && rest == s[k + 1..]
  }

  lemma FilterGoesOn(f: Flags, was: seq<Token>, s: seq<Token>, t: Token, rest: seq<Token>)
    requires IsNextKept(f, s, t, rest) == true
    ensures was + Filter(f, s) == (was + [t]) + Filter(f, rest)
  {
    FilterSkips(f, s);
    AddOne(was, t, Filter(f, s), Filter(f, rest));
  }

  lemma AddOne(a: seq<Token>, t: Token, b: seq<Token>, c: seq<Token>)
    requires b == [t] + c
    ensures a + b == (a + [t]) + c
  {
  }

  lemma AddNone(a: seq<Token>)
    ensures [] + a == a && a + [] == a
  {
  }

  /** What one filter keeps of what another keeps is what both keep; so lexing
      with space and comments held back gives the tokens of a lexer that returns everything, less
      those. The stream itself does not depend on what is held back. */
  lemma {:induction false} FilterIndependence(f: Flags, g: Flags, s: seq<Token>)
    ensures var both := f.(returnSpace := f.returnSpace && g.returnSpace,
                           returnComments := f.returnComments && g.returnComments);
            Filter(g, Filter(f, s)) == Filter(both, s)
    ensures f.returnSpace && f.returnComments ==> Filter(f, s) == s
  {
    if s != [] {
      FilterIndependence(f, g, s[1..]);
      var rest := Filter(f, s[1..]);
      if Kept(f, s[0]) { assert ([s[0]] + rest)[1..] == rest; } else { assert [] + rest == rest; }
    }
  }

  // ----------------------------------------------------------------- the lexer

  const NoIdx := 0xFFFF_FFFF

  class Lexer {
    var cp: seq<char>          // the text and a NUL behind it
    var ci: nat
    var flags: Flags
    var mfp: seq<Matcher>
    var curTokenId: nat
    var curTokenCharIdx: nat
    var curTokenCharCnt: nat
    var curLine: nat
    var nextLine: nat
    var attrFloat: bool        // a real at the current token ends in f
    var attrUnsigned: bool     // an integer at the current token ends in u
    var lastRC: RC

    ghost predicate Valid()
      reads this`cp, this`ci, this`mfp, this`nextLine
    {
      IsText(cp) && IsTable(mfp) && ci < |cp| && nextLine == Newlines(cp, ci)
    }

    /** The table is made of the built-in matchers and of user matchers with ids for users. */
    ghost predicate Standard()
      reads this`mfp
    {
      IsLexerTable(mfp, IdentPlace)
    }

    ghost function R(): Rules
      reads this`mfp, this`flags
    {
      Rules(mfp, flags.returnUnknown, flags.userDefPriority)
    }

    /** The tokens that the text still holds. */
    ghost function Rest(): seq<Token>
      requires Valid()
      reads this`cp, this`ci, this`mfp, this`nextLine, this`flags
    {
      Stream(Scans(R(), cp), cp, ci)
    }

    constructor (text: seq<char>, f: Flags, returnQChar: bool)
      requires IsText(text)
      ensures Valid() && cp == text && ci == 0 && lastRC == Ok && flags == f
      ensures mfp == BuiltIns(returnQChar) && IsNew(mfp, returnQChar) && Standard()
    {
      cp, ci, flags, mfp := text, 0, f, BuiltIns(returnQChar);
      curTokenId, curTokenCharIdx, curTokenCharCnt, curLine, nextLine := ErrorId, NoIdx, 0, 0, 0;
      attrFloat, attrUnsigned, lastRC := false, false, Ok;
      BuiltInsAreTable(returnQChar);
    }

    method Reset()
      requires Valid()
      modifies this
      ensures Valid() && ci == 0 && lastRC == Ok && cp == old(cp) && flags == old(flags) && mfp == old(mfp)
    {
      ci, curTokenId, curTokenCharIdx, curTokenCharCnt, curLine, nextLine, lastRC := 0, ErrorId, NoIdx, 0, 0, 0, Ok;
    }

    /** Where they end: behind the text, or at an error. */
    ghost function RestEnd(): nat
      requires Valid()
      reads this`cp, this`ci, this`mfp, this`nextLine, this`flags
    {
      StreamEnd(Scans(R(), cp), ci)
    }

    /** Tries all enabled matchers at the current position, up to the first that finds an error. */
    method TryMatchers() returns (b: Best)
      requires Valid() && lastRC == Ok && ci < |cp| - 1
      modifies this`lastRC, this`attrFloat, this`attrUnsigned
      ensures lastRC == if Faulty(mfp, cp, ci, |mfp|) then SyntaxError else Ok
      ensures lastRC == Ok ==> b == Chosen(R(), cp, ci, |mfp|)
      ensures lastRC == Ok ==> attrFloat == Suffixed(mfp, cp, ci, true, |mfp|)
      ensures lastRC == Ok ==> attrUnsigned == Suffixed(mfp, cp, ci, false, |mfp|)
    {
      b, attrFloat, attrUnsigned := Nothing, false, false;
      for mi := 0 to |mfp|
        invariant lastRC == Ok && Tried(mi, b) == true
      {
        b := TryMatcher(mi, b);
        if lastRC != Ok {
          FaultStays(mfp, cp, ci, mi + 1, |mfp|);
          return;
        }
      }
    }

    /** None of the first k matchers finds an error, and b is the best match among theirs. */
    ghost predicate Tried(k: nat, b: Best)
      requires Valid() && ci < |cp| - 1 && k <= |mfp|
      reads this`cp, this`ci, this`mfp, this`nextLine, this`flags, this`attrFloat, this`attrUnsigned
    {
      && !Faulty(mfp, cp, ci, k) && b == Chosen(R(), cp, ci, k)
      && attrFloat == Suffixed(mfp, cp, ci, true, k) && attrUnsigned == Suffixed(mfp, cp, ci, false, k)
    }

    method TryMatcher(mi: nat, was: Best) returns (b: Best)
      requires Valid() && lastRC == Ok && ci < |cp| - 1 && mi < |mfp| && Tried(mi, was) == true
      modifies this`lastRC, this`attrFloat, this`attrUnsigned
      ensures lastRC == if Faulty(mfp, cp, ci, mi + 1) then SyntaxError else Ok
      ensures lastRC == Ok ==> Tried(mi + 1, b) == true
    {
      b := was;
      if mfp[mi].enableFl {
        var m := CallMatcher(mfp[mi].kind, cp, ci);
        if m.fault {
          lastRC := SyntaxError;
          return;
        }
        if m.suffix && mfp[mi].kind.RealKind? { attrFloat := true; }
        if m.suffix && mfp[mi].kind.IntKind? { attrUnsigned := true; }
        if
          || (b.Nothing? && m.n > 0)
          || (b.Best? && m.n > b.n)
          || (b.Best? && m.n > 0 && m.n == b.n && mfp[b.i].typeId == IdentId && mfp[mi].typeId >= UserId)
          || (b.Best? && 0 < m.n < b.n && mfp[b.i].typeId == IdentId && mfp[mi].typeId >= UserId
              && flags.userDefPriority)
        {
          b := Best(m.n, mi);
        }
      }
    }

    method CountLines(n: nat)
      requires Valid() && ci + n < |cp|
      modifies this`nextLine
      ensures nextLine == Newlines(cp, ci + n)
    {
      for i := 0 to n
        invariant nextLine == Newlines(cp, ci + i)
      {
        if cp[ci + i] == '\n' { nextLine := nextLine + 1; }
      }
    }

    /** Makes the token at the current position the current one, and goes behind it. */
    method ScanToken(ghost scans: seq<Scan>) returns (found: bool)
      requires Valid() && lastRC == Ok && ci < |scans| == |cp| - 1
      requires AllAdvance(scans) && scans[ci] == ScanAt(R(), cp, ci)
      modifies this`curTokenId, this`curTokenCharIdx, this`curTokenCharCnt, this`curLine, this`nextLine, this`ci,
               this`lastRC, this`attrFloat, this`attrUnsigned
      ensures Valid() == true && lastRC == (if found then Ok else SyntaxError)
      ensures found ==> Goes(scans, cp, old(ci), Current(), ci) == true && WasFound() == true
      ensures !found ==> ci == old(ci) && EndsAt(scans, cp, ci) == true && HasFailed() == true && curTokenId == ErrorId
    {
      StreamStep(scans, cp, ci);
      curTokenId, curTokenCharIdx, curTokenCharCnt := ErrorId, NoIdx, 0;
      var scan := FindToken();
      if scan.Failed? { return false; }
      TakeToken(scan.id, scan.n);
      found := true;
    }

    method FindToken() returns (scan: Scan)
      requires Valid() && lastRC == Ok && ci < |cp| - 1
      modifies this`lastRC, this`attrFloat, this`attrUnsigned
      ensures scan == ScanAt(R(), cp, ci) && lastRC == if scan.Found? then Ok else SyntaxError
      ensures scan.Found? ==> HasFlagsOf(ci)
    {
      var b := TryMatchers();
      if lastRC != Ok { return Failed; }
      if b.Nothing? && !flags.returnUnknown {
        lastRC := SyntaxError;
        return Failed;
      }
      scan := if b.Nothing? then Found(UnknownId, 1) else Found(mfp[b.i].typeId, b.n);
    }

    method TakeToken(id: nat, n: nat)
      requires Valid() && ci + n < |cp|
      modifies this`curTokenId, this`curTokenCharIdx, this`curTokenCharCnt, this`curLine, this`nextLine, this`ci
      ensures Valid() && ci == old(ci) + n && Current() == Token(id, old(ci), n, Newlines(cp, old(ci)))
    {
      curLine := nextLine;
      CountLines(n);
      curTokenId, curTokenCharIdx, curTokenCharCnt, ci := id, ci, n, ci + n;
    }

    /** The flags are those of the suffixes that the matchers find at a position. */
    ghost predicate HasFlagsOf(at: nat)
      reads this`cp, this`mfp, this`attrFloat, this`attrUnsigned
    {
      && at < |cp| - 1
      && attrFloat == Suffixed(mfp, cp, at, true, |mfp|) && attrUnsigned == Suffixed(mfp, cp, at, false, |mfp|)
    }

    /** The current token is what is found where it starts, and so are the suffix flags. */
    ghost predicate WasFound()
      reads this`cp, this`mfp, this`flags, this`curTokenId, this`curTokenCharIdx, this`curTokenCharCnt, this`curLine,
            this`attrFloat, this`attrUnsigned
    {
      HasFlagsOf(Current().at) && ScanAt(R(), cp, Current().at) == Found(Current().id, Current().n)
    }

    /** At the current position nothing is found. */
    ghost predicate HasFailed()
      reads this`cp, this`mfp, this`flags, this`ci
    {
      ci < |cp| - 1 && ScanAt(R(), cp, ci) == Failed
    }

    function Current(): Token
      reads this`curTokenId, this`curTokenCharIdx, this`curTokenCharCnt, this`curLine
    {
      Token(curTokenId, curTokenCharIdx, curTokenCharCnt, curLine)
    }

    /** Goes on to the next token of the stream that the caller's filter does not hold back. At the end
        of the text it says so once; after that, and after an error, every call fails. */
    method GetNextToken() returns (id: nat)
      requires Valid()
      modifies this`curTokenId, this`curTokenCharIdx, this`curTokenCharCnt, this`curLine, this`nextLine, this`ci,
               this`lastRC, this`attrFloat, this`attrUnsigned
      ensures Valid()
      ensures old(lastRC) != Ok ==>
                id == ErrorId && lastRC == old(lastRC) && ci == old(ci) && Current() == old(Current())
      ensures old(lastRC) == Ok ==> RestEnd() == old(RestEnd())
      ensures old(lastRC) == Ok ==> (lastRC == Eof ==> id == 2) && (lastRC == SyntaxError ==> id == 0)
      ensures old(lastRC) == Ok ==>
                if Skipped(flags, old(Rest())) < |old(Rest())|
                then lastRC == Ok && id == curTokenId && ci > old(ci)
                     && IsNextKept(flags, old(Rest()), Current(), Rest()) == true
                else Rest() == [] && Stopped() == true && lastRC != Ok && id == if lastRC == Eof then EofId else ErrorId
      ensures old(lastRC) == Ok && lastRC == Ok ==>
                && (id == SpaceId ==> flags.returnSpace) && (id == UnknownId && IsNewTable() ==> flags.returnUnknown)
                && (id == BlockCmtId || id == LineCmtId ==> flags.returnComments)
      ensures forall q :: old(lastRC) == Ok && IsNew(mfp, q) ==>
                && (lastRC == Ok ==> IsToken(cp, id, Current().at, Current().n, q) && FlagsAreOfSuffix())
                && (lastRC == SyntaxError ==>
                      && ci < |cp| - 1
                      && (ErrorAt(cp, ci, q) || (!flags.returnUnknown && NoneBehind(cp, ci, ci, q))))
    {
      if lastRC != Ok { return ErrorId; }
      id := NextKept();
      forall q | IsNew(mfp, q) ensures NewOutcome(q) == true { NewCall(q); }
    }

    /** What a call came to that did not come to the end, by the characters. */
    ghost predicate NewOutcome(q: bool)
      reads this`cp, this`ci, this`mfp, this`flags, this`attrFloat, this`attrUnsigned, this`curTokenId,
            this`curTokenCharIdx, this`curTokenCharCnt, this`curLine, this`lastRC
    {
      && (lastRC == Ok ==>
            && IsToken(cp, curTokenId, Current().at, Current().n, q) && FlagsAreOfSuffix()
            && (curTokenId == UnknownId ==> flags.returnUnknown))
      && (lastRC == SyntaxError ==>
            && ci < |cp| - 1
            && (ErrorAt(cp, ci, q) || (!flags.returnUnknown && NoneBehind(cp, ci, ci, q))))
    }

    lemma NewCall(q: bool)
      requires IsNew(mfp, q) && (lastRC == Ok ==> WasFound() == true) && (lastRC == SyntaxError ==> HasFailed() == true)
      ensures NewOutcome(q) == true
    {
      if lastRC == Ok {
        NewFound(q);
      } else if lastRC == SyntaxError {
        NewFailed(q);
      }
    }

    lemma NewFound(q: bool)
      requires IsNew(mfp, q) == true && WasFound()
      ensures IsToken(cp, curTokenId, Current().at, Current().n, q) == true && FlagsAreOfSuffix() == true
      ensures curTokenId == UnknownId ==> flags.returnUnknown
    {
      NewLexerFinds(R(), cp, Current().at, q);
      NewSuffixes(R(), cp, Current().at, q, Current().id, Current().n);
    }

    lemma NewFailed(q: bool)
      requires IsNew(mfp, q) == true && HasFailed()
      ensures ErrorAt(cp, ci, q) == true || (!flags.returnUnknown && NoneBehind(cp, ci, ci, q) == true)
    {
      NewLexerFinds(R(), cp, ci, q);
    }

    /** The suffix flags say that the current token, if a real, ends in an f, and if an integer, in a u. */
    ghost predicate FlagsAreOfSuffix()
      reads this`cp, this`attrFloat, this`attrUnsigned, this`curTokenId, this`curTokenCharIdx, this`curTokenCharCnt,
            this`curLine
    {
      OfSuffix(cp, Current().at + Current().n, Current().id, attrFloat, attrUnsigned)
    }

    /** No matchers were added or switched off. */
    ghost predicate IsNewTable()
      reads this`mfp
    {
      exists q :: IsNew(mfp, q)
    }

    /** The next token that the caller sees of those in s, or why there is none. */
    ghost predicate Answers(id: nat, s: seq<Token>, from: nat)
      requires Valid()
      reads this`cp, this`ci, this`mfp, this`nextLine, this`flags, this`curTokenId, this`curTokenCharIdx,
            this`curTokenCharCnt, this`curLine, this`lastRC
    {
      if Skipped(flags, s) < |s|
      then lastRC == Ok && id == curTokenId && ci > from && IsNextKept(flags, s, Current(), Rest()) == true
      else Rest() == [] && Stopped() == true && lastRC != Ok && id == if lastRC == Eof then EofId else ErrorId
    }

    method NextKept() returns (id: nat)
      requires Valid() && lastRC == Ok
      modifies this`curTokenId, this`curTokenCharIdx, this`curTokenCharCnt, this`curLine, this`nextLine, this`ci,
               this`lastRC, this`attrFloat, this`attrUnsigned
      ensures Valid() == true && RestEnd() == old(RestEnd()) && Answers(id, old(Rest()), old(ci)) == true
      ensures lastRC == Ok ==> WasFound() == true && Kept(flags, Current()) == true
      ensures lastRC == SyntaxError ==> HasFailed() == true
    {
      ghost var s, k, scans, end := Rest(), 0, Scans(R(), cp), RestEnd();
      SkipsNone(flags, scans, cp, ci);
      while ci < |cp| - 1
        invariant Valid() == true && lastRC == Ok && SkipsTo(flags, s, k, scans, cp, ci, end) == true && ci >= old(ci)
        decreases |cp| - ci
      {
        var found, returnFl := ScanKept(s, k, scans, end);
        if !found { return ErrorId; }
        if returnFl { return curTokenId; }
        k := k + 1;
      }
      SkipsAll(flags, s, k, scans, cp, ci, end);
      lastRC := Eof;
      id := EofId;
    }

    /** Scans one token, and says if the caller wants to see it. */
    method ScanKept(ghost s: seq<Token>, ghost k: nat, ghost scans: seq<Scan>, ghost end: nat)
      returns (found: bool, returnFl: bool)
      requires Valid() == true && lastRC == Ok && ci < |cp| - 1 && scans == Scans(R(), cp)
      requires SkipsTo(flags, s, k, scans, cp, ci, end) == true
      modifies this`curTokenId, this`curTokenCharIdx, this`curTokenCharCnt, this`curLine, this`nextLine, this`ci,
               this`lastRC, this`attrFloat, this`attrUnsigned
      ensures Valid() == true && lastRC == (if found then Ok else SyntaxError)
      ensures !found ==> HasFailed() == true && Skipped(flags, s) == |s| && ci == old(ci) == end && Rest() == []
      ensures !found ==> RestEnd() == end && curTokenId == ErrorId
      ensures found ==> ci > old(ci) && WasFound() == true && returnFl == Kept(flags, Current())
      ensures found && returnFl ==> IsNextKept(flags, s, Current(), Rest()) == true && RestEnd() == end
      ensures found && !returnFl ==> SkipsTo(flags, s, k + 1, scans, cp, ci, end) == true
    {
      found := ScanToken(scans);
      returnFl := true;
      if found {
        SkipsOn(flags, s, k, scans, cp, old(ci), end, Current(), ci);
        if curTokenId == SpaceId && !flags.returnSpace { returnFl := false; }
        if (curTokenId == BlockCmtId || curTokenId == LineCmtId) && !flags.returnComments { returnFl := false; }
      } else {
        SkipsAll(flags, s, k, scans, cp, ci, end);
      }
    }

    /** Asks for tokens until there are no more. */
    method GetAll() returns (tokens: seq<Token>)
      requires Valid() && lastRC == Ok
      modifies this`curTokenId, this`curTokenCharIdx, this`curTokenCharCnt, this`curLine, this`nextLine, this`ci,
               this`lastRC, this`attrFloat, this`attrUnsigned
      ensures Valid() && tokens == Filter(flags, old(Rest()))
      ensures ci == old(RestEnd()) && lastRC == if ci == |cp| - 1 then Eof else SyntaxError
      ensures forall q, t :: IsNew(mfp, q) && t in tokens ==> IsToken(cp, t.id, t.at, t.n, q)
    {
      tokens := [];
      ghost var all, end := Left(), RestEnd();
      forall q | IsNew(mfp, q) ensures AreTokens(cp, all, q) == true {
        NewStream(R(), cp, ci, q);
        FilterKeeps(flags, cp, Rest(), q);
      }
      AddNone(all);
      while lastRC == Ok
        invariant Valid() == true && RestEnd() == end && Stopped() == true && all == tokens + Left()
        decreases lastRC == Ok, |cp| - ci
      {
        tokens := AddToken(tokens, all);
      }
      AddNone(tokens);
    }

    /** What the caller will still see. */
    ghost function Left(): seq<Token>
      requires Valid()
      reads this`cp, this`ci, this`mfp, this`nextLine, this`flags, this`lastRC
    {
      if lastRC == Ok then Filter(flags, Rest()) else []
    }

    /** The lexer goes on, or has stopped where the stream ends. */
    ghost predicate Stopped()
      requires Valid()
      reads this`cp, this`ci, this`mfp, this`nextLine, this`flags, this`lastRC
    {
      lastRC != Ok ==> ci == RestEnd() && lastRC == if ci == |cp| - 1 then Eof else SyntaxError
    }

    method AddToken(was: seq<Token>, ghost all: seq<Token>) returns (tokens: seq<Token>)
      requires Valid() && lastRC == Ok && all == was + Left()
      modifies this`curTokenId, this`curTokenCharIdx, this`curTokenCharCnt, this`curLine, this`nextLine, this`ci,
               this`lastRC, this`attrFloat, this`attrUnsigned
      ensures Valid() == true && RestEnd() == old(RestEnd()) && Stopped() == true && all == tokens + Left()
      ensures lastRC == Ok ==> ci > old(ci)
    {
      ghost var s := Rest();
      FilterSkips(flags, s);
      var id := GetNextToken();
      tokens := was;
      if lastRC == Ok {
        FilterGoesOn(flags, was, s, Current(), Rest());
        tokens := was + [Current()];
      }
    }

    /** Adds a fixed string as a token, unless its id or the string is there already; the invalid id is
        never taken to be there. */
    method RegisterToken(id: nat, key: seq<char>) returns (ok: bool)
      requires Valid() && IsKey(key)
      modifies this`mfp
      ensures Valid() && ok == !(HasId(old(mfp), id) || HasKey(old(mfp), key))
      ensures mfp == if ok then old(mfp) + [Matcher(id, Exact(key), true)] else old(mfp)
      ensures old(Standard()) && ok ==> (Standard() <==> id >= UserId)
    {
      var i := 0;
      while i < |mfp|
        invariant i <= |mfp| && !HasId(mfp[..i], id) && !HasKey(mfp[..i], key)
      {
        if id != InvalidId && mfp[i].typeId == id { return false; }
        if mfp[i].kind.Exact? && mfp[i].kind.key == key { return false; }
        i := i + 1;
      }
      assert mfp[..i] == mfp;
      Install(Matcher(id, Exact(key), true));
      ok := true;
    }

    /** Adds a function of the user, unless its id is there already. */
    method RegisterMatcher(id: nat, f: (seq<char>, nat) -> nat) returns (ok: bool)
      requires Valid() && IsKind(User(f))
      modifies this`mfp
      ensures Valid() && ok == !HasId(old(mfp), id)
      ensures mfp == if ok then old(mfp) + [Matcher(id, User(f), true)] else old(mfp)
      ensures old(Standard()) && ok ==> (Standard() <==> id >= UserId)
    {
      var i := 0;
      while i < |mfp|
        invariant i <= |mfp| && !HasId(mfp[..i], id)
      {
        if id != InvalidId && mfp[i].typeId == id { return false; }
        i := i + 1;
      }
      assert mfp[..i] == mfp;
      Install(Matcher(id, User(f), true));
      ok := true;
    }

    method Install(m: Matcher)
      requires Valid() && IsKind(m.kind) && !IsBuiltIn(m.kind)
      modifies this`mfp
      ensures Valid() && mfp == old(mfp) + [m]
      ensures old(Standard()) ==> (Standard() <==> m.typeId >= UserId)
    {
      if IsLexerTable(mfp, IdentPlace) { TableGrows(mfp, IdentPlace, m); }
      mfp := mfp + [m];
    }

    /** Turns the first matcher for a token type on or off. */
    method EnableToken(id: nat, enableFl: bool) returns (ok: bool)
      requires Valid()
      modifies this`mfp
      ensures Valid() && ok == exists i :: 0 <= i < |old(mfp)| && old(mfp)[i].typeId == id
      ensures !ok ==> mfp == old(mfp)
      ensures ok ==> exists i :: 0 <= i < |old(mfp)| && IsFirstOf(old(mfp), id, i)
                       && mfp == old(mfp)[i := old(mfp)[i].(enableFl := enableFl)]
      ensures old(Standard()) ==> Standard()
    {
      var mi := 0;
      while mi < |mfp|
        invariant mi <= |mfp| && mfp == old(mfp) && forall j :: 0 <= j < mi ==> mfp[j].typeId != id
      {
        if mfp[mi].typeId == id {
          assert IsFirstOf(mfp, id, mi);
          if IsLexerTable(mfp, IdentPlace) { TableSwitched(mfp, IdentPlace, mi, enableFl); }
          mfp := mfp[mi := mfp[mi].(enableFl := enableFl)];
          return true;
        }
        mi := mi + 1;
      }
      ok := false;
    }

    /** Takes a new filter; the tokens themselves do not change. */
    method SetFilterFlags(f: Flags)
      requires Valid()
      modifies this`flags
      ensures Valid() && flags == f
    {
      flags := f;
    }
  }

  /** The id that no token has. */
  const InvalidId := 0xFFFF_FFFF

  predicate HasId(mfp: seq<Matcher>, id: nat) {
    id != InvalidId && exists i :: 0 <= i < |mfp| && mfp[i].typeId == id
  }

  predicate HasKey(mfp: seq<Matcher>, key: seq<char>) {
    exists i :: 0 <= i < |mfp| && mfp[i].kind.Exact? && mfp[i].kind.key == key
  }

  predicate IsFirstOf(mfp: seq<Matcher>, id: nat, i: nat) {
    i < |mfp| && mfp[i].typeId == id && forall j :: 0 <= j < i ==> mfp[j].typeId != id
  }

  function BuiltIns(returnQChar: bool): seq<Matcher> {
    [Matcher(SpaceId, SpaceKind, true), Matcher(RealId, RealKind, true), Matcher(IntId, IntKind, true),
     Matcher(HexId, HexKind, true), Matcher(IdentId, IdentKind, true), Matcher(QStrId, QStrKind, true),
     Matcher(BlockCmtId, BlockCmtKind, true), Matcher(LineCmtId, LineCmtKind, true)]
    + if returnQChar then [Matcher(QCharId, QCharKind, true)] else []
  }
}
