/** The table of matchers of src/core/cwLex.cpp and the choice that the lexer makes among them. */
module LexTable {
  import opened LexMatch

  const SpaceId := 3
  const RealId := 4
  const IntId := 5
  const HexId := 6
  const IdentId := 7
  const QStrId := 8
  const QCharId := 9
  const BlockCmtId := 10
  const LineCmtId := 11
  const UserId := 12

  /** The function behind a table entry; a user's own function answers with a count of characters. */
  datatype Kind =
    | SpaceKind | RealKind | IntKind | HexKind | IdentKind | QStrKind | BlockCmtKind | LineCmtKind | QCharKind
    | Exact(key: seq<char>)
    | User(f: (seq<char>, nat) -> nat)

  datatype Matcher = Matcher(typeId: nat, kind: Kind, enableFl: bool)

  /** A key holds no NUL, and a user's function counts only characters that are there. */
  ghost predicate IsKind(k: Kind) {
    && (k.Exact? ==> IsKey(k.key))
    && (k.User? ==> forall cp, at: nat :: IsText(cp) && at < |cp| - 1 ==> at + k.f(cp, at) < |cp|)
  }

  function MatchOf(k: Kind, cp: seq<char>, at: nat): Match
    requires at < |cp| - 1
  {
    match k
    case SpaceKind => SpaceMatch(cp, at)
    case RealKind => RealMatch(cp, at)
    case IntKind => IntMatch(cp, at)
    case HexKind => HexMatch(cp, at)
    case IdentKind => IdentMatch(cp, at)
    case QStrKind => QStrMatch(cp, at)
    case BlockCmtKind => BlockMatch(cp, at)
    case LineCmtKind => LineMatch(cp, at)
    case QCharKind => QCharMatch(cp, at)
    case Exact(key) => ExactMatch(cp, at, key)
    case User(f) => Plain(f(cp, at))
  }

  /** No matcher takes more than the rest of the text. */
  lemma MatchFits(k: Kind, cp: seq<char>, at: nat)
    requires IsText(cp) && IsKind(k) && at < |cp| - 1
    ensures at + MatchOf(k, cp, at).n < |cp|
  {
  }

  method CallMatcher(k: Kind, cp: seq<char>, at: nat) returns (m: Match)
    requires IsText(cp) && IsKind(k) && at < |cp| - 1
    ensures m == MatchOf(k, cp, at)
  {
    match k
    case SpaceKind => m := SpaceMatcher(cp, at);
    case RealKind => m := RealMatcher(cp, at);
    case IntKind => m := IntMatcher(cp, at);
    case HexKind => m := HexMatcher(cp, at);
    case IdentKind => m := IdentMatcher(cp, at);
    case QStrKind => m := QStrMatcher(cp, at);
    case BlockCmtKind => m := BlockCmtMatcher(cp, at);
    case LineCmtKind => m := LineCmtMatcher(cp, at);
    case QCharKind => m := QCharMatcher(cp, at);
    case Exact(key) => m := ExactStringMatcher(cp, at, key);
    case User(f) => m := Plain(f(cp, at));
  }

  // ----------------------------------------------------------------- the built-in matchers

  predicate IsBuiltIn(k: Kind) { !k.Exact? && !k.User? }

  /** What the first character of a match of a built-in matcher may be. */
  predicate MayStart(k: Kind, c: char) {
    match k
    case SpaceKind => Is(Space, c)
    case RealKind => Is(Digit, c) || c == '-' || c == '.'
    case IntKind => Is(Digit, c) || c == '-'
    case HexKind => c == '0'
    case IdentKind => IsAlpha(c) || c == '_'
    case QStrKind => c == '"'
    case QCharKind => c == '\''
    case BlockCmtKind => c == '/'
    case LineCmtKind => c == '/'
    case _ => true
  }

  lemma FirstChar(k: Kind, cp: seq<char>, at: nat)
    requires IsBuiltIn(k) && at < |cp| - 1 && MatchOf(k, cp, at).n > 0
    ensures MayStart(k, cp[at])
  {
    match k
    case BlockCmtKind => assert cp[at..at + 2][0] == cp[at];
    case LineCmtKind => assert cp[at..at + 2][0] == cp[at];
    case _ =>
  }

  /** Where a real is found, an integer there is shorter. */
  lemma RealBeatsInt(cp: seq<char>, at: nat)
    requires at < |cp| - 1 && RealMatch(cp, at).n > 0
    ensures !IntMatch(cp, at).fault && IntMatch(cp, at).n < RealMatch(cp, at).n
  {
  }

  /** Where 0x is found, a decimal integer ends before the x, and there is no real. */
  lemma HexBeatsInt(cp: seq<char>, at: nat)
    requires at < |cp| - 1 && HexMatch(cp, at).n > 0
    ensures IntMatch(cp, at).n == 1 < HexMatch(cp, at).n && RealMatch(cp, at).n == 0
  {
    RunEndIs(Digit, cp, at, at + 1);
  }

  /** No two built-in matchers match equally long, so among them the order in the table does not
      matter. */
  lemma BuiltInsNeverTie(k: Kind, l: Kind, cp: seq<char>, at: nat)
    requires IsBuiltIn(k) && IsBuiltIn(l) && k != l && at < |cp| - 1
    requires MatchOf(k, cp, at).n > 0 && MatchOf(l, cp, at).n > 0
    ensures MatchOf(k, cp, at).n != MatchOf(l, cp, at).n
  {
    FirstChar(k, cp, at);
    FirstChar(l, cp, at);
    if RealMatch(cp, at).n > 0 { RealBeatsInt(cp, at); }
    if HexMatch(cp, at).n > 0 { HexBeatsInt(cp, at); }
    if StandsAt(cp, at, BlockBegin) {
      assert cp[at + 1] == cp[at..at + 2][1] == '*';
      assert cp[at..at + 2][1] != LineBegin[1];
    }
  }

  /** Where an identifier is found, no other built-in matcher matches. */
  lemma IdentStandsAlone(k: Kind, cp: seq<char>, at: nat)
    requires IsBuiltIn(k) && !k.IdentKind? && at < |cp| - 1 && IdentMatch(cp, at).n > 0
    ensures MatchOf(k, cp, at).n == 0
  {
    if MatchOf(k, cp, at).n > 0 { FirstChar(k, cp, at); }
  }

  // ----------------------------------------------------------------- the choice

  /** The match chosen so far: its length and its place in the table. */
  datatype Best = Nothing | Best(n: nat, i: nat)

  /** A match of n characters for a token of a type replaces the best so far, of type held: it is
      longer; or a user token meets an identifier of the same length, or, with priority for user tokens,
      of any length. */
  predicate Takes(b: Best, held: nat, n: nat, typeId: nat, priority: bool) {
    if b.Nothing? then n > 0
    else n > b.n || (n > 0 && held == IdentId && typeId >= UserId && (n == b.n || priority))
  }

  /** The best of the first k matches. */
  function Pick(types: seq<nat>, lens: seq<nat>, priority: bool, k: nat): (b: Best)
    requires |types| == |lens| && k <= |lens|
    ensures b.Best? ==> b.i < k && 0 < b.n == lens[b.i]
  {
    if k == 0 then Nothing
    else
      var b := Pick(types, lens, priority, k - 1);
      var held := if b.Best? then types[b.i] else 0;
      if Takes(b, held, lens[k - 1], types[k - 1], priority) then Best(lens[k - 1], k - 1) else b
  }

  /** The first match of n characters. */
  predicate IsFirst(lens: seq<nat>, n: nat, i: nat, k: nat)
    requires k <= |lens|
  {
    i < k && lens[i] == n && forall j :: 0 <= j < i ==> lens[j] != n
  }

  predicate IsLongest(lens: seq<nat>, n: nat, k: nat)
    requires k <= |lens|
  {
    forall j :: 0 <= j < k ==> lens[j] <= n
  }

  /** The first user token of n characters behind an identifier as long. */
  predicate BeatsIdent(types: seq<nat>, lens: seq<nat>, n: nat, i: nat, k: nat)
    requires |types| == |lens| && k <= |lens|
  {
    && i < k && lens[i] == n && types[i] >= UserId
    && exists e :: 0 <= e < i && IsFirst(lens, n, e, k) && types[e] == IdentId
                   && forall j :: e < j < i && lens[j] == n ==> types[j] < UserId
  }

  /** Without priority for user tokens the longest match is chosen; among equals the first in the table,
      but if that is an identifier, the first user token among them before it. */
  lemma {:induction false} MaximalMunch(types: seq<nat>, lens: seq<nat>, k: nat)
    requires |types| == |lens| && k <= |lens|
    ensures var b := Pick(types, lens, false, k);
            if b.Nothing? then IsLongest(lens, 0, k)
            else
              && IsLongest(lens, b.n, k)
              && (BeatsIdent(types, lens, b.n, b.i, k)
                  || (IsFirst(lens, b.n, b.i, k)
                      && (types[b.i] == IdentId ==> forall j :: b.i < j < k && lens[j] == b.n ==> types[j] < UserId)))
  {
    if k > 0 { MaximalMunch(types, lens, k - 1); }
  }

  /** With priority for user tokens, when an identifier at place e and otherwise only user tokens behind
      it match, the longest of these is chosen, the first among equals, however short. */
  lemma {:induction false} PriorityForUser(types: seq<nat>, lens: seq<nat>, e: nat, k: nat)
    requires |types| == |lens| && e < k <= |lens| && types[e] == IdentId && lens[e] > 0
    requires forall j :: 0 <= j < |lens| && j != e && lens[j] > 0 ==> e < j && types[j] >= UserId
    ensures var b := Pick(types, lens, true, k);
            && b.Best?
            && if b.i == e then forall j :: 0 <= j < k && j != e ==> lens[j] == 0
               else types[b.i] >= UserId && (forall j :: 0 <= j < k && j != e ==> lens[j] <= b.n)
                    && forall j :: 0 <= j < b.i && j != e ==> lens[j] < b.n
  {
    if k > e + 1 {
      PriorityForUser(types, lens, e, k - 1);
    } else {
      NothingYet(types, lens, true, e);
    }
  }

  lemma {:induction false} NothingYet(types: seq<nat>, lens: seq<nat>, priority: bool, k: nat)
    requires |types| == |lens| && k <= |lens| && forall j :: 0 <= j < k ==> lens[j] == 0
    ensures Pick(types, lens, priority, k) == Nothing
  {
    if k > 0 { NothingYet(types, lens, priority, k - 1); }
  }

  /** Where no identifier is found, priority for user tokens changes nothing. */
  lemma {:induction false} PriorityNeedsIdent(types: seq<nat>, lens: seq<nat>, k: nat)
    requires |types| == |lens| && k <= |lens|
    requires forall j :: 0 <= j < k && lens[j] > 0 ==> types[j] != IdentId
    ensures Pick(types, lens, true, k) == Pick(types, lens, false, k)
  {
    if k > 0 { PriorityNeedsIdent(types, lens, k - 1); }
  }
}
