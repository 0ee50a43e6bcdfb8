/**
 * The phone-number pattern of `extract_phone`,
 *   \(?([0-9]{3})\)?[-.\s]?([0-9]{3})[-.\s]?([0-9]{4})
 * written as a list of tokens, matched as `re.search` matches it
 * (leftmost start, each optional part taken when the next character allows),
 * and the canonical `(NNN) NNN-NNNN` form the match is rewritten to.
 */
module Phone {
  import opened Wrappers
  import opened Text

  /** `[-.\s]`: a separator allowed between the digit groups. */
  predicate IsSep(c: char) {
    c == '-' || c == '.' || IsSpace(c)
  }

  datatype CharClass = Exactly(c: char) | Separator

  predicate InClass(c: char, k: CharClass) {
    match k
    case Exactly(x) => c == x
    case Separator => IsSep(c)
  }

  /** One element of the pattern: an optional character of a class (`x?`), or `[0-9]{n}`. */
  datatype Token = Optional(cls: CharClass) | Digits(count: nat)

  /** `\(?  [0-9]{3}  \)?  [-.\s]?  [0-9]{3}  [-.\s]?  [0-9]{4}`; tokens 1, 4 and 6 are the groups. */
  const PhonePattern: seq<Token> :=
    [Optional(Exactly('(')), Digits(3), Optional(Exactly(')')), Optional(Separator),
     Digits(3), Optional(Separator), Digits(4)]

  /** `w` is a string token `t` matches on its own. */
  predicate Fits(t: Token, w: string) {
    match t
    case Optional(k) => w == [] || (|w| == 1 && InClass(w[0], k))
    case Digits(n) => |w| == n && AllDigits(w)
  }

  /** `w` occurs in `s` starting at index `i`. */
  predicate Occurs(s: string, i: nat, w: string) {
    i + |w| <= |s| && s[i..i + |w|] == w
  }

  /**
   * The tokens match `s` from index `i` on, token `j` matching the piece `ws[j]`,
   * the pieces following one another. This is the declarative meaning of the pattern.
   */
  predicate MatchesFrom(s: string, i: nat, toks: seq<Token>, ws: seq<string>)
    decreases toks
  {
    |ws| == |toks| &&
    (toks == [] ||
      (Fits(toks[0], ws[0]) && Occurs(s, i, ws[0]) && MatchesFrom(s, i + |ws[0]|, toks[1..], ws[1..])))
  }

  /** `n` digits start at index `i` of `s`. */
  predicate DigitsAt(s: string, i: nat, n: nat) {
    i + n <= |s| && AllDigits(s[i..i + n])
  }

  /** The piece the regex engine takes for one token at `i`: an optional character when it is there. */
  function Take(s: string, i: nat, t: Token): (r: Option<string>)
    requires i <= |s|
    ensures r.Some? ==> Fits(t, r.value) && Occurs(s, i, r.value)
    ensures t.Optional? ==> r.Some?
  {
    match t
    case Optional(k) => Some(if i < |s| && InClass(s[i], k) then [s[i]] else [])
    case Digits(n) => if DigitsAt(s, i, n) then Some(s[i..i + n]) else None
  }

  /** The regex engine's attempt to match the tokens at `i`, without backtracking. */
  function Greedy(s: string, i: nat, toks: seq<Token>): Option<seq<string>>
    requires i <= |s|
    decreases toks
  {
    if toks == [] then Some([])
    else
      match Take(s, i, toks[0])
      case None => None
      case Some(w) =>
        match Greedy(s, i + |w|, toks[1..])
        case None => None
        case Some(ws) => Some([w] + ws)
  }

  /** What the engine finds is a match of the tokens. */
  lemma {:induction false} GreedySound(s: string, i: nat, toks: seq<Token>)
    requires i <= |s|
    ensures Greedy(s, i, toks).Some? ==> MatchesFrom(s, i, toks, Greedy(s, i, toks).value)
    decreases toks
  {
    if toks != [] && Take(s, i, toks[0]).Some? {
      var w := Take(s, i, toks[0]).value;
      GreedySound(s, i + |w|, toks[1..]);
      if Greedy(s, i, toks).Some? {
        var ws := Greedy(s, i, toks).value;
        assert ws[0] == w && ws[1..] == Greedy(s, i + |w|, toks[1..]).value;
      }
    }
  }

  /** The tokens can match the empty string. */
  predicate Nullable(toks: seq<Token>)
    decreases toks
  {
    toks == [] || ((toks[0].Optional? || toks[0].count == 0) && Nullable(toks[1..]))
  }

  /** `c` can be the first character of a match of the tokens. */
  predicate CanStart(toks: seq<Token>, c: char)
    decreases toks
  {
    toks != [] &&
    match toks[0]
    case Optional(k) => InClass(c, k) || CanStart(toks[1..], c)
    case Digits(n) => if n > 0 then IsDigit(c) else CanStart(toks[1..], c)
  }

  /**
   * Whether an optional token is present is never a choice: what follows it
   * always consumes a character, and cannot start with a character of its class.
   */
  predicate Unambiguous(toks: seq<Token>)
    decreases toks
  {
    toks == [] ||
    (Unambiguous(toks[1..]) &&
     (toks[0].Optional? ==>
        !Nullable(toks[1..]) && forall c :: InClass(c, toks[0].cls) ==> !CanStart(toks[1..], c)))
  }

  lemma {:induction false} FirstChar(s: string, i: nat, toks: seq<Token>, ws: seq<string>)
    requires MatchesFrom(s, i, toks, ws) && !Nullable(toks)
    ensures i < |s| && CanStart(toks, s[i])
    decreases toks
  {
    var w := ws[0];
    match toks[0]
    case Optional(k) =>
      if w == [] {
        FirstChar(s, i, toks[1..], ws[1..]);
      } else {
        assert s[i] == s[i..i + |w|][0];
      }
    case Digits(n) =>
      if n > 0 {
        assert s[i] == s[i..i + |w|][0];
      } else {
        FirstChar(s, i, toks[1..], ws[1..]);
      }
  }

  /** For unambiguous tokens, every match is the one the engine finds: matches at one index are unique. */
  lemma {:induction false} GreedyComplete(s: string, i: nat, toks: seq<Token>, ws: seq<string>)
    requires i <= |s|
    requires Unambiguous(toks) && MatchesFrom(s, i, toks, ws)
    ensures Greedy(s, i, toks) == Some(ws)
    decreases toks
  {
    if toks != [] {
      var w := ws[0];
      match toks[0] {
        case Optional(k) =>
          if w == [] {
            if i < |s| && InClass(s[i], k) {
              FirstChar(s, i, toks[1..], ws[1..]);
              assert false;
            }
          } else {
            assert s[i] == s[i..i + |w|][0];
          }
        case Digits(n) =>
          assert s[i..i + n] == w;
      }
      assert Take(s, i, toks[0]) == Some(w);
      GreedyComplete(s, i + |w|, toks[1..], ws[1..]);
      assert ws == [w] + ws[1..];
    }
  }

  lemma PhonePatternUnambiguous()
    ensures Unambiguous(PhonePattern)
  {
    var t := PhonePattern;
    assert !Nullable(t[6..]) && !Nullable(t[4..]) && !Nullable(t[3..]) && !Nullable(t[1..]);
    assert !CanStart(t[1..], '(');
    assert !CanStart(t[3..], ')');
    assert forall c :: IsSep(c) ==> !CanStart(t[4..], c);
    assert forall c :: IsSep(c) ==> !CanStart(t[6..], c);
    assert Unambiguous(t[6..]);
    assert Unambiguous(t[5..]);
    assert Unambiguous(t[4..]);
    assert Unambiguous(t[3..]);
    assert Unambiguous(t[2..]);
    assert Unambiguous(t[1..]);
  }

  /** The three capture groups: area code, exchange and line number. */
  datatype Groups = Groups(area: string, exchange: string, line: string)

  predicate GroupsWellFormed(g: Groups) {
    && |g.area| == 3 && AllDigits(g.area)
    && |g.exchange| == 3 && AllDigits(g.exchange)
    && |g.line| == 4 && AllDigits(g.line)
  }

  /** The pattern matches `s` at index `i`, its seven tokens matching the pieces `ws`. */
  predicate MatchesAt(s: string, i: nat, ws: seq<string>) {
    MatchesFrom(s, i, PhonePattern, ws)
  }

  /** `match.group(1)`, `match.group(2)`, `match.group(3)`. */
  function GroupsOf(ws: seq<string>): Groups
    requires |ws| == 7
  {
    Groups(ws[1], ws[4], ws[6])
  }

  lemma MatchGroupsWellFormed(s: string, i: nat, ws: seq<string>)
    requires MatchesAt(s, i, ws)
    ensures GroupsWellFormed(GroupsOf(ws))
  {
    var t := PhonePattern;
    assert MatchesFrom(s, i, t, ws);
    var i1 := i + |ws[0]|;
    assert MatchesFrom(s, i1, t[1..], ws[1..]);
    var i2 := i1 + |ws[1]|;
    assert MatchesFrom(s, i2, t[2..], ws[2..]);
    var i3 := i2 + |ws[2]|;
    assert MatchesFrom(s, i3, t[3..], ws[3..]);
    var i4 := i3 + |ws[3]|;
    assert MatchesFrom(s, i4, t[4..], ws[4..]);
    var i5 := i4 + |ws[4]|;
    assert MatchesFrom(s, i5, t[5..], ws[5..]);
    var i6 := i5 + |ws[5]|;
    assert MatchesFrom(s, i6, t[6..], ws[6..]);
  }

  /** The regex engine's attempt at index `i`. */
  function MatchAt(s: string, i: nat): Option<seq<string>>
    requires i <= |s|
  {
    Greedy(s, i, PhonePattern)
  }

  /** The attempt at `i` succeeds exactly with the (unique) match of the pattern at `i`. */
  lemma MatchAtSpec(s: string, i: nat)
    requires i <= |s|
    ensures MatchAt(s, i).Some? ==> MatchesAt(s, i, MatchAt(s, i).value)
    ensures forall ws :: MatchesAt(s, i, ws) ==> MatchAt(s, i) == Some(ws)
  {
    GreedySound(s, i, PhonePattern);
    PhonePatternUnambiguous();
    forall ws | MatchesAt(s, i, ws) ensures MatchAt(s, i) == Some(ws) {
      GreedyComplete(s, i, PhonePattern, ws);
    }
  }

  /** A match found by `re.search`: where it starts and its seven pieces. */
  datatype Hit = Hit(start: nat, pieces: seq<string>)

  /** `re.search` from index `i` on: the first index at which the engine's attempt at `toks` succeeds. */
  function SearchFrom(s: string, i: nat, toks: seq<Token>): Option<Hit>
    requires i <= |s|
    decreases |s| - i
  {
    match Greedy(s, i, toks)
    case Some(ws) => Some(Hit(i, ws))
    case None => if i == |s| then None else SearchFrom(s, i + 1, toks)
  }

  function Search(s: string): Option<Hit> {
    SearchFrom(s, 0, PhonePattern)
  }

  /** The engine's attempts fail at every index from `i` up to the one `SearchFrom` reports. */
  lemma {:induction false} SearchFromFirst(s: string, i: nat, toks: seq<Token>)
    requires i <= |s|
    ensures var r := SearchFrom(s, i, toks);
      && (r.Some? ==> i <= r.value.start <= |s| && Greedy(s, r.value.start, toks) == Some(r.value.pieces))
      && (r.Some? ==> forall j :: i <= j < r.value.start ==> Greedy(s, j, toks).None?)
      && (r.None? ==> forall j :: i <= j <= |s| ==> Greedy(s, j, toks).None?)
    decreases |s| - i
  {
    if Greedy(s, i, toks).None? && i < |s| {
      SearchFromFirst(s, i + 1, toks);
    }
  }

  lemma SearchFromLeftmost(s: string, i: nat)
    requires i <= |s|
    ensures var r := SearchFrom(s, i, PhonePattern);
      && (r.Some? ==> i <= r.value.start <= |s| && MatchesAt(s, r.value.start, r.value.pieces))
      && (r.Some? ==> forall j, ws :: i <= j < r.value.start ==> !MatchesAt(s, j, ws))
      && (r.None? ==> forall j, ws :: i <= j <= |s| ==> !MatchesAt(s, j, ws))
  {
    SearchFromFirst(s, i, PhonePattern);
    var r := SearchFrom(s, i, PhonePattern);
    var end := if r.Some? then r.value.start else |s| + 1;
    forall j, ws | i <= j < end && j <= |s| ensures !MatchesAt(s, j, ws) {
      MatchAtSpec(s, j);
    }
    if r.Some? {
      MatchAtSpec(s, r.value.start);
    }
  }

  /**
   * `Search` is `re.search`: it reports a match of the pattern, no match
   * starts further left, and it reports nothing only when the pattern occurs nowhere.
   */
  lemma SearchLeftmost(s: string)
    ensures var r := Search(s);
      && (r.Some? ==> r.value.start <= |s| && MatchesAt(s, r.value.start, r.value.pieces))
      && (r.Some? ==> forall j, ws :: 0 <= j < r.value.start ==> !MatchesAt(s, j, ws))
      && (r.None? ==> forall j, ws :: 0 <= j <= |s| ==> !MatchesAt(s, j, ws))
  {
    SearchFromLeftmost(s, 0);
  }

  /** `f"({g1}) {g2}-{g3}"`. */
  function Format(g: Groups): string {
    "(" + g.area + ") " + g.exchange + "-" + g.line
  }

  /** The canonical phone form: `(NNN) NNN-NNNN`, 14 characters with digits at the fixed places. */
  predicate Canonical(r: string) {
    && |r| == 14
    && r[0] == '(' && AllDigits(r[1..4]) && r[4] == ')' && r[5] == ' '
    && AllDigits(r[6..9]) && r[9] == '-' && AllDigits(r[10..14])
  }

  /** Formatting gives the canonical form, and the groups can be read back from it. */
  lemma FormatCanonical(g: Groups)
    requires GroupsWellFormed(g)
    ensures Canonical(Format(g))
    ensures Format(g)[1..4] == g.area && Format(g)[6..9] == g.exchange && Format(g)[10..14] == g.line
  {
    var r := Format(g);
    assert r[1..4] == g.area;
    assert r[6..9] == g.exchange;
    assert r[10..14] == g.line;
  }

  /** The phone number a text yields: the leftmost match reformatted, or `''`. */
  function PhoneOfText(t: string): string {
    match Search(t)
    case Some(h) => if |h.pieces| == 7 then Format(GroupsOf(h.pieces)) else ""
    case None => ""
  }

  /**
   * The phone number of a text is `''` exactly when the pattern occurs nowhere in it;
   * otherwise it is the canonical form of the groups of the leftmost match.
   */
  lemma PhoneOfTextSpec(t: string)
    ensures PhoneOfText(t) == "" <==> forall j, ws :: 0 <= j <= |t| ==> !MatchesAt(t, j, ws)
    ensures PhoneOfText(t) != "" ==> Canonical(PhoneOfText(t))
    ensures PhoneOfText(t) != "" ==>
      exists j, ws :: 0 <= j <= |t| && MatchesAt(t, j, ws) && PhoneOfText(t) == Format(GroupsOf(ws))
        && forall j', ws' :: 0 <= j' < j ==> !MatchesAt(t, j', ws')
  {
    SearchLeftmost(t);
    match Search(t)
    case Some(h) =>
      MatchGroupsWellFormed(t, h.start, h.pieces);
      FormatCanonical(GroupsOf(h.pieces));
    case None =>
  }

  /** The pieces of the canonical form, one per token. */
  function CanonicalPieces(g: Groups): seq<string> {
    ["(", g.area, ")", " ", g.exchange, "-", g.line]
  }

  /** The canonical form of `g` is matched at index 0, by the pieces of `CanonicalPieces(g)`. */
  lemma CanonicalMatches(g: Groups)
    requires GroupsWellFormed(g)
    ensures MatchesAt(Format(g), 0, CanonicalPieces(g))
  {
    var r := Format(g);
    var t := PhonePattern;
    var ws := CanonicalPieces(g);
    FormatCanonical(g);
    assert r[0..1] == "(" && r[4..5] == ")" && r[5..6] == " " && r[9..10] == "-";
    assert MatchesFrom(r, 14, t[7..], ws[7..]);
    assert MatchesFrom(r, 10, t[6..], ws[6..]);
    assert MatchesFrom(r, 9, t[5..], ws[5..]);
    assert MatchesFrom(r, 6, t[4..], ws[4..]);
    assert MatchesFrom(r, 5, t[3..], ws[3..]);
    assert MatchesFrom(r, 4, t[2..], ws[2..]);
    assert MatchesFrom(r, 1, t[1..], ws[1..]);
  }

  /** Normalising a phone number that is already normalised changes nothing. */
  lemma PhoneOfTextIdempotent(t: string)
    ensures PhoneOfText(PhoneOfText(t)) == PhoneOfText(t)
  {
    var r := PhoneOfText(t);
    match Search(t)
    case None =>
      assert MatchAt(r, 0).None?;
    case Some(h) =>
      SearchLeftmost(t);
      var g := GroupsOf(h.pieces);
      MatchGroupsWellFormed(t, h.start, h.pieces);
      CanonicalMatches(g);
      MatchAtSpec(r, 0);
      assert MatchAt(r, 0) == Some(CanonicalPieces(g));
  }
}
