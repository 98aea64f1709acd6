/**
 * `get_token`: the bearer token is scraped from the storefront landing page.
 * Every line that `re.match("<meta.+web-experience-app/config/environment", line)`
 * accepts is a configuration line; from each one the token is the group of
 * `re.search("token%22%3A%22(.+?)%22", line)`. The loop has no `break`, so
 * the last configuration line supplies the token.
 *
 * Python's `.` matches every character except a newline. `re.search` tries
 * start positions from left to right and the lazy `.+?` tries the shortest
 * group first, so the reported match is the one with the smallest start and,
 * for that start, the smallest end.
 */
module Token {
  import opened Wrappers

  const MetaOpen := "<meta"
  const Marker := "web-experience-app/config/environment"
  const TokenOpen := "token%22%3A%22"
  const TokenClose := "%22"

  /** `Marker` starts at `j`. */
  predicate MarkerAt(line: string, j: int) {
    0 <= j && j + |Marker| <= |line| && line[j..j + |Marker|] == Marker
  }

  /** `line` starts with `MetaOpen`. */
  predicate MetaPrefix(line: string) {
    |MetaOpen| <= |line| && line[..|MetaOpen|] == MetaOpen
  }

  /** `TokenOpen` starts at `p`. */
  predicate OpenAt(line: string, p: int) {
    0 <= p && p + |TokenOpen| <= |line| && line[p..p + |TokenOpen|] == TokenOpen
  }

  /** The line-selection pattern matches `line` with `.+` covering `line[|MetaOpen|..j]`. */
  ghost predicate ConfigMatch(line: string, j: int) {
    && |MetaOpen| < j
    && MetaPrefix(line)
    && MarkerAt(line, j)
    && forall k :: |MetaOpen| <= k < j ==> line[k] != '\n'
  }

  /** Whether `Marker` occurs at some position from `j` on before the first newline. */
  function MarkerFrom(line: string, j: nat): bool
    decreases |line| - j
  {
    if j + |Marker| > |line| then false
    else if MarkerAt(line, j) then true
    else if line[j] == '\n' then false
    else MarkerFrom(line, j + 1)
  }

  /** Scanning from `j`, with no newline since `MetaOpen`, finds exactly the matches that stretch `.+` to `j` or beyond. */
  lemma {:induction false} MarkerFromMatches(line: string, j: nat)
    requires |MetaOpen| < j <= |line|
    requires MetaPrefix(line)
    requires forall k :: |MetaOpen| <= k < j ==> line[k] != '\n'
    ensures MarkerFrom(line, j) <==> exists j' :: j <= j' && ConfigMatch(line, j')
    decreases |line| - j
  {
    if j + |Marker| > |line| {
    } else if MarkerAt(line, j) {
      assert ConfigMatch(line, j);
    } else if line[j] == '\n' {
      assert forall j' :: j <= j' && ConfigMatch(line, j') ==> j' == j;
    } else {
      MarkerFromMatches(line, j + 1);
      assert forall j' :: j <= j' && ConfigMatch(line, j') ==> j + 1 <= j';
    }
  }

  /** Whether `line` is a configuration line. */
  predicate IsConfigLine(line: string) {
    if |line| > |MetaOpen| && MetaPrefix(line) && line[|MetaOpen|] != '\n' then
      MarkerFrom(line, |MetaOpen| + 1)
    else
      false
  }

  /** A line is a configuration line exactly when the line-selection pattern matches it. */
  lemma ConfigLineMatches(line: string)
    ensures IsConfigLine(line) <==> exists j :: ConfigMatch(line, j)
  {
    if |line| > |MetaOpen| && MetaPrefix(line) && line[|MetaOpen|] != '\n' {
      MarkerFromMatches(line, |MetaOpen| + 1);
    }
  }

  /** The token pattern matches `line` at `p`, with the group `line[p + |TokenOpen|..q]`. */
  ghost predicate TokenMatch(line: string, p: int, q: int) {
    && 0 <= p
    && p + |TokenOpen| < q
    && OpenAt(line, p)
    && CloseAt(line, q)
    && forall k :: p + |TokenOpen| <= k < q ==> line[k] != '\n'
  }

  /** `(p, q)` is the match `re.search` reports: none starts earlier, or ends earlier from the same start. */
  ghost predicate Chosen(line: string, p: int, q: int) {
    && TokenMatch(line, p, q)
    && forall p', q' :: TokenMatch(line, p', q') ==> p < p' || (p == p' && q <= q')
  }

  /** `TokenClose` starts at `q`. */
  predicate CloseAt(line: string, q: int) {
    0 <= q && q + |TokenClose| <= |line| && line[q..q + |TokenClose|] == TokenClose
  }

  /** The first `q' >= q` where `TokenClose` starts, unless a newline comes first. */
  function CloseFrom(line: string, q: nat): Option<nat>
    decreases |line| - q
  {
    if q + |TokenClose| > |line| then None
    else if CloseAt(line, q) then Some(q)
    else if line[q] == '\n' then None
    else CloseFrom(line, q + 1)
  }

  /** `CloseFrom` finds the nearest `TokenClose` that no newline since `start` precedes. */
  lemma {:induction false} CloseFromNearest(line: string, start: nat, q: nat)
    requires start <= q <= |line|
    requires forall k :: start <= k < q ==> line[k] != '\n'
    ensures CloseFrom(line, q).Some? ==> q <= CloseFrom(line, q).value && CloseAt(line, CloseFrom(line, q).value)
    ensures CloseFrom(line, q).Some? ==> forall k :: start <= k < CloseFrom(line, q).value ==> line[k] != '\n'
    ensures CloseFrom(line, q).Some? ==> forall q' :: q <= q' < CloseFrom(line, q).value ==> !CloseAt(line, q')
    ensures CloseFrom(line, q).None? ==> forall q' :: q <= q' && CloseAt(line, q') ==> exists k :: start <= k < q' && line[k] == '\n'
    decreases |line| - q
  {
    if q + |TokenClose| > |line| {
    } else if CloseAt(line, q) {
    } else if line[q] == '\n' {
    } else {
      CloseFromNearest(line, start, q + 1);
    }
  }

  /** The end of the match of the token pattern that starts at `p`, if any. */
  function MatchAt(line: string, p: nat): Option<nat> {
    if p + |TokenOpen| < |line| && OpenAt(line, p) && line[p + |TokenOpen|] != '\n' then
      CloseFrom(line, p + |TokenOpen| + 1)
    else
      None
  }

  /** `MatchAt` gives the shortest match from `p`, the one the lazy `.+?` reports. */
  lemma MatchAtShortest(line: string, p: nat)
    ensures MatchAt(line, p).Some? ==> TokenMatch(line, p, MatchAt(line, p).value)
    ensures MatchAt(line, p).Some? ==> forall q' :: TokenMatch(line, p, q') ==> MatchAt(line, p).value <= q'
    ensures MatchAt(line, p).None? ==> forall q' :: !TokenMatch(line, p, q')
  {
    if p + |TokenOpen| < |line| && OpenAt(line, p) && line[p + |TokenOpen|] != '\n' {
      CloseFromNearest(line, p + |TokenOpen|, p + |TokenOpen| + 1);
    }
  }

  /** The leftmost match of the token pattern at or after `p`. */
  function SearchFrom(line: string, p: nat): Option<(nat, nat)>
    decreases |line| - p
  {
    if p + |TokenOpen| >= |line| then None
    else match MatchAt(line, p)
      case Some(q) => Some((p, q))
      case None => SearchFrom(line, p + 1)
  }

  /** `SearchFrom` gives the match with the smallest start at or after `p` and, for it, the smallest end. */
  lemma {:induction false} SearchFromLeftmost(line: string, p: nat)
    ensures SearchFrom(line, p).Some? ==>
              p <= SearchFrom(line, p).value.0 && TokenMatch(line, SearchFrom(line, p).value.0, SearchFrom(line, p).value.1)
    ensures SearchFrom(line, p).Some? ==> forall p', q' :: p <= p' && TokenMatch(line, p', q') ==>
              SearchFrom(line, p).value.0 < p' || (SearchFrom(line, p).value.0 == p' && SearchFrom(line, p).value.1 <= q')
    ensures SearchFrom(line, p).None? ==> forall p', q' :: p <= p' ==> !TokenMatch(line, p', q')
    decreases |line| - p
  {
    if p + |TokenOpen| < |line| {
      MatchAtShortest(line, p);
      if MatchAt(line, p).None? {
        SearchFromLeftmost(line, p + 1);
      }
    }
  }

  /**
   * The token `re.search(...).group(1)` yields for `line`, or `None` where the
   * pattern does not match (the source then fails calling `.group` on `None`).
   */
  function TokenIn(line: string): Option<string> {
    match SearchFrom(line, 0)
    case None => None
    case Some((p, q)) =>
      SearchFromLeftmost(line, 0);
      Some(line[p + |TokenOpen|..q])
  }

  /** The token is the group of the match `re.search` reports: non-empty and on one line. */
  lemma TokenInMatches(line: string)
    ensures TokenIn(line).None? <==> forall p, q :: !TokenMatch(line, p, q)
    ensures TokenIn(line).Some? ==> exists p, q :: Chosen(line, p, q) && TokenIn(line).value == line[p + |TokenOpen|..q]
    ensures TokenIn(line).Some? ==> |TokenIn(line).value| > 0 && '\n' !in TokenIn(line).value
  {
    SearchFromLeftmost(line, 0);
    match SearchFrom(line, 0)
    case None =>
    case Some((p, q)) =>
      assert Chosen(line, p, q);
  }

  /** The lazy group stops at the first `%22`: the token is the shortest possible. */
  lemma ShortestToken()
    ensures TokenIn("token%22%3A%22ab%22c%22") == Some("ab")
  {
    var line := "token%22%3A%22ab%22c%22";
    assert OpenAt(line, 0) && CloseAt(line, 16);
    assert TokenMatch(line, 0, 16);
    TokenInMatches(line);
    var p, q :| Chosen(line, p, q) && TokenIn(line).value == line[p + |TokenOpen|..q];
    assert line[15] != TokenClose[0];
    assert p == 0 && q == 16;
    assert line[14..16] == "ab";
  }

  /** The landing page: its HTTP status and its text, already split into lines. */
  datatype LandingPage = LandingPage(status: int, lines: seq<string>)

  /** How `get_token` ends. */
  datatype TokenOutcome =
    | Bearer(token: string)
      /** No line is a configuration line: `token` is unbound where it is returned. */
    | NoConfigLine
      /** Configuration line `line` has no token: `.group(1)` is called on `None`. */
    | ConfigLineWithoutToken(line: nat)

  /** None of `lines[from..to]` is a configuration line. */
  ghost predicate NoConfigIn(lines: seq<string>, from: int, to: int)
    requires 0 <= from <= to <= |lines|
  {
    forall i {:trigger IsConfigLine(lines[i])} :: from <= i < to ==> !IsConfigLine(lines[i])
  }

  /** Every configuration line among `lines[..to]` holds a token. */
  ghost predicate TokensUpTo(lines: seq<string>, to: int)
    requires 0 <= to <= |lines|
  {
    forall i {:trigger TokenIn(lines[i])} :: 0 <= i < to && IsConfigLine(lines[i]) ==> TokenIn(lines[i]).Some?
  }

  /**
   * What `get_token` does with the lines of a page: it fails at the first
   * configuration line without a token; otherwise the token comes from the
   * last configuration line; with no configuration line there is no token.
   */
  ghost predicate TokenSpec(lines: seq<string>, r: TokenOutcome) {
    && (r.NoConfigLine? <==> NoConfigIn(lines, 0, |lines|))
    && (r.ConfigLineWithoutToken? ==>
          && r.line < |lines|
          && IsConfigLine(lines[r.line])
          && TokenIn(lines[r.line]).None?
          && TokensUpTo(lines, r.line))
    && (r.Bearer? ==> TokensUpTo(lines, |lines|))
    && (r.Bearer? ==> exists i ::
          && 0 <= i < |lines|
          && IsConfigLine(lines[i])
          && TokenIn(lines[i]) == Some(r.token)
          && NoConfigIn(lines, i + 1, |lines|))
  }

  /** `TokenSpec` leaves no choice: the same lines always give the same outcome. */
  lemma TokenSpecUnique(lines: seq<string>, r1: TokenOutcome, r2: TokenOutcome)
    requires TokenSpec(lines, r1) && TokenSpec(lines, r2)
    ensures r1 == r2
  {
    if r1.Bearer? && r2.Bearer? {
      var i1 :| 0 <= i1 < |lines| && IsConfigLine(lines[i1]) && TokenIn(lines[i1]) == Some(r1.token)
                && NoConfigIn(lines, i1 + 1, |lines|);
      var i2 :| 0 <= i2 < |lines| && IsConfigLine(lines[i2]) && TokenIn(lines[i2]) == Some(r2.token)
                && NoConfigIn(lines, i2 + 1, |lines|);
      assert !(i1 < i2) && !(i2 < i1);
    } else if r1.ConfigLineWithoutToken? && r2.ConfigLineWithoutToken? {
      assert !(r1.line < r2.line) && !(r2.line < r1.line);
    }
  }

  /**
   * Scans the landing page line by line. A status other than 200 is only
   * reported by the source, so extraction proceeds whatever `page.status` is.
   */
  method GetToken(page: LandingPage) returns (r: TokenOutcome)
    ensures TokenSpec(page.lines, r)
  {
    var lines := page.lines;
    var token: Option<string> := None;
    var n := 0;
    ghost var last := 0;  // the configuration line `token` was taken from
    while n < |lines|
      invariant 0 <= n <= |lines|
      invariant token.None? ==> NoConfigIn(lines, 0, n)
      invariant TokensUpTo(lines, n)
      invariant token.Some? ==> 0 <= last < n && IsConfigLine(lines[last]) && TokenIn(lines[last]) == token
      invariant token.Some? ==> NoConfigIn(lines, last + 1, n)
    {
      if IsConfigLine(lines[n]) {
        var found := TokenIn(lines[n]);
        if found.None? {
          assert !NoConfigIn(lines, 0, |lines|);
          r := ConfigLineWithoutToken(n);
          assert IsConfigLine(lines[r.line]) && TokenIn(lines[r.line]).None? && TokensUpTo(lines, r.line);
          return;
        }
        token := found;
        last := n;
      }
      n := n + 1;
    }
    if token.None? {
      return NoConfigLine;
    }
    assert IsConfigLine(lines[last]);
    r := Bearer(token.value);
    assert IsConfigLine(lines[last]) && TokenIn(lines[last]) == Some(r.token) && NoConfigIn(lines, last + 1, |lines|);
  }
}
