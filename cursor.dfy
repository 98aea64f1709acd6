/**
 * Extraction of the pagination cursor from the `next` link of a review page,
 * as `fetch_reviews` does with the pattern `^.+offset=([0-9]+).*$` under
 * Python's `re.search`.
 *
 * Python's `.` matches every character except a newline, and `$` matches at
 * the end of the string or just before a newline that ends it. A match is
 * therefore fixed by two positions: `i`, where `offset=` starts (so `.+`
 * covers `s[..i]`), and `e`, where the digit group `s[i + 7..e]` ends. The
 * backtracking engine tries the greedy `.+` longest first and then the greedy
 * `[0-9]+` longest first, so the match it reports is the one with the largest
 * `i` and, for that `i`, the largest `e`.
 */
module Cursor {
  import opened Wrappers

  const Key := "offset="

  predicate IsDigit(c: char) { '0' <= c <= '9' }

  /** The pattern matches `s` with `.+` covering `s[..i]` and the group covering `s[i + |Key|..e]`. */
  ghost predicate Matches(s: string, i: int, e: int) {
    && 1 <= i
    && i + |Key| < e <= |s|
    && s[i..i + |Key|] == Key
    && (forall k :: i + |Key| <= k < e ==> IsDigit(s[k]))
    && (forall k :: 0 <= k < i ==> s[k] != '\n')
    && (forall k :: e <= k < |s| - 1 ==> s[k] != '\n')
  }

  /** `(i, e)` is the match the regex engine reports: no match starts later, or ends later from the same start. */
  ghost predicate Chosen(s: string, i: int, e: int) {
    && Matches(s, i, e)
    && forall i', e' :: Matches(s, i', e') ==> i' < i || (i' == i && e' <= e)
  }

  /** `offset=` followed by a digit starts at `i`, with at least one character before it. */
  predicate KeyAt(s: string, i: int) {
    1 <= i && i + |Key| < |s| && s[i..i + |Key|] == Key && IsDigit(s[i + |Key|])
  }

  /** The last position below `n` where `KeyAt` holds. */
  function LastKey(s: string, n: nat): (r: Option<nat>)
    requires n <= |s|
    ensures r.Some? ==> r.value < n && KeyAt(s, r.value)
    ensures r.Some? ==> forall j :: r.value < j < n ==> !KeyAt(s, j)
    ensures r.None? ==> forall j :: 0 <= j < n ==> !KeyAt(s, j)
    decreases n
  {
    if n == 0 then None
    else if KeyAt(s, n - 1) then Some(n - 1)
    else LastKey(s, n - 1)
  }

  /** The end of the run of digits that starts at `j`. */
  function DigitEnd(s: string, j: nat): (e: nat)
    requires j <= |s|
    ensures j <= e <= |s|
    ensures forall k :: j <= k < e ==> IsDigit(s[k])
    ensures e < |s| ==> !IsDigit(s[e])
    decreases |s| - j
  {
    if j < |s| && IsDigit(s[j]) then DigitEnd(s, j + 1) else j
  }

  /** A newline somewhere before the last character of `s`. */
  predicate InnerNewline(s: string) {
    |s| > 0 && '\n' in s[..|s| - 1]
  }

  /** A match leaves no room for a newline before the last character. */
  lemma NewlineOutsideMatch(s: string, i: int, e: int, n: int)
    requires 0 <= n < |s| - 1 && s[n] == '\n'
    ensures !Matches(s, i, e)
  {
  }

  /** The positions of the match the regex engine reports, if the pattern matches at all. */
  function MatchSpan(s: string): (m: Option<(nat, nat)>)
    ensures m.Some? ==> Chosen(s, m.value.0, m.value.1)
    ensures m.None? ==> forall i, e :: !Matches(s, i, e)
  {
    if InnerNewline(s) then
      assert forall i, e :: !Matches(s, i, e) by {
        var n :| 0 <= n < |s| - 1 && s[n] == '\n';
        forall i, e ensures !Matches(s, i, e) {
          NewlineOutsideMatch(s, i, e, n);
        }
      }
      None
    else
      match LastKey(s, |s|)
      case None =>
        assert forall i, e :: !Matches(s, i, e) by {
          forall i, e | Matches(s, i, e) ensures false {
            assert KeyAt(s, i);
          }
        }
        None
      case Some(i) =>
        var e := DigitEnd(s, i + |Key|);
        assert Matches(s, i, e) by {
          forall k | 0 <= k < i ensures s[k] != '\n' {
            assert s[k] == s[..|s| - 1][k];
          }
          forall k | e <= k < |s| - 1 ensures s[k] != '\n' {
            assert s[k] == s[..|s| - 1][k];
          }
        }
        assert forall i', e' :: Matches(s, i', e') ==> i' < i || (i' == i && e' <= e) by {
          forall i', e' | Matches(s, i', e') ensures i' < i || (i' == i && e' <= e) {
            assert KeyAt(s, i');
          }
        }
        Some((i, e))
  }

  /**
   * The cursor `fetch_reviews` takes out of a `next` link: the digit group of
   * the reported match, or `None` where the pattern does not match (the source
   * then fails calling `.group(1)` on `None`).
   */
  function ExtractOffset(next: string): (r: Option<string>)
    ensures r.None? <==> forall i, e :: !Matches(next, i, e)
    ensures r.Some? ==> exists i, e :: Chosen(next, i, e) && r.value == next[i + |Key|..e]
    ensures r.Some? ==> |r.value| > 0 && forall k :: 0 <= k < |r.value| ==> IsDigit(r.value[k])
  {
    match MatchSpan(next)
    case None => None
    case Some((i, e)) => Some(next[i + |Key|..e])
  }
}
