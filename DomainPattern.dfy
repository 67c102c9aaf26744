/**
 * The domain pattern `([a-z0-9]+\.)+[a-z]+` that getDomainList searches each
 * hosts-file line for, and the first match that `re.search` reports for it.
 *
 * The pattern is stated as a language (IsDomain); the matcher (Search) follows
 * the backtracking order of the regular-expression engine for this pattern:
 * it tries start positions left to right and, at a start, repeats the greedy
 * group as often as it can and then backs off one group at a time until a
 * letter follows. The lemmas below show that what it returns is the leftmost
 * match and, among the matches at that start, the longest one.
 */
module DomainPattern {
  import opened Wrappers

  /** A character of the class `[a-z0-9]`. */
  predicate IsLabelChar(c: char) {
    'a' <= c <= 'z' || '0' <= c <= '9'
  }

  /** A character of the class `[a-z]`. */
  predicate IsAlpha(c: char) {
    'a' <= c <= 'z'
  }

  predicate AllLabel(s: string) {
    forall i :: 0 <= i < |s| ==> IsLabelChar(s[i])
  }

  predicate AllAlpha(s: string) {
    forall i :: 0 <= i < |s| ==> IsAlpha(s[i])
  }

  /** s belongs to `([a-z0-9]+\.)*[a-z]+`: what may follow the first group. */
  ghost predicate IsTail(s: string)
    decreases |s|, 2
  {
    (|s| > 0 && AllAlpha(s)) || IsDomain(s)
  }

  /** s belongs to `([a-z0-9]+\.)+[a-z]+`: a first group `[a-z0-9]+\.`, then a tail. */
  ghost predicate IsDomain(s: string)
    decreases |s|, 1
  {
    exists j :: SplitsAt(s, j)
  }

  /** s[..j] is a nonempty run of `[a-z0-9]`, s[j] is the dot that ends the first group, and a tail follows. */
  ghost predicate SplitsAt(s: string, j: int)
    decreases |s|, 0
  {
    0 < j && j + 1 < |s| && s[j] == '.' && AllLabel(s[..j]) && IsTail(s[j + 1..])
  }

  /** Some substring of the line matches the pattern. */
  ghost predicate ContainsDomain(line: string) {
    exists s, e :: 0 <= s <= e <= |line| && IsDomain(line[s..e])
  }

  /** line[s..e] is the leftmost match and the longest match at its start. */
  ghost predicate IsFirstMatch(line: string, s: nat, e: nat) {
    s <= e <= |line| && IsDomain(line[s..e]) &&
    forall s', e' :: 0 <= s' <= e' <= |line| && IsDomain(line[s'..e']) ==> s <= s' && (s' == s ==> e' <= e)
  }

  /** End of the run of `[a-z0-9]` characters that starts at q (what `[a-z0-9]+` consumes greedily). */
  function LabelRunEnd(line: string, q: nat): (r: nat)
    requires q <= |line|
    ensures q <= r <= |line|
    ensures forall i :: q <= i < r ==> IsLabelChar(line[i])
    ensures r == |line| || !IsLabelChar(line[r])
    decreases |line| - q
  {
    if q < |line| && IsLabelChar(line[q]) then LabelRunEnd(line, q + 1) else q
  }

  /** End of the run of `[a-z]` characters that starts at q (what `[a-z]+` consumes greedily). */
  function AlphaRunEnd(line: string, q: nat): (r: nat)
    requires q <= |line|
    ensures q <= r <= |line|
    ensures forall i :: q <= i < r ==> IsAlpha(line[i])
    ensures r == |line| || !IsAlpha(line[r])
    decreases |line| - q
  {
    if q < |line| && IsAlpha(line[q]) then AlphaRunEnd(line, q + 1) else q
  }

  /**
   * The end of the match that the backtracking engine finds from position q,
   * where `grouped` says whether at least one group `[a-z0-9]+\.` has
   * already been consumed: first try one more group, and only if that fails
   * end with `[a-z]+` here.
   */
  function GreedyFrom(line: string, q: nat, grouped: bool): (r: Option<nat>)
    requires q <= |line|
    ensures r.Some? ==> q < r.value <= |line|
    ensures r.Some? && grouped ==> IsTail(line[q..r.value])
    ensures r.Some? && !grouped ==> IsDomain(line[q..r.value])
    decreases |line| - q
  {
    var k := LabelRunEnd(line, q);
    var deeper := if q < k < |line| && line[k] == '.' then GreedyFrom(line, k + 1, true) else None;
    if deeper.Some? then
      GroupThenTail(line, q, k, deeper.value);
      deeper
    else if grouped && q < |line| && IsAlpha(line[q]) then
      var e := AlphaRunEnd(line, q);
      assert AllAlpha(line[q..e]);
      Some(e)
    else
      None
  }

  /** A label run, a dot and a tail make a match. */
  lemma GroupThenTail(line: string, q: nat, k: nat, e: nat)
    requires q < k && k + 1 < e <= |line|
    requires forall i :: q <= i < k ==> IsLabelChar(line[i])
    requires line[k] == '.' && IsTail(line[k + 1..e])
    ensures IsDomain(line[q..e])
  {
    var s := line[q..e];
    var j := k - q;
    assert s[..j] == line[q..k];
    assert AllLabel(s[..j]);
    assert s[j + 1..] == line[k + 1..e];
    assert s[j] == '.';
    assert SplitsAt(s, j);
  }

  /** The first match of the pattern in line[p..], as `(start, end)`. */
  function SearchFrom(line: string, p: nat): (r: Option<(nat, nat)>)
    requires p <= |line|
    ensures r.Some? ==> p <= r.value.0 < r.value.1 <= |line| && IsDomain(line[r.value.0..r.value.1])
    decreases |line| - p
  {
    if p == |line| then None
    else
      match GreedyFrom(line, p, false)
      case Some(e) => Some((p, e))
      case None => SearchFrom(line, p + 1)
  }

  /** `re.search(DOMAIN_FILTER, line)`: the span of the first match, if any. */
  function Search(line: string): (r: Option<(nat, nat)>)
    ensures r.Some? ==> r.value.0 < r.value.1 <= |line| && IsDomain(line[r.value.0..r.value.1])
  {
    SearchFrom(line, 0)
  }

  /** The label run that starts a domain ends exactly at its first dot. */
  lemma FirstGroupEnd(line: string, q: nat, k: nat)
    requires q < k < |line|
    requires forall i :: q <= i < k ==> IsLabelChar(line[i])
    requires line[k] == '.'
    ensures LabelRunEnd(line, q) == k
  {
  }

  /**
   * Every match that starts at q ends no later than the one the engine finds
   * there; in particular, the engine finds one whenever one exists.
   */
  lemma {:induction false} GreedyLongest(line: string, q: nat, e: nat, grouped: bool)
    requires q <= e <= |line|
    requires if grouped then IsTail(line[q..e]) else IsDomain(line[q..e])
    ensures GreedyFrom(line, q, grouped).Some? && e <= GreedyFrom(line, q, grouped).value
    decreases e - q, 1
  {
    if IsDomain(line[q..e]) {
      GreedyLongestGroup(line, q, e, grouped);
    } else {
      GreedyLongestAlpha(line, q, e);
    }
  }

  /** GreedyLongest when the match at q starts with a group `[a-z0-9]+\.`. */
  lemma {:induction false} GreedyLongestGroup(line: string, q: nat, e: nat, grouped: bool)
    requires q <= e <= |line|
    requires IsDomain(line[q..e])
    ensures GreedyFrom(line, q, grouped).Some? && e <= GreedyFrom(line, q, grouped).value
    decreases e - q, 0
  {
    var k := FirstGroup(line, q, e);
    GreedyLongest(line, k + 1, e, true);
    GreedyFromDeeper(line, q, grouped);
  }

  /** A match at q splits at the end of its first label run, where a dot stands, into the first group and a tail. */
  lemma FirstGroup(line: string, q: nat, e: nat) returns (k: nat)
    requires q <= e <= |line|
    requires IsDomain(line[q..e])
    ensures q < k && k + 1 < e && LabelRunEnd(line, q) == k && line[k] == '.' && IsTail(line[k + 1..e])
  {
    var s := line[q..e];
    var j :| SplitsAt(s, j);
    k := q + j;
    forall i | q <= i < k
      ensures IsLabelChar(line[i])
    {
      assert line[i] == s[..j][i - q];
    }
    assert line[k] == s[j];
    FirstGroupEnd(line, q, k);
    assert s[j + 1..] == line[k + 1..e];
  }

  /** When one more group can be consumed and the rest matches, the engine keeps that group. */
  lemma GreedyFromDeeper(line: string, q: nat, grouped: bool)
    requires q <= |line|
    requires var k := LabelRunEnd(line, q); q < k < |line| && line[k] == '.' && GreedyFrom(line, k + 1, true).Some?
    ensures GreedyFrom(line, q, grouped) == GreedyFrom(line, LabelRunEnd(line, q) + 1, true)
  {
  }

  /** GreedyLongest when the match at q, after at least one group, is letters only. */
  lemma GreedyLongestAlpha(line: string, q: nat, e: nat)
    requires q < e <= |line|
    requires AllAlpha(line[q..e])
    ensures GreedyFrom(line, q, true).Some? && e <= GreedyFrom(line, q, true).value
  {
    assert forall i :: q <= i < e ==> line[i] == line[q..e][i - q];
  }

  /** No match starts anywhere in [p, s). */
  lemma {:induction false} SearchSkipsNothing(line: string, p: nat, s': nat, e': nat)
    requires p <= s' <= e' <= |line| && IsDomain(line[s'..e'])
    ensures SearchFrom(line, p).Some?
    ensures SearchFrom(line, p).value.0 <= s'
    ensures SearchFrom(line, p).value.0 == s' ==> e' <= SearchFrom(line, p).value.1
    decreases |line| - p
  {
    if p == s' {
      GreedyLongest(line, p, e', false);
    } else {
      if GreedyFrom(line, p, false).None? {
        SearchSkipsNothing(line, p + 1, s', e');
      }
    }
  }

  /** Search reports exactly the leftmost-longest match, and nothing when there is no match. */
  lemma SearchIsFirstMatch(line: string)
    ensures Search(line).None? <==> !ContainsDomain(line)
    ensures Search(line).Some? ==> IsFirstMatch(line, Search(line).value.0, Search(line).value.1)
  {
    var r := Search(line);
    if r.Some? {
      var (s, e) := r.value;
      assert IsDomain(line[s..e]);
      forall s', e' | 0 <= s' <= e' <= |line| && IsDomain(line[s'..e'])
        ensures s <= s' && (s' == s ==> e' <= e)
      {
        SearchSkipsNothing(line, 0, s', e');
      }
    } else if ContainsDomain(line) {
      var s', e' :| 0 <= s' <= e' <= |line| && IsDomain(line[s'..e']);
      SearchSkipsNothing(line, 0, s', e');
    }
  }
}
