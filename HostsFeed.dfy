/**
 * getDomainList: the filter that turns the lines of the Steven Black hosts
 * file into the list of domains to block. The download and the split into
 * lines are outside the model; the lines are the input.
 */
module HostsFeed {
  import opened Wrappers
  import opened DomainPattern

  /** COMMENT_FILTER: a line holding this character anywhere is a comment. */
  const CommentMarker: char := '#'

  /** ALLOWED_DOMAINS: matches that are never reported. */
  const AllowedDomains: seq<string> := ["localhost.localdomain"]

  /** What one line contributes: its first domain match, unless the line is a comment or the match is allowed. */
  function LineDomain(line: string): (r: Option<string>)
    ensures r.Some? ==> CommentMarker !in line && IsDomain(r.value) && r.value !in AllowedDomains
    ensures r.Some? ==> exists s: nat, e: nat :: IsFirstMatch(line, s, e) && r.value == line[s..e]
  {
    if CommentMarker in line then None
    else
      match Search(line)
      case None => None
      case Some((s, e)) =>
        SearchIsFirstMatch(line);
        if line[s..e] in AllowedDomains then None else Some(line[s..e])
  }

  /** A line with a comment marker contributes nothing, even when it also holds a domain. */
  lemma CommentLineContributesNothing(line: string)
    requires CommentMarker in line
    ensures LineDomain(line) == None
  {
  }

  /** A line without any match of the pattern contributes nothing. */
  lemma UnmatchedLineContributesNothing(line: string)
    requires !ContainsDomain(line)
    ensures LineDomain(line) == None
  {
    SearchIsFirstMatch(line);
  }

  /** Given the first match of a line, what the line contributes is decided by the comment marker and the allow-list. */
  lemma MatchedLineContribution(line: string, s: nat, e: nat)
    requires IsFirstMatch(line, s, e)
    ensures LineDomain(line) == if CommentMarker in line || line[s..e] in AllowedDomains then None else Some(line[s..e])
  {
    SearchIsFirstMatch(line);
    var r := Search(line);
    if r.Some? {
      var (s', e') := r.value;
      assert s' <= s && s <= s' && e <= e' && e' <= e;
    }
  }

  /** The domains of the lines, one per contributing line, in line order. */
  function Contributions(lines: seq<string>): seq<string>
    decreases |lines|
  {
    if lines == [] then []
    else
      var last := LineDomain(lines[|lines| - 1]);
      Contributions(lines[..|lines| - 1]) + (if last.Some? then [last.value] else [])
  }

  /** The contributions of two consecutive blocks of lines are those of each, in order. */
  lemma {:induction false} ContributionsAppend(a: seq<string>, b: seq<string>)
    ensures Contributions(a + b) == Contributions(a) + Contributions(b)
    decreases |b|
  {
    if b != [] {
      var b' := b[..|b| - 1];
      assert (a + b)[..|a + b| - 1] == a + b';
      assert (a + b)[|a + b| - 1] == b[|b| - 1];
      ContributionsAppend(a, b');
    } else {
      assert a + b == a;
    }
  }

  /** Every reported domain matches the pattern and is not allowed; at most one per line. */
  lemma {:induction false} ContributionsAreBlockable(lines: seq<string>)
    ensures |Contributions(lines)| <= |lines|
    ensures forall d :: d in Contributions(lines) ==> IsDomain(d) && d !in AllowedDomains
    decreases |lines|
  {
    if lines != [] {
      ContributionsAreBlockable(lines[..|lines| - 1]);
    }
  }

  /** getDomainList, from the lines of the hosts file on. */
  method GetDomainList(hostsFile: seq<string>) returns (domains: seq<string>)
    ensures domains == Contributions(hostsFile)
    ensures |domains| <= |hostsFile|
    ensures forall d :: d in domains ==> IsDomain(d) && d !in AllowedDomains
  {
    domains := [];
    for i := 0 to |hostsFile|
      invariant domains == Contributions(hostsFile[..i])
    {
      var line := hostsFile[i];
      assert hostsFile[..i + 1][..i] == hostsFile[..i];
      if CommentMarker in line {
        continue;
      }
      var domainMatch := Search(line);
      if domainMatch.None? {
        continue;
      }
      var dn := line[domainMatch.value.0..domainMatch.value.1];
      if dn in AllowedDomains {
        continue;
      }
      domains := domains + [dn];
    }
    assert hostsFile[..|hostsFile|] == hostsFile;
    ContributionsAreBlockable(hostsFile);
  }
}
