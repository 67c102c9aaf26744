/**
 * getBlockedDomains / countBlockedDomains: walks over the pages of the
 * Umbrella Enforcement API domain listing, following `meta.next` until it
 * is empty. The replies of the successive GET requests are the input; the
 * source would keep asking when they run out, the model stops there and
 * says so through the final cursor.
 */
module BlockedDomains {
  import opened Wrappers

  /** The first page's URL, stood in for by its path (host and customer key are not modelled); any non-empty string starts the loop. */
  const DomainsUrl: string := "/1.0/domains"
  const CountUrl: string := DomainsUrl + "?limit=200"

  /** countBlockedDomains counts every page but the last as a full page of this size (`limit=200`). */
  const PageSize: nat := 200

  /**
   * The reply to one GET: an exception (raised by the request or by reading
   * its body), or a status with, for status 200, `meta.next` and the `name`
   * of each entry of `data`.
   */
  datatype Reply = Raised | Page(status: int, next: Option<string>, names: seq<string>)

  /** Python truthiness of the URL variable: neither None nor the empty string. */
  predicate Truthy(url: Option<string>) {
    url.Some? && url.value != ""
  }

  predicate IsOk(r: Reply) {
    r.Page? && r.status == 200
  }

  /** A 200 reply without a next page: the loop ends after it. */
  predicate IsLastPage(r: Reply) {
    IsOk(r) && !Truthy(r.next)
  }

  /** The names of all 200 pages among the replies, in reply order. */
  function OkNames(replies: seq<Reply>): seq<string> {
    if replies == [] then []
    else
      var r := replies[|replies| - 1];
      OkNames(replies[..|replies| - 1]) + (if IsOk(r) then r.names else [])
  }

  /** The cursor after the replies: `meta.next` of the latest 200 page, or the start URL if there is none. */
  function Cursor(replies: seq<Reply>, start: Option<string>): Option<string> {
    if replies == [] then start
    else if IsOk(replies[|replies| - 1]) then replies[|replies| - 1].next
    else Cursor(replies[..|replies| - 1], start)
  }

  /** The count after the replies: 200 for each 200 page with a next page, the length of `data` for one without. */
  function PageCount(replies: seq<Reply>): nat {
    if replies == [] then 0
    else
      var r := replies[|replies| - 1];
      PageCount(replies[..|replies| - 1]) + (if !IsOk(r) then 0 else if Truthy(r.next) then PageSize else |r.names|)
  }

  /** The 200 replies alone, in order. */
  function OkOnly(replies: seq<Reply>): (r: seq<Reply>)
    ensures forall i :: 0 <= i < |r| ==> IsOk(r[i])
    ensures |r| <= |replies|
  {
    if replies == [] then []
    else
      var last := replies[|replies| - 1];
      OkOnly(replies[..|replies| - 1]) + (if IsOk(last) then [last] else [])
  }

  /** Dropping the last reply from the 200 replies alone. */
  lemma OkOnlyStep(replies: seq<Reply>)
    requires replies != []
    ensures var last := replies[|replies| - 1];
      OkOnly(replies) == OkOnly(replies[..|replies| - 1]) + (if IsOk(last) then [last] else [])
    ensures IsOk(replies[|replies| - 1]) ==> OkOnly(replies) != [] && OkOnly(replies)[..|OkOnly(replies)| - 1] == OkOnly(replies[..|replies| - 1])
  {
  }

  /** Non-200 replies and exceptions add no names. */
  lemma {:induction false} FailedRepliesAddNoNames(replies: seq<Reply>)
    ensures OkNames(OkOnly(replies)) == OkNames(replies)
  {
    if replies != [] {
      var prefix := replies[..|replies| - 1];
      OkOnlyStep(replies);
      FailedRepliesAddNoNames(replies[..|replies| - 1]);
      if !IsOk(replies[|replies| - 1]) {
        assert OkOnly(replies) == OkOnly(prefix);
      }
    }
  }

  /** Non-200 replies and exceptions add nothing to the count. */
  lemma {:induction false} FailedRepliesAddNoCount(replies: seq<Reply>)
    ensures PageCount(OkOnly(replies)) == PageCount(replies)
  {
    if replies != [] {
      var prefix := replies[..|replies| - 1];
      OkOnlyStep(replies);
      FailedRepliesAddNoCount(replies[..|replies| - 1]);
      if !IsOk(replies[|replies| - 1]) {
        assert OkOnly(replies) == OkOnly(prefix);
      }
    }
  }

  /** Non-200 replies and exceptions do not move the cursor. */
  lemma {:induction false} FailedRepliesKeepCursor(replies: seq<Reply>, start: Option<string>)
    ensures Cursor(OkOnly(replies), start) == Cursor(replies, start)
  {
    if replies != [] {
      OkOnlyStep(replies);
      FailedRepliesKeepCursor(replies[..|replies| - 1], start);
    }
  }

  /** The names of consecutive runs of replies are those of each run, in order. */
  lemma {:induction false} OkNamesAppend(a: seq<Reply>, b: seq<Reply>)
    ensures OkNames(a + b) == OkNames(a) + OkNames(b)
    decreases |b|
  {
    if b == [] {
      assert a + b == a;
    } else {
      assert (a + b)[..|a + b| - 1] == a + b[..|b| - 1];
      OkNamesAppend(a, b[..|b| - 1]);
    }
  }

  /** k pages of 200 replies, each but the last with a next page: 200 per full page plus the length of the last. */
  lemma {:induction false} CountOfPageChain(replies: seq<Reply>)
    requires |replies| > 0
    requires forall i :: 0 <= i < |replies| - 1 ==> IsOk(replies[i]) && Truthy(replies[i].next)
    requires IsLastPage(replies[|replies| - 1])
    ensures PageCount(replies) == PageSize * (|replies| - 1) + |replies[|replies| - 1].names|
  {
    var prefix := replies[..|replies| - 1];
    FullPagesCount(prefix);
  }

  /** 200 replies that all have a next page count 200 each. */
  lemma {:induction false} FullPagesCount(replies: seq<Reply>)
    requires forall i :: 0 <= i < |replies| ==> IsOk(replies[i]) && Truthy(replies[i].next)
    ensures PageCount(replies) == PageSize * |replies|
  {
    if replies != [] {
      FullPagesCount(replies[..|replies| - 1]);
    }
  }

  /** When every page with a next page holds exactly 200 entries, counting agrees with listing. */
  lemma {:induction false} CountAgreesWithList(replies: seq<Reply>)
    requires forall i :: 0 <= i < |replies| && IsOk(replies[i]) && Truthy(replies[i].next) ==> |replies[i].names| == PageSize
    ensures PageCount(replies) == |OkNames(replies)|
  {
    if replies != [] {
      CountAgreesWithList(replies[..|replies| - 1]);
    }
  }

  /** getBlockedDomains over the given replies. */
  method GetBlockedDomains(replies: seq<Reply>) returns (domains: seq<string>, url: Option<string>, consumed: nat)
    ensures consumed <= |replies|
    ensures domains == OkNames(replies[..consumed])
    ensures url == Cursor(replies[..consumed], Some(DomainsUrl))
    ensures forall j :: 0 <= j < consumed - 1 ==> !IsLastPage(replies[j])
    ensures !Truthy(url) <==> consumed > 0 && IsLastPage(replies[consumed - 1])
    ensures Truthy(url) ==> consumed == |replies|
  {
    url := Some(DomainsUrl);
    domains := [];
    consumed := 0;
    while Truthy(url) && consumed < |replies|
      invariant consumed <= |replies|
      invariant domains == OkNames(replies[..consumed])
      invariant url == Cursor(replies[..consumed], Some(DomainsUrl))
      invariant forall j :: 0 <= j < consumed - 1 ==> !IsLastPage(replies[j])
      invariant !Truthy(url) <==> consumed > 0 && IsLastPage(replies[consumed - 1])
      decreases |replies| - consumed
    {
      var response := replies[consumed];
      assert replies[..consumed + 1][..consumed] == replies[..consumed];
      consumed := consumed + 1;
      match response {
        case Raised =>
          // The source sleeps two seconds and asks again for the same URL.
        case Page(status, next, data) =>
          if status != 200 {
            continue;
          }
          url := next;
          ghost var before := domains;
          for k := 0 to |data|
            invariant domains == before + data[..k]
          {
            domains := domains + [data[k]];
          }
          assert data[..|data|] == data;
      }
    }
  }

  /** countBlockedDomains over the given replies. */
  method CountBlockedDomains(replies: seq<Reply>) returns (count: nat, url: Option<string>, consumed: nat)
    ensures consumed <= |replies|
    ensures count == PageCount(replies[..consumed])
    ensures url == Cursor(replies[..consumed], Some(CountUrl))
    ensures forall j :: 0 <= j < consumed - 1 ==> !IsLastPage(replies[j])
    ensures !Truthy(url) <==> consumed > 0 && IsLastPage(replies[consumed - 1])
    ensures Truthy(url) ==> consumed == |replies|
  {
    url := Some(CountUrl);
    count := 0;
    consumed := 0;
    while Truthy(url) && consumed < |replies|
      invariant consumed <= |replies|
      invariant count == PageCount(replies[..consumed])
      invariant url == Cursor(replies[..consumed], Some(CountUrl))
      invariant forall j :: 0 <= j < consumed - 1 ==> !IsLastPage(replies[j])
      invariant !Truthy(url) <==> consumed > 0 && IsLastPage(replies[consumed - 1])
      decreases |replies| - consumed
    {
      var response := replies[consumed];
      assert replies[..consumed + 1][..consumed] == replies[..consumed];
      consumed := consumed + 1;
      match response {
        case Raised =>
          // The source prints the exception, sleeps one second and asks again.
        case Page(status, next, data) =>
          if status != 200 {
            continue;
          }
          url := next;
          if Truthy(url) {
            count := count + PageSize;
          } else {
            count := count + |data|;
          }
      }
    }
  }
}
