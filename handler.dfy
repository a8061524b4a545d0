/** One request: fetch every configured repository, filter and project the
    tags, join, flatten, sort, render, and answer 200 or 500. */
module Handler {
  import opened Promises
  import opened Tags
  import opened Merge
  import opened Atom

  datatype Response = Response(status: int, headers: map<string, string>, body: string)

  const AtomContentType: string := "application/atom+xml; charset=utf-8"

  /** The answer after a rejection anywhere in the chain: 500, no body. */
  const ServerError: Response := Response(500, map[], "")

  /** The per-repository promise: the upstream fetch (rejected on a network,
      HTTP or JSON failure) followed by the filter/project callback. */
  function RepoOutcome(repo: RepoConfig, fetched: Settled<seq<Tag>>): Settled<seq<Entry>>
  {
    match fetched
    case Rejected => Rejected
    case Fulfilled(tags) => Fulfilled(Projected(repo.key, repo.filter, tags))
  }

  /** The promises pushed by the loop over the configured repositories, one
      per repository and in configuration order. */
  function Outcomes(config: seq<RepoConfig>, fetched: seq<Settled<seq<Tag>>>): (ps: seq<Settled<seq<Entry>>>)
    requires |fetched| == |config|
    ensures |ps| == |config|
    ensures forall i :: 0 <= i < |config| ==> ps[i] == RepoOutcome(config[i], fetched[i])
  {
    if config == [] then []
    else
      var n := |config| - 1;
      Outcomes(config[..n], fetched[..n]) + [RepoOutcome(config[n], fetched[n])]
  }

  /** What the `Promise.all(...).then` callback sorts: the flattened records,
      or a rejection when any repository failed. */
  function Aggregated(config: seq<RepoConfig>, fetched: seq<Settled<seq<Tag>>>): (r: Settled<seq<Entry>>)
    requires |fetched| == |config|
    ensures r.Fulfilled? <==> forall i :: 0 <= i < |fetched| ==> fetched[i].Fulfilled?
  {
    match All(Outcomes(config, fetched))
    case Rejected => Rejected
    case Fulfilled(lists) => Fulfilled(Concat(lists))
  }

  /** Reference definition of the whole handler. `escape` is the imported
      escaping function, `iso` stands for `toISOString`, `now` for the clock,
      and `ip`/`port` are the configuration's text. */
  function Respond(config: seq<RepoConfig>, fetched: seq<Settled<seq<Tag>>>,
                   escape: string -> string, iso: int -> string,
                   ip: string, port: string, now: int): (res: Response)
    requires |fetched| == |config|
    ensures res.status == 200 || res == ServerError
  {
    match Aggregated(config, fetched)
    case Rejected => ServerError
    case Fulfilled(entries) =>
      match Rendered(escape, iso, StableSortByDate(entries))
      case Rejected => ServerError
      case Fulfilled(html) =>
        Response(200, map["Content-Type" := AtomContentType],
                 FeedDocument(ip, port, escape(iso(now)), html))
  }

  /** The loop over the configured repositories that starts one
      fetch-then-filter pipeline each and collects the promises. */
  method StartRequests(config: seq<RepoConfig>, fetched: seq<Settled<seq<Tag>>>)
    returns (requests: seq<Settled<seq<Entry>>>)
    requires |fetched| == |config|
    ensures requests == Outcomes(config, fetched)
  {
    requests := [];
    for i := 0 to |config|
      invariant |requests| == i
      invariant forall k :: 0 <= k < i ==> requests[k] == RepoOutcome(config[k], fetched[k])
    {
      var repo := config[i];
      match fetched[i]
      case Rejected =>
        requests := requests + [Rejected];
      case Fulfilled(tags) =>
        var results := FilterProject(repo.key, repo.filter, tags);
        requests := requests + [Fulfilled(results)];
    }
  }

  /** The body of the `then` callback: flatten, sort in place, render. */
  method SortAndRender(lists: seq<seq<Entry>>, escape: string -> string, iso: int -> string)
    returns (html: Settled<string>)
    ensures html == Rendered(escape, iso, StableSortByDate(Concat(lists)))
  {
    var flat := Flatten(lists);
    var entries := new Entry[|flat|](k requires 0 <= k < |flat| => flat[k]);
    assert entries[..] == flat;
    SortByDate(entries);
    html := RenderEntries(escape, iso, entries[..]);
  }

  /** The request handler: the per-repository pipelines, their join, and the
      answer, 200 with the feed or 500 with an empty body. */
  method HandleRequest(config: seq<RepoConfig>, fetched: seq<Settled<seq<Tag>>>,
                       escape: string -> string, iso: int -> string,
                       ip: string, port: string, now: int) returns (res: Response)
    requires |fetched| == |config|
    ensures res == Respond(config, fetched, escape, iso, ip, port, now)
  {
    var requests := StartRequests(config, fetched);
    var joined := All(requests);
    if joined.Rejected? {
      return ServerError;
    }
    var html := SortAndRender(joined.value, escape, iso);
    if html.Rejected? {
      return ServerError;
    }
    res := Response(200, map["Content-Type" := AtomContentType],
                    FeedDocument(ip, port, escape(iso(now)), html.value));
  }

  /** A failure of any one repository's pipeline fails the whole request:
      there is no partial feed. */
  lemma AnyFailureIsServerError(config: seq<RepoConfig>, fetched: seq<Settled<seq<Tag>>>,
                                escape: string -> string, iso: int -> string,
                                ip: string, port: string, now: int, i: nat)
    requires |fetched| == |config|
    requires i < |config| && fetched[i].Rejected?
    ensures Respond(config, fetched, escape, iso, ip, port, now) == ServerError
  {
    assert Outcomes(config, fetched)[i].Rejected?;
  }

  /** The tags a repository's filter keeps all carry a valid date. */
  predicate KeptTagsDated(repo: RepoConfig, tags: seq<Tag>)
  {
    forall k :: 0 <= k < |tags| && repo.filter(tags[k].name) ==> tags[k].lastUpdated.Time?
  }

  lemma ProjectedDated(repo: RepoConfig, tags: seq<Tag>)
    ensures Dated(Projected(repo.key, repo.filter, tags)) <==> KeptTagsDated(repo, tags)
  {
    var p := Projected(repo.key, repo.filter, tags);
    var m := MatchIndices(repo.filter, tags);
    ProjectedSelectsMatches(repo.key, repo.filter, tags);
    if Dated(p) {
      forall k | 0 <= k < |tags| && repo.filter(tags[k].name)
        ensures tags[k].lastUpdated.Time?
      {
        assert k in m;
        var i :| 0 <= i < |m| && m[i] == k;
        assert p[i].date == tags[k].lastUpdated;
      }
    }
    if KeptTagsDated(repo, tags) {
      forall i | 0 <= i < |p| ensures p[i].date.Time? {
        assert m[i] in m;
      }
    }
  }

  lemma DatedAppend(a: seq<Entry>, b: seq<Entry>)
    ensures Dated(a + b) <==> Dated(a) && Dated(b)
  {
    if Dated(a) && Dated(b) {
      forall k | 0 <= k < |a + b| ensures (a + b)[k].date.Time? {
        if k >= |a| {
          assert (a + b)[k] == b[k - |a|];
        }
      }
    }
    if Dated(a + b) {
      forall k | 0 <= k < |a| ensures a[k].date.Time? {
        assert (a + b)[k] == a[k];
      }
      forall k | 0 <= k < |b| ensures b[k].date.Time? {
        assert (a + b)[|a| + k] == b[k];
      }
    }
  }

  lemma {:induction false} ConcatDated(lists: seq<seq<Entry>>)
    ensures Dated(Concat(lists)) <==> forall i :: 0 <= i < |lists| ==> Dated(lists[i])
  {
    if lists != [] {
      var n := |lists| - 1;
      var a := Concat(lists[..n]);
      ConcatDated(lists[..n]);
      DatedAppend(a, lists[n]);
      assert forall i :: 0 <= i < n ==> lists[..n][i] == lists[i];
    }
  }

  lemma SortKeepsDated(s: seq<Entry>)
    ensures Dated(StableSortByDate(s)) <==> Dated(s)
  {
    var r := StableSortByDate(s);
    StableSortPermutes(s);
    forall x ensures x in r <==> x in s {
      assert x in r <==> x in multiset(r);
      assert x in s <==> x in multiset(s);
    }
    if Dated(r) {
      forall i | 0 <= i < |s| ensures s[i].date.Time? {
        assert s[i] in r;
      }
    }
    if Dated(s) {
      forall i | 0 <= i < |r| ensures r[i].date.Time? {
        assert r[i] in s;
      }
    }
  }

  /** The feed is served exactly when every upstream request succeeded and
      every tag kept by a filter has a `last_updated` that parses as a date;
      otherwise the answer is 500. */
  lemma ServedIffFetchedAndDated(config: seq<RepoConfig>, fetched: seq<Settled<seq<Tag>>>,
                                 escape: string -> string, iso: int -> string,
                                 ip: string, port: string, now: int)
    requires |fetched| == |config|
    ensures Respond(config, fetched, escape, iso, ip, port, now).status == 200 <==>
      forall i :: 0 <= i < |config| ==>
        fetched[i].Fulfilled? && KeptTagsDated(config[i], fetched[i].value)
  {
    var ps := Outcomes(config, fetched);
    if exists i :: 0 <= i < |config| && fetched[i].Rejected? {
      var i :| 0 <= i < |config| && fetched[i].Rejected?;
      AnyFailureIsServerError(config, fetched, escape, iso, ip, port, now, i);
    } else {
      assert forall i :: 0 <= i < |ps| ==> ps[i].Fulfilled?;
      var lists := All(ps).value;
      ConcatDated(lists);
      SortKeepsDated(Concat(lists));
      forall i | 0 <= i < |config|
        ensures Dated(lists[i]) <==> KeptTagsDated(config[i], fetched[i].value)
      {
        ProjectedDated(config[i], fetched[i].value);
      }
    }
  }

  /** How many tags the filters keep, over the repositories that answered. */
  function MatchCount(config: seq<RepoConfig>, fetched: seq<Settled<seq<Tag>>>): nat
    requires |fetched| == |config|
  {
    if config == [] then 0
    else
      var n := |config| - 1;
      MatchCount(config[..n], fetched[..n])
        + (if fetched[n].Fulfilled? then |MatchIndices(config[n].filter, fetched[n].value)| else 0)
  }

  lemma {:induction false} ListsCountMatches(config: seq<RepoConfig>, fetched: seq<Settled<seq<Tag>>>,
                                             lists: seq<seq<Entry>>)
    requires |fetched| == |config| == |lists|
    requires forall i :: 0 <= i < |config| ==>
      fetched[i].Fulfilled? && lists[i] == Projected(config[i].key, config[i].filter, fetched[i].value)
    ensures TotalLength(lists) == MatchCount(config, fetched)
  {
    if config != [] {
      var n := |config| - 1;
      ListsCountMatches(config[..n], fetched[..n], lists[..n]);
      ProjectedSelectsMatches(config[n].key, config[n].filter, fetched[n].value);
    }
  }

  /** A served feed has one entry per kept tag, over all repositories. */
  lemma EntryCount(config: seq<RepoConfig>, fetched: seq<Settled<seq<Tag>>>)
    requires |fetched| == |config|
    requires Aggregated(config, fetched).Fulfilled?
    ensures |StableSortByDate(Aggregated(config, fetched).value)| == MatchCount(config, fetched)
  {
    var lists := All(Outcomes(config, fetched)).value;
    StableSortPermutes(Concat(lists));
    assert |multiset(StableSortByDate(Concat(lists)))| == |multiset(Concat(lists))|;
    ConcatLength(lists);
    ListsCountMatches(config, fetched, lists);
  }

  /** With no repositories configured the feed is served with no entries. */
  lemma EmptyConfigEmptyFeed(escape: string -> string, iso: int -> string,
                             ip: string, port: string, now: int)
    ensures Respond([], [], escape, iso, ip, port, now)
      == Response(200, map["Content-Type" := AtomContentType], FeedDocument(ip, port, escape(iso(now)), ""))
  {
  }

  /** With a single repository configured, the feed's records are exactly
      that repository's records. */
  lemma SingleRepository(repo: RepoConfig, tags: seq<Tag>)
    ensures Aggregated([repo], [Fulfilled(tags)]) == Fulfilled(Projected(repo.key, repo.filter, tags))
  {
    var p := Projected(repo.key, repo.filter, tags);
    assert Outcomes([repo], [Fulfilled(tags)]) == [Fulfilled(p)];
    assert [p][..0] == [];
    assert Concat([p]) == p;
  }
}
