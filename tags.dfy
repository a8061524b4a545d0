/** Slug rewriting and the per-repository filter/project step of the handler. */
module Tags {

  /** A JavaScript `Date`: a time value in milliseconds, or an Invalid Date
      (what `new Date(s)` yields for text it cannot parse). */
  datatype Date = Time(ms: int) | Invalid

  /** One element of the registry's `results` list, with `last_updated`
      already turned into a `Date`. */
  datatype Tag = Tag(name: string, lastUpdated: Date)

  /** The record built for every tag that passes the repository's filter. */
  datatype Entry = Entry(repo: string, title: string, date: Date, url: string)

  /** One configured repository: its key and its pattern, the latter as the
      predicate `RegExp.prototype.test` computes for a pattern without flags. */
  datatype RepoConfig = RepoConfig(key: string, filter: string -> bool)

  const LibraryNamespace: string := "library/"

  /** The registry path of a repository: a bare name lives in `library/`. */
  function Slug(key: string): (slug: string)
    ensures '/' in slug
    ensures slug == key <==> '/' in key
    ensures |slug| >= |key| && slug[|slug| - |key|..] == key
    ensures slug != key ==> slug[..|slug| - |key|] == LibraryNamespace
  {
    if '/' in key then key else LibraryNamespace + key
  }

  /** The registry API address the handler fetches for a slug. */
  function UpstreamUri(slug: string): string
  {
    "https://hub.docker.com/v2/repositories/" + slug + "/tags/?page_size=250"
  }

  /** The human-facing tag listing of a slug, used as every entry's link. */
  function TagsPage(slug: string): string
  {
    "https://hub.docker.com/r/" + slug + "/tags/"
  }

  /** A bare name and the same name under `library/` fetch the same address. */
  lemma BareNameIsLibrary(name: string)
    requires '/' !in name
    ensures Slug(name) == Slug(LibraryNamespace + name)
    ensures UpstreamUri(Slug(name)) == UpstreamUri(Slug(LibraryNamespace + name))
  {
    assert (LibraryNamespace + name)[7] == '/';
  }

  /** Rewriting a slug again changes nothing: every slug has a namespace. */
  lemma SlugIdempotent(key: string)
    ensures Slug(Slug(key)) == Slug(key)
  {
  }

  /** The record for a kept tag. The title uses the key, the link the slug. */
  function Project(key: string, tag: Tag): (e: Entry)
    ensures e.repo == key && e.date == tag.lastUpdated
    ensures |e.title| == |key| + 1 + |tag.name|
    ensures e.title[..|key|] == key && e.title[|key|] == ' ' && e.title[|key| + 1..] == tag.name
    ensures e.url == TagsPage(Slug(key))
  {
    Entry(key, key + " " + tag.name, tag.lastUpdated, TagsPage(Slug(key)))
  }

  /** Reference definition of the `.then` callback: the records of the tags
      that pass the filter, in upstream order. */
  function Projected(key: string, filter: string -> bool, tags: seq<Tag>): seq<Entry>
  {
    if tags == [] then []
    else
      var last := tags[|tags| - 1];
      Projected(key, filter, tags[..|tags| - 1])
        + (if filter(last.name) then [Project(key, last)] else [])
  }

  /** An official image whose filter keeps one of two tags yields one record,
      linking to the tags page under `library/`. */
  lemma OfficialImageExample(filter: string -> bool, d1: Date, d2: Date)
    requires filter("1.2.3") && !filter("2.0")
    ensures Projected("nginx", filter, [Tag("1.2.3", d1), Tag("2.0", d2)])
      == [Entry("nginx", "nginx 1.2.3", d1, "https://hub.docker.com/r/library/nginx/tags/")]
  {
    var tags := [Tag("1.2.3", d1), Tag("2.0", d2)];
    OfficialImageRecord(d1);
    assert tags[..1][..0] == [];
    assert Projected("nginx", filter, tags[..1]) == [Project("nginx", tags[0])];
    assert Projected("nginx", filter, tags) == Projected("nginx", filter, tags[..1]) + [];
  }

  lemma OfficialImageRecord(d: Date)
    ensures Project("nginx", Tag("1.2.3", d))
      == Entry("nginx", "nginx 1.2.3", d, "https://hub.docker.com/r/library/nginx/tags/")
  {
    assert Slug("nginx") == "library/nginx";
    assert "nginx" + " " + "1.2.3" == "nginx 1.2.3";
    assert TagsPage("library/nginx") == "https://hub.docker.com/r/library/nginx/tags/";
  }

  /** The positions of the tags whose name passes the filter, ascending. */
  function MatchIndices(filter: string -> bool, tags: seq<Tag>): (m: seq<nat>)
    ensures forall i, j :: 0 <= i < j < |m| ==> m[i] < m[j]
    ensures forall i :: 0 <= i < |m| ==> m[i] < |tags|
    ensures forall k :: k in m <==> 0 <= k < |tags| && filter(tags[k].name)
  {
    if tags == [] then []
    else
      var n := |tags| - 1;
      MatchIndices(filter, tags[..n]) + (if filter(tags[n].name) then [n] else [])
  }

  /** Filter/project keeps exactly the matching tags, in upstream order, and
      builds each record from the key, the slug and the tag. */
  lemma {:induction false} ProjectedSelectsMatches(key: string, filter: string -> bool, tags: seq<Tag>)
    ensures |Projected(key, filter, tags)| == |MatchIndices(filter, tags)|
    ensures forall i :: 0 <= i < |Projected(key, filter, tags)| ==>
      var e, t := Projected(key, filter, tags)[i], tags[MatchIndices(filter, tags)[i]];
      && e.repo == key
      && e.title == key + " " + t.name
      && e.date == t.lastUpdated
      && e.url == "https://hub.docker.com/r/" + Slug(key) + "/tags/"
  {
    if tags != [] {
      var n := |tags| - 1;
      ProjectedSelectsMatches(key, filter, tags[..n]);
      var p, m := Projected(key, filter, tags[..n]), MatchIndices(filter, tags[..n]);
      forall i | 0 <= i < |p| ensures tags[m[i]] == tags[..n][m[i]] {
      }
    }
  }

  /** The loop of the `.then` callback: walk the upstream tags and push a
      record for each one whose name passes the filter. */
  method FilterProject(key: string, filter: string -> bool, tags: seq<Tag>) returns (results: seq<Entry>)
    ensures results == Projected(key, filter, tags)
  {
    var slug := Slug(key);
    results := [];
    for i := 0 to |tags|
      invariant results == Projected(key, filter, tags[..i])
    {
      var tag := tags[i];
      assert tags[..i + 1][..i] == tags[..i];
      if filter(tag.name) {
        results := results + [Entry(key, key + " " + tag.name, tag.lastUpdated, TagsPage(slug))];
      }
    }
    assert tags[..|tags|] == tags;
  }
}
