/** The Atom markup the handler writes: one `<entry>` block per record and
    the feed document around them. */
module Atom {
  import opened Promises
  import opened Tags

  /** The text that goes into each element of one entry block. */
  datatype EntryView = EntryView(
    author: string, published: string, updated: string,
    link: string, id: string, title: string)

  /** The fields of the block for `e`, each interpolated value passed
      through `escape`; `iso` stands for `Date.prototype.toISOString`. */
  function View(escape: string -> string, iso: int -> string, e: Entry): (v: EntryView)
    requires e.date.Time?
    ensures v.published == v.updated && v.published == escape(iso(e.date.ms))
    ensures v.id == v.title && v.title == escape(e.title)
    ensures v.author == escape(e.repo) && v.link == escape(e.url)
  {
    var stamp := escape(iso(e.date.ms));
    var name := escape(e.title);
    EntryView(escape(e.repo), stamp, stamp, escape(e.url), name, name)
  }

  // The fixed text around the fields of an entry block, with the
  // indentation the handler writes.
  const EntryOpen: string := "\n        <entry>\n          <author><name>\""
  const AuthorClose: string := "\" &lt;&gt;</name></author>\n          <published>"
  const PublishedClose: string := "</published>\n          <updated>"
  const UpdatedClose: string := "</updated>\n          <link rel=\"alternate\" type=\"text/html\" href=\""
  const LinkClose: string := "\" />\n          <id>"
  const IdClose: string := "</id>\n          <title type=\"text\">"
  const EntryClose: string := "</title>\n        </entry>"

  /** The markup of one entry block. */
  function EntryXml(v: EntryView): string
  {
    EntryOpen + v.author + EntryFields(v) + EntryClose
  }

  /** The part of an entry block between the author name and the end tag. */
  function EntryFields(v: EntryView): string
  {
    AuthorClose + v.published + PublishedClose + v.updated
      + UpdatedClose + v.link + LinkClose + v.id + IdClose + v.title
  }

  /** Text made of a head, a middle and a tail starts with the head and
      ends with the tail. */
  lemma Framed(head: string, middle: string, tail: string)
    ensures |head + middle + tail| >= |head| + |tail|
    ensures (head + middle + tail)[..|head|] == head
    ensures (head + middle + tail)[|head + middle + tail| - |tail|..] == tail
  {
  }

  /** A block is one `<entry>` element: it starts with the entry's start tag
      and ends with its end tag, and the author name comes first. */
  lemma EntryXmlFrame(v: EntryView)
    ensures |EntryXml(v)| >= |EntryOpen| + |v.author| + |EntryClose|
    ensures EntryXml(v)[..|EntryOpen| + |v.author|] == EntryOpen + v.author
    ensures EntryXml(v)[|EntryXml(v)| - |EntryClose|..] == EntryClose
  {
    Framed(EntryOpen + v.author, EntryFields(v), EntryClose);
  }

  /** Every record carries a valid date. */
  predicate Dated(entries: seq<Entry>)
  {
    forall i :: 0 <= i < |entries| ==> entries[i].date.Time?
  }

  /** The block of one record. A record with an Invalid Date has none:
      `toISOString` throws before its block is built. */
  function Block(escape: string -> string, iso: int -> string, e: Entry): string
  {
    if e.date.Time? then EntryXml(View(escape, iso, e)) else ""
  }

  /** The blocks of all records, in order. */
  function Blocks(escape: string -> string, iso: int -> string, entries: seq<Entry>): string
  {
    if entries == [] then ""
    else
      var n := |entries| - 1;
      Blocks(escape, iso, entries[..n]) + Block(escape, iso, entries[n])
  }

  /** Reference definition of the render loop: the blocks of all records, or
      a rejection when `toISOString` throws a RangeError on an Invalid Date. */
  function Rendered(escape: string -> string, iso: int -> string, entries: seq<Entry>): (r: Settled<string>)
    ensures r.Fulfilled? <==> Dated(entries)
    ensures entries == [] ==> r == Fulfilled("")
  {
    if Dated(entries) then Fulfilled(Blocks(escape, iso, entries)) else Rejected
  }

  /** Proved apart from the rendering lemmas, so that their contexts, which
      unfold the entry template, are not searched for this step. */
  lemma AppendAssoc(p: string, q: string, r: string)
    ensures (p + q) + r == p + (q + r)
  {
  }

  /** Rendering two runs of records renders each and joins the texts. */
  lemma {:induction false} BlocksAppend(escape: string -> string, iso: int -> string, a: seq<Entry>, b: seq<Entry>)
    ensures Blocks(escape, iso, a + b) == Blocks(escape, iso, a) + Blocks(escape, iso, b)
  {
    if b == [] {
      assert a + b == a;
    } else {
      var n := |b| - 1;
      var x := Block(escape, iso, b[n]);
      assert (a + b)[..|a + b| - 1] == a + b[..n];
      assert (a + b)[|a + b| - 1] == b[n];
      assert Blocks(escape, iso, a + b) == Blocks(escape, iso, a + b[..n]) + x;
      BlocksAppend(escape, iso, a, b[..n]);
      AppendAssoc(Blocks(escape, iso, a), Blocks(escape, iso, b[..n]), x);
    }
  }

  lemma BlocksNext(escape: string -> string, iso: int -> string, entries: seq<Entry>, i: nat)
    requires i < |entries|
    ensures Blocks(escape, iso, entries[..i + 1]) == Blocks(escape, iso, entries[..i]) + Block(escape, iso, entries[i])
  {
    assert entries[..i + 1][..i] == entries[..i];
  }

  /** The rendered text is, for each record in order, exactly one block
      built from that record, between the blocks of the records before it
      and those after it. */
  lemma OneBlockPerEntry(escape: string -> string, iso: int -> string, entries: seq<Entry>, i: nat)
    requires Dated(entries) && i < |entries|
    ensures Rendered(escape, iso, entries).value
         == Blocks(escape, iso, entries[..i])
          + Block(escape, iso, entries[i])
          + Blocks(escape, iso, entries[i + 1..])
  {
    var front, rest := entries[..i + 1], entries[i + 1..];
    assert Rendered(escape, iso, entries).value == Blocks(escape, iso, entries);
    assert entries == front + rest;
    BlocksNext(escape, iso, entries, i);
    BlocksAppend(escape, iso, front, rest);
  }

  /** The render loop: `html +=` one block per record. */
  method RenderEntries(escape: string -> string, iso: int -> string, entries: seq<Entry>) returns (r: Settled<string>)
    ensures r == Rendered(escape, iso, entries)
  {
    var html := "";
    for i := 0 to |entries|
      invariant forall k :: 0 <= k < i ==> entries[k].date.Time?
      invariant html == Blocks(escape, iso, entries[..i])
    {
      var entry := entries[i];
      if !entry.date.Time? {
        return Rejected;
      }
      assert forall k :: 0 <= k < i + 1 ==> entries[k].date.Time?;
      BlocksNext(escape, iso, entries, i);
      html := html + Block(escape, iso, entry);
    }
    assert entries[..|entries|] == entries;
    return Fulfilled(html);
  }

  // Fixed text of the feed header and footer.
  const FeedOpen: string :=
    "<?xml version=\"1.0\" encoding=\"UTF-8\"?>"
      + "\n      <feed xmlns=\"http://www.w3.org/2005/Atom\">"
      + "\n        <title type=\"text\">Docker Hub updates</title>"
      + "\n        <link rel=\"self\" href=\"http://"
  const SelfClose: string :=
    "/\" />"
      + "\n        <link rel=\"alternate\" type=\"text/html\" href=\"https://hub.docker.com/\" />"
      + "\n        <id>http://"
  const IdOpenClose: string := "/</id>\n        <updated>"
  const UpdatedOpenClose: string := "</updated>\n        "
  const FeedClose: string := "\n      </feed>"

  /** The whole response body: the feed header, the entry blocks, the
      closing tag. `ip` and `port` are the configuration's text, written
      without escaping; `stamp` is the escaped generation time. */
  function FeedDocument(ip: string, port: string, stamp: string, html: string): string
  {
    FeedOpen + FeedHeader(ip, port, stamp) + (html + FeedClose)
  }

  /** The feed's metadata after the opening of the self link: the address
      twice, for the self link and the id, then the generation time. */
  function FeedHeader(ip: string, port: string, stamp: string): string
  {
    ip + ":" + port + SelfClose + ip + ":" + port + IdOpenClose + stamp + UpdatedOpenClose
  }

  /** The document starts with the XML declaration and the feed header, and
      the entry blocks come last, right before the closing `</feed>` tag. */
  lemma FeedDocumentFrame(ip: string, port: string, stamp: string, html: string)
    ensures |FeedDocument(ip, port, stamp, html)| >= |FeedOpen| + |html| + |FeedClose|
    ensures FeedDocument(ip, port, stamp, html)[..|FeedOpen|] == FeedOpen
    ensures FeedDocument(ip, port, stamp, html)[|FeedDocument(ip, port, stamp, html)| - |html| - |FeedClose|..]
         == html + FeedClose
  {
    Framed(FeedOpen, FeedHeader(ip, port, stamp), html + FeedClose);
  }
}
