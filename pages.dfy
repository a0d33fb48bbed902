/**
 * The effect of the generated Ruby program on the remote page table, over an abstract
 * store that maps a title to a page: `Page.find_or_initialize_by(title: ...)`, the body
 * assigned unconditionally, `published_at ||= ...`, `save!`.
 */
module Pages {
  import opened Wrappers

  /** A page as far as the import sees it: its body, its publish date (None while unset)
      and every other attribute, which the import never writes. */
  datatype Page = Page(body: string, publishedAt: Option<string>, other: map<string, string>)

  /** The remote page table, keyed by title. */
  type Store = map<string, Page>

  /** `find_or_initialize_by(title:)`: the stored page, or a fresh one with nothing set. */
  function FindOrInitialize(s: Store, title: string): (p: Page)
    ensures title in s ==> p == s[title]
    ensures title !in s ==> p.publishedAt == None && p.other == map[]
  {
    if title in s then s[title] else Page("", None, map[])
  }

  /** One run of the program: find or create the page by title, set its body, set its
      publish date only when it has none, save. Nothing else is touched. */
  function Upsert(s: Store, title: string, body: string, pubAt: string): (s': Store)
    ensures s'.Keys == s.Keys + {title}
    ensures s'[title].body == body
    ensures s'[title].publishedAt
            == if title in s && s[title].publishedAt.Some? then s[title].publishedAt else Some(pubAt)
    ensures title in s ==> s'[title].other == s[title].other
    ensures title !in s ==> s'[title].other == map[]
    ensures forall k :: k in s && k != title ==> s'[k] == s[k]
  {
    var page := FindOrInitialize(s, title);
    var date := if page.publishedAt.Some? then page.publishedAt else Some(pubAt);
    s[title := Page(body, date, page.other)]
  }

  /** After an upsert the page has a publish date. */
  lemma UpsertDates(s: Store, title: string, body: string, pubAt: string)
    ensures Upsert(s, title, body, pubAt)[title].publishedAt.Some?
  {
  }

  /** A page that already has a publish date keeps it, whatever date a later import of the
      same title derives. */
  lemma UpsertKeepsDate(s: Store, title: string, body: string, pubAt: string)
    requires title in s && s[title].publishedAt.Some?
    ensures Upsert(s, title, body, pubAt)[title].publishedAt == s[title].publishedAt
  {
  }

  /** Two imports of one title: the second body wins, the first date stays. */
  lemma UpsertTwice(s: Store, title: string, b1: string, p1: string, b2: string, p2: string)
    ensures Upsert(Upsert(s, title, b1, p1), title, b2, p2) == Upsert(s, title, b2, p1)
  {
    var s1 := Upsert(s, title, b1, p1);
    var l, r := Upsert(s1, title, b2, p2), Upsert(s, title, b2, p1);
    assert l.Keys == r.Keys;
    assert l[title] == r[title];
  }

  /** Re-applying the same upsert changes nothing after the first time. */
  lemma UpsertIdempotent(s: Store, title: string, body: string, pubAt: string)
    ensures Upsert(Upsert(s, title, body, pubAt), title, body, pubAt) == Upsert(s, title, body, pubAt)
  {
    UpsertTwice(s, title, body, pubAt, body, pubAt);
  }

  /** Upserts of different titles do not interfere. */
  lemma UpsertCommutes(s: Store, t1: string, b1: string, p1: string, t2: string, b2: string, p2: string)
    requires t1 != t2
    ensures Upsert(Upsert(s, t1, b1, p1), t2, b2, p2) == Upsert(Upsert(s, t2, b2, p2), t1, b1, p1)
  {
    var l := Upsert(Upsert(s, t1, b1, p1), t2, b2, p2);
    var r := Upsert(Upsert(s, t2, b2, p2), t1, b1, p1);
    assert l.Keys == r.Keys;
    assert l[t1] == r[t1] && l[t2] == r[t2];
  }

  /** What the program of one file asks of the table: the title to find the page by, the
      body to set and the date to set when the page has none. */
  datatype Write = Write(title: string, body: string, pubAt: string)

  /** One program run to the end. */
  function Perform(s: Store, w: Write): Store {
    Upsert(s, w.title, w.body, w.pubAt)
  }

  /** The table after the programs of `ws` all ran to the end, one after the other. */
  function Batch(s: Store, ws: seq<Write>): Store
    decreases ws
  {
    if ws == [] then s else Batch(Perform(s, ws[0]), ws[1..])
  }

  lemma BatchCons(s: Store, w: Write, ws: seq<Write>)
    ensures Batch(s, [w] + ws) == Batch(Perform(s, w), ws)
  {
    assert ([w] + ws)[1..] == ws;
  }

  /** Some write of `ws` is for the title `k`. */
  predicate Titled(ws: seq<Write>, k: string) {
    exists i :: 0 <= i < |ws| && ws[i].title == k
  }

  lemma TitledCons(ws: seq<Write>, k: string)
    requires ws != []
    ensures Titled(ws, k) <==> ws[0].title == k || Titled(ws[1..], k)
  {
    if Titled(ws[1..], k) {
      var i :| 0 <= i < |ws[1..]| && ws[1..][i].title == k;
      assert ws[i + 1] == ws[1..][i];
    }
    if Titled(ws, k) {
      var i :| 0 <= i < |ws| && ws[i].title == k;
      if i > 0 {
        assert ws[1..][i - 1] == ws[i];
      }
    }
  }

  /** Body of the last write of `ws` for `k`, if any. */
  function LastBody(ws: seq<Write>, k: string): Option<string> {
    if ws == [] then None
    else if LastBody(ws[1..], k).Some? then LastBody(ws[1..], k)
    else if ws[0].title == k then Some(ws[0].body)
    else None
  }

  /** Date of the first write of `ws` for `k`, if any. */
  function FirstPubAt(ws: seq<Write>, k: string): Option<string> {
    if ws == [] then None
    else if ws[0].title == k then Some(ws[0].pubAt)
    else FirstPubAt(ws[1..], k)
  }

  /** A body and a date are found for `k` exactly when some write is for `k`. */
  lemma {:induction false} SomeWriteTitled(ws: seq<Write>, k: string)
    ensures LastBody(ws, k).Some? <==> Titled(ws, k)
    ensures FirstPubAt(ws, k).Some? <==> Titled(ws, k)
  {
    if ws != [] {
      TitledCons(ws, k);
      SomeWriteTitled(ws[1..], k);
    }
  }

  /**
   * The table after a batch, page by page (last write wins): a title that some write is
   * for ends up with the last such write's body, keeps its publish date when it had one
   * and otherwise gets the date of the first such write, and keeps its other attributes;
   * a page no write is for is untouched, and no other page appears.
   */
  lemma {:induction false} BatchAt(s: Store, ws: seq<Write>, k: string)
    ensures k in Batch(s, ws) <==> k in s || LastBody(ws, k).Some?
    ensures LastBody(ws, k).Some? ==>
      Batch(s, ws)[k] == Page(
        LastBody(ws, k).value,
        if k in s && s[k].publishedAt.Some? then s[k].publishedAt else FirstPubAt(ws, k),
        if k in s then s[k].other else map[])
    ensures LastBody(ws, k).None? && k in s ==> Batch(s, ws)[k] == s[k]
    decreases ws
  {
    if ws != [] {
      BatchAt(Perform(s, ws[0]), ws[1..], k);
      SomeWriteTitled(ws[1..], k);
    }
  }

  lemma BatchAgainAt(s: Store, ws: seq<Write>, k: string)
    ensures k in Batch(Batch(s, ws), ws) <==> k in Batch(s, ws)
    ensures k in Batch(s, ws) ==> Batch(Batch(s, ws), ws)[k] == Batch(s, ws)[k]
  {
    BatchAt(s, ws, k);
    BatchAt(Batch(s, ws), ws, k);
    SomeWriteTitled(ws, k);
  }

  /** Running the same batch again on the table it produced changes nothing: no page is
      added, no body or date changes. */
  lemma BatchIdempotent(s: Store, ws: seq<Write>)
    ensures Batch(Batch(s, ws), ws) == Batch(s, ws)
  {
    var s1 := Batch(s, ws);
    var s2 := Batch(s1, ws);
    forall k | k in s1 || k in s2
      ensures k in s1 && k in s2 && s2[k] == s1[k]
    {
      BatchAgainAt(s, ws, k);
    }
    assert s2.Keys == s1.Keys;
  }

  /** The titles the writes are for. */
  function Titles(ws: seq<Write>): set<string> {
    set i | 0 <= i < |ws| :: ws[i].title
  }

  /** A batch creates exactly one page per title that is not in the table yet. */
  lemma BatchKeys(s: Store, ws: seq<Write>)
    ensures Batch(s, ws).Keys == s.Keys + Titles(ws)
  {
    forall k | k in Batch(s, ws) || k in s.Keys + Titles(ws)
      ensures k in Batch(s, ws) <==> k in s.Keys + Titles(ws)
    {
      BatchAt(s, ws, k);
      SomeWriteTitled(ws, k);
    }
  }

  /** Two writes for one new title make one page: the second body, the first date. */
  lemma SameTitleTwice(s: Store, w1: Write, w2: Write)
    requires w1.title == w2.title && w1.title !in s
    ensures Batch(s, [w1, w2]).Keys == s.Keys + {w1.title}
    ensures Batch(s, [w1, w2])[w1.title] == Page(w2.body, Some(w1.pubAt), map[])
  {
    BatchCons(s, w1, [w2]);
    BatchCons(Perform(s, w1), w2, []);
    assert [w1] + [w2] == [w1, w2] && [w2] + [] == [w2];
  }
}
