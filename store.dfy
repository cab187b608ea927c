/** The document table: rows keyed by id, each owned by one user, and the
    operations the routes perform on it, always filtered by id and owner. The
    wall clock behind `updated_at` is replaced by a logical clock that every write
    advances, and the uuid4 of a new row is supplied by the caller. */
module Documents {
  import opened Outcomes

  /** A row of the `document` table. The columns that are nullable and read by
      this model are options. */
  datatype Document = Document(
    id: string,
    title: string,
    content: string,
    correctedContent: Option<string>,
    agentUsed: string,
    owner: int,
    createdAt: nat,
    updatedAt: nat,
    status: string,
    wordCount: Option<int>,
    correctionsCount: Option<int>,
    processingTime: real)

  /** A freshly inserted row: status `draft`, the counters at their column
      defaults, both stamps at the current time. */
  function Draft(id: string, title: string, content: string, corrected: Option<string>,
                 agent: string, owner: int, now: nat): (d: Document)
    ensures d.id == id && d.owner == owner && d.status == "draft"
    ensures d.createdAt == d.updatedAt == now
    ensures d.wordCount == Some(0) && d.correctionsCount == Some(0) && d.processingTime == 0.0
  {
    Document(id, title, content, corrected, agent, owner, now, now, "draft", Some(0), Some(0), 0.0)
  }

  /** Python truthiness of an optional id: absent and `""` both count as not given. */
  predicate IsGiven(id: Option<string>) {
    id.Some? && id.value != ""
  }

  predicate KeysAreIds(rows: map<string, Document>) {
    forall id | id in rows :: rows[id].id == id
  }

  /** Every stored correction count is non-negative (null counts as 0). */
  predicate CountsNonNegative(rows: map<string, Document>) {
    forall id | id in rows :: Corrections(rows[id]) >= 0
  }

  /** No two rows carry the same `updated_at`, as each write takes a new tick. */
  predicate StampsUnique(rows: map<string, Document>) {
    forall a, b | a in rows && b in rows && a != b :: rows[a].updatedAt != rows[b].updatedAt
  }

  /** The ids of the rows `owner` owns. */
  function Owned(rows: map<string, Document>, owner: int): (ids: set<string>)
    ensures ids <= rows.Keys
    ensures forall id | id in rows :: id in ids <==> rows[id].owner == owner
  {
    set id | id in rows && rows[id].owner == owner
  }

  /** A most recently updated row among `ids`. */
  ghost function Newest(rows: map<string, Document>, ids: set<string>): (m: string)
    requires ids != {} && ids <= rows.Keys
    ensures m in ids
    ensures forall id | id in ids :: rows[id].updatedAt <= rows[m].updatedAt
    decreases |ids|
  {
    var x :| x in ids;
    if ids == {x} then x
    else
      var m' := Newest(rows, ids - {x});
      if rows[x].updatedAt > rows[m'].updatedAt then x else m'
  }

  /** `r` lists every id of `ids` exactly once, newest first. */
  ghost predicate NewestFirst(rows: map<string, Document>, ids: set<string>, r: seq<string>)
    requires ids <= rows.Keys
  {
    |r| == |ids|
    && (forall k | 0 <= k < |r| :: r[k] in ids)
    && (forall id | id in ids :: id in r)
    && (forall i, j | 0 <= i < j < |r| :: r[i] != r[j])
    && (forall i, j | 0 <= i < j < |r| :: rows[r[i]].updatedAt >= rows[r[j]].updatedAt)
  }

  lemma NewestBeforeRest(rows: map<string, Document>, ids: set<string>, m: string, rest: seq<string>)
    requires ids <= rows.Keys && m in ids
    requires forall id | id in ids :: rows[id].updatedAt <= rows[m].updatedAt
    requires NewestFirst(rows, ids - {m}, rest)
    ensures NewestFirst(rows, ids, [m] + rest)
  {
    var r := [m] + rest;
    assert |r| == |ids| by {
      assert |ids - {m}| == |ids| - 1;
    }
    assert forall k | 0 <= k < |r| :: r[k] in ids by {
      forall k | 0 <= k < |r|
        ensures r[k] in ids
      {
        if k > 0 {
          assert r[k] == rest[k - 1];
        }
      }
    }
    assert forall id | id in ids :: id in r by {
      forall id | id in ids
        ensures id in r
      {
        if id != m {
          assert id in rest;
        }
      }
    }
    forall i, j | 0 <= i < j < |r|
      ensures r[i] != r[j] && rows[r[i]].updatedAt >= rows[r[j]].updatedAt
    {
      assert r[j] == rest[j - 1];
      if i > 0 {
        assert r[i] == rest[i - 1];
      }
    }
  }

  /** `ORDER BY updated_at DESC` over the rows `ids`. */
  ghost function ByRecency(rows: map<string, Document>, ids: set<string>): (r: seq<string>)
    requires ids <= rows.Keys
    ensures NewestFirst(rows, ids, r)
    decreases |ids|
  {
    if ids == {} then []
    else
      var m := Newest(rows, ids);
      var rest := ByRecency(rows, ids - {m});
      NewestBeforeRest(rows, ids, m, rest);
      [m] + rest
  }

  /** The rows named by `ids`, in that order. */
  function Rows(rows: map<string, Document>, ids: seq<string>): (docs: seq<Document>)
    requires forall k | 0 <= k < |ids| :: ids[k] in rows
    ensures |docs| == |ids|
    ensures forall k | 0 <= k < |ids| :: docs[k] == rows[ids[k]]
  {
    seq(|ids|, k requires 0 <= k < |ids| => rows[ids[k]])
  }

  /** The documents of `owner`, newest first: the query shared by the listing and
      the dashboard. */
  ghost function Listing(rows: map<string, Document>, owner: int): (docs: seq<Document>)
    ensures |docs| == |Owned(rows, owner)|
    ensures forall k | 0 <= k < |docs| :: docs[k].owner == owner
    ensures forall i, j | 0 <= i < j < |docs| :: docs[i].updatedAt >= docs[j].updatedAt
  {
    var ids := ByRecency(rows, Owned(rows, owner));
    Rows(rows, ids)
  }

  /** With unique stamps the listing is strictly newest first. */
  lemma ListingStrictlyNewestFirst(rows: map<string, Document>, owner: int)
    requires StampsUnique(rows)
    ensures forall i, j | 0 <= i < j < |Listing(rows, owner)| ::
      Listing(rows, owner)[i].updatedAt > Listing(rows, owner)[j].updatedAt
  {
    var ids := ByRecency(rows, Owned(rows, owner));
    forall i, j | 0 <= i < j < |ids|
      ensures rows[ids[i]].updatedAt > rows[ids[j]].updatedAt
    {
      assert ids[i] != ids[j];
    }
  }

  /** A document appears in its owner's listing exactly when it is one of the
      owner's rows; no other user's row ever appears. */
  lemma ListingIsOwnersRows(rows: map<string, Document>, owner: int, id: string)
    requires KeysAreIds(rows)
    ensures (exists k | 0 <= k < |Listing(rows, owner)| :: Listing(rows, owner)[k].id == id)
            <==> id in rows && rows[id].owner == owner
  {
    var ids := ByRecency(rows, Owned(rows, owner));
    if id in rows && rows[id].owner == owner {
      var k :| 0 <= k < |ids| && ids[k] == id;
      assert Listing(rows, owner)[k].id == id;
    }
  }

  /** The page of a result that `paginate(page, per_page, error_out=False)`
      returns: the items, the total count and the number of pages. */
  datatype Page<T> = Page(items: seq<T>, total: nat, pages: nat)

  /** Out-of-range page numbers fall back to 1, out-of-range page sizes to 20. */
  function EffectivePage(page: int): (p: nat)
    ensures p >= 1 && (page >= 1 ==> p == page)
  {
    if page < 1 then 1 else page
  }

  function EffectivePerPage(perPage: int): (n: nat)
    ensures n >= 1 && (perPage >= 1 ==> n == perPage)
  {
    if perPage < 1 then 20 else perPage
  }

  function Min(a: int, b: int): int {
    if a <= b then a else b
  }

  lemma CeilDivision(t: nat, n: nat)
    requires t > 0 && n > 0
    ensures ((t + n - 1) / n - 1) * n < t <= ((t + n - 1) / n) * n
  {
    var q := (t + n - 1) / n;
    var rem := (t + n - 1) % n;
    assert t + n - 1 == q * n + rem;
    assert (q - 1) * n == q * n - n;
  }

  lemma MulMonotone(a: int, b: int, n: nat)
    requires a <= b
    ensures a * n <= b * n
  {
    assert b * n - a * n == (b - a) * n;
  }

  /** The number of pages of `t` items, `n` to a page, and which pages hold items. */
  lemma PageInRange(t: nat, n: nat, p: nat)
    requires n >= 1 && p >= 1
    ensures var pages := if t == 0 then 0 else (t + n - 1) / n;
      (pages == 0 <==> t == 0) &&
      (t > 0 ==> (pages - 1) * n < t <= pages * n) &&
      ((p - 1) * n < t <==> p <= pages)
  {
    var pages := if t == 0 then 0 else (t + n - 1) / n;
    if t > 0 {
      CeilDivision(t, n);
      if p <= pages {
        MulMonotone(p - 1, pages - 1, n);
      } else {
        MulMonotone(pages, p - 1, n);
      }
    }
  }

  /** The position of the first item of page `p`, `n` items to a page. */
  function Offset(p: nat, n: nat): nat
    requires p >= 1
  {
    (p - 1) * n
  }

  /** Page `page` of `xs` with `perPage` items per page; a page past the end is
      empty rather than an error. */
  function Paginate<T>(xs: seq<T>, page: int, perPage: int): (r: Page<T>)
    ensures r.total == |xs|
    ensures r.pages == 0 <==> xs == []
    ensures xs != [] ==> (r.pages - 1) * EffectivePerPage(perPage) < |xs| <= r.pages * EffectivePerPage(perPage)
    ensures r.items != [] <==> EffectivePage(page) <= r.pages
    ensures |r.items| == (var off := Offset(EffectivePage(page), EffectivePerPage(perPage));
                          if off < |xs| then Min(EffectivePerPage(perPage), |xs| - off) else 0)
    ensures forall k | 0 <= k < |r.items| ::
      Offset(EffectivePage(page), EffectivePerPage(perPage)) + k < |xs| &&
      r.items[k] == xs[Offset(EffectivePage(page), EffectivePerPage(perPage)) + k]
  {
    var p := EffectivePage(page);
    var n := EffectivePerPage(perPage);
    var start := Offset(p, n);
    var pages := if |xs| == 0 then 0 else (|xs| + n - 1) / n;
    PageInRange(|xs|, n, p);
    var items := if start >= |xs| then [] else xs[start..Min(start + n, |xs|)];
    Page(items, |xs|, pages)
  }

  /** Pages 1 to `k` of a listing put end to end. */
  function FirstPages<T>(xs: seq<T>, k: nat, n: nat): seq<T>
    requires n >= 1
  {
    if k == 0 then [] else FirstPages(xs, k - 1, n) + Paginate(xs, k, n).items
  }

  /** Walking the pages in order yields the listing from the start, `n` items per
      page and nothing repeated or skipped. */
  lemma {:induction false} FirstPagesArePrefix<T>(xs: seq<T>, k: nat, n: nat)
    requires n >= 1
    ensures FirstPages(xs, k, n) == xs[..Min(Offset(k + 1, n), |xs|)]
  {
    if k > 0 {
      FirstPagesArePrefix(xs, k - 1, n);
      OffsetStep(k, n);
      PageItems(xs, k, n);
      PrefixThenSlice(xs, Offset(k, n), Offset(k + 1, n));
    }
  }

  lemma OffsetStep(k: nat, n: nat)
    requires k >= 1
    ensures Offset(k + 1, n) == Offset(k, n) + n
  {
  }

  /** The first `a` items followed by those from `a` up to `b` are the first `b`
      items, each bound capped at the length. */
  lemma PrefixThenSlice<T>(xs: seq<T>, a: nat, b: nat)
    requires a <= b
    ensures xs[..Min(a, |xs|)] + (if a >= |xs| then [] else xs[a..Min(b, |xs|)]) == xs[..Min(b, |xs|)]
  {
    if a < |xs| {
      assert xs[..a] + xs[a..Min(b, |xs|)] == xs[..Min(b, |xs|)];
    }
  }

  /** The items of a page numbered from 1 with a positive size: the slice at its
      offset, or nothing past the end. */
  lemma PageItems<T>(xs: seq<T>, k: nat, n: nat)
    requires k >= 1 && n >= 1
    ensures Paginate(xs, k, n).items ==
      if Offset(k, n) >= |xs| then [] else xs[Offset(k, n)..Min(Offset(k, n) + n, |xs|)]
  {
  }

  /** The listing response for `owner`: a page of their documents, newest first. */
  ghost function ListDocuments(rows: map<string, Document>, owner: int, page: int, perPage: int): (r: Page<Document>)
    ensures r.total == |Owned(rows, owner)|
    ensures forall k | 0 <= k < |r.items| :: r.items[k].owner == owner
  {
    var all := Listing(rows, owner);
    var r := Paginate(all, page, perPage);
    assert forall k | 0 <= k < |r.items| :: r.items[k] in all;
    r
  }

  /** The dashboard shows at most this many recent documents. */
  const RecentLimit: nat := 10

  /** The dashboard's recent documents: the ten most recently updated ones. */
  ghost function Recent(rows: map<string, Document>, owner: int): (docs: seq<Document>)
    ensures |docs| == Min(RecentLimit, |Owned(rows, owner)|)
    ensures forall k | 0 <= k < |docs| :: docs[k] == Listing(rows, owner)[k]
  {
    var all := Listing(rows, owner);
    if |all| <= RecentLimit then all else all[..RecentLimit]
  }

  /** The corrections of a document as the dashboard counts them: a null count is
      0. */
  function Corrections(d: Document): int {
    d.correctionsCount.Or(0)
  }

  /** Sum of the corrections over `docs`, in the loop's order. */
  function SumCorrections(docs: seq<Document>): int {
    if docs == [] then 0 else SumCorrections(docs[..|docs| - 1]) + Corrections(docs[|docs| - 1])
  }

  lemma {:induction false} SumCorrectionsAppend(a: seq<Document>, b: seq<Document>)
    ensures SumCorrections(a + b) == SumCorrections(a) + SumCorrections(b)
    decreases |b|
  {
    if b == [] {
      assert a + b == a;
    } else {
      assert (a + b)[..|a + b| - 1] == a + b[..|b| - 1];
      SumCorrectionsAppend(a, b[..|b| - 1]);
    }
  }

  /** The same total read from the front: the first document's count plus the
      total over the others. */
  lemma SumCorrectionsFront(docs: seq<Document>)
    requires docs != []
    ensures SumCorrections(docs) == Corrections(docs[0]) + SumCorrections(docs[1..])
  {
    assert docs == [docs[0]] + docs[1..];
    SumCorrectionsAppend([docs[0]], docs[1..]);
    assert [docs[0]][..0] == [];
  }

  /** Counts coming from the correction pipeline are never negative, so neither is
      their total, and it is at least any single document's count. */
  lemma {:induction false} SumCorrectionsBounds(docs: seq<Document>)
    requires forall k | 0 <= k < |docs| :: Corrections(docs[k]) >= 0
    ensures SumCorrections(docs) >= 0
    ensures forall k | 0 <= k < |docs| :: SumCorrections(docs) >= Corrections(docs[k])
  {
    if docs != [] {
      var init := docs[..|docs| - 1];
      var last := Corrections(docs[|docs| - 1]);
      assert forall k | 0 <= k < |init| :: init[k] == docs[k];
      SumCorrectionsBounds(init);
      assert SumCorrections(docs) == SumCorrections(init) + last;
      forall k | 0 <= k < |docs|
        ensures SumCorrections(docs) >= Corrections(docs[k])
      {
        if k < |init| {
          assert Corrections(docs[k]) == Corrections(init[k]) <= SumCorrections(init);
        }
      }
    }
  }

  /** The dashboard's total of corrections over its recent documents, with its
      loop: a null or zero count adds nothing. */
  method TotalCorrections(recent: seq<Document>) returns (total: int)
    ensures total == SumCorrections(recent)
  {
    total := 0;
    var i := 0;
    while i < |recent|
      invariant 0 <= i <= |recent|
      invariant total == SumCorrections(recent[..i])
    {
      var doc := recent[i];
      if doc.correctionsCount.Some? && doc.correctionsCount.value != 0 {
        total := total + doc.correctionsCount.value;
      }
      assert recent[..i + 1][..i] == recent[..i];
      i := i + 1;
    }
    assert recent[..|recent|] == recent;
  }

  /** The dashboard's total, the sum over its recent documents, is never
      negative when the stored counts are not, and is at least the count of
      each of the owner's ten most recent documents; an owner with at most ten
      documents gets the sum over all of them. */
  lemma DashboardTotal(rows: map<string, Document>, owner: int)
    requires CountsNonNegative(rows)
    ensures SumCorrections(Recent(rows, owner)) >= 0
    ensures forall k | 0 <= k < Min(RecentLimit, |Owned(rows, owner)|) ::
      SumCorrections(Recent(rows, owner)) >= Corrections(Listing(rows, owner)[k])
    ensures |Owned(rows, owner)| <= RecentLimit ==>
      SumCorrections(Recent(rows, owner)) == SumCorrections(Listing(rows, owner))
  {
    var recent := Recent(rows, owner);
    var all := Listing(rows, owner);
    var ids := ByRecency(rows, Owned(rows, owner));
    assert forall k | 0 <= k < |all| :: all[k] == rows[ids[k]] && ids[k] in rows;
    assert forall k | 0 <= k < |recent| :: Corrections(recent[k]) >= 0;
    SumCorrectionsBounds(recent);
    if |Owned(rows, owner)| <= RecentLimit {
      assert recent == all;
    }
  }

  /** One entry of the dashboard's recent-document list. */
  datatype Summary = Summary(id: string, title: string, agentUsed: string, status: string,
                             wordCount: int, correctionsCount: int)

  /** Python `x or default`: an empty string falls back to the default. */
  function OrDefault(x: string, default: string): (r: string)
    ensures r == (if x == "" then default else x)
    ensures default != "" ==> r != ""
  {
    if x == "" then default else x
  }

  /** A dashboard entry: empty fields and null counters replaced by their
      defaults, and every displayed text non-empty. */
  function Summarize(d: Document): (s: Summary)
    ensures s.id == d.id
    ensures s.title != "" && s.agentUsed != "" && s.status != ""
    ensures d.title != "" ==> s.title == d.title
    ensures d.agentUsed != "" ==> s.agentUsed == d.agentUsed
    ensures d.status != "" ==> s.status == d.status
    ensures d.title == "" ==> s.title == "Sans titre"
    ensures d.agentUsed == "" ==> s.agentUsed == "jurifix"
    ensures d.status == "" ==> s.status == "draft"
    ensures s.correctionsCount == Corrections(d)
    ensures s.wordCount == d.wordCount.Or(0)
  {
    Summary(d.id, OrDefault(d.title, "Sans titre"), OrDefault(d.agentUsed, "jurifix"),
            OrDefault(d.status, "draft"), d.wordCount.Or(0), d.correctionsCount.Or(0))
  }

  /** The dashboard's loop building its list of entries, in listing order. */
  method RecentSummaries(recent: seq<Document>) returns (out: seq<Summary>)
    ensures |out| == |recent|
    ensures forall k | 0 <= k < |recent| :: out[k] == Summarize(recent[k])
  {
    out := [];
    var i := 0;
    while i < |recent|
      invariant 0 <= i <= |recent|
      invariant |out| == i
      invariant forall k | 0 <= k < i :: out[k] == Summarize(recent[k])
    {
      out := out + [Summarize(recent[i])];
      i := i + 1;
    }
  }

  /** The table with its logical clock. */
  class DocumentTable {
    var rows: map<string, Document>
    var clock: nat

    /** Rows are stored under their own id, have distinct update stamps and
        non-negative correction counts, and every stamp is in the past of the
        clock. */
    ghost predicate Valid()
      reads this
    {
      KeysAreIds(rows) && StampsUnique(rows) && CountsNonNegative(rows) &&
      forall id | id in rows :: rows[id].createdAt <= rows[id].updatedAt < clock
    }

    constructor ()
      ensures Valid() && rows == map[] && clock == 0
    {
      rows := map[];
      clock := 0;
    }

    /** `Document.query.filter_by(id=id, user_id=owner).first()`. */
    function Find(owner: int, id: string): (r: Option<Document>)
      reads this
      requires Valid()
      ensures r.Some? <==> id in rows && rows[id].owner == owner
      ensures r.Some? ==> r.value.id == id && r.value.owner == owner && r.value == rows[id]
    {
      if id in rows && rows[id].owner == owner then Some(rows[id]) else None
    }

    /** `GET /api/documents/<id>`: the owner's document, or 404 (`first_or_404`). */
    function Fetch(owner: int, id: string): (r: Result<Document, int>)
      reads this
      requires Valid()
      ensures r.Err? <==> Find(owner, id).None?
      ensures r.Err? ==> r.error == 404
      ensures r.Ok? ==> r.value.id == id && r.value.owner == owner
      ensures r.Ok? ==> id in rows && r.value == rows[id]
    {
      match Find(owner, id)
      case Some(d) => Ok(d)
      case None => Err(404)
    }

    /** The store update at the end of a successful correction: an owned document
        gets the texts, the statistics and status `completed`; a missing, empty
        or foreign id is skipped without error. */
    method RecordCorrection(owner: int, documentId: Option<string>, content: string, corrected: string,
                            wordCount: int, correctionsCount: nat, processingTime: real)
      requires Valid()
      modifies this
      ensures Valid()
      ensures IsGiven(documentId) && old(Find(owner, documentId.value)).Some? ==>
        rows == old(rows)[documentId.value := old(rows[documentId.value]).(
          content := content, correctedContent := Some(corrected), status := "completed",
          wordCount := Some(wordCount), correctionsCount := Some(correctionsCount),
          processingTime := processingTime, updatedAt := old(clock))]
        && clock == old(clock) + 1
      ensures !(IsGiven(documentId) && old(Find(owner, documentId.value)).Some?) ==>
        rows == old(rows) && clock == old(clock)
    {
      if IsGiven(documentId) {
        var id := documentId.value;
        if Find(owner, id).Some? {
          rows := rows[id := rows[id].(
            content := content, correctedContent := Some(corrected), status := "completed",
            wordCount := Some(wordCount), correctionsCount := Some(correctionsCount),
            processingTime := processingTime, updatedAt := clock)];
          clock := clock + 1;
        }
      }
    }

    /** `POST /api/documents/save`. Fields missing from the request take their
        defaults: `defaultTitle` (built from the date by the caller), `""` for both
        texts and `"jurifix"` for the agent. With an id: the owner's document gets
        the title, content and corrected text, keeping its status and agent, or the
        answer is 404. Without one: a new draft owned by `owner` is inserted under
        `newId` (500 when that id is already taken). */
    method Save(owner: int, documentId: Option<string>, title: Option<string>, content: Option<string>,
                corrected: Option<string>, agent: Option<string>, defaultTitle: string, newId: string)
      returns (r: Result<string, int>)
      requires Valid()
      modifies this
      ensures Valid()
      ensures IsGiven(documentId) && old(Find(owner, documentId.value)).None? ==>
        r == Err(404) && rows == old(rows) && clock == old(clock)
      ensures IsGiven(documentId) && old(Find(owner, documentId.value)).Some? ==>
        r == Ok(documentId.value)
        && rows == old(rows)[documentId.value := old(rows[documentId.value]).(
             title := title.Or(defaultTitle), content := content.Or(""),
             correctedContent := Some(corrected.Or("")), updatedAt := old(clock))]
        && clock == old(clock) + 1
      ensures !IsGiven(documentId) && newId in old(rows) ==>
        r == Err(500) && rows == old(rows) && clock == old(clock)
      ensures !IsGiven(documentId) && newId !in old(rows) ==>
        r == Ok(newId)
        && rows == old(rows)[newId := Draft(newId, title.Or(defaultTitle), content.Or(""),
                                            Some(corrected.Or("")), agent.Or("jurifix"), owner, old(clock))]
        && clock == old(clock) + 1
    {
      if IsGiven(documentId) {
        var id := documentId.value;
        if Find(owner, id).None? {
          return Err(404);
        }
        rows := rows[id := rows[id].(title := title.Or(defaultTitle), content := content.Or(""),
                                     correctedContent := Some(corrected.Or("")), updatedAt := clock)];
        clock := clock + 1;
        r := Ok(id);
      } else {
        r := Insert(Draft(newId, title.Or(defaultTitle), content.Or(""), Some(corrected.Or("")),
                          agent.Or("jurifix"), owner, clock));
      }
    }

    /** `POST /api/documents`: a new draft owned by `owner`, with no corrected
        text yet, the missing fields taking the same defaults as in `Save` (500
        when `newId` is already taken). */
    method Create(owner: int, title: Option<string>, content: Option<string>, agent: Option<string>,
                  defaultTitle: string, newId: string)
      returns (r: Result<string, int>)
      requires Valid()
      modifies this
      ensures Valid()
      ensures newId in old(rows) ==> r == Err(500) && rows == old(rows) && clock == old(clock)
      ensures newId !in old(rows) ==>
        r == Ok(newId)
        && rows == old(rows)[newId := Draft(newId, title.Or(defaultTitle), content.Or(""), None,
                                            agent.Or("jurifix"), owner, old(clock))]
        && clock == old(clock) + 1
    {
      r := Insert(Draft(newId, title.Or(defaultTitle), content.Or(""), None, agent.Or("jurifix"), owner, clock));
    }

    /** Adds a row stamped with the current time under its id, unless the id is
        taken. */
    method Insert(d: Document) returns (r: Result<string, int>)
      requires Valid() && d.createdAt == d.updatedAt == clock && Corrections(d) >= 0
      modifies this
      ensures Valid()
      ensures d.id in old(rows) ==> r == Err(500) && rows == old(rows) && clock == old(clock)
      ensures d.id !in old(rows) ==> r == Ok(d.id) && rows == old(rows)[d.id := d] && clock == old(clock) + 1
    {
      if d.id in rows {
        return Err(500);
      }
      rows := rows[d.id := d];
      clock := clock + 1;
      r := Ok(d.id);
    }

    /** `PUT /api/documents/<id>`: title, content and status take the values the
        request gives and keep their current ones otherwise; 404 for a missing or
        foreign id. */
    method Update(owner: int, id: string, title: Option<string>, content: Option<string>,
                  status: Option<string>) returns (code: int)
      requires Valid()
      modifies this
      ensures Valid()
      ensures old(Find(owner, id)).None? ==> code == 404 && rows == old(rows) && clock == old(clock)
      ensures old(Find(owner, id)).Some? ==>
        code == 200
        && rows == old(rows)[id := old(rows[id]).(
             title := title.Or(old(rows[id].title)),
             content := content.Or(old(rows[id].content)),
             status := status.Or(old(rows[id].status)),
             updatedAt := old(clock))]
        && clock == old(clock) + 1
    {
      if Find(owner, id).None? {
        return 404;
      }
      var d := rows[id];
      rows := rows[id := d.(title := title.Or(d.title), content := content.Or(d.content),
                            status := status.Or(d.status), updatedAt := clock)];
      clock := clock + 1;
      code := 200;
    }

    /** `DELETE /api/documents/<id>`: removes the owner's document, or 404. */
    method Delete(owner: int, id: string) returns (code: int)
      requires Valid()
      modifies this
      ensures Valid()
      ensures old(Find(owner, id)).None? ==> code == 404 && rows == old(rows)
      ensures old(Find(owner, id)).Some? ==> code == 200 && rows == old(rows) - {id}
      ensures clock == old(clock)
    {
      if Find(owner, id).None? {
        return 404;
      }
      rows := rows - {id};
      code := 200;
    }
  }
}
