/** The part of `getBibAndPdfs` that lines the listing up with the records:
    the page scan that collects one attachment link per listing entry, the
    count check, and the injection of each link into its record's `url` field.
    The HTML side is given as already-extracted data: the listing is a
    function from page index to that page's entries, each entry's attachment
    `href` or `None` (null) when the entry has no file link. Page 0 is the
    document the script has already loaded; page `i > 0` is `?page=i`. */
module BiblioExport {
  import opened JsValues
  import opened Records
  import opened Bibtex

  /** One listing entry's attachment link: the `href`, or null. */
  type Link = Option<string>

  /** The entries of one listing page, in document order. */
  type Page = seq<Link>

  /** What each page index returns when the listing is fetched. */
  type Listing = nat -> Page

  datatype ExportError =
    /** Thrown (line 84) when the link list and the record list differ in
        length. The message is a fixed string, so no counts are carried. */
    | CountMismatch
    /** JavaScript's TypeError at `bibs[i].entryTags.url = …` when record `i`
        has no `entryTags` object. */
    | NoEntryTags(index: nat)

  /** The links of pages `0 .. k - 1`, concatenated in page order. */
  function Crawled(listing: Listing, k: nat): seq<Link> {
    if k == 0 then [] else Crawled(listing, k - 1) + listing(k - 1)
  }

  /** The `pages` option is a number (from `parseInt`), so it is truthy when
      set and non-zero; `None` stands for unset (and for `NaN`). */
  predicate PagesTruthy(pages: Option<int>) {
    pages.Some? && pages.value != 0
  }

  /** Scanning with `pages` unset, for `count` records, visits exactly pages
      `0 .. k - 1`: the loop test `pdfs.length < count` held before each
      visited page, no page but the last was empty, and the scan ended either
      on an empty page or because the test failed. */
  ghost predicate StopsAt(listing: Listing, count: nat, k: nat) {
    && (forall j :: 0 <= j < k ==> |Crawled(listing, j)| < count)
    && (forall j :: 0 <= j < k - 1 ==> listing(j) != [])
    && (|Crawled(listing, k)| >= count || (k > 0 && listing(k - 1) == []))
  }

  /** The page loop (lines 67-82): `pdfs` collects one link per entry of each
      visited page; `fetched` is the number of pages visited. */
  method ScanPages(listing: Listing, pages: Option<int>, count: nat)
    returns (pdfs: seq<Link>, fetched: nat)
    ensures pdfs == Crawled(listing, fetched)
    ensures PagesTruthy(pages) ==> fetched == 0
    ensures !PagesTruthy(pages) ==> StopsAt(listing, count, fetched)
  {
    pdfs := [];
    fetched := 0;
    var i: nat := 0;
    // The loop test (line 67) is a conditional: with `pages` truthy it is
    // `i < pages.length`, which is false because a number has no `length`;
    // otherwise it is `pdfs.length < bibs.length`.
    while !PagesTruthy(pages) && |pdfs| < count
      invariant fetched == i
      invariant pdfs == Crawled(listing, i)
      invariant PagesTruthy(pages) ==> i == 0
      invariant forall j :: 0 <= j < i ==> |Crawled(listing, j)| < count
      invariant forall j :: 0 <= j < i ==> listing(j) != []
      decreases count - |pdfs|
    {
      var page := listing(i);
      fetched := i + 1;
      var amount := 0;
      while amount < |page|
        invariant 0 <= amount <= |page|
        invariant pdfs == Crawled(listing, i) + page[..amount]
      {
        pdfs := pdfs + [page[amount]];
        amount := amount + 1;
      }
      assert page[..amount] == page;
      if amount == 0 {
        break;
      }
      i := i + 1;
    }
  }

  /** Record `r` cannot take link `link`: the link is truthy but the record
      has no `entryTags` object to write into. */
  predicate Untagged(r: Record, link: Link) {
    Truthy(link) && r.entryTags.None?
  }

  /** Record `r` after `if (link) r.entryTags.url = link`. */
  function WithUrl(r: Record, link: Link): (r': Record)
    requires !Untagged(r, link)
    ensures r'.entryType == r.entryType && r'.citationKey == r.citationKey && r'.entry == r.entry
    ensures !Truthy(link) ==> r' == r
    ensures Truthy(link) ==> r'.entryTags.Some?
  {
    if Truthy(link) then r.(entryTags := Some(SetTag(r.entryTags.value, "url", link.value)))
    else r
  }

  /** With a truthy link, the record's `url` field reads as the link, every
      other field reads as before, and `url` keeps its place in the field order
      or, when new, comes last. */
  lemma UrlInjected(r: Record, link: Link, key: string)
    requires Truthy(link) && r.entryTags.Some?
    ensures Lookup(WithUrl(r, link).entryTags.value, key) ==
      if key == "url" then Some(link.value) else Lookup(r.entryTags.value, key)
    ensures "url" in Keys(r.entryTags.value) ==>
      Keys(WithUrl(r, link).entryTags.value) == Keys(r.entryTags.value)
    ensures "url" !in Keys(r.entryTags.value) ==>
      Keys(WithUrl(r, link).entryTags.value) == Keys(r.entryTags.value) + ["url"]
  {
    SetTagReads(r.entryTags.value, "url", link.value, key);
    SetTagKeys(r.entryTags.value, "url", link.value);
  }

  /** Every record with its link injected, position by position: the count is
      kept, records whose link is null or empty are untouched, and the others
      keep a fields object. */
  function WithUrls(rs: seq<Record>, links: seq<Link>): (out: seq<Record>)
    requires |rs| == |links|
    requires forall i :: 0 <= i < |rs| ==> !Untagged(rs[i], links[i])
    ensures |out| == |rs|
    ensures forall i :: 0 <= i < |rs| && !Truthy(links[i]) ==> out[i] == rs[i]
    ensures forall i :: 0 <= i < |rs| && Truthy(links[i]) ==> out[i].entryTags.Some?
  {
    seq(|rs|, i requires 0 <= i < |rs| => WithUrl(rs[i], links[i]))
  }

  /** Injecting the same links a second time changes nothing. */
  lemma InjectTwice(rs: seq<Record>, links: seq<Link>)
    requires |rs| == |links|
    requires forall i :: 0 <= i < |rs| ==> !Untagged(rs[i], links[i])
    ensures forall i :: 0 <= i < |rs| ==> !Untagged(WithUrls(rs, links)[i], links[i])
    ensures WithUrls(WithUrls(rs, links), links) == WithUrls(rs, links)
  {
    var once := WithUrls(rs, links);
    forall i | 0 <= i < |rs|
      ensures WithUrl(once[i], links[i]) == once[i]
    {
      if Truthy(links[i]) {
        SetTagReads(rs[i].entryTags.value, "url", links[i].value, "url");
        SetTagExisting(once[i].entryTags.value, "url", links[i].value);
      }
    }
  }

  /** Injection never gives a record two fields of the same name: every
      record whose field names were distinct still has distinct names. */
  lemma WithUrlsDistinct(rs: seq<Record>, links: seq<Link>)
    requires |rs| == |links|
    requires forall i :: 0 <= i < |rs| ==> !Untagged(rs[i], links[i])
    requires forall i :: 0 <= i < |rs| && rs[i].entryTags.Some? ==> DistinctKeys(rs[i].entryTags.value)
    ensures forall i :: 0 <= i < |rs| && WithUrls(rs, links)[i].entryTags.Some? ==>
      DistinctKeys(WithUrls(rs, links)[i].entryTags.value)
  {
    forall i | 0 <= i < |rs| && WithUrls(rs, links)[i].entryTags.Some?
      ensures DistinctKeys(WithUrls(rs, links)[i].entryTags.value)
    {
      if Truthy(links[i]) {
        SetTagKeepsDistinct(rs[i].entryTags.value, "url", links[i].value);
      }
    }
  }

  /** The injection loop (lines 86-90), in place on the record array. It stops
      with `NoEntryTags(k)` at the first record that has a truthy link but no
      `entryTags`, leaving the records before it already updated. */
  method InjectUrls(bibs: array<Record>, pdfs: seq<Link>) returns (result: Result<(), ExportError>)
    requires |pdfs| == bibs.Length
    modifies bibs
    ensures result.Ok? <==> forall i :: 0 <= i < bibs.Length ==> !Untagged(old(bibs[i]), pdfs[i])
    ensures result.Ok? ==> bibs[..] == WithUrls(old(bibs[..]), pdfs)
    ensures result.Err? ==>
      && result.error.NoEntryTags?
      && result.error.index < bibs.Length
      && Untagged(old(bibs[result.error.index]), pdfs[result.error.index])
      && (forall i :: 0 <= i < result.error.index ==> !Untagged(old(bibs[i]), pdfs[i]))
      && (forall i :: 0 <= i < result.error.index ==> bibs[i] == WithUrl(old(bibs[i]), pdfs[i]))
      && (forall i :: result.error.index <= i < bibs.Length ==> bibs[i] == old(bibs[i]))
  {
    for i := 0 to bibs.Length
      invariant forall j :: 0 <= j < i ==> !Untagged(old(bibs[j]), pdfs[j])
      invariant forall j :: 0 <= j < i ==> bibs[j] == WithUrl(old(bibs[j]), pdfs[j])
      invariant forall j :: i <= j < bibs.Length ==> bibs[j] == old(bibs[j])
    {
      ghost var r := bibs[i];
      if Truthy(pdfs[i]) {
        if bibs[i].entryTags.None? {
          return Err(NoEntryTags(i));
        }
        var tags := bibs[i].entryTags.value;
        bibs[i] := bibs[i].(entryTags := Some(SetTag(tags, "url", pdfs[i].value)));
      }
      assert bibs[i] == WithUrl(r, pdfs[i]);
    }
    assert bibs[..] == WithUrls(old(bibs[..]), pdfs);
    return Ok(());
  }

  /** Lines 67-92 of `getBibAndPdfs`, from the already-parsed records to the
      text written to the output file: scan the listing, check the counts,
      inject the links, serialise. `pdfs` is the link list the download phase
      goes on to use. */
  method GetBibAndPdfs(bibs: array<Record>, listing: Listing, pages: Option<int>)
    returns (written: Result<string, ExportError>, pdfs: seq<Link>, fetched: nat)
    modifies bibs
    ensures pdfs == Crawled(listing, fetched)
    ensures PagesTruthy(pages) ==> fetched == 0
    ensures !PagesTruthy(pages) ==> StopsAt(listing, bibs.Length, fetched)
    ensures |pdfs| != bibs.Length ==> written == Err(CountMismatch) && bibs[..] == old(bibs[..])
    ensures written.Ok? <==>
      |pdfs| == bibs.Length && forall i :: 0 <= i < bibs.Length ==> !Untagged(old(bibs[i]), pdfs[i])
    ensures written.Ok? ==>
      bibs[..] == WithUrls(old(bibs[..]), pdfs) && written.value == Serialize(bibs[..])
    ensures |pdfs| == bibs.Length && written.Err? ==> written.error.NoEntryTags?
  {
    pdfs, fetched := ScanPages(listing, pages, bibs.Length);
    if |pdfs| != bibs.Length {
      return Err(CountMismatch), pdfs, fetched;
    }
    var injected := InjectUrls(bibs, pdfs);
    if injected.Err? {
      return Err(injected.error), pdfs, fetched;
    }
    var out := ToBibtex(bibs[..]);
    written := Ok(out);
  }

  /** Scanning stops at one page index only: the description of where the
      scan ends picks out a single index. */
  lemma StopIsUnique(listing: Listing, count: nat, k1: nat, k2: nat)
    requires StopsAt(listing, count, k1) && StopsAt(listing, count, k2)
    ensures k1 == k2
  {
  }

  lemma {:induction false} CrawledAgree(l1: Listing, l2: Listing, k: nat)
    requires forall j :: 0 <= j < k ==> l1(j) == l2(j)
    ensures Crawled(l1, k) == Crawled(l2, k)
  {
    if k > 0 {
      CrawledAgree(l1, l2, k - 1);
    }
  }

  /** Pages past the stopping point are never looked at: a listing that
      agrees on the visited pages stops at the same place with the same links. */
  lemma StopIgnoresLaterPages(l1: Listing, l2: Listing, count: nat, k: nat)
    requires forall j :: 0 <= j < k ==> l1(j) == l2(j)
    requires StopsAt(l1, count, k)
    ensures StopsAt(l2, count, k)
    ensures Crawled(l2, k) == Crawled(l1, k)
  {
    forall j | 0 <= j <= k
      ensures Crawled(l2, j) == Crawled(l1, j)
    {
      CrawledAgree(l1, l2, j);
    }
  }

  /** The link list overshoots the record count by less than one page: it
      was still short before the last visited page was added. */
  lemma OvershootBelowOnePage(listing: Listing, count: nat, k: nat)
    requires StopsAt(listing, count, k) && k > 0
    ensures |Crawled(listing, k)| < count + |listing(k - 1)|
  {
    assert |Crawled(listing, k - 1)| < count;
  }

  /** A listing with three entries on page 0 (links A, none, B), scanned for
      three records, stops after page 0 with the links in entry order. */
  lemma ThreeEntryListing(listing: Listing, a: string, b: string)
    requires listing(0) == [Some(a), None, Some(b)]
    ensures StopsAt(listing, 3, 1)
    ensures Crawled(listing, 1) == [Some(a), None, Some(b)]
  {
    assert Crawled(listing, 1) == Crawled(listing, 0) + listing(0);
  }
}
