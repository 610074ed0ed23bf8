/** The decision logic of `src/operations.rs`: listing, search-result resolution, track
    extraction, file naming and slice selection. Fetching a URL and parsing the HTML that
    comes back are the `Site`'s business; writing files is described by a returned plan. */
module Operations {
  import opened Wrappers
  import opened Seqs
  import opened Text
  import Util

  /** `list_shows` reads listing pages 0 through 173. */
  const PAGE_COUNT: nat := 174

  /** The string the code stands in for a missing attribute. A real value equal to it is
      indistinguishable from a missing one and is dropped with it. */
  const SENTINEL: string := "nothing"

  /** The audio container of the downloaded tracks, both as the url filter and as the file suffix. */
  const AUDIO_EXTENSION: string := ".ogg"

  /** A failed request or body read (`reqwest::Error`); its cause is not modelled. */
  datatype NetworkError = NetworkError

  /** One `div[itemprop="track"]` of a detail page: the `content` attribute of each
      `meta[itemprop="name"]` inside it and the `href` attribute of each
      `link[itemprop="associatedMedia"]` inside it, in document order (`None` when absent). */
  datatype TrackElement = TrackElement(nameAttrs: seq<Option<string>>, hrefAttrs: seq<Option<string>>)

  /** The archive as the program sees it. The three URL prefixes are opaque; each page function
      stands for an HTTP GET of a URL followed by parsing with the selector the code uses:
      a listing page yields its trimmed `div.ttl` titles, a search page the `href` of each
      result-tile link, a detail page its track elements. */
  datatype Site = Site(
    showsUrl: string,
    listUrl: string,
    archiveBase: string,
    listingPage: string -> Result<seq<string>, NetworkError>,
    searchPage: string -> Result<seq<Option<string>>, NetworkError>,
    detailPage: string -> Result<seq<TrackElement>, NetworkError>)

  /** A (name, url) pair extracted from a detail page. */
  datatype Track = Track(name: string, url: string)

  /** One `fs::write` the download loop would perform, with the url whose bytes it writes. */
  datatype FileTarget = FileTarget(path: string, url: string)

  /** `fs::create_dir(directory)` followed by one download per file, in order. */
  datatype DownloadPlan = DownloadPlan(directory: string, files: seq<FileTarget>)

  /** What `get_show` decides once its requests have succeeded. */
  datatype ShowOutcome = NoShowFound | Planned(plan: DownloadPlan)

  /** One iteration of a batch loop: the show and what `get_show` did for it. */
  datatype ShowReport = ShowReport(show: string, run: ShowRun)

  // ---------------------------------------------------------------------------
  // list_shows
  // ---------------------------------------------------------------------------

  predicate NoAdjacentDuplicates<T(==)>(s: seq<T>) {
    forall i :: 0 < i < |s| ==> s[i - 1] != s[i]
  }

  /** `Vec::dedup`: every run of equal neighbours collapses to its first element. */
  function Dedup<T(==)>(s: seq<T>): (r: seq<T>)
    ensures NoAdjacentDuplicates(r)
    ensures |r| <= |s|
    ensures |s| > 0 ==> |r| > 0 && r[0] == s[0] && r[|r| - 1] == s[|s| - 1]
    decreases |s|
  {
    if |s| <= 1 then s
    else
      var d := Dedup(s[..|s| - 1]);
      if s[|s| - 1] == s[|s| - 2] then d else d + [s[|s| - 1]]
  }

  /** Position `i` starts a run: it is first, or differs from its left neighbour. */
  predicate IsRunHead<T(==)>(s: seq<T>, i: int)
    requires 0 <= i < |s|
  {
    i == 0 || s[i - 1] != s[i]
  }

  /** The positions below `n` that start a run, in increasing order. */
  function RunHeads<T(==)>(s: seq<T>, n: nat): seq<nat>
    requires n <= |s|
    decreases n
  {
    if n == 0 then [] else RunHeads(s, n - 1) + (if IsRunHead(s, n - 1) then [n - 1] else [])
  }

  /** `RunHeads` lists every run head below `n` and nothing else, in increasing order. */
  lemma {:induction false} RunHeadsSpec<T>(s: seq<T>, n: nat)
    requires n <= |s|
    ensures forall k :: 0 <= k < |RunHeads(s, n)| ==> RunHeads(s, n)[k] < n && IsRunHead(s, RunHeads(s, n)[k])
    ensures forall k, l :: 0 <= k < l < |RunHeads(s, n)| ==> RunHeads(s, n)[k] < RunHeads(s, n)[l]
    ensures forall i :: 0 <= i < n && IsRunHead(s, i) ==> i in RunHeads(s, n)
    decreases n
  {
    if n > 0 {
      RunHeadsSpec(s, n - 1);
    }
  }

  /** `d` lists the elements of `s` at positions `h`, in the order of `h`. */
  predicate AtPositions<T(==)>(d: seq<T>, s: seq<T>, h: seq<nat>) {
    |d| == |h| && forall k :: 0 <= k < |h| ==> h[k] < |s| && d[k] == s[h[k]]
  }

  lemma AtPositionsSnoc<T>(d: seq<T>, s: seq<T>, h: seq<nat>, i: nat)
    requires AtPositions(d, s, h) && i < |s|
    ensures AtPositions(d + [s[i]], s, h + [i])
  {
  }

  /** `Dedup` keeps exactly the elements at run heads, in their original order. */
  lemma {:induction false} DedupKeepsRunHeads<T>(s: seq<T>, n: nat)
    requires n <= |s|
    ensures AtPositions(Dedup(s[..n]), s, RunHeads(s, n))
    decreases n
  {
    if n >= 2 {
      DedupKeepsRunHeads(s, n - 1);
      var p := s[..n];
      assert p[..n - 1] == s[..n - 1] && p[n - 1] == s[n - 1] && p[n - 2] == s[n - 2];
      var d, h := Dedup(s[..n - 1]), RunHeads(s, n - 1);
      if s[n - 1] == s[n - 2] {
        assert Dedup(p) == d && RunHeads(s, n) == h;
      } else {
        assert Dedup(p) == d + [s[n - 1]] && RunHeads(s, n) == h + [n - 1];
        AtPositionsSnoc(d, s, h, n - 1);
      }
    } else if n == 1 {
      assert RunHeads(s, 0) == [];
      assert RunHeads(s, 1) == [0];
      assert Dedup(s[..1]) == [s[0]];
    }
  }

  /** A list without adjacent duplicates is left unchanged, and only such a list is. */
  lemma {:induction false} DedupFixpoint<T>(s: seq<T>)
    ensures Dedup(s) == s <==> NoAdjacentDuplicates(s)
    decreases |s|
  {
    if |s| >= 2 {
      var p, c := s[..|s| - 1], s[|s| - 1];
      DedupFixpoint(p);
      if NoAdjacentDuplicates(s) {
        assert NoAdjacentDuplicates(p);
        assert p[|p| - 1] != c;
        assert Dedup(s) == p + [c];
        assert p + [c] == s;
      }
    }
  }

  /** Deduplicating twice is deduplicating once. */
  lemma DedupIdempotent<T>(s: seq<T>)
    ensures Dedup(Dedup(s)) == Dedup(s)
  {
    DedupFixpoint(Dedup(s));
  }

  /** The listing built from page title lists: each page deduplicated on its own, then
      appended in page order. */
  function JoinPages(pages: seq<seq<string>>): seq<string>
    decreases |pages|
  {
    if |pages| == 0 then [] else JoinPages(pages[..|pages| - 1]) + Dedup(pages[|pages| - 1])
  }

  /** Joining distributes over splitting the page list anywhere. */
  lemma {:induction false} JoinPagesAppend(p: seq<seq<string>>, q: seq<seq<string>>)
    ensures JoinPages(p + q) == JoinPages(p) + JoinPages(q)
    decreases |q|
  {
    if |q| > 0 {
      assert (p + q)[..|p + q| - 1] == p + q[..|q| - 1];
      JoinPagesAppend(p, q[..|q| - 1]);
    } else {
      assert p + q == p;
    }
  }

  lemma JoinPagesSingle(p: seq<string>)
    ensures JoinPages([p]) == Dedup(p)
  {
    assert [p][..0] == [];
  }

  /** Deduplication never looks across a page boundary: a title that ends one page and starts
      the next appears twice in a row in the listing. */
  lemma BoundaryDuplicateSurvives(p: seq<string>, q: seq<string>)
    requires |p| > 0 && |q| > 0 && p[|p| - 1] == q[0]
    ensures var r, k := JoinPages([p, q]), |Dedup(p)|;
            0 < k < |r| && r[k - 1] == q[0] && r[k] == q[0] && !NoAdjacentDuplicates(r)
  {
    var d, e := Dedup(p), Dedup(q);
    assert JoinPages([p, q]) == d + e by {
      assert [p, q] == [p] + [q];
      JoinPagesAppend([p], [q]);
      JoinPagesSingle(p);
      JoinPagesSingle(q);
    }
    var r, k := d + e, |d|;
    assert r[k - 1] == d[k - 1] == q[0];
    assert r[k] == e[0] == q[0];
  }

  function PageUrl(site: Site, i: nat): string {
    site.showsUrl + Decimal(i)
  }

  /** The title list of each of listing pages `0 .. n-1`; a page that failed to load counts as empty. */
  function FetchedPages(site: Site, n: nat): (pages: seq<seq<string>>)
    ensures |pages| == n
  {
    if n == 0 then []
    else
      FetchedPages(site, n - 1)
      + [match site.listingPage(PageUrl(site, n - 1)) case Success(t) => t case Failure(_) => []]
  }

  /** Every listing page loads. */
  predicate ListingAvailable(site: Site) {
    forall i :: 0 <= i < PAGE_COUNT ==> site.listingPage(PageUrl(site, i)).Success?
  }

  /** The full listing, in page order. */
  function ListedShows(site: Site): seq<string> {
    JoinPages(FetchedPages(site, PAGE_COUNT))
  }

  /** `list_shows`: fetch pages 0..173 in order, deduplicate each, append. The first page that
      fails to load aborts the whole listing. */
  method ListShows(site: Site) returns (r: Result<seq<string>, NetworkError>)
    ensures r.Success? <==> ListingAvailable(site)
    ensures r.Success? ==> r.value == ListedShows(site)
  {
    var all: seq<string> := [];
    var i: nat := 0;
    while i < PAGE_COUNT
      invariant i <= PAGE_COUNT
      invariant forall k :: 0 <= k < i ==> site.listingPage(PageUrl(site, k)).Success?
      invariant all == JoinPages(FetchedPages(site, i))
    {
      var page := site.listingPage(PageUrl(site, i));
      if page.Failure? {
        return Failure(page.error);
      }
      assert FetchedPages(site, i + 1)[..i] == FetchedPages(site, i);
      all := all + Dedup(page.value);
      i := i + 1;
    }
    return Success(all);
  }

  // ---------------------------------------------------------------------------
  // get_show: resolving the search results
  // ---------------------------------------------------------------------------

  /** A result-tile link that survives the filter: it has an `href`, and that `href` is not
      literally the sentinel. */
  predicate IsUsableLink(link: Option<string>) {
    link.Some? && link.value != SENTINEL
  }

  /** The `href` a link contributes before filtering: its value, or the sentinel when it has none. */
  function HrefOrSentinel(link: Option<string>): string {
    match link
    case Some(href) => href
    case None => SENTINEL
  }

  /** `urls` in `get_show`: each link's `href`, or the sentinel when it has none, with every
      sentinel filtered out. */
  function Hrefs(links: seq<Option<string>>): (r: seq<string>)
    ensures |r| <= |links|
    ensures forall k :: 0 <= k < |r| ==> r[k] != SENTINEL && Some(r[k]) in links
    decreases |links|
  {
    if |links| == 0 then []
    else
      var h := HrefOrSentinel(links[0]);
      (if h != SENTINEL then [h] else []) + Hrefs(links[1..])
  }

  /** Every usable `href` is kept and nothing else. */
  lemma {:induction false} HrefsMembership(links: seq<Option<string>>, h: string)
    ensures h in Hrefs(links) <==> Some(h) in links && h != SENTINEL
    decreases |links|
  {
    if |links| > 0 {
      HrefsMembership(links[1..], h);
      assert links == [links[0]] + links[1..];
    }
  }

  /** The kept hrefs run out exactly when no link is usable; otherwise the first one kept is
      the first usable link. */
  lemma {:induction false} HrefsHead(links: seq<Option<string>>)
    ensures |Hrefs(links)| == 0 <==> forall i :: 0 <= i < |links| ==> !IsUsableLink(links[i])
    ensures |Hrefs(links)| > 0 ==>
              exists i :: 0 <= i < |links| && links[i] == Some(Hrefs(links)[0]) && IsUsableLink(links[i])
                          && forall j :: 0 <= j < i ==> !IsUsableLink(links[j])
    decreases |links|
  {
    if |links| > 0 {
      var rest := links[1..];
      HrefsHead(rest);
      assert forall i :: 0 < i < |links| ==> links[i] == rest[i - 1];
      if !IsUsableLink(links[0]) {
        assert Hrefs(links) == Hrefs(rest);
        if |Hrefs(rest)| > 0 {
          var i :| 0 <= i < |rest| && rest[i] == Some(Hrefs(rest)[0]) && IsUsableLink(rest[i])
                   && forall j :: 0 <= j < i ==> !IsUsableLink(rest[j]);
          assert links[i + 1] == rest[i];
        }
      } else {
        assert Hrefs(links)[0] == links[0].value;
      }
    }
  }

  /** The link `get_show` follows: the first usable one, if any. */
  function FirstLink(links: seq<Option<string>>): (r: Option<string>)
    ensures r.None? <==> forall i :: 0 <= i < |links| ==> !IsUsableLink(links[i])
    ensures r.Some? ==>
              exists i :: 0 <= i < |links| && links[i] == r && IsUsableLink(links[i])
                          && forall j :: 0 <= j < i ==> !IsUsableLink(links[j])
  {
    HrefsHead(links);
    var urls := Hrefs(links);
    if |urls| > 0 then Some(urls[0]) else None
  }

  // ---------------------------------------------------------------------------
  // get_show: extracting tracks
  // ---------------------------------------------------------------------------

  /** The inner loops of `get_show`: starting from `current`, every child that carries the
      attribute overwrites the value. */
  function ScanAttr(attrs: seq<Option<string>>, current: string): (r: string)
    ensures r == current || Some(r) in attrs
    decreases |attrs|
  {
    if |attrs| == 0 then current
    else ScanAttr(attrs[1..], match attrs[0] case Some(v) => v case None => current)
  }

  /** The last child carrying the attribute wins; with none, the starting value is kept. */
  lemma {:induction false} ScanAttrLastWins(attrs: seq<Option<string>>, current: string)
    ensures (forall i :: 0 <= i < |attrs| ==> attrs[i].None?) ==> ScanAttr(attrs, current) == current
    ensures forall i :: 0 <= i < |attrs| && attrs[i].Some?
                        && (forall j :: i < j < |attrs| ==> attrs[j].None?)
                        ==> ScanAttr(attrs, current) == attrs[i].value
    decreases |attrs|
  {
    if |attrs| > 0 {
      var next := match attrs[0] case Some(v) => v case None => current;
      var rest := attrs[1..];
      assert forall i :: 0 < i < |attrs| ==> rest[i - 1] == attrs[i];
      ScanAttrLastWins(rest, next);
    }
  }

  /** The (name, url) pair the code builds for one track element, sentinel defaults included. */
  function ResolveTrack(e: TrackElement): (t: Track)
    ensures t.name == SENTINEL || Some(t.name) in e.nameAttrs
    ensures t.url == SENTINEL || Some(t.url) in e.hrefAttrs
  {
    Track(ScanAttr(e.nameAttrs, SENTINEL), ScanAttr(e.hrefAttrs, SENTINEL))
  }

  /** The filter of `get_show`: the url ends in `.ogg` and the name is not the sentinel. */
  predicate IsAudioTrack(t: Track) {
    EndsWith(t.url, AUDIO_EXTENSION) && t.name != SENTINEL
  }

  /** The resolved tracks of `elements` that `keep` accepts, in document order. */
  function KeepResolved(elements: seq<TrackElement>, keep: Track -> bool): (tracks: seq<Track>)
    ensures forall k :: 0 <= k < |tracks| ==> keep(tracks[k])
    ensures |tracks| <= |elements|
    decreases |elements|
  {
    if |elements| == 0 then []
    else
      var t := ResolveTrack(elements[|elements| - 1]);
      KeepResolved(elements[..|elements| - 1], keep) + (if keep(t) then [t] else [])
  }

  /** Each element is resolved and filtered on its own, whatever the filter. */
  lemma {:induction false} KeepResolvedAppend(a: seq<TrackElement>, b: seq<TrackElement>, keep: Track -> bool)
    ensures KeepResolved(a + b, keep) == KeepResolved(a, keep) + KeepResolved(b, keep)
    decreases |b|
  {
    if |b| > 0 {
      var ab, b' := a + b, b[..|b| - 1];
      assert ab[..|ab| - 1] == a + b' && ab[|ab| - 1] == b[|b| - 1];
      KeepResolvedAppend(a, b', keep);
    } else {
      assert a + b == a;
    }
  }

  /** `names_urls` in `get_show`: the resolved tracks that pass the filter, in document order. */
  function ExtractTracks(elements: seq<TrackElement>): (tracks: seq<Track>)
    ensures forall k :: 0 <= k < |tracks| ==> IsAudioTrack(tracks[k])
    ensures |tracks| <= |elements|
  {
    KeepResolved(elements, IsAudioTrack)
  }

  /** Extraction treats each element on its own, so it preserves document order. */
  lemma ExtractTracksAppend(a: seq<TrackElement>, b: seq<TrackElement>)
    ensures ExtractTracks(a + b) == ExtractTracks(a) + ExtractTracks(b)
  {
    KeepResolvedAppend(a, b, IsAudioTrack);
  }

  /** Only tracks that pass the filter and come from some element are extracted. */
  lemma {:induction false} ExtractedComesFromElement(elements: seq<TrackElement>, t: Track)
    requires t in ExtractTracks(elements)
    ensures IsAudioTrack(t)
    ensures exists i :: 0 <= i < |elements| && ResolveTrack(elements[i]) == t
    decreases |elements|
  {
    var n := |elements| - 1;
    var prefix := elements[..n];
    if t in ExtractTracks(prefix) {
      ExtractedComesFromElement(prefix, t);
      var i :| 0 <= i < |prefix| && ResolveTrack(prefix[i]) == t;
      assert elements[i] == prefix[i];
    } else {
      assert ResolveTrack(elements[n]) == t;
    }
  }

  /** Every element whose resolved track passes the filter has that track extracted. */
  lemma {:induction false} ElementIsExtracted(elements: seq<TrackElement>, i: nat)
    requires i < |elements| && IsAudioTrack(ResolveTrack(elements[i]))
    ensures ResolveTrack(elements[i]) in ExtractTracks(elements)
    decreases |elements|
  {
    var n := |elements| - 1;
    var prefix := elements[..n];
    var last := ResolveTrack(elements[n]);
    var extra := if IsAudioTrack(last) then [last] else [];
    assert ExtractTracks(elements) == ExtractTracks(prefix) + extra;
    if i < n {
      assert elements[i] == prefix[i];
      ElementIsExtracted(prefix, i);
    } else {
      assert extra == [last];
    }
  }

  /** A track is extracted exactly when some element resolves to it and it passes the filter. */
  lemma ExtractTracksMembership(elements: seq<TrackElement>, t: Track)
    ensures t in ExtractTracks(elements) <==>
              IsAudioTrack(t) && exists i :: 0 <= i < |elements| && ResolveTrack(elements[i]) == t
  {
    if t in ExtractTracks(elements) {
      ExtractedComesFromElement(elements, t);
    }
    if IsAudioTrack(t) && exists i :: 0 <= i < |elements| && ResolveTrack(elements[i]) == t {
      var i :| 0 <= i < |elements| && ResolveTrack(elements[i]) == t;
      ElementIsExtracted(elements, i);
    }
  }

  /** A single element contributes its resolved track if that passes the filter, else nothing. */
  lemma ExtractTracksSingle(e: TrackElement)
    ensures ExtractTracks([e]) == if IsAudioTrack(ResolveTrack(e)) then [ResolveTrack(e)] else []
  {
    assert [e][..0] == [];
  }

  /** An element whose url does not end in `.ogg` contributes nothing, whatever its name. */
  lemma NonAudioElementDropped(a: seq<TrackElement>, e: TrackElement, b: seq<TrackElement>)
    requires !EndsWith(ResolveTrack(e).url, AUDIO_EXTENSION)
    ensures ExtractTracks(a + [e] + b) == ExtractTracks(a) + ExtractTracks(b)
  {
    ExtractTracksAppend(a + [e], b);
    ExtractTracksAppend(a, [e]);
    ExtractTracksSingle(e);
  }

  // ---------------------------------------------------------------------------
  // get_show: naming the files
  // ---------------------------------------------------------------------------

  /** `number` in `get_show` for the track at 0-based position `idx` of the filtered list. */
  function TrackNumber(idx: nat): (r: string)
    ensures |r| >= 2 && AllDigits(r)
    ensures DigitsValue(r) == idx + 1
    ensures r[0] == '0' <==> idx < 9
    ensures idx < 9 ==> |r| == 2
  {
    if idx < 9 then
      LeadingZeroValue(Decimal(idx + 1));
      "0" + Decimal(idx + 1)
    else
      Decimal(idx + 1)
  }

  /** The numbering rule determines the number: `0` then the single digit `idx + 1` below ten,
      the plain decimal `idx + 1` from ten on. */
  lemma TrackNumberUnique(idx: nat, r: string)
    requires |r| >= 2 && AllDigits(r) && DigitsValue(r) == idx + 1
    requires r[0] == '0' <==> idx < 9
    requires idx < 9 ==> |r| == 2
    ensures r == TrackNumber(idx)
  {
    if idx < 9 {
      var d := r[1..];
      assert r == "0" + d;
      LeadingZeroValue(d);
      DecimalUnique(d, idx + 1);
    } else {
      DecimalUnique(r, idx + 1);
    }
  }

  /** The file name of track `idx`: number, " - ", the sanitised and trimmed name, ".ogg". */
  function TrackFileName(idx: nat, name: string): string {
    TrackNumber(idx) + " - " + Trim(Util.SanitizeSongName(name)) + AUDIO_EXTENSION
  }

  /** The path `get_show` writes track `idx` to: inside the directory named after the show. */
  function TrackPath(showname: string, idx: nat, name: string): string {
    showname + "/" + TrackFileName(idx, name)
  }

  /** The second trim is a no-op: a sanitised name already has no surrounding whitespace. */
  lemma TrackFileNameParts(idx: nat, name: string)
    ensures TrackFileName(idx, name)
            == TrackNumber(idx) + (" - " + Util.SanitizeSongName(name) + AUDIO_EXTENSION)
  {
    TrimFixpoint(Util.SanitizeSongName(name));
  }

  /** The leading digit run of a file name is the track number, whose value is `idx + 1`. */
  lemma TrackFileNameNumber(idx: nat, name: string)
    ensures LeadingDigits(TrackFileName(idx, name)) == TrackNumber(idx)
    ensures DigitsValue(LeadingDigits(TrackFileName(idx, name))) == idx + 1
  {
    TrackFileNameParts(idx, name);
    var rest := " - " + Util.SanitizeSongName(name) + AUDIO_EXTENSION;
    assert rest[0] == ' ';
    LeadingDigitsOfPrefix(TrackNumber(idx), rest);
  }

  /** No `/` occurs in a file name, so every file lands directly in the show directory. */
  lemma TrackFileNameNoSlash(idx: nat, name: string)
    ensures '/' !in TrackFileName(idx, name)
  {
    TrackFileNameParts(idx, name);
    var n, s := TrackNumber(idx), Util.SanitizeSongName(name);
    assert forall k :: 0 <= k < |n| ==> n[k] != '/';
    assert forall k :: 0 <= k < |s| ==> s[k] != '/';
    assert '/' !in " - " + s + AUDIO_EXTENSION;
  }

  /** A file name ends with the sanitised name followed by `.ogg`. */
  lemma TrackFileNameSuffix(idx: nat, name: string)
    ensures EndsWith(TrackFileName(idx, name), Util.SanitizeSongName(name) + AUDIO_EXTENSION)
  {
    TrackFileNameParts(idx, name);
    var tail := Util.SanitizeSongName(name) + AUDIO_EXTENSION;
    assert TrackFileName(idx, name) == (TrackNumber(idx) + " - ") + tail;
  }

  /** Different positions never share a path, whatever the names: the number tells them apart. */
  lemma TrackPathsDistinct(showname: string, i: nat, a: string, j: nat, b: string)
    requires i != j
    ensures TrackPath(showname, i, a) != TrackPath(showname, j, b)
  {
    TrackFileNameNumber(i, a);
    TrackFileNameNumber(j, b);
    var p, q := TrackPath(showname, i, a), TrackPath(showname, j, b);
    var d := |showname| + 1;
    assert p[d..] == TrackFileName(i, a);
    assert q[d..] == TrackFileName(j, b);
  }

  /** The writes of the download loop, one per extracted track, numbered by position. */
  function PlanFiles(showname: string, tracks: seq<Track>): (files: seq<FileTarget>)
    ensures |files| == |tracks|
    ensures forall k :: 0 <= k < |files| ==> files[k].url == tracks[k].url
    ensures forall k :: 0 <= k < |files| ==> PlacedAt(files[k].path, showname, k, tracks[k].name)
    ensures forall k, l :: 0 <= k < l < |files| ==> files[k].path != files[l].path
  {
    var files := seq(|tracks|, k requires 0 <= k < |tracks| =>
                       FileTarget(TrackPath(showname, k, tracks[k].name), tracks[k].url));
    PlanFilesLayout(showname, tracks, files);
    files
  }

  /** Where one file of the plan goes: `<show>/<number> - <sanitised name>.ogg`. */
  predicate PlacedAt(p: string, showname: string, k: nat, name: string) {
    p == showname + "/" + TrackNumber(k) + " - " + Util.SanitizeSongName(name) + AUDIO_EXTENSION
  }

  /** A track path has that form: the second trim never changes a sanitised name. */
  lemma TrackPathPlaced(showname: string, k: nat, name: string)
    ensures PlacedAt(TrackPath(showname, k, name), showname, k, name)
  {
    TrackFileNameParts(k, name);
  }

  /** A path of that form lies directly in the directory named after the show, and its file
      name starts with the number `k + 1` and ends with the sanitised name and `.ogg`. */
  lemma PlacedAtLayout(p: string, showname: string, k: nat, name: string)
    requires PlacedAt(p, showname, k, name)
    ensures |showname| + 1 <= |p| && p[..|showname| + 1] == showname + "/"
    ensures '/' !in p[|showname| + 1..]
    ensures DigitsValue(LeadingDigits(p[|showname| + 1..])) == k + 1
    ensures EndsWith(p, Util.SanitizeSongName(name) + AUDIO_EXTENSION)
  {
    var dir, f := showname + "/", TrackFileName(k, name);
    TrackPathPlaced(showname, k, name);
    assert p == TrackPath(showname, k, name) == dir + f;
    TrackFileNameNumber(k, name);
    TrackFileNameNoSlash(k, name);
    TrackFileNameSuffix(k, name);
    EndsWithPrepend(dir, f, Util.SanitizeSongName(name) + AUDIO_EXTENSION);
    assert p[..|dir|] == dir;
    assert p[|dir|..] == f;
  }

  lemma PlanFilesLayout(showname: string, tracks: seq<Track>, files: seq<FileTarget>)
    requires |files| == |tracks|
    requires forall k :: 0 <= k < |files| ==>
               files[k] == FileTarget(TrackPath(showname, k, tracks[k].name), tracks[k].url)
    ensures forall k :: 0 <= k < |files| ==> PlacedAt(files[k].path, showname, k, tracks[k].name)
    ensures forall k, l :: 0 <= k < l < |files| ==> files[k].path != files[l].path
  {
    forall k | 0 <= k < |files|
      ensures PlacedAt(files[k].path, showname, k, tracks[k].name)
    {
      TrackPathPlaced(showname, k, tracks[k].name);
    }
    forall k, l | 0 <= k < l < |files|
      ensures files[k].path != files[l].path
    {
      TrackPathsDistinct(showname, k, tracks[k].name, l, tracks[l].name);
    }
  }

  // ---------------------------------------------------------------------------
  // get_show
  // ---------------------------------------------------------------------------

  /** `get_show` with its requests answered by `site`: search for the show, follow the first
      usable result link, extract the tracks, and plan one directory named after the show with
      one numbered file per track. No usable link means no directory and no download. */
  function GetShow(site: Site, showname: string): (r: Result<ShowOutcome, NetworkError>)
    ensures var search := site.searchPage(site.listUrl + showname);
            r.Failure? <==>
              || search.Failure?
              || (FirstLink(search.value).Some?
                  && site.detailPage(site.archiveBase + FirstLink(search.value).value).Failure?)
    ensures var search := site.searchPage(site.listUrl + showname);
            r == Success(NoShowFound) <==>
              search.Success? && forall i :: 0 <= i < |search.value| ==> !IsUsableLink(search.value[i])
    ensures r.Success? && r.value.Planned? ==>
              var search := site.searchPage(site.listUrl + showname);
              && search.Success?
              && FirstLink(search.value).Some?
              && var detail := site.detailPage(site.archiveBase + FirstLink(search.value).value);
              && detail.Success?
              && var tracks := ExtractTracks(detail.value);
              && r.value.plan.directory == showname
              && |r.value.plan.files| == |tracks|
              && (forall k :: 0 <= k < |tracks| ==> r.value.plan.files[k].url == tracks[k].url)
              && forall k :: 0 <= k < |tracks| ==> PlacedAt(r.value.plan.files[k].path, showname, k, tracks[k].name)
  {
    match site.searchPage(site.listUrl + showname)
    case Failure(e) => Failure(e)
    case Success(links) =>
      match FirstLink(links)
      case None => Success(NoShowFound)
      case Some(href) =>
        match site.detailPage(site.archiveBase + href)
        case Failure(e) => Failure(e)
        case Success(elements) =>
          var tracks := ExtractTracks(elements);
          Success(Planned(DownloadPlan(showname, PlanFiles(showname, tracks))))
  }

  // ---------------------------------------------------------------------------
  // get_show: carrying out the plan
  // ---------------------------------------------------------------------------

  /** What the GET of one track url comes to: the request fails (the `?` aborts the show),
      the body cannot be read (reported, and the loop moves on), or the bytes arrive. */
  datatype TrackDownload = RequestFailed | BodyFailed | Fetched

  /** The files the download loop got bytes for, in order, and whether a failed request cut
      the loop short. Whether `fs::write` then succeeds is only reported, so it does not change
      what the loop does next. */
  datatype DownloadRun = DownloadRun(written: seq<FileTarget>, aborted: bool)

  /** Every file whose bytes arrived before the first failed request is among `written`. */
  predicate WritesFetchedBeforeAbort(files: seq<FileTarget>, download: string -> TrackDownload, written: seq<FileTarget>) {
    forall k :: 0 <= k < |files| && download(files[k].url) == Fetched
                && (forall j :: 0 <= j < k ==> download(files[j].url) != RequestFailed)
                ==> files[k] in written
  }

  /** The download loop of `get_show`, over the planned files in order. */
  function RunDownloads(files: seq<FileTarget>, download: string -> TrackDownload): (r: DownloadRun)
    ensures r.aborted <==> exists k :: 0 <= k < |files| && download(files[k].url) == RequestFailed
    ensures forall f :: f in r.written ==> f in files && download(f.url) == Fetched
    ensures IsSubsequence(r.written, files)
    ensures WritesFetchedBeforeAbort(files, download, r.written)
    ensures !r.aborted ==>
              forall k :: 0 <= k < |files| && download(files[k].url) == Fetched ==> files[k] in r.written
    decreases |files|
  {
    if |files| == 0 then DownloadRun([], false)
    else
      var rest := RunDownloads(files[1..], download);
      var r := (match download(files[0].url)
        case RequestFailed => DownloadRun([], true)
        case BodyFailed => rest
        case Fetched => DownloadRun([files[0]] + rest.written, rest.aborted));
      DownloadStep(files, download, rest, r);
      r
  }

  /** One turn of the download loop: what holds of the run over the remaining files carries
      over to the run that starts with the first file. */
  lemma DownloadStep(files: seq<FileTarget>, download: string -> TrackDownload, rest: DownloadRun, r: DownloadRun)
    requires |files| > 0
    requires rest.aborted <==> exists k :: 0 <= k < |files| - 1 && download(files[1..][k].url) == RequestFailed
    requires forall f :: f in rest.written ==> f in files[1..] && download(f.url) == Fetched
    requires IsSubsequence(rest.written, files[1..])
    requires WritesFetchedBeforeAbort(files[1..], download, rest.written)
    requires r == (match download(files[0].url)
                   case RequestFailed => DownloadRun([], true)
                   case BodyFailed => rest
                   case Fetched => DownloadRun([files[0]] + rest.written, rest.aborted))
    ensures r.aborted <==> exists k :: 0 <= k < |files| && download(files[k].url) == RequestFailed
    ensures forall f :: f in r.written ==> f in files && download(f.url) == Fetched
    ensures IsSubsequence(r.written, files)
    ensures WritesFetchedBeforeAbort(files, download, r.written)
  {
    RequestFailsStep(files, download);
    match download(files[0].url)
    case RequestFailed =>
      FailedFirstWritesNothing(files, download);
    case BodyFailed =>
      KeptWrites(files, download, rest.written, rest.written);
    case Fetched =>
      KeptWrites(files, download, rest.written, [files[0]] + rest.written);
  }

  /** A failed first request: the loop writes nothing, which is all it could have written. */
  lemma FailedFirstWritesNothing(files: seq<FileTarget>, download: string -> TrackDownload)
    requires |files| > 0 && download(files[0].url) == RequestFailed
    ensures IsSubsequence([], files)
    ensures WritesFetchedBeforeAbort(files, download, [])
  {
  }

  /** The first file is skipped (`written` is the rest's) or written in front of the rest's. */
  lemma KeptWrites(files: seq<FileTarget>, download: string -> TrackDownload, tailWritten: seq<FileTarget>, written: seq<FileTarget>)
    requires |files| > 0
    requires forall f :: f in tailWritten ==> f in files[1..] && download(f.url) == Fetched
    requires IsSubsequence(tailWritten, files[1..])
    requires WritesFetchedBeforeAbort(files[1..], download, tailWritten)
    requires || (download(files[0].url) == BodyFailed && written == tailWritten)
             || (download(files[0].url) == Fetched && written == [files[0]] + tailWritten)
    ensures forall f :: f in written ==> f in files && download(f.url) == Fetched
    ensures IsSubsequence(written, files)
    ensures WritesFetchedBeforeAbort(files, download, written)
  {
    var tail := files[1..];
    assert files == [files[0]] + tail;
    if download(files[0].url) == BodyFailed {
      SubsequenceExtendLeft(tailWritten, [files[0]], tail);
    } else {
      SubsequencePrepend(files[0], tailWritten, tail);
    }
    FetchedBeforeAbortStep(files, download, tailWritten, written);
  }

  /** A failed request occurs among the files exactly when it occurs at the first one or
      among the rest. */
  lemma RequestFailsStep(files: seq<FileTarget>, download: string -> TrackDownload)
    requires |files| > 0
    ensures (exists k :: 0 <= k < |files| && download(files[k].url) == RequestFailed) <==>
            download(files[0].url) == RequestFailed
            || exists k :: 0 <= k < |files| - 1 && download(files[1..][k].url) == RequestFailed
  {
    var tail := files[1..];
    if exists k :: 0 <= k < |files| && download(files[k].url) == RequestFailed {
      var k :| 0 <= k < |files| && download(files[k].url) == RequestFailed;
      if k > 0 {
        assert tail[k - 1] == files[k];
      }
    }
    if exists k :: 0 <= k < |files| - 1 && download(tail[k].url) == RequestFailed {
      var k :| 0 <= k < |files| - 1 && download(tail[k].url) == RequestFailed;
      assert files[k + 1] == tail[k];
    }
  }

  lemma FetchedBeforeAbortStep(files: seq<FileTarget>, download: string -> TrackDownload, tailWritten: seq<FileTarget>, written: seq<FileTarget>)
    requires |files| > 0 && download(files[0].url) != RequestFailed
    requires WritesFetchedBeforeAbort(files[1..], download, tailWritten)
    requires forall f :: f in tailWritten ==> f in written
    requires download(files[0].url) == Fetched ==> files[0] in written
    ensures WritesFetchedBeforeAbort(files, download, written)
  {
    var tail := files[1..];
    forall k | 0 <= k < |files| && download(files[k].url) == Fetched
               && (forall j :: 0 <= j < k ==> download(files[j].url) != RequestFailed)
      ensures files[k] in written
    {
      if k > 0 {
        assert tail[k - 1] == files[k];
        assert forall j :: 0 <= j < k - 1 ==> download(tail[j].url) != RequestFailed by {
          assert forall j :: 0 <= j < k - 1 ==> tail[j] == files[j + 1];
        }
      }
    }
  }

  /** Nothing at or after the first failed request is written. */
  lemma {:induction false} AbortStopsDownloads(files: seq<FileTarget>, download: string -> TrackDownload, k: nat)
    requires k < |files| && download(files[k].url) == RequestFailed
    ensures forall f :: f in RunDownloads(files, download).written ==> f in files[..k]
    decreases k
  {
    if download(files[0].url) != RequestFailed {
      var tail := files[1..];
      assert k > 0 && tail[k - 1] == files[k];
      AbortStopsDownloads(tail, download, k - 1);
      assert tail[..k - 1] == files[1..k];
      assert forall f :: f in files[1..k] ==> f in files[..k];
    }
  }

  /** Nothing at or after a failed request is among `written`: the `?` ends the loop there. */
  predicate StopsAtFailedRequest(files: seq<FileTarget>, download: string -> TrackDownload, written: seq<FileTarget>) {
    forall k :: 0 <= k < |files| && download(files[k].url) == RequestFailed ==>
      forall f :: f in written ==> f in files[..k]
  }

  /** What one call of `get_show` did: the value it returned, the files whose bytes arrived and
      were passed to `fs::write`, in order, and whether its `fs::create_dir` succeeded. A show
      that fails part-way keeps both the files handed to `fs::write` before the failure and its
      directory. */
  datatype ShowRun = ShowRun(outcome: Result<(), NetworkError>, written: seq<FileTarget>, createdDirectory: bool)

  /** The side of `get_show` that touches the disk, given the plan: when the directory cannot
      be created nothing is downloaded and the show still succeeds; otherwise the download
      loop runs, and a failed track request makes the show fail. */
  function RunPlan(plan: DownloadPlan, directoryCreated: bool, download: string -> TrackDownload): (r: ShowRun)
    ensures !directoryCreated ==> r == ShowRun(Success(()), [], false)
    ensures r.createdDirectory == directoryCreated
    ensures r.outcome.Failure? <==>
              directoryCreated
              && exists k :: 0 <= k < |plan.files| && download(plan.files[k].url) == RequestFailed
    ensures IsSubsequence(r.written, plan.files)
    ensures forall f :: f in r.written ==> download(f.url) == Fetched
    ensures directoryCreated ==> WritesFetchedBeforeAbort(plan.files, download, r.written)
    ensures directoryCreated ==> StopsAtFailedRequest(plan.files, download, r.written)
    ensures directoryCreated && r.outcome.Success? ==>
              forall f :: f in plan.files && download(f.url) == Fetched ==> f in r.written
  {
    if !directoryCreated then ShowRun(Success(()), [], false)
    else
      var run := RunDownloads(plan.files, download);
      assert StopsAtFailedRequest(plan.files, download, run.written) by {
        forall k | 0 <= k < |plan.files| && download(plan.files[k].url) == RequestFailed
          ensures forall f :: f in run.written ==> f in plan.files[..k]
        {
          AbortStopsDownloads(plan.files, download, k);
        }
      }
      ShowRun(if run.aborted then Failure(NetworkError) else Success(()), run.written, true)
  }

  /** The machine the program runs on, as it is before the run starts: whether
      `fs::create_dir` succeeds for a show name, and what the GET of each track url comes to. */
  datatype Host = Host(created: string -> bool, download: string -> TrackDownload)

  /** `fs::create_dir(showname)` succeeds: the host allows it and this run has not already
      created that directory. */
  predicate Creatable(host: Host, made: set<string>, showname: string) {
    showname !in made && host.created(showname)
  }

  /** `get_show` finds the show and plans its download. */
  predicate FindsShow(site: Site, showname: string) {
    GetShow(site, showname).Success? && GetShow(site, showname).value.Planned?
  }

  /** The whole of `get_show`, called after the run has created the directories in `made`: plan
      the show, then, when there is a plan, create its directory and run the download loop. */
  function FetchShow(site: Site, host: Host, made: set<string>, showname: string): (r: ShowRun)
    ensures var search := site.searchPage(site.listUrl + showname);
            r.outcome.Failure? <==>
              || search.Failure?
              || (FirstLink(search.value).Some?
                  && var detail := site.detailPage(site.archiveBase + FirstLink(search.value).value);
                  || detail.Failure?
                  || (Creatable(host, made, showname)
                      && SomeRequestFails(ExtractTracks(detail.value), host.download)))
    ensures r.createdDirectory <==> FindsShow(site, showname) && Creatable(host, made, showname)
    ensures GetShow(site, showname) == Success(NoShowFound) ==> r == ShowRun(Success(()), [], false)
    ensures !(FindsShow(site, showname) && Creatable(host, made, showname)) ==> r.written == []
    ensures forall f :: f in r.written ==> host.download(f.url) == Fetched
    ensures FindsShow(site, showname) ==>
              var files := GetShow(site, showname).value.plan.files;
              && IsSubsequence(r.written, files)
              && (Creatable(host, made, showname) ==> WritesFetchedBeforeAbort(files, host.download, r.written))
              && (Creatable(host, made, showname) ==> StopsAtFailedRequest(files, host.download, r.written))
              && (Creatable(host, made, showname) && r.outcome.Success? ==>
                    forall f :: f in files && host.download(f.url) == Fetched ==> f in r.written)
  {
    match GetShow(site, showname)
    case Failure(e) => ShowRun(Failure(e), [], false)
    case Success(NoShowFound) => ShowRun(Success(()), [], false)
    case Success(Planned(plan)) =>
      var search := site.searchPage(site.listUrl + showname);
      var detail := site.detailPage(site.archiveBase + FirstLink(search.value).value);
      PlanRequestFails(plan, ExtractTracks(detail.value), host.download);
      RunPlan(plan, Creatable(host, made, showname), host.download)
  }

  /** Only whether the show's own name is among `made` matters: for a name the run has not
      created yet, `get_show` behaves as it would on the untouched host. */
  lemma FetchShowFreshName(site: Site, host: Host, made: set<string>, showname: string)
    requires showname !in made
    ensures FetchShow(site, host, made, showname) == FetchShow(site, host, {}, showname)
  {
  }

  /** Some track's GET request fails. */
  predicate SomeRequestFails(tracks: seq<Track>, download: string -> TrackDownload) {
    exists k :: 0 <= k < |tracks| && download(tracks[k].url) == RequestFailed
  }

  /** A plan whose files carry the tracks' urls in order meets a failed request exactly when the
      tracks do. */
  lemma PlanRequestFails(plan: DownloadPlan, tracks: seq<Track>, download: string -> TrackDownload)
    requires |plan.files| == |tracks|
    requires forall k :: 0 <= k < |tracks| ==> plan.files[k].url == tracks[k].url
    ensures (exists k :: 0 <= k < |plan.files| && download(plan.files[k].url) == RequestFailed)
            <==> SomeRequestFails(tracks, download)
  {
    if SomeRequestFails(tracks, download) {
      var k :| 0 <= k < |tracks| && download(tracks[k].url) == RequestFailed;
      assert download(plan.files[k].url) == RequestFailed;
    }
  }

  // ---------------------------------------------------------------------------
  // get_all_shows and get_slice_shows
  // ---------------------------------------------------------------------------

  /** The directories a batch has created after calling `get_show` on each of `shows` in turn. */
  function DirectoriesMade(site: Site, host: Host, shows: seq<string>): set<string>
    decreases |shows|
  {
    if |shows| == 0 then {}
    else
      var made := DirectoriesMade(site, host, shows[..|shows| - 1]);
      var show := shows[|shows| - 1];
      if FindsShow(site, show) && Creatable(host, made, show) then made + {show} else made
  }

  /** A batch has created a show's directory exactly when it has tried that show, found it,
      and the host allowed the directory: the first such call creates it, later ones find it
      already there. */
  lemma {:induction false} DirectoriesMadeSpec(site: Site, host: Host, shows: seq<string>, name: string)
    ensures name in DirectoriesMade(site, host, shows) <==>
              name in shows && FindsShow(site, name) && host.created(name)
    decreases |shows|
  {
    if |shows| > 0 {
      var prefix := shows[..|shows| - 1];
      DirectoriesMadeSpec(site, host, prefix, name);
      assert shows == prefix + [shows[|shows| - 1]];
    }
  }

  /** One report per show, in order, each holding what `get_show` did for that show given the
      directories the earlier shows of the batch created. An error on one show does not stop
      the batch. */
  predicate ReportsFor(site: Site, host: Host, shows: seq<string>, reports: seq<ShowReport>) {
    && |reports| == |shows|
    && forall k :: 0 <= k < |reports| ==>
         reports[k] == ShowReport(shows[k], FetchShow(site, host, DirectoriesMade(site, host, shows[..k]), shows[k]))
  }

  /** One more show tried: its report joins the list, and its directory joins the set when
      `get_show` created it. */
  lemma ReportsForAppend(site: Site, host: Host, shows: seq<string>, reports: seq<ShowReport>, show: string)
    requires ReportsFor(site, host, shows, reports)
    ensures var made := DirectoriesMade(site, host, shows);
            var run := FetchShow(site, host, made, show);
            && ReportsFor(site, host, shows + [show], reports + [ShowReport(show, run)])
            && DirectoriesMade(site, host, shows + [show]) == if run.createdDirectory then made + {show} else made
  {
    var s := shows + [show];
    assert s[..|shows|] == shows;
    assert forall k :: 0 <= k < |shows| ==> s[..k] == shows[..k];
  }

  /** The first time a batch tries a show, `get_show` does what it would do on its own. */
  lemma FirstTryRunsAlone(site: Site, host: Host, shows: seq<string>, reports: seq<ShowReport>, k: nat)
    requires ReportsFor(site, host, shows, reports)
    requires k < |shows| && shows[k] !in shows[..k]
    ensures reports[k].run == FetchShow(site, host, {}, shows[k])
  {
    DirectoriesMadeSpec(site, host, shows[..k], shows[k]);
    FetchShowFreshName(site, host, DirectoriesMade(site, host, shows[..k]), shows[k]);
  }

  /** A show the batch has already downloaded into a new directory is tried again to no effect:
      `create_dir` fails because the directory exists, so nothing is written and `get_show`
      returns `Ok`. */
  lemma RepeatedShowWritesNothing(site: Site, host: Host, shows: seq<string>, reports: seq<ShowReport>, i: nat, j: nat)
    requires ReportsFor(site, host, shows, reports)
    requires i < j < |shows| && shows[i] == shows[j]
    requires FindsShow(site, shows[i]) && host.created(shows[i])
    ensures reports[j].run == ShowRun(Success(()), [], false)
  {
    var prefix := shows[..j];
    assert prefix[i] == shows[j];
    DirectoriesMadeSpec(site, host, prefix, shows[j]);
  }

  /** One iteration of either batch loop: call `get_show` on `show`, report what it did, and
      remember its directory if it created one. */
  method TryShow(site: Site, host: Host, ghost tried: seq<string>, reports: seq<ShowReport>, made: set<string>, show: string)
    returns (reports': seq<ShowReport>, made': set<string>)
    requires made == DirectoriesMade(site, host, tried)
    requires ReportsFor(site, host, tried, reports)
    ensures made' == DirectoriesMade(site, host, tried + [show])
    ensures ReportsFor(site, host, tried + [show], reports')
  {
    ReportsForAppend(site, host, tried, reports, show);
    var run := FetchShow(site, host, made, show);
    reports' := reports + [ShowReport(show, run)];
    made' := if run.createdDirectory then made + {show} else made;
  }

  /** The loop of `get_all_shows` over a listing: try every show, in order. */
  method AllReports(site: Site, host: Host, shows: seq<string>) returns (reports: seq<ShowReport>)
    ensures ReportsFor(site, host, shows, reports)
  {
    reports := [];
    var made: set<string> := {};
    ghost var tried: seq<string> := [];
    var i := 0;
    while i < |shows|
      invariant i <= |shows| && tried == shows[..i]
      invariant made == DirectoriesMade(site, host, tried)
      invariant ReportsFor(site, host, tried, reports)
    {
      reports, made := TryShow(site, host, tried, reports, made, shows[i]);
      tried := tried + [shows[i]];
      assert tried == shows[..i + 1];
      i := i + 1;
    }
    assert tried == shows;
  }

  /** `get_all_shows`: list everything, then try every show in listing order. */
  method GetAllShows(site: Site, host: Host) returns (r: Result<seq<ShowReport>, NetworkError>)
    ensures r.Success? <==> ListingAvailable(site)
    ensures r.Success? ==> ReportsFor(site, host, ListedShows(site), r.value)
  {
    var listing := ListShows(site);
    if listing.Failure? {
      return Failure(listing.error);
    }
    var reports := AllReports(site, host, listing.value);
    return Success(reports);
  }

  /** The state of the slice loop after some prefix of the listing: the shows fetched so far
      and whether the loop is inside the slice. */
  datatype SliceState = SliceState(selected: seq<string>, inside: bool)

  /** The loop of `get_slice_shows` as a fold: the flag goes on when a show equals `start`
      (even after `end` has been seen), the show is fetched while the flag is on, and the flag
      goes off after a show equals `end`. */
  function SliceScan(shows: seq<string>, start: string, end: string): SliceState
    decreases |shows|
  {
    if |shows| == 0 then SliceState([], false)
    else
      var st := SliceScan(shows[..|shows| - 1], start, end);
      var show := shows[|shows| - 1];
      var inside := st.inside || show == start;
      SliceState(st.selected + (if inside then [show] else []), inside && show != end)
  }

  /** One step of the fold, stated on prefixes of a fixed listing. */
  lemma SliceScanStep(shows: seq<string>, start: string, end: string, i: nat)
    requires i < |shows|
    ensures var st, next := SliceScan(shows[..i], start, end), SliceScan(shows[..i + 1], start, end);
            var inside := st.inside || shows[i] == start;
            && next.selected == st.selected + (if inside then [shows[i]] else [])
            && next.inside == (inside && shows[i] != end)
  {
    assert shows[..i + 1][..i] == shows[..i];
  }

  /** Inside the slice, a show other than `end` is fetched and the flag stays on. */
  lemma SliceScanOpenStep(shows: seq<string>, start: string, end: string, i: nat, selected: seq<string>)
    requires i < |shows| && shows[i] != end
    requires SliceScan(shows[..i], start, end) == SliceState(selected, true)
    ensures SliceScan(shows[..i + 1], start, end) == SliceState(selected + [shows[i]], true)
  {
    SliceScanStep(shows, start, end, i);
  }

  /** The shows `get_slice_shows` fetches, in order. */
  function SelectSlice(shows: seq<string>, start: string, end: string): seq<string> {
    SliceScan(shows, start, end).selected
  }

  /** The fetched shows form an in-order subsequence of the listing. */
  lemma {:induction false} SelectSliceKeepsOrder(shows: seq<string>, start: string, end: string)
    ensures IsSubsequence(SelectSlice(shows, start, end), shows)
    decreases |shows|
  {
    if |shows| > 0 {
      var prefix, show := shows[..|shows| - 1], shows[|shows| - 1];
      var sel := SelectSlice(prefix, start, end);
      SelectSliceKeepsOrder(prefix, start, end);
      assert prefix + [show] == shows;
      if SelectSlice(shows, start, end) == sel {
        SubsequenceExtendRight(sel, prefix, [show]);
      } else {
        var r := sel + [show];
        assert SelectSlice(shows, start, end) == r;
        assert r[..|r| - 1] == sel;
      }
    }
  }

  /** Independent description of the flag after the first `n` shows: some position before `n`
      holds `start`, and no position from there on (below `n`) holds `end`. */
  predicate OpenAfter(shows: seq<string>, start: string, end: string, n: nat)
    requires n <= |shows|
  {
    exists j :: 0 <= j < n && shows[j] == start && forall k :: j <= k < n ==> shows[k] != end
  }

  /** Independent description of the slice: the show at position `i` is fetched iff some
      position `j <= i` holds `start` and no position from `j` up to, not including, `i`
      holds `end`. */
  predicate InSlice(shows: seq<string>, start: string, end: string, i: nat)
    requires i < |shows|
  {
    exists j :: 0 <= j <= i && shows[j] == start && forall k :: j <= k < i ==> shows[k] != end
  }

  /** The listing restricted to the positions `InSlice` admits, in order. */
  function SliceByPosition(shows: seq<string>, start: string, end: string, n: nat): seq<string>
    requires n <= |shows|
    decreases n
  {
    if n == 0 then []
    else SliceByPosition(shows, start, end, n - 1)
         + (if InSlice(shows, start, end, n - 1) then [shows[n - 1]] else [])
  }

  lemma InSliceIsOpenOrStart(shows: seq<string>, start: string, end: string, i: nat)
    requires i < |shows|
    ensures InSlice(shows, start, end, i) <==> OpenAfter(shows, start, end, i) || shows[i] == start
  {
    if InSlice(shows, start, end, i) && shows[i] != start {
      var j :| 0 <= j <= i && shows[j] == start && forall k :: j <= k < i ==> shows[k] != end;
      assert j < i;
    }
  }

  lemma OpenAfterStep(shows: seq<string>, start: string, end: string, n: nat)
    requires n < |shows|
    ensures OpenAfter(shows, start, end, n + 1) <==>
              (OpenAfter(shows, start, end, n) || shows[n] == start) && shows[n] != end
  {
    var before, after := OpenAfter(shows, start, end, n), OpenAfter(shows, start, end, n + 1);
    assert after ==> (before || shows[n] == start) && shows[n] != end by {
      if after {
        var j :| 0 <= j < n + 1 && shows[j] == start && forall k :: j <= k < n + 1 ==> shows[k] != end;
        assert shows[n] != end;
        if j < n {
          assert forall k :: j <= k < n ==> shows[k] != end;
        }
      }
    }
    assert before && shows[n] != end ==> after by {
      if before && shows[n] != end {
        var j :| 0 <= j < n && shows[j] == start && forall k :: j <= k < n ==> shows[k] != end;
        assert forall k :: j <= k < n + 1 ==> shows[k] != end;
      }
    }
    assert shows[n] == start && shows[n] != end ==> after by {
      if shows[n] == start && shows[n] != end {
        assert forall k :: n <= k < n + 1 ==> shows[k] != end;
      }
    }
  }

  /** The flag fold agrees with the position-wise description on every prefix. */
  lemma {:induction false} SliceScanPrefix(shows: seq<string>, start: string, end: string, n: nat)
    requires n <= |shows|
    ensures SliceScan(shows[..n], start, end).inside <==> OpenAfter(shows, start, end, n)
    ensures SliceScan(shows[..n], start, end).selected == SliceByPosition(shows, start, end, n)
    decreases n
  {
    if n > 0 {
      SliceScanPrefix(shows, start, end, n - 1);
      SliceScanStep(shows, start, end, n - 1);
      InSliceIsOpenOrStart(shows, start, end, n - 1);
      OpenAfterStep(shows, start, end, n - 1);
      var inside := SliceScan(shows[..n - 1], start, end).inside || shows[n - 1] == start;
      assert inside == InSlice(shows, start, end, n - 1);
    } else {
      assert shows[..0] == [];
    }
  }

  /** The flag-based selection fetches exactly the shows the position-wise description admits. */
  lemma SliceMatchesPositions(shows: seq<string>, start: string, end: string)
    ensures SelectSlice(shows, start, end) == SliceByPosition(shows, start, end, |shows|)
  {
    SliceScanPrefix(shows, start, end, |shows|);
    assert shows[..|shows|] == shows;
  }

  /** No position in `[lo, hi)` holds `x`. */
  predicate Avoids(shows: seq<string>, x: string, lo: nat, hi: nat)
    requires lo <= hi <= |shows|
  {
    forall k :: lo <= k < hi ==> shows[k] != x
  }

  /** Nothing before the first `start` is fetched. */
  lemma {:induction false} SliceBeforeStart(shows: seq<string>, start: string, end: string, n: nat)
    requires n <= |shows| && Avoids(shows, start, 0, n)
    ensures SliceScan(shows[..n], start, end) == SliceState([], false)
    decreases n
  {
    if n > 0 {
      SliceBeforeStart(shows, start, end, n - 1);
      SliceScanStep(shows, start, end, n - 1);
    } else {
      assert shows[..0] == [];
    }
  }

  /** A `start` that is not listed fetches nothing. */
  lemma SliceStartAbsent(shows: seq<string>, start: string, end: string)
    requires start !in shows
    ensures SelectSlice(shows, start, end) == []
  {
    SliceBeforeStart(shows, start, end, |shows|);
    assert shows[..|shows|] == shows;
  }

  /** The first `start` is fetched, and the flag stays on unless it is also `end`. */
  lemma SliceOpensAtStart(shows: seq<string>, start: string, end: string, j: nat)
    requires j < |shows| && shows[j] == start && Avoids(shows, start, 0, j)
    ensures SliceScan(shows[..j + 1], start, end) == SliceState([shows[j]], shows[j] != end)
  {
    SliceBeforeStart(shows, start, end, j);
    SliceScanStep(shows, start, end, j);
  }

  /** From the first `start` on, while no `end` has been seen, every show is fetched. */
  lemma {:induction false} SliceFromStart(shows: seq<string>, start: string, end: string, j: nat, n: nat)
    requires j < n <= |shows|
    requires shows[j] == start && Avoids(shows, start, 0, j)
    requires Avoids(shows, end, j, n)
    ensures SliceScan(shows[..n], start, end) == SliceState(shows[j..n], true)
    decreases n
  {
    if n - 1 == j {
      SliceOpensAtStart(shows, start, end, j);
      assert shows[j..n] == [shows[j]];
    } else {
      assert Avoids(shows, end, j, n - 1) && shows[n - 1] != end;
      SliceFromStart(shows, start, end, j, n - 1);
      SliceScanOpenStep(shows, start, end, n - 1, shows[j..n - 1]);
      assert shows[j..n - 1] + [shows[n - 1]] == shows[j..n];
    }
  }

  /** With no `end` at or after the first `start`, fetching runs to the end of the listing. */
  lemma SliceRunsToEnd(shows: seq<string>, start: string, end: string, j: nat)
    requires j < |shows| && shows[j] == start && Avoids(shows, start, 0, j)
    requires Avoids(shows, end, j, |shows|)
    ensures SelectSlice(shows, start, end) == shows[j..]
  {
    SliceFromStart(shows, start, end, j, |shows|);
    assert shows[..|shows|] == shows;
  }

  /** The slice closes at the first `end` at or after the first `start`, that show included. */
  lemma SliceClosesAtEnd(shows: seq<string>, start: string, end: string, j: nat, e: nat)
    requires j <= e < |shows|
    requires shows[j] == start && Avoids(shows, start, 0, j)
    requires shows[e] == end && Avoids(shows, end, j, e)
    ensures SliceScan(shows[..e + 1], start, end) == SliceState(shows[j..e + 1], false)
  {
    SliceScanStep(shows, start, end, e);
    if e == j {
      SliceBeforeStart(shows, start, end, j);
      assert shows[j..e + 1] == [shows[j]];
    } else {
      SliceFromStart(shows, start, end, j, e);
      assert shows[j..e] + [shows[e]] == shows[j..e + 1];
    }
  }

  /** After the slice closes at `end`, nothing more is fetched unless `start` appears again. */
  lemma {:induction false} SliceAfterEnd(shows: seq<string>, start: string, end: string, j: nat, e: nat, n: nat)
    requires j <= e < n <= |shows|
    requires shows[j] == start && Avoids(shows, start, 0, j)
    requires shows[e] == end && Avoids(shows, end, j, e)
    requires Avoids(shows, start, e + 1, n)
    ensures SliceScan(shows[..n], start, end) == SliceState(shows[j..e + 1], false)
    decreases n
  {
    if n - 1 > e {
      SliceAfterEnd(shows, start, end, j, e, n - 1);
      SliceScanStep(shows, start, end, n - 1);
    } else {
      SliceClosesAtEnd(shows, start, end, j, e);
    }
  }

  /** The usual case: the first `start`, then the first `end` at or after it, and no `start`
      after that: exactly the shows from `start` through `end`, both included. */
  lemma SliceBetween(shows: seq<string>, start: string, end: string, j: nat, e: nat)
    requires j <= e < |shows|
    requires shows[j] == start && Avoids(shows, start, 0, j)
    requires shows[e] == end && Avoids(shows, end, j, e)
    requires Avoids(shows, start, e + 1, |shows|)
    ensures SelectSlice(shows, start, end) == shows[j..e + 1]
  {
    SliceAfterEnd(shows, start, end, j, e, |shows|);
    assert shows[..|shows|] == shows;
  }

  /** A slice from the first listed show to a name that is not listed covers the whole
      listing, which is what `get_all_shows` fetches. */
  lemma SliceFromFirstIsAll(shows: seq<string>, end: string)
    requires |shows| > 0 && end !in shows
    ensures SelectSlice(shows, shows[0], end) == shows
  {
    assert forall k :: 0 <= k < |shows| ==> shows[k] in shows;
    SliceRunsToEnd(shows, shows[0], end, 0);
    assert shows[0..] == shows;
  }

  /** The flag loop of `get_slice_shows` over a listing: try every show inside the slice, in order. */
  method SliceReports(site: Site, host: Host, shows: seq<string>, start: string, end: string)
    returns (reports: seq<ShowReport>)
    ensures ReportsFor(site, host, SelectSlice(shows, start, end), reports)
  {
    reports := [];
    var made: set<string> := {};
    var insideSlice := false;
    ghost var selected: seq<string> := [];
    var i := 0;
    while i < |shows|
      invariant i <= |shows|
      invariant SliceScan(shows[..i], start, end) == SliceState(selected, insideSlice)
      invariant made == DirectoriesMade(site, host, selected)
      invariant ReportsFor(site, host, selected, reports)
    {
      var show := shows[i];
      SliceScanStep(shows, start, end, i);
      if show == start {
        insideSlice := true;
      }
      if insideSlice {
        reports, made := TryShow(site, host, selected, reports, made, show);
        selected := selected + [show];
      }
      if show == end {
        insideSlice := false;
      }
      i := i + 1;
    }
    assert shows[..i] == shows;
  }

  /** `get_slice_shows`: list everything, then run the flag loop over the listing. */
  method GetSliceShows(site: Site, host: Host, start: string, end: string) returns (r: Result<seq<ShowReport>, NetworkError>)
    ensures r.Success? <==> ListingAvailable(site)
    ensures r.Success? ==> ReportsFor(site, host, SelectSlice(ListedShows(site), start, end), r.value)
  {
    var listing := ListShows(site);
    if listing.Failure? {
      return Failure(listing.error);
    }
    var reports := SliceReports(site, host, listing.value, start, end);
    return Success(reports);
  }
}
