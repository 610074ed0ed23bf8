/** Worked instances of the listing, resolution, naming and slice rules. */
module OperationsExamples {
  import opened Wrappers
  import opened Text
  import opened Operations

  /** Runs collapse within a page; a title repeated later on survives. */
  lemma DedupExample()
    ensures Dedup(["x", "x", "y", "x"]) == ["x", "y", "x"]
  {
    var s := ["x", "x", "y", "x"];
    assert s[..3][..2] == ["x", "x"];
    assert s[..3] == ["x", "x", "y"];
    assert Dedup(["x", "x"]) == ["x"] by {
      assert ["x", "x"][..1] == ["x"];
    }
    assert Dedup(["x", "x", "y"]) == ["x", "y"] by {
      assert ["x", "x", "y"][..2] == ["x", "x"];
    }
  }

  /** A link without `href`, and one whose `href` is the sentinel, are both skipped. */
  lemma FirstLinkExample()
    ensures FirstLink([None, Some("nothing"), Some("/details/gd1977"), Some("/details/other")])
            == Some("/details/gd1977")
  {
    var links := [None, Some("nothing"), Some("/details/gd1977"), Some("/details/other")];
    var r := FirstLink(links);
    assert !IsUsableLink(links[0]) && !IsUsableLink(links[1]);
    assert IsUsableLink(links[2]);
    var i :| 0 <= i < |links| && links[i] == r && IsUsableLink(links[i])
             && forall j :: 0 <= j < i ==> !IsUsableLink(links[j]);
    assert i == 2;
  }

  /** The last `meta` carrying a `content` attribute names the track. */
  lemma LastNameWins()
    ensures ScanAttr([Some("Intro"), None, Some("Sugaree"), None], SENTINEL) == "Sugaree"
  {
    ScanAttrLastWins([Some("Intro"), None, Some("Sugaree"), None], SENTINEL);
  }

  /** A track element with no name attribute at all keeps the sentinel, and is filtered out. */
  lemma UnnamedTrackDropped(hrefs: seq<Option<string>>)
    ensures !IsAudioTrack(ResolveTrack(TrackElement([None, None], hrefs)))
  {
    ScanAttrLastWins([None, None], SENTINEL);
  }

  /** The third track is numbered "03", the eleventh "11". */
  lemma TrackNumberExamples()
    ensures TrackNumber(2) == "03"
    ensures TrackNumber(10) == "11"
  {
    assert Decimal(3) == "3";
    assert Decimal(11) == Decimal(1) + [DigitChar(1)];
  }

  /** From `start` through `end`, both included. */
  lemma SliceExampleBetween()
    ensures SelectSlice(["A", "B", "C", "D", "E"], "B", "D") == ["B", "C", "D"]
  {
    var s := ["A", "B", "C", "D", "E"];
    SliceBetween(s, "B", "D", 1, 3);
    assert s[1..4] == ["B", "C", "D"];
  }

  /** `start == end`: the single show. */
  lemma SliceExampleSingle()
    ensures SelectSlice(["A", "B", "C", "D", "E"], "B", "B") == ["B"]
  {
    var s := ["A", "B", "C", "D", "E"];
    SliceBetween(s, "B", "B", 1, 1);
    assert s[1..2] == ["B"];
  }

  /** A `start` that is not listed fetches nothing. */
  lemma SliceExampleAbsentStart()
    ensures SelectSlice(["A", "B", "C", "D", "E"], "Z", "D") == []
  {
    SliceStartAbsent(["A", "B", "C", "D", "E"], "Z", "D");
  }

  /** With no `end` after `start`, fetching runs to the end of the listing: whether `end` is
      not listed at all, or listed only before `start` (the flag never goes off). */
  lemma SliceExampleNoEndAfterStart()
    ensures SelectSlice(["A", "B", "C", "D", "E"], "C", "Z") == ["C", "D", "E"]
    ensures SelectSlice(["A", "B", "C", "D", "E"], "C", "A") == ["C", "D", "E"]
  {
    var s := ["A", "B", "C", "D", "E"];
    SliceRunsToEnd(s, "C", "Z", 2);
    SliceRunsToEnd(s, "C", "A", 2);
    assert s[2..] == ["C", "D", "E"];
  }

  /** A second `start` after `end` opens the slice again. */
  lemma SliceExampleRestart()
    ensures SelectSlice(["A", "B", "C", "A", "D"], "A", "B") == ["A", "B", "A", "D"]
  {
    var s := ["A", "B", "C", "A", "D"];
    SliceAfterEnd(s, "A", "B", 0, 1, 3);
    assert s[0..2] == ["A", "B"];
    SliceScanStep(s, "A", "B", 3);
    SliceScanStep(s, "A", "B", 4);
    assert s[..5] == s;
  }
}
