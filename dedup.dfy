/**
 * The duplicate filter of the BVSMS scraper: of the records collected over
 * all years and search terms it keeps, in order, the first record for each
 * non-empty `url_html`, and drops every record without one.
 */
module BvsmsScraper {
  import opened Wrappers
  import opened Sequences
  import opened Norms

  /**
   * A scraped record: `url_html` read with `get` (absent and `None` alike give
   * `None`), and the other keys it carries, which the filter passes through.
   */
  datatype Scraped = Scraped(urlHtml: Option<string>, rest: map<string, Option<string>>)

  /** The urls already met by the filter: those of the records it kept. */
  function SeenUrls(kept: seq<Scraped>): set<string>
  {
    set r | r in kept && r.urlHtml.Some? :: r.urlHtml.value
  }

  /** The records the filter keeps, stated over growing prefixes of the input. */
  function Dedup(results: seq<Scraped>): (kept: seq<Scraped>)
    ensures forall r :: r in kept ==> Truthy(r.urlHtml)
    ensures forall i, j :: 0 <= i < j < |kept| ==> kept[i].urlHtml != kept[j].urlHtml
  {
    if results == [] then []
    else
      var kept := Dedup(Init(results));
      var url := Last(results).urlHtml;
      if Truthy(url) && url.value !in SeenUrls(kept) then
        assert forall i :: 0 <= i < |kept| ==> kept[i].urlHtml != url by {
          forall i | 0 <= i < |kept| ensures kept[i].urlHtml != url {
            assert kept[i] in kept;
          }
        }
        kept + [Last(results)]
      else kept
  }

  /** `_deduplicate_results`: one pass with a set of the urls seen so far. */
  method DeduplicateResults(results: seq<Scraped>) returns (unique: seq<Scraped>)
    ensures unique == Dedup(results)
  {
    var seenUrls: set<string> := {};
    unique := [];
    for i := 0 to |results|
      invariant unique == Dedup(results[..i])
      invariant seenUrls == SeenUrls(unique)
    {
      assert Init(results[..i + 1]) == results[..i];
      var url := results[i].urlHtml;
      if Truthy(url) && url.value !in seenUrls {
        seenUrls := seenUrls + {url.value};
        unique := unique + [results[i]];
      }
    }
    assert results[..|results|] == results;
  }

  // ---------------------------------------------------------------------------
  // An independent description: the first occurrence of every non-empty url

  /** `results[i]` has a non-empty url that no earlier record has. */
  ghost predicate IsFirst(results: seq<Scraped>, i: int)
    requires 0 <= i < |results|
  {
    Truthy(results[i].urlHtml) && forall j :: 0 <= j < i ==> results[j].urlHtml != results[i].urlHtml
  }

  /** The positions of the first occurrences, in increasing order. */
  ghost function FirstIndices(results: seq<Scraped>): (idx: seq<int>)
    ensures forall k :: 0 <= k < |idx| ==> 0 <= idx[k] < |results| && IsFirst(results, idx[k])
    ensures forall k, l :: 0 <= k < l < |idx| ==> idx[k] < idx[l]
  {
    if results == [] then []
    else
      var idx := FirstIndices(Init(results));
      var i := |results| - 1;
      assert forall k :: 0 <= k < |idx| ==> IsFirst(results, idx[k]) by {
        forall k | 0 <= k < |idx| ensures IsFirst(results, idx[k]) {
          assert IsFirst(Init(results), idx[k]);
        }
      }
      if IsFirst(results, i) then
        assert forall k :: 0 <= k < |idx| ==> idx[k] < i;
        idx + [i]
      else idx
  }

  /** Every first occurrence is listed. */
  lemma {:induction false} FirstIndicesComplete(results: seq<Scraped>)
    ensures forall i :: 0 <= i < |results| && IsFirst(results, i) ==> i in FirstIndices(results)
  {
    if results != [] {
      var init := Init(results);
      FirstIndicesComplete(init);
      forall j | 0 <= j < |init| && IsFirst(results, j) ensures j in FirstIndices(results) {
        assert IsFirst(init, j);
      }
    }
  }

  /** The urls met so far are exactly the non-empty urls of the input. */
  lemma {:induction false} SeenUrlsOfDedup(results: seq<Scraped>)
    ensures forall u :: u in SeenUrls(Dedup(results)) <==>
      u != "" && exists i :: 0 <= i < |results| && results[i].urlHtml == Some(u)
  {
    if results != [] {
      var init := Init(results);
      SeenUrlsOfDedup(init);
      var kept := Dedup(init);
      forall u ensures u in SeenUrls(Dedup(results)) <==>
        u != "" && exists i :: 0 <= i < |results| && results[i].urlHtml == Some(u)
      {
        if exists i :: 0 <= i < |init| && init[i].urlHtml == Some(u) {
          var i :| 0 <= i < |init| && init[i].urlHtml == Some(u);
          assert results[i] == init[i];
        }
        if exists i :: 0 <= i < |results| && results[i].urlHtml == Some(u) {
          var i :| 0 <= i < |results| && results[i].urlHtml == Some(u);
          if i < |init| {
            assert init[i] == results[i];
          }
        }
        if u in SeenUrls(Dedup(results)) {
          var r :| r in Dedup(results) && r.urlHtml == Some(u);
          assert Truthy(r.urlHtml);
          if r !in kept {
            assert r == Last(results) && results[|results| - 1] == r;
          } else {
            assert u in SeenUrls(kept);
          }
        }
      }
    }
  }

  /**
   * The filter keeps exactly the first occurrences, in input order: its output
   * is the input read at `FirstIndices`.
   */
  lemma {:induction false} DedupSelectsFirstOccurrences(results: seq<Scraped>)
    ensures |Dedup(results)| == |FirstIndices(results)|
    ensures forall k :: 0 <= k < |Dedup(results)| ==> Dedup(results)[k] == results[FirstIndices(results)[k]]
  {
    if results != [] {
      var init, i := Init(results), |results| - 1;
      DedupSelectsFirstOccurrences(init);
      var kept, idx := Dedup(init), FirstIndices(init);
      forall k | 0 <= k < |idx| ensures results[idx[k]] == init[idx[k]] {
      }
      KeptIffFirst(results);
      if IsFirst(results, i) {
        assert Dedup(results) == kept + [results[i]];
        assert FirstIndices(results) == idx + [i];
      } else {
        assert Dedup(results) == kept;
        assert FirstIndices(results) == idx;
      }
    }
  }

  /** The filter keeps the last record exactly when it is a first occurrence. */
  lemma KeptIffFirst(results: seq<Scraped>)
    requires results != []
    ensures var url := Last(results).urlHtml;
      Truthy(url) && url.value !in SeenUrls(Dedup(Init(results))) <==> IsFirst(results, |results| - 1)
  {
    var init, i := Init(results), |results| - 1;
    SeenUrlsOfDedup(init);
    var url := results[i].urlHtml;
    if Truthy(url) {
      if url.value in SeenUrls(Dedup(init)) {
        var j :| 0 <= j < |init| && init[j].urlHtml == Some(url.value);
        assert results[j].urlHtml == results[i].urlHtml;
      } else {
        forall j | 0 <= j < i ensures results[j].urlHtml != results[i].urlHtml {
          assert results[j] == init[j];
        }
      }
    }
  }

  /** Every record with a non-empty url is represented by a kept record with that url. */
  lemma EveryUrlRepresented(results: seq<Scraped>, i: int)
    requires 0 <= i < |results| && Truthy(results[i].urlHtml)
    ensures exists r :: r in Dedup(results) && r.urlHtml == results[i].urlHtml
  {
    SeenUrlsOfDedup(results);
    var u := results[i].urlHtml.value;
    assert u in SeenUrls(Dedup(results));
  }

  /** A list with non-empty, pairwise different urls passes the filter unchanged. */
  lemma {:induction false} DedupKeepsDistinct(results: seq<Scraped>)
    requires forall r :: r in results ==> Truthy(r.urlHtml)
    requires forall i, j :: 0 <= i < j < |results| ==> results[i].urlHtml != results[j].urlHtml
    ensures Dedup(results) == results
  {
    if results != [] {
      var init := Init(results);
      forall r | r in init ensures Truthy(r.urlHtml) {
        var k :| 0 <= k < |init| && init[k] == r;
        assert results[k] == r;
      }
      DedupKeepsDistinct(init);
      var u := Last(results).urlHtml.value;
      forall k | 0 <= k < |init| ensures init[k].urlHtml != Some(u) {
        assert init[k] == results[k];
      }
      assert u !in SeenUrls(init);
      assert results == init + [Last(results)];
    }
  }

  /** Filtering twice is filtering once. */
  lemma DedupIdempotent(results: seq<Scraped>)
    ensures Dedup(Dedup(results)) == Dedup(results)
  {
    DedupKeepsDistinct(Dedup(results));
  }
}
