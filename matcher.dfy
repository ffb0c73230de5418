/**
 * The best-match scan of `recognize` and its threshold decision, over the
 * directory listing as the loop sees it: every entry is either skipped (it
 * is not a `.npy` file) or scored against the query embedding.
 */
module Matcher {
  import opened Outcomes

  /** One directory entry as the scan sees it. `key` is the file name with
      its `.npy` suffix cut off. */
  datatype Entry = Skipped | Scored(key: string, score: real)

  /** The loop state: `best_name` and `best_score`. */
  datatype Best = Best(name: Option<string>, score: real)

  /** The answer of `recognize`: name (or `None`), score (or `None`), message. */
  datatype Recognition = Recognition(name: Option<string>, score: Option<real>, message: string)

  /** `best_score` before the first entry is seen. */
  const Sentinel: real := -1.0
  /** The default `threshold` of `recognize`. */
  const DefaultThreshold: real := 0.65
  const MatchedMessage := "Matched"
  const UnknownMessage := "Unknown"

  /** One iteration of the loop: only a strictly higher score takes over. */
  function Step(b: Best, e: Entry): Best {
    if e.Scored? && e.score > b.score then Best(Some(e.key), e.score) else b
  }

  /** The loop state after scanning `es` in order, starting from the sentinel. */
  function Scan(es: seq<Entry>): Best
    decreases |es|
  {
    if es == [] then Best(None, Sentinel) else Step(Scan(es[..|es| - 1]), es[|es| - 1])
  }

  /** The decision after the loop: the name is reported only at or above the threshold. */
  function Decide(b: Best, threshold: real): Recognition {
    if b.score >= threshold then Recognition(b.name, Some(b.score), MatchedMessage)
    else Recognition(None, Some(b.score), UnknownMessage)
  }

  /** Scan, then decide. */
  function Match(es: seq<Entry>, threshold: real): Recognition {
    Decide(Scan(es), threshold)
  }

  /** Entry `k` is scored, no entry scores higher, and every earlier entry scores lower. */
  predicate FirstMaximum(es: seq<Entry>, k: int) {
    && 0 <= k < |es| && es[k].Scored?
    && (forall j :: 0 <= j < |es| && es[j].Scored? ==> es[j].score <= es[k].score)
    && (forall j :: 0 <= j < k && es[j].Scored? ==> es[j].score < es[k].score)
  }

  /** The scanned score bounds every entry; it stays the sentinel until a name
      is found, and a found name is an entry's key with that entry's score. */
  lemma {:induction false} ScanBounds(es: seq<Entry>)
    ensures Scan(es).score >= Sentinel
    ensures forall j :: 0 <= j < |es| && es[j].Scored? ==> es[j].score <= Scan(es).score
    ensures Scan(es).name.None? ==> Scan(es).score == Sentinel
    ensures Scan(es).name.Some? ==>
              Scan(es).score > Sentinel
              && exists k :: 0 <= k < |es| && es[k] == Scored(Scan(es).name.value, Scan(es).score)
    decreases |es|
  {
    if es != [] {
      var init := es[..|es| - 1];
      ScanBounds(init);
      assert forall j :: 0 <= j < |init| ==> es[j] == init[j];
      var b := Scan(es);
      if b != Scan(init) {
        assert es[|es| - 1] == Scored(b.name.value, b.score);
      } else if b.name.Some? {
        var k :| 0 <= k < |init| && init[k] == Scored(b.name.value, b.score);
        assert es[k] == init[k];
      }
    }
  }

  /** The first maximum in scan order wins, provided it beats the sentinel. */
  lemma {:induction false} ScanFindsFirstMaximum(es: seq<Entry>, k: int)
    requires FirstMaximum(es, k) && es[k].score > Sentinel
    ensures Scan(es) == Best(Some(es[k].key), es[k].score)
    decreases |es|
  {
    var init := es[..|es| - 1];
    assert forall j :: 0 <= j < |init| ==> es[j] == init[j];
    if k < |es| - 1 {
      assert FirstMaximum(init, k);
      ScanFindsFirstMaximum(init, k);
    } else {
      ScanBounds(init);
      var b := Scan(init);
      if b.name.Some? {
        var j :| 0 <= j < |init| && init[j] == Scored(b.name.value, b.score);
        assert es[j].score < es[k].score;
      }
    }
  }

  /** What `recognize` reports, stated on the entries: the score is the
      maximum over the scored entries (or the sentinel), "Matched" exactly at
      or above the threshold, and a reported name is the key of the first
      entry reaching the maximum. */
  lemma MatchCorrect(es: seq<Entry>, threshold: real)
    ensures var r := Match(es, threshold);
      && r.score.Some?
      && r.score.value >= Sentinel
      && (forall j :: 0 <= j < |es| && es[j].Scored? ==> es[j].score <= r.score.value)
      && (r.score.value == Sentinel
          || exists k :: 0 <= k < |es| && es[k].Scored? && es[k].score == r.score.value)
      && (r.message == MatchedMessage <==> r.score.value >= threshold)
      && (r.message == UnknownMessage <==> r.score.value < threshold)
      && (r.message == UnknownMessage ==> r.name.None?)
      && (r.name.Some? <==>
            r.score.value >= threshold
            && exists j :: 0 <= j < |es| && es[j].Scored? && es[j].score > Sentinel)
      && (forall k :: FirstMaximum(es, k) && es[k].score > Sentinel && es[k].score >= threshold
            ==> r.name == Some(es[k].key))
  {
    ScanBounds(es);
    forall k | FirstMaximum(es, k) && es[k].score > Sentinel
      ensures Scan(es) == Best(Some(es[k].key), es[k].score)
    {
      ScanFindsFirstMaximum(es, k);
    }
    var b := Scan(es);
    if b.name.Some? {
      var k :| 0 <= k < |es| && es[k] == Scored(b.name.value, b.score);
      assert es[k].Scored? && es[k].score > Sentinel;
    }
  }

  /** A reported name belongs to a first maximum. */
  lemma MatchNameIsFirstMaximum(es: seq<Entry>, threshold: real)
    requires Match(es, threshold).name.Some?
    ensures exists k :: FirstMaximum(es, k) && es[k].score > Sentinel
                        && Match(es, threshold).name == Some(es[k].key)
                        && Match(es, threshold).score == Some(es[k].score)
  {
    ScanBounds(es);
    var b := Scan(es);
    var k :| 0 <= k < |es| && es[k] == Scored(b.name.value, b.score);
    FirstMaximumExists(es, k);
    var first :| FirstMaximum(es, first) && es[first].score == es[k].score;
    ScanFindsFirstMaximum(es, first);
  }

  /** Among the entries reaching a maximum there is a first one. */
  lemma {:induction false} FirstMaximumExists(es: seq<Entry>, k: int)
    requires 0 <= k < |es| && es[k].Scored?
    requires forall j :: 0 <= j < |es| && es[j].Scored? ==> es[j].score <= es[k].score
    ensures exists first :: FirstMaximum(es, first) && es[first].score == es[k].score
    decreases k
  {
    if exists j :: 0 <= j < k && es[j].Scored? && es[j].score == es[k].score {
      var j :| 0 <= j < k && es[j].Scored? && es[j].score == es[k].score;
      FirstMaximumExists(es, j);
    } else {
      assert FirstMaximum(es, k);
    }
  }

  /** An empty store: no name, the sentinel score, and "Unknown" for any
      threshold above the sentinel. */
  lemma MatchEmpty(threshold: real)
    requires threshold > Sentinel
    ensures Match([], threshold) == Recognition(None, Some(Sentinel), UnknownMessage)
  {
  }
}
