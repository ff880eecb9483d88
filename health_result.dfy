/** `ArchiveHealthResult`: the outcome of checking a list of history
    archive URLs, its two derived flags, and its two text renderings
    (`summary` and `error_details`). */
module HealthResult {
  import opened Text

  /** One unhealthy archive: its URL and the reason it failed. */
  type Failure = (string, string)

  datatype ArchiveHealthResult = ArchiveHealthResult(
    healthyUrls: seq<string>,
    unhealthyUrls: seq<Failure>,
    allHealthy: bool,
    anyHealthy: bool)

  /** `ArchiveHealthResult::new`: keeps both lists and derives the flags. */
  function New(healthy: seq<string>, unhealthy: seq<Failure>): (r: ArchiveHealthResult)
    ensures r.healthyUrls == healthy && r.unhealthyUrls == unhealthy
    ensures r.allHealthy <==> |unhealthy| == 0 && |healthy| > 0
    ensures r.anyHealthy <==> |healthy| > 0
  {
    ArchiveHealthResult(healthy, unhealthy, unhealthy == [] && healthy != [], healthy != [])
  }

  /** Every archive healthy implies some archive healthy; a result with
      some but not all archives healthy has entries in both lists; the
      result of an empty check has both flags down. */
  lemma NewFlags(healthy: seq<string>, unhealthy: seq<Failure>)
    ensures New(healthy, unhealthy).allHealthy ==> New(healthy, unhealthy).anyHealthy
    ensures New(healthy, unhealthy).anyHealthy && !New(healthy, unhealthy).allHealthy
            ==> |healthy| > 0 && |unhealthy| > 0
    ensures !New([], []).allHealthy && !New([], []).anyHealthy
  {
  }

  const NoArchives := "No archives configured"

  /** `summary`: a one-line status; the branches test the flags exactly as
      the source does. */
  function Summary(r: ArchiveHealthResult): string
  {
    if |r.healthyUrls| == 0 && |r.unhealthyUrls| == 0 then NoArchives
    else if r.allHealthy then "All " + NatToString(|r.healthyUrls|) + " archive(s) healthy"
    else if r.anyHealthy then
      NatToString(|r.healthyUrls|) + " healthy, " + NatToString(|r.unhealthyUrls|) + " unhealthy archive(s)"
    else "All " + NatToString(|r.unhealthyUrls|) + " archive(s) unhealthy"
  }

  /** The four shapes the summary of a result built by `New` takes, chosen by
      the list lengths alone. */
  datatype SummaryKind = NoneConfigured | AllHealthy | Mixed | NoneHealthy

  function KindOf(healthy: seq<string>, unhealthy: seq<Failure>): SummaryKind
  {
    if |healthy| == 0 && |unhealthy| == 0 then NoneConfigured
    else if |unhealthy| == 0 then AllHealthy
    else if |healthy| == 0 then NoneHealthy
    else Mixed
  }

  /** The summary of a result built by `New` has the form its kind names,
      with the counts written in decimal. */
  lemma SummaryOfNew(healthy: seq<string>, unhealthy: seq<Failure>)
    ensures var s := Summary(New(healthy, unhealthy));
      match KindOf(healthy, unhealthy)
      case NoneConfigured => s == NoArchives
      case AllHealthy => s == "All " + NatToString(|healthy|) + " archive(s) healthy"
      case Mixed =>
        s == NatToString(|healthy|) + " healthy, " + NatToString(|unhealthy|) + " unhealthy archive(s)"
      case NoneHealthy => s == "All " + NatToString(|unhealthy|) + " archive(s) unhealthy"
  {
  }

  /** "No archives configured" is printed exactly when both lists are empty,
      whatever the flags say. */
  lemma SummaryEmptyIff(r: ArchiveHealthResult)
    ensures Summary(r) == NoArchives <==> |r.healthyUrls| == 0 && |r.unhealthyUrls| == 0
  {
    var s := Summary(r);
    if !(|r.healthyUrls| == 0 && |r.unhealthyUrls| == 0) {
      if r.allHealthy || !r.anyHealthy {
        assert s[0] == 'A';
      } else {
        assert s[0] == NatToString(|r.healthyUrls|)[0];
        assert IsDigit(s[0]);
      }
      assert s[0] != NoArchives[0];
    }
  }

  /** Splits "All {n} archive(s) ..." into the count and the tail. */
  lemma AllFormUnique(m: nat, tm: string, n: nat, tn: string)
    requires |tm| > 0 && tm[0] == ' ' && |tn| > 0 && tn[0] == ' '
    requires "All " + NatToString(m) + tm == "All " + NatToString(n) + tn
    ensures m == n && tm == tn
  {
    var s := "All " + NatToString(m) + tm;
    assert s[4..] == NatToString(m) + tm;
    assert ("All " + NatToString(n) + tn)[4..] == NatToString(n) + tn;
    DigitsPrefixUnique(NatToString(m), tm, NatToString(n), tn);
    NatToStringInjective(m, n);
  }

  lemma CancelPrefix(p: string, a: string, b: string)
    requires p + a == p + b
    ensures a == b
  {
    assert a == (p + a)[|p|..];
    assert b == (p + b)[|p|..];
  }

  lemma Regroup(a: string, b: string, c: string, d: string)
    ensures a + b + c + d == a + (b + (c + d))
  {
  }

  /** Two digit strings, each followed by a separator that starts with a
      non-digit, can be read back in one way only. */
  lemma TwoCountsUnique(a1: string, b1: string, a2: string, b2: string, mid: string, tail: string)
    requires AllDigits(a1) && AllDigits(b1) && AllDigits(a2) && AllDigits(b2)
    requires |mid| > 0 && !IsDigit(mid[0]) && |tail| > 0 && !IsDigit(tail[0])
    requires a1 + mid + b1 + tail == a2 + mid + b2 + tail
    ensures a1 == a2 && b1 == b2
  {
    Regroup(a1, mid, b1, tail);
    Regroup(a2, mid, b2, tail);
    DigitsPrefixUnique(a1, mid + (b1 + tail), a2, mid + (b2 + tail));
    CancelPrefix(mid, b1 + tail, b2 + tail);
    DigitsPrefixUnique(b1, tail, b2, tail);
  }

  /** Splits "{h} healthy, {u} unhealthy archive(s)" into its two counts. */
  lemma MixedFormUnique(h1: nat, u1: nat, h2: nat, u2: nat)
    requires NatToString(h1) + " healthy, " + NatToString(u1) + " unhealthy archive(s)"
          == NatToString(h2) + " healthy, " + NatToString(u2) + " unhealthy archive(s)"
    ensures h1 == h2 && u1 == u2
  {
    TwoCountsUnique(NatToString(h1), NatToString(u1), NatToString(h2), NatToString(u2),
      " healthy, ", " unhealthy archive(s)");
    NatToStringInjective(h1, h2);
    NatToStringInjective(u1, u2);
  }

  /** The first character of the summary tells the mixed form, which starts
      with a digit, from the others. */
  lemma SummaryLead(healthy: seq<string>, unhealthy: seq<Failure>)
    ensures |Summary(New(healthy, unhealthy))| > 0
    ensures IsDigit(Summary(New(healthy, unhealthy))[0]) <==> KindOf(healthy, unhealthy) == Mixed
  {
  }

  /** The summary of a result built by `New` determines how many archives
      were healthy and how many unhealthy: no two different counts share a
      summary line. */
  lemma SummaryDeterminesCounts(h1: seq<string>, u1: seq<Failure>, h2: seq<string>, u2: seq<Failure>)
    requires Summary(New(h1, u1)) == Summary(New(h2, u2))
    ensures |h1| == |h2| && |u1| == |u2|
  {
    var s := Summary(New(h1, u1));
    SummaryOfNew(h1, u1);
    SummaryOfNew(h2, u2);
    SummaryEmptyIff(New(h1, u1));
    SummaryEmptyIff(New(h2, u2));
    SummaryLead(h1, u1);
    SummaryLead(h2, u2);
    var k1, k2 := KindOf(h1, u1), KindOf(h2, u2);
    if k1 == NoneConfigured || k2 == NoneConfigured {
    } else if k1 == Mixed && k2 == Mixed {
      MixedFormUnique(|h1|, |u1|, |h2|, |u2|);
    } else if k1 == Mixed || k2 == Mixed {
    } else {
      var n1 := if k1 == AllHealthy then |h1| else |u1|;
      var n2 := if k2 == AllHealthy then |h2| else |u2|;
      var t1 := if k1 == AllHealthy then " archive(s) healthy" else " archive(s) unhealthy";
      var t2 := if k2 == AllHealthy then " archive(s) healthy" else " archive(s) unhealthy";
      assert s == "All " + NatToString(n1) + t1;
      assert s == "All " + NatToString(n2) + t2;
      AllFormUnique(n1, t1, n2, t2);
    }
  }

  lemma OneAsText()
    ensures NatToString(1) == "1"
  {
  }

  lemma AllHealthyText()
    ensures "All " + "1" + " archive(s) healthy" == "All 1 archive(s) healthy"
  {
  }

  lemma MixedText()
    ensures "1" + " healthy, " + "1" + " unhealthy archive(s)" == "1 healthy, 1 unhealthy archive(s)"
  {
  }

  lemma AllUnhealthyText()
    ensures "All " + "1" + " archive(s) unhealthy" == "All 1 archive(s) unhealthy"
  {
  }

  /** The source's summary tests: one healthy archive, one of each, one
      unhealthy archive, and none at all. */
  lemma SummaryScenarios(a: string, b: string, t: string)
    ensures Summary(New([a], [])) == "All 1 archive(s) healthy"
    ensures Summary(New([a], [(b, t)])) == "1 healthy, 1 unhealthy archive(s)"
    ensures Summary(New([], [(b, t)])) == "All 1 archive(s) unhealthy"
    ensures Summary(New([], [])) == "No archives configured"
  {
    OneAsText();
    AllHealthyText();
    MixedText();
    AllUnhealthyText();
  }

  /** One line of `error_details`: "  - {url}: {err}". */
  function DetailLine(f: Failure): (line: string)
    ensures |line| > 0
  {
    "  - " + f.0 + ": " + f.1
  }

  /** The lines of `error_details`, one per unhealthy archive, in order. */
  function DetailLines(unhealthy: seq<Failure>): seq<string> {
    seq(|unhealthy|, i requires 0 <= i < |unhealthy| => DetailLine(unhealthy[i]))
  }

  /** `error_details`: one line per unhealthy archive, joined by newlines. */
  function ErrorDetails(r: ArchiveHealthResult): string
  {
    Join(DetailLines(r.unhealthyUrls), "\n")
  }

  /** The details are empty exactly when no archive is unhealthy. */
  lemma ErrorDetailsEmptyIff(r: ArchiveHealthResult)
    ensures ErrorDetails(r) == "" <==> |r.unhealthyUrls| == 0
  {
    JoinEmptyIff(DetailLines(r.unhealthyUrls), "\n");
  }

  /** Every unhealthy archive has its line in the details, so the details
      mention its URL and its reason. */
  lemma ErrorDetailsMentions(r: ArchiveHealthResult, i: nat)
    requires i < |r.unhealthyUrls|
    ensures Contains(ErrorDetails(r), DetailLine(r.unhealthyUrls[i]))
    ensures Contains(ErrorDetails(r), r.unhealthyUrls[i].0)
    ensures Contains(ErrorDetails(r), r.unhealthyUrls[i].1)
  {
    var f := r.unhealthyUrls[i];
    JoinContainsPart(DetailLines(r.unhealthyUrls), "\n", i);
    ContainsMiddle("  - ", f.0, ": " + f.1);
    assert "  - " + f.0 + (": " + f.1) == DetailLine(f);
    ContainsTransitive(ErrorDetails(r), DetailLine(f), f.0);
    ContainsMiddle("  - " + f.0 + ": ", f.1, "");
    assert "  - " + f.0 + ": " + f.1 + "" == DetailLine(f);
    ContainsTransitive(ErrorDetails(r), DetailLine(f), f.1);
  }

  /** The lines keep the order of the unhealthy list: the details of two
      consecutive stretches are those of the first, a newline, and those of
      the second. */
  lemma ErrorDetailsInOrder(healthy: seq<string>, u1: seq<Failure>, u2: seq<Failure>)
    requires |u1| > 0 && |u2| > 0
    ensures ErrorDetails(New(healthy, u1 + u2))
         == ErrorDetails(New(healthy, u1)) + "\n" + ErrorDetails(New(healthy, u2))
  {
    assert DetailLines(u1 + u2) == DetailLines(u1) + DetailLines(u2);
    JoinAppend(DetailLines(u1), DetailLines(u2), "\n");
  }
}
