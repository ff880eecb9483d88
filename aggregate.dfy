/** `check_history_archive_health`: the empty-input short-circuit and the
    loop that sorts the probed URLs into a healthy and an unhealthy list.
    The concurrent probes (`join_all`) are replaced by their results, one
    per URL in input order; `errorText` stands for `to_string` of the
    crate's error type, whose text this model does not fix. */
module Aggregate {
  import opened Text
  import opened HealthResult
  import opened Probe

  /** The URLs whose result is `Ok`, in input order. */
  function HealthyOf(urls: seq<string>, results: seq<CheckResult>): seq<string>
    requires |urls| == |results|
    decreases |urls|
  {
    if |urls| == 0 then []
    else
      var n := |urls| - 1;
      var before := HealthyOf(urls[..n], results[..n]);
      if results[n].Ok? then before + [urls[n]] else before
  }

  /** The URLs whose result is an error, each with that error's text, in
      input order. */
  function UnhealthyOf(urls: seq<string>, results: seq<CheckResult>, errorText: ArchiveError -> string)
    : seq<Failure>
    requires |urls| == |results|
    decreases |urls|
  {
    if |urls| == 0 then []
    else
      var n := |urls| - 1;
      var before := UnhealthyOf(urls[..n], results[..n], errorText);
      if results[n].Err? then before + [(urls[n], errorText(results[n].error))] else before
  }

  /** The URL of every failure, in order. */
  function UrlsOf(failures: seq<Failure>): (us: seq<string>)
    ensures |us| == |failures|
    ensures forall i :: 0 <= i < |failures| ==> us[i] == failures[i].0
  {
    seq(|failures|, i requires 0 <= i < |failures| => failures[i].0)
  }

  /** `a` is `b` with some elements left out, the rest kept in order. */
  predicate Subsequence<T(==)>(a: seq<T>, b: seq<T>)
    decreases |b|
  {
    if |a| == 0 then true
    else if |b| == 0 then false
    else (a[|a| - 1] == b[|b| - 1] && Subsequence(a[..|a| - 1], b[..|b| - 1]))
         || Subsequence(a, b[..|b| - 1])
  }

  /** `check_history_archive_health(urls, timeout)` once every probe has
      finished with `results`. With no URLs the results are not looked at. */
  method CheckHistoryArchiveHealth(urls: seq<string>, results: seq<CheckResult>, errorText: ArchiveError -> string)
    returns (r: ArchiveHealthResult)
    requires |urls| > 0 ==> |results| == |urls|
    ensures |urls| == 0 ==> r == New([], [])
    ensures |urls| > 0 ==> r == New(HealthyOf(urls, results), UnhealthyOf(urls, results, errorText))
  {
    if |urls| == 0 {
      return New([], []);
    }
    var healthy: seq<string> := [];
    var unhealthy: seq<Failure> := [];
    for i := 0 to |urls|
      invariant healthy == HealthyOf(urls[..i], results[..i])
      invariant unhealthy == UnhealthyOf(urls[..i], results[..i], errorText)
    {
      assert urls[..i + 1][..i] == urls[..i] && results[..i + 1][..i] == results[..i];
      match results[i]
      case Ok =>
        healthy := healthy + [urls[i]];
      case Err(e) =>
        unhealthy := unhealthy + [(urls[i], errorText(e))];
    }
    assert urls[..|urls|] == urls && results[..|urls|] == results;
    r := New(healthy, unhealthy);
  }

  /** Every URL lands in exactly one of the two lists. */
  lemma {:induction false} PartitionSizes(urls: seq<string>, results: seq<CheckResult>, errorText: ArchiveError -> string)
    requires |urls| == |results|
    ensures |HealthyOf(urls, results)| + |UnhealthyOf(urls, results, errorText)| == |urls|
    decreases |urls|
  {
    if |urls| > 0 {
      var n := |urls| - 1;
      PartitionSizes(urls[..n], results[..n], errorText);
    }
  }

  /** Appending a failure appends its URL, once. */
  lemma UrlsOfSnoc(failures: seq<Failure>, f: Failure)
    ensures multiset(UrlsOf(failures + [f])) == multiset(UrlsOf(failures)) + multiset{f.0}
  {
    assert UrlsOf(failures + [f]) == UrlsOf(failures) + [f.0];
  }

  /** Together the two lists hold the input URLs, each as often as it was
      given (duplicates are kept, not merged). */
  lemma {:induction false} PartitionMultiset(urls: seq<string>, results: seq<CheckResult>, errorText: ArchiveError -> string)
    requires |urls| == |results|
    ensures multiset(HealthyOf(urls, results)) + multiset(UrlsOf(UnhealthyOf(urls, results, errorText)))
         == multiset(urls)
    decreases |urls|
  {
    if |urls| > 0 {
      var n := |urls| - 1;
      PartitionMultiset(urls[..n], results[..n], errorText);
      var h, u := HealthyOf(urls[..n], results[..n]), UnhealthyOf(urls[..n], results[..n], errorText);
      var x := urls[n];
      assert urls == urls[..n] + [x];
      if results[n].Ok? {
        calc {
          multiset(HealthyOf(urls, results)) + multiset(UrlsOf(UnhealthyOf(urls, results, errorText)));
          multiset(h + [x]) + multiset(UrlsOf(u));
          multiset(h) + multiset(UrlsOf(u)) + multiset{x};
          multiset(urls[..n]) + multiset{x};
          multiset(urls[..n] + [x]);
        }
      } else {
        var f := (x, errorText(results[n].error));
        UrlsOfSnoc(u, f);
        calc {
          multiset(HealthyOf(urls, results)) + multiset(UrlsOf(UnhealthyOf(urls, results, errorText)));
          multiset(h) + multiset(UrlsOf(u + [f]));
          multiset(h) + multiset(UrlsOf(u)) + multiset{x};
          multiset(urls[..n]) + multiset{x};
          multiset(urls[..n] + [x]);
        }
      }
    }
  }

  /** A subsequence of all but the last element of `b`, with or without
      that last element appended, is a subsequence of `b`. */
  lemma SubsequenceSnoc<T>(a: seq<T>, b: seq<T>, keep: bool)
    requires |b| > 0 && Subsequence(a, b[..|b| - 1])
    ensures Subsequence(if keep then a + [b[|b| - 1]] else a, b)
  {
    if keep {
      assert (a + [b[|b| - 1]])[..|a|] == a;
    }
  }

  /** The URLs of the unhealthy list grow by the URL of each failed probe. */
  lemma UnhealthyUrlsStep(urls: seq<string>, results: seq<CheckResult>, errorText: ArchiveError -> string)
    requires |urls| == |results| > 0
    ensures var n := |urls| - 1;
      var before := UrlsOf(UnhealthyOf(urls[..n], results[..n], errorText));
      UrlsOf(UnhealthyOf(urls, results, errorText))
        == if results[n].Err? then before + [urls[n]] else before
  {
    var n := |urls| - 1;
    var u := UnhealthyOf(urls[..n], results[..n], errorText);
    if results[n].Err? {
      var f := (urls[n], errorText(results[n].error));
      assert UnhealthyOf(urls, results, errorText) == u + [f];
      assert UrlsOf(u + [f]) == UrlsOf(u) + [urls[n]];
    }
  }

  /** Both lists keep the order the URLs were given in. */
  lemma {:induction false} PartitionKeepsOrder(urls: seq<string>, results: seq<CheckResult>, errorText: ArchiveError -> string)
    requires |urls| == |results|
    ensures Subsequence(HealthyOf(urls, results), urls)
    ensures Subsequence(UrlsOf(UnhealthyOf(urls, results, errorText)), urls)
    decreases |urls|
  {
    if |urls| > 0 {
      var n := |urls| - 1;
      PartitionKeepsOrder(urls[..n], results[..n], errorText);
      UnhealthyUrlsStep(urls, results, errorText);
      SubsequenceSnoc(HealthyOf(urls[..n], results[..n]), urls, results[n].Ok?);
      SubsequenceSnoc(UrlsOf(UnhealthyOf(urls[..n], results[..n], errorText)), urls, results[n].Err?);
    }
  }

  /** A URL is in the healthy list exactly when some position holding it
      probed `Ok`; a failure is in the unhealthy list exactly when some
      position holding its URL failed with an error of that text. */
  lemma {:induction false} PartitionMembers(urls: seq<string>, results: seq<CheckResult>, errorText: ArchiveError -> string)
    requires |urls| == |results|
    ensures forall x :: x in HealthyOf(urls, results) <==>
      exists i :: 0 <= i < |urls| && urls[i] == x && results[i].Ok?
    ensures forall f :: f in UnhealthyOf(urls, results, errorText) <==>
      exists i :: 0 <= i < |urls| && results[i].Err? && f == (urls[i], errorText(results[i].error))
    decreases |urls|
  {
    if |urls| > 0 {
      var n := |urls| - 1;
      PartitionMembers(urls[..n], results[..n], errorText);
      forall x
        ensures x in HealthyOf(urls, results) <==>
          exists i :: 0 <= i < |urls| && urls[i] == x && results[i].Ok?
      {
        if exists i :: 0 <= i < |urls| && urls[i] == x && results[i].Ok? {
          var i :| 0 <= i < |urls| && urls[i] == x && results[i].Ok?;
          if i < n {
            assert urls[..n][i] == x && results[..n][i].Ok?;
          }
        }
        if x in HealthyOf(urls[..n], results[..n]) {
          var i :| 0 <= i < n && urls[..n][i] == x && results[..n][i].Ok?;
          assert urls[i] == x && results[i].Ok?;
        }
      }
      forall f
        ensures f in UnhealthyOf(urls, results, errorText) <==>
          exists i :: 0 <= i < |urls| && results[i].Err? && f == (urls[i], errorText(results[i].error))
      {
        if exists i :: 0 <= i < |urls| && results[i].Err? && f == (urls[i], errorText(results[i].error)) {
          var i :| 0 <= i < |urls| && results[i].Err? && f == (urls[i], errorText(results[i].error));
          if i < n {
            assert results[..n][i].Err? && f == (urls[..n][i], errorText(results[..n][i].error));
          }
        }
        if f in UnhealthyOf(urls[..n], results[..n], errorText) {
          var i :| 0 <= i < n && results[..n][i].Err? && f == (urls[..n][i], errorText(results[..n][i].error));
          assert results[i].Err? && f == (urls[i], errorText(results[i].error));
        }
      }
    }
  }

  /** The flags of the aggregate result read directly off the probe
      results: all healthy exactly when there was a URL and every probe
      succeeded, any healthy exactly when some probe succeeded. */
  lemma AggregateFlags(urls: seq<string>, results: seq<CheckResult>, errorText: ArchiveError -> string)
    requires |urls| == |results|
    ensures var r := New(HealthyOf(urls, results), UnhealthyOf(urls, results, errorText));
      (r.allHealthy <==> |urls| > 0 && forall i :: 0 <= i < |results| ==> results[i].Ok?)
      && (r.anyHealthy <==> exists i :: 0 <= i < |results| && results[i].Ok?)
  {
    var h, u := HealthyOf(urls, results), UnhealthyOf(urls, results, errorText);
    PartitionMembers(urls, results, errorText);
    PartitionSizes(urls, results, errorText);
    if |h| > 0 {
      assert h[0] in h;
    }
    if |u| > 0 {
      assert u[0] in u;
    }
    if exists i :: 0 <= i < |results| && results[i].Ok? {
      var i :| 0 <= i < |results| && results[i].Ok?;
      assert urls[i] in h;
    }
    if exists i :: 0 <= i < |results| && results[i].Err? {
      var i :| 0 <= i < |results| && results[i].Err?;
      assert (urls[i], errorText(results[i].error)) in u;
    }
  }

  /** The results `join_all` collects: one probe per URL, in input order. */
  function JoinAll(urls: seq<string>, server: Request -> Response): seq<CheckResult> {
    seq(|urls|, i requires 0 <= i < |urls| => CheckSingleArchive(urls[i], server))
  }

  /** With the probes run against one server, a listed URL ends up healthy
      exactly when its metadata file or its root answers with a 2xx status. */
  lemma HealthyIffReachable(urls: seq<string>, server: Request -> Response, errorText: ArchiveError -> string, x: string)
    requires x in urls
    ensures x in HealthyOf(urls, JoinAll(urls, server)) <==>
      Succeeded(server(MetadataRequest(x))) || Succeeded(server(RootRequest(x)))
  {
    var results := JoinAll(urls, server);
    PartitionMembers(urls, results, errorText);
    var i :| 0 <= i < |urls| && urls[i] == x;
    assert results[i] == CheckSingleArchive(x, server);
  }

  /** An archive whose metadata step fails and whose root answers a non-2xx
      status is listed as unhealthy with a reason that names the status
      code after "HTTP ", and the error details name both the URL and that
      code. This holds whenever the text of an `ArchiveHealthCheckError`
      contains its message, which the crate's `Display` is not part of this
      model to guarantee. */
  lemma StatusFailureReported(urls: seq<string>, server: Request -> Response, errorText: ArchiveError -> string,
                              i: nat, code: nat, reason: string)
    requires forall m :: Contains(errorText(ArchiveHealthCheckError(m)), m)
    requires i < |urls| && !Succeeded(server(MetadataRequest(urls[i])))
    requires server(RootRequest(urls[i])) == Status(code, reason) && !IsSuccess(code)
    ensures var results := JoinAll(urls, server);
      var r := New(HealthyOf(urls, results), UnhealthyOf(urls, results, errorText));
      var tag := "HTTP " + NatToString(code);
      urls[i] !in r.healthyUrls
      && (exists j :: 0 <= j < |r.unhealthyUrls| && r.unhealthyUrls[j].0 == urls[i]
                      && Contains(r.unhealthyUrls[j].1, tag))
      && Contains(ErrorDetails(r), urls[i])
      && Contains(ErrorDetails(r), tag)
  {
    var results := JoinAll(urls, server);
    var r := New(HealthyOf(urls, results), UnhealthyOf(urls, results, errorText));
    var tag := "HTTP " + NatToString(code);
    var msg := StatusMessage(code, reason);
    assert results[i] == Err(ArchiveHealthCheckError(msg));
    HealthyIffReachable(urls, server, errorText, urls[i]);
    PartitionMembers(urls, results, errorText);
    var f := (urls[i], errorText(ArchiveHealthCheckError(msg)));
    assert f in r.unhealthyUrls;
    var j :| 0 <= j < |r.unhealthyUrls| && r.unhealthyUrls[j] == f;
    StatusMessageNamesCode(code, reason);
    ContainsTransitive(f.1, msg, tag);
    ErrorDetailsMentions(r, j);
    ContainsTransitive(ErrorDetails(r), f.1, tag);
  }

  /** The source's mixed test: one healthy and one unhealthy archive give
      "1 healthy, 1 unhealthy archive(s)". */
  lemma MixedScenario(a: string, b: string, e: ArchiveError, errorText: ArchiveError -> string)
    ensures HealthyOf([a, b], [Ok, Err(e)]) == [a]
    ensures UnhealthyOf([a, b], [Ok, Err(e)], errorText) == [(b, errorText(e))]
    ensures var r := New([a], [(b, errorText(e))]);
      !r.allHealthy && r.anyHealthy && Summary(r) == "1 healthy, 1 unhealthy archive(s)"
  {
    var urls, results := [a, b], [Ok, Err(e)];
    assert urls[..1] == [a] && results[..1] == [Ok];
    assert [a][..0] == [] && [Ok][..0] == [];
    assert HealthyOf([a], [Ok]) == [a];
    assert UnhealthyOf([a], [Ok], errorText) == [];
    SummaryScenarios(a, b, errorText(e));
  }
}
