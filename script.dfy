/**
 * The order of the script's top level: the set is created and the
 * firewall rule replaced before any feed is read, the five feeds are read
 * in list order, the manual file after them, and the closing message
 * last; an `IndexError` in a feed ends the script there.
 */
module Script {
  import opened Lines
  import opened Pipeline
  import opened Ingestion

  /** The feeds announced by "Agregando IPs desde", in order. */
  function Announced(rs: seq<Report>): seq<string>
    decreases |rs|
  {
    if rs == [] then []
    else Announced(rs[..|rs| - 1]) + (if rs[|rs| - 1].AddingFrom? then [rs[|rs| - 1].url] else [])
  }

  lemma {:induction false} AnnouncedAppend(a: seq<Report>, b: seq<Report>)
    ensures Announced(a + b) == Announced(a) + Announced(b)
    decreases |b|
  {
    if b == [] {
      assert a + b == a;
    } else {
      var init := b[..|b| - 1];
      AnnouncedAppend(a, init);
      assert (a + b)[..|a + b| - 1] == a + init;
    }
  }

  /** A stretch of messages none of which announces a feed. */
  lemma {:induction false} AnnouncedNone(rs: seq<Report>)
    requires forall k :: 0 <= k < |rs| ==> !rs[k].AddingFrom?
    ensures Announced(rs) == []
    decreases |rs|
  {
    if rs != [] {
      AnnouncedNone(rs[..|rs| - 1]);
    }
  }

  /** The messages a feed can produce. */
  predicate FeedReport(r: Report) {
    r.AddingFrom? || r.FetchFailed? || Rejection(r)
  }

  /** A line whose tokenising raises. */
  predicate HasFatal(lines: seq<string>) {
    exists k :: 0 <= k < |lines| && Fatal(lines[k])
  }

  /** A response that makes `add_to_ipset` raise. */
  predicate Raises(resp: Response) {
    resp.Body? && HasFatal(resp.lines)
  }

  /** The addresses a response carries: none for a network failure. */
  function Delivered(resp: Response): set<string> {
    if resp.Body? then FeedAddresses(resp.lines) else {}
  }

  /** The addresses all of the given feeds carry. */
  function FeedsAddresses(urls: seq<string>, fetch: string -> Response): set<string>
    decreases |urls|
  {
    if urls == [] then {}
    else FeedsAddresses(urls[..|urls| - 1], fetch) + Delivered(fetch(urls[|urls| - 1]))
  }

  /** Only new messages after `s` that do not announce a feed. */
  lemma QuietAnnounced(s: State, t: State, p: Report -> bool)
    requires ReportsWithin(s, t, p)
    requires forall r :: p(r) ==> !r.AddingFrom?
    ensures Announced(t.reports) == Announced(s.reports)
  {
    var rest := t.reports[|s.reports|..];
    assert t.reports == s.reports + rest;
    AnnouncedAppend(s.reports, rest);
    AnnouncedNone(rest);
  }

  /** `add_to_ipset` raises exactly when the body has a whitespace-only data line. */
  lemma AddToIpsetRaises(s: State, url: string, resp: Response)
    ensures AddToIpset(s, url, resp).Crashed? <==> Raises(resp)
  {
    if resp.Body? {
      FeedRunStops(Say(s, AddingFrom(url)), resp.lines);
      if Raises(resp) {
        var k :| 0 <= k < |resp.lines| && Fatal(resp.lines[k]);
      }
    }
  }

  /** `add_to_ipset` announces its feed first, and no other. */
  lemma AddToIpsetAnnounced(s: State, url: string, resp: Response)
    ensures var t := AddToIpset(s, url, resp).state;
      && |s.reports| < |t.reports| && t.reports[|s.reports|] == AddingFrom(url)
      && Announced(t.reports) == Announced(s.reports) + [url]
  {
    RejectionQuiet();
    var a := Say(s, AddingFrom(url));
    var t := AddToIpset(s, url, resp).state;
    AnnouncedAppend(s.reports, [AddingFrom(url)]);
    match resp
    case NetworkError =>
      AnnouncedAppend(a.reports, [FetchFailed(url)]);
    case Body(lines) =>
      FeedRunReports(a, lines);
      assert t.reports[|s.reports|] == t.reports[..|a.reports|][|s.reports|];
      QuietAnnounced(a, t, Rejection);
  }

  /**
   * One call of `add_to_ipset`: it extends the state and prints feed
   * messages only; when it does not raise, the set gains the addresses of
   * the body, and nothing on a network failure.
   */
  lemma AddToIpsetSpec(s: State, url: string, resp: Response)
    ensures var r := AddToIpset(s, url, resp);
      && Extends(s, r.state, CanonicalAddress)
      && ReportsWithin(s, r.state, FeedReport)
      && (r.Done? ==> r.state.members == s.members + Delivered(resp))
  {
    var a := Say(s, AddingFrom(url));
    var r := AddToIpset(s, url, resp);
    SayExtends(s, AddingFrom(url), CanonicalAddress);
    SayWithin(s, AddingFrom(url), FeedReport);
    match resp
    case NetworkError =>
      SayExtends(a, FetchFailed(url), CanonicalAddress);
      ExtendsTrans(s, a, r.state, CanonicalAddress);
      SayWithin(a, FetchFailed(url), FeedReport);
      ReportsTrans(s, a, r.state, FeedReport);
    case Body(lines) =>
      FeedRunExtends(a, lines);
      FeedRunMembers(a, lines);
      FeedRunReports(a, lines);
      ExtendsTrans(s, a, r.state, CanonicalAddress);
      ReportsTrans(s, a, r.state, FeedReport) by {
        forall k | |a.reports| <= k < |r.state.reports| ensures FeedReport(r.state.reports[k]) {
          assert Rejection(r.state.reports[k]);
        }
      }
      if r.Done? {
        assert lines[..|lines|] == lines;
      }
  }

  /** The feed loop of the top level extends the state and prints feed messages only. */
  lemma {:induction false} FeedsTrace(s: State, urls: seq<string>, fetch: string -> Response)
    ensures Extends(s, Feeds(s, urls, fetch).state, CanonicalAddress)
    ensures ReportsWithin(s, Feeds(s, urls, fetch).state, FeedReport)
    decreases |urls|
  {
    if urls == [] {
      ExtendsRefl(s, CanonicalAddress);
    } else {
      var init := urls[..|urls| - 1];
      var url := urls[|urls| - 1];
      FeedsTrace(s, init, fetch);
      match Feeds(s, init, fetch)
      case Aborted(t, k) =>
      case Completed(t) =>
        var u := Feeds(s, urls, fetch).state;
        AddToIpsetSpec(t, url, fetch(url));
        ExtendsTrans(s, t, u, CanonicalAddress);
        ReportsTrans(s, t, u, FeedReport);
    }
  }

  /**
   * The loop completes exactly when no response raises, and otherwise
   * stops at the first response that raises.
   */
  lemma {:induction false} FeedsOutcome(s: State, urls: seq<string>, fetch: string -> Response)
    ensures var r := Feeds(s, urls, fetch);
      && (r.Completed? <==> forall j :: 0 <= j < |urls| ==> !Raises(fetch(urls[j])))
      && (r.Aborted? ==>
            r.feed < |urls| && Raises(fetch(urls[r.feed]))
            && forall j :: 0 <= j < r.feed ==> !Raises(fetch(urls[j])))
    decreases |urls|
  {
    if urls != [] {
      var init := urls[..|urls| - 1];
      var url := urls[|urls| - 1];
      FeedsOutcome(s, init, fetch);
      assert forall j :: 0 <= j < |init| ==> init[j] == urls[j];
      match Feeds(s, init, fetch)
      case Aborted(t, k) =>
      case Completed(t) =>
        AddToIpsetRaises(t, url, fetch(url));
    }
  }

  /**
   * The feeds are announced in list order, all of them when the loop
   * completes, and up to the one that raised otherwise.
   */
  lemma {:induction false} FeedsAnnounced(s: State, urls: seq<string>, fetch: string -> Response)
    ensures var r := Feeds(s, urls, fetch); r.Aborted? ==> r.feed < |urls|
    ensures var r := Feeds(s, urls, fetch);
      Announced(r.state.reports)
        == Announced(s.reports) + (if r.Completed? then urls else urls[..r.feed + 1])
    decreases |urls|
  {
    if urls != [] {
      var init := urls[..|urls| - 1];
      FeedsAnnounced(s, init, fetch);
      assert AnnouncedFeeds(s, init, fetch);
      if Feeds(s, init, fetch).Aborted? {
        AnnouncedPastAbort(s, urls, fetch);
      } else {
        AnnouncedNext(s, urls, fetch);
      }
    }
  }

  /** The two facts `FeedsAnnounced` states, for the induction's steps. */
  ghost predicate AnnouncedFeeds(s: State, urls: seq<string>, fetch: string -> Response) {
    var r := Feeds(s, urls, fetch);
    && (r.Aborted? ==> r.feed < |urls|)
    && Announced(r.state.reports)
      == Announced(s.reports) + (if r.Completed? then urls else urls[..r.feed + 1])
  }

  /** Feeds after the one that raised are never fetched. */
  lemma AnnouncedPastAbort(s: State, urls: seq<string>, fetch: string -> Response)
    requires urls != [] && AnnouncedFeeds(s, urls[..|urls| - 1], fetch)
    requires Feeds(s, urls[..|urls| - 1], fetch).Aborted?
    ensures AnnouncedFeeds(s, urls, fetch)
  {
    var init := urls[..|urls| - 1];
    var k := Feeds(s, init, fetch).feed;
    assert Feeds(s, urls, fetch) == Feeds(s, init, fetch);
    assert urls[..k + 1] == init[..k + 1];
  }

  /** The next feed is announced after the ones before it. */
  lemma AnnouncedNext(s: State, urls: seq<string>, fetch: string -> Response)
    requires urls != [] && AnnouncedFeeds(s, urls[..|urls| - 1], fetch)
    requires Feeds(s, urls[..|urls| - 1], fetch).Completed?
    ensures AnnouncedFeeds(s, urls, fetch)
  {
    var init := urls[..|urls| - 1];
    var url := urls[|urls| - 1];
    var t := Feeds(s, init, fetch).state;
    var res := AddToIpset(t, url, fetch(url));
    FeedsNext(s, urls, fetch);
    AddToIpsetAnnounced(t, url, fetch(url));
    LastSplit(urls);
  }

  /** A non-empty list is its last element appended to the rest. */
  lemma LastSplit(urls: seq<string>)
    requires urls != []
    ensures urls[..|urls| - 1] + [urls[|urls| - 1]] == urls && urls[..|urls|] == urls
  {
  }

  /** One more feed after a loop that completed: its outcome is the loop's. */
  lemma FeedsNext(s: State, urls: seq<string>, fetch: string -> Response)
    requires urls != [] && Feeds(s, urls[..|urls| - 1], fetch).Completed?
    ensures var url := urls[|urls| - 1];
      var res := AddToIpset(Feeds(s, urls[..|urls| - 1], fetch).state, url, fetch(url));
      Feeds(s, urls, fetch) == if res.Done? then Completed(res.state) else Aborted(res.state, |urls| - 1)
  {
  }

  /** A loop that completes adds the addresses of all the responses. */
  lemma {:induction false} FeedsMembers(s: State, urls: seq<string>, fetch: string -> Response)
    requires Feeds(s, urls, fetch).Completed?
    ensures Feeds(s, urls, fetch).state.members == s.members + FeedsAddresses(urls, fetch)
    decreases |urls|
  {
    if urls != [] {
      var init := urls[..|urls| - 1];
      var url := urls[|urls| - 1];
      FeedsMembers(s, init, fetch);
      var t := Feeds(s, init, fetch).state;
      AddToIpsetSpec(t, url, fetch(url));
    }
  }

  /** The messages of the manual step, where the file is missing or read. */
  predicate ManualStepReport(r: Report) {
    r == MissingFile(ManualPath) || r == AddingManual(ManualPath) || ManualReport(r)
  }

  /** The addresses the manual file carries: none when it is missing. */
  function ManualAddresses(file: ManualFile): set<string> {
    if file.Missing? then {} else Collected(file.lines, ManualAddress)
  }

  /** `add_manual_ips(ManualPath)` as the script calls it. */
  lemma AddManualIpsSpec(s: State, file: ManualFile)
    ensures var t := AddManualIps(s, ManualPath, file);
      && Extends(s, t, CanonicalAddress)
      && ReportsWithin(s, t, ManualStepReport)
      && |s.reports| < |t.reports|
      && t.reports[|s.reports|] == (if file.Missing? then MissingFile(ManualPath) else AddingManual(ManualPath))
      && t.members == s.members + ManualAddresses(file)
  {
    var t := AddManualIps(s, ManualPath, file);
    match file
    case Missing =>
      SayExtends(s, MissingFile(ManualPath), CanonicalAddress);
    case Contents(lines) =>
      var a := Say(s, AddingManual(ManualPath));
      SayExtends(s, AddingManual(ManualPath), CanonicalAddress);
      SayWithin(s, AddingManual(ManualPath), ManualStepReport);
      ManualRunSpec(a, lines);
      ExtendsTrans(s, a, t, CanonicalAddress);
      ReportsTrans(s, a, t, ManualStepReport) by {
        forall k | |a.reports| <= k < |t.reports| ensures ManualStepReport(t.reports[k]) {
          assert ManualReport(t.reports[k]);
        }
      }
      assert t.reports[|s.reports|] == t.reports[..|a.reports|][|s.reports|];
  }

  /** The setup commands and messages come first, in the script's order. */
  lemma SetupSpec(s: State)
    ensures Setup(s).members == s.members
    ensures Setup(s).commands == s.commands + [CreateSet, DeleteRule, InsertRule]
    ensures Setup(s).reports == s.reports + [RemovingRules, ApplyingRule]
  {
  }

  /**
   * The script starts with the set's creation and the rule's removal and
   * insertion, and from then on only tests and adds canonical addresses:
   * the set never shrinks.
   */
  lemma RunStart(s: State, fetch: string -> Response, file: ManualFile)
    ensures var t := Run(s, fetch, file).state;
      && |s.commands| + 3 <= |t.commands|
      && t.commands[..|s.commands| + 3] == s.commands + [CreateSet, DeleteRule, InsertRule]
      && |s.reports| + 2 <= |t.reports|
      && t.reports[..|s.reports| + 2] == s.reports + [RemovingRules, ApplyingRule]
      && Extends(Setup(s), t, CanonicalAddress)
      && s.members <= t.members
  {
    var s0 := Setup(s);
    var t := Run(s, fetch, file).state;
    SetupSpec(s);
    FeedsTrace(s0, Urls, fetch);
    match Feeds(s0, Urls, fetch)
    case Aborted(u, _) =>
    case Completed(u) =>
      var m := AddManualIps(u, ManualPath, file);
      AddManualIpsSpec(u, file);
      SayExtends(m, Finished, CanonicalAddress);
      ExtendsTrans(u, m, t, CanonicalAddress);
      ExtendsTrans(s0, u, t, CanonicalAddress);
  }

  /**
   * The script completes exactly when no feed raises; otherwise it stops
   * inside the first feed that raises.
   */
  lemma RunOutcome(s: State, fetch: string -> Response, file: ManualFile)
    ensures var r := Run(s, fetch, file);
      && (r.Completed? <==> forall j :: 0 <= j < |Urls| ==> !Raises(fetch(Urls[j])))
      && (r.Aborted? ==>
            r.feed < |Urls| && Raises(fetch(Urls[r.feed]))
            && forall j :: 0 <= j < r.feed ==> !Raises(fetch(Urls[j])))
  {
    FeedsOutcome(Setup(s), Urls, fetch);
  }

  /** The setup announces no feed. */
  lemma SetupAnnounced(s: State)
    ensures Announced(Setup(s).reports) == Announced(s.reports)
  {
    SetupSpec(s);
    AnnouncedAppend(s.reports, [RemovingRules, ApplyingRule]);
  }

  /** The manual step and the closing message announce no feed. */
  lemma CloseAnnounced(u: State, file: ManualFile)
    ensures Announced(Say(AddManualIps(u, ManualPath, file), Finished).reports) == Announced(u.reports)
  {
    ManualStepQuiet();
    var m := AddManualIps(u, ManualPath, file);
    AddManualIpsSpec(u, file);
    QuietAnnounced(u, m, ManualStepReport);
    AnnouncedAppend(m.reports, [Finished]);
  }

  /** The feeds are announced in list order, up to the one that raised. */
  lemma RunAnnounced(s: State, fetch: string -> Response, file: ManualFile)
    ensures var r := Run(s, fetch, file);
      && (r.Aborted? ==> r.feed < |Urls|)
      && Announced(r.state.reports)
           == Announced(s.reports) + (if r.Completed? then Urls else Urls[..r.feed + 1])
  {
    SetupAnnounced(s);
    FeedsAnnounced(Setup(s), Urls, fetch);
    CloseAnnounced(Feeds(Setup(s), Urls, fetch).state, file);
  }

  /**
   * A completed run prints the closing message last and leaves the set as
   * the old set plus the addresses of all feeds and of the manual file.
   */
  lemma RunCompleted(s: State, fetch: string -> Response, file: ManualFile)
    requires Run(s, fetch, file).Completed?
    ensures var t := Run(s, fetch, file).state;
      && t.reports[|t.reports| - 1] == Finished
      && t.members == s.members + FeedsAddresses(Urls, fetch) + ManualAddresses(file)
  {
    var s0 := Setup(s);
    SetupSpec(s);
    var u := Feeds(s0, Urls, fetch).state;
    FeedsMembers(s0, Urls, fetch);
    AddManualIpsSpec(u, file);
  }

  /**
   * A completed run reads the manual file after every feed has been
   * announced, and announces no feed after it.
   */
  lemma RunManualLast(s: State, fetch: string -> Response, file: ManualFile)
    requires Run(s, fetch, file).Completed?
    ensures var t := Run(s, fetch, file).state;
      exists i :: |s.reports| + 2 <= i < |t.reports| - 1
        && t.reports[i] == (if file.Missing? then MissingFile(ManualPath) else AddingManual(ManualPath))
        && Announced(t.reports[..i]) == Announced(s.reports) + Urls
        && Announced(t.reports[i..]) == []
  {
    var s0 := Setup(s);
    var t := Run(s, fetch, file).state;
    var u := Feeds(s0, Urls, fetch).state;
    SetupSpec(s);
    FeedsTrace(s0, Urls, fetch);
    SetupAnnounced(s);
    FeedsAnnounced(s0, Urls, fetch);
    ManualTail(u, file);
    assert t.reports[..|u.reports|] == u.reports;
  }

  /** What the manual step and the closing message append to the messages. */
  lemma ManualTail(u: State, file: ManualFile)
    ensures var t := Say(AddManualIps(u, ManualPath, file), Finished);
      && |u.reports| < |t.reports| - 1
      && t.reports[..|u.reports|] == u.reports
      && t.reports[|u.reports|] == (if file.Missing? then MissingFile(ManualPath) else AddingManual(ManualPath))
      && Announced(t.reports[|u.reports|..]) == []
  {
    ManualStepQuiet();
    var m := AddManualIps(u, ManualPath, file);
    AddManualIpsSpec(u, file);
    QuietTail(u, m, ManualStepReport);
    QuietSay(u, m, Finished);
  }

  /** A message that announces no feed, said after a quiet stretch, keeps it quiet. */
  lemma QuietSay(u: State, m: State, r: Report)
    requires |u.reports| < |m.reports| && m.reports[..|u.reports|] == u.reports
    requires Announced(m.reports[|u.reports|..]) == [] && !r.AddingFrom?
    ensures var t := Say(m, r);
      && |u.reports| < |t.reports| - 1
      && t.reports[..|u.reports|] == u.reports
      && t.reports[|u.reports|] == m.reports[|u.reports|]
      && Announced(t.reports[|u.reports|..]) == []
  {
    var i := |u.reports|;
    AnnouncedAppend(m.reports[i..], [r]);
    assert Say(m, r).reports[i..] == m.reports[i..] + [r];
  }

  /** Rejections announce no feed. */
  lemma RejectionQuiet()
    ensures forall r :: Rejection(r) ==> !r.AddingFrom?
  {
  }

  /** The manual step's messages announce no feed. */
  lemma ManualStepQuiet()
    ensures forall r :: ManualStepReport(r) ==> !r.AddingFrom?
  {
  }

  /** Messages none of which announces a feed. */
  lemma QuietTail(s: State, t: State, p: Report -> bool)
    requires ReportsWithin(s, t, p)
    requires forall r :: p(r) ==> !r.AddingFrom?
    ensures Announced(t.reports[|s.reports|..]) == []
  {
    var rest := t.reports[|s.reports|..];
    assert forall k :: 0 <= k < |rest| ==> rest[k] == t.reports[|s.reports| + k];
    AnnouncedNone(rest);
  }

  /**
   * A run that stops in a feed never reaches the manual file or the
   * closing message: after the setup it printed feed messages only.
   */
  lemma RunAborted(s: State, fetch: string -> Response, file: ManualFile)
    requires Run(s, fetch, file).Aborted?
    ensures ReportsWithin(Setup(s), Run(s, fetch, file).state, FeedReport)
  {
    FeedsTrace(Setup(s), Urls, fetch);
  }

  /** Once a feed has raised, the feeds after it are not read. */
  lemma {:induction false} FeedsAbortPersists(s: State, urls: seq<string>, fetch: string -> Response, j: nat)
    requires j <= |urls| && Feeds(s, urls[..j], fetch).Aborted?
    ensures Feeds(s, urls, fetch) == Feeds(s, urls[..j], fetch)
    decreases |urls| - j
  {
    if j < |urls| {
      assert urls[..|urls| - 1][..j] == urls[..j];
      FeedsAbortPersists(s, urls[..|urls| - 1], fetch, j);
    } else {
      assert urls[..j] == urls;
    }
  }
}
