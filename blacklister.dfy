/**
 * The script as it runs: one object standing for the machine, whose
 * ipset members, command trace and console messages each step updates in
 * place. Every method is proved to leave the machine in the state the
 * matching `Pipeline` function computes.
 */
module Blacklister {
  import opened Wrappers
  import opened Text
  import opened Address
  import opened Lines
  import opened Pipeline
  import Ingestion
  import Script

  class Host {
    /** The members of the ipset `blacklist`. */
    var members: set<string>
    /** The shell commands run so far. */
    var commands: seq<Command>
    /** The console messages printed so far. */
    var reports: seq<Report>

    function Snapshot(): State
      reads this
    {
      State(members, commands, reports)
    }

    /** A machine whose set already holds `initial` (`-exist` keeps it). */
    constructor (initial: set<string>)
      ensures Snapshot() == State(initial, [], [])
    {
      members := initial;
      commands := [];
      reports := [];
    }

    /** `run_command(command)`. */
    method RunCommand(c: Command)
      modifies this
      ensures Snapshot() == Execute(old(Snapshot()), c)
    {
      commands := commands + [c];
      if c.Add? {
        members := members + {c.addr};
      }
    }

    /** `console.print(...)`. */
    method Show(r: Report)
      modifies this
      ensures Snapshot() == Say(old(Snapshot()), r)
    {
      reports := reports + [r];
    }

    /** `is_ip_in_set(ip)`: runs `ipset test` and reports whether it succeeded. */
    method IsIpInSet(ip: string) returns (present: bool)
      modifies this
      ensures present <==> ip in old(members)
      ensures Snapshot() == Execute(old(Snapshot()), Test(ip))
    {
      present := ip in members;
      RunCommand(Test(ip));
    }

    /** The body both loops run on a token. */
    method Admit(tok: string, manual: bool)
      modifies this
      ensures Snapshot() == Ingest(old(Snapshot()), tok, manual)
    {
      var cleaned := Clean(tok);
      if cleaned.None? || cleaned.value == [] {
        Show(Invalid(tok));
      } else {
        var c := cleaned.value;
        var present := IsIpInSet(c);
        if !present {
          RunCommand(Add(c));
        } else if manual {
          Show(AlreadyPresent(c));
        }
      }
    }

    /**
     * The `for line in lines` loop of `add_to_ipset`: `advanced` counts the
     * progress updates, `raised` says the `IndexError` escaped.
     */
    method FeedLines(lines: seq<string>) returns (advanced: nat, raised: bool)
      modifies this
      ensures var r := FeedRun(old(Snapshot()), lines);
        Snapshot() == r.state && (raised <==> r.Crashed?) && advanced == Ingestion.Reached(r, lines)
    {
      var s0 := Snapshot();
      advanced, raised := 0, false;
      var i := 0;
      while i < |lines|
        invariant 0 <= i <= |lines| && advanced == i
        invariant FeedRun(s0, lines[..i]) == Done(Snapshot())
      {
        var line := lines[i];
        Ingestion.FeedRunNext(s0, lines, i, Snapshot());
        if IsDataLine(line) {
          var tok := FeedToken(line);
          if tok.None? {
            raised := true;
            Ingestion.FeedRunCrashPersists(s0, lines, i + 1);
            return;
          }
          Admit(tok.value, false);
        }
        advanced := advanced + 1;
        i := i + 1;
      }
      assert lines[..i] == lines;
    }

    /**
     * `add_to_ipset(url)`, given what the fetch returned. `total` is the
     * progress bar's announced total and `advanced` how often it moved;
     * `raised` says the `IndexError` escaped.
     */
    method AddToIpset(url: string, response: Response) returns (total: nat, advanced: nat, raised: bool)
      modifies this
      ensures var r := Pipeline.AddToIpset(old(Snapshot()), url, response);
        Snapshot() == r.state && (raised <==> r.Crashed?)
      ensures response.Body? ==>
        total == ProgressTotal(response.lines)
        && advanced == Ingestion.Reached(Pipeline.AddToIpset(old(Snapshot()), url, response), response.lines)
      ensures response.NetworkError? ==> total == 0 && advanced == 0
    {
      Show(AddingFrom(url));
      match response
      case NetworkError =>
        Show(FetchFailed(url));
        total, advanced, raised := 0, 0, false;
      case Body(lines) =>
        total := ProgressTotal(lines);
        advanced, raised := FeedLines(lines);
    }

    /** The `for line in f` loop of `add_manual_ips`. */
    method ManualLines(lines: seq<string>)
      modifies this
      ensures Snapshot() == ManualRun(old(Snapshot()), lines)
    {
      var s0 := Snapshot();
      var i := 0;
      while i < |lines|
        invariant 0 <= i <= |lines|
        invariant Snapshot() == ManualRun(s0, lines[..i])
      {
        assert lines[..i + 1][..i] == lines[..i];
        var tok := Strip(lines[i]);
        if tok != [] {
          Admit(tok, true);
        }
        i := i + 1;
      }
      assert lines[..i] == lines;
    }

    /** `add_manual_ips(path)`, given what the path names. */
    method AddManualIps(path: string, file: ManualFile)
      modifies this
      ensures Snapshot() == Pipeline.AddManualIps(old(Snapshot()), path, file)
    {
      match file
      case Missing =>
        Show(MissingFile(path));
      case Contents(lines) =>
        Show(AddingManual(path));
        ManualLines(lines);
    }

    /**
     * The module body: create the set, replace the rule, read the feeds in
     * order, then the manual file. `completed` is false when a feed raised.
     */
    method Run(fetch: string -> Response, file: ManualFile) returns (completed: bool)
      modifies this
      ensures var r := Pipeline.Run(old(Snapshot()), fetch, file);
        Snapshot() == r.state && (completed <==> r.Completed?)
    {
      RunCommand(CreateSet);
      Show(RemovingRules);
      RunCommand(DeleteRule);
      Show(ApplyingRule);
      RunCommand(InsertRule);
      completed := RunFeeds(fetch);
      if completed {
        AddManualIps(ManualPath, file);
        Show(Finished);
      }
    }

    /** The `for url in urls` loop; `false` when a feed raised. */
    method RunFeeds(fetch: string -> Response) returns (completed: bool)
      modifies this
      ensures var r := Feeds(old(Snapshot()), Urls, fetch);
        Snapshot() == r.state && (completed <==> r.Completed?)
    {
      var s0 := Snapshot();
      var j := 0;
      while j < |Urls|
        invariant 0 <= j <= |Urls|
        invariant Feeds(s0, Urls[..j], fetch) == Completed(Snapshot())
      {
        assert Urls[..j + 1][..j] == Urls[..j];
        var url := Urls[j];
        var _, _, raised := AddToIpset(url, fetch(url));
        if raised {
          Script.FeedsAbortPersists(s0, Urls, fetch, j + 1);
          return false;
        }
        j := j + 1;
      }
      assert Urls[..j] == Urls;
      completed := true;
    }
  }
}
