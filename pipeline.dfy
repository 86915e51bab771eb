/**
 * What the blacklister does to the outside world, as values: the kernel's
 * ipset `blacklist` is a set of strings, every shell command is appended
 * to a trace, and every console message is appended to a list of
 * reports. The functions below are the reference semantics that the
 * imperative `Blacklister.Host` is proved against.
 */
module Pipeline {
  import opened Wrappers
  import opened Text
  import opened Address
  import opened Lines

  /** The manual list read after the feeds. */
  const ManualPath: string := "manual_blacklist.txt"

  /** The five feeds, in the order they are fetched. */
  const Urls: seq<string> := [
    "https://raw.githubusercontent.com/firehol/blocklist-ipsets/master/firehol_level1.netset",
    "https://www.spamhaus.org/drop/drop.txt",
    "https://rules.emergingthreats.net/fwrules/emerging-Block-IPs.txt",
    "https://www.dshield.org/ipsascii.html?limit=10000",
    "http://cinsscore.com/list/ci-badguys.txt"
  ]

  /** The shell commands the script runs. */
  datatype Command =
    | CreateSet
    | DeleteRule
    | InsertRule
    | Test(addr: string)
    | Add(addr: string)

  /** The exact text handed to the shell for each command. */
  function CommandLine(c: Command): string {
    match c
    case CreateSet => "sudo ipset create blacklist hash:net -exist"
    case DeleteRule => "sudo iptables -D INPUT -m set --match-set blacklist src -j DROP 2>/dev/null"
    case InsertRule => "sudo iptables -I INPUT -m set --match-set blacklist src -j DROP"
    case Test(a) => "sudo ipset test blacklist " + a
    case Add(a) => "sudo ipset add blacklist " + a
  }

  /** The kinds of console message, with the value each one shows. */
  datatype Report =
    | AddingFrom(url: string)
    | FetchFailed(url: string)
    | Invalid(token: string)
    | AlreadyPresent(addr: string)
    | AddingManual(path: string)
    | MissingFile(path: string)
    | RemovingRules
    | ApplyingRule
    | Finished

  /** The ipset's members, the commands run so far and the messages printed. */
  datatype State = State(members: set<string>, commands: seq<Command>, reports: seq<Report>)

  /** What `requests.get` gives back: a network failure or the body's lines. */
  datatype Response = NetworkError | Body(lines: seq<string>)

  /** What the manual path names: no regular file, or a file's lines. */
  datatype ManualFile = Missing | Contents(lines: seq<string>)

  /** A feed either runs to its end or stops at the line that raised. */
  datatype FeedResult = Done(state: State) | Crashed(state: State, at: nat)

  /** The script either completes or stops inside the feed with this index. */
  datatype RunResult = Completed(state: State) | Aborted(state: State, feed: nat)

  /** Runs a command; only `ipset add` changes the set. */
  function Execute(s: State, c: Command): State {
    s.(members := if c.Add? then s.members + {c.addr} else s.members,
       commands := s.commands + [c])
  }

  /** Prints a message. */
  function Say(s: State, r: Report): State {
    s.(reports := s.reports + [r])
  }

  /** `cleaned_ip = clean_ip(ip)` followed by the truth test `if cleaned_ip`. */
  function Admitted(tok: string): Option<string> {
    var c := Clean(tok);
    if c.None? || c.value == [] then None else c
  }

  /**
   * One token through the body shared by both loops: an invalid one is
   * reported; a valid one is tested and added when the test fails. Only
   * the manual loop reports a valid token that is already present.
   */
  function Ingest(s: State, tok: string, manual: bool): State {
    match Admitted(tok)
    case None => Say(s, Invalid(tok))
    case Some(c) =>
      var tested := Execute(s, Test(c));
      if c !in s.members then Execute(tested, Add(c))
      else if manual then Say(tested, AlreadyPresent(c))
      else tested
  }

  /** One feed line; `None` is the `IndexError` of a whitespace-only line. */
  function FeedLine(s: State, line: string): Option<State> {
    if !IsDataLine(line) then Some(s)
    else match FeedToken(line)
      case None => None
      case Some(tok) => Some(Ingest(s, tok, false))
  }

  /** The `for line in lines` loop of `add_to_ipset`. */
  function FeedRun(s: State, lines: seq<string>): FeedResult
    decreases |lines|
  {
    if lines == [] then Done(s)
    else match FeedRun(s, lines[..|lines| - 1])
      case Crashed(t, at) => Crashed(t, at)
      case Done(t) =>
        match FeedLine(t, lines[|lines| - 1])
        case None => Crashed(t, |lines| - 1)
        case Some(u) => Done(u)
  }

  /** `add_to_ipset(url)` given what the fetch of `url` returned. */
  function AddToIpset(s: State, url: string, resp: Response): FeedResult {
    var announced := Say(s, AddingFrom(url));
    match resp
    case NetworkError => Done(Say(announced, FetchFailed(url)))
    case Body(lines) => FeedRun(announced, lines)
  }

  /** One line of the manual file: stripped, skipped when blank. */
  function ManualLine(s: State, line: string): State {
    var tok := Strip(line);
    if tok == [] then s else Ingest(s, tok, true)
  }

  /** The `for line in f` loop of `add_manual_ips`. */
  function ManualRun(s: State, lines: seq<string>): State
    decreases |lines|
  {
    if lines == [] then s
    else ManualLine(ManualRun(s, lines[..|lines| - 1]), lines[|lines| - 1])
  }

  /** `add_manual_ips(path)`; a missing file changes nothing but the messages. */
  function AddManualIps(s: State, path: string, file: ManualFile): (t: State)
    ensures file.Missing? ==> t.members == s.members && t.commands == s.commands
  {
    match file
    case Missing => Say(s, MissingFile(path))
    case Contents(lines) => ManualRun(Say(s, AddingManual(path)), lines)
  }

  /** The `for url in urls` loop over the first `|urls|` feeds. */
  function Feeds(s: State, urls: seq<string>, fetch: string -> Response): RunResult
    decreases |urls|
  {
    if urls == [] then Completed(s)
    else match Feeds(s, urls[..|urls| - 1], fetch)
      case Aborted(t, k) => Aborted(t, k)
      case Completed(t) =>
        var url := urls[|urls| - 1];
        match AddToIpset(t, url, fetch(url))
        case Done(u) => Completed(u)
        case Crashed(u, _) => Aborted(u, |urls| - 1)
  }

  /** The state after the three setup commands and their two messages. */
  function Setup(s: State): State {
    Execute(Say(Execute(Say(Execute(s, CreateSet), RemovingRules), DeleteRule), ApplyingRule), InsertRule)
  }

  /** The whole script, from the set's creation to the closing message. */
  function Run(s: State, fetch: string -> Response, file: ManualFile): RunResult {
    match Feeds(Setup(s), Urls, fetch)
    case Aborted(t, k) => Aborted(t, k)
    case Completed(t) => Completed(Say(AddManualIps(t, ManualPath, file), Finished))
  }
}
