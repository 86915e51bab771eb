/**
 * What the two ingestion loops of the blacklister guarantee: the set only
 * grows, and grows by exactly the admitted addresses; every test and add
 * names a canonical address; an address gets an add exactly when it was
 * not in the set before; invalid tokens are reported and never added; a
 * feed stops at its first whitespace-only data line.
 */
module Ingestion {
  import opened Wrappers
  import opened Text
  import opened Address
  import opened Lines
  import opened Pipeline

  /** The set holding the value of `o`, if any. */
  function Opt(o: Option<string>): (r: set<string>)
    ensures o.None? <==> r == {}
  {
    if o.None? then {} else {o.value}
  }

  /** An address `clean_ip` returns unchanged. */
  predicate CanonicalAddress(a: string) {
    Clean(a) == Some(a)
  }

  /** A command the loops issue: a test or an add of an address `ok` holds of. */
  predicate Issued(c: Command, ok: string -> bool) {
    (c.Test? || c.Add?) && ok(c.addr)
  }

  /** The commands `t` ran after those of `s`. */
  function NewCommands(s: State, t: State): seq<Command>
    requires |s.commands| <= |t.commands|
  {
    t.commands[|s.commands|..]
  }

  /**
   * `t` is reached from `s` by the loops' commands: the set and both logs
   * only grow, every new command is a test or add of an address `ok`
   * holds of, `ok` holds of every new member, and each address was added
   * once if it is new to the set and never otherwise.
   */
  ghost predicate Extends(s: State, t: State, ok: string -> bool) {
    && s.members <= t.members
    && |s.commands| <= |t.commands| && t.commands[..|s.commands|] == s.commands
    && |s.reports| <= |t.reports| && t.reports[..|s.reports|] == s.reports
    && (forall k :: |s.commands| <= k < |t.commands| ==> Issued(t.commands[k], ok))
    && (forall a :: a in t.members - s.members ==> ok(a))
    && (forall a :: multiset(NewCommands(s, t))[Add(a)] == if a in t.members - s.members then 1 else 0)
  }

  lemma ExtendsRefl(s: State, ok: string -> bool)
    ensures Extends(s, s, ok)
  {
    assert NewCommands(s, s) == [];
  }

  lemma {:induction false} ExtendsTrans(s: State, t: State, u: State, ok: string -> bool)
    requires Extends(s, t, ok) && Extends(t, u, ok)
    ensures Extends(s, u, ok)
  {
    var a, b := NewCommands(s, t), NewCommands(t, u);
    assert u.commands[..|t.commands|][..|s.commands|] == u.commands[..|s.commands|];
    assert u.reports[..|t.reports|][..|s.reports|] == u.reports[..|s.reports|];
    assert NewCommands(s, u) == a + b by {
      assert u.commands == t.commands + b;
      assert t.commands == s.commands + a;
    }
    forall k | |s.commands| <= k < |u.commands| ensures Issued(u.commands[k], ok) {
      if k < |t.commands| {
        assert u.commands[k] == u.commands[..|t.commands|][k];
      }
    }
    forall x ensures multiset(NewCommands(s, u))[Add(x)] == if x in u.members - s.members then 1 else 0 {
      assert multiset(a + b)[Add(x)] == multiset(a)[Add(x)] + multiset(b)[Add(x)];
    }
  }

  /**
   * The shell text of a command the loops issue is the fixed `ipset`
   * prefix followed by digits, '.' and '/' only.
   */
  lemma IssuedLineSafe(c: Command)
    requires Issued(c, CanonicalAddress)
    ensures CommandLine(c)
      == (if c.Test? then "sudo ipset test blacklist " else "sudo ipset add blacklist ") + c.addr
    ensures forall i :: 0 <= i < |c.addr| ==> SafeChar(c.addr[i])
  {
    CleanOutputSafe(c.addr);
  }

  /** A printed message extends the state. */
  lemma SayExtends(s: State, r: Report, ok: string -> bool)
    ensures Extends(s, Say(s, r), ok)
  {
    assert NewCommands(s, Say(s, r)) == [];
  }

  /** A test of an address `ok` holds of extends the state. */
  lemma TestExtends(s: State, c: string, ok: string -> bool)
    requires ok(c)
    ensures Extends(s, Execute(s, Test(c)), ok)
  {
    var t := Execute(s, Test(c));
    assert NewCommands(s, t) == [Test(c)];
  }

  /** A test followed by the add of an address new to the set. */
  lemma AddExtends(s: State, c: string, ok: string -> bool)
    requires ok(c) && c !in s.members
    ensures Extends(s, Execute(Execute(s, Test(c)), Add(c)), ok)
  {
    var t := Execute(Execute(s, Test(c)), Add(c));
    assert NewCommands(s, t) == [Test(c), Add(c)];
    assert t.commands[..|s.commands|] == s.commands;
  }

  /** What `clean_ip` admits it would admit unchanged. */
  lemma AdmittedCanonical(tok: string)
    requires Admitted(tok).Some?
    ensures CanonicalAddress(Admitted(tok).value)
  {
    CleanIdempotent(tok);
  }

  /** An invalid token is only reported. */
  lemma IngestRejected(s: State, tok: string, manual: bool)
    requires Admitted(tok).None?
    ensures Ingest(s, tok, manual) == Say(s, Invalid(tok))
  {
  }

  /** A valid address new to the set is tested, then added. */
  lemma IngestNew(s: State, tok: string, manual: bool, c: string)
    requires Admitted(tok) == Some(c) && c !in s.members
    ensures Ingest(s, tok, manual) == Execute(Execute(s, Test(c)), Add(c))
  {
  }

  /** A valid address already in the set: tested, not added, reported only by the manual loop. */
  lemma PresentAddress(s: State, tok: string, c: string)
    requires Admitted(tok) == Some(c) && c in s.members
    ensures Ingest(s, tok, true) == Say(Execute(s, Test(c)), AlreadyPresent(c))
    ensures Ingest(s, tok, false) == Execute(s, Test(c))
    ensures Ingest(s, tok, false).members == s.members
  {
  }

  /** One token through the shared loop body. */
  lemma IngestSpec(s: State, tok: string, manual: bool)
    ensures Extends(s, Ingest(s, tok, manual), CanonicalAddress)
    ensures Ingest(s, tok, manual).members == s.members + Opt(Admitted(tok))
  {
    var a := Admitted(tok);
    if a.None? {
      IngestRejected(s, tok, manual);
      SayExtends(s, Invalid(tok), CanonicalAddress);
    } else {
      var c := a.value;
      AdmittedCanonical(tok);
      if c !in s.members {
        IngestNew(s, tok, manual, c);
        AddExtends(s, c, CanonicalAddress);
      } else {
        PresentAddress(s, tok, c);
        TestExtends(s, c, CanonicalAddress);
        if manual {
          SayExtends(Execute(s, Test(c)), AlreadyPresent(c), CanonicalAddress);
          ExtendsTrans(s, Execute(s, Test(c)), Ingest(s, tok, manual), CanonicalAddress);
        }
      }
    }
  }

  /** Tokenising a whitespace-only data line raises `IndexError`. */
  predicate Fatal(line: string) {
    IsDataLine(line) && AllSpace(line)
  }

  /** Exactly the whitespace-only data lines raise. */
  lemma FeedLineFails(s: State, line: string)
    ensures FeedLine(s, line).None? <==> Fatal(line)
  {
  }

  /** The address a feed line contributes, if it contributes one. */
  function FeedAddress(line: string): Option<string> {
    if !IsDataLine(line) then None
    else match FeedToken(line)
      case None => None
      case Some(tok) => Admitted(tok)
  }

  /** A feed line that does not raise adds its address, if it has one. */
  lemma FeedLineSpec(t: State, line: string)
    requires FeedLine(t, line).Some?
    ensures Extends(t, FeedLine(t, line).value, CanonicalAddress)
    ensures FeedLine(t, line).value.members == t.members + Opt(FeedAddress(line))
  {
    if IsDataLine(line) {
      IngestSpec(t, FeedToken(line).value, false);
    } else {
      ExtendsRefl(t, CanonicalAddress);
    }
  }

  /** The addresses `f` draws from the lines, one per line at most. */
  function Collected(lines: seq<string>, f: string -> Option<string>): set<string> {
    set k | 0 <= k < |lines| && f(lines[k]).Some? :: f(lines[k]).value
  }

  /** All addresses the lines of a feed contribute. */
  function FeedAddresses(lines: seq<string>): set<string> {
    Collected(lines, FeedAddress)
  }

  lemma CollectedSnoc(lines: seq<string>, f: string -> Option<string>)
    requires lines != []
    ensures Collected(lines, f)
      == Collected(lines[..|lines| - 1], f) + Opt(f(lines[|lines| - 1]))
  {
    var init := lines[..|lines| - 1];
    forall a | a in Collected(lines, f)
      ensures a in Collected(init, f) + Opt(f(lines[|lines| - 1]))
    {
      var k :| 0 <= k < |lines| && f(lines[k]).Some? && f(lines[k]).value == a;
      if k < |init| {
        assert init[k] == lines[k];
      }
    }
    forall a | a in Collected(init, f) ensures a in Collected(lines, f) {
      var k :| 0 <= k < |init| && f(init[k]).Some? && f(init[k]).value == a;
      assert init[k] == lines[k];
    }
  }

  /** A set grown by the addresses of some lines, then by those of one more. */
  lemma CollectedStep(m0: set<string>, m1: set<string>, m2: set<string>, lines: seq<string>,
                      f: string -> Option<string>)
    requires lines != []
    requires m1 == m0 + Collected(lines[..|lines| - 1], f)
    requires m2 == m1 + Opt(f(lines[|lines| - 1]))
    ensures m2 == m0 + Collected(lines, f)
  {
    CollectedSnoc(lines, f);
  }

  /** How far a feed run got: all its lines, or up to the line that raised. */
  function Reached(r: FeedResult, lines: seq<string>): nat {
    if r.Done? then |lines| else r.at
  }

  /** A feed that raised did so at a whitespace-only data line, the first one. */
  lemma {:induction false} FeedRunCrash(s: State, lines: seq<string>)
    ensures var r := FeedRun(s, lines);
      r.Crashed? ==>
        r.at < |lines| && Fatal(lines[r.at]) && forall k :: 0 <= k < r.at ==> !Fatal(lines[k])
    decreases |lines|
  {
    if lines != [] {
      var init := lines[..|lines| - 1];
      FeedRunCrash(s, init);
      match FeedRun(s, init)
      case Crashed(_, at) =>
        assert init[at] == lines[at];
        forall k | 0 <= k < at ensures !Fatal(lines[k]) {
          assert init[k] == lines[k];
        }
      case Done(t) =>
        FeedLineFails(t, lines[|lines| - 1]);
        FeedRunDone(s, init);
        forall k | 0 <= k < |init| ensures !Fatal(lines[k]) {
          assert init[k] == lines[k];
        }
    }
  }

  /** A feed that ran to its end had no whitespace-only data line. */
  lemma {:induction false} FeedRunDone(s: State, lines: seq<string>)
    ensures FeedRun(s, lines).Done? ==> forall k :: 0 <= k < |lines| ==> !Fatal(lines[k])
    decreases |lines|
  {
    if lines != [] {
      var init := lines[..|lines| - 1];
      FeedRunDone(s, init);
      match FeedRun(s, init)
      case Crashed(_, _) =>
      case Done(t) =>
        FeedLineFails(t, lines[|lines| - 1]);
        forall k | 0 <= k < |init| ensures !Fatal(lines[k]) {
          assert init[k] == lines[k];
        }
    }
  }

  /**
   * A feed runs to its end exactly when it has no whitespace-only data
   * line, and otherwise stops at the first one.
   */
  lemma FeedRunStops(s: State, lines: seq<string>)
    ensures FeedRun(s, lines).Done? <==> forall k :: 0 <= k < |lines| ==> !Fatal(lines[k])
    ensures var r := FeedRun(s, lines);
      r.Crashed? ==>
        r.at < |lines| && Fatal(lines[r.at]) && forall k :: 0 <= k < r.at ==> !Fatal(lines[k])
  {
    FeedRunCrash(s, lines);
    FeedRunDone(s, lines);
  }

  /** The loop of `add_to_ipset` extends the state. */
  lemma {:induction false} FeedRunExtends(s: State, lines: seq<string>)
    ensures Extends(s, FeedRun(s, lines).state, CanonicalAddress)
    decreases |lines|
  {
    if lines == [] {
      ExtendsRefl(s, CanonicalAddress);
    } else {
      var init := lines[..|lines| - 1];
      FeedRunExtends(s, init);
      match FeedRun(s, init)
      case Crashed(_, _) =>
      case Done(t) =>
        match FeedLine(t, lines[|lines| - 1])
        case None =>
        case Some(u) =>
          FeedLineSpec(t, lines[|lines| - 1]);
          ExtendsTrans(s, t, u, CanonicalAddress);
    }
  }

  /**
   * The loop of `add_to_ipset` leaves the set as the old set plus the
   * addresses of the lines it got through.
   */
  lemma {:induction false} FeedRunMembers(s: State, lines: seq<string>)
    ensures Reached(FeedRun(s, lines), lines) <= |lines|
    ensures FeedRun(s, lines).state.members
      == s.members + FeedAddresses(lines[..Reached(FeedRun(s, lines), lines)])
    decreases |lines|
  {
    if lines == [] {
      assert lines[..0] == [];
    } else {
      var init := lines[..|lines| - 1];
      FeedRunMembers(s, init);
      assert ReachedMembers(s, init);
      var r := FeedRun(s, init);
      if r.Crashed? {
        MembersPastCrash(s, lines);
      } else if FeedLine(r.state, lines[|lines| - 1]).None? {
        MembersAtCrash(s, lines);
      } else {
        MembersAfterLine(s, lines);
      }
    }
  }

  /** The two facts `FeedRunMembers` states, for the induction's steps. */
  ghost predicate ReachedMembers(s: State, lines: seq<string>) {
    var r := FeedRun(s, lines);
    Reached(r, lines) <= |lines| && r.state.members == s.members + FeedAddresses(lines[..Reached(r, lines)])
  }

  /** Lines after the one that raised are never read. */
  lemma MembersPastCrash(s: State, lines: seq<string>)
    requires lines != [] && ReachedMembers(s, lines[..|lines| - 1])
    requires FeedRun(s, lines[..|lines| - 1]).Crashed?
    ensures ReachedMembers(s, lines)
  {
    var init := lines[..|lines| - 1];
    var r := FeedRun(s, init);
    assert FeedRun(s, lines) == r;
    CollectedPrefix(lines, init, r.at, FeedAddress);
  }

  /** Lines that agree up to `n` draw the same values from their first `n`. */
  lemma CollectedPrefix(a: seq<string>, b: seq<string>, n: nat, f: string -> Option<string>)
    requires n <= |b| <= |a| && b == a[..|b|]
    ensures Collected(a[..n], f) == Collected(b[..n], f)
  {
    assert a[..n] == b[..n];
  }

  /** The line that raises adds nothing. */
  lemma MembersAtCrash(s: State, lines: seq<string>)
    requires lines != [] && ReachedMembers(s, lines[..|lines| - 1])
    requires FeedRun(s, lines[..|lines| - 1]).Done?
    requires FeedLine(FeedRun(s, lines[..|lines| - 1]).state, lines[|lines| - 1]).None?
    ensures ReachedMembers(s, lines)
  {
    var init := lines[..|lines| - 1];
    assert init[..|init|] == init;
  }

  /** A line that goes through adds the address it holds, if any. */
  lemma MembersAfterLine(s: State, lines: seq<string>)
    requires lines != [] && ReachedMembers(s, lines[..|lines| - 1])
    requires FeedRun(s, lines[..|lines| - 1]).Done?
    requires FeedLine(FeedRun(s, lines[..|lines| - 1]).state, lines[|lines| - 1]).Some?
    ensures ReachedMembers(s, lines)
  {
    var init := lines[..|lines| - 1];
    var t := FeedRun(s, init).state;
    var line := lines[|lines| - 1];
    var u := FeedLine(t, line).value;
    assert init[..|init|] == init;
    assert lines[..|lines|] == lines;
    FeedLineSpec(t, line);
    CollectedStep(s.members, t.members, u.members, lines, FeedAddress);
  }

  /** Every message `t` printed after those of `s` satisfies `p`. */
  ghost predicate ReportsWithin(s: State, t: State, p: Report -> bool) {
    && |s.reports| <= |t.reports| && t.reports[..|s.reports|] == s.reports
    && forall k :: |s.reports| <= k < |t.reports| ==> p(t.reports[k])
  }

  lemma {:induction false} ReportsTrans(s: State, t: State, u: State, p: Report -> bool)
    requires ReportsWithin(s, t, p) && ReportsWithin(t, u, p)
    ensures ReportsWithin(s, u, p)
  {
    assert u.reports[..|t.reports|][..|s.reports|] == u.reports[..|s.reports|];
    forall k | |s.reports| <= k < |u.reports| ensures p(u.reports[k]) {
      if k < |t.reports| {
        assert u.reports[k] == u.reports[..|t.reports|][k];
      }
    }
  }

  lemma SayWithin(s: State, r: Report, p: Report -> bool)
    requires p(r)
    ensures ReportsWithin(s, Say(s, r), p)
  {
  }

  /** The message for a token `clean_ip` rejects. */
  predicate Rejection(r: Report) {
    r.Invalid? && Admitted(r.token).None?
  }

  /** The messages of the manual loop: rejections and canonical duplicates. */
  predicate ManualReport(r: Report) {
    Rejection(r) || (r.AlreadyPresent? && CanonicalAddress(r.addr))
  }

  /**
   * The feed loop reports rejected tokens only; the manual loop also
   * reports valid addresses already in the set.
   */
  lemma IngestReports(s: State, tok: string, manual: bool)
    ensures ReportsWithin(s, Ingest(s, tok, manual), if manual then ManualReport else Rejection)
  {
    var p := if manual then ManualReport else Rejection;
    match Admitted(tok)
    case None =>
      SayWithin(s, Invalid(tok), p);
    case Some(c) =>
      if c in s.members && manual {
        AdmittedCanonical(tok);
        SayWithin(Execute(s, Test(c)), AlreadyPresent(c), p);
      }
  }

  /** The feed loop prints nothing but rejections. */
  lemma {:induction false} FeedRunReports(s: State, lines: seq<string>)
    ensures ReportsWithin(s, FeedRun(s, lines).state, Rejection)
    decreases |lines|
  {
    if lines != [] {
      var init := lines[..|lines| - 1];
      FeedRunReports(s, init);
      match FeedRun(s, init)
      case Crashed(_, _) =>
      case Done(t) =>
        match FeedLine(t, lines[|lines| - 1])
        case None =>
        case Some(u) =>
          if IsDataLine(lines[|lines| - 1]) {
            IngestReports(t, FeedToken(lines[|lines| - 1]).value, false);
            ReportsTrans(s, t, u, Rejection);
          }
    }
  }

  /** The address a manual line contributes, if it contributes one. */
  function ManualAddress(line: string): Option<string> {
    var tok := Strip(line);
    if tok == [] then None else Admitted(tok)
  }

  /**
   * The loop of `add_manual_ips` extends the state, the set ends up as the
   * old set plus the addresses of the lines, and it prints rejections and
   * duplicates only.
   */
  lemma {:induction false} ManualRunSpec(s: State, lines: seq<string>)
    ensures Extends(s, ManualRun(s, lines), CanonicalAddress)
    ensures ManualRun(s, lines).members == s.members + Collected(lines, ManualAddress)
    ensures ReportsWithin(s, ManualRun(s, lines), ManualReport)
    decreases |lines|
  {
    if lines == [] {
      ExtendsRefl(s, CanonicalAddress);
    } else {
      var init := lines[..|lines| - 1];
      var line := lines[|lines| - 1];
      var t := ManualRun(s, init);
      var u := ManualRun(s, lines);
      ManualRunSpec(s, init);
      if Strip(line) != [] {
        IngestSpec(t, Strip(line), true);
        IngestReports(t, Strip(line), true);
        ExtendsTrans(s, t, u, CanonicalAddress);
        ReportsTrans(s, t, u, ManualReport);
      }
      CollectedStep(s.members, t.members, u.members, lines, ManualAddress);
    }
  }

  /** The line after a prefix that ran to its end decides the next outcome. */
  lemma FeedRunNext(s: State, lines: seq<string>, i: nat, t: State)
    requires i < |lines| && FeedRun(s, lines[..i]) == Done(t)
    ensures FeedRun(s, lines[..i + 1]) ==
      match FeedLine(t, lines[i])
      case None => Crashed(t, i)
      case Some(u) => Done(u)
  {
    assert lines[..i + 1][..i] == lines[..i];
  }

  /** Once a prefix of the feed has raised, the lines after it do not run. */
  lemma {:induction false} FeedRunCrashPersists(s: State, lines: seq<string>, j: nat)
    requires j <= |lines| && FeedRun(s, lines[..j]).Crashed?
    ensures FeedRun(s, lines) == FeedRun(s, lines[..j])
    decreases |lines| - j
  {
    if j < |lines| {
      assert lines[..|lines| - 1][..j] == lines[..j];
      FeedRunCrashPersists(s, lines[..|lines| - 1], j);
    } else {
      assert lines[..j] == lines;
    }
  }
}
