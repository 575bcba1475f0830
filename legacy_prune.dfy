/** The legacy `prune` command (src/PruneCommand.cs), the command the
    program's entry point dispatches to: parse the sync roots, check them,
    then for each one connect, force the placeholder state, disconnect and
    unregister it from the shell and from the filesystem. */
module LegacyPrune {
  import opened Text
  import opened OptionParsing
  import opened Settings
  import opened Effects
  import ParserProperties

  datatype PruneError = BadArguments(error: ParseError) | InvalidPath(path: Path) | NoSyncRoots | NoExistingSyncRoot

  datatype Outcome =
    | ShowedHelp
    | Exited(code: int, trace: seq<Event>)
    | Raised(error: PruneError)

  /** The paths `new DirectoryInfo(value)` refuses with an ArgumentException:
      one that is empty or made of spaces only, and one holding a NUL. */
  predicate RejectedPath(value: string)
  {
    (forall i :: 0 <= i < |value| ==> value[i] == ' ') || '\0' in value
  }

  /** ParseSyncRoot: the reply of a one-value handler, except that a value
      DirectoryInfo refuses makes AddSyncRoot throw before anything is
      added. */
  function SyncRootReply(kind: OptionType, value: Option<string>): (r: Reply)
    ensures r == Answer(NeedMore) <==> kind == Switch
    ensures r == Throws <==> kind != Switch && (IsNullOrWhiteSpace(value) || RejectedPath(value.value))
    ensures r == Throws || r == Answer(NeedMore) || r == Answer(Continue)
  {
    if kind != Switch && value.Some? && RejectedPath(value.value) then Throws
    else ValueReply(kind, value)
  }

  /** The options a PruneCommandSettings registers, in order. */
  function PruneTable(): seq<Entry<Handler>>
  {
    BaseTable() + [Entry("SyncRoots", DerivedHandler)]
  }

  /** The index of the first path DirectoryInfo refuses, or the length when
      it accepts them all. */
  function FirstRejected(paths: seq<Path>): (k: nat)
    ensures k <= |paths|
    ensures forall i :: 0 <= i < k ==> !RejectedPath(paths[i])
    ensures k < |paths| ==> RejectedPath(paths[k])
  {
    if paths == [] || RejectedPath(paths[0]) then 0
    else 1 + FirstRejected(paths[1..])
  }

  /** The exception `args.ForEach(AddSyncRoot)` ends with, if any. */
  function LeftoverError(paths: seq<Path>): Option<PruneError>
  {
    var k := FirstRejected(paths);
    if k < |paths| then Some(InvalidPath(paths[k])) else None
  }

  /** SyncRoots after a parse: the option values, then the leftovers in
      front of the first one DirectoryInfo refuses. */
  function CollectedRoots(o: ParseOutcome<Handler>): seq<Path>
  {
    SuppliedValues(DerivedCalls(o.calls))
    + (if o.Parsed? then o.remaining[..FirstRejected(o.remaining)] else [])
  }

  /** The exception settings.Parse ends with, if any: the scan's, or the
      one ConsumeRemaining raises on a refused leftover. */
  function ParseFailure(o: ParseOutcome<Handler>): Option<PruneError>
  {
    if o.Failed? then Some(BadArguments(o.error)) else LeftoverError(o.remaining)
  }

  /** The values of calls that returned normally: none of them is refused. */
  predicate AcceptedValues(calls: seq<Call<Handler>>)
  {
    forall c :: c in calls && c.kind != Switch && c.value.Some? ==> !RejectedPath(c.value.value)
  }

  class PruneCommandSettings {
    const base: CommandSettings
    var syncRoots: seq<Path>

    ghost predicate Valid()
      reads this, base, base.parser
    {
      base.Valid() && base.parser.table == PruneTable()
    }

    /** The base options, then SyncRoots; no roots yet, both flags off. */
    constructor ()
      ensures Valid() && fresh(base) && fresh(base.parser)
      ensures syncRoots == [] && !base.confirm && !base.whatIf
    {
      base := new CommandSettings();
      syncRoots := [];
      new;
      assert !IsWhiteSpace("SyncRoots"[0]);
      var error := base.Register(Some("SyncRoots"), DerivedHandler);
      assert base.parser.table[..2] == BaseTable();
    }

    /** `SyncRoots.Add(new(value))`: a path DirectoryInfo refuses throws
        before it is added. */
    method AddSyncRoot(value: Path) returns (error: Option<PruneError>)
      modifies this
      ensures error == (if RejectedPath(value) then Some(InvalidPath(value)) else None)
      ensures syncRoots == old(syncRoots) + (if RejectedPath(value) then [] else [value])
    {
      if RejectedPath(value) {
        return Some(InvalidPath(value));
      }
      syncRoots := syncRoots + [value];
      return None;
    }

    /** `args.ForEach(AddSyncRoot)`: the leftovers become sync roots in order
        until one is refused, whose exception ends the loop. */
    method ConsumeRemaining(args: seq<string>) returns (error: Option<PruneError>)
      modifies this
      ensures syncRoots == old(syncRoots) + args[..FirstRejected(args)]
      ensures error == LeftoverError(args)
    {
      var i := 0;
      while i < |args|
        invariant i <= FirstRejected(args)
        invariant syncRoots == old(syncRoots) + args[..i]
      {
        PrefixStep(args, i);
        error := AddSyncRoot(args[i]);
        if error.Some? {
          return;
        }
        i := i + 1;
      }
      TakeAll(args);
      error := None;
    }

    /** The effect of the ParseSyncRoot calls that returned, in order. */
    method ReplaySyncRootCalls(calls: seq<Call<Handler>>)
      requires AcceptedValues(calls)
      modifies this
      ensures syncRoots == old(syncRoots) + SuppliedValues(calls)
    {
      for i := 0 to |calls|
        invariant syncRoots == old(syncRoots) + SuppliedValues(calls[..i])
      {
        assert calls[..i + 1][..i] == calls[..i];
        var c := calls[i];
        if c.kind != Switch && c.value.Some? {
          var _ := AddSyncRoot(c.value.value);
        }
      }
      assert calls[..|calls|] == calls;
    }

    /** What this class does with the base parse's result: the handler's
        values, then, when the parse returned, ConsumeRemaining. */
    method Absorb(result: SettingsParse) returns (error: Option<PruneError>)
      requires AcceptedValues(result.derivedCalls)
      modifies this
      ensures error == (if result.Threw? then Some(BadArguments(result.error)) else LeftoverError(result.remaining))
      ensures syncRoots == old(syncRoots) + (SuppliedValues(result.derivedCalls)
                                             + (if result.Done? then result.remaining[..FirstRejected(result.remaining)] else []))
    {
      ReplaySyncRootCalls(result.derivedCalls);
      ghost var supplied := SuppliedValues(result.derivedCalls);
      match result {
        case Done(remaining, _) =>
          error := ConsumeRemaining(remaining);
          AppendAssoc(old(syncRoots), supplied, remaining[..FirstRejected(remaining)]);
        case Threw(e, _) =>
          AppendEmpty(supplied);
          error := Some(BadArguments(e));
      }
    }

    /** CommandSettings.Parse with ParseSyncRoot as the derived handler and
        this class's ConsumeRemaining; an exception is returned as an error. */
    method Parse(args: seq<string>) returns (error: Option<PruneError>, ghost o: ParseOutcome<Handler>)
      requires base.Valid()
      modifies this, base
      ensures o == ParseArgs(old(base.parser.table), Respond(SyncRootReply), args)
      ensures base.Valid() && base.parser.table == old(base.parser.table)
      ensures error == ParseFailure(o)
      ensures syncRoots == old(syncRoots) + CollectedRoots(o)
      ensures base.confirm == FlagAfter(o.calls, ConfirmHandler, old(base.confirm))
      ensures base.whatIf == FlagAfter(o.calls, WhatIfHandler, old(base.whatIf))
    {
      o := ParseArgs(base.parser.table, Respond(SyncRootReply), args);
      DerivedValuesAccepted(base.parser.table, args);
      var result := base.Parse(args, SyncRootReply);
      error := Absorb(result);
    }
  }

  /** settings.SyncRoots.Any(v => v.Exists) */
  function AnyPresent(roots: seq<Path>, present: Path -> bool): (r: bool)
    ensures r <==> exists i :: 0 <= i < |roots| && present(roots[i])
  {
    if roots == [] then false
    else present(roots[0]) || AnyPresent(roots[1..], present)
  }

  /** The calls issued for one root. */
  function PruneRoot(path: Path, host: Host): seq<Event>
  {
    if !host.present(path) then [SkippedMissing(path)]
    else if !host.connects(path) then [ConnectFailed(path)]
    else
      [Connected(path), PlaceholderUpdated(path), Disconnected(path)]
      + ShellStep(host.shell(path)) + [FsUnregistered(path)]
  }

  /** The shell unregistration a folder gets: only a registered one, and a
      lookup that throws is ignored. */
  function ShellStep(info: ShellInfo): seq<Event>
  {
    match info
    case Registered(id) => [ShellUnregistered(id)]
    case _ => []
  }

  /** The calls issued for the roots, in order. */
  function PruneAll(roots: seq<Path>, host: Host): seq<Event>
  {
    if roots == [] then []
    else PruneAll(roots[..|roots| - 1], host) + PruneRoot(roots[|roots| - 1], host)
  }

  function ExecuteSpec(roots: seq<Path>, host: Host): Outcome
  {
    if |roots| == 0 then Raised(NoSyncRoots)
    else if !AnyPresent(roots, host.present) then Raised(NoExistingSyncRoot)
    else Exited(0, PruneAll(roots, host))
  }

  function RunSpec(args: seq<string>, host: Host): Outcome
  {
    if |args| == 0 || UpperString(args[0]) == "HELP" then ShowedHelp
    else
      var o := ParseArgs(PruneTable(), Respond(SyncRootReply), args);
      match ParseFailure(o)
      case Some(e) => Raised(e)
      case None => ExecuteSpec(CollectedRoots(o), host)
  }

  /** Execute: it reads SyncRoots only, never Confirm or WhatIf. */
  method Execute(settings: PruneCommandSettings, host: Host) returns (r: Outcome)
    ensures r == ExecuteSpec(settings.syncRoots, host)
  {
    var roots := settings.syncRoots;
    if |roots| == 0 {
      return Raised(NoSyncRoots);
    }
    if !AnyPresent(roots, host.present) {
      return Raised(NoExistingSyncRoot);
    }
    var trace: seq<Event> := [];
    for i := 0 to |roots|
      invariant trace == PruneAll(roots[..i], host)
    {
      var path := roots[i];
      assert roots[..i + 1][..i] == roots[..i];
      if !host.present(path) {
        trace := trace + [SkippedMissing(path)];
        continue;
      }
      if !host.connects(path) {
        trace := trace + [ConnectFailed(path)];
        continue;
      }
      trace := trace + [Connected(path), PlaceholderUpdated(path), Disconnected(path)];
      match host.shell(path) {
        case Registered(id) => trace := trace + [ShellUnregistered(id)];
        case _ =>
      }
      trace := trace + [FsUnregistered(path)];
    }
    assert roots[..|roots|] == roots;
    return Exited(0, trace);
  }

  /** Run: help for no arguments or "help", otherwise parse and execute. */
  method Run(args: seq<string>, host: Host) returns (r: Outcome)
    ensures r == RunSpec(args, host)
  {
    if |args| == 0 || UpperString(args[0]) == "HELP" {
      return ShowedHelp;
    }
    var settings := new PruneCommandSettings();
    var error, o := settings.Parse(args);
    if error.Some? {
      return Raised(error.value);
    }
    assert settings.syncRoots == CollectedRoots(o);
    r := Execute(settings, host);
  }

  // ---------------------------------------------------------------------------
  // Properties

  /** Help is shown, and nothing parsed, exactly for no arguments or a first
      argument equal to "help" in any case. */
  lemma RunShowsHelp(args: seq<string>, host: Host)
    ensures RunSpec(args, host) == ShowedHelp <==> |args| == 0 || EqualsIgnoreCase(args[0], "help")
  {
    if |args| > 0 {
      HelpWord(args[0]);
      if UpperString(args[0]) != "HELP" {
        RunParses(args, host);
      }
    }
  }

  /** Any other argument list is parsed and does not show help. */
  lemma RunParses(args: seq<string>, host: Host)
    requires |args| > 0 && UpperString(args[0]) != "HELP"
    ensures !RunSpec(args, host).ShowedHelp?
  {
  }

  lemma SyncRootResponds(kind: OptionType, value: Option<string>)
    ensures Respond(SyncRootReply)(DerivedHandler, kind, value) == SyncRootReply(kind, value)
  {
  }

  /** The values of the ParseSyncRoot calls a scan records, under any
      table, are paths DirectoryInfo accepts: a refused one throws. */
  lemma DerivedValuesAccepted(table: seq<Entry<Handler>>, args: seq<string>)
    ensures AcceptedValues(DerivedCalls(ParseArgs(table, Respond(SyncRootReply), args).calls))
  {
    var o := ParseArgs(table, Respond(SyncRootReply), args);
    ParserProperties.CallsAnswered(FindHandler(table), Respond(SyncRootReply), args, Argument, "", None);
    forall c | c in DerivedCalls(o.calls) && c.kind != Switch && c.value.Some?
      ensures !RejectedPath(c.value.value)
    {
      var i :| 0 <= i < |o.calls| && o.calls[i] == c;
      assert Respond(SyncRootReply)(c.handler, c.kind, c.value).Answer?;
      SyncRootResponds(c.kind, c.value);
    }
  }

  /** Every sync root added through the option is non-blank and a path
      DirectoryInfo accepts. */
  lemma SuppliedRootsValid(args: seq<string>, v: string)
    requires v in SuppliedValues(DerivedCalls(ParseArgs(PruneTable(), Respond(SyncRootReply), args).calls))
    ensures !IsNullOrWhiteSpace(Some(v)) && !RejectedPath(v)
  {
    var o := ParseArgs(PruneTable(), Respond(SyncRootReply), args);
    SuppliedValueFromCall(DerivedCalls(o.calls), v);
    var c :| c in DerivedCalls(o.calls) && c.kind != Switch && c.value == Some(v);
    ParserProperties.CallsAnswered(FindHandler(PruneTable()), Respond(SyncRootReply), args, Argument, "", None);
    var i :| 0 <= i < |o.calls| && o.calls[i] == c;
    assert Respond(SyncRootReply)(c.handler, c.kind, c.value).Answer?;
    SyncRootResponds(c.kind, c.value);
  }

  lemma UniquePruneTable()
    ensures UniqueNames(PruneTable())
  {
    var t := PruneTable();
    assert t == [Entry("Confirm", ConfirmHandler), Entry("WhatIf", WhatIfHandler), Entry("SyncRoots", DerivedHandler)];
  }

  /** The leftovers are tokens that do not start with a dash, in the order
      they were given; when none is refused they all become sync roots,
      after the option values. */
  lemma LeftoversAreRootsInOrder(args: seq<string>)
    ensures var o := ParseArgs(PruneTable(), Respond(SyncRootReply), args);
      o.Parsed? ==> ParserProperties.IsSubsequence(o.remaining, ParserProperties.Positionals(args))
    ensures var o := ParseArgs(PruneTable(), Respond(SyncRootReply), args);
      o.Parsed? && ParseFailure(o).None? ==> CollectedRoots(o) == SuppliedValues(DerivedCalls(o.calls)) + o.remaining
  {
    var o := ParseArgs(PruneTable(), Respond(SyncRootReply), args);
    ParserProperties.RemainingArePositional(FindHandler(PruneTable()), Respond(SyncRootReply), args, Argument, "", None);
    if o.Parsed? {
      TakeAll(o.remaining);
    }
  }

  /** SyncRoots only ever holds paths DirectoryInfo accepts, whether or not
      the parse ends in an exception. */
  lemma CollectedRootsAccepted(args: seq<string>, r: Path)
    requires r in CollectedRoots(ParseArgs(PruneTable(), Respond(SyncRootReply), args))
    ensures !RejectedPath(r)
  {
    var o := ParseArgs(PruneTable(), Respond(SyncRootReply), args);
    var supplied := SuppliedValues(DerivedCalls(o.calls));
    if r in supplied {
      SuppliedRootsValid(args, r);
    } else {
      var kept := o.remaining[..FirstRejected(o.remaining)];
      assert r in kept;
      var j :| 0 <= j < |kept| && kept[j] == r;
      assert r == o.remaining[j];
    }
  }

  /** A leftover DirectoryInfo refuses makes Run raise its exception before
      Execute, so nothing is connected or unregistered. */
  lemma RejectedLeftoverRaises(args: seq<string>, host: Host)
    requires |args| > 0 && UpperString(args[0]) != "HELP"
    requires var o := ParseArgs(PruneTable(), Respond(SyncRootReply), args);
      o.Parsed? && FirstRejected(o.remaining) < |o.remaining|
    ensures var o := ParseArgs(PruneTable(), Respond(SyncRootReply), args);
      RunSpec(args, host) == Raised(InvalidPath(o.remaining[FirstRejected(o.remaining)]))
  {
  }

  /** `prune A ""`: the empty leftover is refused, so A is not pruned. */
  lemma EmptyLeftoverRaises(host: Host)
    ensures RunSpec(["A", ""], host) == Raised(InvalidPath(""))
  {
    var args := ["A", ""];
    assert NoOptionTokens(args);
    PositionalsOnly(FindHandler(PruneTable()), Respond(SyncRootReply), args, Argument, "", None);
    assert RejectedPath("") && !RejectedPath("A");
    assert FirstRejected(args[1..]) == 0;
    assert FirstRejected(args) == 1;
    assert UpperString("A") != "HELP";
  }

  lemma SyncRootsIsPlain()
    ensures PlainName("SyncRoots")
  {
    forall k | 0 <= k < |"SyncRoots"| ensures !IsSeparator("SyncRoots"[k]) {
    }
  }

  /** The scan of `--SyncRoots v`, for any table holding the SyncRoots
      option under a unique name: the switch call asks for the next token,
      which is then handed over as the value. */
  lemma SyncRootsScan(table: seq<Entry<Handler>>, v: string, rest: seq<string>)
    requires UniqueNames(table) && Entry("SyncRoots", DerivedHandler) in table
    ensures var respond := Respond(SyncRootReply);
      var first := Call(DerivedHandler, Switch, None);
      var second := Call(DerivedHandler, KeyValue, Some(v));
      ParseArgs(table, respond, ["--SyncRoots", v] + rest)
        == if IsNullOrWhiteSpace(Some(v)) || RejectedPath(v) then Failed(HandlerThrew("SyncRoots"), [first])
           else Prepend(first, Prepend(second, ParseFrom(FindHandler(table), respond, rest, KeyValue, "SyncRoots", Some(DerivedHandler))))
  {
    SyncRootsFound(table);
    SyncRootResponds(Switch, None);
    SyncRootResponds(KeyValue, Some(v));
    ParserProperties.NeedMoreTakesNextToken(FindHandler(table), Respond(SyncRootReply), "--SyncRoots", v, rest, Argument, "", None, DerivedHandler);
  }

  /** `--SyncRoots` is an option token naming SyncRoots, which a table
      holding it under a unique name resolves to the derived handler. */
  lemma SyncRootsFound(table: seq<Entry<Handler>>)
    requires UniqueNames(table) && Entry("SyncRoots", DerivedHandler) in table
    ensures StartsWithDash("--SyncRoots") && SplitOption("--SyncRoots") == ("SyncRoots", None)
    ensures FindHandler(table)("SyncRoots") == Some(DerivedHandler)
  {
    SyncRootsIsPlain();
    PlainOption("SyncRoots");
    SyncRootsToken();
    assert EqualsIgnoreCase("SyncRoots", "SyncRoots");
    ParserProperties.ExactMatchWins(table, "SyncRoots", Entry("SyncRoots", DerivedHandler));
  }

  lemma SyncRootsToken()
    ensures "--" + "SyncRoots" == "--SyncRoots"
  {
  }

  /** `--SyncRoots v` with a blank v, or one DirectoryInfo refuses:
      ParseSyncRoot throws on the value. */
  lemma SyncRootValueRejected(v: string, rest: seq<string>)
    requires IsNullOrWhiteSpace(Some(v)) || RejectedPath(v)
    ensures ParseArgs(PruneTable(), Respond(SyncRootReply), ["--SyncRoots", v] + rest)
      == Failed(HandlerThrew("SyncRoots"), [Call(DerivedHandler, Switch, None)])
  {
    UniquePruneTable();
    SyncRootsScan(PruneTable(), v, rest);
  }

  /** `--SyncRoots v` takes the next token as the root, even one starting
      with a dash, and the leftovers follow it up to the first refused one. */
  lemma SyncRootsTakesNextToken(v: string, rest: seq<string>)
    requires !IsNullOrWhiteSpace(Some(v)) && !RejectedPath(v) && NoOptionTokens(rest)
    ensures var o := ParseArgs(PruneTable(), Respond(SyncRootReply), ["--SyncRoots", v] + rest);
      o.Parsed? && o.remaining == rest && CollectedRoots(o) == [v] + rest[..FirstRejected(rest)]
  {
    var calls := [Call(DerivedHandler, Switch, None), Call(DerivedHandler, KeyValue, Some(v))];
    SyncRootsCalls(v, rest);
    SwitchThenValue(v);
    assert CollectedRoots(Parsed(rest, calls)) == [v] + rest[..FirstRejected(rest)];
  }

  /** The scan of `--SyncRoots v` followed by plain tokens: the switch call,
      the value call, and the tokens handed back. */
  lemma SyncRootsCalls(v: string, rest: seq<string>)
    requires !IsNullOrWhiteSpace(Some(v)) && !RejectedPath(v) && NoOptionTokens(rest)
    ensures ParseArgs(PruneTable(), Respond(SyncRootReply), ["--SyncRoots", v] + rest)
      == Parsed(rest, [Call(DerivedHandler, Switch, None), Call(DerivedHandler, KeyValue, Some(v))])
  {
    var table := PruneTable();
    UniquePruneTable();
    SyncRootsScan(table, v, rest);
    PositionalsOnly(FindHandler(table), Respond(SyncRootReply), rest, KeyValue, "SyncRoots", Some(DerivedHandler));
  }

  lemma SwitchThenValue(v: string)
    ensures var calls := [Call(DerivedHandler, Switch, None), Call(DerivedHandler, KeyValue, Some(v))];
      SuppliedValues(DerivedCalls(calls)) == [v]
  {
    var first := Call(DerivedHandler, Switch, None);
    var second := Call(DerivedHandler, KeyValue, Some(v));
    var calls := [first, second];
    assert calls[..1] == [first] && [first][..0] == [];
    assert DerivedCalls([first]) == [first];
    assert DerivedCalls(calls) == calls;
    assert SuppliedValues([first]) == [];
    assert SuppliedValues(calls) == SuppliedValues([first]) + [v];
  }

  /** Execute rejects an empty root list, and a list of which no root exists. */
  lemma ExecuteRejects(roots: seq<Path>, host: Host)
    ensures ExecuteSpec(roots, host) == Raised(NoSyncRoots) <==> |roots| == 0
    ensures ExecuteSpec(roots, host) == Raised(NoExistingSyncRoot) <==>
      |roots| > 0 && forall i :: 0 <= i < |roots| ==> !host.present(roots[i])
    ensures ExecuteSpec(roots, host).Exited? ==> ExecuteSpec(roots, host).code == 0
  {
  }

  lemma {:induction false} PruneAllConcat(a: seq<Path>, b: seq<Path>, host: Host)
    ensures PruneAll(a + b, host) == PruneAll(a, host) + PruneAll(b, host)
    decreases |b|
  {
    if b == [] {
      AppendEmpty(a);
      AppendEmpty(PruneAll(a, host));
    } else {
      var b' := b[..|b| - 1];
      var last := b[|b| - 1];
      assert (a + b)[..|a + b| - 1] == a + b' && (a + b)[|a + b| - 1] == last;
      PruneAllConcat(a, b', host);
      AppendAssoc(PruneAll(a, host), PruneAll(b', host), PruneRoot(last, host));
    }
  }

  lemma PruneAllOne(p: Path, host: Host)
    ensures PruneAll([p], host) == PruneRoot(p, host)
  {
    assert [p][..0] == [];
  }

  /** The trace is the roots' traces in order: skipping or failing one root
      does not stop the later ones. */
  lemma PruneAllSplit(roots: seq<Path>, host: Host, i: nat)
    requires i < |roots|
    ensures PruneAll(roots, host)
      == PruneAll(roots[..i], host) + PruneRoot(roots[i], host) + PruneAll(roots[i + 1..], host)
  {
    assert roots == roots[..i] + [roots[i]] + roots[i + 1..];
    PruneAllConcat(roots[..i] + [roots[i]], roots[i + 1..], host);
    PruneAllConcat(roots[..i], [roots[i]], host);
    PruneAllOne(roots[i], host);
  }

  /** For a root that exists and connects the calls come in the order
      connect, placeholder update, disconnect, shell unregistration (when
      registered), filesystem unregistration. */
  lemma ConnectedRootOrder(roots: seq<Path>, host: Host, i: nat)
    requires i < |roots| && host.present(roots[i]) && host.connects(roots[i])
    ensures var t := PruneAll(roots, host);
      var k := |PruneAll(roots[..i], host)|;
      var p := roots[i];
      var s := |ShellStep(host.shell(p))|;
      && k + 4 + s <= |t|
      && t[k] == Connected(p) && t[k + 1] == PlaceholderUpdated(p) && t[k + 2] == Disconnected(p)
      && (host.shell(p).Registered? ==> t[k + 3] == ShellUnregistered(host.shell(p).id))
      && t[k + 3 + s] == FsUnregistered(p)
  {
    PruneAllSplit(roots, host, i);
  }

  lemma RootPaired(p: Path, host: Host)
    ensures Paired(PruneRoot(p, host))
  {
    var t := PruneRoot(p, host);
    if host.present(p) && host.connects(p) {
      var rest := ShellStep(host.shell(p)) + [FsUnregistered(p)];
      assert Paired(rest) by {
        if host.shell(p).Registered? {
          assert rest[1..] == [FsUnregistered(p)];
        }
      }
      assert t[1..][1..][1..] == rest;
    }
  }

  /** Every connect is followed by its disconnect before the next connect. */
  lemma {:induction false} PrunePaired(roots: seq<Path>, host: Host)
    ensures Paired(PruneAll(roots, host))
    decreases |roots|
  {
    if roots != [] {
      PrunePaired(roots[..|roots| - 1], host);
      RootPaired(roots[|roots| - 1], host);
      PairedConcat(PruneAll(roots[..|roots| - 1], host), PruneRoot(roots[|roots| - 1], host));
    }
  }

  /** A path is unregistered from the filesystem exactly when it is one of
      the roots, exists and connects. */
  lemma {:induction false} FsUnregisteredExactly(roots: seq<Path>, host: Host, p: Path)
    ensures FsUnregistered(p) in PruneAll(roots, host) <==> p in roots && host.present(p) && host.connects(p)
    decreases |roots|
  {
    if roots != [] {
      var front := roots[..|roots| - 1];
      var last := roots[|roots| - 1];
      FsUnregisteredExactly(front, host, p);
      assert roots == front + [last];
      assert FsUnregistered(p) in PruneRoot(last, host) <==> p == last && host.present(p) && host.connects(p);
    }
  }

  /** No prompt is ever shown, whatever Confirm says. */
  lemma {:induction false} NeverPrompts(roots: seq<Path>, host: Host)
    ensures NoPrompt(PruneAll(roots, host))
    decreases |roots|
  {
    if roots != [] {
      NeverPrompts(roots[..|roots| - 1], host);
      var a: seq<Event> := PruneAll(roots[..|roots| - 1], host);
      var b: seq<Event> := PruneRoot(roots[|roots| - 1], host);
      forall i | 0 <= i < |a + b| ensures !(a + b)[i].Asked? {
        if i >= |a| {
          assert (a + b)[i] == b[i - |a|];
        }
      }
    }
  }

  lemma WhatIfIsPlain()
    ensures PlainName("WhatIf") && "--" + "WhatIf" == "--WhatIf"
  {
    forall k | 0 <= k < |"WhatIf"| ensures !IsSeparator("WhatIf"[k]) {
    }
  }

  /** `--WhatIf p`: one switch call, and p is handed back. */
  lemma WhatIfThenRoot(p: string)
    requires NoOptionTokens([p])
    ensures ParseArgs(PruneTable(), Respond(SyncRootReply), ["--WhatIf", p])
      == Parsed([p], [Call(WhatIfHandler, Switch, None)])
    ensures FlagAfter([Call(WhatIfHandler, Switch, None)], WhatIfHandler, false)
  {
    UniquePruneTable();
    WhatIfIsPlain();
    BareFlagDoesNotConsumeNext(PruneTable(), SyncRootReply, "WhatIf", WhatIfHandler, [p], false);
    assert ["--WhatIf"] + [p] == ["--WhatIf", p];
  }

  /** `--WhatIf` sets the flag, yet the root is still unregistered. */
  lemma WhatIfDoesNotProtect(p: string, host: Host)
    requires !RejectedPath(p) && !StartsWithDash(p) && host.present(p) && host.connects(p)
    ensures var o := ParseArgs(PruneTable(), Respond(SyncRootReply), ["--WhatIf", p]);
      && FlagAfter(o.calls, WhatIfHandler, false)
      && RunSpec(["--WhatIf", p], host) == Exited(0, PruneRoot(p, host))
      && FsUnregistered(p) in PruneRoot(p, host)
  {
    assert NoOptionTokens([p]);
    WhatIfThenRoot(p);
    var o := ParseArgs(PruneTable(), Respond(SyncRootReply), ["--WhatIf", p]);
    var c := Call(WhatIfHandler, Switch, None);
    assert [c][..0] == [];
    assert DerivedCalls([c]) == [];
    assert [p][1..] == [] && FirstRejected([p]) == 1;
    assert CollectedRoots(o) == [p];
    assert UpperString("--WhatIf") != "HELP";
    assert AnyPresent([p], host.present);
    PruneAllOne(p, host);
  }
}
