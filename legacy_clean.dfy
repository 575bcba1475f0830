/** The legacy `clean` command (src/CleanCommand.cs): parse the include
    patterns, keep the current sync roots whose display name matches them,
    and unregister those from the shell. Its include handler is registered
    under "-Include", a name no option token can reach, and the positional
    patterns are dropped, so the matcher never gets a pattern. */
module LegacyClean {
  import opened Text
  import opened OptionParsing
  import opened Settings
  import opened Effects
  import opened Cleaning
  import ParserProperties

  datatype CleanError = BadArguments(error: ParseError) | NothingSelected

  datatype Outcome =
    | ShowedHelp
    | Exited(code: int, trace: seq<Event>)
    | Raised(error: CleanError)

  /** What StorageProviderSyncRootManager gives and does: the current sync
      roots, in enumeration order, and whether Unregister returns for an id. */
  datatype SyncRootManager = SyncRootManager(current: seq<SyncRootInfo>, unregisters: SyncRootId -> bool)

  /** The options a CleanCommandSettings registers, in order. */
  function CleanTable(): seq<Entry<Handler>>
  {
    BaseTable() + [Entry("-Include", DerivedHandler)]
  }

  class CleanCommandSettings {
    const base: CommandSettings
    const matcher: Matcher

    ghost predicate Valid()
      reads this, base, base.parser
    {
      base.Valid() && base.parser.table == CleanTable()
    }

    /** The base options, then "-Include"; an empty matcher, both flags off. */
    constructor ()
      ensures Valid() && fresh(base) && fresh(base.parser) && fresh(matcher)
      ensures matcher.includes == [] && !base.confirm && !base.whatIf
    {
      base := new CommandSettings();
      matcher := new Matcher();
      new;
      assert !IsWhiteSpace("-Include"[0]);
      assert |"-Include"| != |"Confirm"| && |"-Include"| != |"WhatIf"|;
      var error := base.Register(Some("-Include"), DerivedHandler);
      assert base.parser.table[..2] == BaseTable();
    }

    /** The effect of the ParseInclude calls, in order: each value becomes
        an include pattern. */
    method ReplayIncludeCalls(calls: seq<Call<Handler>>)
      modifies matcher
      ensures matcher.includes == old(matcher.includes) + SuppliedValues(calls)
    {
      for i := 0 to |calls|
        invariant matcher.includes == old(matcher.includes) + SuppliedValues(calls[..i])
      {
        PrefixStep(calls, i);
        var c := calls[i];
        if c.kind != Switch && c.value.Some? {
          matcher.AddInclude(c.value.value);
        } else {
          AppendEmpty(SuppliedValues(calls[..i]));
          AppendEmpty(old(matcher.includes) + SuppliedValues(calls[..i]));
        }
      }
      TakeAll(calls);
    }

    /** CommandSettings.Parse with ParseInclude as the derived handler; this
        class's ConsumeRemaining only calls the base one, so the leftovers
        are dropped. An exception is returned as an error. */
    method Parse(args: seq<string>) returns (error: Option<ParseError>, ghost o: ParseOutcome<Handler>)
      requires base.Valid()
      modifies base, matcher
      ensures o == ParseArgs(old(base.parser.table), Respond(ValueReply), args)
      ensures base.Valid() && base.parser.table == old(base.parser.table)
      ensures error == (if o.Failed? then Some(o.error) else None)
      ensures matcher.includes == old(matcher.includes) + SuppliedValues(DerivedCalls(o.calls))
      ensures base.confirm == FlagAfter(o.calls, ConfirmHandler, old(base.confirm))
      ensures base.whatIf == FlagAfter(o.calls, WhatIfHandler, old(base.whatIf))
    {
      o := ParseArgs(base.parser.table, Respond(ValueReply), args);
      var result := base.Parse(args, ValueReply);
      ReplayIncludeCalls(result.derivedCalls);
      error := if result.Threw? then Some(result.error) else None;
    }
  }

  /** syncRoots.RemoveAll(info => !matcher.Match(info.DisplayNameResource).HasMatches) */
  method RemoveUnmatched(roots: seq<SyncRootInfo>, matcher: Matcher, glob: Glob) returns (kept: seq<SyncRootInfo>)
    ensures kept == Matching(roots, matcher.includes, glob)
  {
    kept := [];
    for i := 0 to |roots|
      invariant kept == Matching(roots[..i], matcher.includes, glob)
    {
      PrefixStep(roots, i);
      if glob(matcher.includes, roots[i].name) {
        kept := kept + [roots[i]];
      } else {
        AppendEmpty(kept);
      }
    }
    TakeAll(roots);
  }

  function ExecuteSpec(manager: SyncRootManager, patterns: seq<string>, glob: Glob,
                       confirm: bool, whatIf: bool, answers: Answers): Outcome
  {
    var selected := Matching(manager.current, patterns, glob);
    if selected == [] then Raised(NothingSelected)
    else Exited(0, CleanSpec(selected, confirm, whatIf, answers, manager.unregisters))
  }

  function RunSpec(args: seq<string>, manager: SyncRootManager, glob: Glob, answers: Answers): Outcome
  {
    if |args| == 0 || UpperString(args[0]) == "HELP" then ShowedHelp
    else
      var o := ParseArgs(CleanTable(), Respond(ValueReply), args);
      if o.Failed? then Raised(BadArguments(o.error))
      else ExecuteSpec(manager, SuppliedValues(DerivedCalls(o.calls)), glob,
                       FlagAfter(o.calls, ConfirmHandler, false), FlagAfter(o.calls, WhatIfHandler, false), answers)
  }

  /** Execute: select by the matcher, refuse an empty selection, then the
      unregistration loop. */
  method Execute(settings: CleanCommandSettings, manager: SyncRootManager, glob: Glob, answers: Answers)
    returns (r: Outcome)
    ensures r == ExecuteSpec(manager, settings.matcher.includes, glob,
                             settings.base.confirm, settings.base.whatIf, answers)
  {
    var selected := RemoveUnmatched(manager.current, settings.matcher, glob);
    if |selected| == 0 {
      return Raised(NothingSelected);
    }
    var code, trace := UnregisterAll(selected, settings.base.confirm, settings.base.whatIf, answers, manager.unregisters);
    return Exited(code, trace);
  }

  /** Run: help for no arguments or "help", otherwise parse and execute. */
  method Run(args: seq<string>, manager: SyncRootManager, glob: Glob, answers: Answers) returns (r: Outcome)
    ensures r == RunSpec(args, manager, glob, answers)
  {
    if |args| == 0 || UpperString(args[0]) == "HELP" {
      return ShowedHelp;
    }
    var settings := new CleanCommandSettings();
    var error, o := settings.Parse(args);
    assert o == ParseArgs(CleanTable(), Respond(ValueReply), args);
    if error.Some? {
      return Raised(BadArguments(error.value));
    }
    AppendEmpty(SuppliedValues(DerivedCalls(o.calls)));
    r := Execute(settings, manager, glob, answers);
  }

  // ---------------------------------------------------------------------------
  // Properties

  /** Help is shown, and nothing parsed, exactly for no arguments or a first
      argument equal to "help" in any case. */
  lemma RunShowsHelp(args: seq<string>, manager: SyncRootManager, glob: Glob, answers: Answers)
    ensures RunSpec(args, manager, glob, answers) == ShowedHelp <==> |args| == 0 || EqualsIgnoreCase(args[0], "help")
  {
    if |args| > 0 {
      HelpWord(args[0]);
      if UpperString(args[0]) != "HELP" {
        RunParses(args, manager, glob, answers);
      }
    }
  }

  /** Any other argument list is parsed and does not show help. */
  lemma RunParses(args: seq<string>, manager: SyncRootManager, glob: Glob, answers: Answers)
    requires |args| > 0 && UpperString(args[0]) != "HELP"
    ensures !RunSpec(args, manager, glob, answers).ShowedHelp?
  {
  }

  /** The include handler's name starts with a dash, and the parser strips
      every leading dash before the lookup: no argument list calls it. */
  lemma IncludeNeverCalled(args: seq<string>)
    ensures ParserProperties.NoCallTo(ParseArgs(CleanTable(), Respond(ValueReply), args).calls, DerivedHandler)
  {
    var t := CleanTable();
    assert t == [Entry("Confirm", ConfirmHandler), Entry("WhatIf", WhatIfHandler), Entry("-Include", DerivedHandler)];
    assert StartsWithDash("-Include");
    ParserProperties.DashNamedHandlerNeverCalled(t, Respond(ValueReply), args, DerivedHandler);
  }

  lemma {:induction false} NoDerivedCalls(calls: seq<Call<Handler>>)
    requires ParserProperties.NoCallTo(calls, DerivedHandler)
    ensures DerivedCalls(calls) == []
    decreases |calls|
  {
    if calls != [] {
      NoDerivedCalls(calls[..|calls| - 1]);
    }
  }

  /** So the parse never adds an include pattern, whatever the arguments. */
  lemma NoIncludePatterns(args: seq<string>)
    ensures SuppliedValues(DerivedCalls(ParseArgs(CleanTable(), Respond(ValueReply), args).calls)) == []
  {
    IncludeNeverCalled(args);
    NoDerivedCalls(ParseArgs(CleanTable(), Respond(ValueReply), args).calls);
  }

  /** Execute refuses exactly the selections that come out empty, and
      otherwise returns 0. */
  lemma ExecuteRejectsEmpty(manager: SyncRootManager, patterns: seq<string>, glob: Glob,
                            confirm: bool, whatIf: bool, answers: Answers)
    ensures var r := ExecuteSpec(manager, patterns, glob, confirm, whatIf, answers);
      && (r == Raised(NothingSelected) <==>
          forall i :: 0 <= i < |manager.current| ==> !glob(patterns, manager.current[i].name))
      && (r.Exited? ==> r.code == 0)
  {
    MatchingEmpty(manager.current, patterns, glob);
  }

  /** With a matcher that matches nothing while it has no include pattern,
      the command, given any arguments beyond help, fails: either on the
      arguments or with the empty selection. */
  lemma CleanNeverUnregisters(args: seq<string>, manager: SyncRootManager, glob: Glob, answers: Answers)
    requires forall name :: !glob([], name)
    requires |args| > 0 && UpperString(args[0]) != "HELP"
    ensures RunSpec(args, manager, glob, answers).Raised?
  {
    NoIncludePatterns(args);
    MatchingEmpty(manager.current, [], glob);
  }
}
