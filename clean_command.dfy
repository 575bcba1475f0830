/** The Spectre-based `clean` command (src/Commands/CleanCommand.cs):
    Validate selects the current sync roots whose display name matches one
    of the positional patterns and refuses an empty selection; Execute runs
    the unregistration loop of module Cleaning over that selection. */
module CleanCommands {
  import opened Text
  import opened Effects
  import opened Cleaning

  /** CleanCommandSettings: the positional patterns, and the Confirm and
      WhatIf switches every command shares. */
  datatype CleanSettings = CleanSettings(syncRoots: seq<string>, confirm: bool, whatIf: bool)

  const NothingMatched := "Filtered SyncRoots returned zero elements"

  class CleanCommand {
    /** The selection Validate stores for Execute. */
    var syncRoots: seq<SyncRootInfo>

    constructor ()
      ensures syncRoots == []
    {
      syncRoots := [];
    }

    /** Validate: every pattern becomes an include of a fresh matcher; the
        current roots the matcher accepts, in enumeration order, become the
        selection, and an empty selection is an error. */
    method Validate(s: CleanSettings, current: seq<SyncRootInfo>, glob: Glob) returns (r: Validation)
      modifies this
      ensures syncRoots == Matching(current, s.syncRoots, glob)
      ensures r == (if syncRoots == [] then Error(NothingMatched) else Success)
    {
      var matcher := new Matcher();
      var patterns := s.syncRoots;
      for i := 0 to |patterns|
        invariant matcher.includes == patterns[..i]
      {
        PrefixStep(patterns, i);
        matcher.AddInclude(patterns[i]);
      }
      TakeAll(patterns);
      syncRoots := Matching(current, matcher.includes, glob);
      r := if |syncRoots| == 0 then Error(NothingMatched) else Success;
    }

    /** Execute: under Confirm one question before any root and one per
        root, then Unregister unless WhatIf; a failure is reported and the
        loop goes on; the exit code is always 0. */
    method Execute(s: CleanSettings, answers: Answers, unregisters: SyncRootId -> bool)
      returns (code: int, trace: seq<Event>)
      ensures code == 0
      ensures trace == CleanSpec(syncRoots, s.confirm, s.whatIf, answers, unregisters)
    {
      code, trace := UnregisterAll(syncRoots, s.confirm, s.whatIf, answers, unregisters);
    }
  }

  // ---------------------------------------------------------------------------
  // Properties of the command as a whole

  /** The trace of Validate followed by Execute, for a selection Validate
      accepted. */
  function CommandSpec(s: CleanSettings, current: seq<SyncRootInfo>, glob: Glob, answers: Answers,
                       unregisters: SyncRootId -> bool): seq<Event>
  {
    CleanSpec(Matching(current, s.syncRoots, glob), s.confirm, s.whatIf, answers, unregisters)
  }

  /** Without Confirm and WhatIf, Unregister is called for exactly the
      current roots whose display name matches, in enumeration order, and
      nothing is asked. */
  lemma CleanUnregistersSelection(s: CleanSettings, current: seq<SyncRootInfo>, glob: Glob, answers: Answers,
                                  unregisters: SyncRootId -> bool, x: SyncRootInfo)
    requires !s.confirm && !s.whatIf
    ensures var t := CommandSpec(s, current, glob, answers, unregisters);
      && NoPrompt(t)
      && Pick(t, UnregisterCall) == Ids(Matching(current, s.syncRoots, glob))
      && (x in Matching(current, s.syncRoots, glob) <==> x in current && glob(s.syncRoots, x.name))
  {
    CleanWithoutConfirm(Matching(current, s.syncRoots, glob), false, answers, unregisters);
    MatchingMembers(current, s.syncRoots, glob, x);
  }

  /** Under WhatIf the command changes nothing, yet every selected root that
      gets past its question is announced as unregistered. */
  lemma CleanWhatIfAnnouncesOnly(s: CleanSettings, current: seq<SyncRootInfo>, glob: Glob, answers: Answers,
                                 unregisters: SyncRootId -> bool)
    requires s.whatIf && (!s.confirm || answers(0))
    ensures var t := CommandSpec(s, current, glob, answers, unregisters);
      var gated := Gated(Matching(current, s.syncRoots, glob), s.confirm, answers, 1);
      && NoMutation(t)
      && Pick(t, UnregisterCall) == []
      && Pick(t, LineFor) == Names(gated)
  {
    var selected := Matching(current, s.syncRoots, glob);
    CleanWhatIfNoMutation(selected, s.confirm, answers, unregisters);
    CleanSpecPicks(selected, s.confirm, true, answers, unregisters);
    AnnouncedUnderWhatIf(Gated(selected, s.confirm, answers, 1), unregisters);
  }
}
