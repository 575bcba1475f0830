/** What the two Clean commands share: the glob matcher that selects sync
    roots by display name, and the loop that unregisters the selected roots
    from the shell (src/CleanCommand.cs:58-85 and
    src/Commands/CleanCommand.cs:28-55 run the same loop). */
module Cleaning {
  import opened Text
  import opened Effects

  /** A StorageProviderSyncRootInfo: display name, id and path. */
  datatype SyncRootInfo = SyncRootInfo(name: string, id: SyncRootId, path: Path)

  /** Matcher.Match(name).HasMatches for a matcher holding the given include
      patterns; the globbing library is an input of the model. */
  type Glob = (seq<string>, string) -> bool

  /** A Microsoft.Extensions.FileSystemGlobbing Matcher, reduced to its list
      of include patterns. */
  class Matcher {
    var includes: seq<string>

    constructor ()
      ensures includes == []
    {
      includes := [];
    }

    method AddInclude(pattern: string)
      modifies this
      ensures includes == old(includes) + [pattern]
    {
      includes := includes + [pattern];
    }
  }

  /** The roots whose display name the patterns match, in their order. */
  function Matching(roots: seq<SyncRootInfo>, patterns: seq<string>, glob: Glob): (r: seq<SyncRootInfo>)
    ensures |r| <= |roots|
    ensures forall i :: 0 <= i < |r| ==> glob(patterns, r[i].name)
  {
    if roots == [] then []
    else
      var last := roots[|roots| - 1];
      Matching(roots[..|roots| - 1], patterns, glob) + (if glob(patterns, last.name) then [last] else [])
  }

  // ---------------------------------------------------------------------------
  // The unregistration loop

  /** The calls for one root whose "Continue?" question, when asked, gets
      `yes`: under Confirm a no skips the root; under WhatIf only the
      "Unregistered" line is written; otherwise Unregister is called and,
      when it throws, the failure is reported instead of the line. */
  function CleanRoot(root: SyncRootInfo, confirm: bool, whatIf: bool, yes: bool,
                     unregisters: SyncRootId -> bool): seq<Event>
  {
    (if confirm then [Asked(ContinueRoot, yes)] else [])
    + (if confirm && !yes then []
       else if whatIf then [UnregisteredLine(root.name, true)]
       else if unregisters(root.id) then [ShellUnregistered(root.id), UnregisteredLine(root.name, false)]
       else [ShellUnregistered(root.id), FailureReported(root.name, root.id, root.path)])
  }

  /** The calls for the roots in order; under Confirm, root i is asked
      question number first + i. */
  function CleanRoots(roots: seq<SyncRootInfo>, confirm: bool, whatIf: bool, answers: Answers,
                      first: nat, unregisters: SyncRootId -> bool): seq<Event>
  {
    if roots == [] then []
    else
      CleanRoots(roots[..|roots| - 1], confirm, whatIf, answers, first, unregisters)
      + CleanRoot(roots[|roots| - 1], confirm, whatIf, answers(first + |roots| - 1), unregisters)
  }

  /** The whole loop: under Confirm one question first, whose no ends the
      command before any root. */
  function CleanSpec(roots: seq<SyncRootInfo>, confirm: bool, whatIf: bool, answers: Answers,
                     unregisters: SyncRootId -> bool): seq<Event>
  {
    if confirm && !answers(0) then [Asked(ContinueCleaning, false)]
    else (if confirm then [Asked(ContinueCleaning, true)] else [])
         + CleanRoots(roots, confirm, whatIf, answers, 1, unregisters)
  }

  /** The loop of both Execute methods: it asks the questions in order,
      counting them, and always returns 0. */
  method UnregisterAll(roots: seq<SyncRootInfo>, confirm: bool, whatIf: bool, answers: Answers,
                       unregisters: SyncRootId -> bool) returns (code: int, trace: seq<Event>)
    ensures code == 0
    ensures trace == CleanSpec(roots, confirm, whatIf, answers, unregisters)
  {
    var asked: nat := 0;
    var head: seq<Event> := [];
    if confirm {
      var yes := answers(asked);
      asked := asked + 1;
      if !yes {
        return 0, [Asked(ContinueCleaning, false)];
      }
      head := [Asked(ContinueCleaning, true)];
    }
    var steps: seq<Event> := [];
    for i := 0 to |roots|
      invariant steps == CleanRoots(roots[..i], confirm, whatIf, answers, 1, unregisters)
      invariant confirm ==> asked == i + 1
    {
      var root := roots[i];
      PrefixStep(roots, i);
      var step: seq<Event> := [];
      var proceed := true;
      if confirm {
        var yes := answers(asked);
        asked := asked + 1;
        step := [Asked(ContinueRoot, yes)];
        proceed := yes;
      }
      if proceed {
        if !whatIf {
          if unregisters(root.id) {
            step := step + [ShellUnregistered(root.id), UnregisteredLine(root.name, false)];
          } else {
            step := step + [ShellUnregistered(root.id), FailureReported(root.name, root.id, root.path)];
          }
        } else {
          step := step + [UnregisteredLine(root.name, true)];
        }
      } else {
        AppendEmpty(step);
      }
      steps := steps + step;
    }
    TakeAll(roots);
    return 0, head + steps;
  }

  // ---------------------------------------------------------------------------
  // Properties

  function Ids(roots: seq<SyncRootInfo>): seq<SyncRootId>
  {
    if roots == [] then [] else Ids(roots[..|roots| - 1]) + [roots[|roots| - 1].id]
  }

  function Names(roots: seq<SyncRootInfo>): seq<string>
  {
    if roots == [] then [] else Names(roots[..|roots| - 1]) + [roots[|roots| - 1].name]
  }

  /** The roots that get past their question: all of them without Confirm,
      otherwise those whose question, number first + i, is answered yes. */
  function Gated(roots: seq<SyncRootInfo>, confirm: bool, answers: Answers, first: nat): (r: seq<SyncRootInfo>)
    ensures !confirm ==> r == roots
  {
    if roots == [] then []
    else
      var front := roots[..|roots| - 1];
      var last := roots[|roots| - 1];
      var r := Gated(front, confirm, answers, first) + (if !confirm || answers(first + |roots| - 1) then [last] else []);
      assert !confirm ==> r == front + [last] == roots;
      r
  }

  /** The roots among these whose Unregister call throws. */
  function Failing(roots: seq<SyncRootInfo>, unregisters: SyncRootId -> bool): seq<SyncRootInfo>
  {
    if roots == [] then []
    else
      var last := roots[|roots| - 1];
      Failing(roots[..|roots| - 1], unregisters) + (if unregisters(last.id) then [] else [last])
  }

  /** The roots among these that get the "Unregistered" line: all of them
      under WhatIf, otherwise those whose Unregister call returns. */
  function Announced(roots: seq<SyncRootInfo>, whatIf: bool, unregisters: SyncRootId -> bool): seq<SyncRootInfo>
  {
    if roots == [] then []
    else
      var last := roots[|roots| - 1];
      Announced(roots[..|roots| - 1], whatIf, unregisters) + (if whatIf || unregisters(last.id) then [last] else [])
  }

  function UnregisterCall(e: Event): Option<SyncRootId>
  {
    if e.ShellUnregistered? then Some(e.id) else None
  }

  function LineFor(e: Event): Option<string>
  {
    if e.UnregisteredLine? then Some(e.name) else None
  }

  function FailureFor(e: Event): Option<SyncRootInfo>
  {
    if e.FailureReported? then Some(SyncRootInfo(e.name, e.id, e.path)) else None
  }

  /** Only the events of one root. */
  lemma CleanRootPicks(root: SyncRootInfo, confirm: bool, whatIf: bool, yes: bool, unregisters: SyncRootId -> bool)
    ensures var t := CleanRoot(root, confirm, whatIf, yes, unregisters);
      var go := !confirm || yes;
      && Pick(t, UnregisterCall) == (if go && !whatIf then [root.id] else [])
      && Pick(t, LineFor) == (if go && (whatIf || unregisters(root.id)) then [root.name] else [])
      && Pick(t, FailureFor) == (if go && !whatIf && !unregisters(root.id) then [root] else [])
  {
    var t := CleanRoot(root, confirm, whatIf, yes, unregisters);
    var asked := if confirm then [Asked(ContinueRoot, yes)] else [];
    var rest := t[|asked|..];
    assert t == asked + rest;
    PickConcat(asked, rest, UnregisterCall);
    PickConcat(asked, rest, LineFor);
    PickConcat(asked, rest, FailureFor);
    if |rest| == 2 {
      assert rest[..1][..0] == [];
    }
  }

  /** Each root that gets past its question has Unregister called, in
      order, unless WhatIf; a root whose question is declined is skipped
      without stopping the loop, and a root whose call throws does not stop
      it either. */
  lemma {:induction false} CleanRootsCalls(roots: seq<SyncRootInfo>, confirm: bool, whatIf: bool, answers: Answers,
                                           first: nat, unregisters: SyncRootId -> bool)
    ensures Pick(CleanRoots(roots, confirm, whatIf, answers, first, unregisters), UnregisterCall)
      == if whatIf then [] else Ids(Gated(roots, confirm, answers, first))
    decreases |roots|
  {
    if roots != [] {
      var front := roots[..|roots| - 1];
      var last := roots[|roots| - 1];
      var yes := answers(first + |roots| - 1);
      var a := CleanRoots(front, confirm, whatIf, answers, first, unregisters);
      CleanRootsCalls(front, confirm, whatIf, answers, first, unregisters);
      CleanRootPicks(last, confirm, whatIf, yes, unregisters);
      PickConcat(a, CleanRoot(last, confirm, whatIf, yes, unregisters), UnregisterCall);
      GatedStep(roots, confirm, answers, first);
      if !confirm || yes {
        SnocRoot(Gated(front, confirm, answers, first), last, whatIf, unregisters);
      } else {
        AppendEmpty(Pick(a, UnregisterCall));
      }
    }
  }

  /** The "Unregistered" line is written for each root that gets past its
      question and whose call returns, and for each such root under WhatIf,
      where no call is made. */
  lemma {:induction false} CleanRootsLines(roots: seq<SyncRootInfo>, confirm: bool, whatIf: bool, answers: Answers,
                                           first: nat, unregisters: SyncRootId -> bool)
    ensures Pick(CleanRoots(roots, confirm, whatIf, answers, first, unregisters), LineFor)
      == Names(Announced(Gated(roots, confirm, answers, first), whatIf, unregisters))
    decreases |roots|
  {
    if roots != [] {
      var front := roots[..|roots| - 1];
      var last := roots[|roots| - 1];
      var yes := answers(first + |roots| - 1);
      var a := CleanRoots(front, confirm, whatIf, answers, first, unregisters);
      CleanRootsLines(front, confirm, whatIf, answers, first, unregisters);
      CleanRootPicks(last, confirm, whatIf, yes, unregisters);
      PickConcat(a, CleanRoot(last, confirm, whatIf, yes, unregisters), LineFor);
      GatedStep(roots, confirm, answers, first);
      if !confirm || yes {
        var gated := Gated(front, confirm, answers, first);
        SnocRoot(gated, last, whatIf, unregisters);
        if !(whatIf || unregisters(last.id)) {
          AppendEmpty(Announced(gated, whatIf, unregisters));
        }
      }
      AppendEmpty(Pick(a, LineFor));
    }
  }

  /** A root whose call throws is reported with its name, id and path, in
      order. */
  lemma {:induction false} CleanRootsFailures(roots: seq<SyncRootInfo>, confirm: bool, whatIf: bool, answers: Answers,
                                              first: nat, unregisters: SyncRootId -> bool)
    ensures Pick(CleanRoots(roots, confirm, whatIf, answers, first, unregisters), FailureFor)
      == if whatIf then [] else Failing(Gated(roots, confirm, answers, first), unregisters)
    decreases |roots|
  {
    if roots != [] {
      var front := roots[..|roots| - 1];
      var last := roots[|roots| - 1];
      var yes := answers(first + |roots| - 1);
      var a := CleanRoots(front, confirm, whatIf, answers, first, unregisters);
      CleanRootsFailures(front, confirm, whatIf, answers, first, unregisters);
      CleanRootPicks(last, confirm, whatIf, yes, unregisters);
      PickConcat(a, CleanRoot(last, confirm, whatIf, yes, unregisters), FailureFor);
      GatedStep(roots, confirm, answers, first);
      if !confirm || yes {
        SnocRoot(Gated(front, confirm, answers, first), last, whatIf, unregisters);
      }
      AppendEmpty(Pick(a, FailureFor));
    }
  }

  lemma GatedStep(roots: seq<SyncRootInfo>, confirm: bool, answers: Answers, first: nat)
    requires roots != []
    ensures var front := Gated(roots[..|roots| - 1], confirm, answers, first);
      var go := !confirm || answers(first + |roots| - 1);
      Gated(roots, confirm, answers, first) == if go then front + [roots[|roots| - 1]] else front
  {
  }

  /** The projections of a list with one more root. */
  lemma SnocRoot(roots: seq<SyncRootInfo>, r: SyncRootInfo, whatIf: bool, unregisters: SyncRootId -> bool)
    ensures var more := roots + [r];
      && Ids(more) == Ids(roots) + [r.id]
      && Announced(more, whatIf, unregisters)
         == Announced(roots, whatIf, unregisters) + (if whatIf || unregisters(r.id) then [r] else [])
      && Failing(more, unregisters) == Failing(roots, unregisters) + (if unregisters(r.id) then [] else [r])
      && Names(Announced(roots, whatIf, unregisters) + [r]) == Names(Announced(roots, whatIf, unregisters)) + [r.name]
  {
    var more := roots + [r];
    assert more[..|more| - 1] == roots && more[|more| - 1] == r;
    var a := Announced(roots, whatIf, unregisters) + [r];
    assert a[..|a| - 1] == Announced(roots, whatIf, unregisters);
  }

  /** Under WhatIf every root is announced. */
  lemma {:induction false} AnnouncedUnderWhatIf(roots: seq<SyncRootInfo>, unregisters: SyncRootId -> bool)
    ensures Announced(roots, true, unregisters) == roots
    decreases |roots|
  {
    if roots != [] {
      var front := roots[..|roots| - 1];
      AnnouncedUnderWhatIf(front, unregisters);
      assert roots == front + [roots[|roots| - 1]];
    }
  }

  /** Under WhatIf none of the calls that change the system is made. */
  lemma {:induction false} CleanWhatIfChangesNothing(roots: seq<SyncRootInfo>, confirm: bool, answers: Answers,
                                                     first: nat, unregisters: SyncRootId -> bool)
    ensures NoMutation(CleanRoots(roots, confirm, true, answers, first, unregisters))
    decreases |roots|
  {
    if roots != [] {
      var last := roots[|roots| - 1];
      CleanWhatIfChangesNothing(roots[..|roots| - 1], confirm, answers, first, unregisters);
      NoMutationAppend(CleanRoots(roots[..|roots| - 1], confirm, true, answers, first, unregisters),
                       CleanRoot(last, confirm, true, answers(first + |roots| - 1), unregisters));
    }
  }

  /** Without Confirm no question is asked. */
  lemma {:induction false} CleanWithoutConfirmAsksNothing(roots: seq<SyncRootInfo>, whatIf: bool, answers: Answers,
                                                          first: nat, unregisters: SyncRootId -> bool)
    ensures NoPrompt(CleanRoots(roots, false, whatIf, answers, first, unregisters))
    decreases |roots|
  {
    if roots != [] {
      var last := roots[|roots| - 1];
      CleanWithoutConfirmAsksNothing(roots[..|roots| - 1], whatIf, answers, first, unregisters);
      NoPromptAppend(CleanRoots(roots[..|roots| - 1], false, whatIf, answers, first, unregisters),
                     CleanRoot(last, false, whatIf, answers(first + |roots| - 1), unregisters));
    }
  }

  /** Declining the first question ends the command: no root is
      unregistered and no "Unregistered" line is written. */
  lemma CleanDeclinedAtStart(roots: seq<SyncRootInfo>, whatIf: bool, answers: Answers, unregisters: SyncRootId -> bool)
    requires !answers(0)
    ensures var t := CleanSpec(roots, true, whatIf, answers, unregisters);
      NoMutation(t) && Pick(t, UnregisterCall) == [] && Pick(t, LineFor) == [] && Pick(t, FailureFor) == []
  {
    var t := CleanSpec(roots, true, whatIf, answers, unregisters);
    assert t == [Asked(ContinueCleaning, false)] && t[..0] == [];
  }

  /** What the whole loop does once past the first question: the calls,
      lines and reports of CleanRootsCalls, CleanRootsLines and
      CleanRootsFailures, with the roots' questions numbered from 1. */
  lemma CleanSpecPicks(roots: seq<SyncRootInfo>, confirm: bool, whatIf: bool, answers: Answers,
                       unregisters: SyncRootId -> bool)
    requires !confirm || answers(0)
    ensures var t := CleanSpec(roots, confirm, whatIf, answers, unregisters);
      var gated := Gated(roots, confirm, answers, 1);
      && Pick(t, UnregisterCall) == (if whatIf then [] else Ids(gated))
      && Pick(t, LineFor) == Names(Announced(gated, whatIf, unregisters))
      && Pick(t, FailureFor) == (if whatIf then [] else Failing(gated, unregisters))
  {
    var head := if confirm then [Asked(ContinueCleaning, true)] else [];
    var body := CleanRoots(roots, confirm, whatIf, answers, 1, unregisters);
    assert head[..0] == [];
    PickConcat(head, body, UnregisterCall);
    PickConcat(head, body, LineFor);
    PickConcat(head, body, FailureFor);
    CleanRootsCalls(roots, confirm, whatIf, answers, 1, unregisters);
    CleanRootsLines(roots, confirm, whatIf, answers, 1, unregisters);
    CleanRootsFailures(roots, confirm, whatIf, answers, 1, unregisters);
  }

  /** Under WhatIf the loop never calls Unregister. */
  lemma CleanWhatIfNoMutation(roots: seq<SyncRootInfo>, confirm: bool, answers: Answers, unregisters: SyncRootId -> bool)
    ensures NoMutation(CleanSpec(roots, confirm, true, answers, unregisters))
  {
    if !confirm || answers(0) {
      var head := if confirm then [Asked(ContinueCleaning, true)] else [];
      CleanWhatIfChangesNothing(roots, confirm, answers, 1, unregisters);
      NoMutationAppend(head, CleanRoots(roots, confirm, true, answers, 1, unregisters));
    }
  }

  /** Without Confirm nothing is asked and, unless WhatIf, every selected
      root has Unregister called, in order, whatever the earlier calls did. */
  lemma CleanWithoutConfirm(roots: seq<SyncRootInfo>, whatIf: bool, answers: Answers, unregisters: SyncRootId -> bool)
    ensures var t := CleanSpec(roots, false, whatIf, answers, unregisters);
      NoPrompt(t) && (!whatIf ==> Pick(t, UnregisterCall) == Ids(roots))
  {
    CleanWithoutConfirmAsksNothing(roots, whatIf, answers, 1, unregisters);
    AppendEmpty(CleanRoots(roots, false, whatIf, answers, 1, unregisters));
    CleanSpecPicks(roots, false, whatIf, answers, unregisters);
  }

  /** Under Confirm a root gets past its question exactly when that
      question is answered yes; a no skips that root only. */
  lemma {:induction false} GatedMembers(roots: seq<SyncRootInfo>, answers: Answers, first: nat, x: SyncRootInfo)
    ensures x in Gated(roots, true, answers, first)
            <==> exists i :: 0 <= i < |roots| && roots[i] == x && answers(first + i)
    decreases |roots|
  {
    if roots != [] {
      var front := roots[..|roots| - 1];
      var n := |roots| - 1;
      GatedMembers(front, answers, first, x);
      GatedStep(roots, true, answers, first);
      if exists i :: 0 <= i < |front| && front[i] == x && answers(first + i) {
        var i :| 0 <= i < |front| && front[i] == x && answers(first + i);
        assert roots[i] == x;
      }
      if exists i :: 0 <= i < |roots| && roots[i] == x && answers(first + i) {
        var i :| 0 <= i < |roots| && roots[i] == x && answers(first + i);
        if i < n {
          assert front[i] == x;
        }
      }
    }
  }

  /** The selection keeps exactly the roots whose display name matches. */
  lemma {:induction false} MatchingMembers(roots: seq<SyncRootInfo>, patterns: seq<string>, glob: Glob, x: SyncRootInfo)
    ensures x in Matching(roots, patterns, glob) <==> x in roots && glob(patterns, x.name)
    decreases |roots|
  {
    if roots != [] {
      var front := roots[..|roots| - 1];
      MatchingMembers(front, patterns, glob, x);
      assert roots == front + [roots[|roots| - 1]];
    }
  }

  /** The selection keeps the enumeration order: what it keeps of a first
      part of the roots comes before what it keeps of the rest. */
  lemma {:induction false} MatchingAppend(a: seq<SyncRootInfo>, b: seq<SyncRootInfo>, patterns: seq<string>, glob: Glob)
    ensures Matching(a + b, patterns, glob) == Matching(a, patterns, glob) + Matching(b, patterns, glob)
    decreases |b|
  {
    if b == [] {
      assert a + b == a;
      AppendEmpty(Matching(a, patterns, glob));
    } else {
      var front := b[..|b| - 1];
      var last := b[|b| - 1];
      var kept := if glob(patterns, last.name) then [last] else [];
      assert (a + b)[..|a + b| - 1] == a + front;
      assert (a + b)[|a + b| - 1] == last;
      assert Matching(a + b, patterns, glob) == Matching(a + front, patterns, glob) + kept;
      assert Matching(b, patterns, glob) == Matching(front, patterns, glob) + kept;
      MatchingAppend(a, front, patterns, glob);
      AppendAssoc(Matching(a, patterns, glob), Matching(front, patterns, glob), kept);
    }
  }

  /** The selection is empty exactly when no root's display name matches. */
  lemma MatchingEmpty(roots: seq<SyncRootInfo>, patterns: seq<string>, glob: Glob)
    ensures Matching(roots, patterns, glob) == [] <==> forall i :: 0 <= i < |roots| ==> !glob(patterns, roots[i].name)
  {
    var r := Matching(roots, patterns, glob);
    if r != [] {
      MatchingMembers(roots, patterns, glob, r[0]);
    }
    forall i | 0 <= i < |roots| && glob(patterns, roots[i].name) ensures r != [] {
      MatchingMembers(roots, patterns, glob, roots[i]);
    }
  }
}
