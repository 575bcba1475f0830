/** The observable effects of the Prune and Clean commands. Every call into
    the Cloud Filter API, the Storage Provider sync root manager or the
    console prompt becomes an event appended to a trace; what those calls
    answer (whether a path exists, whether a connect succeeds, what a prompt
    is answered) is an input of the model. */
module Effects {
  import opened Text

  type Path = string
  type SyncRootId = string

  /** The yes/no questions the commands ask. */
  datatype Prompt =
    | ContinueUnregistering     // Prune, once before any root
    | ChangeFlags               // Prune, before the placeholder update
    | RemoveShellNamespace      // Prune, before the shell unregistration
    | UnregisterFromFilesystem  // Prune, before CfUnregisterSyncRoot
    | ContinueCleaning          // Clean, once before any root
    | ContinueRoot              // Clean, before each root

  datatype Event =
    | Asked(prompt: Prompt, yes: bool)
    | SkippedMissing(path: Path)
    | ConnectFailed(path: Path)
    | Connected(path: Path)
    | PlaceholderUpdated(path: Path)
    | Disconnected(path: Path)
    | ShellUnregistered(id: SyncRootId)
    | FsUnregistered(path: Path)
    | UnregisteredLine(name: string, whatIf: bool)
    | FailureReported(name: string, id: SyncRootId, path: Path)

  /** The calls that change the system: CfUpdatePlaceholder,
      StorageProviderSyncRootManager.Unregister and CfUnregisterSyncRoot. */
  predicate Mutating(e: Event)
  {
    e.PlaceholderUpdated? || e.ShellUnregistered? || e.FsUnregistered?
  }

  predicate NoMutation(trace: seq<Event>)
  {
    forall i :: 0 <= i < |trace| ==> !Mutating(trace[i])
  }

  predicate NoPrompt(trace: seq<Event>)
  {
    forall i :: 0 <= i < |trace| ==> !trace[i].Asked?
  }

  lemma NoMutationAppend(a: seq<Event>, b: seq<Event>)
    requires NoMutation(a) && NoMutation(b)
    ensures NoMutation(a + b)
  {
    forall i | 0 <= i < |a + b| ensures !Mutating((a + b)[i]) {
      if i >= |a| {
        assert (a + b)[i] == b[i - |a|];
      }
    }
  }

  lemma NoPromptAppend(a: seq<Event>, b: seq<Event>)
    requires NoPrompt(a) && NoPrompt(b)
    ensures NoPrompt(a + b)
  {
    forall i | 0 <= i < |a + b| ensures !(a + b)[i].Asked? {
      if i >= |a| {
        assert (a + b)[i] == b[i - |a|];
      }
    }
  }

  /** The events of one kind in a trace, in order, each mapped to what it
      carries. */
  function Pick<T>(trace: seq<Event>, f: Event -> Option<T>): seq<T>
  {
    if trace == [] then []
    else
      var e := trace[|trace| - 1];
      Pick(trace[..|trace| - 1], f) + (if f(e).Some? then [f(e).value] else [])
  }

  lemma {:induction false} PickConcat<T>(a: seq<Event>, b: seq<Event>, f: Event -> Option<T>)
    ensures Pick(a + b, f) == Pick(a, f) + Pick(b, f)
    decreases |b|
  {
    if b == [] {
      AppendEmpty(a);
      AppendEmpty(Pick(a, f));
    } else {
      var front := b[..|b| - 1];
      var e := b[|b| - 1];
      assert (a + b)[..|a + b| - 1] == a + front && (a + b)[|a + b| - 1] == e;
      PickConcat(a, front, f);
      AppendAssoc(Pick(a, f), Pick(front, f), if f(e).Some? then [f(e).value] else []);
    }
  }

  /** The answer a question got. */
  function ReplyOf(e: Event): Option<bool>
  {
    if e.Asked? then Some(e.yes) else None
  }

  /** The answers a trace shows, in order, are the oracle's answers from
      question number n on: each question consumes the next answer. */
  predicate Consumes(replies: seq<bool>, answers: Answers, n: nat)
  {
    forall j :: 0 <= j < |replies| ==> replies[j] == answers(n + j)
  }

  /** No answer, or the next one or two, are consumed in order. */
  lemma ConsumesNext(answers: Answers, n: nat)
    ensures Consumes([], answers, n)
    ensures Consumes([answers(n)], answers, n)
    ensures Consumes([answers(n), answers(n + 1)], answers, n)
  {
  }

  lemma ConsumesConcat(a: seq<bool>, b: seq<bool>, answers: Answers, n: nat)
    requires Consumes(a, answers, n) && Consumes(b, answers, n + |a|)
    ensures Consumes(a + b, answers, n)
  {
    forall j | 0 <= j < |a + b| ensures (a + b)[j] == answers(n + j) {
      if j >= |a| {
        assert (a + b)[j] == b[j - |a|];
        assert n + |a| + (j - |a|) == n + j;
      }
    }
  }

  /** A question answered from the oracle, followed by a trace that
      consumes the answers after it. */
  lemma ConsumesAfterAsked(prompt: Prompt, answers: Answers, n: nat, rest: seq<Event>)
    requires Consumes(Pick(rest, ReplyOf), answers, n + 1)
    ensures Consumes(Pick([Asked(prompt, answers(n))] + rest, ReplyOf), answers, n)
  {
    var q := [Asked(prompt, answers(n))];
    PickOne(q[0], ReplyOf);
    assert Pick(q, ReplyOf) == [answers(n)];
    ConsumesNext(answers, n);
    PickConcat(q, rest, ReplyOf);
    ConsumesConcat(Pick(q, ReplyOf), Pick(rest, ReplyOf), answers, n);
  }

  /** Every call that changes the system comes right after a question that
      was answered yes. */
  predicate Guarded(trace: seq<Event>)
  {
    forall i :: 0 <= i < |trace| && Mutating(trace[i]) ==>
      0 < i && trace[i - 1].Asked? && trace[i - 1].yes
  }

  lemma GuardedConcat(a: seq<Event>, b: seq<Event>)
    requires Guarded(a) && Guarded(b)
    ensures Guarded(a + b)
  {
    forall i | 0 <= i < |a + b| && Mutating((a + b)[i])
      ensures 0 < i && (a + b)[i - 1].Asked? && (a + b)[i - 1].yes
    {
      if i >= |a| {
        assert (a + b)[i] == b[i - |a|];
        assert (a + b)[i - 1] == b[i - 1 - |a|];
      } else {
        assert (a + b)[i] == a[i] && (a + b)[i - 1] == a[i - 1];
      }
    }
  }

  lemma PickOne<T>(e: Event, f: Event -> Option<T>)
    ensures Pick([e], f) == if f(e).Some? then [f(e).value] else []
  {
    assert [e][..0] == [];
  }

  /** A trace that shows no answer asked no question. */
  lemma {:induction false} NoRepliesNoPrompt(trace: seq<Event>)
    requires Pick(trace, ReplyOf) == []
    ensures NoPrompt(trace)
    decreases |trace|
  {
    if trace != [] {
      var front := trace[..|trace| - 1];
      NoRepliesNoPrompt(front);
      forall i | 0 <= i < |trace| ensures !trace[i].Asked? {
        if i < |front| { assert trace[i] == front[i]; }
      }
    }
  }

  /** The connection discipline, read left to right with `open` the path
      currently connected: a connect only when nothing is open, a disconnect
      only of the open path, a placeholder update only on the open path, and
      nothing left open at the end. */
  predicate PairedFrom(trace: seq<Event>, open: Option<Path>)
    decreases |trace|
  {
    if trace == [] then open.None?
    else match trace[0]
      case Connected(p) => open.None? && PairedFrom(trace[1..], Some(p))
      case Disconnected(p) => open == Some(p) && PairedFrom(trace[1..], None)
      case PlaceholderUpdated(p) => open == Some(p) && PairedFrom(trace[1..], open)
      case _ => PairedFrom(trace[1..], open)
  }

  predicate Paired(trace: seq<Event>)
  {
    PairedFrom(trace, None)
  }

  lemma {:induction false} PairedFromConcat(a: seq<Event>, b: seq<Event>, open: Option<Path>)
    requires PairedFrom(a, open) && Paired(b)
    ensures PairedFrom(a + b, open)
    decreases |a|
  {
    if a != [] {
      assert (a + b)[0] == a[0] && (a + b)[1..] == a[1..] + b;
      match a[0]
      case Connected(p) => PairedFromConcat(a[1..], b, Some(p));
      case Disconnected(p) => PairedFromConcat(a[1..], b, None);
      case _ => PairedFromConcat(a[1..], b, open);
    } else {
      assert a + b == b;
    }
  }

  /** A trace that neither connects, disconnects nor updates a placeholder. */
  predicate NoConnection(trace: seq<Event>)
  {
    forall i :: 0 <= i < |trace| ==>
      !trace[i].Connected? && !trace[i].Disconnected? && !trace[i].PlaceholderUpdated?
  }

  lemma NoConnectionAppend(a: seq<Event>, b: seq<Event>)
    requires NoConnection(a) && NoConnection(b)
    ensures NoConnection(a + b)
  {
    forall i | 0 <= i < |a + b|
      ensures !(a + b)[i].Connected? && !(a + b)[i].Disconnected? && !(a + b)[i].PlaceholderUpdated?
    {
      if i < |a| { assert (a + b)[i] == a[i]; } else { assert (a + b)[i] == b[i - |a|]; }
    }
  }

  lemma {:induction false} NoConnectionPaired(trace: seq<Event>)
    requires NoConnection(trace)
    ensures Paired(trace)
    decreases |trace|
  {
    if trace != [] {
      assert NoConnection(trace[1..]) by {
        forall i | 0 <= i < |trace[1..]| ensures !trace[1..][i].Connected? {
          assert trace[1..][i] == trace[i + 1];
        }
      }
      NoConnectionPaired(trace[1..]);
    }
  }

  /** A connect, then questions and placeholder updates of that path only,
      then its disconnect: well paired, and so is what follows it when that
      is well paired. */
  lemma {:induction false} ConnectedBlockPaired(p: Path, mid: seq<Event>, after: seq<Event>)
    requires forall i :: 0 <= i < |mid| ==> mid[i].Asked? || mid[i] == PlaceholderUpdated(p)
    requires Paired(after)
    ensures Paired([Connected(p)] + mid + [Disconnected(p)] + after)
  {
    var t := [Connected(p)] + mid + [Disconnected(p)] + after;
    OpenBlockPaired(p, mid, after);
    assert t[0] == Connected(p) && t[1..] == mid + [Disconnected(p)] + after;
  }

  lemma {:induction false} OpenBlockPaired(p: Path, mid: seq<Event>, after: seq<Event>)
    requires forall i :: 0 <= i < |mid| ==> mid[i].Asked? || mid[i] == PlaceholderUpdated(p)
    requires Paired(after)
    ensures PairedFrom(mid + [Disconnected(p)] + after, Some(p))
    decreases |mid|
  {
    var t := mid + [Disconnected(p)] + after;
    if mid == [] {
      assert t[0] == Disconnected(p) && t[1..] == after;
    } else {
      OpenBlockPaired(p, mid[1..], after);
      assert t[0] == mid[0] && t[1..] == mid[1..] + [Disconnected(p)] + after;
    }
  }

  /** Well-paired traces stay well paired when run one after the other. */
  lemma PairedConcat(a: seq<Event>, b: seq<Event>)
    requires Paired(a) && Paired(b)
    ensures Paired(a + b)
  {
    PairedFromConcat(a, b, None);
  }

  /** Where a well-paired trace is, after any prefix, some connection state. */
  lemma {:induction false} PairedSuffix(trace: seq<Event>, open: Option<Path>, i: nat)
    requires PairedFrom(trace, open) && i <= |trace|
    ensures exists o :: PairedFrom(trace[i..], o)
    decreases i
  {
    if i == 0 {
      assert trace[0..] == trace;
    } else {
      assert trace[1..][i - 1..] == trace[i..];
      match trace[0]
      case Connected(p) => PairedSuffix(trace[1..], Some(p), i - 1);
      case Disconnected(p) => PairedSuffix(trace[1..], None, i - 1);
      case _ => PairedSuffix(trace[1..], open, i - 1);
    }
  }

  lemma {:induction false} OpenUntilDisconnect(trace: seq<Event>, p: Path)
    requires PairedFrom(trace, Some(p))
    ensures exists j :: 0 <= j < |trace| && trace[j] == Disconnected(p)
                        && forall k :: 0 <= k < j ==> !trace[k].Connected? && !trace[k].Disconnected?
    decreases |trace|
  {
    if trace[0] != Disconnected(p) {
      var rest := trace[1..];
      OpenUntilDisconnect(rest, p);
      var j :| 0 <= j < |rest| && rest[j] == Disconnected(p)
               && forall k :: 0 <= k < j ==> !rest[k].Connected? && !rest[k].Disconnected?;
      assert trace[j + 1] == Disconnected(p);
      forall k | 0 <= k < j + 1 ensures !trace[k].Connected? && !trace[k].Disconnected? {
        if k > 0 {
          assert trace[k] == rest[k - 1];
        }
      }
    }
  }

  /** In a well-paired trace every connect is followed by exactly one
      disconnect of the same path before anything else is connected or
      disconnected. */
  lemma ConnectIsFollowedByDisconnect(trace: seq<Event>, i: nat)
    requires Paired(trace) && i < |trace| && trace[i].Connected?
    ensures exists j :: i < j < |trace| && trace[j] == Disconnected(trace[i].path)
                        && forall k :: i < k < j ==> !trace[k].Connected? && !trace[k].Disconnected?
  {
    PairedSuffix(trace, None, i);
    var o :| PairedFrom(trace[i..], o);
    var p := trace[i].path;
    assert trace[i..][0] == trace[i] && trace[i..][1..] == trace[i + 1..];
    var rest := trace[i + 1..];
    OpenUntilDisconnect(rest, p);
    var j :| 0 <= j < |rest| && rest[j] == Disconnected(p)
             && forall k :: 0 <= k < j ==> !rest[k].Connected? && !rest[k].Disconnected?;
    assert trace[i + 1 + j] == Disconnected(p);
    forall k | i < k < i + 1 + j ensures !trace[k].Connected? && !trace[k].Disconnected? {
      assert trace[k] == rest[k - i - 1];
    }
  }

  /** The prompt oracle: the answer given to the n-th question asked. */
  type Answers = nat -> bool

  /** A Spectre ValidationResult: success, or an error with its message. */
  datatype Validation = Success | Error(message: string)

  /** What StorageProviderSyncRootManager.GetSyncRootInformationForFolder
      gives for a folder: an exception, null, or a registration. */
  datatype ShellInfo = LookupThrows | NotRegistered | Registered(id: SyncRootId)

  /** The machine a Prune runs against: DirectoryInfo.Exists, whether
      CfConnectSyncRoot succeeds, and the shell's registration of a path. */
  datatype Host = Host(present: Path -> bool, connects: Path -> bool, shell: Path -> ShellInfo)
}
