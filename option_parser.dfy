/** The hand-written command-line option parser (src/OptionParser.cs): a table
    of named handlers, exact case-insensitive lookup with abbreviation matching
    as fall-back, and a three-state scan over the argument list. */
module OptionParsing {
  import opened Text

  datatype OptionType = Argument | Switch | KeyValue

  datatype OptionResult = Continue | NeedMore | Unknown

  /** What an invoked handler does: answer, or throw (an ArgumentException or a
      FormatException from inside the handler). */
  datatype Reply = Answer(result: OptionResult) | Throws

  /** One registration of the handler table. */
  datatype Entry<H> = Entry(name: string, handler: H)

  /** One handler invocation that returned normally. */
  datatype Call<H> = Call(handler: H, kind: OptionType, value: Option<string>)

  datatype ParseError =
    | UnknownOption(key: string)
    | BadValue(key: string, value: string)
    | HandlerThrew(key: string)

  /** The list of positional leftovers, or the exception that ended the scan;
      either way the handler calls made before the end. */
  datatype ParseOutcome<H> =
    | Parsed(remaining: seq<string>, calls: seq<Call<H>>)
    | Failed(error: ParseError, calls: seq<Call<H>>)

  /** The dictionary's keys are distinct under ordinal case-insensitive comparison. */
  ghost predicate UniqueNames<H>(table: seq<Entry<H>>)
  {
    forall i, j :: 0 <= i < j < |table| ==> !EqualsIgnoreCase(table[i].name, table[j].name)
  }

  // ---------------------------------------------------------------------------
  // Key lookup

  /** Dictionary.TryGetValue with StringComparer.OrdinalIgnoreCase. */
  function ExactLookup<H>(table: seq<Entry<H>>, key: string): (r: Option<Entry<H>>)
    ensures r.Some? ==> r.value in table && EqualsIgnoreCase(r.value.name, key)
    ensures r.None? ==> forall e :: e in table ==> !EqualsIgnoreCase(e.name, key)
  {
    if table == [] then None
    else if EqualsIgnoreCase(table[0].name, key) then Some(table[0])
    else ExactLookup(table[1..], key)
  }

  /** An entry survives round i of the abbreviation search: its key is at least
      as long as the input and agrees with it at index i, ignoring case. */
  predicate Passes<H>(e: Entry<H>, key: string, i: nat)
    requires i < |key|
  {
    |e.name| >= |key| && Upper(key[i]) == Upper(e.name[i])
  }

  /** The entries of s that survive round i, in their order. */
  function Keep<H>(s: seq<Entry<H>>, key: string, i: nat): (r: seq<Entry<H>>)
    requires i < |key|
    ensures |r| <= |s|
    ensures forall e :: e in r ==> e in s && Passes(e, key, i)
  {
    if s == [] then []
    else (if Passes(s[0], key, i) then [s[0]] else []) + Keep(s[1..], key, i)
  }

  /** What the abbreviation search returns once rounds 0..i-1 have left `cur`:
      at round i it returns the first remaining entry when that entry survives
      the round and no entry after it does (the list then holds one element
      when that entry is visited); otherwise it goes on with the survivors. */
  function AbbrevFrom<H>(cur: seq<Entry<H>>, key: string, i: nat): Option<Entry<H>>
    decreases |key| - i
  {
    if i >= |key| then None
    else if |cur| > 0 && Passes(cur[0], key, i) && |Keep(cur[1..], key, i)| == 0 then Some(cur[0])
    else AbbrevFrom(Keep(cur, key, i), key, i + 1)
  }

  /** FindSlow over the table in its enumeration (insertion) order. */
  function Abbreviation<H>(table: seq<Entry<H>>, key: string): Option<Entry<H>>
  {
    AbbrevFrom(table, key, 0)
  }

  /** FindOptionHandler: the exact match, otherwise the abbreviation. */
  function Resolve<H>(table: seq<Entry<H>>, key: string): Option<Entry<H>>
  {
    match ExactLookup(table, key)
    case Some(e) => Some(e)
    case None => Abbreviation(table, key)
  }

  // ---------------------------------------------------------------------------
  // The scan

  /** An option token without its leading dashes, split at the first ':' or '='
      into key and value. */
  function SplitOption(option: string): (r: (string, Option<string>))
    ensures !StartsWithDash(r.0)
    ensures forall j :: 0 <= j < |r.0| ==> !IsSeparator(r.0[j])
    ensures r.1.None? ==> r.0 == TrimDashes(option)
    ensures r.1.Some? ==>
      var t := TrimDashes(option);
      |r.0| < |t| && IsSeparator(t[|r.0|]) && t == r.0 + [t[|r.0|]] + r.1.value
  {
    var t := TrimDashes(option);
    match IndexOfSeparator(t)
    case None => (t, None)
    case Some(k) =>
      SeparatorSplit(t, k);
      (t[..k], Some(t[k + 1..]))
  }

  /** Cutting a token at its first separator. */
  lemma SeparatorSplit(t: string, k: nat)
    requires k < |t| && IsSeparator(t[k]) && !StartsWithDash(t)
    requires forall j :: 0 <= j < k ==> !IsSeparator(t[j])
    ensures t == t[..k] + [t[k]] + t[k + 1..]
    ensures !StartsWithDash(t[..k]) && forall j :: 0 <= j < k ==> !IsSeparator(t[..k][j])
  {
    assert k > 0 ==> t[..k][0] == t[0];
  }

  function Prepend<H>(c: Call<H>, o: ParseOutcome<H>): ParseOutcome<H>
  {
    match o
    case Parsed(rem, calls) => Parsed(rem, [c] + calls)
    case Failed(err, calls) => Failed(err, [c] + calls)
  }

  function AddPositional<H>(x: string, o: ParseOutcome<H>): ParseOutcome<H>
  {
    match o
    case Parsed(rem, calls) => Parsed([x] + rem, calls)
    case Failed(_, _) => o
  }

  /** FindOptionHandler over a table, as the lookup function the scan uses. */
  function FindHandler<H>(table: seq<Entry<H>>): string -> Option<H>
  {
    (key: string) => match Resolve(table, key) case Some(e) => Some(e.handler) case None => None
  }

  /** What an option token does to the scan: an exception, or the recorded
      call and the state the scan goes on in. */
  datatype TokenStep<H> = Stop(error: ParseError) | Go(call: Call<H>, next: OptionType)

  /** An option token: split it, look the key up, invoke the handler; a
      NeedMore reply leaves a bare switch waiting for its value. */
  function OptionStep<H>(find: string -> Option<H>, respond: (H, OptionType, Option<string>) -> Reply,
                         option: string): TokenStep<H>
  {
    var (key, value) := SplitOption(option);
    var t := if value.Some? then KeyValue else Switch;
    match find(key)
    case None => Stop(UnknownOption(key))
    case Some(h) =>
      match respond(h, t, value)
      case Throws => Stop(HandlerThrew(key))
      case Answer(r) => Go(Call(h, t, value), if r != NeedMore then Argument else t)
  }

  /** The outcome of scanning `args` from the state (kind, lastKey, handler),
      resolving option keys with `find`; the scan is in Switch state exactly
      when a value is pending for handler. */
  function ParseFrom<H>(find: string -> Option<H>, respond: (H, OptionType, Option<string>) -> Reply,
                        args: seq<string>, kind: OptionType, lastKey: string, handler: Option<H>): ParseOutcome<H>
    requires kind == Switch ==> handler.Some?
    decreases |args|
  {
    if args == [] then Parsed([], [])
    else
      var option := args[0];
      if kind == Switch then
        var call := Call(handler.value, KeyValue, Some(option));
        match respond(handler.value, KeyValue, Some(option))
        case Throws => Failed(HandlerThrew(lastKey), [])
        case Answer(r) =>
          if r != Continue then Failed(BadValue(lastKey, option), [call])
          else Prepend(call, ParseFrom(find, respond, args[1..], KeyValue, lastKey, handler))
      else if StartsWithDash(option) then
        match OptionStep(find, respond, option)
        case Stop(e) => Failed(e, [])
        case Go(c, next) => Prepend(c, ParseFrom(find, respond, args[1..], next, SplitOption(option).0, Some(c.handler)))
      else
        AddPositional(option, ParseFrom(find, respond, args[1..], kind, lastKey, handler))
  }

  /** Parse as called: from the Argument state with nothing pending. */
  function ParseArgs<H>(table: seq<Entry<H>>, respond: (H, OptionType, Option<string>) -> Reply,
                        args: seq<string>): ParseOutcome<H>
  {
    ParseFrom(FindHandler(table), respond, args, Argument, "", None)
  }

  /** Outcome of the whole scan, given what the first part produced and how
      the rest ends. */
  function Combine<H>(remaining: seq<string>, calls: seq<Call<H>>, o: ParseOutcome<H>): ParseOutcome<H>
  {
    match o
    case Parsed(r, c) => Parsed(remaining + r, calls + c)
    case Failed(e, c) => Failed(e, calls + c)
  }

  // ---------------------------------------------------------------------------
  // The parser object

  class OptionParser<H> {
    var table: seq<Entry<H>>

    ghost predicate Valid()
      reads this
    {
      UniqueNames(table)
    }

    constructor ()
      ensures Valid() && table == []
    {
      table := [];
    }

    /** Dictionary.TryAdd: refuses a key equal, ignoring case, to one present. */
    method AddOption(name: string, handler: H) returns (added: bool)
      requires Valid()
      modifies this
      ensures Valid()
      ensures added <==> forall e :: e in old(table) ==> !EqualsIgnoreCase(e.name, name)
      ensures table == if added then old(table) + [Entry(name, handler)] else old(table)
    {
      var existing := ExactLookup(table, name);
      added := existing.None?;
      if added {
        table := table + [Entry(name, handler)];
      }
    }

    /** The abbreviation search: a copy of the table narrowed character by
        character, removing entries from the back. */
    method FindSlow(key: string) returns (found: Option<Entry<H>>)
      ensures found == Abbreviation(table, key)
    {
      var keys := table;
      var i := 0;
      while i < |key|
        invariant 0 <= i <= |key|
        invariant Abbreviation(table, key) == AbbrevFrom(keys, key, i)
      {
        ghost var cur := keys;
        var j := |keys| - 1;
        while j >= 0
          invariant -1 <= j < |cur|
          invariant Abbreviation(table, key) == AbbrevFrom(cur, key, i)
          invariant keys == cur[..j + 1] + Keep(cur[j + 1..], key, i)
          invariant j < 0 ==> !(|cur| > 0 && Passes(cur[0], key, i) && |Keep(cur[1..], key, i)| == 0)
        {
          var e := keys[j];
          ghost var rest := Keep(cur[j + 1..], key, i);
          SplitAt(keys, cur, rest, j);
          KeepFrom(cur, key, i, j);
          if |e.name| < |key| || Upper(key[i]) != Upper(e.name[i]) {
            keys := keys[..j] + keys[j + 1..];
          } else if |keys| == 1 {
            return Some(e);
          }
          j := j - 1;
        }
        assert cur[..0] == [] && cur[0..] == cur;
        assert keys == Keep(cur, key, i);
        assert AbbrevFrom(cur, key, i) == AbbrevFrom(keys, key, i + 1);
        i := i + 1;
      }
      return None;
    }

    /** FindOptionHandler: the handler of the resolved entry, if any. */
    method FindOptionHandler(key: string) returns (h: Option<H>)
      ensures h == FindHandler(table)(key)
    {
      var exact := ExactLookup(table, key);
      if exact.Some? {
        return Some(exact.value.handler);
      }
      var slow := FindSlow(key);
      if slow.Some? {
        return Some(slow.value.handler);
      }
      return None;
    }

    /** The option-token branch of Parse: split off the value, find the
        handler, invoke it. */
    method ScanOption(option: string, respond: (H, OptionType, Option<string>) -> Reply) returns (step: TokenStep<H>)
      ensures step == OptionStep(FindHandler(table), respond, option)
    {
      var kind := Switch;
      var (key, value) := SplitOption(option);
      if value.Some? {
        kind := KeyValue;
      }
      var found := FindOptionHandler(key);
      if found.None? {
        return Stop(UnknownOption(key));
      }
      var reply := respond(found.value, kind, value);
      match reply
      case Throws =>
        return Stop(HandlerThrew(key));
      case Answer(r) =>
        return Go(Call(found.value, kind, value), if r != NeedMore then Argument else kind);
    }

    /** Parse: one pass over args with the state (kind, lastKey, handler). */
    method Parse(args: seq<string>, respond: (H, OptionType, Option<string>) -> Reply)
      returns (outcome: ParseOutcome<H>)
      ensures outcome == ParseArgs(table, respond, args)
    {
      ghost var find := FindHandler(table);
      var remaining: seq<string> := [];
      var calls: seq<Call<H>> := [];
      var lastKey := "";
      var handler: Option<H> := None;
      var kind := Argument;
      var rest := args;
      while rest != []
        invariant kind == Switch ==> handler.Some?
        invariant ParseArgs(table, respond, args)
               == Combine(remaining, calls, ParseFrom(find, respond, rest, kind, lastKey, handler))
        decreases |rest|
      {
        var option := rest[0];
        if kind == Switch {
          kind := KeyValue;
          var reply := respond(handler.value, KeyValue, Some(option));
          match reply
          case Throws =>
            CombineFailed(remaining, calls, HandlerThrew(lastKey));
            return Failed(HandlerThrew(lastKey), calls);
          case Answer(r) =>
            CombineStep(remaining, calls, Call(handler.value, KeyValue, Some(option)),
                        ParseFrom(find, respond, rest[1..], KeyValue, lastKey, handler));
            calls := calls + [Call(handler.value, KeyValue, Some(option))];
            if r != Continue {
              CombineFailed(remaining, calls, BadValue(lastKey, option));
              return Failed(BadValue(lastKey, option), calls);
            }
        } else if StartsWithDash(option) {
          var step := ScanOption(option, respond);
          match step {
            case Stop(e) =>
              CombineFailed(remaining, calls, e);
              return Failed(e, calls);
            case Go(c, next) =>
              lastKey := SplitOption(option).0;
              handler := Some(c.handler);
              CombineStep(remaining, calls, c, ParseFrom(find, respond, rest[1..], next, lastKey, handler));
              calls := calls + [c];
              kind := next;
          }
        } else {
          CombinePositional(remaining, calls, option, ParseFrom(find, respond, rest[1..], kind, lastKey, handler));
          remaining := remaining + [option];
        }
        rest := rest[1..];
      }
      CombineParsed(remaining, calls);
      return Parsed(remaining, calls);
    }
  }

  lemma CombineFailed<H>(remaining: seq<string>, calls: seq<Call<H>>, e: ParseError)
    ensures Combine(remaining, calls, Failed(e, [])) == Failed(e, calls)
  {
    assert calls + [] == calls;
  }

  lemma CombineParsed<H>(remaining: seq<string>, calls: seq<Call<H>>)
    ensures Combine(remaining, calls, Parsed([], [])) == Parsed(remaining, calls)
  {
    assert remaining + [] == remaining && calls + [] == calls;
  }

  lemma CombineStep<H>(remaining: seq<string>, calls: seq<Call<H>>, c: Call<H>, o: ParseOutcome<H>)
    ensures Combine(remaining, calls, Prepend(c, o)) == Combine(remaining, calls + [c], o)
  {
    match o
    case Parsed(r, cs) => assert calls + ([c] + cs) == calls + [c] + cs;
    case Failed(e, cs) => assert calls + ([c] + cs) == calls + [c] + cs;
  }

  lemma CombinePositional<H>(remaining: seq<string>, calls: seq<Call<H>>, x: string, o: ParseOutcome<H>)
    ensures Combine(remaining, calls, AddPositional(x, o)) == Combine(remaining + [x], calls, o)
  {
    match o
    case Parsed(r, cs) => assert remaining + ([x] + r) == remaining + [x] + r;
    case Failed(e, cs) =>
  }

  /** The list during round i: the unvisited prefix of the round's start list,
      then the visited survivors. */
  lemma SplitAt<T>(keys: seq<T>, cur: seq<T>, rest: seq<T>, j: nat)
    requires j < |cur| && keys == cur[..j + 1] + rest
    ensures keys[j] == cur[j]
    ensures keys[..j] + keys[j + 1..] == cur[..j] + rest
    ensures keys == cur[..j] + ([cur[j]] + rest)
  {
    assert keys[..j] == cur[..j];
    assert keys[j + 1..] == rest;
  }

  /** Keep over a suffix peels off its first element. */
  lemma KeepFrom<H>(cur: seq<Entry<H>>, key: string, i: nat, j: nat)
    requires i < |key| && j < |cur|
    ensures Keep(cur[j..], key, i) == (if Passes(cur[j], key, i) then [cur[j]] else []) + Keep(cur[j + 1..], key, i)
  {
    assert cur[j..][0] == cur[j];
    assert cur[j..][1..] == cur[j + 1..];
  }
}
