/** The settings base class of the legacy commands (src/CommandSettings.cs):
    it owns an option parser, registers the Confirm and WhatIf switches, and
    sets its two flags from their handlers. */
module Settings {
  import opened Text
  import opened OptionParsing
  import ParserProperties

  /** The handlers a settings object registers: the base class's two, and the
      single one each derived settings class adds. */
  datatype Handler = ConfirmHandler | WhatIfHandler | DerivedHandler

  datatype RegisterError = NullOrWhiteSpaceName | KeyAlreadyExists

  /** Parse's result as the derived class sees it: the leftovers handed to
      ConsumeRemaining, or the exception; and the calls its own handler got. */
  datatype SettingsParse =
    | Done(remaining: seq<string>, derivedCalls: seq<Call<Handler>>)
    | Threw(error: ParseError, derivedCalls: seq<Call<Handler>>)

  /** The reply of ParseConfirm / ParseWhatIf: a bare switch continues; a
      value must be non-blank and parse as a boolean, otherwise the handler
      throws. */
  function FlagReply(kind: OptionType, value: Option<string>): (r: Reply)
    ensures r != Answer(NeedMore) && r != Answer(Unknown)
    ensures r == Throws <==> kind != Switch && (IsNullOrWhiteSpace(value) || ParseBool(value.value).None?)
  {
    if kind != Switch then
      if IsNullOrWhiteSpace(value) then Throws
      else if ParseBool(value.value).None? then Throws
      else Answer(Continue)
    else Answer(Continue)
  }

  /** The flag after a call of its handler that returned normally. */
  function FlagValue(current: bool, kind: OptionType, value: Option<string>): (r: bool)
    ensures kind == Switch ==> r
    ensures FlagReply(kind, value) == Answer(Continue) ==>
      (r <==> kind == Switch || ParseBool(value.value) == Some(true))
  {
    if kind == Switch then true
    else match value
      case None => current
      case Some(v) => match ParseBool(v) case Some(b) => b case None => current
  }

  /** The delegate table of a settings object: the base handlers' replies,
      and `derived` for the derived class's handler. */
  function Respond(derived: (OptionType, Option<string>) -> Reply): (Handler, OptionType, Option<string>) -> Reply
  {
    (h: Handler, kind: OptionType, value: Option<string>) =>
      match h
      case ConfirmHandler => FlagReply(kind, value)
      case WhatIfHandler => FlagReply(kind, value)
      case DerivedHandler => derived(kind, value)
  }

  /** A flag after the calls, in order, starting from `initial`. */
  function FlagAfter(calls: seq<Call<Handler>>, h: Handler, initial: bool): bool
  {
    if calls == [] then initial
    else
      var prev := FlagAfter(calls[..|calls| - 1], h, initial);
      var c := calls[|calls| - 1];
      if c.handler == h then FlagValue(prev, c.kind, c.value) else prev
  }

  /** The calls, in order, that went to the derived class's handler. */
  function DerivedCalls(calls: seq<Call<Handler>>): (r: seq<Call<Handler>>)
    ensures forall c :: c in r ==> c in calls && c.handler == DerivedHandler
  {
    if calls == [] then []
    else
      var c := calls[|calls| - 1];
      DerivedCalls(calls[..|calls| - 1]) + (if c.handler == DerivedHandler then [c] else [])
  }

  /** Every call that went to the derived handler is kept. */
  lemma {:induction false} DerivedCallsComplete(calls: seq<Call<Handler>>, c: Call<Handler>)
    ensures c in calls && c.handler == DerivedHandler ==> c in DerivedCalls(calls)
    decreases |calls|
  {
    if calls != [] {
      var front := calls[..|calls| - 1];
      assert calls == front + [calls[|calls| - 1]];
      DerivedCallsComplete(front, c);
    }
  }

  /** The derived handler's calls keep their order: those of an earlier
      stretch of calls come before those of a later one. */
  lemma {:induction false} DerivedCallsAppend(a: seq<Call<Handler>>, b: seq<Call<Handler>>)
    ensures DerivedCalls(a + b) == DerivedCalls(a) + DerivedCalls(b)
    decreases |b|
  {
    if b == [] {
      AppendEmpty(a);
      AppendEmpty(DerivedCalls(a));
    } else {
      var front := b[..|b| - 1];
      var c := b[|b| - 1];
      assert (a + b)[..|a + b| - 1] == a + front && (a + b)[|a + b| - 1] == c;
      DerivedCallsAppend(a, front);
      AppendAssoc(DerivedCalls(a), DerivedCalls(front), if c.handler == DerivedHandler then [c] else []);
    }
  }

  /** The reply of a derived handler that takes one value per option, as
      ParseInclude does (ParseSyncRoot refuses some values besides): a bare
      switch asks for the next token, and the value must not be blank. */
  function ValueReply(kind: OptionType, value: Option<string>): (r: Reply)
    ensures r == Answer(NeedMore) <==> kind == Switch
    ensures r == Throws <==> kind != Switch && IsNullOrWhiteSpace(value)
    ensures r != Answer(Unknown)
  {
    if kind == Switch then Answer(NeedMore)
    else if IsNullOrWhiteSpace(value) then Throws
    else Answer(Continue)
  }

  /** The values such a handler was given, in call order. */
  function SuppliedValues(calls: seq<Call<Handler>>): seq<string>
  {
    if calls == [] then []
    else
      var c := calls[|calls| - 1];
      SuppliedValues(calls[..|calls| - 1]) + (if c.kind != Switch && c.value.Some? then [c.value.value] else [])
  }

  lemma {:induction false} SuppliedValueFromCall(calls: seq<Call<Handler>>, v: string)
    requires v in SuppliedValues(calls)
    ensures exists c :: c in calls && c.kind != Switch && c.value == Some(v)
    decreases |calls|
  {
    var c := calls[|calls| - 1];
    var front := calls[..|calls| - 1];
    if v in SuppliedValues(front) {
      SuppliedValueFromCall(front, v);
      var d :| d in front && d.kind != Switch && d.value == Some(v);
      assert d in calls;
    } else {
      assert c in calls;
    }
  }

  function BaseTable(): seq<Entry<Handler>>
  {
    [Entry("Confirm", ConfirmHandler), Entry("WhatIf", WhatIfHandler)]
  }

  /** The two base names are non-blank and distinct ignoring case. */
  lemma BaseNamesRegistrable()
    ensures !IsNullOrWhiteSpace(Some("Confirm")) && !IsNullOrWhiteSpace(Some("WhatIf"))
    ensures forall e :: e in [Entry("Confirm", ConfirmHandler)] ==> !EqualsIgnoreCase(e.name, "WhatIf")
    ensures [Entry("Confirm", ConfirmHandler)] + [Entry("WhatIf", WhatIfHandler)] == BaseTable()
  {
    assert !IsWhiteSpace("Confirm"[0]) && !IsWhiteSpace("WhatIf"[0]);
    assert |"Confirm"| != |"WhatIf"|;
  }

  class CommandSettings {
    const parser: OptionParser<Handler>
    var confirm: bool
    var whatIf: bool

    ghost predicate Valid()
      reads this, parser
    {
      parser.Valid() && |parser.table| >= 2 && parser.table[..2] == BaseTable()
    }

    /** A fresh object has both flags off and exactly the Confirm and WhatIf
        options registered. */
    constructor ()
      ensures Valid() && fresh(parser)
      ensures !confirm && !whatIf
      ensures parser.table == BaseTable()
    {
      parser := new OptionParser();
      confirm := false;
      whatIf := false;
      new;
      BaseNamesRegistrable();
      assert parser.table == [];
      var first := Register(Some("Confirm"), ConfirmHandler);
      assert first.None?;
      AppendEmpty([Entry("Confirm", ConfirmHandler)]);
      assert parser.table == [Entry("Confirm", ConfirmHandler)];
      var second := Register(Some("WhatIf"), WhatIfHandler);
      assert second.None?;
      assert parser.table == BaseTable();
      TakeAll(BaseTable());
    }

    /** Register: a null or blank name, or one already present ignoring case,
        is an ArgumentException; otherwise the handler is added. */
    method Register(name: Option<string>, h: Handler) returns (error: Option<RegisterError>)
      requires parser.Valid()
      modifies parser
      ensures parser.Valid()
      ensures IsNullOrWhiteSpace(name) ==> error == Some(NullOrWhiteSpaceName)
      ensures !IsNullOrWhiteSpace(name) ==>
        (error == Some(KeyAlreadyExists) <==> exists e :: e in old(parser.table) && EqualsIgnoreCase(e.name, name.value))
      ensures error.None? <==> !IsNullOrWhiteSpace(name) && forall e :: e in old(parser.table) ==> !EqualsIgnoreCase(e.name, name.value)
      ensures parser.table == if error.None? then old(parser.table) + [Entry(name.value, h)] else old(parser.table)
    {
      if IsNullOrWhiteSpace(name) {
        return Some(NullOrWhiteSpaceName);
      }
      var added := parser.AddOption(name.value, h);
      if !added {
        return Some(KeyAlreadyExists);
      }
      return None;
    }

    /** Parse: run the parser with this object's handlers, apply the flag
        handlers' effects in call order, and hand the leftovers and the derived
        handler's calls to the derived class. */
    method Parse(args: seq<string>, derived: (OptionType, Option<string>) -> Reply) returns (result: SettingsParse)
      requires Valid()
      modifies this
      ensures Valid()
      ensures var o := ParseArgs(old(parser.table), Respond(derived), args);
        && confirm == FlagAfter(o.calls, ConfirmHandler, old(confirm))
        && whatIf == FlagAfter(o.calls, WhatIfHandler, old(whatIf))
        && result.derivedCalls == DerivedCalls(o.calls)
        && (result.Done? <==> o.Parsed?)
        && (result.Done? ==> result.remaining == o.remaining)
        && (result.Threw? ==> result.error == o.error)
    {
      var outcome := parser.Parse(args, Respond(derived));
      var calls := outcome.calls;
      ghost var c0, w0 := confirm, whatIf;
      var ours: seq<Call<Handler>> := [];
      var i := 0;
      while i < |calls|
        invariant 0 <= i <= |calls|
        invariant confirm == FlagAfter(calls[..i], ConfirmHandler, c0)
        invariant whatIf == FlagAfter(calls[..i], WhatIfHandler, w0)
        invariant ours == DerivedCalls(calls[..i])
      {
        var c := calls[i];
        PrefixStep(calls, i);
        match c.handler {
          case ConfirmHandler => confirm := FlagValue(confirm, c.kind, c.value);
          case WhatIfHandler => whatIf := FlagValue(whatIf, c.kind, c.value);
          case DerivedHandler => ours := ours + [c];
        }
        i := i + 1;
      }
      TakeAll(calls);
      match outcome {
        case Parsed(rem, _) => result := Done(rem, ours);
        case Failed(err, _) => result := Threw(err, ours);
      }
    }
  }

  // ---------------------------------------------------------------------------
  // Properties

  predicate NoOptionTokens(args: seq<string>)
  {
    forall k :: 0 <= k < |args| ==> !StartsWithDash(args[k])
  }

  /** Tokens without a leading dash, outside a pending value, are all handed
      back and call nothing. */
  lemma {:induction false} PositionalsOnly<H>(find: string -> Option<H>, respond: (H, OptionType, Option<string>) -> Reply,
                                              args: seq<string>, kind: OptionType, lastKey: string, handler: Option<H>)
    requires kind != Switch && NoOptionTokens(args)
    ensures ParseFrom(find, respond, args, kind, lastKey, handler) == Parsed(args, [])
    decreases |args|
  {
    if args != [] {
      PositionalsOnly(find, respond, args[1..], kind, lastKey, handler);
      assert [args[0]] + args[1..] == args;
    }
  }

  /** The flag that a Confirm or WhatIf handler sets. */
  predicate IsFlag(h: Handler)
  {
    h == ConfirmHandler || h == WhatIfHandler
  }

  /** The reply of a flag handler, as the delegate table delivers it. */
  lemma FlagResponds(derived: (OptionType, Option<string>) -> Reply, h: Handler, kind: OptionType, value: Option<string>)
    requires IsFlag(h)
    ensures Respond(derived)(h, kind, value) == FlagReply(kind, value)
  {
    match h {
      case ConfirmHandler =>
      case WhatIfHandler =>
    }
  }

  /** One step of the scan, from the Argument state, on an option token that
      resolves to `e`. */
  lemma OptionTokenStep<H>(table: seq<Entry<H>>, respond: (H, OptionType, Option<string>) -> Reply,
                      option: string, rest: seq<string>, key: string, value: Option<string>, e: Entry<H>)
    requires StartsWithDash(option) && SplitOption(option) == (key, value) && Resolve(table, key) == Some(e)
    ensures var kind := if value.Some? then KeyValue else Switch;
      ParseArgs(table, respond, [option] + rest)
        == match respond(e.handler, kind, value)
           case Throws => Failed(HandlerThrew(key), [])
           case Answer(r) => Prepend(Call(e.handler, kind, value),
                                     ParseFrom(FindHandler(table), respond, rest, if r != NeedMore then Argument else kind, key, Some(e.handler)))
  {
    assert ([option] + rest)[0] == option && ([option] + rest)[1..] == rest;
  }

  /** One step of the scan on an option token that names the flag `name`. */
  lemma FlagOptionStep(table: seq<Entry<Handler>>, derived: (OptionType, Option<string>) -> Reply,
                       name: string, h: Handler, option: string, value: Option<string>, rest: seq<string>)
    requires UniqueNames(table) && Entry(name, h) in table && IsFlag(h)
    requires StartsWithDash(option) && SplitOption(option) == (name, value)
    ensures var kind := if value.Some? then KeyValue else Switch;
      ParseArgs(table, Respond(derived), [option] + rest)
        == match FlagReply(kind, value)
           case Throws => Failed(HandlerThrew(name), [])
           case Answer(r) => Prepend(Call(h, kind, value), ParseFrom(FindHandler(table), Respond(derived), rest, Argument, name, Some(h)))
  {
    assert EqualsIgnoreCase(name, name);
    ParserProperties.ExactMatchWins(table, name, Entry(name, h));
    var kind := if value.Some? then KeyValue else Switch;
    FlagResponds(derived, h, kind, value);
    OptionTokenStep(table, Respond(derived), option, rest, name, value, Entry(name, h));
  }

  /** A bare `--Confirm` (or `--WhatIf`) sets its flag and answers Continue,
      so a following token is not taken as its value but handed back. */
  lemma BareFlagDoesNotConsumeNext(table: seq<Entry<Handler>>, derived: (OptionType, Option<string>) -> Reply,
                                   name: string, h: Handler, rest: seq<string>, initial: bool)
    requires UniqueNames(table) && Entry(name, h) in table && IsFlag(h)
    requires PlainName(name) && NoOptionTokens(rest)
    ensures ParseArgs(table, Respond(derived), ["--" + name] + rest) == Parsed(rest, [Call(h, Switch, None)])
    ensures FlagAfter([Call(h, Switch, None)], h, initial)
  {
    PlainOption(name);
    FlagOptionStep(table, derived, name, h, "--" + name, None, rest);
    PositionalsOnly(FindHandler(table), Respond(derived), rest, Argument, name, Some(h));
    AppendEmpty([Call(h, Switch, None)]);
    FlagAfterOne(Call(h, Switch, None), h, initial);
  }

  /** `--Confirm:<v>` / `--WhatIf=<v>` with a blank v, or one that is not a
      boolean: the handler throws and nothing is recorded. */
  lemma FlagWithBadValue(table: seq<Entry<Handler>>, derived: (OptionType, Option<string>) -> Reply,
                         name: string, h: Handler, sep: char, v: string)
    requires UniqueNames(table) && Entry(name, h) in table && IsFlag(h)
    requires PlainName(name) && IsSeparator(sep)
    requires IsNullOrWhiteSpace(Some(v)) || ParseBool(v).None?
    ensures ParseArgs(table, Respond(derived), ["--" + name + [sep] + v]) == Failed(HandlerThrew(name), [])
  {
    var option := "--" + name + [sep] + v;
    SplitFlagValue(name, sep, v);
    FlagOptionStep(table, derived, name, h, option, Some(v), []);
    AppendEmpty([option]);
  }

  /** `--Confirm:<v>` / `--WhatIf=<v>` with a boolean v: one call is recorded. */
  lemma FlagWithValue(table: seq<Entry<Handler>>, derived: (OptionType, Option<string>) -> Reply,
                      name: string, h: Handler, sep: char, v: string)
    requires UniqueNames(table) && Entry(name, h) in table && IsFlag(h)
    requires PlainName(name) && IsSeparator(sep)
    requires !IsNullOrWhiteSpace(Some(v)) && ParseBool(v).Some?
    ensures ParseArgs(table, Respond(derived), ["--" + name + [sep] + v]) == Parsed([], [Call(h, KeyValue, Some(v))])
  {
    var option := "--" + name + [sep] + v;
    SplitFlagValue(name, sep, v);
    FlagOptionStep(table, derived, name, h, option, Some(v), []);
    AppendEmpty([option]);
    AppendEmpty([Call(h, KeyValue, Some(v))]);
    assert FlagReply(KeyValue, Some(v)) == Answer(Continue);
  }

  /** That call sets the flag to the boolean the value spells. */
  lemma FlagSetToValue(h: Handler, v: string, initial: bool)
    requires ParseBool(v).Some?
    ensures FlagAfter([Call(h, KeyValue, Some(v))], h, initial) == ParseBool(v).value
  {
    FlagAfterOne(Call(h, KeyValue, Some(v)), h, initial);
  }

  lemma FlagAfterOne(c: Call<Handler>, h: Handler, initial: bool)
    ensures FlagAfter([c], h, initial) == if c.handler == h then FlagValue(initial, c.kind, c.value) else initial
  {
    assert [c][..0] == [];
  }

  lemma SplitFlagValue(name: string, sep: char, v: string)
    requires PlainName(name) && IsSeparator(sep)
    ensures StartsWithDash("--" + name + [sep] + v)
    ensures SplitOption("--" + name + [sep] + v) == (name, Some(v))
  {
    var t := name + [sep] + v;
    FlagToken(name, sep, v);
    DashesThenKey(t);
    SeparatorAfterKey(name, sep, v);
  }

  /** The pieces of `--name<sep>v`. */
  lemma FlagToken(name: string, sep: char, v: string)
    requires PlainName(name)
    ensures var t := name + [sep] + v;
      && "--" + name + [sep] + v == "--" + t
      && !StartsWithDash(t) && t[..|name|] == name && t[|name|] == sep && t[|name| + 1..] == v
  {
    var t := name + [sep] + v;
    assert "--" + name + [sep] + v == "--" + t;
    assert t[0] == name[0];
    assert t[..|name|] == name;
    assert t[|name| + 1..] == v;
  }

  /** A name that, written after dashes, is read back as itself with no value. */
  predicate PlainName(name: string)
  {
    |name| > 0 && !StartsWithDash(name) && forall k :: 0 <= k < |name| ==> !IsSeparator(name[k])
  }

  lemma PlainOption(name: string)
    requires PlainName(name)
    ensures StartsWithDash("--" + name) && SplitOption("--" + name) == (name, None)
  {
    DashesThenKey(name);
  }

  lemma DashesThenKey(s: string)
    requires !StartsWithDash(s)
    ensures TrimDashes("--" + s) == s
  {
    assert ("--" + s)[1..] == "-" + s;
    assert ("-" + s)[1..] == s;
  }

  lemma {:induction false} SeparatorAfterKey(name: string, sep: char, v: string)
    requires IsSeparator(sep) && forall k :: 0 <= k < |name| ==> !IsSeparator(name[k])
    ensures IndexOfSeparator(name + [sep] + v) == Some(|name|)
  {
    if name != [] {
      assert (name + [sep] + v)[1..] == name[1..] + [sep] + v;
      SeparatorAfterKey(name[1..], sep, v);
    }
  }
}
