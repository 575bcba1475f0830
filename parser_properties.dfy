/** What the option parser guarantees: lookup priority, what abbreviation
    matching may and may not return, and what the scan hands back. */
module ParserProperties {
  import opened Text
  import opened OptionParsing

  // ---------------------------------------------------------------------------
  // Lookup

  /** A registered key equal to the input ignoring case always wins over
      abbreviation matching. */
  lemma ExactMatchWins<H>(table: seq<Entry<H>>, key: string, e: Entry<H>)
    requires UniqueNames(table)
    requires e in table && EqualsIgnoreCase(e.name, key)
    ensures Resolve(table, key) == Some(e)
  {
    var f := ExactLookup(table, key).value;
    var i :| 0 <= i < |table| && table[i] == e;
    var j :| 0 <= j < |table| && table[j] == f;
    assert EqualsIgnoreCase(table[i].name, table[j].name) && EqualsIgnoreCase(table[j].name, table[i].name);
    assert i == j;
  }

  /** e is at least as long as the input and agrees with it, ignoring case, on
      the first n characters (no condition at all before the first round). */
  predicate Agrees<H>(e: Entry<H>, key: string, n: nat)
    requires n <= |key|
  {
    n == 0 || (|e.name| >= |key| && forall t :: 0 <= t < n ==> Upper(key[t]) == Upper(e.name[t]))
  }

  /** The entries still in the search list after n rounds, in table order. */
  function Candidates<H>(table: seq<Entry<H>>, key: string, n: nat): (r: seq<Entry<H>>)
    requires n <= |key|
    ensures |r| <= |table|
  {
    if table == [] then []
    else (if Agrees(table[0], key, n) then [table[0]] else []) + Candidates(table[1..], key, n)
  }

  /** x is a candidate after n rounds exactly when it is registered and agrees
      with the input on the first n characters. */
  lemma {:induction false} CandidateMember<H>(table: seq<Entry<H>>, key: string, n: nat, x: Entry<H>)
    requires n <= |key|
    ensures x in Candidates(table, key, n) <==> x in table && Agrees(x, key, n)
  {
    if table != [] {
      CandidateMember(table[1..], key, n, x);
      assert x in table <==> x == table[0] || x in table[1..];
    }
  }

  lemma {:induction false} CandidatesZero<H>(table: seq<Entry<H>>, key: string)
    ensures Candidates(table, key, 0) == table
  {
    if table != [] {
      CandidatesZero(table[1..], key);
    }
  }

  lemma {:induction false} KeepAppend<H>(a: seq<Entry<H>>, b: seq<Entry<H>>, key: string, i: nat)
    requires i < |key|
    ensures Keep(a + b, key, i) == Keep(a, key, i) + Keep(b, key, i)
  {
    if a != [] {
      var h := if Passes(a[0], key, i) then [a[0]] else [];
      assert (a + b)[0] == a[0] && (a + b)[1..] == a[1..] + b;
      assert Keep(a + b, key, i) == h + Keep(a[1..] + b, key, i);
      KeepAppend(a[1..], b, key, i);
      assert Keep(a, key, i) == h + Keep(a[1..], key, i);
      assert h + (Keep(a[1..], key, i) + Keep(b, key, i)) == (h + Keep(a[1..], key, i)) + Keep(b, key, i);
    } else {
      assert a + b == b;
    }
  }

  /** One round of the search turns the candidates of n rounds into those of n + 1. */
  lemma {:induction false} KeepCandidates<H>(table: seq<Entry<H>>, key: string, n: nat)
    requires n < |key|
    ensures Keep(Candidates(table, key, n), key, n) == Candidates(table, key, n + 1)
  {
    if table != [] {
      var h := if Agrees(table[0], key, n) then [table[0]] else [];
      KeepAppend(h, Candidates(table[1..], key, n), key, n);
      KeepCandidates(table[1..], key, n);
      if h != [] {
        assert h[1..] == [];
      }
    }
  }

  lemma {:induction false} AbbrevFromSound<H>(table: seq<Entry<H>>, key: string, i: nat, e: Entry<H>)
    requires i < |key|
    requires AbbrevFrom(Candidates(table, key, i), key, i) == Some(e)
    ensures exists n :: i < n <= |key| && Candidates(table, key, n) == [e]
    decreases |key| - i
  {
    var cur := Candidates(table, key, i);
    KeepCandidates(table, key, i);
    if |cur| > 0 && Passes(cur[0], key, i) && |Keep(cur[1..], key, i)| == 0 {
      assert Keep(cur, key, i) == [cur[0]] + Keep(cur[1..], key, i);
      assert Candidates(table, key, i + 1) == [e];
    } else if i + 1 < |key| {
      AbbrevFromSound(table, key, i + 1, e);
    } else {
      assert false;
    }
  }

  /** Abbreviation matching returns only an entry that, after some number n
      of examined characters, was the one key left: at least as long as the
      input and equal to it, ignoring case, on those n characters. */
  lemma AbbreviationSound<H>(table: seq<Entry<H>>, key: string, e: Entry<H>)
    requires Abbreviation(table, key) == Some(e)
    ensures e in table && |e.name| >= |key| && |key| > 0
    ensures exists n :: 0 < n <= |key| && Candidates(table, key, n) == [e]
                        && forall t :: 0 <= t < n ==> Upper(key[t]) == Upper(e.name[t])
  {
    CandidatesZero(table, key);
    if |key| == 0 {
      assert false;
    } else {
      AbbrevFromSound(table, key, 0, e);
      var n :| 0 < n <= |key| && Candidates(table, key, n) == [e];
      assert e in Candidates(table, key, n);
      CandidateMember(table, key, n, e);
    }
  }

  /** Two entries that both fully agree with the input: the later one is never
      at the head of the candidate list. */
  lemma {:induction false} LaterStaysBehind<H>(table: seq<Entry<H>>, key: string, n: nat, a: nat, b: nat)
    requires n <= |key| && a < b < |table|
    requires Agrees(table[a], key, n) && Agrees(table[b], key, n)
    ensures |Candidates(table, key, n)| > 1 && table[b] in Candidates(table, key, n)[1..]
  {
    var rest := Candidates(table[1..], key, n);
    assert table[1..][b - 1] == table[b];
    if a == 0 {
      CandidateMember(table[1..], key, n, table[b]);
      assert Candidates(table, key, n) == [table[0]] + rest;
    } else {
      assert table[1..][a - 1] == table[a];
      LaterStaysBehind(table[1..], key, n, a - 1, b - 1);
      if Agrees(table[0], key, n) {
        assert Candidates(table, key, n)[1..] == rest;
      } else {
        assert Candidates(table, key, n) == rest;
      }
    }
  }

  predicate PrefixIgnoreCase(key: string, name: string)
  {
    |name| >= |key| && forall t :: 0 <= t < |key| ==> Upper(key[t]) == Upper(name[t])
  }

  lemma {:induction false} KeepComplete<H>(s: seq<Entry<H>>, key: string, i: nat, e: Entry<H>)
    requires i < |key| && e in s && Passes(e, key, i)
    ensures e in Keep(s, key, i)
  {
    if s[0] != e {
      KeepComplete(s[1..], key, i, e);
    }
  }

  lemma PrefixAgrees<H>(e: Entry<H>, key: string, n: nat)
    requires n <= |key| && PrefixIgnoreCase(key, e.name)
    ensures Agrees(e, key, n)
  {
  }

  /** A survivor behind the head means the round cannot return. */
  lemma NoReturnWithSurvivorBehind<H>(cur: seq<Entry<H>>, key: string, i: nat, x: Entry<H>)
    requires i < |key| && |cur| > 0 && x in cur[1..] && Passes(x, key, i)
    ensures AbbrevFrom(cur, key, i) == AbbrevFrom(Keep(cur, key, i), key, i + 1)
  {
    KeepComplete(cur[1..], key, i, x);
  }

  lemma {:induction false} AmbiguousFrom<H>(table: seq<Entry<H>>, key: string, i: nat, a: nat, b: nat)
    requires i <= |key| && a < b < |table|
    requires PrefixIgnoreCase(key, table[a].name) && PrefixIgnoreCase(key, table[b].name)
    ensures AbbrevFrom(Candidates(table, key, i), key, i) == None
    decreases |key| - i
  {
    if i < |key| {
      AmbiguousFrom(table, key, i + 1, a, b);
      var cur := Candidates(table, key, i);
      var next := Candidates(table, key, i + 1);
      assert AbbrevFrom(next, key, i + 1) == None;
      KeepCandidates(table, key, i);
      assert Keep(cur, key, i) == next;
      PrefixAgrees(table[a], key, i);
      PrefixAgrees(table[b], key, i);
      LaterStaysBehind(table, key, i, a, b);
      NoReturnWithSurvivorBehind(cur, key, i, table[b]);
    }
  }

  /** Two registered keys that both have the input as a case-insensitive
      prefix make abbreviation matching return nothing. */
  lemma AmbiguousAbbreviation<H>(table: seq<Entry<H>>, key: string, a: nat, b: nat)
    requires a < b < |table|
    requires PrefixIgnoreCase(key, table[a].name) && PrefixIgnoreCase(key, table[b].name)
    ensures Abbreviation(table, key) == None
  {
    CandidatesZero(table, key);
    AmbiguousFrom(table, key, 0, a, b);
  }

  /** A key that does not start with a dash never resolves to an entry whose
      name does: neither exact nor abbreviated matching can align a dash. */
  lemma DashNamesUnreachable<H>(table: seq<Entry<H>>, key: string)
    requires !StartsWithDash(key)
    ensures Resolve(table, key).Some? ==>
      Resolve(table, key).value in table && !StartsWithDash(Resolve(table, key).value.name)
  {
    match ExactLookup(table, key)
    case Some(e) =>
      if StartsWithDash(e.name) {
        UpperDash(key[0]);
        assert false;
      }
    case None =>
      if Abbreviation(table, key).Some? {
        var e := Abbreviation(table, key).value;
        AbbreviationSound(table, key, e);
        if StartsWithDash(e.name) {
          assert false;
        }
      }
  }

  /** With the handler table registered as [Confirm, WhatIf], "--C" and even
      "--Cxyz" select Confirm, "--Wh" selects WhatIf, but "--W" is an unknown
      option: the search only returns an entry at the moment it is visited as
      the sole survivor, and WhatIf is the last entry left after the final
      examined character. */
  lemma AbbreviationIsOrderDependent<H>(confirm: H, whatIf: H)
    ensures var table := [Entry("Confirm", confirm), Entry("WhatIf", whatIf)];
      && Resolve(table, "C") == Some(table[0])
      && Resolve(table, "Cxyz") == Some(table[0])
      && Resolve(table, "Wh") == Some(table[1])
      && Resolve(table, "W") == None
  {
    var table := [Entry("Confirm", confirm), Entry("WhatIf", whatIf)];
    assert !EqualsIgnoreCase(table[0].name, "C") && !EqualsIgnoreCase(table[1].name, "C");
    assert !EqualsIgnoreCase(table[0].name, "Cxyz") && !EqualsIgnoreCase(table[1].name, "Cxyz");
    assert !EqualsIgnoreCase(table[0].name, "Wh") && !EqualsIgnoreCase(table[1].name, "Wh");
    assert !EqualsIgnoreCase(table[0].name, "W") && !EqualsIgnoreCase(table[1].name, "W");
    assert table[1..] == [table[1]];
    assert Keep(table, "W", 0) == [table[1]];
    assert Keep(table, "Wh", 0) == [table[1]];
  }

  // ---------------------------------------------------------------------------
  // The scan

  /** The tokens that do not start with a dash, in order. */
  function Positionals(args: seq<string>): (r: seq<string>)
    ensures forall x :: x in r ==> x in args && !StartsWithDash(x)
  {
    if args == [] then []
    else (if StartsWithDash(args[0]) then [] else [args[0]]) + Positionals(args[1..])
  }

  /** a can be obtained from b by deleting elements. */
  predicate IsSubsequence(a: seq<string>, b: seq<string>)
  {
    if b == [] then a == []
    else IsSubsequence(a, b[1..]) || (a != [] && a[0] == b[0] && IsSubsequence(a[1..], b[1..]))
  }

  /** The leftovers are non-option tokens of the input, in their original
      relative order; tokens consumed as values are missing from them. */
  lemma {:induction false} RemainingArePositional<H>(
    find: string -> Option<H>, respond: (H, OptionType, Option<string>) -> Reply,
    args: seq<string>, kind: OptionType, lastKey: string, handler: Option<H>)
    requires kind == Switch ==> handler.Some?
    ensures var o := ParseFrom(find, respond, args, kind, lastKey, handler);
      o.Parsed? ==> IsSubsequence(o.remaining, Positionals(args))
    decreases |args|
  {
    if args != [] {
      var option := args[0];
      var o := ParseFrom(find, respond, args, kind, lastKey, handler);
      if kind == Switch {
        RemainingArePositional(find, respond, args[1..], KeyValue, lastKey, handler);
        if o.Parsed? {
          SubsequenceSkip(o.remaining, Positionals(args[1..]), Positionals(args));
        }
      } else if StartsWithDash(option) {
        match OptionStep(find, respond, option)
        case Stop(_) =>
        case Go(c, next) =>
          RemainingArePositional(find, respond, args[1..], next, SplitOption(option).0, Some(c.handler));
          assert Positionals(args) == Positionals(args[1..]);
      } else {
        RemainingArePositional(find, respond, args[1..], kind, lastKey, handler);
        if o.Parsed? {
          var rest := ParseFrom(find, respond, args[1..], kind, lastKey, handler);
          assert o.remaining == [option] + rest.remaining;
          assert Positionals(args) == [option] + Positionals(args[1..]);
          assert ([option] + rest.remaining)[1..] == rest.remaining;
        }
      }
    }
  }

  lemma SubsequenceSkip(a: seq<string>, b: seq<string>, c: seq<string>)
    requires IsSubsequence(a, b)
    requires c == b || (c != [] && c[1..] == b)
    ensures IsSubsequence(a, c)
  {
  }

  /** When no handler asks for more on a bare switch, the leftovers are exactly
      the tokens that do not start with a dash. */
  lemma {:induction false} RemainingExactWithoutNeedMore<H>(
    find: string -> Option<H>, respond: (H, OptionType, Option<string>) -> Reply,
    args: seq<string>, kind: OptionType, lastKey: string, handler: Option<H>)
    requires kind != Switch
    requires forall h :: respond(h, Switch, None) != Answer(NeedMore)
    ensures var o := ParseFrom(find, respond, args, kind, lastKey, handler);
      o.Parsed? ==> o.remaining == Positionals(args)
    decreases |args|
  {
    if args != [] {
      var option := args[0];
      if StartsWithDash(option) {
        match OptionStep(find, respond, option)
        case Stop(_) =>
        case Go(c, next) =>
          assert next != Switch;
          RemainingExactWithoutNeedMore(find, respond, args[1..], next, SplitOption(option).0, Some(c.handler));
      } else {
        RemainingExactWithoutNeedMore(find, respond, args[1..], kind, lastKey, handler);
      }
    }
  }

  /** Every call of the list went to a handler other than h. */
  predicate NoCallTo<H(==)>(calls: seq<Call<H>>, h: H)
  {
    forall i :: 0 <= i < |calls| ==> calls[i].handler != h
  }

  /** A handler the lookup never returns for a key without a leading dash is
      never invoked, whatever the arguments. */
  lemma {:induction false} UnfoundHandlerNeverCalled<H>(
    find: string -> Option<H>, respond: (H, OptionType, Option<string>) -> Reply,
    args: seq<string>, kind: OptionType, lastKey: string, handler: Option<H>, h: H)
    requires kind == Switch ==> handler.Some? && handler.value != h
    requires forall k :: !StartsWithDash(k) ==> find(k) != Some(h)
    ensures NoCallTo(ParseFrom(find, respond, args, kind, lastKey, handler).calls, h)
    decreases |args|
  {
    if args != [] {
      var option := args[0];
      if kind == Switch {
        var rest := ParseFrom(find, respond, args[1..], KeyValue, lastKey, handler);
        UnfoundHandlerNeverCalled(find, respond, args[1..], KeyValue, lastKey, handler, h);
        PrependNoCall(Call(handler.value, KeyValue, Some(option)), rest, h);
      } else if StartsWithDash(option) {
        match OptionStep(find, respond, option)
        case Stop(_) =>
        case Go(c, next) =>
          var key := SplitOption(option).0;
          var rest := ParseFrom(find, respond, args[1..], next, key, Some(c.handler));
          UnfoundHandlerNeverCalled(find, respond, args[1..], next, key, Some(c.handler), h);
          PrependNoCall(c, rest, h);
      } else {
        UnfoundHandlerNeverCalled(find, respond, args[1..], kind, lastKey, handler, h);
      }
    }
  }

  lemma PrependNoCall<H>(c: Call<H>, rest: ParseOutcome<H>, h: H)
    requires c.handler != h && NoCallTo(rest.calls, h)
    ensures NoCallTo(Prepend(c, rest).calls, h)
  {
    assert Prepend(c, rest).calls == [c] + rest.calls;
  }

  /** A handler registered only under names that start with a dash is never
      invoked, whatever the arguments. */
  lemma DashNamedHandlerNeverCalled<H>(
    table: seq<Entry<H>>, respond: (H, OptionType, Option<string>) -> Reply, args: seq<string>, h: H)
    requires forall e :: e in table && e.handler == h ==> StartsWithDash(e.name)
    ensures NoCallTo(ParseArgs(table, respond, args).calls, h)
  {
    var find := FindHandler(table);
    forall k | !StartsWithDash(k) ensures find(k) != Some(h) {
      DashNamesUnreachable(table, k);
    }
    UnfoundHandlerNeverCalled(find, respond, args, Argument, "", None, h);
  }

  /** Every call of the list got a reply from its handler. */
  predicate AllAnswered<H>(respond: (H, OptionType, Option<string>) -> Reply, calls: seq<Call<H>>)
  {
    forall i :: 0 <= i < |calls| ==> respond(calls[i].handler, calls[i].kind, calls[i].value).Answer?
  }

  lemma PrependAnswered<H>(respond: (H, OptionType, Option<string>) -> Reply, c: Call<H>, rest: ParseOutcome<H>)
    requires respond(c.handler, c.kind, c.value).Answer? && AllAnswered(respond, rest.calls)
    ensures AllAnswered(respond, Prepend(c, rest).calls)
  {
    assert Prepend(c, rest).calls == [c] + rest.calls;
  }

  /** Every recorded call is one its handler returned from, with a reply. */
  lemma {:induction false} CallsAnswered<H>(
    find: string -> Option<H>, respond: (H, OptionType, Option<string>) -> Reply,
    args: seq<string>, kind: OptionType, lastKey: string, handler: Option<H>)
    requires kind == Switch ==> handler.Some?
    ensures AllAnswered(respond, ParseFrom(find, respond, args, kind, lastKey, handler).calls)
    decreases |args|
  {
    if args != [] {
      var option := args[0];
      if kind == Switch {
        match respond(handler.value, KeyValue, Some(option))
        case Throws =>
        case Answer(r) =>
          if r == Continue {
            var rest := ParseFrom(find, respond, args[1..], KeyValue, lastKey, handler);
            CallsAnswered(find, respond, args[1..], KeyValue, lastKey, handler);
            PrependAnswered(respond, Call(handler.value, KeyValue, Some(option)), rest);
          }
      } else if StartsWithDash(option) {
        match OptionStep(find, respond, option)
        case Stop(_) =>
        case Go(c, next) =>
          var key := SplitOption(option).0;
          var rest := ParseFrom(find, respond, args[1..], next, key, Some(c.handler));
          CallsAnswered(find, respond, args[1..], next, key, Some(c.handler));
          PrependAnswered(respond, c, rest);
      } else {
        CallsAnswered(find, respond, args[1..], kind, lastKey, handler);
      }
    }
  }

  /** A token of dashes only has the empty key, which no handler answers to
      when no key is empty. */
  lemma DashesOnlyIsUnknown<H>(
    table: seq<Entry<H>>, respond: (H, OptionType, Option<string>) -> Reply, option: string, rest: seq<string>)
    requires |option| > 0 && forall k :: 0 <= k < |option| ==> option[k] == '-'
    requires forall e :: e in table ==> e.name != ""
    ensures ParseArgs(table, respond, [option] + rest) == Failed(UnknownOption(""), [])
  {
    assert ([option] + rest)[0] == option;
    assert SplitOption(option) == ("", None);
    assert Abbreviation(table, "") == None;
    assert FindHandler(table)("") == None;
  }

  /** A bare switch whose handler asks for more hands the next token, dash or
      not, to the same handler as a KeyValue value; a reply other than Continue
      is a "Bad value" error. */
  lemma NeedMoreTakesNextToken<H>(
    find: string -> Option<H>, respond: (H, OptionType, Option<string>) -> Reply,
    option: string, next: string, rest: seq<string>, kind: OptionType, lastKey: string, handler: Option<H>, h: H)
    requires kind != Switch && StartsWithDash(option)
    requires SplitOption(option).1.None? && find(SplitOption(option).0) == Some(h)
    requires respond(h, Switch, None) == Answer(NeedMore)
    ensures var key := SplitOption(option).0;
      var first := Call(h, Switch, None);
      var second := Call(h, KeyValue, Some(next));
      ParseFrom(find, respond, [option, next] + rest, kind, lastKey, handler)
        == match respond(h, KeyValue, Some(next))
           case Throws => Failed(HandlerThrew(key), [first])
           case Answer(r) =>
             if r != Continue then Failed(BadValue(key, next), [first, second])
             else Prepend(first, Prepend(second, ParseFrom(find, respond, rest, KeyValue, key, Some(h))))
  {
    var args := [option, next] + rest;
    assert args[0] == option && args[1..] == [next] + rest;
    assert ([next] + rest)[0] == next && ([next] + rest)[1..] == rest;
  }

  /** Input that ends while a value is pending is not an error. */
  lemma PendingAtEndIsAccepted<H>(
    find: string -> Option<H>, respond: (H, OptionType, Option<string>) -> Reply,
    option: string, kind: OptionType, lastKey: string, handler: Option<H>, h: H)
    requires kind != Switch && StartsWithDash(option)
    requires SplitOption(option).1.None? && find(SplitOption(option).0) == Some(h)
    requires respond(h, Switch, None) == Answer(NeedMore)
    ensures ParseFrom(find, respond, [option], kind, lastKey, handler) == Parsed([], [Call(h, Switch, None)])
  {
    assert [option][1..] == [];
  }

  /** An option token records one call of its handler: as KeyValue with the
      value cut off by SplitOption, or as Switch with no value. */
  lemma OptionCallShape<H>(
    find: string -> Option<H>, respond: (H, OptionType, Option<string>) -> Reply,
    option: string, rest: seq<string>, kind: OptionType, lastKey: string, handler: Option<H>, h: H)
    requires kind != Switch && StartsWithDash(option)
    requires find(SplitOption(option).0) == Some(h)
    requires respond(h, if SplitOption(option).1.Some? then KeyValue else Switch, SplitOption(option).1).Answer?
    ensures var o := ParseFrom(find, respond, [option] + rest, kind, lastKey, handler);
      var v := SplitOption(option).1;
      |o.calls| > 0 && o.calls[0] == Call(h, if v.Some? then KeyValue else Switch, v)
  {
    var args := [option] + rest;
    assert args[0] == option && args[1..] == rest;
  }

  /** The value SplitOption cuts off is the text after the first separator. */
  lemma SplitOptionValue(option: string)
    ensures var t := TrimDashes(option);
      && (IndexOfSeparator(t).None? ==> SplitOption(option).1.None?)
      && (IndexOfSeparator(t).Some? ==> SplitOption(option).1 == Some(t[IndexOfSeparator(t).value + 1..]))
  {
  }
}
