/** Character and string primitives the command-line layer relies on:
    invariant upper-casing, ordinal case-insensitive comparison, the
    "null or white space" test, boolean parsing, and the dash/separator
    scanning done on option tokens. */
module Text {

  datatype Option<T> = None | Some(value: T)

  lemma AppendEmpty<T>(s: seq<T>)
    ensures s + [] == s && [] + s == s
  {
  }

  /** One more element of a prefix. */
  lemma PrefixStep<T>(s: seq<T>, i: nat)
    requires i < |s|
    ensures s[..i + 1][..i] == s[..i] && s[..i + 1][i] == s[i] && |s[..i + 1]| == i + 1
  {
  }

  lemma AppendAssoc<T>(a: seq<T>, b: seq<T>, c: seq<T>)
    ensures a + b + c == a + (b + c)
  {
  }

  lemma TakeAll<T>(s: seq<T>)
    ensures s[..|s|] == s && s[0..] == s
  {
  }

  /** char.ToUpperInvariant, restricted to the ASCII letters. */
  function Upper(c: char): char
  {
    if 'a' <= c <= 'z' then (c as int - 32) as char else c
  }

  /** string.ToUpperInvariant over the same folding. */
  function UpperString(s: string): (r: string)
    ensures |r| == |s|
    ensures forall i :: 0 <= i < |s| ==> r[i] == Upper(s[i])
  {
    if s == [] then [] else [Upper(s[0])] + UpperString(s[1..])
  }

  /** StringComparer.OrdinalIgnoreCase equality. */
  predicate EqualsIgnoreCase(a: string, b: string)
  {
    |a| == |b| && forall i :: 0 <= i < |a| ==> Upper(a[i]) == Upper(b[i])
  }

  /** The help word, tested the way both commands test it: upper-cased and
      compared with "HELP". */
  lemma HelpWord(s: string)
    ensures UpperString(s) == "HELP" <==> EqualsIgnoreCase(s, "help")
  {
    UpperStringIsIgnoreCase(s, "HELP");
    assert EqualsIgnoreCase(s, "help") <==> EqualsIgnoreCase(s, "HELP");
  }

  /** Upper-casing never produces a dash from anything but a dash. */
  lemma UpperDash(c: char)
    ensures Upper(c) == '-' <==> c == '-'
  {
  }

  /** Comparing upper-cased text with an upper-case literal is the same as
      comparing the text with it ignoring case. */
  lemma {:induction false} UpperStringIsIgnoreCase(s: string, t: string)
    requires UpperString(t) == t
    ensures UpperString(s) == t <==> EqualsIgnoreCase(s, t)
  {
    var u := UpperString(s);
    if EqualsIgnoreCase(s, t) {
      assert |u| == |t|;
      forall i | 0 <= i < |t| ensures u[i] == t[i] {
        assert Upper(t[i]) == t[i] by { assert UpperString(t)[i] == Upper(t[i]); }
      }
    }
  }

  /** The characters char.IsWhiteSpace accepts (the ASCII ones, NEL and NBSP). */
  predicate IsWhiteSpace(c: char)
  {
    c == ' ' || c == '\t' || c == '\n' || c == '\r' || c == '\U{B}' || c == '\U{C}'
    || c == '\U{85}' || c == '\U{A0}'
  }

  /** string.IsNullOrWhiteSpace; None stands for a null reference. */
  predicate IsNullOrWhiteSpace(v: Option<string>)
  {
    v.None? || forall i :: 0 <= i < |v.value| ==> IsWhiteSpace(v.value[i])
  }

  /** The characters bool.Parse trims from both ends. */
  predicate IsTrimmed(c: char)
  {
    IsWhiteSpace(c) || c == '\0'
  }

  function TrimStart(s: string): (r: string)
    ensures |r| <= |s| && r == s[|s| - |r|..]
    ensures r == [] || !IsTrimmed(r[0])
    ensures forall i :: 0 <= i < |s| - |r| ==> IsTrimmed(s[i])
  {
    if s != [] && IsTrimmed(s[0]) then TrimStart(s[1..]) else s
  }

  function TrimEnd(s: string): (r: string)
    ensures |r| <= |s| && r == s[..|r|]
    ensures r == [] || !IsTrimmed(r[|r| - 1])
    ensures forall i :: |r| <= i < |s| ==> IsTrimmed(s[i])
  {
    if s != [] && IsTrimmed(s[|s| - 1]) then TrimEnd(s[..|s| - 1]) else s
  }

  /** bool.Parse: "True" or "False" in any case, surrounded by optional white
      space; anything else is a FormatException, here None. */
  function ParseBool(s: string): (r: Option<bool>)
    ensures r == Some(true) ==> EqualsIgnoreCase(TrimEnd(TrimStart(s)), "TRUE")
    ensures r == Some(false) ==> EqualsIgnoreCase(TrimEnd(TrimStart(s)), "FALSE")
    ensures r == None ==>
      !EqualsIgnoreCase(TrimEnd(TrimStart(s)), "TRUE") && !EqualsIgnoreCase(TrimEnd(TrimStart(s)), "FALSE")
  {
    var t := TrimEnd(TrimStart(s));
    if EqualsIgnoreCase(t, "TRUE") then Some(true)
    else if EqualsIgnoreCase(t, "FALSE") then Some(false)
    else None
  }

  /** Text that starts and ends with a kept character is left alone by the
      trimming. */
  lemma Untrimmed(s: string)
    requires |s| > 0 && !IsTrimmed(s[0]) && !IsTrimmed(s[|s| - 1])
    ensures TrimEnd(TrimStart(s)) == s
  {
    assert TrimStart(s) == s;
  }

  /** bool.ToString() text parses back to the same value. */
  lemma ParseBoolRoundTrip(b: bool)
    ensures ParseBool(if b then "True" else "False") == Some(b)
  {
    if b {
      Untrimmed("True");
      assert EqualsIgnoreCase("True", "TRUE");
    } else {
      Untrimmed("False");
      assert |"False"| != |"TRUE"|;
      assert EqualsIgnoreCase("False", "FALSE");
    }
  }

  predicate StartsWithDash(s: string)
  {
    |s| > 0 && s[0] == '-'
  }

  /** ReadOnlySpan.TrimStart('-'): the token without its leading dashes. */
  function TrimDashes(s: string): (r: string)
    ensures |r| <= |s| && r == s[|s| - |r|..]
    ensures !StartsWithDash(r)
    ensures forall i :: 0 <= i < |s| - |r| ==> s[i] == '-'
  {
    if StartsWithDash(s) then TrimDashes(s[1..]) else s
  }

  predicate IsSeparator(c: char)
  {
    c == ':' || c == '='
  }

  /** IndexOfAny([':', '=']): the first separator, if any. */
  function IndexOfSeparator(s: string): (r: Option<nat>)
    ensures r.Some? ==> r.value < |s| && IsSeparator(s[r.value])
    ensures r.Some? ==> forall j :: 0 <= j < r.value ==> !IsSeparator(s[j])
    ensures r.None? ==> forall j :: 0 <= j < |s| ==> !IsSeparator(s[j])
  {
    if s == [] then None
    else if IsSeparator(s[0]) then Some(0)
    else match IndexOfSeparator(s[1..])
      case None => None
      case Some(k) => Some(k + 1)
  }
}
