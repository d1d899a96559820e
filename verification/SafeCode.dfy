/** Turning any text into a safe code. */
module SafeCode {

  const MAXIMUM_LENGTH := 128

  predicate IsUpper(c: char) { 'A' <= c <= 'Z' }

  predicate IsCodeChar(c: char) { IsUpper(c) || '0' <= c <= '9' || c == '_' }

  predicate AllCode(s: string) { forall i :: 0 <= i < |s| ==> IsCodeChar(s[i]) }

  /** The pattern: a letter, then at most 127 letters, digits or underscores. */
  predicate Matches(s: string) {
    0 < |s| <= MAXIMUM_LENGTH && IsUpper(s[0]) && AllCode(s)
  }

  /** Every longest run of other characters becomes one underscore. */
  function Collapsed(s: string): string {
    if s == "" then ""
    else if IsCodeChar(s[0]) then [s[0]] + Collapsed(s[1..])
    else if |s| > 1 && !IsCodeChar(s[1]) then Collapsed(s[1..])
    else "_" + Collapsed(s[1..])
  }

  function WithoutLeading(s: string): string {
    if s != "" && s[0] == '_' then WithoutLeading(s[1..]) else s
  }

  function WithoutTrailing(s: string): string {
    if s != "" && s[|s| - 1] == '_' then WithoutTrailing(s[..|s| - 1]) else s
  }

  function Truncated(s: string): string {
    if |s| <= MAXIMUM_LENGTH then s else s[..MAXIMUM_LENGTH]
  }

  /** How the text is trimmed and put in upper case; both leave texts of code characters as they are. */
  type Casing = string -> string

  ghost predicate KeepsCodes(upper: Casing) {
    forall s :: AllCode(s) ==> upper(s) == s
  }

  /** The text before it is cut off: collapsed, without underscores at either end. */
  function Stripped(upper: Casing, value: string): string {
    WithoutTrailing(WithoutLeading(Collapsed(upper(value))))
  }

  function Normalized(upper: Casing, value: string): string {
    Truncated(Stripped(upper, value))
  }

  function SafeCode(upper: Casing, value: string, fallback: string): string {
    var normalized := Normalized(upper, value);
    if Matches(normalized) then normalized else fallback
  }

  lemma {:induction false} CollapsedIsCode(s: string)
    ensures AllCode(Collapsed(s))
  {
    if s != "" { CollapsedIsCode(s[1..]); }
  }

  lemma {:induction false} CollapsedKeepsCode(s: string)
    requires AllCode(s)
    ensures Collapsed(s) == s
  {
    if s != "" { CollapsedKeepsCode(s[1..]); }
  }

  ghost predicate NoCode(s: string) { forall i :: 0 <= i < |s| ==> !IsCodeChar(s[i]) }

  /** A run of other characters collapses to one underscore, whatever its length. */
  lemma {:induction false} RunCollapses(s: string)
    requires s != "" && NoCode(s)
    ensures Collapsed(s) == "_"
  {
    if |s| > 1 { RunCollapses(s[1..]); }
  }

  /** Texts that are not cut inside such a run collapse part by part. */
  lemma {:induction false} PartsCollapse(s: string, t: string)
    requires s == "" || t == "" || IsCodeChar(s[|s| - 1]) || IsCodeChar(t[0])
    ensures Collapsed(s + t) == Collapsed(s) + Collapsed(t)
  {
    hide IsCodeChar;
    if s == "" {
      assert s + t == t;
    } else if t == "" {
      assert s + t == s;
    } else {
      assert (s + t)[1..] == s[1..] + t;
      PartsCollapse(s[1..], t);
    }
  }

  /** What is left starts with no underscore, and only underscores were taken off. */
  lemma {:induction false} WithoutLeadingIsSuffix(s: string)
    ensures var t := WithoutLeading(s);
            && |t| <= |s| && s[|s| - |t|..] == t && (t != "" ==> t[0] != '_')
            && forall i :: 0 <= i < |s| - |t| ==> s[i] == '_'
  {
    if s != "" && s[0] == '_' {
      WithoutLeadingIsSuffix(s[1..]);
      var t := WithoutLeading(s[1..]);
      forall i | 0 <= i < |s| - |t|
        ensures s[i] == '_'
      {
        if i > 0 { assert s[i] == s[1..][i - 1]; }
      }
      assert s[1..][|s[1..]| - |t|..] == s[|s| - |t|..];
    }
  }

  /** What is left ends in no underscore, and only underscores were taken off. */
  lemma {:induction false} WithoutTrailingIsPrefix(s: string)
    ensures var t := WithoutTrailing(s);
            t <= s && (t != "" ==> t[|t| - 1] != '_') && forall i :: |t| <= i < |s| ==> s[i] == '_'
  {
    if s != "" && s[|s| - 1] == '_' { WithoutTrailingIsPrefix(s[..|s| - 1]); }
  }

  lemma StrippedIsCode(upper: Casing, value: string)
    ensures var s := Stripped(upper, value);
            AllCode(s) && (s != "" ==> s[0] != '_' && s[|s| - 1] != '_')
  {
    var c := Collapsed(upper(value));
    CollapsedIsCode(upper(value));
    WithoutLeadingIsSuffix(c);
    var l := WithoutLeading(c);
    assert AllCode(l) by {
      forall i | 0 <= i < |l|
        ensures IsCodeChar(l[i])
      {
        assert l[i] == c[|c| - |l| + i];
      }
    }
    WithoutTrailingIsPrefix(l);
  }

  lemma NormalizedIsCode(upper: Casing, value: string)
    ensures var n := Normalized(upper, value);
            AllCode(n) && |n| <= MAXIMUM_LENGTH && (n != "" ==> n[0] != '_')
            && (n != "" && n[|n| - 1] == '_' ==> |n| == MAXIMUM_LENGTH)
  {
    StrippedIsCode(upper, value);
  }

  /** The fallback is answered exactly when the normalized text is empty or starts with a digit. */
  lemma FallbackExactly(upper: Casing, value: string, fallback: string)
    ensures var n := Normalized(upper, value);
            && (Matches(n) <==> n != "" && !('0' <= n[0] <= '9'))
            && (Matches(fallback) ==> Matches(SafeCode(upper, value, fallback)))
  {
    NormalizedIsCode(upper, value);
  }

  /** Capital letters, digits and the underscore, by their character codes. */
  lemma CodeCharacters(c: char)
    ensures IsUpper(c) <==> 65 <= c as int <= 90
    ensures IsCodeChar(c) <==> 65 <= c as int <= 90 || 48 <= c as int <= 57 || c as int == 95
  {
  }

  /** Some stretch of the text, with only underscores around it and none at its ends. */
  ghost predicate TrimmedTo(text: string, part: string) {
    exists i, j :: 0 <= i <= j <= |text| && part == text[i..j]
                   && (forall k :: 0 <= k < i || j <= k < |text| ==> text[k] == '_')
                   && (part != "" ==> part[0] != '_' && part[|part| - 1] != '_')
  }

  /**
   * The answer is made of the upper-cased text: collapsed, trimmed of underscores, and cut off at 128 characters; or it
   * is the fallback when nothing is left or a digit comes first.
   */
  lemma AnswerExactly(upper: Casing, value: string, fallback: string)
    ensures var part, answer := Stripped(upper, value), SafeCode(upper, value, fallback);
            && TrimmedTo(Collapsed(upper(value)), part)
            && (part == "" || '0' <= part[0] <= '9' ==> answer == fallback)
            && (part != "" && !('0' <= part[0] <= '9') ==>
                  answer <= part && |answer| == if |part| < 128 then |part| else 128)
  {
    var c := Collapsed(upper(value));
    WithoutLeadingIsSuffix(c);
    var l := WithoutLeading(c);
    WithoutTrailingIsPrefix(l);
    var part := WithoutTrailing(l);
    var i := |c| - |l|;
    assert part == c[i..i + |part|];
    forall k | 0 <= k < i || i + |part| <= k < |c|
      ensures c[k] == '_'
    {
      if k >= i { assert c[k] == l[k - i]; }
    }
    if part != "" { assert part[0] == l[0]; }
    assert TrimmedTo(c, part);
    FallbackExactly(upper, value, fallback);
  }

  /** A text that matches the pattern loses at most trailing underscores. */
  lemma MatchingText(upper: Casing, s: string)
    requires KeepsCodes(upper) && Matches(s)
    ensures Normalized(upper, s) == WithoutTrailing(s) && Matches(WithoutTrailing(s))
    ensures Normalized(upper, s) == s <==> s[|s| - 1] != '_'
  {
    CollapsedKeepsCode(s);
    WithoutTrailingIsPrefix(s);
    var t := WithoutTrailing(s);
    assert IsUpper(s[0]);
  }

  lemma FixedPoint(upper: Casing, s: string, fallback: string)
    requires KeepsCodes(upper) && Matches(s)
    ensures SafeCode(upper, s, fallback) == s <==> s[|s| - 1] != '_'
  {
    MatchingText(upper, s);
  }

  lemma AnswerIsFixed(upper: Casing, value: string, fallback: string)
    requires KeepsCodes(upper) && Matches(fallback)
    ensures var once := SafeCode(upper, value, fallback);
            Matches(once) && (SafeCode(upper, once, fallback) == once <==> once[|once| - 1] != '_')
  {
    FixedPoint(upper, SafeCode(upper, value, fallback), fallback);
  }

  /** A text that the fallback is answered for: nothing is left of it, or a digit comes first. */
  predicate NeedsFallback(stripped: string) {
    stripped == "" || '0' <= stripped[0] <= '9'
  }

  /** A text that is cut off right behind an underscore. */
  predicate CutBehindUnderscore(stripped: string) {
    |stripped| > MAXIMUM_LENGTH && stripped[MAXIMUM_LENGTH - 1] == '_'
  }

  /**
   * Applying it again leaves the answer as it is exactly when the text is not cut off behind an underscore or,
   * where the fallback is answered, the fallback does not end in one.
   */
  lemma IdempotentExactly(upper: Casing, value: string, fallback: string)
    requires KeepsCodes(upper) && Matches(fallback)
    ensures var s, once := Stripped(upper, value), SafeCode(upper, value, fallback);
            SafeCode(upper, once, fallback) == once
            <==> if NeedsFallback(s) then fallback[|fallback| - 1] != '_' else !CutBehindUnderscore(s)
  {
    StrippedIsCode(upper, value);
    FallbackExactly(upper, value, fallback);
    AnswerIsFixed(upper, value, fallback);
  }

  /** An answer that is not the fallback ends in an underscore only when it was cut off at 128 characters. */
  lemma ShortAnswersAreFixed(upper: Casing, value: string, fallback: string)
    requires KeepsCodes(upper) && Matches(fallback) && fallback[|fallback| - 1] != '_'
    requires |SafeCode(upper, value, fallback)| < MAXIMUM_LENGTH
    ensures var once := SafeCode(upper, value, fallback); SafeCode(upper, once, fallback) == once
  {
    NormalizedIsCode(upper, value);
    AnswerIsFixed(upper, value, fallback);
  }

  /** Two applications always reach a fixed point. */
  lemma TwiceIsFixed(upper: Casing, value: string, fallback: string)
    requires KeepsCodes(upper) && Matches(fallback)
    ensures var twice := SafeCode(upper, SafeCode(upper, value, fallback), fallback);
            SafeCode(upper, twice, fallback) == twice
  {
    var once := SafeCode(upper, value, fallback);
    MatchingText(upper, once);
    WithoutTrailingIsPrefix(once);
    FixedPoint(upper, WithoutTrailing(once), fallback);
  }

  function Repeat(c: char, n: nat): string {
    seq(n, _ => c)
  }

  /** One application need not be enough: 127 letters, an underscore and one more letter. */
  lemma OnceIsNotEnough(upper: Casing, fallback: string) returns (value: string)
    requires KeepsCodes(upper)
    ensures var once := SafeCode(upper, value, fallback);
            Matches(once) && SafeCode(upper, once, fallback) != once
  {
    value := Repeat('A', 127) + "_A";
    CollapsedKeepsCode(value);
    var once := value[..128];
    assert Normalized(upper, value) == once && once[127] == '_';
    FixedPoint(upper, once, fallback);
  }
}
