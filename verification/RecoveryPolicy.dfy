/** Failure classification, automatic retry, and the delay before the next attempt. */
module RecoveryPolicy {
  import opened Wrappers

  datatype Category =
    | TransientNetwork | Timeout | RateLimited | CircuitOpen | ProviderUnavailable | MalformedOutput
    | SchemaValidation | PolicyDenied | AuthorizationDenied | RuntimeAuthentication | ConnectionRevoked
    | PassportRevoked | ApprovalRejected | DataContractDenied | ResidencyDenied | ClassificationDenied
    | Cancellation | OperatorTerminated | NonReversibleFailure | OutcomeUnknown | UnknownSafeFailure

  /** Categories that are never retried automatically. */
  predicate NonAutomatic(c: Category) {
    c in {RuntimeAuthentication, AuthorizationDenied, PolicyDenied, ConnectionRevoked, PassportRevoked, MalformedOutput,
          SchemaValidation, ApprovalRejected, DataContractDenied, ResidencyDenied, ClassificationDenied, Cancellation,
          OperatorTerminated, NonReversibleFailure, OutcomeUnknown}
  }

  // ---------- Classification ----------

  /**
   * An error as the classifier sees it: its category hint when that is a known category, whether it is flagged
   * as ambiguous, whether its code is one of the three ambiguous codes, and which code patterns match.
   */
  datatype Failure = Failure(
    hint: Option<Category>,
    flaggedAmbiguous: bool,
    ambiguousCode: bool,
    matches: set<Category>)

  /** The code patterns, in the order they are tried. */
  const PATTERN_ORDER: seq<Category> :=
    [Cancellation, OperatorTerminated, NonReversibleFailure, ResidencyDenied, ClassificationDenied, DataContractDenied,
     ApprovalRejected, PassportRevoked, ConnectionRevoked, RuntimeAuthentication, AuthorizationDenied, PolicyDenied,
     SchemaValidation, MalformedOutput, RateLimited, CircuitOpen, Timeout, ProviderUnavailable, TransientNetwork]

  function FirstMatch(order: seq<Category>, matches: set<Category>): Category {
    if order == [] then UnknownSafeFailure
    else if order[0] in matches then order[0]
    else FirstMatch(order[1..], matches)
  }

  function Classify(f: Failure): Category {
    if f.hint.Some? then f.hint.value
    else if f.flaggedAmbiguous || f.ambiguousCode then OutcomeUnknown
    else FirstMatch(PATTERN_ORDER, f.matches)
  }

  // ---------- Eligibility ----------

  /** `Number(x)`: a number, or not one. */
  datatype Numeric = NotANumber | Number(value: real)

  predicate IsInteger(n: Numeric) {
    n.Number? && n.value == n.value.Floor as real
  }

  datatype Policy = Policy(
    nonRecoverable: Option<seq<Category>>,
    permitted: Option<seq<Category>>,
    maximumRecoveryAttempts: Option<Numeric>,
    backoff: Backoff)

  datatype Request = Request(
    category: Option<Category>,
    failure: Failure,
    idempotencySafe: Option<bool>,
    deadlineExpired: bool,
    maximumAttempts: Option<Numeric>,
    attempt: Numeric,
    policy: Policy)

  function CategoryOf(r: Request): Category {
    if r.category.Some? then r.category.value else Classify(r.failure)
  }

  function MaximumOf(r: Request): Numeric {
    if r.maximumAttempts.Some? then r.maximumAttempts.value
    else if r.policy.maximumRecoveryAttempts.Some? then r.policy.maximumRecoveryAttempts.value
    else Number(0.0)
  }

  predicate Eligible(r: Request) {
    var category := CategoryOf(r);
    if NonAutomatic(category) then false
    else if r.policy.nonRecoverable.Some? && category in r.policy.nonRecoverable.value then false
    else if r.policy.permitted.Some? && r.policy.permitted.value != [] && category !in r.policy.permitted.value
    then false
    else if r.idempotencySafe == Some(false) || r.deadlineExpired then false
    else
      var maximum := MaximumOf(r);
      IsInteger(maximum) && maximum.value > 0.0 && IsInteger(r.attempt) && r.attempt.value < maximum.value
  }

  lemma {:induction false} FirstMatchIsFirst(order: seq<Category>, matches: set<Category>)
    ensures var c := FirstMatch(order, matches);
            (exists i :: 0 <= i < |order| && order[i] == c && c in matches
                         && forall j :: 0 <= j < i ==> order[j] !in matches)
            || (c == UnknownSafeFailure && forall j :: 0 <= j < |order| ==> order[j] !in matches)
  {
    if order != [] && order[0] !in matches {
      FirstMatchIsFirst(order[1..], matches);
      var c := FirstMatch(order[1..], matches);
      if i :| 0 <= i < |order[1..]| && order[1..][i] == c && c in matches
              && forall j :: 0 <= j < i ==> order[1..][j] !in matches {
        assert order[i + 1] == c;
        forall j | 0 <= j < i + 1
          ensures order[j] !in matches
        {
          if j > 0 { assert order[j] == order[1..][j - 1]; }
        }
      } else {
        forall j | 0 <= j < |order|
          ensures order[j] !in matches
        {
          if j > 0 { assert order[j] == order[1..][j - 1]; }
        }
      }
    }
  }

  predicate Ambiguous(f: Failure) {
    f.flaggedAmbiguous || f.ambiguousCode
  }

  /** A pattern comes before another one in the order they are tried. */
  ghost predicate Before(c: Category, d: Category) {
    exists i, j :: 0 <= i < j < |PATTERN_ORDER| && PATTERN_ORDER[i] == c && PATTERN_ORDER[j] == d
  }

  /** Of the matching patterns none comes before the chosen one. */
  lemma ChosenComesFirst(matches: set<Category>)
    requires FirstMatch(PATTERN_ORDER, matches) in matches && matches <= set c | c in PATTERN_ORDER
    ensures forall c :: c in matches && c != FirstMatch(PATTERN_ORDER, matches) ==>
              Before(FirstMatch(PATTERN_ORDER, matches), c)
  {
    hide FirstMatch, PATTERN_ORDER;
    FirstMatchIsFirst(PATTERN_ORDER, matches);
    var chosen := FirstMatch(PATTERN_ORDER, matches);
    assert chosen in PATTERN_ORDER;
    var i :| 0 <= i < |PATTERN_ORDER| && PATTERN_ORDER[i] == chosen
             && forall j :: 0 <= j < i ==> PATTERN_ORDER[j] !in matches;
    forall c | c in matches && c != chosen
      ensures Before(chosen, c)
    {
      assert c in PATTERN_ORDER;
      var k :| 0 <= k < |PATTERN_ORDER| && PATTERN_ORDER[k] == c;
      assert i < k;
    }
  }

  /**
   * A category hint overrules everything, ambiguity overrules the code, and of the matching patterns none comes
   * before the one that decides; a failure nothing says anything about is the unknown safe one.
   */
  lemma ClassificationOrder(f: Failure)
    requires f.matches <= set c | c in PATTERN_ORDER
    ensures f.hint.Some? ==> Classify(f) == f.hint.value
    ensures f.hint.None? && Ambiguous(f) ==> Classify(f) == OutcomeUnknown && NonAutomatic(Classify(f))
    ensures f.hint.None? && !Ambiguous(f) && f.matches != {} ==>
              Classify(f) in f.matches && forall c :: c in f.matches && c != Classify(f) ==> Before(Classify(f), c)
    ensures f.hint.None? && !Ambiguous(f) && f.matches == {} ==> Classify(f) == UnknownSafeFailure
  {
    hide FirstMatch, PATTERN_ORDER;
    FirstMatchIsFirst(PATTERN_ORDER, f.matches);
    if f.hint.None? && !Ambiguous(f) && f.matches != {} {
      var some :| some in f.matches;
      assert some in PATTERN_ORDER;
      ChosenComesFirst(f.matches);
    }
  }

  /** The categories that may be retried automatically are these six. */
  lemma AutomaticExactly(c: Category)
    ensures !NonAutomatic(c)
            <==> c.TransientNetwork? || c.Timeout? || c.RateLimited? || c.CircuitOpen? || c.ProviderUnavailable?
                 || c.UnknownSafeFailure?
  {
  }

  /** Without a hint, one pattern that forbids automatic retry decides, however many others match. */
  lemma AnyBarDecides(f: Failure, c: Category)
    requires f.hint.None? && c in f.matches && c in PATTERN_ORDER && NonAutomatic(c)
    ensures NonAutomatic(Classify(f))
  {
    hide FirstMatch;
    if !Ambiguous(f) {
      BarredPatterns(c);
      hide PATTERN_ORDER, NonAutomatic;
      assert PATTERN_ORDER == PATTERN_ORDER[..14] + PATTERN_ORDER[14..];
      BarredFirst(PATTERN_ORDER[..14], PATTERN_ORDER[14..], f.matches, c);
    }
  }

  /** The first fourteen patterns are those that forbid automatic retry. */
  lemma BarredPatterns(c: Category)
    requires c in PATTERN_ORDER && NonAutomatic(c)
    ensures |PATTERN_ORDER| == 19 && c in PATTERN_ORDER[..14]
    ensures forall i :: 0 <= i < 14 ==> NonAutomatic(PATTERN_ORDER[i])
  {
  }

  lemma {:induction false} BarredFirst(front: seq<Category>, rest: seq<Category>, matches: set<Category>, c: Category)
    requires c in front && c in matches && forall i :: 0 <= i < |front| ==> NonAutomatic(front[i])
    ensures NonAutomatic(FirstMatch(front + rest, matches))
  {
    if front[0] !in matches {
      assert (front + rest)[1..] == front[1..] + rest;
      BarredFirst(front[1..], rest, matches, c);
    }
  }

  /** The number is this whole one. */
  predicate Counts(n: Numeric, count: int) {
    n == Number(count as real)
  }

  /** The request allows so many attempts, or where it does not say, its policy does. */
  predicate AllowsAttempts(r: Request, count: int) {
    match r.maximumAttempts
    case Some(n) => Counts(n, count)
    case None => r.policy.maximumRecoveryAttempts.Some? && Counts(r.policy.maximumRecoveryAttempts.value, count)
  }

  /** The policy names the category as permitted, or names none; and does not name it as not recoverable. */
  predicate PolicyPermits(policy: Policy, c: Category) {
    && (match policy.nonRecoverable
        case None => true
        case Some(list) => c !in list)
    && (match policy.permitted
        case None => true
        case Some(list) => |list| > 0 ==> c in list)
  }

  ghost predicate AttemptsAreLeft(r: Request) {
    exists attempts: int, made: int ::
      AllowsAttempts(r, attempts) && Counts(r.attempt, made) && 0 < attempts && made < attempts
  }

  /**
   * A retry is allowed exactly when the category, the given one or else the one of the failure, neither is barred nor
   * excluded by the policy, the attempt is safe to repeat and in time, and whole numbers of attempts are left.
   */
  lemma EligibleExactly(r: Request)
    ensures Eligible(r)
            <==> && (match r.category
                     case Some(c) => !NonAutomatic(c) && PolicyPermits(r.policy, c)
                     case None => !NonAutomatic(Classify(r.failure)) && PolicyPermits(r.policy, Classify(r.failure)))
                 && (r.idempotencySafe.Some? ==> r.idempotencySafe.value) && !r.deadlineExpired
                 && AttemptsAreLeft(r)
  {
    hide NonAutomatic, Classify;
    AttemptsExactly(r);
  }

  lemma AttemptsExactly(r: Request)
    ensures var maximum := MaximumOf(r);
            AttemptsAreLeft(r)
            <==> IsInteger(maximum) && maximum.value > 0.0 && IsInteger(r.attempt) && r.attempt.value < maximum.value
  {
    var maximum := MaximumOf(r);
    if IsInteger(maximum) && maximum.value > 0.0 && IsInteger(r.attempt) && r.attempt.value < maximum.value {
      var attempts, made := maximum.value.Floor, r.attempt.value.Floor;
      assert AllowsAttempts(r, attempts) && Counts(r.attempt, made);
      assert made as real < attempts as real && 0.0 < attempts as real;
    }
    if AttemptsAreLeft(r) {
      var attempts: int, made: int :|
        AllowsAttempts(r, attempts) && Counts(r.attempt, made) && 0 < attempts && made < attempts;
      assert maximum == Number(attempts as real) && made as real < attempts as real;
    }
  }

  // ---------- Backoff ----------

  /** Missing numbers are None; zero counts as missing where the source falls back on falsy values. */
  datatype Backoff = Backoff(
    baseDelayMs: Option<real>,
    maxDelayMs: Option<real>,
    multiplier: Option<real>,
    jitterRatio: Option<real>)

  const MAXIMUM_BACKOFF_MS := 86400000.0

  function OrDefault(x: Option<real>, fallback: real): real {
    if x.None? || x.value == 0.0 then fallback else x.value
  }

  function Min(x: real, y: real): real { if x <= y then x else y }

  function Max(x: real, y: real): real { if x >= y then x else y }

  /** `Math.round`: to the nearest integer, halves upwards. */
  function Round(x: real): real { (x + 0.5).Floor as real }

  /** A product under a name, so that proofs can leave its arithmetic to the lemmas about it. */
  function Times(x: real, y: real): real { x * y }

  function Power(x: real, n: nat): real {
    if n == 0 then 1.0 else Times(x, Power(x, n - 1))
  }

  /** The numbers the delay is computed from. */
  datatype Settings = Settings(base: real, cap: real, multiplier: real, jitter: real)

  predicate Normal(s: Settings) {
    1.0 <= s.base <= s.cap && 1.0 <= s.multiplier <= 10.0 && 0.0 <= s.jitter <= 0.5
  }

  function Effective(b: Backoff): (s: Settings)
    ensures Normal(s)
  {
    var base := Max(1.0, OrDefault(b.baseDelayMs, 1000.0));
    Settings(base,
             Max(base, Min(MAXIMUM_BACKOFF_MS, OrDefault(b.maxDelayMs, 30000.0))),
             Max(1.0, Min(10.0, OrDefault(b.multiplier, 2.0))),
             Max(0.0, Min(0.5, if b.jitterRatio.Some? then b.jitterRatio.value else 0.2)))
  }

  function Exponent(attempt: int): nat {
    var n := if attempt == 0 then 1 else attempt;
    if n < 1 then 0 else n - 1
  }

  function Exponential(s: Settings, attempt: int): real {
    Min(s.cap, Times(s.base, Power(s.multiplier, Exponent(attempt))))
  }

  function Chance(draw: real): real { Max(0.0, Min(1.0, draw)) }

  function Jittered(e: real, jitter: real, chance: real): real { e + Times(Times(e, jitter), chance) }

  function DelayWith(s: Settings, attempt: int, draw: real): real {
    Min(s.cap, Round(Jittered(Exponential(s, attempt), s.jitter, Chance(draw))))
  }

  /** `recoveryBackoff`, where `draw` is what the random source returned. */
  function Delay(b: Backoff, attempt: int, draw: real): real {
    DelayWith(Effective(b), attempt, draw)
  }

  lemma FloorIsMonotone(x: real, y: real)
    requires x <= y
    ensures x.Floor as real <= y.Floor as real
  {
    assert x.Floor <= y.Floor;
  }

  /** To the nearest whole number, a half upwards. */
  lemma RoundExactly(x: real)
    ensures IsInteger(Number(Round(x))) && x - 0.5 < Round(x) <= x + 0.5
  {
  }

  lemma RoundIsMonotone(x: real, y: real)
    requires x <= y
    ensures Round(x) <= Round(y)
  {
    FloorIsMonotone(x + 0.5, y + 0.5);
  }

  /** Products of numbers that are not negative grow with either factor. */
  lemma TimesIsMonotone(x: real, y: real, factor: real)
    requires x <= y && factor >= 0.0
    ensures Times(x, factor) <= Times(y, factor) && Times(factor, x) <= Times(factor, y)
  {
    assert 0.0 <= (y - x) * factor;
  }

  lemma TimesConstants(x: real)
    ensures Times(x, 0.0) == Times(0.0, x) == 0.0 && Times(x, 1.0) == Times(1.0, x) == x && Times(x, 0.5) == 0.5 * x
  {
  }

  lemma {:induction false} PowerAtLeastOne(x: real, n: nat)
    requires x >= 1.0
    ensures Power(x, n) >= 1.0
  {
    hide Times;
    if n > 0 {
      PowerAtLeastOne(x, n - 1);
      TimesIsMonotone(1.0, x, Power(x, n - 1));
      TimesConstants(Power(x, n - 1));
    }
  }

  lemma {:induction false} PowerMonotone(x: real, m: nat, n: nat)
    requires x >= 1.0 && m <= n
    ensures Power(x, m) <= Power(x, n)
    decreases n
  {
    hide Times;
    if m < n {
      PowerMonotone(x, m, n - 1);
      PowerAtLeastOne(x, n - 1);
      TimesIsMonotone(1.0, x, Power(x, n - 1));
      TimesConstants(Power(x, n - 1));
    }
  }

  /** Growth without bound: a power is at least as large as the line through its first two points. */
  lemma {:induction false} Bernoulli(x: real, n: nat)
    requires x >= 1.0
    ensures Power(x, n) >= 1.0 + Times(n as real, x - 1.0)
  {
    hide Times;
    if n > 0 {
      var p, gain, k := Power(x, n - 1), x - 1.0, (n - 1) as real;
      Bernoulli(x, n - 1);
      PowerAtLeastOne(x, n - 1);
      assert n as real == k + 1.0;
      TimesSum(1.0, gain, p);
      TimesSum(k, 1.0, gain);
      TimesConstants(p);
      TimesConstants(gain);
      TimesIsMonotone(1.0, p, gain);
    } else {
      TimesConstants(x - 1.0);
    }
  }

  lemma TimesSum(x: real, y: real, factor: real)
    ensures Times(x + y, factor) == Times(x, factor) + Times(y, factor)
  {
  }

  lemma JitterBounds(e: real, jitter: real, chance: real)
    requires e >= 0.0 && 0.0 <= jitter <= 0.5 && 0.0 <= chance <= 1.0
    ensures e <= Jittered(e, jitter, chance) <= 1.5 * e
  {
    hide Times;
    var most := Times(e, jitter);
    TimesConstants(e);
    TimesIsMonotone(0.0, jitter, e);
    TimesIsMonotone(jitter, 0.5, e);
    TimesConstants(most);
    TimesIsMonotone(0.0, chance, most);
    TimesIsMonotone(chance, 1.0, most);
  }

  lemma JitterIsMonotone(e: real, f: real, jitter: real, c: real, d: real)
    requires 0.0 <= e <= f && 0.0 <= jitter && 0.0 <= c <= d
    ensures Jittered(e, jitter, c) <= Jittered(f, jitter, d)
  {
    hide Times;
    TimesConstants(e);
    TimesIsMonotone(0.0, jitter, e);
    TimesIsMonotone(e, f, jitter);
    TimesIsMonotone(c, d, Times(e, jitter));
    TimesIsMonotone(Times(e, jitter), Times(f, jitter), d);
  }

  lemma ExponentialBounds(s: Settings, attempt: int)
    requires Normal(s)
    ensures s.base <= Exponential(s, attempt) <= s.cap
  {
    hide Times;
    PowerAtLeastOne(s.multiplier, Exponent(attempt));
    TimesIsMonotone(1.0, Power(s.multiplier, Exponent(attempt)), s.base);
    TimesConstants(s.base);
  }

  lemma ExponentialIsMonotone(s: Settings, attempt: int, later: int)
    requires Normal(s) && attempt <= later
    ensures Exponential(s, attempt) <= Exponential(s, later)
  {
    hide Times;
    PowerMonotone(s.multiplier, Exponent(attempt), Exponent(later));
    TimesIsMonotone(Power(s.multiplier, Exponent(attempt)), Power(s.multiplier, Exponent(later)), s.base);
  }

  lemma ClampedRound(cap: real, x: real, y: real)
    requires x <= y
    ensures Min(cap, Round(x)) <= Min(cap, Round(y)) <= cap
  {
    RoundIsMonotone(x, y);
  }

  /** The delay lies between the rounded base delay and the cap, and within half above the exponential. */
  lemma DelayBounds(s: Settings, attempt: int, draw: real)
    requires Normal(s)
    ensures Min(s.cap, Round(s.base)) <= DelayWith(s, attempt, draw) <= s.cap
    ensures Min(s.cap, Round(Exponential(s, attempt))) <= DelayWith(s, attempt, draw)
            <= Min(s.cap, Round(1.5 * Exponential(s, attempt)))
  {
    hide Times;
    var e := Exponential(s, attempt);
    ExponentialBounds(s, attempt);
    JitterBounds(e, s.jitter, Chance(draw));
    ClampedRound(s.cap, s.base, e);
    ClampedRound(s.cap, e, Jittered(e, s.jitter, Chance(draw)));
    ClampedRound(s.cap, Jittered(e, s.jitter, Chance(draw)), 1.5 * e);
  }

  lemma LeastDraw(s: Settings, attempt: int)
    ensures DelayWith(s, attempt, 0.0) == Min(s.cap, Round(Exponential(s, attempt)))
  {
    hide Times;
    TimesConstants(Times(Exponential(s, attempt), s.jitter));
  }

  /** What is assumed where a number is missing, and how numbers out of range are bounded. */
  lemma EffectiveExactly(b: Backoff)
    ensures Effective(Backoff(None, None, None, None)) == Settings(1000.0, 30000.0, 2.0, 0.2)
    ensures b.baseDelayMs.Some? && b.baseDelayMs.value != 0.0 ==>
              Effective(b).base == if b.baseDelayMs.value < 1.0 then 1.0 else b.baseDelayMs.value
    ensures b.maxDelayMs.Some? && b.maxDelayMs.value != 0.0 ==>
              && (Effective(b).cap > Effective(b).base ==>
                    Effective(b).cap == b.maxDelayMs.value || Effective(b).cap == 86400000.0 < b.maxDelayMs.value)
              && (Effective(b).base <= b.maxDelayMs.value <= 86400000.0 ==> Effective(b).cap == b.maxDelayMs.value)
    ensures b.multiplier.Some? && b.multiplier.value != 0.0 ==>
              Effective(b).multiplier == if b.multiplier.value < 1.0 then 1.0
                                         else if b.multiplier.value > 10.0 then 10.0 else b.multiplier.value
    ensures b.jitterRatio.Some? ==>
              Effective(b).jitter == if b.jitterRatio.value < 0.0 then 0.0
                                     else if b.jitterRatio.value > 0.5 then 0.5 else b.jitterRatio.value
  {
  }

  /** The first delay is made of the base, each later one of the one before times the multiplier, up to the cap. */
  lemma ExponentialExactly(s: Settings, attempt: int)
    requires Normal(s)
    ensures attempt <= 1 ==> Exponential(s, attempt) == s.base
    ensures attempt > 1 ==> Exponential(s, attempt) == Min(s.cap, Times(s.multiplier, Exponential(s, attempt - 1)))
  {
    hide Times;
    if attempt <= 1 {
      TimesConstants(s.base);
    } else {
      var p := Power(s.multiplier, Exponent(attempt - 1));
      assert Power(s.multiplier, Exponent(attempt)) == Times(s.multiplier, p);
      TimesSwap(s.base, s.multiplier, p);
      PowerAtLeastOne(s.multiplier, Exponent(attempt - 1));
      TimesConstants(s.cap);
      TimesIsMonotone(1.0, s.multiplier, s.cap);
      if Times(s.base, p) > s.cap {
        TimesIsMonotone(s.cap, Times(s.base, p), s.multiplier);
      }
    }
  }

  lemma TimesSwap(x: real, y: real, z: real)
    ensures Times(x, Times(y, z)) == Times(y, Times(x, z))
  {
  }

  /**
   * The spread above the exponential is the jitter ratio's share of it, as far as the draw goes: nothing for a draw of
   * zero or less, all of it for one or more.
   */
  lemma JitterExactly(b: Backoff, attempt: int, draw: real)
    ensures var s := Effective(b);
            var e := Exponential(s, attempt);
            && (draw <= 0.0 ==> Delay(b, attempt, draw) == Min(s.cap, Round(e)))
            && (draw >= 1.0 ==> Delay(b, attempt, draw) == Min(s.cap, Round(e + Times(s.jitter, e))))
            && (0.0 <= draw <= 1.0 ==>
                  Delay(b, attempt, draw) == Min(s.cap, Round(e + Times(draw, Times(s.jitter, e)))))
  {
    hide Times;
    var s := Effective(b);
    var e := Exponential(s, attempt);
    var most := Times(e, s.jitter);
    TimesConstants(most);
    TimesCommute(e, s.jitter);
    TimesCommute(most, draw);
  }

  lemma TimesCommute(x: real, y: real)
    ensures Times(x, y) == Times(y, x)
  {
  }

  /** The delay is never below the base delay exactly when rounding does not take the base down. */
  lemma AtLeastBase(b: Backoff)
    ensures var base := Effective(b).base;
            (forall attempt: int, draw: real :: Delay(b, attempt, draw) >= base) <==> Round(base) >= base
  {
    hide Times;
    var s := Effective(b);
    if Round(s.base) >= s.base {
      forall attempt: int, draw: real
        ensures Delay(b, attempt, draw) >= s.base
      {
        DelayBounds(s, attempt, draw);
      }
    } else {
      LeastDraw(s, 1);
      TimesConstants(s.base);
      assert Exponential(s, 1) == s.base;
      assert Delay(b, 1, 0.0) < s.base;
    }
  }

  /** A base delay of 1.25 ms is rounded down to 1 ms. */
  lemma BelowBase()
    ensures var b := Backoff(Some(1.25), None, None, None);
            Delay(b, 1, 0.0) == 1.0 < Effective(b).base
  {
    LeastDraw(Effective(Backoff(Some(1.25), None, None, None)), 1);
  }

  /** Later attempts and larger draws never shorten the delay. */
  lemma DelayIsMonotone(b: Backoff, attempt: int, later: int, draw: real, larger: real)
    requires attempt <= later && draw <= larger
    ensures Delay(b, attempt, draw) <= Delay(b, later, larger)
  {
    hide Times;
    var s := Effective(b);
    ExponentialBounds(s, attempt);
    ExponentialIsMonotone(s, attempt, later);
    JitterIsMonotone(Exponential(s, attempt), Exponential(s, later), s.jitter, Chance(draw), Chance(larger));
    ClampedRound(s.cap, Jittered(Exponential(s, attempt), s.jitter, Chance(draw)),
                 Jittered(Exponential(s, later), s.jitter, Chance(larger)));
  }

  predicate ReachesCap(s: Settings, attempt: int) {
    Times(s.base, Power(s.multiplier, Exponent(attempt))) >= s.cap
  }

  /** Once the exponential has reached the cap, every later delay is the cap: exactly when rounding keeps the cap. */
  lemma CapIsKept(b: Backoff, attempt: int)
    requires ReachesCap(Effective(b), attempt)
    ensures var cap := Effective(b).cap;
            (forall later: int, draw: real :: later >= attempt ==> Delay(b, later, draw) == cap) <==> Round(cap) >= cap
  {
    hide Times;
    var s := Effective(b);
    assert Exponential(s, attempt) == s.cap;
    if Round(s.cap) >= s.cap {
      forall later: int, draw: real | later >= attempt
        ensures Delay(b, later, draw) == s.cap
      {
        ExponentialIsMonotone(s, attempt, later);
        ExponentialBounds(s, later);
        DelayBounds(s, later, draw);
      }
    } else {
      LeastDraw(s, attempt);
      assert Delay(b, attempt, 0.0) < s.cap;
    }
  }

  /** A cap of 1.25 ms is reached by the second attempt and rounded down to 1 ms. */
  lemma BelowCap()
    ensures var b := Backoff(Some(1.0), Some(1.25), None, None);
            ReachesCap(Effective(b), 2) && Delay(b, 2, 0.0) == 1.0 < Effective(b).cap
  {
    hide Times, Jittered;
    var s := Effective(Backoff(Some(1.0), Some(1.25), None, None));
    TimesConstants(2.0);
    assert Power(2.0, 1) == Times(2.0, Power(2.0, 0)) == 2.0;
    assert Exponential(s, 2) == 1.25;
    LeastDraw(s, 2);
  }

  /** What the validation of a recovery policy demands of its delays. */
  predicate Validated(b: Backoff) {
    && b.baseDelayMs.Some? && b.maxDelayMs.Some? && b.multiplier.Some? && b.jitterRatio.Some?
    && IsInteger(Number(b.baseDelayMs.value)) && 1.0 <= b.baseDelayMs.value <= MAXIMUM_BACKOFF_MS
    && IsInteger(Number(b.maxDelayMs.value)) && 1.0 <= b.maxDelayMs.value <= MAXIMUM_BACKOFF_MS
    && b.baseDelayMs.value <= b.maxDelayMs.value
    && 1.0 <= b.multiplier.value <= 10.0 && 0.0 <= b.jitterRatio.value <= 0.5
  }

  lemma WholeIsRounded(x: real)
    requires IsInteger(Number(x))
    ensures Round(x) == x
  {
    assert (x + 0.5).Floor == x.Floor;
  }

  /**
   * A validated policy's numbers are used as they are: every delay lies between its base and its maximum, and is
   * the maximum from the attempt on at which the exponential reaches it.
   */
  lemma ValidatedDelays(b: Backoff, attempt: int, draw: real)
    requires Validated(b)
    ensures Effective(b) == Settings(b.baseDelayMs.value, b.maxDelayMs.value, b.multiplier.value, b.jitterRatio.value)
    ensures b.baseDelayMs.value <= Delay(b, attempt, draw) <= b.maxDelayMs.value
    ensures ReachesCap(Effective(b), attempt) ==>
              forall later: int :: later >= attempt ==> Delay(b, later, draw) == b.maxDelayMs.value
  {
    hide Times, DelayWith;
    var s := Effective(b);
    WholeIsRounded(s.base);
    WholeIsRounded(s.cap);
    DelayBounds(s, attempt, draw);
    if ReachesCap(s, attempt) { CapIsKept(b, attempt); }
  }

  /** With a multiplier above one the exponential does reach the cap. */
  lemma CapIsReached(b: Backoff) returns (attempt: int)
    requires Effective(b).multiplier > 1.0
    ensures 1 <= attempt && ReachesCap(Effective(b), attempt)
  {
    var s := Effective(b);
    var n := PowerExceeds(s.multiplier, s.cap);
    attempt := n + 1;
    hide Times;
    TimesIsMonotone(1.0, s.base, Power(s.multiplier, n));
    TimesConstants(Power(s.multiplier, n));
  }

  lemma PowerExceeds(x: real, bound: real) returns (n: nat)
    requires x > 1.0 && bound >= 0.0
    ensures Power(x, n) >= bound
  {
    var steps := bound / (x - 1.0);
    assert steps * (x - 1.0) == bound;
    n := if steps <= 0.0 then 0 else steps.Floor + 1;
    assert n as real >= steps;
    TimesIsMonotone(steps, n as real, x - 1.0);
    Bernoulli(x, n);
  }

  // ---------- The retry loop ----------

  /** A failed attempt, and what the caller then finds about repeating it. */
  datatype Incident = Incident(failure: Failure, idempotencySafe: bool, deadlineExpired: bool)

  /** How each attempt ends: None when it succeeds. */
  type Outcomes = nat -> Option<Incident>

  function RetryRequest(policy: Policy, maximum: Numeric, i: Incident, attempt: nat): Request {
    Request(Some(Classify(i.failure)), i.failure, Some(i.idempotencySafe), i.deadlineExpired, Some(maximum),
            Number(attempt as real), policy)
  }

  /** Attempt i fails in a way that is retried. */
  predicate Retried(policy: Policy, maximum: Numeric, outcomes: Outcomes, i: nat) {
    outcomes(i).Some? && Eligible(RetryRequest(policy, maximum, outcomes(i).value, i))
  }

  /** The number of retries a maximum allows. */
  function Budget(maximum: Numeric): int {
    if IsInteger(maximum) then maximum.value.Floor else 0
  }

  /** What a policy and the circumstances say about repeating a failed attempt, apart from how many there were. */
  predicate MayRepeat(policy: Policy, i: Incident) {
    var category := Classify(i.failure);
    && i.idempotencySafe && !i.deadlineExpired && !NonAutomatic(category)
    && (policy.nonRecoverable.Some? ==> category !in policy.nonRecoverable.value)
    && (policy.permitted.Some? ==> policy.permitted.value == [] || category in policy.permitted.value)
  }

  /** An attempt is retried exactly when it failed in a repeatable way and the budget is not used up. */
  lemma RetriedExactly(policy: Policy, maximum: Numeric, outcomes: Outcomes, i: nat)
    ensures Retried(policy, maximum, outcomes, i)
            <==> outcomes(i).Some? && MayRepeat(policy, outcomes(i).value) && i < Budget(maximum)
  {
    if IsInteger(maximum) {
      assert i as real < Budget(maximum) as real <==> i < Budget(maximum);
      assert maximum.value > 0.0 <==> 0 < Budget(maximum);
    }
    assert IsInteger(Number(i as real));
  }

  /** No delay is shorter: the base delay as it is rounded. */
  function LeastDelay(b: Backoff): real {
    Min(Effective(b).cap, Round(Effective(b).base))
  }

  /**
   * Retry while the last failure may be retried, waiting before each retry. The loop ends after at most
   * `maximum` retries, at the first success or failure that may not be retried, and waits at most the cap each time.
   * A failure of unknown outcome is retried only on the word of a category hint.
   */
  method RetryUntilSettled(policy: Policy, maximum: Numeric, outcomes: Outcomes, draws: nat -> real)
    returns (retries: nat, waited: real)
    ensures retries > 0 ==> retries <= Budget(maximum)
    ensures Times(retries as real, LeastDelay(policy.backoff)) <= waited
            <= Times(retries as real, Effective(policy.backoff).cap)
    ensures forall i: nat :: i < retries ==> outcomes(i).Some? && MayRepeat(policy, outcomes(i).value)
    ensures outcomes(retries).None? || !MayRepeat(policy, outcomes(retries).value) || retries >= Budget(maximum)
    ensures forall i: nat :: i < retries && outcomes(i).Some? && Ambiguous(outcomes(i).value.failure) ==>
              outcomes(i).value.failure.hint.Some?
  {
    hide Times;
    var least, most := LeastDelay(policy.backoff), Effective(policy.backoff).cap;
    TimesConstants(least);
    TimesConstants(most);
    retries, waited := 0, 0.0;
    while Retried(policy, maximum, outcomes, retries)
      invariant retries > 0 ==> retries <= Budget(maximum)
      invariant Times(retries as real, least) <= waited <= Times(retries as real, most)
      invariant forall i: nat :: i < retries ==> outcomes(i).Some? && MayRepeat(policy, outcomes(i).value)
      decreases Budget(maximum) - retries
    {
      RetriedExactly(policy, maximum, outcomes, retries);
      DelayBounds(Effective(policy.backoff), retries + 1, draws(retries));
      TimesSum(retries as real, 1.0, least);
      TimesSum(retries as real, 1.0, most);
      waited := waited + Delay(policy.backoff, retries + 1, draws(retries));
      retries := retries + 1;
    }
    RetriedExactly(policy, maximum, outcomes, retries);
  }
}
