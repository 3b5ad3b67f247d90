/**
 * Time-based one-time passwords (RFC 6238) as the TOTP library used by the service
 * provides them. The code for one counter value (HMAC-SHA1 and the dynamic truncation of
 * section 5.3 of RFC 4226) is computed inside the library and is a parameter here; the
 * library refuses a negative counter, so the parameter is only defined on natural numbers.
 */
module Totp {
  import opened Wrappers
  import Config

  /**
   * A TOTP generator: a base32 secret and the code width. Its step length is the
   * configured `Config.TotpPeriod`, the only one the service uses.
   */
  datatype Totp = Totp(secret: string, digits: nat)

  /** The code of a generator for one (non-negative) counter value. */
  type CodeGenerator = (Totp, nat) -> string

  /** The counter value at Unix time `t` (section 4.2 of RFC 6238): whole steps elapsed. */
  function TimeCode(t: nat): (step: nat)
    ensures Config.TotpPeriod * step <= t < Config.TotpPeriod * (step + 1)
  {
    t / Config.TotpPeriod
  }

  /** The code current at time `t`: every instant of the same step has the same code. */
  function Now(gen: CodeGenerator, totp: Totp, t: nat): (code: string)
    ensures forall u: nat :: Config.TotpPeriod * TimeCode(t) <= u < Config.TotpPeriod * (TimeCode(t) + 1)
                             ==> gen(totp, TimeCode(u)) == code
  {
    gen(totp, TimeCode(t))
  }

  predicate MatchesAt(gen: CodeGenerator, totp: Totp, code: string, step: nat)
  {
    gen(totp, step) == code
  }

  /** `code` is the code of a counter value at most `window` steps away from `step`. */
  predicate InWindow(gen: CodeGenerator, totp: Totp, code: string, step: int, window: int)
  {
    exists s: nat :: step - window <= s <= step + window && MatchesAt(gen, totp, code, s)
  }

  /**
   * Whether `code` is the code of some counter value in `lo..hi`, tried in increasing
   * order. The first counter tried that is negative makes the library raise (`None`).
   */
  function AnyStepMatches(gen: CodeGenerator, totp: Totp, code: string, lo: int, hi: int): (r: Option<bool>)
    decreases hi - lo
    ensures r.None? <==> lo <= hi && lo < 0
    ensures r.Some? ==> (r.value <==> exists step: nat :: lo <= step <= hi && MatchesAt(gen, totp, code, step))
  {
    if lo > hi then Some(false)
    else if lo < 0 then None
    else if MatchesAt(gen, totp, code, lo) then Some(true)
    else AnyStepMatches(gen, totp, code, lo + 1, hi)
  }

  /**
   * Verification with a tolerance window (section 5.2 of RFC 6238): the codes of the
   * `window` steps before and after the current one are accepted too. The scan starts at
   * the oldest step, so a window reaching back before the first step raises.
   */
  function Verify(gen: CodeGenerator, totp: Totp, code: string, t: nat, window: int): (r: Option<bool>)
    ensures r.None? <==> 0 < window && TimeCode(t) < window
    ensures r.Some? ==> (r.value <==> InWindow(gen, totp, code, TimeCode(t), window))
  {
    var current := TimeCode(t);
    AnyStepMatches(gen, totp, code, current - window, current + window)
  }

  /** Widening the window never rejects a code that a narrower one accepts, unless it raises. */
  lemma VerifyWindowMonotone(gen: CodeGenerator, totp: Totp, code: string, t: nat, w1: int, w2: int)
    requires w1 <= w2
    ensures Verify(gen, totp, code, t, w1) == Some(true) && w2 <= TimeCode(t)
            ==> Verify(gen, totp, code, t, w2) == Some(true)
  {
  }

  /** The current code is accepted under every window that neither is negative nor raises. */
  lemma VerifyAcceptsNow(gen: CodeGenerator, totp: Totp, t: nat, window: int)
    requires 0 <= window <= TimeCode(t)
    ensures Verify(gen, totp, Now(gen, totp, t), t, window) == Some(true)
  {
    assert MatchesAt(gen, totp, Now(gen, totp, t), TimeCode(t));
  }

  /** A negative window accepts nothing: its range of steps is empty. */
  lemma VerifyNegativeWindow(gen: CodeGenerator, totp: Totp, code: string, t: nat, window: int)
    requires window < 0
    ensures Verify(gen, totp, code, t, window) == Some(false)
  {
  }

  /** A window of zero accepts exactly the current code. */
  lemma {:induction false} VerifyWindowZero(gen: CodeGenerator, totp: Totp, code: string, t: nat)
    ensures Verify(gen, totp, code, t, 0) == Some(code == Now(gen, totp, t))
  {
    var step := TimeCode(t);
    assert AnyStepMatches(gen, totp, code, step + 1, step) == Some(false);
  }

  /**
   * A window of one raises during the first step, and afterwards accepts exactly the
   * codes of the previous, the current and the next step.
   */
  lemma {:induction false} VerifyWindowOne(gen: CodeGenerator, totp: Totp, code: string, t: nat)
    ensures var step := TimeCode(t);
      (step == 0 ==> Verify(gen, totp, code, t, 1) == None)
      && (step >= 1 ==> Verify(gen, totp, code, t, 1)
                        == Some(gen(totp, step - 1) == code || gen(totp, step) == code || gen(totp, step + 1) == code))
  {
    var step := TimeCode(t);
    if step >= 1 {
      assert AnyStepMatches(gen, totp, code, step + 2, step + 1) == Some(false);
      var last := AnyStepMatches(gen, totp, code, step + 1, step + 1);
      assert last == Some(gen(totp, step + 1) == code);
      var two := AnyStepMatches(gen, totp, code, step, step + 1);
      assert two == Some(gen(totp, step) == code || gen(totp, step + 1) == code);
    }
  }
}
