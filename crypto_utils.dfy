/**
 * The seed and TOTP routines of the service (src/crypto_utils.py): checking a decrypted
 * seed, turning the hex seed into the base32 secret of the TOTP generator, and generating
 * and verifying codes at a given Unix time.
 *
 * The library calls around them are parameters: base64 decoding, RSA-OAEP decryption with
 * SHA-256 and UTF-8 decoding in `SeedPrimitives`, the per-counter code in
 * `Totp.CodeGenerator`. The clock is the parameter `now`.
 */
module CryptoUtils {
  import opened Wrappers
  import opened Bits
  import Config
  import Base16
  import Base32
  import Totp

  /** Why `decrypt_seed` fails. */
  datatype SeedError =
    | InvalidBase64              // base64 decoding of the ciphertext failed
    | DecryptionFailed           // RSA-OAEP decryption failed (wrong key, bad padding, corrupt data)
    | InvalidUtf8                // the plaintext is not UTF-8
    | InvalidSeedLength(length: nat)
    | NonHexSeed

  /** The library operations `decrypt_seed` chains; `None` means the call raised. */
  datatype SeedPrimitives<-Key> = SeedPrimitives(
    base64Decode: string -> Option<seq<byte>>,
    oaepDecrypt: (Key, seq<byte>) -> Option<seq<byte>>,
    utf8Decode: seq<byte> -> Option<string>)

  /** A seed: 64 hex digits, of either case. */
  predicate IsSeed(s: string)
  {
    |s| == Config.SeedHexLength && forall i :: 0 <= i < |s| ==> Base16.IsHexDigit(s[i])
  }

  predicate IsLowerHexDigit(c: char)
  {
    c in "0123456789abcdef"
  }

  lemma LowerHexDigit(c: char)
    ensures IsLowerHexDigit(Base16.Lower(c)) <==> Base16.IsHexDigit(c)
  {
    var d := Base16.Lower(c);
    if '0' <= d <= '9' || 'a' <= d <= 'f' {
      var i := if d <= '9' then d as int - '0' as int else d as int - 'a' as int + 10;
      assert "0123456789abcdef"[i] == d;
    }
  }

  /**
   * The checks that end `decrypt_seed`: the length first, then every character, once
   * lower-cased, must be a hex digit. An accepted seed comes back exactly as it was given.
   */
  function ValidateSeed(hexSeed: string): (r: Result<string, SeedError>)
    ensures r.Ok? <==> IsSeed(hexSeed)
    ensures r.Ok? ==> r.value == hexSeed
    ensures |hexSeed| != Config.SeedHexLength ==> r == Err(InvalidSeedLength(|hexSeed|))
    ensures |hexSeed| == Config.SeedHexLength && !IsSeed(hexSeed) ==> r == Err(NonHexSeed)
  {
    if |hexSeed| != Config.SeedHexLength then Err(InvalidSeedLength(|hexSeed|))
    else
      var lowered := Base16.LowerString(hexSeed);
      if !(forall i :: 0 <= i < |lowered| ==> IsLowerHexDigit(lowered[i])) then
        assert !IsSeed(hexSeed) by {
          var i :| 0 <= i < |lowered| && !IsLowerHexDigit(lowered[i]);
          LowerHexDigit(hexSeed[i]);
        }
        Err(NonHexSeed)
      else
        assert IsSeed(hexSeed) by {
          forall i | 0 <= i < |hexSeed| ensures Base16.IsHexDigit(hexSeed[i]) {
            assert IsLowerHexDigit(lowered[i]);
            LowerHexDigit(hexSeed[i]);
          }
        }
        Ok(hexSeed)
  }

  /**
   * `decrypt_seed`: base64-decode the ciphertext, decrypt it with the private key,
   * decode the plaintext as UTF-8 and check that it is a seed.
   */
  function DecryptSeed<Key>(prims: SeedPrimitives<Key>, encryptedSeedB64: string, privateKey: Key)
    : (r: Result<string, SeedError>)
    ensures r.Ok? ==> IsSeed(r.value)
    ensures var ciphertext := prims.base64Decode(encryptedSeedB64);
      ciphertext.None? ==> r == Err(InvalidBase64)
    ensures var ciphertext := prims.base64Decode(encryptedSeedB64);
      ciphertext.Some? && prims.oaepDecrypt(privateKey, ciphertext.value).None? ==> r == Err(DecryptionFailed)
    ensures var ciphertext := prims.base64Decode(encryptedSeedB64);
      ciphertext.Some? && prims.oaepDecrypt(privateKey, ciphertext.value).Some?
      ==> var text := prims.utf8Decode(prims.oaepDecrypt(privateKey, ciphertext.value).value);
          (text.None? ==> r == Err(InvalidUtf8)) && (text.Some? ==> r == ValidateSeed(text.value))
  {
    match prims.base64Decode(encryptedSeedB64)
    case None => Err(InvalidBase64)
    case Some(ciphertext) =>
      match prims.oaepDecrypt(privateKey, ciphertext)
      case None => Err(DecryptionFailed)
      case Some(plaintext) =>
        match prims.utf8Decode(plaintext)
        case None => Err(InvalidUtf8)
        case Some(hexSeed) => ValidateSeed(hexSeed)
  }

  /**
   * `hex_to_base32`: hex-decode the seed and base32-encode the bytes. `None` when the
   * hex decoding raises.
   */
  function HexToBase32(hexSeed: string): (r: Option<string>)
    ensures r.Some? <==> Base16.FromHex(hexSeed).Some?
    ensures r.Some? ==> Base32.Decode(r.value) == Base16.FromHex(hexSeed)
  {
    match Base16.FromHex(hexSeed)
    case None => None
    case Some(seedBytes) =>
      Base32.DecodeEncode(seedBytes);
      Some(Base32.Encode(seedBytes))
  }

  /** For `n` decoded bytes the secret is `8 * ceil(n / 5)` characters, padding included. */
  lemma HexToBase32Length(hexSeed: string)
    requires Base16.FromHex(hexSeed).Some?
    ensures |HexToBase32(hexSeed).value| == 8 * ((|Base16.FromHex(hexSeed).value| + 4) / 5)
  {
    Base32.EncodeShape(Base16.FromHex(hexSeed).value);
  }

  /**
   * A seed becomes a 56-character secret: 52 base32 symbols, then `====`. Decoding the
   * secret gives the seed's 32 bytes, whose hex encoding is the seed lower-cased.
   */
  lemma HexToBase32OfSeed(hexSeed: string)
    requires IsSeed(hexSeed)
    ensures HexToBase32(hexSeed).Some?
    ensures var secret := HexToBase32(hexSeed).value;
      |secret| == 56
      && (forall i :: 0 <= i < 52 ==> Base32.InAlphabet(secret[i]))
      && secret[52..] == "===="
      && Base32.Decode(secret).Some?
      && |Base32.Decode(secret).value| == 32
      && Base16.ToHex(Base32.Decode(secret).value) == Base16.LowerString(hexSeed)
  {
    assert Base16.IsHexString(hexSeed);
    Base16.ToHexFromHex(hexSeed);
    var seedBytes := Base16.FromHex(hexSeed).value;
    Base32.EncodeThirtyTwo(seedBytes);
  }

  /** Upper-case, lower-case and mixed-case spellings of a seed give the same secret. */
  lemma HexToBase32IgnoresCase(hexSeed: string, other: string)
    requires Base16.LowerString(hexSeed) == Base16.LowerString(other)
    ensures HexToBase32(hexSeed) == HexToBase32(other)
  {
    Base16.FromHexIgnoresCase(hexSeed, other);
  }

  /** The TOTP generator both `generate_totp_code` and `verify_totp_code` build: six digits. */
  function NewTotp(base32Seed: string): (totp: Totp.Totp)
    ensures totp.secret == base32Seed && totp.digits == 6
  {
    Totp.Totp(base32Seed, Config.TotpDigits)
  }

  /** `generate_totp_code` at Unix time `now`: the code of step `now / 30` of the seed's secret. */
  function GenerateTotpCode(gen: Totp.CodeGenerator, hexSeed: string, now: nat): (r: Option<string>)
    ensures r.Some? <==> Base16.FromHex(hexSeed).Some?
    ensures r.Some? ==> r.value == gen(NewTotp(HexToBase32(hexSeed).value), Totp.TimeCode(now))
  {
    match HexToBase32(hexSeed)
    case None => None
    case Some(base32Seed) => Some(Totp.Now(gen, NewTotp(base32Seed), now))
  }

  /** `get_totp_remaining_seconds` at Unix time `now`: the seconds until the next step starts. */
  function GetTotpRemainingSeconds(now: int): (r: int)
    ensures 1 <= r <= Config.TotpPeriod
    ensures (now + r) % Config.TotpPeriod == 0
  {
    Config.TotpPeriod - now % Config.TotpPeriod
  }

  /**
   * `verify_totp_code` at Unix time `now`: whether `code` is the code of a step at most
   * `validWindow` steps from the current one. `None` when the hex decoding raises, or when
   * the window reaches back before the first step and the library raises on the negative
   * counter it tries first.
   */
  function VerifyTotpCode(gen: Totp.CodeGenerator, hexSeed: string, code: string, now: nat,
                          validWindow: int := Config.TotpValidWindow): (r: Option<bool>)
    ensures r.None? <==> Base16.FromHex(hexSeed).None? || (0 < validWindow && Totp.TimeCode(now) < validWindow)
    ensures r.Some? ==>
      (r.value <==> Totp.InWindow(gen, NewTotp(HexToBase32(hexSeed).value), code, Totp.TimeCode(now), validWindow))
  {
    match HexToBase32(hexSeed)
    case None => None
    case Some(base32Seed) => Totp.Verify(gen, NewTotp(base32Seed), code, now, validWindow)
  }

  /**
   * A code generated at `now` verifies at `now` under every window that is not negative
   * and does not reach back before the first step.
   */
  lemma GenerateThenVerify(gen: Totp.CodeGenerator, hexSeed: string, now: nat, validWindow: int)
    requires 0 <= validWindow <= Totp.TimeCode(now) && Base16.FromHex(hexSeed).Some?
    ensures VerifyTotpCode(gen, hexSeed, GenerateTotpCode(gen, hexSeed, now).value, now, validWindow) == Some(true)
  {
    var totp := NewTotp(HexToBase32(hexSeed).value);
    Totp.VerifyAcceptsNow(gen, totp, now, validWindow);
  }

  /**
   * Generation and verification build the same generator: with a window of zero a code
   * verifies exactly when it is the code generation gives at the same instant.
   */
  lemma VerifyZeroWindowIsGenerate(gen: Totp.CodeGenerator, hexSeed: string, code: string, now: nat)
    requires Base16.FromHex(hexSeed).Some?
    ensures VerifyTotpCode(gen, hexSeed, code, now, 0) == Some(code == GenerateTotpCode(gen, hexSeed, now).value)
  {
    VerifyTotpCodeBuildsTotp(gen, hexSeed, code, now, 0);
    Totp.VerifyWindowZero(gen, NewTotp(HexToBase32(hexSeed).value), code, now);
  }

  /** With the default window, verification during the first thirty seconds raises. */
  lemma VerifyRaisesInFirstStep(gen: Totp.CodeGenerator, hexSeed: string, code: string, now: nat)
    requires now < Config.TotpPeriod
    ensures VerifyTotpCode(gen, hexSeed, code, now) == None
  {
    assert Totp.TimeCode(now) == 0;
  }

  /** Widening the window never turns an accepted code into a rejected one, unless it raises. */
  lemma VerifyWindowMonotone(gen: Totp.CodeGenerator, hexSeed: string, code: string, now: nat, w1: int, w2: int)
    requires w1 <= w2
    ensures VerifyTotpCode(gen, hexSeed, code, now, w1) == Some(true) && w2 <= Totp.TimeCode(now)
            ==> VerifyTotpCode(gen, hexSeed, code, now, w2) == Some(true)
  {
    if HexToBase32(hexSeed).Some? {
      Totp.VerifyWindowMonotone(gen, NewTotp(HexToBase32(hexSeed).value), code, now, w1, w2);
    }
  }

  /** `verify_totp_code` runs the library's verification on the generator built from the seed. */
  lemma VerifyTotpCodeBuildsTotp(gen: Totp.CodeGenerator, hexSeed: string, code: string, now: nat, validWindow: int)
    requires Base16.FromHex(hexSeed).Some?
    ensures VerifyTotpCode(gen, hexSeed, code, now, validWindow)
            == Totp.Verify(gen, NewTotp(HexToBase32(hexSeed).value), code, now, validWindow)
  {
  }

  /**
   * With the default window, verification raises during the first step; afterwards a code
   * is accepted iff it is the code of the previous, current or next step.
   */
  lemma DefaultWindowSteps(gen: Totp.CodeGenerator, hexSeed: string, code: string, now: nat)
    requires Base16.FromHex(hexSeed).Some?
    ensures var totp := NewTotp(HexToBase32(hexSeed).value);
      var step := Totp.TimeCode(now);
      (step == 0 ==> VerifyTotpCode(gen, hexSeed, code, now) == None)
      && (step >= 1 ==> VerifyTotpCode(gen, hexSeed, code, now)
                        == Some(gen(totp, step - 1) == code || gen(totp, step) == code || gen(totp, step + 1) == code))
  {
    VerifyTotpCodeBuildsTotp(gen, hexSeed, code, now, Config.TotpValidWindow);
    Totp.VerifyWindowOne(gen, NewTotp(HexToBase32(hexSeed).value), code, now);
  }

  /**
   * The code generated at `now` stays the same for the `GetTotpRemainingSeconds(now)`
   * seconds that follow, and the step advances exactly when they are over.
   */
  lemma RemainingSecondsUntilNextStep(gen: Totp.CodeGenerator, hexSeed: string, now: nat, elapsed: nat)
    ensures elapsed < GetTotpRemainingSeconds(now) ==>
      GenerateTotpCode(gen, hexSeed, now + elapsed) == GenerateTotpCode(gen, hexSeed, now)
    ensures Totp.TimeCode(now + GetTotpRemainingSeconds(now)) == Totp.TimeCode(now) + 1
  {
    var q, m := now / Config.TotpPeriod, now % Config.TotpPeriod;
    assert now == 30 * q + m;
    if elapsed < GetTotpRemainingSeconds(now) {
      assert Totp.TimeCode(now + elapsed) == q;
    }
    assert Totp.TimeCode(now + GetTotpRemainingSeconds(now)) == q + 1;
  }

  /** A seed accepted by `decrypt_seed` can always be turned into codes. */
  lemma DecryptedSeedIsUsable<Key>(prims: SeedPrimitives<Key>, encryptedSeedB64: string, privateKey: Key,
                                   gen: Totp.CodeGenerator, now: nat)
    requires DecryptSeed(prims, encryptedSeedB64, privateKey).Ok?
    ensures var hexSeed := DecryptSeed(prims, encryptedSeedB64, privateKey).value;
      GenerateTotpCode(gen, hexSeed, now).Some? && |HexToBase32(hexSeed).value| == 56
  {
    HexToBase32OfSeed(DecryptSeed(prims, encryptedSeedB64, privateKey).value);
  }
}
