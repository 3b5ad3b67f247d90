# TOTP seed utilities, modelled in Dafny

This project models the pure part of `src/crypto_utils.py`, the cryptographic helper
module of a small two-factor-authentication service. The service receives a 64-character
hex seed encrypted with RSA-OAEP. It decrypts and checks that seed, turns it into the
base32 secret a TOTP generator expects, and generates and verifies six-digit codes on a
30-second step.

The model has these modules:

- `Config` (`config.dfy`) holds the constants of `src/config.py`: RSA key size 4096,
  public exponent 65537, TOTP period 30 s, 6 digits, window 1, and the 64-character seed
  length that `decrypt_seed` checks.
- `Bits` (`bits.dfy`) covers bytes and big-endian bit strings. Base16 and base32 share it.
- `Base16` (`base16.dfy`) is Python's `bytes.fromhex`, read as RFC 4648 section 8:
  - digits of either case, two per byte;
  - ASCII whitespace is skipped before each pair;
  - anything else is an error (`None`).

  It also holds the lower-case hex encoding that serves as its inverse.
- `Base32` (`base32.dfy`) is `base64.b32encode` (RFC 4648 section 6), seen as one bit
  stream:
  - zero bits complete the last five-bit group;
  - `=` pads the text to a multiple of eight characters.

  It also holds an RFC 4648 base32 decoder, which is the encoder's round-trip partner.
- `Totp` (`totp.dfy`) covers the RFC 6238 behaviour the TOTP library provides:
  - the time step `floor(t / 30)`;
  - the code of the current step;
  - verification that accepts the codes of the steps `T - w .. T + w`, and raises when a
    positive window reaches below step 0.

  The code for one counter value (HMAC-SHA1 with the dynamic truncation of RFC 4226) is
  computed inside the library. The model takes it as a function parameter, `CodeGenerator`.
- `CryptoUtils` (`crypto_utils.dfy`) holds the module's own routines:
  - `decrypt_seed`, whose base64, OAEP and UTF-8 steps are function parameters that may
    fail, followed by its length and hex checks;
  - `hex_to_base32`;
  - `generate_totp_code`, `verify_totp_code` and `get_totp_remaining_seconds`, with the
    clock as the parameter `now`.

Python exceptions are modelled as the `None` of an `Option` or the `Err` of a `Result`.

The docstring of `get_totp_remaining_seconds` promises a value from 0 to 29. The code
computes `30 - now % 30`, which ranges over 1 to 30. The model follows the code, and
`CryptoUtils.GetTotpRemainingSeconds` proves the 1 to 30 bound.

## Model

| member | source | states |
|---|---|---|
| CryptoUtils.ValidateSeed | src/crypto_utils.py:104-111 | The seed is accepted iff it has exactly 64 characters and all of them are hex digits of either case. An accepted seed is returned unchanged, not lower-cased. A wrong length is reported as `InvalidSeedLength(len)` even when non-hex characters are present, because the length check comes first. A 64-character string with a non-hex character is reported as `NonHexSeed`. |
| CryptoUtils.LowerHexDigit | src/crypto_utils.py:108 | A character lower-cases into `0123456789abcdef` iff it is a hex digit of either case. |
| CryptoUtils.DecryptSeed | src/crypto_utils.py:74-111 | The stages fail in order: base64 decoding gives `InvalidBase64`, OAEP decryption gives `DecryptionFailed`, UTF-8 decoding gives `InvalidUtf8`. A decoded text then gets exactly the seed checks: the result is `ValidateSeed` of that text, with its length error and its non-hex error. Anything returned is a seed. |
| CryptoUtils.DecryptedSeedIsUsable | src/crypto_utils.py:105-128 | A seed that `decrypt_seed` returns always hex-decodes, gives a 56-character secret, and yields codes. |
| CryptoUtils.HexToBase32 | src/crypto_utils.py:114-130 | A secret is produced iff `bytes.fromhex` accepts the seed. Base32-decoding the secret gives back exactly the bytes the seed hex-decodes to. |
| CryptoUtils.HexToBase32Length | src/crypto_utils.py:125-128 | For `n` decoded bytes the secret is `8 * ceil(n / 5)` characters long. |
| CryptoUtils.HexToBase32OfSeed | src/crypto_utils.py:125-128 | A valid seed gives 56 characters: 52 symbols from `A-Z2-7`, then `====`. Decoding them gives 32 bytes, whose hex encoding is the seed lower-cased. |
| CryptoUtils.HexToBase32IgnoresCase | src/crypto_utils.py:125 | Seeds that agree once lower-cased give the same secret, or fail alike. |
| CryptoUtils.NewTotp | src/crypto_utils.py:147 | Generation and verification build the same generator: the seed's base32 secret with 6 digits. |
| CryptoUtils.GenerateTotpCode | src/crypto_utils.py:133-152 | A code exists iff the seed hex-decodes. It is the code of step `TimeCode(now)`, that is `now / 30`, for a generator built from the seed's secret with 6 digits. |
| CryptoUtils.GetTotpRemainingSeconds | src/crypto_utils.py:155-165 | The result lies in 1..30, and `now + r` is a multiple of 30, the start of the next step. |
| CryptoUtils.RemainingSecondsUntilNextStep | src/crypto_utils.py:155-165 | The generated code stays the same for the remaining seconds. The step advances by one exactly when they are over. |
| CryptoUtils.VerifyTotpCode | src/crypto_utils.py:168-189 | There is no verdict (the call raises) iff the seed does not hex-decode, or the window is positive and reaches back before step 0, where the library raises on the negative counter it tries first. Otherwise the code is accepted iff it is the code of some step at most `validWindow` steps from `now / 30`. |
| CryptoUtils.VerifyZeroWindowIsGenerate | src/crypto_utils.py:144-187 | With a window of 0, a code verifies at `now` exactly when it equals the code generation gives at `now`, so both routines build the same generator. |
| CryptoUtils.GenerateThenVerify | src/crypto_utils.py:144-187 | The code generated at `now` verifies at `now` under every window `0 <= w <= now / 30`; larger windows raise. |
| CryptoUtils.VerifyRaisesInFirstStep | src/crypto_utils.py:168-187 | With the default window, verification raises during the first 30 seconds after the epoch. |
| CryptoUtils.VerifyWindowMonotone | src/crypto_utils.py:168-187 | A code accepted under window `w1` is accepted under any window `w2 >= w1` that does not reach back before step 0. |
| CryptoUtils.DefaultWindowSteps | src/crypto_utils.py:168-187 | With the default window of 1, verification raises during step 0. After that a code is accepted iff it is the code of the previous, current or next step. |
| Totp.TimeCode | src/crypto_utils.py:147-150 | The step at time `t` is the whole number of 30-second periods elapsed: `30 * step <= t < 30 * (step + 1)`. |
| Totp.Now | src/crypto_utils.py:150 | The current code is the same at every instant of the current step. |
| Totp.AnyStepMatches | src/crypto_utils.py:187 | The scan over `lo..hi` raises iff the range is not empty and starts below 0. Otherwise it succeeds iff some step in that range has the code. |
| Totp.Verify | src/crypto_utils.py:187 | Verification raises iff the window is positive and larger than the current step. Otherwise it accepts exactly the codes of steps within `window` of the current step. |
| Totp.VerifyAcceptsNow | src/crypto_utils.py:147-150 | The current code is accepted under every window `0 <= w <= T`. |
| Totp.VerifyNegativeWindow | src/crypto_utils.py:187 | A negative window rejects every code without raising, because its step range is empty. |
| Totp.VerifyWindowZero | src/crypto_utils.py:187 | A window of 0 accepts exactly the current code. |
| Totp.VerifyWindowMonotone | src/crypto_utils.py:187 | Widening the window never rejects a code that a narrower window accepts, as long as the wider window does not reach back before step 0. |
| Totp.VerifyWindowOne | src/crypto_utils.py:187 | Window 1 raises at step 0. Later it accepts exactly the codes of steps `T - 1`, `T` and `T + 1`. |
| Base16.FromHexAccepts | src/crypto_utils.py:125 | `bytes.fromhex` (`FromHex`) rejects any character that is neither a hex digit nor ASCII whitespace. It also rejects an odd number of digits: each byte it gives takes two digits. |
| Base16.LowerStringShape | src/crypto_utils.py:108 | `str.lower` (`LowerString`) keeps the length, changes only upper-case letters, and leaves none. |
| Base16.ToHex | src/crypto_utils.py:125 | The encoding has two lower-case hex digits per byte. |
| Base16.FromHexToHex | src/crypto_utils.py:125 | `bytes.fromhex` gives back the bytes of their lower-case hex encoding. |
| Base16.ToHexFromHex | src/crypto_utils.py:125 | A plain hex string decodes to half as many bytes. Re-encoding those bytes gives the string lower-cased. |
| Base16.FromHexIgnoresCase | src/crypto_utils.py:125 | Strings that agree once lower-cased decode to the same bytes, or both fail. |
| Base16.HexDigit | src/crypto_utils.py:125 | Every nibble has a lower-case digit that reads back as that nibble. |
| Base32.Encode | src/crypto_utils.py:128 | `base64.b32encode` produces only alphabet symbols and `=`. |
| Base32.SymbolValue | src/crypto_utils.py:128 | Each base32 symbol stands for a five-bit value whose symbol it is. |
| Base32.Symbols | src/crypto_utils.py:128 | One base32 symbol is produced per five bits. |
| Base32.PadCountShape | src/crypto_utils.py:128 | For `n` bytes the symbols and the padding together fill `ceil(n / 5)` eight-character quanta. The padding is 0, 1, 3, 4 or 6 characters, and it is 0 iff `n` is a multiple of 5. The fill bits complete exactly the last five-bit group. |
| Base32.EncodeShape | src/crypto_utils.py:128 | The encoding is `8 * ceil(n / 5)` characters: alphabet symbols first, then only `=`. |
| Base32.EncodeThirtyTwo | src/crypto_utils.py:128 | Thirty-two bytes encode to 52 symbols followed by `====`. |
| Base32.DecodeEncode | src/crypto_utils.py:128 | Decoding the encoding of any byte string gives that byte string back. |
| Base32.TrailingPads | src/crypto_utils.py:128 | The count is of the `=` that end the text, and no more. |
| Bits.BitsBytesOfBytesBits | src/crypto_utils.py:125-128 | Reading a byte string's bits back as octets gives the byte string. |
| Bits.BitsNatOfNatBits | src/crypto_utils.py:125-128 | A number below `2^w`, written in `w` bits and read back, is unchanged. |
| Bits.NatBitsOfBitsNat | src/crypto_utils.py:125-128 | A bit string read as a number and written back in as many bits is unchanged. |

## Left out

- RSA key generation, and PEM saving and loading (`generate_rsa_keypair`, `save_*_key`,
  `load_*_key`): these are library calls and file I/O.
- RSA-OAEP decryption in `decrypt_seed` is the parameter `oaepDecrypt`; no RSA arithmetic
  is modelled.
- `sign_message` (RSA-PSS) and `encrypt_with_public_key` (RSA-OAEP) are not modelled.
  Each is a single opaque library call with randomised padding and no logic of the
  module's own.
- `base64.b64decode` and UTF-8 decoding in `decrypt_seed` are the parameters
  `base64Decode` and `utf8Decode`. Their own rules for what they reject are not modelled.
- HMAC-SHA1 and the RFC 4226 truncation behind a TOTP code live inside the TOTP library.
  The parameter `CodeGenerator` stands for them, so no property depends on code values.
  It is defined on counters of 0 and above only. The library raises a `ValueError` on a
  negative counter, and the model returns `None` where verification would reach one.
- The library compares codes with a constant-time comparison after Unicode
  normalisation. The model uses plain string equality.
- Clock reads (`time.time()`, `totp.now()`) become the parameter `now`. TOTP times are
  natural numbers, so times before 1970 are not modelled.
- The step length is fixed to the configured 30 seconds, the only period the module
  passes to the library. Other intervals are not modelled.
- `str.lower` is modelled on ASCII letters only. No other Unicode character lower-cases
  to one of `0-9a-f`, so the seed check and hex decoding decide the same way.
- `Base32.Decode` is not code of the module. It is the RFC 4648 decoder that serves as
  the encoder's round-trip partner. It accepts upper-case symbols only and ignores the
  unused trailing bits.
- Text is a sequence of characters. The UTF-8 decoding of the ASCII output of
  `b32encode` is the identity and is not modelled.
- `src/app.py`, the scripts under `scripts/`, and the environment-variable reads of
  `src/config.py` are HTTP transport, command-line tooling and I/O, so they are not
  modelled.
