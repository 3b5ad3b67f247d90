/** The algorithm parameters of the service (src/config.py). */
module Config {

  /** RSA modulus size in bits used for every key pair. */
  const RsaKeySize: nat := 4096

  /** Public exponent of every RSA key pair. */
  const RsaPublicExponent: nat := 65537

  /** Length of one TOTP time step, in seconds. */
  const TotpPeriod: nat := 30

  /** Number of decimal digits in a TOTP code. */
  const TotpDigits: nat := 6

  /** Default number of steps before and after the current one that verification accepts. */
  const TotpValidWindow: int := 1

  /** Length of a hex-encoded seed: 32 bytes, two hex digits each. */
  const SeedHexLength: nat := 64
}
