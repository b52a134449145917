/** Application settings that the core reads. */
module AppConfig {
  import opened Strings

  /** Settings read from the environment: `MAX_ZIP_SIZE_MB` and `OPENAI_API_KEY`. */
  datatype Config = Config(maxZipSizeMb: int, openaiApiKey: string)

  /** The settings when neither variable is set. */
  const Defaults := Config(50, "")

  /** `MAX_ZIP_SIZE_BYTES`: the limit in mebibytes scaled to bytes. */
  function MaxZipSizeBytes(c: Config): (r: int)
    ensures r % 0x10_0000 == 0 && r / 0x10_0000 == c.maxZipSizeMb
  {
    c.maxZipSizeMb * 1024 * 1024
  }

  /** The file extensions accepted as resumes. */
  const AllowedResumeExtensions: set<string> := {".pdf", ".docx"}

  /** LLM extraction is enabled when the API key is not blank. */
  predicate LlmEnabled(c: Config) { Strip(c.openaiApiKey) != "" }

  lemma DefaultsDisableLlm()
    ensures !LlmEnabled(Defaults) && MaxZipSizeBytes(Defaults) == 52_428_800
  {
    BlankIsAllSpace("");
  }

  /** The decimal digit for `d`. */
  function DigitChar(d: nat): (c: char)
    requires d < 10
    ensures IsDigit(c) && c as int - '0' as int == d
  {
    ('0' as int + d) as char
  }

  /** `str(n)` for a natural number. */
  function Decimal(n: nat): (r: string)
    ensures r != [] && forall i | 0 <= i < |r| :: IsDigit(r[i])
    ensures r[0] == '0' ==> n == 0
  {
    if n < 10 then [DigitChar(n)] else Decimal(n / 10) + [DigitChar(n % 10)]
  }

  /** `str(n)` for any integer. */
  function IntToString(n: int): (r: string)
    ensures r != []
    ensures n < 0 <==> r[0] == '-'
  {
    if n < 0 then "-" + Decimal(-n) else Decimal(n)
  }

  /** The value of one decimal digit. */
  function DigitValue(c: char): (d: nat)
    requires IsDigit(c)
    ensures d < 10 && DigitChar(d) == c
  {
    c as int - '0' as int
  }

  /** The value of a string of decimal digits. */
  function DecimalValue(s: string): (n: nat)
    requires forall i | 0 <= i < |s| :: IsDigit(s[i])
  {
    if s == [] then 0 else DecimalValue(s[..|s| - 1]) * 10 + DigitValue(s[|s| - 1])
  }

  /** Reading back the decimal text of `n` gives `n`. */
  lemma {:induction false} DecimalRoundTrip(n: nat)
    ensures DecimalValue(Decimal(n)) == n
  {
    if n >= 10 {
      var r := Decimal(n);
      assert r[..|r| - 1] == Decimal(n / 10);
      DecimalRoundTrip(n / 10);
    }
  }

  /** Different natural numbers print differently. */
  lemma DecimalInjective(m: nat, n: nat)
    requires Decimal(m) == Decimal(n)
    ensures m == n
  {
    DecimalRoundTrip(m);
    DecimalRoundTrip(n);
  }

  /** Different integers print differently. */
  lemma IntToStringInjective(m: int, n: int)
    requires IntToString(m) == IntToString(n)
    ensures m == n
  {
    if m < 0 && n < 0 {
      assert Decimal(-m) == IntToString(m)[1..];
      assert Decimal(-n) == IntToString(n)[1..];
      DecimalInjective(-m, -n);
    } else if m >= 0 && n >= 0 {
      DecimalInjective(m, n);
    }
  }
}
