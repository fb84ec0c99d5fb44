/**
 * What the three upload tools share about files: the browser `File` record as the tools see
 * it, the download-name sanitizers and the savings percentage shown for a compressed file.
 */
module Files {
  import opened Text

  /** A selected file: its name, its MIME type (`file.type`) and its size in bytes. */
  datatype File = File(name: string, mime: string, size: nat)

  const MiB: nat := 1024 * 1024

  function FileSize(f: File): nat { f.size }

  function IsAsciiLetter(c: char): bool { 'a' <= c <= 'z' || 'A' <= c <= 'Z' }

  function IsAsciiDigit(c: char): bool { '0' <= c <= '9' }

  /** The class `[a-zA-Z0-9\-_. ]` of the image and PDF sanitizers. */
  function IsPlainNameChar(c: char): bool {
    IsAsciiLetter(c) || IsAsciiDigit(c) || c == '-' || c == '_' || c == '.' || c == ' '
  }

  /**
   * The class of the document converter's sanitizer. Its source pattern doubles the backslash,
   * so inside the class `\\-_` is the range from `\` to `_` and `-` is not in the class.
   */
  function IsConverterNameChar(c: char): bool {
    IsAsciiLetter(c) || IsAsciiDigit(c) || '\\' <= c <= '_' || c == '.' || c == ' '
  }

  /** `name.replace(/[^…]/g, '_')`: every char outside the allowed class becomes `_`. */
  function ReplaceDisallowed(s: string, allowed: char -> bool): (r: string)
    ensures |r| == |s|
    ensures forall i :: 0 <= i < |s| ==> r[i] == if allowed(s[i]) then s[i] else '_'
  {
    if s == [] then [] else [if allowed(s[0]) then s[0] else '_'] + ReplaceDisallowed(s[1..], allowed)
  }

  /**
   * The image and PDF compressors' `sanitizeFileName`: the length is kept, allowed chars stay
   * and every other char becomes `_`, so only allowed chars come out.
   */
  function SanitizePlain(name: string): (r: string)
    ensures |r| == |name|
    ensures forall i :: 0 <= i < |name| ==> r[i] == if IsPlainNameChar(name[i]) then name[i] else '_'
    ensures forall i :: 0 <= i < |r| ==> IsPlainNameChar(r[i])
  {
    ReplaceDisallowed(name, IsPlainNameChar)
  }

  /**
   * The document converter's `sanitizeFileName`, with its character class as written: the same
   * per-char rule, under which no `-` survives.
   */
  function SanitizeConverter(name: string): (r: string)
    ensures |r| == |name|
    ensures forall i :: 0 <= i < |name| ==> r[i] == if IsConverterNameChar(name[i]) then name[i] else '_'
    ensures forall i :: 0 <= i < |r| ==> IsConverterNameChar(r[i]) && r[i] != '-'
  {
    ReplaceDisallowed(name, IsConverterNameChar)
  }

  /** A name made only of allowed chars comes back unchanged. */
  lemma SanitizeKeepsAllowed(s: string, allowed: char -> bool)
    requires forall i :: 0 <= i < |s| ==> allowed(s[i])
    ensures ReplaceDisallowed(s, allowed) == s
  {
  }

  /** Sanitizing twice is sanitizing once, for any class that allows `_`. */
  lemma SanitizeIdempotent(s: string, allowed: char -> bool)
    requires allowed('_')
    ensures ReplaceDisallowed(ReplaceDisallowed(s, allowed), allowed) == ReplaceDisallowed(s, allowed)
  {
    SanitizeKeepsAllowed(ReplaceDisallowed(s, allowed), allowed);
  }

  /** The sanitizer works char by char, so it distributes over concatenation. */
  lemma {:induction false} SanitizeAppend(a: string, b: string, allowed: char -> bool)
    ensures ReplaceDisallowed(a + b, allowed) == ReplaceDisallowed(a, allowed) + ReplaceDisallowed(b, allowed)
  {
    var l := ReplaceDisallowed(a + b, allowed);
    var rr := ReplaceDisallowed(a, allowed) + ReplaceDisallowed(b, allowed);
    assert |l| == |rr|;
    forall i | 0 <= i < |l| ensures l[i] == rr[i] {
      if i < |a| {
        assert (a + b)[i] == a[i];
      } else {
        assert (a + b)[i] == b[i - |a|];
      }
    }
  }

  lemma PlainSanitizeIdempotent(name: string)
    ensures SanitizePlain(SanitizePlain(name)) == SanitizePlain(name)
  {
    SanitizeIdempotent(name, IsPlainNameChar);
  }

  lemma ConverterSanitizeIdempotent(name: string)
    ensures SanitizeConverter(SanitizeConverter(name)) == SanitizeConverter(name)
  {
    SanitizeIdempotent(name, IsConverterNameChar);
  }

  /**
   * The converter's class as written differs from the plain one exactly on `-` (replaced)
   * and on `\`, `]`, `^` (kept).
   */
  lemma ConverterClassDiffers(c: char)
    ensures IsConverterNameChar(c) && !IsPlainNameChar(c) <==> c == '\\' || c == ']' || c == '^'
    ensures IsPlainNameChar(c) && !IsConverterNameChar(c) <==> c == '-'
  {
  }

  // ---------------------------------------------------------------------------
  // Savings percentage
  // ---------------------------------------------------------------------------

  /** A JavaScript number as the savings arithmetic can produce it. */
  datatype Percent = Finite(value: real) | NotANumber | MinusInfinity

  /**
   * `(original - compressed) / original * 100` in floating point: `0/0` is NaN and a negative
   * numerator over 0 is -Infinity.
   */
  function SavingsPercent(original: nat, compressed: nat): (p: Percent)
    ensures p.Finite? <==> original > 0
    ensures p.Finite? ==> p.value <= 100.0
    ensures p.Finite? ==> (p.value >= 0.0 <==> compressed <= original)
    ensures p == NotANumber <==> original == 0 && compressed == 0
  {
    if original > 0 then Finite((original as real - compressed as real) / original as real * 100.0)
    else if compressed == 0 then NotANumber
    else MinusInfinity
  }

  /** `Math.max(0, x)`: NaN stays NaN, -Infinity and negative values become 0. */
  function ClampAtZero(p: Percent): (r: Percent)
    ensures p == NotANumber <==> r == NotANumber
    ensures r != MinusInfinity
    ensures r.Finite? ==> r.value >= 0.0
    ensures p.Finite? && p.value >= 0.0 ==> r == p
  {
    match p
    case Finite(v) => if v < 0.0 then Finite(0.0) else p
    case NotANumber => NotANumber
    case MinusInfinity => Finite(0.0)
  }
}
