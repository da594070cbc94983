/**
  Cleaning and normalisation of recognised plate text
  (`clean_plate_string`, `enforce_second_alpha`, `enforce_plate_length`
  in backend/model/LPD2.py and their composition in `process_image_file`).
  Python strings are modelled as `seq<char>`.
 */
module PlateText {

  /** The canonical plate length passed as `length=6` by `process_image_file`. */
  const PLATE_LENGTH: nat := 6

  predicate IsAsciiLetter(c: char) {
    ('A' <= c <= 'Z') || ('a' <= c <= 'z')
  }

  predicate IsAsciiDigit(c: char) {
    '0' <= c <= '9'
  }

  /** The character class `[A-Za-z0-9]` that the cleaning regular expression keeps. */
  predicate IsAsciiAlnum(c: char) {
    IsAsciiLetter(c) || IsAsciiDigit(c)
  }

  predicate AllAlnum(s: string) {
    forall i :: 0 <= i < |s| ==> IsAsciiAlnum(s[i])
  }

  /** `re.sub(r'[^A-Za-z0-9]', '', s)`: drop every character outside the class. */
  function CleanPlateString(s: string): (r: string)
    ensures AllAlnum(r)
    ensures |r| <= |s|
  {
    if s == [] then []
    else (if IsAsciiAlnum(s[0]) then [s[0]] else []) + CleanPlateString(s[1..])
  }

  /** Cleaning works character by character: it distributes over concatenation,
      so the kept characters appear in their original order. */
  lemma {:induction false} CleanConcat(a: string, b: string)
    ensures CleanPlateString(a + b) == CleanPlateString(a) + CleanPlateString(b)
  {
    if a == [] {
      assert a + b == b;
    } else {
      var head := if IsAsciiAlnum(a[0]) then [a[0]] else [];
      assert (a + b)[0] == a[0];
      assert (a + b)[1..] == a[1..] + b;
      CleanConcat(a[1..], b);
      calc {
        CleanPlateString(a + b);
        head + CleanPlateString(a[1..] + b);
        head + (CleanPlateString(a[1..]) + CleanPlateString(b));
        (head + CleanPlateString(a[1..])) + CleanPlateString(b);
      }
    }
  }

  /** A character survives cleaning exactly when it is an ASCII letter or digit of the input. */
  lemma {:induction false} CleanMembers(s: string, c: char)
    ensures c in CleanPlateString(s) <==> c in s && IsAsciiAlnum(c)
  {
    if s != [] {
      CleanMembers(s[1..], c);
      assert s == [s[0]] + s[1..];
    }
  }

  /** Cleaning is the identity exactly on strings that are already alphanumeric. */
  lemma {:induction false} CleanIdentityIff(s: string)
    ensures CleanPlateString(s) == s <==> AllAlnum(s)
  {
    if s != [] && AllAlnum(s) {
      assert AllAlnum(s[1..]);
      CleanIdentityIff(s[1..]);
      assert s == [s[0]] + s[1..];
    }
  }

  lemma CleanIdempotent(s: string)
    ensures CleanPlateString(CleanPlateString(s)) == CleanPlateString(s)
  {
    CleanIdentityIff(CleanPlateString(s));
  }

  /** The fixed digit-to-letter confusion table of `enforce_second_alpha`,
      with `'A'` for any character it does not list. */
  function DigitToAlpha(c: char): (r: char)
    ensures 'A' <= r <= 'Z'
  {
    if c == '0' then 'D'
    else if c == '1' then 'I'
    else if c == '2' then 'Z'
    else if c == '5' then 'S'
    else if c == '6' then 'G'
    else if c == '8' then 'B'
    else 'A'
  }

  /** Clean the input, then force a letter at index 1 when there is one.
      On a cleaned string Python's `isalpha()` is `IsAsciiLetter`. */
  function EnforceSecondAlpha(s: string): (r: string)
    ensures AllAlnum(r)
    ensures |r| == |CleanPlateString(s)|
    ensures forall i :: 0 <= i < |r| && i != 1 ==> r[i] == CleanPlateString(s)[i]
    ensures |r| >= 2 ==> IsAsciiLetter(r[1])
    ensures |r| >= 2 && !IsAsciiLetter(CleanPlateString(s)[1]) ==>
              r[1] == DigitToAlpha(CleanPlateString(s)[1])
    // letters are never rewritten, so their case is kept
    ensures forall i :: 0 <= i < |r| && IsAsciiLetter(CleanPlateString(s)[i]) ==>
              r[i] == CleanPlateString(s)[i]
  {
    var cleaned := CleanPlateString(s);
    if |cleaned| < 2 then cleaned
    else if !IsAsciiLetter(cleaned[1]) then [cleaned[0]] + [DigitToAlpha(cleaned[1])] + cleaned[2..]
    else cleaned
  }

  lemma EnforceSecondAlphaIdempotent(s: string)
    ensures EnforceSecondAlpha(EnforceSecondAlpha(s)) == EnforceSecondAlpha(s)
  {
    CleanIdentityIff(EnforceSecondAlpha(s));
  }

  /** Clean the input and keep at most its first `length` characters; no padding. */
  function EnforcePlateLength(s: string, length: nat): (r: string)
    ensures AllAlnum(r)
    ensures |r| == if |CleanPlateString(s)| < length then |CleanPlateString(s)| else length
    ensures r == CleanPlateString(s)[..|r|]
  {
    var cleaned := CleanPlateString(s);
    if |cleaned| <= length then cleaned else cleaned[..length]
  }

  lemma EnforcePlateLengthIdempotent(s: string, length: nat)
    ensures EnforcePlateLength(EnforcePlateLength(s, length), length) == EnforcePlateLength(s, length)
  {
    CleanIdentityIff(EnforcePlateLength(s, length));
  }

  /** The shape every normalised plate has: alphanumeric, at most six
      characters, and a letter at index 1 when it has two or more. */
  predicate IsNormalisedShape(p: string) {
    AllAlnum(p) && |p| <= PLATE_LENGTH && (|p| >= 2 ==> IsAsciiLetter(p[1]))
  }

  /** Clean, then enforce the second letter, then truncate to six characters. */
  function NormalizePlate(raw: string): (p: string)
    ensures IsNormalisedShape(p)
    ensures |p| == if |CleanPlateString(raw)| < PLATE_LENGTH then |CleanPlateString(raw)| else PLATE_LENGTH
  {
    var cleaned := CleanPlateString(raw);
    CleanIdempotent(raw);
    CleanIdentityIff(EnforceSecondAlpha(cleaned));
    EnforcePlateLength(EnforceSecondAlpha(cleaned), PLATE_LENGTH)
  }

  /** Normalising leaves every string of the normalised shape alone;
      in particular normalising twice is the same as normalising once. */
  lemma NormalizeFixesNormalisedShape(p: string)
    requires IsNormalisedShape(p)
    ensures NormalizePlate(p) == p
  {
    CleanIdentityIff(p);
  }

  lemma NormalizeIdempotent(raw: string)
    ensures NormalizePlate(NormalizePlate(raw)) == NormalizePlate(raw)
  {
    NormalizeFixesNormalisedShape(NormalizePlate(raw));
  }
}
