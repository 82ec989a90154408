/** Cleaning of scanned identifiers into the token used for employee lookups:
    the USB path trims, drops carriage returns and line feeds, then strips
    leading zeros; the camera path trims and strips leading zeros. */
module Normalizer {
  import opened Common

  /** `s.replace(/^0+/, '')`: drop the run of `'0'` at the front. */
  function StripLeadingZeros(s: string): (r: string)
    ensures |r| <= |s| && r == s[|s| - |r|..]
    ensures forall i :: 0 <= i < |s| - |r| ==> s[i] == '0'
    ensures r == [] || r[0] != '0'
  {
    if s != [] && s[0] == '0' then StripLeadingZeros(s[1..]) else s
  }

  /** Every character except carriage return and line feed. */
  predicate NotLineBreak(c: char) {
    c != '\r' && c != '\n'
  }

  /** `s.replace(/[\r\n]/g, '')`. */
  function DropLineBreaks(s: string): (r: string)
    ensures |r| <= |s|
    ensures forall i :: 0 <= i < |r| ==> NotLineBreak(r[i])
    ensures s != [] && NotLineBreak(s[|s| - 1]) ==> r != [] && r[|r| - 1] == s[|s| - 1]
  {
    if s == [] then []
    else
      var rest := DropLineBreaks(s[1..]);
      if NotLineBreak(s[0]) then [s[0]] + rest else rest
  }

  /** Dropping line breaks is the filter that keeps every other character. */
  lemma {:induction false} DropLineBreaksIsFilter(s: string)
    ensures DropLineBreaks(s) == Filter(s, NotLineBreak)
  {
    if s != [] {
      DropLineBreaksIsFilter(s[1..]);
    }
  }

  /** The characters that survive keep their order and every one of their
      occurrences; line breaks lose all of theirs. */
  lemma DropLineBreaksKeepsOrder(s: string)
    ensures IsSubsequence(DropLineBreaks(s), s)
    ensures forall c :: multiset(DropLineBreaks(s))[c] == if NotLineBreak(c) then multiset(s)[c] else 0
  {
    DropLineBreaksIsFilter(s);
    FilterIsSubsequence(s, NotLineBreak);
    forall c ensures multiset(DropLineBreaks(s))[c] == if NotLineBreak(c) then multiset(s)[c] else 0 {
      FilterMultiplicity(s, NotLineBreak, c);
    }
  }

  /** A string without line breaks is left as it is. */
  lemma {:induction false} DropLineBreaksKeepsClean(s: string)
    requires forall i :: 0 <= i < |s| ==> NotLineBreak(s[i])
    ensures DropLineBreaks(s) == s
  {
    if s != [] {
      DropLineBreaksKeepsClean(s[1..]);
    }
  }

  /** Exactly the characters other than line breaks survive. */
  lemma {:induction false} DropLineBreaksMembers(s: string, c: char)
    ensures c in DropLineBreaks(s) <==> c in s && NotLineBreak(c)
  {
    if s != [] {
      DropLineBreaksMembers(s[1..], c);
      assert c in s <==> c == s[0] || c in s[1..];
    }
  }

  /** The token `handleUsbScan` hands to `onScan`. */
  function CleanUsb(raw: string): (r: string)
    ensures r == [] || r[0] != '0'
    ensures |r| <= |raw|
  {
    StripLeadingZeros(DropLineBreaks(Trim(raw)))
  }

  /** The token holds no line break and does not end in white space. */
  lemma CleanUsbShape(raw: string)
    ensures forall i :: 0 <= i < |CleanUsb(raw)| ==> NotLineBreak(CleanUsb(raw)[i])
    ensures CleanUsb(raw) == [] || !IsJsWhitespace(CleanUsb(raw)[|CleanUsb(raw)| - 1])
  {
    var t := Trim(raw);
    var d := DropLineBreaks(t);
    var r := StripLeadingZeros(d);
    assert CleanUsb(raw) == r;
    forall i | 0 <= i < |r| ensures NotLineBreak(r[i]) {
      assert r[i] == d[|d| - |r| + i];
    }
    if r != [] {
      assert r[|r| - 1] == d[|d| - 1];
      assert |t| >= |d| && t != [];
      assert NotLineBreak(t[|t| - 1]);
      assert d[|d| - 1] == t[|t| - 1];
    }
  }

  /** Cleaning only removes characters: every character of the token comes from the scan. */
  lemma CleanUsbTakesFromRaw(raw: string, i: nat)
    requires i < |CleanUsb(raw)|
    ensures CleanUsb(raw)[i] in raw
  {
    var t := Trim(raw);
    var d := DropLineBreaks(t);
    var r := StripLeadingZeros(d);
    assert r[i] == d[|d| - |r| + i];
    DropLineBreaksMembers(t, r[i]);
    TrimTakesFrom(raw, r[i]);
  }

  /** The token the camera decode callback stores in `lastScan` and hands to `onScan`. */
  function CleanCamera(raw: string): (r: string)
    ensures r == [] || r[0] != '0'
    ensures |r| <= |raw|
  {
    StripLeadingZeros(Trim(raw))
  }

  /** A token free of line breaks, not starting with `'0'` and not starting or ending
      in white space cleans to itself. */
  lemma CleanTokenFixed(r: string)
    requires r != [] && r[0] != '0' && !IsJsWhitespace(r[0]) && !IsJsWhitespace(r[|r| - 1])
    requires forall i :: 0 <= i < |r| ==> NotLineBreak(r[i])
    ensures CleanUsb(r) == r
  {
    assert Trim(r) == r;
    DropLineBreaksKeepsClean(r);
  }

  /** A token starting with white space loses at least that character. */
  lemma WhitespaceTokenShrinks(r: string)
    requires r != [] && IsJsWhitespace(r[0])
    ensures |CleanUsb(r)| < |r|
  {
    assert |TrimStart(r)| < |r|;
    assert |Trim(r)| <= |TrimStart(r)|;
  }

  /** A cleaned USB token is a fixed point of cleaning exactly when it does not start
      with white space; white space can reach the front only from behind stripped zeros. */
  lemma CleanUsbIdempotentIff(raw: string)
    ensures CleanUsb(CleanUsb(raw)) == CleanUsb(raw) <==>
            (CleanUsb(raw) == [] || !IsJsWhitespace(CleanUsb(raw)[0]))
  {
    var r := CleanUsb(raw);
    if r != [] && !IsJsWhitespace(r[0]) {
      CleanUsbShape(raw);
      CleanTokenFixed(r);
    } else if r != [] {
      WhitespaceTokenShrinks(r);
    }
  }

  /** On a code made of digits only (what printed cards carry) cleaning is idempotent. */
  lemma CleanUsbIdempotentOnDigits(raw: string)
    requires AllDigits(raw)
    ensures CleanUsb(CleanUsb(raw)) == CleanUsb(raw)
  {
    CleanDigitsStartWithDigit(raw);
    CleanUsbIdempotentIff(raw);
  }

  /** The token of an all-digit scan starts with a digit, if it has a first character. */
  lemma CleanDigitsStartWithDigit(raw: string)
    requires AllDigits(raw)
    ensures CleanUsb(raw) == [] || IsDigit(CleanUsb(raw)[0])
  {
    if CleanUsb(raw) != [] {
      CleanUsbTakesFromRaw(raw, 0);
      var i :| 0 <= i < |raw| && raw[i] == CleanUsb(raw)[0];
    }
  }

  /** `k` padding zeros. */
  function Zeros(k: nat): (r: string)
    ensures |r| == k && forall i :: 0 <= i < k ==> r[i] == '0'
  {
    seq(k, _ => '0')
  }

  /** Stripping removes exactly the padding in front of a code that does not start with `'0'`. */
  lemma {:induction false} StripPadding(k: nat, code: string)
    requires code == [] || code[0] != '0'
    ensures StripLeadingZeros(Zeros(k) + code) == code
  {
    if k > 0 {
      assert (Zeros(k) + code)[1..] == Zeros(k - 1) + code;
      StripPadding(k - 1, code);
    } else {
      assert Zeros(k) + code == code;
    }
  }

  /** An all-zero code cleans to the empty string (which the widget still emits). */
  lemma AllZerosCleanToEmpty(k: nat)
    ensures CleanUsb(Zeros(k)) == []
    ensures CleanCamera(Zeros(k)) == []
  {
    var z := Zeros(k);
    if k > 0 {
      assert !IsJsWhitespace(z[0]) && !IsJsWhitespace(z[k - 1]);
    }
    assert Trim(z) == z;
    DropLineBreaksKeepsClean(z);
    StripPadding(k, []);
    assert z + [] == z;
  }

  /** The line break a USB scanner may send after a code is removed by trimming. */
  lemma TrimDropsLineBreak(s: string, suffix: string)
    requires s != [] && !IsJsWhitespace(s[0]) && !IsJsWhitespace(s[|s| - 1])
    requires suffix == [] || suffix == "\n" || suffix == "\r\n"
    ensures Trim(s + suffix) == s
  {
    var raw := s + suffix;
    assert TrimEnd(raw) == s by {
      if suffix == "\r\n" {
        assert raw[..|raw| - 1] == s + "\r";
        assert (s + "\r")[..|s|] == s;
      } else if suffix == "\n" {
        assert raw[..|raw| - 1] == s;
      } else {
        assert raw == s;
      }
    }
    assert TrimStart(raw) == raw;
  }

  /** Zeros in front of a code that does not end in white space (and, without
      zeros, does not start with it) leave nothing for trimming to remove. */
  lemma PaddedIsTrimmed(k: nat, code: string)
    requires code != [] && !IsJsWhitespace(code[|code| - 1])
    requires k > 0 || !IsJsWhitespace(code[0])
    ensures Trim(Zeros(k) + code) == Zeros(k) + code
    ensures Zeros(k) + code != [] && !IsJsWhitespace((Zeros(k) + code)[|Zeros(k) + code| - 1])
  {
    PaddedEnds(k, code);
  }

  /** The first and last characters of a padded code. */
  lemma PaddedEnds(k: nat, code: string)
    requires code != []
    ensures Zeros(k) + code != []
    ensures (Zeros(k) + code)[0] == (if k > 0 then '0' else code[0])
    ensures (Zeros(k) + code)[|Zeros(k) + code| - 1] == code[|code| - 1]
  {
  }

  /** Padding zeros add no line break. */
  lemma PaddedHasNoLineBreak(k: nat, code: string)
    requires forall i :: 0 <= i < |code| ==> NotLineBreak(code[i])
    ensures forall i :: 0 <= i < |Zeros(k) + code| ==> NotLineBreak((Zeros(k) + code)[i])
  {
    var s := Zeros(k) + code;
    forall i | 0 <= i < |s| ensures NotLineBreak(s[i]) {
      if i >= k { assert s[i] == code[i - k]; }
    }
  }

  /** A card code padded with `k` zeros (and optionally followed by the scanner's line
      break) cleans back to the code, provided the code itself is free of line breaks,
      does not start with `'0'` and does not end in white space. */
  lemma PaddedCodeCleans(k: nat, code: string, suffix: string)
    requires code != [] && code[0] != '0' && !IsJsWhitespace(code[|code| - 1])
    requires k > 0 || !IsJsWhitespace(code[0])
    requires forall i :: 0 <= i < |code| ==> NotLineBreak(code[i])
    requires suffix == [] || suffix == "\n" || suffix == "\r\n"
    ensures CleanUsb(Zeros(k) + code + suffix) == code
  {
    var s := Zeros(k) + code;
    PaddedIsTrimmed(k, code);
    TrimDropsLineBreak(s, suffix);
    PaddedHasNoLineBreak(k, code);
    DropLineBreaksKeepsClean(s);
    StripPadding(k, code);
  }

  /** A printed card code with three padding zeros scans as the code itself. */
  lemma CardCodeExample()
    ensures CleanUsb("00041486001051") == "41486001051"
  {
    var code := "41486001051";
    assert Zeros(3) == "000";
    assert "00041486001051" == Zeros(3) + code + [];
    PaddedCodeCleans(3, code, []);
  }

  /** White space around a scan does not change its token. */
  lemma CleanUsbIgnoresSurroundingWhitespace(raw: string)
    ensures CleanUsb(Trim(raw)) == CleanUsb(raw)
  {
    var t := Trim(raw);
    assert Trim(t) == t;
  }

  /** One white-space character in front of a trimmed string is all trimming removes. */
  lemma TrimAfterWhitespace(w: char, s: string)
    requires IsJsWhitespace(w)
    requires s != [] && !IsJsWhitespace(s[0]) && !IsJsWhitespace(s[|s| - 1])
    ensures Trim([w] + s) == s
  {
    assert ([w] + s)[1..] == s;
    assert TrimStart([w] + s) == TrimStart(s) == s;
    assert TrimEnd(s) == s;
  }

  /** A scan that starts with white space cleans to the code behind it. */
  lemma LeadingWhitespaceCleans(w: char, code: string)
    requires IsJsWhitespace(w)
    requires code != [] && code[0] != '0'
    requires !IsJsWhitespace(code[0]) && !IsJsWhitespace(code[|code| - 1])
    requires forall i :: 0 <= i < |code| ==> NotLineBreak(code[i])
    ensures CleanUsb([w] + code) == code
  {
    TrimAfterWhitespace(w, code);
    DropLineBreaksKeepsClean(code);
    assert StripLeadingZeros(code) == code;
  }

  /** A zero followed by white space loses only the zero. */
  lemma ZeroBeforeWhitespaceCleans(w: char, code: string)
    requires IsJsWhitespace(w) && NotLineBreak(w)
    requires code != [] && !IsJsWhitespace(code[|code| - 1])
    requires forall i :: 0 <= i < |code| ==> NotLineBreak(code[i])
    ensures CleanUsb(Zeros(1) + [w] + code) == [w] + code
  {
    var padded := [w] + code;
    assert padded[|padded| - 1] == code[|code| - 1];
    forall i | 0 <= i < |padded| ensures NotLineBreak(padded[i]) {
      if i > 0 { assert padded[i] == code[i - 1]; }
    }
    PaddedCodeCleans(1, padded, []);
    assert Zeros(1) + padded + [] == Zeros(1) + [w] + code;
  }

  /** Cleaning is not idempotent in general: a zero followed by white space, such as
      `"0 5"`, cleans to a token that starts with the white space (`" 5"`), and cleaning
      that token again removes it (`"5"`). */
  lemma CleanUsbNotIdempotent(w: char, code: string)
    requires IsJsWhitespace(w) && NotLineBreak(w)
    requires code != [] && code[0] != '0'
    requires !IsJsWhitespace(code[0]) && !IsJsWhitespace(code[|code| - 1])
    requires forall i :: 0 <= i < |code| ==> NotLineBreak(code[i])
    ensures CleanUsb(Zeros(1) + [w] + code) == [w] + code
    ensures CleanUsb(CleanUsb(Zeros(1) + [w] + code)) == code
  {
    ZeroBeforeWhitespaceCleans(w, code);
    LeadingWhitespaceCleans(w, code);
  }

  /** The camera and USB paths agree on every code without an inner line break. */
  lemma CameraAgreesWithUsb(raw: string)
    requires forall i :: 0 <= i < |Trim(raw)| ==> NotLineBreak(Trim(raw)[i])
    ensures CleanCamera(raw) == CleanUsb(raw)
  {
    DropLineBreaksKeepsClean(Trim(raw));
  }
}
