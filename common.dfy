/** Value types and the JavaScript string and number operations that the gate
    system's handlers are built from: `trim`, `includes`, `slice`, ASCII case
    conversion, `parseInt` and decimal formatting of integers, plus the
    order-preserving `filter` over fetched rows. */
module Common {

  datatype Option<T> = None | Some(value: T)

  // ---------------------------------------------------------------------------
  // Whitespace and trim

  /** The characters `String.prototype.trim` removes: white space and line terminators. */
  predicate IsJsWhitespace(c: char) {
    var n := c as int;
    n == 0x09 || n == 0x0A || n == 0x0B || n == 0x0C || n == 0x0D || n == 0x20 ||
    n == 0xA0 || n == 0x1680 || (0x2000 <= n <= 0x200A) || n == 0x2028 ||
    n == 0x2029 || n == 0x202F || n == 0x205F || n == 0x3000 || n == 0xFEFF
  }

  /** Removes leading white space: the result is the longest suffix not starting with it. */
  function TrimStart(s: string): (r: string)
    ensures |r| <= |s| && r == s[|s| - |r|..]
    ensures r == [] || !IsJsWhitespace(r[0])
    ensures forall i :: 0 <= i < |s| - |r| ==> IsJsWhitespace(s[i])
  {
    if s != [] && IsJsWhitespace(s[0]) then TrimStart(s[1..]) else s
  }

  /** Removes trailing white space: the result is the longest prefix not ending with it. */
  function TrimEnd(s: string): (r: string)
    ensures |r| <= |s| && r == s[..|r|]
    ensures r == [] || !IsJsWhitespace(r[|r| - 1])
    ensures forall i :: |r| <= i < |s| ==> IsJsWhitespace(s[i])
  {
    if s != [] && IsJsWhitespace(s[|s| - 1]) then TrimEnd(s[..|s| - 1]) else s
  }

  /** `s.trim()`: `s` without its leading and trailing white space. */
  function Trim(s: string): (r: string)
    ensures |r| <= |s|
    ensures r == [] || (!IsJsWhitespace(r[0]) && !IsJsWhitespace(r[|r| - 1]))
    ensures (s == [] || (!IsJsWhitespace(s[0]) && !IsJsWhitespace(s[|s| - 1]))) ==> r == s
  {
    TrimEnd(TrimStart(s))
  }

  /** A prefix of the suffix of `s` from `a` occurs in `s` at `a`. */
  lemma PrefixOfSuffixOccurs<T>(s: seq<T>, a: nat, r: seq<T>)
    requires a <= |s| && |r| <= |s| - a && r == s[a..][..|r|]
    ensures OccursAt(s, r, a)
  {
  }

  /** The trimmed string is the infix of `s` that starts after the leading white space. */
  lemma TrimIsInfix(s: string)
    ensures OccursAt(s, Trim(s), |s| - |TrimStart(s)|)
  {
    var t := TrimStart(s);
    PrefixOfSuffixOccurs(s, |s| - |t|, TrimEnd(t));
  }

  /** Every element of an infix occurs in the whole. */
  lemma OccursAtMember<T>(s: seq<T>, q: seq<T>, a: int, c: T)
    requires OccursAt(s, q, a) && c in q
    ensures c in s
  {
    var j :| 0 <= j < |q| && q[j] == c;
    assert s[a..a + |q|][j] == s[a + j];
  }

  /** Every character of the trimmed string occurs in `s`. */
  lemma TrimTakesFrom(s: string, c: char)
    requires c in Trim(s)
    ensures c in s
  {
    TrimIsInfix(s);
    OccursAtMember(s, Trim(s), |s| - |TrimStart(s)|, c);
  }

  // ---------------------------------------------------------------------------
  // Filtering (Array.prototype.filter)

  /** `s.filter(p)`: the elements of `s` satisfying `p`, in their original order. */
  function Filter<T>(s: seq<T>, p: T -> bool): (r: seq<T>)
    ensures |r| <= |s|
    ensures forall x :: x in r ==> x in s && p(x)
    ensures forall x :: x in s && p(x) ==> x in r
  {
    if s == [] then []
    else (if p(s[0]) then [s[0]] else []) + Filter(s[1..], p)
  }

  /** The timer deadlines of `deadlines` that have not yet passed at `now`. */
  function Pending(deadlines: seq<int>, now: int): (r: seq<int>)
    ensures forall d :: d in r <==> d in deadlines && d > now
  {
    Filter(deadlines, d => d > now)
  }

  /** How long after a successful save an administrator's edit dialog closes. */
  const DialogCloseMs := 1500

  /** `a` is an order-preserving subsequence of `b` (greedy matching decides it). */
  predicate IsSubsequence<T(==)>(a: seq<T>, b: seq<T>)
    decreases |b|
  {
    a == [] ||
    (b != [] && (if a[0] == b[0] then IsSubsequence(a[1..], b[1..]) else IsSubsequence(a, b[1..])))
  }

  lemma {:induction false} FilterIsSubsequence<T>(s: seq<T>, p: T -> bool)
    ensures IsSubsequence(Filter(s, p), s)
  {
    if s != [] {
      FilterIsSubsequence(s[1..], p);
      var rest := Filter(s[1..], p);
      if !p(s[0]) {
        assert Filter(s, p) == rest;
        if rest != [] {
          assert p(rest[0]);
        }
      } else {
        assert Filter(s, p) == [s[0]] + rest;
        assert Filter(s, p)[1..] == rest;
      }
    }
  }

  /** Filtering keeps every occurrence of a selected element and drops every other one. */
  lemma {:induction false} FilterMultiplicity<T>(s: seq<T>, p: T -> bool, x: T)
    ensures multiset(Filter(s, p))[x] == if p(x) then multiset(s)[x] else 0
  {
    if s != [] {
      FilterMultiplicity(s[1..], p, x);
      assert s == [s[0]] + s[1..];
      assert multiset(s) == multiset([s[0]]) + multiset(s[1..]);
      assert multiset(Filter(s, p)) ==
        multiset(if p(s[0]) then [s[0]] else []) + multiset(Filter(s[1..], p));
    }
  }

  /** A filter whose predicate holds everywhere returns its input unchanged. */
  lemma {:induction false} FilterAllKept<T>(s: seq<T>, p: T -> bool)
    requires forall i :: 0 <= i < |s| ==> p(s[i])
    ensures Filter(s, p) == s
  {
    if s != [] {
      FilterAllKept(s[1..], p);
      assert s == [s[0]] + s[1..];
    }
  }

  /** The last element survives a filter that keeps it. */
  lemma {:induction false} FilterKeepsLast<T>(s: seq<T>, p: T -> bool)
    requires s != [] && p(s[|s| - 1])
    ensures Filter(s, p) != [] && Filter(s, p)[|Filter(s, p)| - 1] == s[|s| - 1]
  {
    if |s| > 1 {
      FilterKeepsLast(s[1..], p);
    }
  }

  /** Rows ordered by a numeric key, smallest first. */
  predicate SortedAscending<T>(s: seq<T>, key: T -> int) {
    forall i, j :: 0 <= i < j < |s| ==> key(s[i]) <= key(s[j])
  }

  /** Filtering rows that are ordered by a key keeps them ordered. */
  lemma {:induction false} FilterKeepsAscending<T>(s: seq<T>, p: T -> bool, key: T -> int)
    requires SortedAscending(s, key)
    ensures SortedAscending(Filter(s, p), key)
  {
    if s != [] {
      FilterKeepsAscending(s[1..], p, key);
      var rest := Filter(s[1..], p);
      if p(s[0]) {
        forall j | 0 <= j < |rest| ensures key(s[0]) <= key(rest[j]) {
          assert rest[j] in s[1..];
        }
      }
    }
  }

  /** A prefix of a subsequence is a subsequence. */
  lemma {:induction false} PrefixIsSubsequence<T>(a: seq<T>, b: seq<T>, n: nat)
    requires IsSubsequence(a, b) && n <= |a|
    ensures IsSubsequence(a[..n], b)
    decreases |b|
  {
    if n > 0 {
      assert a[..n][0] == a[0];
      if a[0] == b[0] {
        PrefixIsSubsequence(a[1..], b[1..], n - 1);
        assert a[..n][1..] == a[1..][..n - 1];
      } else {
        PrefixIsSubsequence(a, b[1..], n);
      }
    }
  }

  /** The most rows a history query returns. */
  const PageLimit: nat := 100

  /** The answer to a query that selects the rows satisfying `p` from `rows`, listed
      in the order the query asks for, and returns the first `PageLimit` of them. */
  function QueryPage<T>(rows: seq<T>, p: T -> bool): (r: seq<T>)
    ensures |r| <= PageLimit
    ensures forall x :: x in r ==> x in rows && p(x)
    ensures IsSubsequence(r, rows)
    ensures |r| <= |Filter(rows, p)| && r == Filter(rows, p)[..|r|]
    ensures |Filter(rows, p)| <= PageLimit ==> r == Filter(rows, p)
  {
    FilterIsSubsequence(rows, p);
    var r := Take(Filter(rows, p), PageLimit);
    PrefixIsSubsequence(Filter(rows, p), rows, |r|);
    r
  }

  /** A query's page keeps the order of the rows it was taken from. */
  lemma QueryPageKeepsOrder<T>(rows: seq<T>, p: T -> bool, key: T -> int)
    requires SortedAscending(rows, key)
    ensures SortedAscending(QueryPage(rows, p), key)
  {
    FilterKeepsAscending(rows, p, key);
  }

  /** The number of elements satisfying `p`: `s.filter(p).length`. */
  function Count<T>(s: seq<T>, p: T -> bool): (n: nat)
    ensures n <= |s|
  {
    |Filter(s, p)|
  }

  /** Counts for two predicates that never hold together add up to at most the length. */
  lemma {:induction false} DisjointCountsBounded<T>(s: seq<T>, p: T -> bool, q: T -> bool)
    requires forall x :: !(p(x) && q(x))
    ensures Count(s, p) + Count(s, q) <= |s|
  {
    if s != [] {
      DisjointCountsBounded(s[1..], p, q);
      assert Filter(s, p) == (if p(s[0]) then [s[0]] else []) + Filter(s[1..], p);
      assert Filter(s, q) == (if q(s[0]) then [s[0]] else []) + Filter(s[1..], q);
    }
  }

  /** Two filters whose predicates are each other's negation split the sequence: every
      element lands in exactly one of them. */
  lemma {:induction false} ComplementaryCounts<T>(s: seq<T>, p: T -> bool, q: T -> bool)
    requires forall x :: q(x) <==> !p(x)
    ensures Count(s, p) + Count(s, q) == |s|
  {
    if s != [] {
      ComplementaryCounts(s[1..], p, q);
      assert Filter(s, p) == (if p(s[0]) then [s[0]] else []) + Filter(s[1..], p);
      assert Filter(s, q) == (if q(s[0]) then [s[0]] else []) + Filter(s[1..], q);
    }
  }

  // ---------------------------------------------------------------------------
  // Substrings, slices and ASCII case

  /** `q` occurs in `s` starting at index `i`. */
  predicate OccursAt<T(==)>(s: seq<T>, q: seq<T>, i: int) {
    0 <= i <= |s| - |q| && s[i..i + |q|] == q
  }

  predicate StartsWith(s: string, q: string) {
    |q| <= |s| && s[..|q|] == q
  }

  /** `s.includes(q)`. */
  predicate Includes(s: string, q: string)
    decreases |s|
  {
    StartsWith(s, q) || (s != [] && Includes(s[1..], q))
  }

  /** `includes` holds exactly when `q` occurs at some position of `s`. */
  lemma {:induction false} IncludesIffOccurs(s: string, q: string)
    ensures Includes(s, q) <==> exists i :: OccursAt(s, q, i)
  {
    if Includes(s, q) {
      if StartsWith(s, q) {
        assert OccursAt(s, q, 0);
      } else {
        IncludesIffOccurs(s[1..], q);
        var i :| OccursAt(s[1..], q, i);
        assert s[1..][i..i + |q|] == s[i + 1..i + 1 + |q|];
        assert OccursAt(s, q, i + 1);
      }
    } else if exists i :: OccursAt(s, q, i) {
      var i :| OccursAt(s, q, i);
      if i != 0 {
        assert s[1..][i - 1..i - 1 + |q|] == s[i..i + |q|];
        assert OccursAt(s[1..], q, i - 1);
        IncludesIffOccurs(s[1..], q);
      }
      assert false;
    }
  }

  /** `s.slice(0, n)`. */
  function Take<T>(s: seq<T>, n: nat): (r: seq<T>)
    ensures |r| == if |s| < n then |s| else n
    ensures r == s[..|r|]
  {
    if |s| <= n then s else s[..n]
  }

  function LowerChar(c: char): char {
    if 'A' <= c <= 'Z' then (c as int + 32) as char else c
  }

  function UpperChar(c: char): char {
    if 'a' <= c <= 'z' then (c as int - 32) as char else c
  }

  /** `s.toLowerCase()` on the ASCII letters. */
  function ToLower(s: string): (r: string)
    ensures |r| == |s| && forall i :: 0 <= i < |s| ==> r[i] == LowerChar(s[i])
  {
    seq(|s|, i requires 0 <= i < |s| => LowerChar(s[i]))
  }

  /** `s.toUpperCase()` on the ASCII letters. */
  function ToUpper(s: string): (r: string)
    ensures |r| == |s| && forall i :: 0 <= i < |s| ==> r[i] == UpperChar(s[i])
    ensures forall i :: 0 <= i < |r| ==> !('a' <= r[i] <= 'z')
  {
    seq(|s|, i requires 0 <= i < |s| => UpperChar(s[i]))
  }

  /** Upper-casing twice is upper-casing once. */
  lemma ToUpperIdempotent(s: string)
    ensures ToUpper(ToUpper(s)) == ToUpper(s)
  {
    var u := ToUpper(s);
    forall i | 0 <= i < |u| ensures UpperChar(u[i]) == u[i] {
      assert !('a' <= u[i] <= 'z');
    }
  }

  /** `haystack.toLowerCase().includes(needle.toLowerCase())`. */
  predicate IncludesIgnoringCase(haystack: string, needle: string) {
    Includes(ToLower(haystack), ToLower(needle))
  }

  // ---------------------------------------------------------------------------
  // Digits, number formatting and parseInt

  predicate IsDigit(c: char) {
    '0' <= c <= '9'
  }

  predicate AllDigits(s: string) {
    forall i :: 0 <= i < |s| ==> IsDigit(s[i])
  }

  /** `s.replace(/\D/g, '')`: the digits of `s`, in order. */
  function KeepDigits(s: string): (r: string)
    ensures AllDigits(r) && |r| <= |s|
    ensures AllDigits(s) ==> r == s
  {
    var r := Filter(s, IsDigit);
    assert forall i :: 0 <= i < |r| ==> r[i] in r;
    if AllDigits(s) then FilterAllKept(s, IsDigit); r else r
  }

  function DigitChar(d: nat): (c: char)
    requires d < 10
    ensures IsDigit(c)
  {
    ('0' as int + d) as char
  }

  function DigitValue(c: char): (d: nat)
    requires IsDigit(c)
    ensures d < 10 && DigitChar(d) == c
  {
    c as int - '0' as int
  }

  /** The decimal numeral of `n` as `String(n)` writes it. */
  function NatToString(n: nat): (r: string)
    ensures r != [] && AllDigits(r)
    ensures |r| > 1 ==> r[0] != '0'
    decreases n
  {
    if n < 10 then [DigitChar(n)] else NatToString(n / 10) + [DigitChar(n % 10)]
  }

  /** `String(i)` for an integer, with a leading `-` when negative. */
  function IntToString(i: int): (r: string)
    ensures r != []
    ensures i < 0 <==> r[0] == '-'
  {
    if i < 0 then "-" + NatToString(-i) else NatToString(i)
  }

  /** The value of a string of decimal digits, most significant first. */
  function DigitsValue(s: string): nat
    requires AllDigits(s)
  {
    if s == [] then 0 else 10 * DigitsValue(s[..|s| - 1]) + DigitValue(s[|s| - 1])
  }

  /** Reading back the numeral of `n` gives `n`. */
  lemma {:induction false} DigitsValueOfNatToString(n: nat)
    ensures DigitsValue(NatToString(n)) == n
    decreases n
  {
    if n >= 10 {
      DigitsValueOfNatToString(n / 10);
      var s := NatToString(n);
      assert s[..|s| - 1] == NatToString(n / 10);
    }
  }

  predicate IsHexDigit(c: char) {
    IsDigit(c) || 'a' <= c <= 'f' || 'A' <= c <= 'F'
  }

  function HexDigitValue(c: char): (d: nat)
    requires IsHexDigit(c)
    ensures d < 16
  {
    if IsDigit(c) then DigitValue(c)
    else if 'a' <= c <= 'f' then c as int - 'a' as int + 10
    else c as int - 'A' as int + 10
  }

  /** Where `parseInt`'s left-to-right scan is: in the leading white space, just after
      the optional sign, or in the run of digits, of base 16 when `hex` and of base 10
      otherwise, with the value of the digits read so far (`None` before the first). */
  datatype ScanPhase = Leading | Signed(negative: bool) | Run(negative: bool, hex: bool, value: Option<nat>)

  function PhaseRank(p: ScanPhase): nat {
    match p
    case Leading => 2
    case Signed(_) => 1
    case Run(_, _, _) => 0
  }

  /** `n`, negated when `negative`. */
  function WithSign(negative: bool, n: nat): int {
    if negative then -(n as int) else n as int
  }

  /** `parseInt(s)` with no radix: skip leading white space, read an optional sign,
      then a `0x`/`0X` prefix selects base 16; the longest run of digits is read and
      anything after it ignored. No digit at all gives NaN, here `None`. */
  function ParseInt(s: string): Option<int> {
    Scan(s, 0, Leading)
  }

  /** A reading that was read as a number, and that number is at least `floor`. */
  predicate AtLeast(reading: Option<int>, floor: int) {
    reading.Some? && reading.value >= floor
  }

  /** The rest of the scan of `s` from position `i` in `phase`. */
  function Scan(s: string, i: nat, phase: ScanPhase): Option<int>
    decreases |s| - i, PhaseRank(phase)
  {
    match phase
    case Leading =>
      if i < |s| && IsJsWhitespace(s[i]) then Scan(s, i + 1, Leading)
      else if i < |s| && (s[i] == '-' || s[i] == '+') then Scan(s, i + 1, Signed(s[i] == '-'))
      else Scan(s, i, Signed(false))
    case Signed(negative) =>
      if i + 1 < |s| && s[i] == '0' && (s[i + 1] == 'x' || s[i + 1] == 'X') then
        Scan(s, i + 2, Run(negative, true, None))
      else Scan(s, i, Run(negative, false, None))
    case Run(negative, hex, value) =>
      var sofar := if value.Some? then value.value else 0;
      if i < |s| && hex && IsHexDigit(s[i]) then
        Scan(s, i + 1, Run(negative, hex, Some(16 * sofar + HexDigitValue(s[i]))))
      else if i < |s| && !hex && IsDigit(s[i]) then
        Scan(s, i + 1, Run(negative, hex, Some(10 * sofar + DigitValue(s[i]))))
      else if value.None? then None
      else Some(WithSign(negative, value.value))
  }

  /** Once the scan is in a decimal run over `s[start..]`, all digits, it reads their value. */
  lemma {:induction false} ScanDecimalRun(s: string, start: nat, j: nat, negative: bool)
    requires start < j <= |s| && AllDigits(s[start..])
    ensures AllDigits(s[start..j])
    ensures Scan(s, j, Run(negative, false, Some(DigitsValue(s[start..j])))) ==
            Some(WithSign(negative, DigitsValue(s[start..])))
    decreases |s| - j
  {
    assert forall k :: 0 <= k < j - start ==> s[start..j][k] == s[start..][k];
    if j < |s| {
      assert IsDigit(s[j]) by { assert s[start..][j - start] == s[j]; }
      ScanDecimalRun(s, start, j + 1, negative);
      assert s[start..j + 1][..j - start] == s[start..j];
    } else {
      assert s[start..j] == s[start..];
    }
  }

  /** `parseInt(String(n)) === n` for every natural number. */
  lemma ParseIntOfNatToString(n: nat)
    ensures ParseInt(NatToString(n)) == Some(n)
  {
    var s := NatToString(n);
    assert IsDigit(s[0]) && !IsJsWhitespace(s[0]);
    assert Scan(s, 0, Leading) == Scan(s, 0, Signed(false));
    assert Scan(s, 0, Signed(false)) == Scan(s, 0, Run(false, false, None));
    assert s[0..1] == [s[0]] && s[0..1][..0] == [];
    ScanDecimalRun(s, 0, 1, false);
    assert s[0..] == s;
    DigitsValueOfNatToString(n);
  }

  /** `parseInt(String(i)) === i` for every integer, negative ones included. */
  lemma ParseIntOfIntToString(i: int)
    ensures ParseInt(IntToString(i)) == Some(i)
  {
    if i >= 0 {
      ParseIntOfNatToString(i);
    } else {
      var d := NatToString(-i);
      var s := IntToString(i);
      assert s == "-" + d && s[1..] == d;
      assert IsDigit(s[1]);
      assert Scan(s, 0, Leading) == Scan(s, 1, Signed(true));
      assert Scan(s, 1, Signed(true)) == Scan(s, 1, Run(true, false, None));
      assert s[1..2] == [s[1]] && s[1..2][..0] == [];
      assert AllDigits(s[1..]);
      ScanDecimalRun(s, 1, 2, true);
      DigitsValueOfNatToString(-i);
    }
  }

  /** An empty or blank field reads as NaN. */
  lemma ParseIntOfBlank(s: string)
    requires forall i :: 0 <= i < |s| ==> IsJsWhitespace(s[i])
    ensures ParseInt(s) == None
  {
    BlankScan(s, 0);
  }

  lemma {:induction false} BlankScan(s: string, i: nat)
    requires i <= |s|
    requires forall k :: i <= k < |s| ==> IsJsWhitespace(s[k])
    ensures Scan(s, i, Leading) == None
    decreases |s| - i
  {
    if i < |s| {
      BlankScan(s, i + 1);
    } else {
      assert Scan(s, i, Signed(false)) == Scan(s, i, Run(false, false, None));
    }
  }

  // ---------------------------------------------------------------------------
  // Exactly-one selection (`.single()`)

  /** A set with one element is that element's singleton. */
  lemma SingletonIs<T>(s: set<T>, x: T)
    requires |s| == 1 && x in s
    ensures s == {x}
  {
    assert |s - {x}| == 0;
  }

  /** The element of a one-element set; nothing for an empty set or a larger one. */
  function Only<T(==)>(s: set<T>): (r: Option<T>)
    ensures r.Some? <==> |s| == 1
    ensures r.Some? ==> s == {r.value}
  {
    if |s| == 1 then
      var x :| x in s;
      SingletonIs(s, x);
      Some(x)
    else None
  }
}
