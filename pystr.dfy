/** The few Python `str` operations that URL construction relies on, as
    functions on `string`: substring search (`sep in s`), `s.split(sep, 1)`,
    and `int(s)` restricted to ASCII decimal digits. */
module PyStr {

  datatype Option<+T> = None | Some(value: T)

  lemma ConcatAssoc(a: string, b: string, c: string)
    ensures a + b + c == a + (b + c)
  {
  }

  /** `pat` occurs in `s` starting at index `i`. */
  predicate OccursAt(s: string, pat: string, i: nat)
  {
    i + |pat| <= |s| && s[i..i + |pat|] == pat
  }

  /** Index of the first occurrence of `pat` in `s` at or after `from`. */
  function FindFrom(s: string, pat: string, from: nat): Option<nat>
    decreases |s| - from
  {
    if |s| < from + |pat| then None
    else if OccursAt(s, pat, from) then Some(from)
    else FindFrom(s, pat, from + 1)
  }

  lemma {:induction false} FindFromFirst(s: string, pat: string, from: nat)
    ensures var r := FindFrom(s, pat, from);
      && (r.Some? ==> from <= r.value && OccursAt(s, pat, r.value))
      && (r.Some? ==> forall j: nat :: from <= j < r.value ==> !OccursAt(s, pat, j))
      && (r.None? ==> forall j: nat :: from <= j ==> !OccursAt(s, pat, j))
    decreases |s| - from
  {
    if |s| >= from + |pat| && !OccursAt(s, pat, from) {
      FindFromFirst(s, pat, from + 1);
    }
  }

  /** Python's `s.find(pat)`, with None for -1. */
  function Find(s: string, pat: string): Option<nat>
  {
    FindFrom(s, pat, 0)
  }

  /** `Find` gives the first occurrence, and None exactly when there is none. */
  lemma FindFirst(s: string, pat: string)
    ensures var r := Find(s, pat);
      && (r.Some? ==> OccursAt(s, pat, r.value))
      && (r.Some? ==> forall j: nat :: j < r.value ==> !OccursAt(s, pat, j))
      && (r.None? ==> forall j: nat :: !OccursAt(s, pat, j))
  {
    FindFromFirst(s, pat, 0);
  }

  /** Python's `pat in s`. */
  predicate Contains(s: string, pat: string): (b: bool)
    ensures b <==> exists j: nat :: OccursAt(s, pat, j)
  {
    FindFirst(s, pat);
    Find(s, pat).Some?
  }

  /** For a one-character pattern, occurrence is plain indexing. */
  lemma OccursAtChar(s: string, c: char, i: nat)
    ensures OccursAt(s, [c], i) <==> i < |s| && s[i] == c
  {
    if i < |s| {
      assert s[i..i + 1] == [s[i]];
    }
  }

  /** Python's `s.split(sep, 1)` for a non-empty `sep` (an empty one
      raises): one piece when `sep` does not occur, else the text before and
      after its first occurrence. */
  function SplitOnce(s: string, sep: string): (parts: seq<string>)
    requires |sep| > 0
    ensures 1 <= |parts| <= 2
    ensures |parts| == 1 ==> parts[0] == s
    ensures |parts| == 2 ==> s == parts[0] + sep + parts[1]
  {
    FindFirst(s, sep);
    match Find(s, sep)
    case None => [s]
    case Some(i) =>
      assert s == s[..i] + sep + s[i + |sep|..];
      [s[..i], s[i + |sep|..]]
  }

  /** The split is at the first occurrence of `sep`, and there is a second
      piece exactly when `sep` occurs at all. */
  lemma SplitOnceFirst(s: string, sep: string)
    requires |sep| > 0
    ensures |SplitOnce(s, sep)| == 1 <==> forall j: nat :: !OccursAt(s, sep, j)
    ensures |SplitOnce(s, sep)| == 2 <==> Contains(s, sep)
    ensures |SplitOnce(s, sep)| == 2 ==> OccursAt(s, sep, |SplitOnce(s, sep)[0]|)
    ensures |SplitOnce(s, sep)| == 2 ==>
      forall j: nat :: j < |SplitOnce(s, sep)[0]| ==> !OccursAt(s, sep, j)
  {
    FindFirst(s, sep);
  }

  /** Splitting at a one-character separator: there is a second piece exactly
      when the character occurs, and the first piece does not hold it. */
  lemma SplitOnceChar(s: string, c: char)
    ensures |SplitOnce(s, [c])| == 1 <==> c !in s
    ensures Contains(s, [c]) <==> c in s
    ensures |SplitOnce(s, [c])| == 2 ==> c !in SplitOnce(s, [c])[0]
  {
    var parts := SplitOnce(s, [c]);
    SplitOnceFirst(s, [c]);
    if c in s {
      var i :| 0 <= i < |s| && s[i] == c;
      OccursAtChar(s, c, i);
    }
    if |parts| == 2 {
      var head := parts[0];
      OccursAtChar(s, c, |head|);
      forall k | 0 <= k < |head| ensures head[k] != c {
        OccursAtChar(s, c, k);
        assert head[k] == (head + [c] + parts[1])[k];
      }
    }
  }

  /** The split happens at the first occurrence, whichever index that is. */
  lemma SplitOnceAt(s: string, sep: string, i: nat)
    requires |sep| > 0
    requires OccursAt(s, sep, i)
    requires forall j: nat :: j < i ==> !OccursAt(s, sep, j)
    ensures SplitOnce(s, sep) == [s[..i], s[i + |sep|..]]
  {
    var parts := SplitOnce(s, sep);
    SplitOnceFirst(s, sep);
    assert |parts| == 2;
    assert |parts[0]| == i;
    assert s[..i] == parts[0];
  }

  /** Splitting at the first index holding a one-character separator. */
  lemma SplitOnceCharAt(s: string, c: char, i: nat)
    requires i < |s| && s[i] == c && c !in s[..i]
    ensures SplitOnce(s, [c]) == [s[..i], s[i + 1..]]
  {
    OccursAtChar(s, c, i);
    forall j: nat | j < i ensures !OccursAt(s, [c], j) {
      OccursAtChar(s, c, j);
      assert s[j] == s[..i][j];
    }
    SplitOnceAt(s, [c], i);
  }

  predicate IsDigit(c: char)
  {
    '0' <= c <= '9'
  }

  /** A non-empty run of ASCII decimal digits. */
  predicate IsDecimal(s: string)
  {
    |s| > 0 && forall i :: 0 <= i < |s| ==> IsDigit(s[i])
  }

  /** The value of a digit string, most significant digit first. */
  function DigitsValue(s: string): nat
    requires forall i :: 0 <= i < |s| ==> IsDigit(s[i])
  {
    if s == [] then 0
    else
      assert IsDigit(s[|s| - 1]);
      DigitsValue(s[..|s| - 1]) * 10 + (s[|s| - 1] as int - '0' as int)
  }

  /** Python's `int(s)` on the inputs this model admits: a decimal digit
      string has a value, anything else raises. */
  function ParseInt(s: string): (r: Option<nat>)
    ensures r.Some? <==> IsDecimal(s)
  {
    if IsDecimal(s) then Some(DigitsValue(s)) else None
  }

  function DigitChar(d: nat): (c: char)
    requires d < 10
    ensures IsDigit(c) && c as int - '0' as int == d
  {
    ('0' as int + d) as char
  }

  /** The shortest decimal spelling of `n`, the inverse of `ParseInt`. */
  function DecimalString(n: nat): (r: string)
    ensures IsDecimal(r)
    ensures ':' !in r && '/' !in r
  {
    if n < 10 then [DigitChar(n)]
    else DecimalString(n / 10) + [DigitChar(n % 10)]
  }

  lemma {:induction false} DecimalRoundTrip(n: nat)
    ensures ParseInt(DecimalString(n)) == Some(n)
  {
    var s := DecimalString(n);
    if n < 10 {
      assert s == [DigitChar(n)] && s[..0] == [];
      assert DigitsValue(s) == DigitsValue([]) * 10 + n;
    } else {
      DecimalRoundTrip(n / 10);
      assert s[..|s| - 1] == DecimalString(n / 10);
    }
  }
}
