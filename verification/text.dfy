/**
 * Character classes and scanning helpers over `seq<char>` shared by the
 * header, signature and commit parsers: C `isspace`/`isdigit`/`isxdigit`
 * classes, forward search for a delimiter, whitespace trimming, backward
 * word scanning, and decimal numerals.
 */
module Text {
  import opened Results

  // ---------------------------------------------------------------------
  // Character classes

  /**
   * Whitespace as the C library's `isspace` classifies it in the "C" locale:
   * the space and the five control characters tab, newline, vertical tab,
   * form feed and carriage return, which are contiguous.
   */
  predicate IsSpace(c: char) {
    c == ' ' || '\t' <= c <= '\r'
  }

  predicate IsDigit(c: char) {
    '0' <= c <= '9'
  }

  predicate IsHexDigit(c: char) {
    IsDigit(c) || 'a' <= c <= 'f' || 'A' <= c <= 'F'
  }

  predicate IsLowerHexDigit(c: char) {
    IsDigit(c) || 'a' <= c <= 'f'
  }

  predicate AllSpace(s: seq<char>) {
    forall i | 0 <= i < |s| :: IsSpace(s[i])
  }

  predicate NoSpace(s: seq<char>) {
    forall i | 0 <= i < |s| :: !IsSpace(s[i])
  }

  predicate AllDigits(s: seq<char>) {
    forall i | 0 <= i < |s| :: IsDigit(s[i])
  }

  predicate AllHex(s: seq<char>) {
    forall i | 0 <= i < |s| :: IsHexDigit(s[i])
  }

  predicate AllLowerHex(s: seq<char>) {
    forall i | 0 <= i < |s| :: IsLowerHexDigit(s[i])
  }

  /** Neither starts nor ends with whitespace. */
  predicate IsTrimmed(s: seq<char>) {
    |s| == 0 || (!IsSpace(s[0]) && !IsSpace(s[|s| - 1]))
  }

  // ---------------------------------------------------------------------
  // Digits

  function DigitValue(c: char): (v: nat)
    requires IsDigit(c)
    ensures v < 10
  {
    c as int - '0' as int
  }

  function DigitChar(v: nat): (c: char)
    requires v < 10
    ensures IsDigit(c) && DigitValue(c) == v
  {
    ('0' as int + v) as char
  }

  /** Digit characters and their values are in one-to-one correspondence. */
  lemma DigitCharOfValue(c: char)
    requires IsDigit(c)
    ensures DigitChar(DigitValue(c)) == c
  {
  }

  function HexValue(c: char): (v: nat)
    requires IsHexDigit(c)
    ensures v < 16
    ensures IsDigit(c) <==> v < 10
  {
    if IsDigit(c) then DigitValue(c)
    else if 'a' <= c <= 'f' then c as int - 'a' as int + 10
    else c as int - 'A' as int + 10
  }

  /** The lower-case hexadecimal digit of a value below 16. */
  function LowerHexChar(v: nat): (c: char)
    requires v < 16
    ensures IsLowerHexDigit(c) && IsHexDigit(c) && HexValue(c) == v
  {
    if v < 10 then DigitChar(v) else ('a' as int + (v - 10)) as char
  }

  /** A hexadecimal digit folded to lower case. */
  function ToLowerHex(c: char): (r: char)
    requires IsHexDigit(c)
    ensures IsLowerHexDigit(r) && IsHexDigit(r) && HexValue(r) == HexValue(c)
    ensures IsLowerHexDigit(c) ==> r == c
  {
    if IsLowerHexDigit(c) then c else LowerHexChar(HexValue(c))
  }

  /** Lower-case digits are exactly the digits that `LowerHexChar` produces. */
  lemma LowerHexCharOfValue(c: char)
    requires IsLowerHexDigit(c)
    ensures LowerHexChar(HexValue(c)) == c
  {
    if IsDigit(c) {
      DigitCharOfValue(c);
    }
  }

  function LowerHex(s: seq<char>): (r: seq<char>)
    requires AllHex(s)
    ensures |r| == |s| && AllLowerHex(r)
    ensures forall i | 0 <= i < |s| :: HexValue(r[i]) == HexValue(s[i])
  {
    seq(|s|, i requires 0 <= i < |s| => ToLowerHex(s[i]))
  }

  // ---------------------------------------------------------------------
  // Forward search

  /** The first position in [lo, hi) holding `c`, if any (C `memchr`). */
  function IndexOf(s: seq<char>, c: char, lo: nat, hi: nat): (r: Option<nat>)
    requires lo <= hi <= |s|
    ensures r.Some? ==> lo <= r.value < hi && s[r.value] == c
    decreases hi - lo
  {
    if lo == hi then None
    else if s[lo] == c then Some(lo)
    else IndexOf(s, c, lo + 1, hi)
  }

  /** `IndexOf` finds the first `c`: there is none before it, and none at all when it finds nothing. */
  lemma {:induction false} IndexOfFirst(s: seq<char>, c: char, lo: nat, hi: nat)
    requires lo <= hi <= |s|
    ensures IndexOf(s, c, lo, hi).Some? ==> forall k | lo <= k < IndexOf(s, c, lo, hi).value :: s[k] != c
    ensures IndexOf(s, c, lo, hi).None? ==> forall k | lo <= k < hi :: s[k] != c
    decreases hi - lo
  {
    if lo < hi && s[lo] != c {
      IndexOfFirst(s, c, lo + 1, hi);
    }
  }

  /** A `c` at `k` with none before it in [lo, k) is the one `IndexOf` finds. */
  lemma IndexOfAt(s: seq<char>, c: char, lo: nat, k: nat, hi: nat)
    requires lo <= k < hi <= |s| && s[k] == c
    requires forall j | lo <= j < k :: s[j] != c
    ensures IndexOf(s, c, lo, hi) == Some(k)
  {
    IndexOfFirst(s, c, lo, hi);
  }

  /** `s` holds `w` at `pos`. */
  predicate HasAt(s: seq<char>, pos: nat, w: seq<char>) {
    pos + |w| <= |s| && forall i | 0 <= i < |w| :: s[pos + i] == w[i]
  }

  /** `HasAt` is the slice comparison, stated position by position. */
  lemma HasAtSlice(s: seq<char>, pos: nat, w: seq<char>)
    ensures HasAt(s, pos, w) <==> pos + |w| <= |s| && s[pos..pos + |w|] == w
  {
    if pos + |w| <= |s| && s[pos..pos + |w|] == w {
      forall i | 0 <= i < |w|
        ensures s[pos + i] == w[i]
      {
        assert s[pos..pos + |w|][i] == s[pos + i];
      }
    }
  }

  /** A character absent from every position of a range is absent from that slice. */
  lemma NotInSlice(s: seq<char>, c: char, lo: nat, hi: nat)
    requires lo <= hi <= |s|
    requires forall k | lo <= k < hi :: s[k] != c
    ensures c !in s[lo..hi]
  {
    forall i | 0 <= i < hi - lo
      ensures s[lo..hi][i] != c
    {
      assert s[lo..hi][i] == s[lo + i];
    }
  }

  // ---------------------------------------------------------------------
  // Skipping whitespace
  //
  // The scanners' contracts only bound their results; what lies in the
  // ranges they skip is stated by separate lemmas, called where it is needed.

  /** The first position of s[lo..hi] that is not whitespace, or `hi`. */
  function SkipSpace(s: seq<char>, lo: nat, hi: nat): (b: nat)
    requires lo <= hi <= |s|
    ensures lo <= b <= hi
    ensures b == hi || !IsSpace(s[b])
    decreases hi - lo
  {
    if lo == hi || !IsSpace(s[lo]) then lo else SkipSpace(s, lo + 1, hi)
  }

  /** Everything `SkipSpace` skips is whitespace. */
  lemma {:induction false} SkipSpaceSkipsSpace(s: seq<char>, lo: nat, hi: nat)
    requires lo <= hi <= |s|
    ensures forall k | lo <= k < SkipSpace(s, lo, hi) :: IsSpace(s[k])
    decreases hi - lo
  {
    if lo < hi && IsSpace(s[lo]) {
      SkipSpaceSkipsSpace(s, lo + 1, hi);
    }
  }

  /** The end of s[lo..hi] once trailing whitespace is dropped. */
  function SkipSpaceBack(s: seq<char>, lo: nat, hi: nat): (e: nat)
    requires lo <= hi <= |s|
    ensures lo <= e <= hi
    ensures e == lo || !IsSpace(s[e - 1])
    decreases hi - lo
  {
    if hi == lo || !IsSpace(s[hi - 1]) then hi else SkipSpaceBack(s, lo, hi - 1)
  }

  /** Everything `SkipSpaceBack` drops is whitespace. */
  lemma {:induction false} SkipSpaceBackSkipsSpace(s: seq<char>, lo: nat, hi: nat)
    requires lo <= hi <= |s|
    ensures forall k | SkipSpaceBack(s, lo, hi) <= k < hi :: IsSpace(s[k])
    decreases hi - lo
  {
    if lo < hi && IsSpace(s[hi - 1]) {
      SkipSpaceBackSkipsSpace(s, lo, hi - 1);
    }
  }

  /** Whitespace up to `b` and a non-space at `b` (or the end) fix where skipping stops. */
  lemma SkipSpaceIs(s: seq<char>, lo: nat, b: nat, hi: nat)
    requires lo <= b <= hi <= |s|
    requires forall k | lo <= k < b :: IsSpace(s[k])
    requires b == hi || !IsSpace(s[b])
    ensures SkipSpace(s, lo, hi) == b
  {
    SkipSpaceSkipsSpace(s, lo, hi);
  }

  /** Whitespace from `e` on and a non-space before `e` (or the start) fix where skipping back stops. */
  lemma SkipSpaceBackIs(s: seq<char>, lo: nat, e: nat, hi: nat)
    requires lo <= e <= hi <= |s|
    requires forall k | e <= k < hi :: IsSpace(s[k])
    requires e == lo || !IsSpace(s[e - 1])
    ensures SkipSpaceBack(s, lo, hi) == e
  {
    SkipSpaceBackSkipsSpace(s, lo, hi);
  }

  // ---------------------------------------------------------------------
  // Trimming

  /** `s` without its leading and trailing whitespace. */
  function Trim(s: seq<char>): (r: seq<char>)
    ensures IsTrimmed(r) && |r| <= |s|
  {
    var e := SkipSpaceBack(s, 0, |s|);
    s[SkipSpace(s, 0, e)..e]
  }

  /** Trimming only removes characters: one absent from `s` is absent from `Trim(s)`. */
  lemma TrimKeepsOut(s: seq<char>, c: char)
    requires c !in s
    ensures c !in Trim(s)
  {
    var e := SkipSpaceBack(s, 0, |s|);
    var b := SkipSpace(s, 0, e);
    forall i | 0 <= i < e - b
      ensures s[b..e][i] != c
    {
      assert s[b..e][i] == s[b + i];
    }
  }

  /** Trimming removes exactly the surrounding whitespace and keeps the rest verbatim. */
  lemma TrimPadded(lead: seq<char>, core: seq<char>, trail: seq<char>)
    requires AllSpace(lead) && AllSpace(trail) && IsTrimmed(core)
    ensures Trim(lead + core + trail) == core
  {
    var s := lead + core + trail;
    var b := |lead|;
    var e := b + |core|;
    assert forall k | 0 <= k < b :: s[k] == lead[k];
    assert forall k | b <= k < e :: s[k] == core[k - b];
    assert forall k | e <= k < |s| :: s[k] == trail[k - e];
    if |core| == 0 {
      SkipSpaceBackIs(s, 0, 0, |s|);
      SkipSpaceIs(s, 0, 0, 0);
    } else {
      SkipSpaceBackIs(s, 0, e, |s|);
      SkipSpaceIs(s, 0, b, e);
      assert s[b..e] == core;
    }
  }

  /** Trimming an already trimmed text changes nothing. */
  lemma TrimIdempotent(s: seq<char>)
    ensures Trim(Trim(s)) == Trim(s)
  {
    var t := Trim(s);
    assert [] + t + [] == t;
    TrimPadded([], t, []);
  }

  // ---------------------------------------------------------------------
  // Backward word scanning

  /** The start of the run of non-whitespace characters that ends at `hi`. */
  function WordStartBack(s: seq<char>, lo: nat, hi: nat): (b: nat)
    requires lo <= hi <= |s|
    ensures lo <= b <= hi
    ensures b == lo || IsSpace(s[b - 1])
    decreases hi - lo
  {
    if hi == lo || IsSpace(s[hi - 1]) then hi else WordStartBack(s, lo, hi - 1)
  }

  /** Everything `WordStartBack` steps over is non-whitespace. */
  lemma {:induction false} WordStartBackSkipsWord(s: seq<char>, lo: nat, hi: nat)
    requires lo <= hi <= |s|
    ensures forall k | WordStartBack(s, lo, hi) <= k < hi :: !IsSpace(s[k])
    decreases hi - lo
  {
    if lo < hi && !IsSpace(s[hi - 1]) {
      WordStartBackSkipsWord(s, lo, hi - 1);
    }
  }

  /** The range of the last whitespace-delimited word of s[lo..hi], if any. */
  function LastWord(s: seq<char>, lo: nat, hi: nat): (r: Option<(nat, nat)>)
    requires lo <= hi <= |s|
    ensures r.Some? ==> lo <= r.value.0 < r.value.1 <= hi
    ensures r.Some? ==> !IsSpace(s[r.value.1 - 1]) && (r.value.0 == lo || IsSpace(s[r.value.0 - 1]))
  {
    var e := SkipSpaceBack(s, lo, hi);
    if e == lo then None else Some((WordStartBack(s, lo, e), e))
  }

  /**
   * There is no last word exactly when the range is all whitespace; a last
   * word is free of whitespace and followed only by whitespace.
   */
  lemma LastWordSpan(s: seq<char>, lo: nat, hi: nat)
    requires lo <= hi <= |s|
    ensures LastWord(s, lo, hi).None? <==> forall k | lo <= k < hi :: IsSpace(s[k])
    ensures LastWord(s, lo, hi).Some? ==>
              var (b, e) := LastWord(s, lo, hi).value;
              && (forall k | b <= k < e :: !IsSpace(s[k]))
              && (forall k | e <= k < hi :: IsSpace(s[k]))
  {
    var e := SkipSpaceBack(s, lo, hi);
    SkipSpaceBackSkipsSpace(s, lo, hi);
    if e > lo {
      WordStartBackSkipsWord(s, lo, e);
      assert !IsSpace(s[e - 1]);
    }
  }

  /**
   * A word [b, e) followed only by whitespace up to `hi`, and preceded by
   * whitespace or by `lo`, is the last word of s[lo..hi].
   */
  lemma LastWordIs(s: seq<char>, lo: nat, b: nat, e: nat, hi: nat)
    requires lo <= b < e <= hi <= |s|
    requires forall k | b <= k < e :: !IsSpace(s[k])
    requires forall k | e <= k < hi :: IsSpace(s[k])
    requires b == lo || IsSpace(s[b - 1])
    ensures LastWord(s, lo, hi) == Some((b, e))
  {
    SkipSpaceBackIs(s, lo, e, hi);
    WordStartBackSkipsWord(s, lo, e);
  }

  // ---------------------------------------------------------------------
  // Decimal numerals

  /** The value of the decimal numeral s[..n]. */
  function DecimalPrefix(s: seq<char>, n: nat): nat
    requires n <= |s|
    requires forall i | 0 <= i < n :: IsDigit(s[i])
    decreases n
  {
    if n == 0 then 0 else DecimalPrefix(s, n - 1) * 10 + DigitValue(s[n - 1])
  }

  function DecimalValue(s: seq<char>): nat
    requires AllDigits(s)
  {
    DecimalPrefix(s, |s|)
  }

  /** The shortest decimal numeral of `n`. */
  function ShowNat(n: nat): (r: seq<char>)
    ensures |r| > 0 && AllDigits(r)
    ensures |r| == 1 || r[0] != '0'
    decreases n
  {
    if n < 10 then [DigitChar(n)] else ShowNat(n / 10) + [DigitChar(n % 10)]
  }

  lemma {:induction false} DecimalPrefixLocal(s: seq<char>, t: seq<char>, n: nat)
    requires n <= |s| && n <= |t| && s[..n] == t[..n]
    requires forall i | 0 <= i < n :: IsDigit(s[i])
    ensures forall i | 0 <= i < n :: IsDigit(t[i])
    ensures DecimalPrefix(s, n) == DecimalPrefix(t, n)
    decreases n
  {
    assert forall i | 0 <= i < n :: s[i] == s[..n][i] == t[..n][i] == t[i];
    if n > 0 {
      assert s[..n - 1] == s[..n][..n - 1] == t[..n][..n - 1] == t[..n - 1];
      DecimalPrefixLocal(s, t, n - 1);
    }
  }

  /** Reading back the rendered numeral gives the number. */
  lemma {:induction false} DecimalOfShowNat(n: nat)
    ensures DecimalValue(ShowNat(n)) == n
    decreases n
  {
    if n >= 10 {
      var a := ShowNat(n / 10);
      var s := a + [DigitChar(n % 10)];
      assert ShowNat(n) == s;
      assert s[..|a|] == a[..|a|];
      DecimalPrefixLocal(s, a, |a|);
      DecimalOfShowNat(n / 10);
    }
  }
}
