/** Character classes and whitespace trimming, as the scorer uses them.

    `std::isspace` and `std::toupper` are taken in the "C" locale: only the six
    ASCII white-space characters count as space, and only `a`..`z` change case.
    Each `char` of a Dafny string stands for one byte of the C++ `std::string`.
 */
module Text {

  /** C-locale `isspace`: space, tab, line feed, vertical tab, form feed, carriage return. */
  predicate IsSpace(c: char)
    ensures IsSpace(c) <==> c == ' ' || '\t' <= c <= '\r'
  {
    c == ' ' || c == '\t' || c == '\n' || c == '\U{0B}' || c == '\U{0C}' || c == '\r'
  }

  predicate IsLowerAscii(c: char) {
    'a' <= c <= 'z'
  }

  /** Every character of `s` at an index in `[lo, hi)` is white space. */
  predicate SpaceBetween(s: string, lo: int, hi: int) {
    forall m :: lo <= m < hi && 0 <= m < |s| ==> IsSpace(s[m])
  }

  predicate AllSpace(s: string) {
    SpaceBetween(s, 0, |s|)
  }

  /** C-locale `toupper`: lower-case ASCII letters move to their capital, all else is kept. */
  function ToUpper(c: char): (u: char)
    ensures !IsLowerAscii(u)
    ensures IsLowerAscii(c) ==> 'A' <= u <= 'Z' && u as int + 32 == c as int
    ensures !IsLowerAscii(c) ==> u == c
  {
    if IsLowerAscii(c) then (c as int - 32) as char else c
  }

  /** The index the forward scan stops at: the first index from `i` on that is not space. */
  function SkipSpace(s: string, i: nat): (k: nat)
    requires i <= |s|
    ensures i <= k <= |s|
    ensures SpaceBetween(s, i, k)
    ensures k < |s| ==> !IsSpace(s[k])
    decreases |s| - i
  {
    if i < |s| && IsSpace(s[i]) then SkipSpace(s, i + 1) else i
  }

  /** The index the backward scan stops at: moving down from `j` past space, never
      below `lo`. */
  function BackSpace(s: string, lo: nat, j: nat): (k: nat)
    requires lo <= j <= |s|
    ensures lo <= k <= j
    ensures SpaceBetween(s, k, j)
    ensures k > lo ==> !IsSpace(s[k - 1])
    decreases j
  {
    if j > lo && IsSpace(s[j - 1]) then BackSpace(s, lo, j - 1) else j
  }

  /** The first index the trimmed text starts at. */
  function TrimStart(s: string): (i: nat)
    ensures i <= |s|
  {
    SkipSpace(s, 0)
  }

  /** The index the trimmed text ends at. */
  function TrimEnd(s: string): (j: nat)
    ensures TrimStart(s) <= j <= |s|
  {
    BackSpace(s, TrimStart(s), |s|)
  }

  /** `trim`: white space removed from both ends. */
  function Trim(s: string): (r: string)
    ensures |r| <= |s|
    ensures |r| > 0 ==> !IsSpace(r[0]) && !IsSpace(r[|r| - 1])
    ensures r == [] <==> AllSpace(s)
  {
    s[TrimStart(s)..TrimEnd(s)]
  }

  /** `trim` returns a contiguous slice of its input; everything cut on either side is white space. */
  lemma TrimIsSlice(s: string)
    ensures var i, r := TrimStart(s), Trim(s);
            && i + |r| <= |s|
            && r == s[i..i + |r|]
            && SpaceBetween(s, 0, i)
            && SpaceBetween(s, i + |r|, |s|)
  {
  }

  /** `trim` is determined by the slice property: any slice of `s` whose two ends are not
      space and outside which there is only space is exactly `Trim(s)`. */
  lemma TrimUnique(s: string, i: nat, j: nat)
    requires i <= j <= |s|
    requires SpaceBetween(s, 0, i) && SpaceBetween(s, j, |s|)
    requires i < j ==> !IsSpace(s[i]) && !IsSpace(s[j - 1])
    ensures Trim(s) == s[i..j]
  {
    if i == j {
      assert AllSpace(s);
    }
  }

  /** Trimming twice changes nothing more than trimming once. */
  lemma TrimIdempotent(s: string)
    ensures Trim(Trim(s)) == Trim(s)
  {
    var r := Trim(s);
    TrimUnique(r, 0, |r|);
  }

  /** `trim` as the source writes it: one index moves forward past leading space, the other
      backward past trailing space but never below the first. */
  method TrimScan(s: string) returns (r: string)
    ensures r == Trim(s)
  {
    var start := 0;
    while start < |s| && IsSpace(s[start])
      invariant 0 <= start <= |s|
      invariant SkipSpace(s, start) == TrimStart(s)
    {
      start := start + 1;
    }
    var end := |s|;
    while end > start && IsSpace(s[end - 1])
      invariant start <= end <= |s|
      invariant BackSpace(s, start, end) == TrimEnd(s)
    {
      end := end - 1;
    }
    r := s[start..end];
  }
}
