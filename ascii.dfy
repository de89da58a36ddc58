/**
 * Byte-level scanning helpers the rewriter relies on.
 *
 * The whitespace and byte-order-mark helpers come from mini_settings_ascii.h,
 * which is not part of this model: the definitions below are ASSUMED, not
 * verified against that header. Whitespace is taken to be the set of bytes
 * that C's `isspace` accepts in the "C" locale, and the byte-order mark is
 * the UTF-8 encoding of U+FEFF (bytes EF BB BF). `MemChr` models the C
 * library's `memchr`.
 *
 * A byte is modelled as a `char` whose code is the byte's value, so a C
 * buffer `[begin, end)` is a `seq<char>` with a pair of indices.
 */
module Ascii {

  /** Assumed definition: the six bytes `isspace` accepts in the "C" locale. */
  predicate IsSpace(c: char) {
    c == ' ' || c == '\t' || c == '\n' || c == '\U{B}' || c == '\U{C}' || c == '\r'
  }

  predicate AllSpace(s: seq<char>) {
    forall k :: 0 <= k < |s| ==> IsSpace(s[k])
  }

  /** Assumed definition: the UTF-8 byte-order mark. */
  const Utf8Bom: seq<char> := ['\U{EF}', '\U{BB}', '\U{BF}']

  predicate StartsWithBom(s: seq<char>) {
    |s| >= 3 && s[..3] == Utf8Bom
  }

  /** Offset of the first byte after an optional leading byte-order mark. */
  function SkipUtf8Bom(s: seq<char>): (r: nat)
    ensures r <= |s|
    ensures StartsWithBom(s) ==> s[r..] == s[3..]
    ensures !StartsWithBom(s) ==> s[r..] == s
  {
    if StartsWithBom(s) then 3 else 0
  }

  /** First index in [begin, end) that is not whitespace, or `end`. */
  function SkipLeadingWhitespace(s: seq<char>, begin: nat, end: nat): (r: nat)
    requires begin <= end <= |s|
    ensures begin <= r <= end
    ensures r < end ==> !IsSpace(s[r])
    decreases end - begin
  {
    if begin < end && IsSpace(s[begin]) then SkipLeadingWhitespace(s, begin + 1, end) else begin
  }

  /** End of [begin, end) once trailing whitespace is dropped. */
  function SkipTrailingWhitespace(s: seq<char>, begin: nat, end: nat): (r: nat)
    requires begin <= end <= |s|
    ensures begin <= r <= end
    ensures begin < r ==> !IsSpace(s[r - 1])
    decreases end - begin
  {
    if begin < end && IsSpace(s[end - 1]) then SkipTrailingWhitespace(s, begin, end - 1) else end
  }

  /** memchr over [begin, end): the index of the first `c`, or `end` (NULL) when there is none. */
  function MemChr(s: seq<char>, begin: nat, end: nat, c: char): (r: nat)
    requires begin <= end <= |s|
    ensures begin <= r <= end
    ensures r < end ==> s[r] == c
    decreases end - begin
  {
    if begin == end || s[begin] == c then begin else MemChr(s, begin + 1, end, c)
  }

  // What each scan skipped over. These are lemmas rather than postconditions
  // so that the quantifiers enter a proof only where it asks for them.

  /** Everything SkipLeadingWhitespace skips is whitespace. */
  lemma {:induction false} LeadingSkipped(s: seq<char>, begin: nat, end: nat)
    requires begin <= end <= |s|
    ensures forall i :: begin <= i < SkipLeadingWhitespace(s, begin, end) ==> IsSpace(s[i])
    decreases end - begin
  {
    if begin < end && IsSpace(s[begin]) {
      LeadingSkipped(s, begin + 1, end);
    }
  }

  /** Everything SkipTrailingWhitespace drops is whitespace. */
  lemma {:induction false} TrailingSkipped(s: seq<char>, begin: nat, end: nat)
    requires begin <= end <= |s|
    ensures forall i :: SkipTrailingWhitespace(s, begin, end) <= i < end ==> IsSpace(s[i])
    decreases end - begin
  {
    if begin < end && IsSpace(s[end - 1]) {
      TrailingSkipped(s, begin, end - 1);
    }
  }

  /** MemChr finds the first `c`: none comes before it. */
  lemma {:induction false} MemChrSkipped(s: seq<char>, begin: nat, end: nat, c: char)
    requires begin <= end <= |s|
    ensures forall i :: begin <= i < MemChr(s, begin, end, c) ==> s[i] != c
    decreases end - begin
  {
    if begin < end && s[begin] != c {
      MemChrSkipped(s, begin + 1, end, c);
    }
  }

  // The three scanners are determined by what they skip and where they
  // stop; the lemmas below say so, which is what moves a scan from one
  // buffer to another.

  lemma {:induction false} SkipLeadingIs(s: seq<char>, begin: nat, end: nat, r: nat)
    requires begin <= r <= end <= |s|
    requires forall i :: begin <= i < r ==> IsSpace(s[i])
    requires r < end ==> !IsSpace(s[r])
    ensures SkipLeadingWhitespace(s, begin, end) == r
    decreases end - begin
  {
    if begin < r {
      SkipLeadingIs(s, begin + 1, end, r);
    }
  }

  lemma {:induction false} SkipTrailingIs(s: seq<char>, begin: nat, end: nat, r: nat)
    requires begin <= r <= end <= |s|
    requires forall i :: r <= i < end ==> IsSpace(s[i])
    requires begin < r ==> !IsSpace(s[r - 1])
    ensures SkipTrailingWhitespace(s, begin, end) == r
    decreases end - begin
  {
    if r < end {
      SkipTrailingIs(s, begin, end - 1, r);
    }
  }

  lemma {:induction false} MemChrIs(s: seq<char>, begin: nat, end: nat, c: char, r: nat)
    requires begin <= r <= end <= |s|
    requires forall i :: begin <= i < r ==> s[i] != c
    requires r < end ==> s[r] == c
    ensures MemChr(s, begin, end, c) == r
    decreases end - begin
  {
    if begin < r {
      MemChrIs(s, begin + 1, end, c, r);
    }
  }
}
