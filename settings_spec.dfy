/**
 * What mini_settings_set computes, as functions over byte sequences.
 *
 * The contents (minus an optional leading byte-order mark) are cut into
 * lines at '\n'; each line is classified on its own (kept verbatim, replaced
 * by a requested `key=value`, or rejected for lacking `=`); the output is the
 * kept or replaced lines, then one `key=value` line per requested pair that
 * no input line matched, every line followed by exactly one '\n'.
 *
 * Requested pairs are a flat sequence: keys at even indices, each followed
 * by its value. A pair is named by its "slot" (the key's index, always even)
 * or by its pair number (slot / 2), as the C code's `written` flags are.
 */
module SettingsSpec {
  import opened Ascii

  datatype Option<+T> = None | Some(value: T)

  /** The only error: a setting line without `=` while validating (1-based line number, the line's bytes). */
  datatype SetError = MissingValue(lineNum: nat, line: seq<char>)

  datatype SetResult = Success(contents: seq<char>) | Failure(error: SetError)

  /** How the rewriter treats one input line. */
  datatype LineKind = Verbatim | Replace(slot: nat) | NoValue

  predicate ValidPairs(pairs: seq<seq<char>>) {
    |pairs| % 2 == 0
  }

  // ---------------------------------------------------------------------
  // Lines

  /**
   * The lines of s[begin..]: from `begin` up to the next '\n' (or the end),
   * then the lines after that '\n'. A final '\n' opens no extra line.
   */
  function LinesAt(s: seq<char>, begin: nat): (ls: seq<seq<char>>)
    requires begin <= |s|
    ensures ls == [] <==> begin == |s|
    decreases |s| - begin
  {
    if begin == |s| then []
    else
      var e := MemChr(s, begin, |s|, '\n');
      [s[begin..e]] + (if e < |s| then LinesAt(s, e + 1) else [])
  }

  /** Regrouping a concatenation, proved away from any particular sequences. */
  lemma AppendAssoc<T>(a: seq<T>, b: seq<T>, c: seq<T>)
    ensures a + (b + c) == a + b + c
  {
  }

  /** A line ended by a '\n', then the lines after it. */
  lemma LinesAtInner(s: seq<char>, begin: nat)
    requires begin < |s| && MemChr(s, begin, |s|, '\n') < |s|
    ensures var e := MemChr(s, begin, |s|, '\n');
      LinesAt(s, begin) == [s[begin..e]] + LinesAt(s, e + 1)
  {
  }

  /** The last line, when no '\n' follows it. */
  lemma LinesAtLast(s: seq<char>, begin: nat)
    requires begin < |s| && MemChr(s, begin, |s|, '\n') == |s|
    ensures LinesAt(s, begin) == [s[begin..|s|]]
  {
    assert LinesAt(s, begin) == [s[begin..|s|]] + [];
  }

  /** The lines of `s`, cut at each '\n'. */
  function Lines(s: seq<char>): (ls: seq<seq<char>>)
    ensures ls == [] <==> s == []
  {
    LinesAt(s, 0)
  }

  /** Each line followed by one '\n'. */
  function Join(ls: seq<seq<char>>): (r: seq<char>)
    ensures r == [] <==> ls == []
    ensures r != [] ==> r[|r| - 1] == '\n'
  {
    if ls == [] then [] else Join(ls[..|ls| - 1]) + ls[|ls| - 1] + ['\n']
  }

  /** Joining distributes over concatenation. */
  lemma {:induction false} JoinAppend(a: seq<seq<char>>, b: seq<seq<char>>)
    ensures Join(a + b) == Join(a) + Join(b)
    decreases |b|
  {
    if b == [] {
      assert a + b == a;
    } else {
      var n := |b| - 1;
      calc {
        Join(a + b);
        == { assert (a + b)[..|a + b| - 1] == a + b[..n]; assert (a + b)[|a + b| - 1] == b[n]; }
        Join(a + b[..n]) + b[n] + ['\n'];
        == { JoinAppend(a, b[..n]); }
        Join(a) + Join(b[..n]) + b[n] + ['\n'];
        Join(a) + (Join(b[..n]) + b[n] + ['\n']);
      }
    }
  }

  // ---------------------------------------------------------------------
  // Key lookup (find_kv)

  function FindKeyFrom(pairs: seq<seq<char>>, key: seq<char>, start: nat): (r: Option<nat>)
    requires start % 2 == 0
    ensures r.Some? ==> start <= r.value < |pairs| && r.value % 2 == 0 && pairs[r.value] == key
    ensures forall j :: start <= j < |pairs| && j % 2 == 0 && pairs[j] == key ==> r.Some? && r.value <= j
    decreases |pairs| - start
  {
    if start >= |pairs| then None
    else if pairs[start] == key then Some(start)
    else FindKeyFrom(pairs, key, start + 2)
  }

  /** The smallest even index whose key is byte-for-byte `key`, or None. */
  function FindKey(pairs: seq<seq<char>>, key: seq<char>): (r: Option<nat>)
    ensures r.Some? ==> r.value < |pairs| && r.value % 2 == 0 && pairs[r.value] == key
    ensures r.Some? ==> forall j :: 0 <= j < r.value && j % 2 == 0 ==> pairs[j] != key
    ensures r.None? <==> forall j :: 0 <= j < |pairs| && j % 2 == 0 ==> pairs[j] != key
  {
    FindKeyFrom(pairs, key, 0)
  }

  // ---------------------------------------------------------------------
  // One line

  /** The shape of a line, as the scan sees it. */
  datatype LineShape =
    | Blank                          // empty or only whitespace
    | BareComment                    // whitespace, '#', whitespace
    | NoEquals(commented: bool)      // something after that, but no '='
    | Setting(keyBegin: nat, keyEnd: nat)  // the trimmed key before the first '='

  /**
   * Skip leading whitespace; a '#' marks a comment and is skipped together
   * with the whitespace after it; the key runs from there to the first '=',
   * minus trailing whitespace.
   */
  function Shape(line: seq<char>): (sh: LineShape)
    ensures sh.Setting? ==> sh.keyBegin <= sh.keyEnd <= |line|
  {
    var start := SkipLeadingWhitespace(line, 0, |line|);
    if start == |line| then Blank
    else
      var commented := line[start] == '#';
      var keyBegin := if commented then SkipLeadingWhitespace(line, start + 1, |line|) else start;
      if keyBegin == |line| then BareComment
      else
        var eqPos := MemChr(line, keyBegin, |line|, '=');
        if eqPos == |line| then NoEquals(commented)
        else Setting(keyBegin, SkipTrailingWhitespace(line, keyBegin, eqPos))
  }

  /**
   * The per-line decision: blank lines and bare comments are kept; a line
   * without '=' is kept if it is a comment or validation is off, and is
   * rejected otherwise; a line with '=' whose key is requested is replaced,
   * whether it is commented or not, and is kept otherwise.
   */
  function Classify(line: seq<char>, pairs: seq<seq<char>>, validate: bool): (k: LineKind)
    requires ValidPairs(pairs)
    ensures k.Replace? ==> k.slot % 2 == 0 && k.slot + 1 < |pairs|
  {
    match Shape(line)
    case Blank => Verbatim
    case BareComment => Verbatim
    case NoEquals(commented) => if commented || !validate then Verbatim else NoValue
    case Setting(keyBegin, keyEnd) =>
      match FindKey(pairs, line[keyBegin..keyEnd])
      case None => Verbatim
      case Some(i) => Replace(i)
  }

  /** The `key=value` text of the pair at `slot`, without its '\n'. */
  function KvText(pairs: seq<seq<char>>, slot: nat): seq<char>
    requires slot + 1 < |pairs|
  {
    pairs[slot] + ['='] + pairs[slot + 1]
  }

  /** Every replacement names a slot whose value exists. */
  predicate SlotsFit(kinds: seq<LineKind>, pairs: seq<seq<char>>) {
    forall k :: 0 <= k < |kinds| && kinds[k].Replace? ==> kinds[k].slot % 2 == 0 && kinds[k].slot + 1 < |pairs|
  }

  /** The decision for every line, in order. */
  function Kinds(lines: seq<seq<char>>, pairs: seq<seq<char>>, validate: bool): (ks: seq<LineKind>)
    requires ValidPairs(pairs)
    ensures |ks| == |lines|
    ensures SlotsFit(ks, pairs)
  {
    if lines == [] then []
    else Kinds(lines[..|lines| - 1], pairs, validate) + [Classify(lines[|lines| - 1], pairs, validate)]
  }

  /** Each line's decision is made on that line alone. */
  lemma {:induction false} KindsAt(lines: seq<seq<char>>, pairs: seq<seq<char>>, validate: bool)
    requires ValidPairs(pairs)
    ensures forall k :: 0 <= k < |lines| ==> Kinds(lines, pairs, validate)[k] == Classify(lines[k], pairs, validate)
  {
    if lines != [] {
      KindsAt(lines[..|lines| - 1], pairs, validate);
    }
  }

  /** The output line (without its '\n') for an input line of the given kind. */
  function OutputLine(line: seq<char>, kind: LineKind, pairs: seq<seq<char>>): seq<char>
    requires kind.Replace? ==> kind.slot + 1 < |pairs|
  {
    match kind
    case Replace(i) => KvText(pairs, i)
    case _ => line
  }

  /** The output lines for the input lines, in input order. */
  function Rendered(lines: seq<seq<char>>, kinds: seq<LineKind>, pairs: seq<seq<char>>): (r: seq<seq<char>>)
    requires |kinds| == |lines| && SlotsFit(kinds, pairs)
    ensures |r| == |lines|
    ensures forall k :: 0 <= k < |lines| ==> r[k] == OutputLine(lines[k], kinds[k], pairs)
  {
    if lines == [] then []
    else
      var n := |lines| - 1;
      Rendered(lines[..n], kinds[..n], pairs) + [OutputLine(lines[n], kinds[n], pairs)]
  }

  /** The pair numbers (slot / 2) that some line replaced: the C code's `written` flags. */
  function Written(kinds: seq<LineKind>): (w: set<nat>)
  {
    if kinds == [] then {}
    else
      var w := Written(kinds[..|kinds| - 1]);
      var last := kinds[|kinds| - 1];
      if last.Replace? then w + {last.slot / 2} else w
  }

  /** Pair `p` is written exactly when some line is replaced by its (even) slot. */
  lemma {:induction false} WrittenIff(kinds: seq<LineKind>, p: nat)
    requires forall k :: 0 <= k < |kinds| && kinds[k].Replace? ==> kinds[k].slot % 2 == 0
    ensures p in Written(kinds) <==> exists k :: 0 <= k < |kinds| && kinds[k] == Replace(2 * p)
  {
    if kinds != [] {
      var n := |kinds| - 1;
      var prev := kinds[..n];
      WrittenIff(prev, p);
      if p in Written(prev) {
        var k :| 0 <= k < |prev| && prev[k] == Replace(2 * p);
        assert kinds[k] == Replace(2 * p);
      } else if exists k :: 0 <= k < |kinds| && kinds[k] == Replace(2 * p) {
        var k :| 0 <= k < |kinds| && kinds[k] == Replace(2 * p);
        if k < n {
          assert prev[k] == Replace(2 * p);
        }
      }
    }
  }

  /** Written pair numbers have a value to go with them. */
  lemma {:induction false} WrittenFit(kinds: seq<LineKind>, pairs: seq<seq<char>>)
    requires SlotsFit(kinds, pairs)
    ensures forall p :: p in Written(kinds) ==> 2 * p + 1 < |pairs|
  {
    if kinds != [] {
      WrittenFit(kinds[..|kinds| - 1], pairs);
    }
  }

  /** The first line that validation rejects, if any. */
  function FirstMissing(kinds: seq<LineKind>): (r: Option<nat>)
    ensures r.Some? ==> r.value < |kinds| && kinds[r.value].NoValue?
    ensures forall k :: 0 <= k < |kinds| && kinds[k].NoValue? ==> r.Some? && r.value <= k
  {
    if kinds == [] then None
    else if kinds[0].NoValue? then Some(0)
    else
      match FirstMissing(kinds[1..])
      case None => None
      case Some(j) => Some(j + 1)
  }

  /** The pair numbers below `n` not in `written`, in increasing order. */
  function AppendedSlots(written: set<nat>, n: nat): (r: seq<nat>)
    ensures forall k :: 0 <= k < |r| ==> r[k] < n
  {
    if n == 0 then []
    else AppendedSlots(written, n - 1) + (if n - 1 in written then [] else [n - 1])
  }

  /** AppendedSlots holds exactly the pair numbers below `n` that are not written... */
  lemma {:induction false} AppendedSlotsIff(written: set<nat>, n: nat, p: nat)
    ensures p in AppendedSlots(written, n) <==> p < n && p !in written
  {
    if n > 0 {
      AppendedSlotsIff(written, n - 1, p);
    }
  }

  /** ...in strictly increasing order, so each at most once. */
  lemma {:induction false} AppendedSlotsIncreasing(written: set<nat>, n: nat, k: nat, l: nat)
    requires k < l < |AppendedSlots(written, n)|
    ensures AppendedSlots(written, n)[k] < AppendedSlots(written, n)[l]
  {
    var prev := AppendedSlots(written, n - 1);
    var r := AppendedSlots(written, n);
    if n - 1 in written {
      assert r == prev + [] == prev;
      AppendedSlotsIncreasing(written, n - 1, k, l);
    } else {
      assert r == prev + [n - 1];
      assert r[k] == prev[k] < n - 1;
      if l < |prev| {
        AppendedSlotsIncreasing(written, n - 1, k, l);
      }
    }
  }

  /** The `key=value` texts of the given pair numbers, in the same order. */
  function KvTexts(pairs: seq<seq<char>>, nums: seq<nat>): (r: seq<seq<char>>)
    requires forall k :: 0 <= k < |nums| ==> 2 * nums[k] + 1 < |pairs|
    ensures |r| == |nums|
    ensures forall k :: 0 <= k < |nums| ==> r[k] == KvText(pairs, 2 * nums[k])
  {
    if nums == [] then []
    else KvTexts(pairs, nums[..|nums| - 1]) + [KvText(pairs, 2 * nums[|nums| - 1])]
  }

  /** All output lines of a successful rewrite of `lines`. */
  function OutputLines(lines: seq<seq<char>>, pairs: seq<seq<char>>, validate: bool): seq<seq<char>>
    requires ValidPairs(pairs)
  {
    var kinds := Kinds(lines, pairs, validate);
    WrittenFit(kinds, pairs);
    Rendered(lines, kinds, pairs) + KvTexts(pairs, AppendedSlots(Written(kinds), |pairs| / 2))
  }

  /**
   * The rewrite of BOM-free contents: every output line ends in '\n', and
   * only validation fails, naming one of the lines by its 1-based number.
   */
  function RewriteBody(body: seq<char>, pairs: seq<seq<char>>, validate: bool): (r: SetResult)
    requires ValidPairs(pairs)
    ensures r.Success? ==> r.contents == [] || r.contents[|r.contents| - 1] == '\n'
    ensures r.Failure? ==>
              && validate
              && 1 <= r.error.lineNum <= |Lines(body)|
              && r.error.line == Lines(body)[r.error.lineNum - 1]
  {
    var lines := Lines(body);
    KindsAt(lines, pairs, validate);
    match FirstMissing(Kinds(lines, pairs, validate))
    case Some(j) => Failure(MissingValue(j + 1, lines[j]))
    case None => Success(Join(OutputLines(lines, pairs, validate)))
  }

  /** mini_settings_set_sized: a leading byte-order mark is dropped, the rest rewritten. */
  function Rewrite(contents: seq<char>, pairs: seq<seq<char>>, validate: bool): (r: SetResult)
    requires ValidPairs(pairs)
    ensures r.Success? ==> r.contents == [] || r.contents[|r.contents| - 1] == '\n'
    ensures r.Failure? ==> validate && r.error.lineNum >= 1
  {
    RewriteBody(contents[SkipUtf8Bom(contents)..], pairs, validate)
  }

  // ---------------------------------------------------------------------
  // The error text

  function DigitChar(d: nat): (c: char)
    requires d < 10
    ensures '0' <= c <= '9'
  {
    ('0' as int + d) as char
  }

  /** The decimal rendering of `n` (as `%zu` prints it). */
  function Decimal(n: nat): (r: seq<char>)
    ensures |r| >= 1
    ensures forall k :: 0 <= k < |r| ==> '0' <= r[k] <= '9'
    ensures r[0] == '0' ==> n == 0
  {
    if n < 10 then [DigitChar(n)] else Decimal(n / 10) + [DigitChar(n % 10)]
  }

  /** Reads back a run of decimal digits. */
  function DecimalValue(s: seq<char>): nat
    requires forall k :: 0 <= k < |s| ==> '0' <= s[k] <= '9'
  {
    if s == [] then 0 else DecimalValue(s[..|s| - 1]) * 10 + (s[|s| - 1] as int - '0' as int)
  }

  /**
   * The message the C code formats for a rejected line that holds no NUL
   * byte (`%.*s` would stop at the first one).
   */
  function Message(e: SetError): seq<char> {
    "Invalid config file: key '" + e.line + "' has no value on line " + Decimal(e.lineNum)
  }
}
