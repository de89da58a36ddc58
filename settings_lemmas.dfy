/**
 * Properties of the rewrite that mini_settings_set performs, proved about
 * the functions of SettingsSpec (which SettingsSet.SetSized is proved to
 * compute).
 */
module SettingsLemmas {
  import opened Ascii
  import opened SettingsSpec

  // ---------------------------------------------------------------------
  // Line splitting and joining

  /** No line holds a '\n': every line ends where memchr stopped. */
  lemma {:induction false} LinesAtNoNewline(s: seq<char>, begin: nat, k: nat)
    requires begin <= |s| && k < |LinesAt(s, begin)|
    ensures '\n' !in LinesAt(s, begin)[k]
    decreases |s| - begin
  {
    var e := MemChr(s, begin, |s|, '\n');
    if e < |s| {
      LinesAtInner(s, begin);
      if k > 0 {
        LinesAtNoNewline(s, e + 1, k - 1);
        assert LinesAt(s, begin)[k] == LinesAt(s, e + 1)[k - 1];
      } else {
        FirstLineNoNewline(s, begin);
      }
    } else {
      LinesAtLast(s, begin);
      FirstLineNoNewline(s, begin);
    }
  }

  /** The bytes memchr skipped hold no '\n'. */
  lemma FirstLineNoNewline(s: seq<char>, begin: nat)
    requires begin <= |s|
    ensures '\n' !in s[begin..MemChr(s, begin, |s|, '\n')]
  {
    var e := MemChr(s, begin, |s|, '\n');
    MemChrSkipped(s, begin, |s|, '\n');
    assert forall i :: 0 <= i < e - begin ==> s[begin..e][i] == s[begin + i];
  }

  lemma LinesNoNewline(s: seq<char>, k: nat)
    requires k < |Lines(s)|
    ensures '\n' !in Lines(s)[k]
  {
    LinesAtNoNewline(s, 0, k);
  }

  /** Joining the first line to the rest. */
  lemma JoinCons(x: seq<char>, rest: seq<seq<char>>)
    ensures Join([x] + rest) == x + ['\n'] + Join(rest)
  {
    JoinAppend([x], rest);
    assert [x][..0] == [];
  }

  /** Cutting the text at a '\n'. */
  lemma CutAtNewline(s: seq<char>, begin: nat, e: nat, tail: seq<char>)
    requires begin <= e < |s| && s[e] == '\n'
    ensures s[begin..e] + ['\n'] + (s[e + 1..] + tail) == s[begin..] + tail
  {
    assert s[begin..] == s[begin..e] + [s[e]] + s[e + 1..];
  }

  /** The newline ending text's last byte, if it is missing. */
  function Terminator(s: seq<char>): seq<char>
    requires s != []
  {
    if s[|s| - 1] == '\n' then [] else ['\n']
  }

  /**
   * A proof device: Join (the definition) recomputed from the front, the way
   * LinesAt cuts the text; JoinFrontIsJoin shows the two agree.
   */
  function JoinFront(ls: seq<seq<char>>): seq<char> {
    if ls == [] then [] else ls[0] + ['\n'] + JoinFront(ls[1..])
  }

  lemma {:induction false} JoinFrontIsJoin(ls: seq<seq<char>>)
    ensures JoinFront(ls) == Join(ls)
    decreases |ls|
  {
    if ls != [] {
      JoinFrontIsJoin(ls[1..]);
      JoinCons(ls[0], ls[1..]);
      assert [ls[0]] + ls[1..] == ls;
    }
  }

  /** A line ended by a '\n' of the text, joined in front of the lines after it. */
  lemma JoinFrontStep(s: seq<char>, begin: nat, e: nat, rest: seq<seq<char>>, tail: seq<char>)
    requires begin <= e < |s| && s[e] == '\n'
    requires JoinFront(rest) == s[e + 1..] + tail
    ensures JoinFront([s[begin..e]] + rest) == s[begin..] + tail
  {
    assert ([s[begin..e]] + rest)[1..] == rest;
    CutAtNewline(s, begin, e, tail);
  }

  /** A line ended by a '\n' that is not the text's last byte. */
  lemma JoinInnerLine(s: seq<char>, begin: nat)
    requires begin < |s| && MemChr(s, begin, |s|, '\n') + 1 < |s|
    requires JoinFront(LinesAt(s, MemChr(s, begin, |s|, '\n') + 1))
          == s[MemChr(s, begin, |s|, '\n') + 1..] + Terminator(s)
    ensures JoinFront(LinesAt(s, begin)) == s[begin..] + Terminator(s)
  {
    var e := MemChr(s, begin, |s|, '\n');
    LinesAtInner(s, begin);
    JoinFrontStep(s, begin, e, LinesAt(s, e + 1), Terminator(s));
  }

  /** The last line, ended by the text's final '\n'. */
  lemma JoinLastLine(s: seq<char>, begin: nat)
    requires begin < |s| && MemChr(s, begin, |s|, '\n') + 1 == |s|
    ensures JoinFront(LinesAt(s, begin)) == s[begin..] + Terminator(s)
  {
    var e := MemChr(s, begin, |s|, '\n');
    LinesAtInner(s, begin);
    assert LinesAt(s, e + 1) == [];
    assert s[e + 1..] + Terminator(s) == [];
    JoinFrontStep(s, begin, e, [], Terminator(s));
  }

  /** The last line, with no '\n' after it. */
  lemma JoinUnterminatedLine(s: seq<char>, begin: nat)
    requires begin < |s| && MemChr(s, begin, |s|, '\n') == |s|
    ensures JoinFront(LinesAt(s, begin)) == s[begin..] + Terminator(s)
  {
    LinesAtLast(s, begin);
    MemChrSkipped(s, begin, |s|, '\n');
    assert Terminator(s) == ['\n'];
    assert JoinFront([s[begin..]]) == s[begin..] + ['\n'] + JoinFront([]);
  }

  /**
   * Joining the lines gives the text back, with one '\n' added when the
   * last line was not terminated: a final '\n' opens no extra line.
   */
  lemma {:induction false} JoinLinesAt(s: seq<char>, begin: nat)
    requires begin < |s|
    ensures JoinFront(LinesAt(s, begin)) == s[begin..] + Terminator(s)
    decreases |s| - begin
  {
    var e := MemChr(s, begin, |s|, '\n');
    if e + 1 < |s| {
      JoinLinesAt(s, e + 1);
      JoinInnerLine(s, begin);
    } else if e + 1 == |s| {
      JoinLastLine(s, begin);
    } else {
      JoinUnterminatedLine(s, begin);
    }
  }

  lemma JoinLines(s: seq<char>)
    ensures Join(Lines(s)) == s + (if s == [] || s[|s| - 1] == '\n' then [] else ['\n'])
  {
    if s != [] {
      JoinLinesAt(s, 0);
      JoinFrontIsJoin(Lines(s));
      assert s[0..] == s;
    }
  }

  // ---------------------------------------------------------------------
  // One line

  /** The first byte that is not whitespace is a '#'. */
  predicate IsComment(line: seq<char>) {
    exists i :: 0 <= i < |line| && line[i] == '#' && AllSpace(line[..i])
  }

  /** A line that validation rejects: not blank, not a comment, and without '='. */
  predicate Rejected(line: seq<char>) {
    !AllSpace(line) && !IsComment(line) && '=' !in line
  }

  /** Where the scan's first skip stops tells blank lines and comments apart. */
  lemma FirstNonSpace(line: seq<char>)
    ensures var start := SkipLeadingWhitespace(line, 0, |line|);
      && (AllSpace(line) <==> start == |line|)
      && (IsComment(line) <==> start < |line| && line[start] == '#')
  {
    var start := SkipLeadingWhitespace(line, 0, |line|);
    LeadingSkipped(line, 0, |line|);
    if start < |line| && line[start] == '#' {
      assert AllSpace(line[..start]) by {
        assert forall k :: 0 <= k < start ==> line[..start][k] == line[k];
      }
    }
  }

  /**
   * A line without '=' is kept verbatim, unless validation is on and the
   * line is neither blank nor a comment, in which case it is rejected.
   */
  lemma ClassifyWithoutEquals(line: seq<char>, pairs: seq<seq<char>>, validate: bool)
    requires ValidPairs(pairs)
    requires '=' !in line
    ensures Classify(line, pairs, validate) == if validate && Rejected(line) then NoValue else Verbatim
  {
    FirstNonSpace(line);
  }

  /** Bytes the two leading skips pass over are whitespace or the comment's '#'. */
  lemma KeyStartSkipped(line: seq<char>, start: nat)
    requires start == SkipLeadingWhitespace(line, 0, |line|) && start < |line|
    ensures var keyBegin := if line[start] == '#' then SkipLeadingWhitespace(line, start + 1, |line|) else start;
      forall i :: 0 <= i < keyBegin ==> IsSpace(line[i]) || line[i] == '#'
  {
    LeadingSkipped(line, 0, |line|);
    if line[start] == '#' {
      LeadingSkipped(line, start + 1, |line|);
    }
  }

  /** A line with '=' is never rejected: it is a setting, replaced or kept. */
  lemma ClassifyWithEquals(line: seq<char>, pairs: seq<seq<char>>, validate: bool)
    requires ValidPairs(pairs)
    requires '=' in line
    ensures Shape(line).Setting?
    ensures Classify(line, pairs, validate) != NoValue
  {
    var j :| 0 <= j < |line| && line[j] == '=';
    var start := SkipLeadingWhitespace(line, 0, |line|);
    LeadingSkipped(line, 0, |line|);
    assert start <= j;
    KeyStartSkipped(line, start);
    var keyBegin := if line[start] == '#' then SkipLeadingWhitespace(line, start + 1, |line|) else start;
    assert keyBegin <= j;
    MemChrSkipped(line, keyBegin, |line|, '=');
  }

  /** What a well-formed key looks like: not empty, no '=', no whitespace at either end. */
  predicate IsKey(key: seq<char>) {
    key != [] && !IsSpace(key[0]) && !IsSpace(key[|key| - 1]) && '=' !in key
  }

  /**
   * The scan of a line whose key occupies [keyBegin, keyEnd), with only
   * whitespace before it (after an optional '#') and between it and the
   * first '='.
   */
  lemma SettingShape(line: seq<char>, start: nat, keyBegin: nat, keyEnd: nat, eqPos: nat)
    requires start <= keyBegin < keyEnd <= eqPos < |line|
    requires forall i :: 0 <= i < start ==> IsSpace(line[i])
    requires start < keyBegin ==> line[start] == '#' && forall i :: start < i < keyBegin ==> IsSpace(line[i])
    requires start == keyBegin ==> line[start] != '#'
    requires IsKey(line[keyBegin..keyEnd])
    requires forall i :: keyEnd <= i < eqPos ==> IsSpace(line[i])
    requires line[eqPos] == '='
    ensures Shape(line) == Setting(keyBegin, keyEnd)
  {
    var key := line[keyBegin..keyEnd];
    assert !IsSpace(line[keyBegin]) && !IsSpace(line[keyEnd - 1]) by {
      assert key[0] == line[keyBegin] && key[|key| - 1] == line[keyEnd - 1];
    }
    SkipLeadingIs(line, 0, |line|, start);
    if start < keyBegin {
      SkipLeadingIs(line, start + 1, |line|, keyBegin);
    }
    assert forall i :: keyBegin <= i < keyEnd ==> line[i] != '=' by {
      assert forall i :: keyBegin <= i < keyEnd ==> line[i] == key[i - keyBegin];
    }
    MemChrIs(line, keyBegin, |line|, '=', eqPos);
    SkipTrailingIs(line, keyBegin, eqPos, keyEnd);
  }

  /**
   * A setting line `key = value` (whitespace allowed around the key) is
   * replaced by the first requested pair with that key, and kept when the
   * key is not requested.
   */
  lemma SettingReplaced(lead: seq<char>, key: seq<char>, mid: seq<char>, value: seq<char>,
                        pairs: seq<seq<char>>, validate: bool)
    requires ValidPairs(pairs)
    requires AllSpace(lead) && AllSpace(mid) && IsKey(key) && key[0] != '#'
    ensures var line := lead + key + mid + ['='] + value;
      && (FindKey(pairs, key).Some? ==> Classify(line, pairs, validate) == Replace(FindKey(pairs, key).value))
      && (FindKey(pairs, key).None? ==> Classify(line, pairs, validate) == Verbatim)
  {
    var line := lead + key + mid + ['='] + value;
    var a := |lead|;
    var b := a + |key|;
    var c := b + |mid|;
    assert forall i :: 0 <= i < a ==> line[i] == lead[i];
    assert forall i :: b <= i < c ==> line[i] == mid[i - b];
    assert line[a..b] == key;
    SettingShape(line, a, a, b, c);
  }

  /**
   * The same setting behind a '#' is replaced too (the '#' is not kept),
   * and is kept as it is when the key is not requested.
   */
  lemma CommentedSettingReplaced(lead: seq<char>, lead2: seq<char>, key: seq<char>, mid: seq<char>,
                                 value: seq<char>, pairs: seq<seq<char>>, validate: bool)
    requires ValidPairs(pairs)
    requires AllSpace(lead) && AllSpace(lead2) && AllSpace(mid) && IsKey(key)
    ensures var line := lead + ['#'] + lead2 + key + mid + ['='] + value;
      && (FindKey(pairs, key).Some? ==> Classify(line, pairs, validate) == Replace(FindKey(pairs, key).value))
      && (FindKey(pairs, key).None? ==> Classify(line, pairs, validate) == Verbatim)
  {
    var line := lead + ['#'] + lead2 + key + mid + ['='] + value;
    var a := |lead|;
    var k := a + 1 + |lead2|;
    var b := k + |key|;
    var c := b + |mid|;
    assert forall i :: 0 <= i < a ==> line[i] == lead[i];
    assert forall i :: a < i < k ==> line[i] == lead2[i - a - 1];
    assert forall i :: b <= i < c ==> line[i] == mid[i - b];
    assert line[k..b] == key by {
      assert forall i :: 0 <= i < |key| ==> line[k..b][i] == line[k + i] == key[i];
    }
    SettingShape(line, a, k, b, c);
  }

  /**
   * A line whose first non-whitespace byte is '=' has the empty key: it is
   * replaced by the first requested pair whose key is empty, and kept when
   * no such pair is requested.
   */
  lemma EmptyKeyReplaced(lead: seq<char>, value: seq<char>, pairs: seq<seq<char>>, validate: bool)
    requires ValidPairs(pairs) && AllSpace(lead)
    ensures var line := lead + ['='] + value;
      && (FindKey(pairs, []).Some? ==> Classify(line, pairs, validate) == Replace(FindKey(pairs, []).value))
      && (FindKey(pairs, []).None? ==> Classify(line, pairs, validate) == Verbatim)
  {
    var line := lead + ['='] + value;
    var a := |lead|;
    assert forall i :: 0 <= i < a ==> line[i] == lead[i];
    SkipLeadingIs(line, 0, |line|, a);
    MemChrIs(line, a, |line|, '=', a);
    assert line[a..a] == [];
  }

  /** The same behind a '#': `# = value` has the empty key too. */
  lemma CommentedEmptyKeyReplaced(lead: seq<char>, lead2: seq<char>, value: seq<char>,
                                  pairs: seq<seq<char>>, validate: bool)
    requires ValidPairs(pairs) && AllSpace(lead) && AllSpace(lead2)
    ensures var line := lead + ['#'] + lead2 + ['='] + value;
      && (FindKey(pairs, []).Some? ==> Classify(line, pairs, validate) == Replace(FindKey(pairs, []).value))
      && (FindKey(pairs, []).None? ==> Classify(line, pairs, validate) == Verbatim)
  {
    var line := lead + ['#'] + lead2 + ['='] + value;
    var a := |lead|;
    var k := a + 1 + |lead2|;
    assert forall i :: 0 <= i < a ==> line[i] == lead[i];
    assert forall i :: a < i < k ==> line[i] == lead2[i - a - 1];
    SkipLeadingIs(line, 0, |line|, a);
    SkipLeadingIs(line, a + 1, |line|, k);
    MemChrIs(line, k, |line|, '=', k);
    assert line[k..k] == [];
  }

  /** Validation rejects exactly the lines that are not blank, not comments and have no '='. */
  lemma ClassifyRejects(line: seq<char>, pairs: seq<seq<char>>, validate: bool)
    requires ValidPairs(pairs)
    ensures Classify(line, pairs, validate) == NoValue <==> validate && Rejected(line)
  {
    if '=' in line {
      ClassifyWithEquals(line, pairs, validate);
    } else {
      ClassifyWithoutEquals(line, pairs, validate);
    }
  }

  /** A replacement always names the first requested slot of some key. */
  lemma ReplaceIsFirstSlot(line: seq<char>, pairs: seq<seq<char>>, validate: bool, j: nat)
    requires ValidPairs(pairs)
    ensures var kind := Classify(line, pairs, validate);
      kind.Replace? && j < kind.slot && j % 2 == 0 ==> pairs[j] != pairs[kind.slot]
  {
    if Classify(line, pairs, validate).Replace? {
      var sh := Shape(line);
      assert FindKey(pairs, line[sh.keyBegin..sh.keyEnd]).Some?;
    }
  }

  // ---------------------------------------------------------------------
  // The whole rewrite

  /** A leading byte-order mark is dropped before the scan and never reaches the output. */
  lemma BomDropped(s: seq<char>, pairs: seq<seq<char>>, validate: bool)
    requires ValidPairs(pairs)
    ensures Rewrite(Utf8Bom + s, pairs, validate) == RewriteBody(s, pairs, validate)
  {
    assert (Utf8Bom + s)[..3] == Utf8Bom;
    assert (Utf8Bom + s)[3..] == s;
  }

  /** Contents without a byte-order mark are scanned from their first byte. */
  lemma NoBomKept(contents: seq<char>, pairs: seq<seq<char>>, validate: bool)
    requires ValidPairs(pairs) && !StartsWithBom(contents)
    ensures Rewrite(contents, pairs, validate) == RewriteBody(contents, pairs, validate)
  {
  }

  /**
   * The rewrite fails exactly when validation is on and some line is
   * rejected; the error names the first such line, 1-based, and its bytes.
   */
  lemma FailureIff(body: seq<char>, pairs: seq<seq<char>>, validate: bool)
    requires ValidPairs(pairs)
    ensures var lines := Lines(body);
      RewriteBody(body, pairs, validate).Failure?
      <==> validate && exists k :: 0 <= k < |lines| && Rejected(lines[k])
    ensures var lines := Lines(body);
      var r := RewriteBody(body, pairs, validate);
      r.Failure? ==>
        && 1 <= r.error.lineNum <= |lines|
        && r.error.line == lines[r.error.lineNum - 1]
        && Rejected(r.error.line)
        && forall k :: 0 <= k < r.error.lineNum - 1 ==> !Rejected(lines[k])
  {
    var lines := Lines(body);
    var kinds := Kinds(lines, pairs, validate);
    KindsAt(lines, pairs, validate);
    forall k | 0 <= k < |lines|
      ensures kinds[k].NoValue? <==> validate && Rejected(lines[k])
    {
      ClassifyRejects(lines[k], pairs, validate);
    }
    if validate && exists k :: 0 <= k < |lines| && Rejected(lines[k]) {
      var k :| 0 <= k < |lines| && Rejected(lines[k]);
      assert kinds[k].NoValue?;
    }
  }

  /** With no requested pairs, no line matches: every line decision is to keep it. */
  lemma NothingRequested(line: seq<char>)
    ensures Classify(line, [], false) == Verbatim
  {
    var sh := Shape(line);
    if sh.Setting? {
      assert FindKey([], line[sh.keyBegin..sh.keyEnd]) == None;
    }
  }

  /**
   * Pass-through: with no pairs and no validation the output is the
   * contents without their byte-order mark, plus a '\n' when the last line
   * lacked one.
   */
  lemma PassThrough(contents: seq<char>)
    ensures var body := contents[SkipUtf8Bom(contents)..];
      Rewrite(contents, [], false)
      == Success(body + (if body == [] || body[|body| - 1] == '\n' then [] else ['\n']))
  {
    var body := contents[SkipUtf8Bom(contents)..];
    var lines := Lines(body);
    var kinds := Kinds(lines, [], false);
    KindsAt(lines, [], false);
    forall k | 0 <= k < |lines|
      ensures kinds[k] == Verbatim
    {
      NothingRequested(lines[k]);
    }
    assert FirstMissing(kinds) == None;
    var rendered := Rendered(lines, kinds, []);
    assert rendered == lines;
    assert AppendedSlots(Written(kinds), 0) == [];
    assert OutputLines(lines, [], false) == lines;
    JoinLines(body);
    assert RewriteBody(body, [], false) == Success(Join(lines));
  }

  /** With nothing written, every pair number below `n` is appended, in order. */
  lemma {:induction false} AllAppended(n: nat)
    ensures |AppendedSlots({}, n)| == n
    ensures forall k :: 0 <= k < n ==> AppendedSlots({}, n)[k] == k
  {
    if n > 0 {
      AllAppended(n - 1);
    }
  }

  /** Empty contents: the output is every requested pair, in request order. */
  lemma EmptyBody(pairs: seq<seq<char>>, validate: bool)
    requires ValidPairs(pairs)
    ensures var slots := AppendedSlots({}, |pairs| / 2);
      && |slots| == |pairs| / 2
      && (forall k :: 0 <= k < |slots| ==> slots[k] == k)
      && RewriteBody([], pairs, validate) == Success(Join(KvTexts(pairs, slots)))
  {
    AllAppended(|pairs| / 2);
    var lines: seq<seq<char>> := Lines([]);
    assert lines == [];
    var kinds := Kinds(lines, pairs, validate);
    KindsAt(lines, pairs, validate);
    assert kinds == [];
    assert FirstMissing(kinds) == None;
    assert Written(kinds) == {};
    assert Rendered([], kinds, pairs) == [];
    var slots := AppendedSlots({}, |pairs| / 2);
    assert OutputLines(lines, pairs, validate) == [] + KvTexts(pairs, slots) == KvTexts(pairs, slots);
    assert RewriteBody([], pairs, validate) == Success(Join(OutputLines(lines, pairs, validate)));
  }

  /** Every requested pair reaches the output: as a replaced line or appended at the end. */
  lemma EveryPairOutput(lines: seq<seq<char>>, pairs: seq<seq<char>>, validate: bool, p: nat)
    requires ValidPairs(pairs) && p < |pairs| / 2
    ensures KvText(pairs, 2 * p) in OutputLines(lines, pairs, validate)
  {
    var kinds := Kinds(lines, pairs, validate);
    WrittenFit(kinds, pairs);
    var rendered := Rendered(lines, kinds, pairs);
    var texts := KvTexts(pairs, AppendedSlots(Written(kinds), |pairs| / 2));
    var x := KvText(pairs, 2 * p);
    WrittenIff(kinds, p);
    if p in Written(kinds) {
      var k :| 0 <= k < |kinds| && kinds[k] == Replace(2 * p);
      assert rendered[k] == x;
    } else {
      var slots := AppendedSlots(Written(kinds), |pairs| / 2);
      AppendedSlotsIff(Written(kinds), |pairs| / 2, p);
      var j :| 0 <= j < |slots| && slots[j] == p;
      assert texts[j] == x;
    }
    InEitherPart(rendered, texts, x);
  }

  /** An element of either part is an element of the concatenation. */
  lemma InEitherPart<T>(a: seq<T>, b: seq<T>, x: T)
    requires x in a || x in b
    ensures x in a + b
  {
  }

  /**
   * A key requested twice: lines only ever match its first request, so the
   * later request is always appended at the end as a line of its own.
   */
  lemma DuplicateRequestAppended(lines: seq<seq<char>>, pairs: seq<seq<char>>, validate: bool, p: nat, q: nat)
    requires ValidPairs(pairs) && p < q < |pairs| / 2 && pairs[2 * p] == pairs[2 * q]
    ensures q in AppendedSlots(Written(Kinds(lines, pairs, validate)), |pairs| / 2)
  {
    var kinds := Kinds(lines, pairs, validate);
    KindsAt(lines, pairs, validate);
    forall k | 0 <= k < |kinds|
      ensures kinds[k] != Replace(2 * q)
    {
      NeverLaterDuplicate(lines[k], pairs, validate, p, q);
    }
    WrittenIff(kinds, q);
    AppendedSlotsIff(Written(kinds), |pairs| / 2, q);
  }

  /** No line is ever replaced by a later request of a key already requested. */
  lemma NeverLaterDuplicate(line: seq<char>, pairs: seq<seq<char>>, validate: bool, p: nat, q: nat)
    requires ValidPairs(pairs) && p < q < |pairs| / 2 && pairs[2 * p] == pairs[2 * q]
    ensures Classify(line, pairs, validate) != Replace(2 * q)
  {
    var j := 2 * p;
    assert j % 2 == 0;
    ReplaceIsFirstSlot(line, pairs, validate, j);
  }

  /**
   * Each input line yields the output line at the same position: its
   * replacement `key=value` when its key is requested, the line itself
   * otherwise; the replacement's key is the line's trimmed key.
   */
  lemma LineOutput(lines: seq<seq<char>>, pairs: seq<seq<char>>, validate: bool, k: nat)
    requires ValidPairs(pairs) && k < |lines|
    ensures var out := OutputLines(lines, pairs, validate);
      var kind := Classify(lines[k], pairs, validate);
      && k < |out|
      && (kind.Replace? ==>
            var sh := Shape(lines[k]);
            sh.Setting? && pairs[kind.slot] == lines[k][sh.keyBegin..sh.keyEnd]
            && out[k] == KvText(pairs, kind.slot))
      && (!kind.Replace? ==> out[k] == lines[k])
  {
    var kinds := Kinds(lines, pairs, validate);
    KindsAt(lines, pairs, validate);
    WrittenFit(kinds, pairs);
    var rendered := Rendered(lines, kinds, pairs);
    var out := OutputLines(lines, pairs, validate);
    assert out[k] == rendered[k];
  }

  // ---------------------------------------------------------------------
  // The error text

  /** The decimal digits of a line number read back as that number. */
  lemma {:induction false} DecimalRoundTrip(n: nat)
    ensures DecimalValue(Decimal(n)) == n
  {
    if n >= 10 {
      DecimalRoundTrip(n / 10);
      var d := Decimal(n);
      assert d[..|d| - 1] == Decimal(n / 10);
    }
  }

  /** A number below 10^w has at most w digits. */
  lemma {:induction false} DecimalWidth(n: nat, w: nat)
    requires w >= 1 && n < Pow10(w)
    ensures |Decimal(n)| <= w
  {
    if n >= 10 {
      assert Pow10(1) == 10;
      assert w != 1;
      DecimalWidth(n / 10, w - 1);
    }
  }

  function Pow10(w: nat): (r: nat)
    ensures r >= 1
  {
    if w == 0 then 1 else 10 * Pow10(w - 1)
  }

  /**
   * The message for any line number a size_t can hold, NUL included, fits
   * the 128 + line-length bytes the C code allocates, so snprintf never
   * truncates it.
   */
  lemma MessageFits(e: SetError)
    requires e.lineNum < 0x1_0000_0000_0000_0000
    ensures |Message(e)| + 1 <= 128 + |e.line|
  {
    assert Pow10(5) == 100_000;
    assert Pow10(10) == 10_000_000_000;
    DecimalWidth(e.lineNum, 20);
  }
}
