/**
 * Rewriting the output of a rewrite again, with the same pairs.
 *
 * The output is stable when the requested keys are pairwise different,
 * look like the keys a setting line yields (not empty, no '=', no
 * whitespace at either end, no leading '#'), keys and values hold no '\n',
 * and the output does not itself start with a byte-order mark. A key
 * requested twice breaks it: its later request is appended every time.
 */
module SettingsRoundTrip {
  import opened Ascii
  import opened SettingsSpec
  import opened SettingsLemmas

  // ---------------------------------------------------------------------
  // Splitting joined lines

  /**
   * From `i` on, `s` holds the lines `ls`, each cut by memchr at the '\n'
   * that follows it, and nothing after the last '\n'.
   */
  predicate JoinedFrom(s: seq<char>, i: nat, ls: seq<seq<char>>)
    requires i <= |s|
    decreases |ls|
  {
    if ls == [] then i == |s|
    else
      var e := i + |ls[0]|;
      && e < |s| && MemChr(s, i, |s|, '\n') == e && s[i..e] == ls[0]
      && JoinedFrom(s, e + 1, ls[1..])
  }

  /** One step of the cut: the line memchr finds at `i`, then the lines after it. */
  lemma LinesAtCons(s: seq<char>, i: nat, e: nat, rest: seq<seq<char>>)
    requires i <= e < |s| && MemChr(s, i, |s|, '\n') == e
    requires LinesAt(s, e + 1) == rest
    ensures LinesAt(s, i) == [s[i..e]] + rest
  {
    LinesAtInner(s, i);
  }

  /** The scan from `i` over joined lines gives those lines back. */
  lemma {:induction false} LinesAtJoined(s: seq<char>, i: nat, ls: seq<seq<char>>)
    requires i <= |s| && JoinedFrom(s, i, ls)
    ensures LinesAt(s, i) == ls
    decreases |ls|
  {
    if ls != [] {
      var e := i + |ls[0]|;
      LinesAtJoined(s, e + 1, ls[1..]);
      LinesAtCons(s, i, e, ls[1..]);
      assert ls == [ls[0]] + ls[1..];
    }
  }

  /** The first joined line ends at its own '\n'. */
  lemma JoinedLineEnds(pre: seq<char>, l: seq<char>, rest: seq<char>)
    requires '\n' !in l
    ensures var s := pre + l + ['\n'] + rest;
      && MemChr(s, |pre|, |s|, '\n') == |pre| + |l|
      && s[|pre|..|pre| + |l|] == l
  {
    var s := pre + l + ['\n'] + rest;
    assert forall i :: |pre| <= i < |pre| + |l| ==> s[i] == l[i - |pre|];
    MemChrIs(s, |pre|, |s|, '\n', |pre| + |l|);
  }

  /** Regrouping `pre` before a joined first line. */
  lemma JoinFrontSplit(pre: seq<char>, ls: seq<seq<char>>)
    requires ls != []
    ensures pre + JoinFront(ls) == pre + ls[0] + ['\n'] + JoinFront(ls[1..])
  {
    AppendAssoc(pre, ls[0] + ['\n'], JoinFront(ls[1..]));
    AppendAssoc(pre, ls[0], ['\n']);
  }

  /** JoinedFrom, one line at a time. */
  lemma JoinedFromCons(s: seq<char>, i: nat, ls: seq<seq<char>>)
    requires ls != [] && i + |ls[0]| < |s|
    requires MemChr(s, i, |s|, '\n') == i + |ls[0]| && s[i..i + |ls[0]|] == ls[0]
    requires JoinedFrom(s, i + |ls[0]| + 1, ls[1..])
    ensures JoinedFrom(s, i, ls)
  {
  }

  /** The first line of `pre` followed by joined lines, given the rest. */
  lemma JoinFrontCons(pre: seq<char>, ls: seq<seq<char>>)
    requires ls != [] && '\n' !in ls[0]
    requires var next := pre + ls[0] + ['\n'];
      JoinedFrom(next + JoinFront(ls[1..]), |next|, ls[1..])
    ensures JoinedFrom(pre + ls[0] + ['\n'] + JoinFront(ls[1..]), |pre|, ls)
  {
    var s := pre + ls[0] + ['\n'] + JoinFront(ls[1..]);
    JoinedLineEnds(pre, ls[0], JoinFront(ls[1..]));
    JoinedFromCons(s, |pre|, ls);
  }

  /** `pre` followed by joined '\n'-free lines holds those lines from the end of `pre`. */
  lemma {:induction false} JoinFrontJoined(pre: seq<char>, ls: seq<seq<char>>)
    requires forall k :: 0 <= k < |ls| ==> '\n' !in ls[k]
    ensures JoinedFrom(pre + JoinFront(ls), |pre|, ls)
    decreases |ls|
  {
    if ls == [] {
      assert pre + JoinFront(ls) == pre;
    } else {
      JoinFrontJoined(pre + ls[0] + ['\n'], ls[1..]);
      JoinFrontCons(pre, ls);
      JoinFrontSplit(pre, ls);
    }
  }

  /** Splitting joined '\n'-free lines gives the lines back. */
  lemma LinesOfJoin(ls: seq<seq<char>>)
    requires forall k :: 0 <= k < |ls| ==> '\n' !in ls[k]
    ensures Lines(Join(ls)) == ls
  {
    JoinFrontIsJoin(ls);
    JoinFrontJoined([], ls);
    assert [] + JoinFront(ls) == JoinFront(ls);
    LinesAtJoined(Join(ls), 0, ls);
  }



  // ---------------------------------------------------------------------
  // Lines a rewrite leaves alone

  /** No key is requested twice. */
  predicate DistinctKeys(pairs: seq<seq<char>>) {
    forall i, j :: 0 <= i < j < |pairs| && i % 2 == 0 && j % 2 == 0 ==> pairs[i] != pairs[j]
  }

  /** Keys a setting line gives back unchanged, and keys and values without '\n'. */
  predicate PlainPairs(pairs: seq<seq<char>>) {
    && ValidPairs(pairs)
    && (forall i :: 0 <= i < |pairs| ==> '\n' !in pairs[i])
    && (forall i :: 0 <= i < |pairs| && i % 2 == 0 ==> IsKey(pairs[i]) && pairs[i][0] != '#')
  }

  /** A line that a rewrite with `pairs` accepts and outputs as it is. */
  predicate Stable(line: seq<char>, pairs: seq<seq<char>>, validate: bool)
    requires ValidPairs(pairs)
  {
    var kind := Classify(line, pairs, validate);
    !kind.NoValue? && OutputLine(line, kind, pairs) == line
  }

  /** A `key=value` line of plain, distinct pairs is replaced by its own pair. */
  lemma KvTextReplaced(pairs: seq<seq<char>>, validate: bool, slot: nat)
    requires PlainPairs(pairs) && DistinctKeys(pairs)
    requires slot % 2 == 0 && slot + 1 < |pairs|
    ensures Classify(KvText(pairs, slot), pairs, validate) == Replace(slot)
    ensures '\n' !in KvText(pairs, slot)
  {
    var key := pairs[slot];
    SettingReplaced([], key, [], pairs[slot + 1], pairs, validate);
    assert [] + key + [] + ['='] + pairs[slot + 1] == KvText(pairs, slot);
    var r := FindKey(pairs, key);
    assert r.Some? && r.value <= slot;
  }

  /** Every line of a successful rewrite's scanned part is stable. */
  lemma ScannedLineStable(lines: seq<seq<char>>, pairs: seq<seq<char>>, validate: bool, k: nat)
    requires PlainPairs(pairs) && DistinctKeys(pairs)
    requires forall j :: 0 <= j < |lines| ==> '\n' !in lines[j]
    requires FirstMissing(Kinds(lines, pairs, validate)) == None
    requires k < |lines|
    ensures k < |OutputLines(lines, pairs, validate)|
    ensures var line := OutputLines(lines, pairs, validate)[k];
      Stable(line, pairs, validate) && '\n' !in line
  {
    LineOutput(lines, pairs, validate, k);
    KindsAt(lines, pairs, validate);
    var kind := Classify(lines[k], pairs, validate);
    assert !Kinds(lines, pairs, validate)[k].NoValue?;
    if kind.Replace? {
      KvTextReplaced(pairs, validate, kind.slot);
    }
  }

  /** The output line at `k`, past the scanned lines, is the `key=value` of an unwritten pair. */
  lemma AppendedAt(lines: seq<seq<char>>, pairs: seq<seq<char>>, validate: bool, k: nat)
    requires ValidPairs(pairs)
    requires |lines| <= k < |OutputLines(lines, pairs, validate)|
    ensures var slots := AppendedSlots(Written(Kinds(lines, pairs, validate)), |pairs| / 2);
      && k - |lines| < |slots|
      && OutputLines(lines, pairs, validate)[k] == KvText(pairs, 2 * slots[k - |lines|])
  {
    var kinds := Kinds(lines, pairs, validate);
    WrittenFit(kinds, pairs);
    var slots := AppendedSlots(Written(kinds), |pairs| / 2);
    var rendered := Rendered(lines, kinds, pairs);
    var texts := KvTexts(pairs, slots);
    assert OutputLines(lines, pairs, validate) == rendered + texts;
    assert (rendered + texts)[k] == texts[k - |lines|];
  }

  /** The `j`-th appended line of a rewrite is the `key=value` of the `j`-th unwritten pair. */
  lemma AppendedPairAt(lines: seq<seq<char>>, pairs: seq<seq<char>>, validate: bool, p: nat, j: nat)
    requires ValidPairs(pairs) && 2 * p + 1 < |pairs|
    requires var slots := AppendedSlots(Written(Kinds(lines, pairs, validate)), |pairs| / 2);
      j < |slots| && slots[j] == p
    ensures var out := OutputLines(lines, pairs, validate);
      |lines| + j < |out| && out[|lines| + j] == KvText(pairs, 2 * p)
  {
    var kinds := Kinds(lines, pairs, validate);
    WrittenFit(kinds, pairs);
    var slots := AppendedSlots(Written(kinds), |pairs| / 2);
    var rendered := Rendered(lines, kinds, pairs);
    var texts := KvTexts(pairs, slots);
    assert texts[j] == KvText(pairs, 2 * p);
    ElementAfter(rendered, texts, j);
  }

  /** The element `j` places into the second part of a concatenation. */
  lemma ElementAfter<T>(a: seq<T>, b: seq<T>, j: nat)
    requires j < |b|
    ensures |a| + j < |a + b| && (a + b)[|a| + j] == b[j]
  {
  }

  /** Every appended line of a rewrite is stable. */
  lemma AppendedLineStable(lines: seq<seq<char>>, pairs: seq<seq<char>>, validate: bool, k: nat)
    requires PlainPairs(pairs) && DistinctKeys(pairs)
    requires |lines| <= k < |OutputLines(lines, pairs, validate)|
    ensures var line := OutputLines(lines, pairs, validate)[k];
      Stable(line, pairs, validate) && '\n' !in line
  {
    AppendedAt(lines, pairs, validate, k);
    var slots := AppendedSlots(Written(Kinds(lines, pairs, validate)), |pairs| / 2);
    PairStable(pairs, validate, slots[k - |lines|]);
  }

  /** The slot of a pair number: even, with its value after it. */
  lemma PairSlot(p: nat, n: nat)
    requires p < n / 2
    ensures (2 * p) % 2 == 0 && 2 * p + 1 < n
  {
  }

  /** The `key=value` line of pair `p`, plain and distinct, is stable. */
  lemma PairStable(pairs: seq<seq<char>>, validate: bool, p: nat)
    requires PlainPairs(pairs) && DistinctKeys(pairs)
    requires p < |pairs| / 2
    ensures 2 * p + 1 < |pairs| && Stable(KvText(pairs, 2 * p), pairs, validate)
    ensures '\n' !in KvText(pairs, 2 * p)
  {
    PairSlot(p, |pairs|);
    KvTextReplaced(pairs, validate, 2 * p);
  }

  /** Lines that are all stable rewrite to themselves, with no error. */
  lemma RenderedStable(ls: seq<seq<char>>, pairs: seq<seq<char>>, validate: bool)
    requires ValidPairs(pairs)
    requires forall k :: 0 <= k < |ls| ==> Stable(ls[k], pairs, validate)
    ensures FirstMissing(Kinds(ls, pairs, validate)) == None
    ensures Rendered(ls, Kinds(ls, pairs, validate), pairs) == ls
  {
    var kinds := Kinds(ls, pairs, validate);
    KindsAt(ls, pairs, validate);
    assert forall k :: 0 <= k < |kinds| ==> !kinds[k].NoValue?;
    var r := Rendered(ls, kinds, pairs);
    assert forall k :: 0 <= k < |ls| ==> r[k] == ls[k];
  }

  /** A pair a line replaced is replaced by the same line when the output is rewritten. */
  lemma WrittenAgainScanned(lines: seq<seq<char>>, pairs: seq<seq<char>>, validate: bool, p: nat, k: nat)
    requires PlainPairs(pairs) && DistinctKeys(pairs)
    requires p < |pairs| / 2 && k < |lines| && Kinds(lines, pairs, validate)[k] == Replace(2 * p)
    ensures var out := OutputLines(lines, pairs, validate);
      k < |out| && Kinds(out, pairs, validate)[k] == Replace(2 * p)
  {
    var out := OutputLines(lines, pairs, validate);
    KindsAt(lines, pairs, validate);
    LineOutput(lines, pairs, validate, k);
    assert out[k] == KvText(pairs, 2 * p);
    KvTextReplaced(pairs, validate, 2 * p);
    KindsAt(out, pairs, validate);
  }

  /** A pair that was appended is replaced by its own line when the output is rewritten. */
  lemma WrittenAgainAppended(lines: seq<seq<char>>, pairs: seq<seq<char>>, validate: bool, p: nat)
    requires PlainPairs(pairs) && DistinctKeys(pairs)
    requires p < |pairs| / 2 && p !in Written(Kinds(lines, pairs, validate))
    ensures var out := OutputLines(lines, pairs, validate);
      exists k :: 0 <= k < |out| && Kinds(out, pairs, validate)[k] == Replace(2 * p)
  {
    var out := OutputLines(lines, pairs, validate);
    var kinds := Kinds(lines, pairs, validate);
    var slots := AppendedSlots(Written(kinds), |pairs| / 2);
    AppendedSlotsIff(Written(kinds), |pairs| / 2, p);
    var j :| 0 <= j < |slots| && slots[j] == p;
    PairSlot(p, |pairs|);
    AppendedPairAt(lines, pairs, validate, p, j);
    ReplacedAt(out, pairs, validate, |lines| + j, p);
  }

  /** A `key=value` line of pair `p`, wherever it stands, is replaced by that pair. */
  lemma ReplacedAt(lines: seq<seq<char>>, pairs: seq<seq<char>>, validate: bool, k: nat, p: nat)
    requires PlainPairs(pairs) && DistinctKeys(pairs)
    requires 2 * p + 1 < |pairs| && k < |lines| && lines[k] == KvText(pairs, 2 * p)
    ensures Kinds(lines, pairs, validate)[k] == Replace(2 * p)
  {
    KvTextReplaced(pairs, validate, 2 * p);
    KindAt(lines, pairs, validate, k);
  }

  /** The decision for line `k` alone. */
  lemma KindAt(lines: seq<seq<char>>, pairs: seq<seq<char>>, validate: bool, k: nat)
    requires ValidPairs(pairs) && k < |lines|
    ensures Kinds(lines, pairs, validate)[k] == Classify(lines[k], pairs, validate)
  {
    KindsAt(lines, pairs, validate);
  }

  /** Rewriting a rewrite's lines again marks every pair written. */
  lemma AllWritten(lines: seq<seq<char>>, pairs: seq<seq<char>>, validate: bool, p: nat)
    requires PlainPairs(pairs) && DistinctKeys(pairs)
    requires p < |pairs| / 2
    ensures var out := OutputLines(lines, pairs, validate);
      p in Written(Kinds(out, pairs, validate))
  {
    var out := OutputLines(lines, pairs, validate);
    var kinds := Kinds(lines, pairs, validate);
    WrittenIff(kinds, p);
    WrittenIff(Kinds(out, pairs, validate), p);
    if p in Written(kinds) {
      var k :| 0 <= k < |kinds| && kinds[k] == Replace(2 * p);
      WrittenAgainScanned(lines, pairs, validate, p, k);
    } else {
      WrittenAgainAppended(lines, pairs, validate, p);
    }
  }

  /** With every pair below `n` written, nothing is appended. */
  lemma {:induction false} NoneAppended(written: set<nat>, n: nat)
    requires forall p :: 0 <= p < n ==> p in written
    ensures AppendedSlots(written, n) == []
  {
    if n > 0 {
      NoneAppended(written, n - 1);
    }
  }

  /** Stable '\n'-free lines that write every pair are a fixed point of the rewrite. */
  lemma StableOutput(ls: seq<seq<char>>, pairs: seq<seq<char>>, validate: bool)
    requires ValidPairs(pairs)
    requires forall k :: 0 <= k < |ls| ==> Stable(ls[k], pairs, validate) && '\n' !in ls[k]
    requires forall p :: 0 <= p < |pairs| / 2 ==> p in Written(Kinds(ls, pairs, validate))
    ensures RewriteBody(Join(ls), pairs, validate) == Success(Join(ls))
  {
    LinesOfJoin(ls);
    RenderedStable(ls, pairs, validate);
    var kinds := Kinds(ls, pairs, validate);
    NoneAppended(Written(kinds), |pairs| / 2);
    assert OutputLines(ls, pairs, validate) == ls + [] == ls;
  }

  /**
   * Round trip: with plain, pairwise different keys, rewriting the output of
   * a successful rewrite again with the same pairs gives the same bytes,
   * unless that output itself starts with a byte-order mark.
   */
  lemma RewriteStable(contents: seq<char>, pairs: seq<seq<char>>, validate: bool)
    requires PlainPairs(pairs) && DistinctKeys(pairs)
    requires Rewrite(contents, pairs, validate).Success?
    requires !StartsWithBom(Rewrite(contents, pairs, validate).contents)
    ensures Rewrite(Rewrite(contents, pairs, validate).contents, pairs, validate)
         == Rewrite(contents, pairs, validate)
  {
    var body := contents[SkipUtf8Bom(contents)..];
    var lines := Lines(body);
    var out := OutputLines(lines, pairs, validate);
    assert FirstMissing(Kinds(lines, pairs, validate)) == None;
    assert Rewrite(contents, pairs, validate) == Success(Join(out));
    forall k | 0 <= k < |lines|
      ensures '\n' !in lines[k]
    {
      LinesNoNewline(body, k);
    }
    forall k | 0 <= k < |out|
      ensures Stable(out[k], pairs, validate) && '\n' !in out[k]
    {
      if k < |lines| {
        ScannedLineStable(lines, pairs, validate, k);
      } else {
        AppendedLineStable(lines, pairs, validate, k);
      }
    }
    forall p | 0 <= p < |pairs| / 2
      ensures p in Written(Kinds(out, pairs, validate))
    {
      AllWritten(lines, pairs, validate, p);
    }
    StableOutput(out, pairs, validate);
    NoBomKept(Join(out), pairs, validate);
  }

  // ---------------------------------------------------------------------
  // A key requested twice

  /** A `key=value` line holds no '\n' when its key and value hold none. */
  lemma KvTextNoNewline(pairs: seq<seq<char>>, slot: nat)
    requires PlainPairs(pairs) && slot + 1 < |pairs|
    ensures '\n' !in KvText(pairs, slot)
  {
  }

  /** The output lines of '\n'-free lines hold no '\n'. */
  lemma OutputNoNewline(lines: seq<seq<char>>, pairs: seq<seq<char>>, validate: bool)
    requires PlainPairs(pairs)
    requires forall k :: 0 <= k < |lines| ==> '\n' !in lines[k]
    ensures var out := OutputLines(lines, pairs, validate);
      forall k :: 0 <= k < |out| ==> '\n' !in out[k]
  {
    var out := OutputLines(lines, pairs, validate);
    var kinds := Kinds(lines, pairs, validate);
    WrittenFit(kinds, pairs);
    var slots := AppendedSlots(Written(kinds), |pairs| / 2);
    forall k | 0 <= k < |out|
      ensures '\n' !in out[k]
    {
      if k < |lines| {
        LineOutput(lines, pairs, validate, k);
        var kind := Classify(lines[k], pairs, validate);
        if kind.Replace? {
          KvTextNoNewline(pairs, kind.slot);
        }
      } else {
        var j := k - |lines|;
        assert out[k] == KvTexts(pairs, slots)[j] == KvText(pairs, 2 * slots[j]);
        KvTextNoNewline(pairs, 2 * slots[j]);
      }
    }
  }

  /** Rewriting a successful rewrite's lines again rejects none of them. */
  lemma NoRejectionAgain(lines: seq<seq<char>>, pairs: seq<seq<char>>, validate: bool)
    requires ValidPairs(pairs)
    requires FirstMissing(Kinds(lines, pairs, validate)) == None
    ensures FirstMissing(Kinds(OutputLines(lines, pairs, validate), pairs, validate)) == None
  {
    var out := OutputLines(lines, pairs, validate);
    var again := Kinds(out, pairs, validate);
    KindsAt(out, pairs, validate);
    KindsAt(lines, pairs, validate);
    forall k | 0 <= k < |out|
      ensures !again[k].NoValue?
    {
      if k < |lines| {
        LineOutput(lines, pairs, validate, k);
        assert !Kinds(lines, pairs, validate)[k].NoValue?;
      }
      if '=' in out[k] {
        ClassifyWithEquals(out[k], pairs, validate);
      }
    }
  }

  /**
   * A key requested twice breaks the round trip: rewriting a successful
   * rewrite's output again succeeds but yields more lines, since the later
   * request of that key is appended every time.
   */
  lemma DuplicateKeyGrows(contents: seq<char>, pairs: seq<seq<char>>, validate: bool, p: nat, q: nat)
    requires PlainPairs(pairs) && p < q < |pairs| / 2 && pairs[2 * p] == pairs[2 * q]
    requires Rewrite(contents, pairs, validate).Success?
    requires !StartsWithBom(Rewrite(contents, pairs, validate).contents)
    ensures var first := Rewrite(contents, pairs, validate).contents;
      var second := Rewrite(first, pairs, validate);
      second.Success? && |Lines(second.contents)| > |Lines(first)|
  {
    var body := contents[SkipUtf8Bom(contents)..];
    var lines := Lines(body);
    var out := OutputLines(lines, pairs, validate);
    assert FirstMissing(Kinds(lines, pairs, validate)) == None;
    assert Rewrite(contents, pairs, validate) == Success(Join(out));
    forall k | 0 <= k < |lines|
      ensures '\n' !in lines[k]
    {
      LinesNoNewline(body, k);
    }
    OutputNoNewline(lines, pairs, validate);
    LinesOfJoin(out);
    NoRejectionAgain(lines, pairs, validate);
    NoBomKept(Join(out), pairs, validate);
    var again := OutputLines(out, pairs, validate);
    assert Rewrite(Join(out), pairs, validate) == Success(Join(again));
    OutputNoNewline(out, pairs, validate);
    LinesOfJoin(again);
    var kinds := Kinds(out, pairs, validate);
    WrittenFit(kinds, pairs);
    DuplicateRequestAppended(out, pairs, validate, p, q);
    assert |AppendedSlots(Written(kinds), |pairs| / 2)| > 0;
    assert |again| == |out| + |AppendedSlots(Written(kinds), |pairs| / 2)|;
  }
}
