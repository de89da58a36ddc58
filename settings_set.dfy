/**
 * mini_settings_set.c: the single-pass line rewriter, as the C code runs it.
 *
 * `SetSized` walks `lineEnd` through the BOM-free contents with memchr,
 * classifies each line with the whitespace helpers and `FindKv`, appends to
 * a `StringBuf` and sets `written` flags in place, then appends every pair
 * whose flag is still clear. Each method is proved equal to the functions of
 * SettingsSpec, whose properties are proved in SettingsLemmas.
 */
module SettingsSet {
  import opened Ascii
  import opened SettingsSpec
  import opened StringBuffer

  /** The caller's sizes fit the strings they measure (kvs_sizes[i] bytes are readable at kvs[i]). */
  predicate SizesFit(kvs: seq<seq<char>>, kvsSizes: seq<nat>) {
    |kvsSizes| == |kvs| && forall i :: 0 <= i < |kvs| ==> kvsSizes[i] <= |kvs[i]|
  }

  /** The requested strings as the sized routine reads them: the first kvsSizes[i] bytes of kvs[i]. */
  function Sized(kvs: seq<seq<char>>, kvsSizes: seq<nat>): (r: seq<seq<char>>)
    requires SizesFit(kvs, kvsSizes)
    ensures |r| == |kvs|
    ensures forall i :: 0 <= i < |kvs| ==> r[i] == kvs[i][..kvsSizes[i]]
  {
    if kvs == [] then []
    else
      var n := |kvs| - 1;
      Sized(kvs[..n], kvsSizes[..n]) + [kvs[n][..kvsSizes[n]]]
  }

  /** find_kv: the first even slot whose sized key equals s[keyBegin..keyEnd] (None for NOT_FOUND). */
  method FindKv(kvs: seq<seq<char>>, kvsSizes: seq<nat>, s: seq<char>, keyBegin: nat, keyEnd: nat)
    returns (r: Option<nat>)
    requires SizesFit(kvs, kvsSizes)
    requires keyBegin <= keyEnd <= |s|
    ensures r == FindKey(Sized(kvs, kvsSizes), s[keyBegin..keyEnd])
  {
    ghost var pairs := Sized(kvs, kvsSizes);
    ghost var key := s[keyBegin..keyEnd];
    var targetKeySize := keyEnd - keyBegin;
    var i := 0;
    while i < |kvs|
      invariant i % 2 == 0
      invariant FindKey(pairs, key) == FindKeyFrom(pairs, key, i)
    {
      if targetKeySize == kvsSizes[i] && kvs[i][..targetKeySize] == s[keyBegin..keyEnd] {
        return Some(i);
      }
      i := i + 2;
    }
    return None;
  }

  /** write_kv: appends `key`, '=', `value` and '\n'. */
  method WriteKv(out: StringBuf, key: seq<char>, value: seq<char>)
    requires out.Valid()
    modifies out, out.data
    ensures out.Valid()
    ensures out.Contents == old(out.Contents) + key + ['='] + value + ['\n']
    ensures out.data == old(out.data) || fresh(out.data)
  {
    out.Append(key);
    out.AppendChar('=');
    out.AppendLine(value);
  }

  /** One memchr step of the line scan: the line from `begin` joins the lines already scanned. */
  lemma LinesAtStep(s: seq<char>, lines: seq<seq<char>>, done: seq<seq<char>>, begin: nat)
    requires begin < |s|
    requires lines == done + LinesAt(s, begin)
    ensures var e := MemChr(s, begin, |s|, '\n');
      && (e < |s| ==> lines == done + [s[begin..e]] + LinesAt(s, e + 1))
      && (e == |s| ==> lines == done + [s[begin..e]])
  {
    var e := MemChr(s, begin, |s|, '\n');
    if e < |s| {
      LinesAtInner(s, begin);
      AppendAssoc(done, [s[begin..e]], LinesAt(s, e + 1));
    } else {
      LinesAtLast(s, begin);
    }
  }

  /** The pair number of an even slot is an index of the `written` flags. */
  lemma HalfBound(slot: nat, n: nat)
    requires slot % 2 == 0 && slot + 1 < n
    ensures slot / 2 < n / 2
  {
  }

  /**
   * A proof device: the text the scan loop has written for the lines so far,
   * built one line at a time as the loop builds it. The definition is
   * Join(Rendered(..)); ScannedTextIs shows the two agree.
   */
  function ScannedText(lines: seq<seq<char>>, kinds: seq<LineKind>, pairs: seq<seq<char>>): seq<char>
    requires |kinds| == |lines| && SlotsFit(kinds, pairs)
  {
    if lines == [] then []
    else
      var n := |lines| - 1;
      ScannedText(lines[..n], kinds[..n], pairs) + (OutputLine(lines[n], kinds[n], pairs) + ['\n'])
  }

  /** Built line by line, it is the joined output lines. */
  lemma {:induction false} ScannedTextIs(lines: seq<seq<char>>, kinds: seq<LineKind>, pairs: seq<seq<char>>)
    requires |kinds| == |lines| && SlotsFit(kinds, pairs)
    ensures ScannedText(lines, kinds, pairs) == Join(Rendered(lines, kinds, pairs))
  {
    if lines != [] {
      var n := |lines| - 1;
      var r := Rendered(lines, kinds, pairs);
      calc {
        Join(r);
        Join(r[..n]) + r[n] + ['\n'];
        == { assert r[..n] == Rendered(lines[..n], kinds[..n], pairs); }
        Join(Rendered(lines[..n], kinds[..n], pairs)) + OutputLine(lines[n], kinds[n], pairs) + ['\n'];
        == { ScannedTextIs(lines[..n], kinds[..n], pairs); }
        ScannedText(lines[..n], kinds[..n], pairs) + OutputLine(lines[n], kinds[n], pairs) + ['\n'];
        ScannedText(lines, kinds, pairs);
      }
    }
  }

  /** Deciding one more line extends the decisions by one. */
  lemma KindsSnoc(done: seq<seq<char>>, line: seq<char>, pairs: seq<seq<char>>, validate: bool)
    requires ValidPairs(pairs)
    ensures Kinds(done + [line], pairs, validate) == Kinds(done, pairs, validate) + [Classify(line, pairs, validate)]
  {
    assert (done + [line])[..|done|] == done;
  }

  /** Scanning one more line appends its output line. */
  lemma ScannedSnoc(done: seq<seq<char>>, kinds: seq<LineKind>, line: seq<char>, kind: LineKind,
                    pairs: seq<seq<char>>)
    requires |kinds| == |done| && SlotsFit(kinds, pairs) && SlotsFit(kinds + [kind], pairs)
    requires kind.Replace? ==> kind.slot + 1 < |pairs|
    ensures ScannedText(done + [line], kinds + [kind], pairs)
         == ScannedText(done, kinds, pairs) + (OutputLine(line, kind, pairs) + ['\n'])
  {
    assert (done + [line])[..|done|] == done;
    assert (kinds + [kind])[..|kinds|] == kinds;
  }

  /** Deciding one more line adds its pair, if it replaced one, to the written set. */
  lemma WrittenSnoc(kinds: seq<LineKind>, kind: LineKind)
    ensures Written(kinds + [kind]) == Written(kinds) + (if kind.Replace? then {kind.slot / 2} else {})
  {
    assert (kinds + [kind])[..|kinds|] == kinds;
  }

  /**
   * The scanning half of the loop body, over one line (the C code scans the
   * buffer between line_begin and line_end, which is the same bytes): skip
   * whitespace, note and skip a '#' and the whitespace after it, find the
   * first '=' with memchr and trim whitespace before it. The definition is
   * SettingsSpec.Shape; this method is the C code's statement-by-statement
   * version of it, proved equal.
   */
  method ScanLine(line: seq<char>) returns (shape: LineShape)
    ensures shape == Shape(line)
  {
    var keyBegin := SkipLeadingWhitespace(line, 0, |line|);
    if keyBegin == |line| {
      return Blank;
    }
    var commented := line[keyBegin] == '#';
    if commented {
      keyBegin := SkipLeadingWhitespace(line, keyBegin + 1, |line|);
    }
    if keyBegin == |line| {
      return BareComment;
    }
    var eqPos := MemChr(line, keyBegin, |line|, '=');
    if eqPos == |line| {
      return NoEquals(commented);
    }
    var keyEnd := SkipTrailingWhitespace(line, keyBegin, eqPos);
    return Setting(keyBegin, keyEnd);
  }

  /**
   * The deciding half of the loop body for one line: blank lines and bare
   * comments are kept, a line without '=' is kept or rejected, and a line
   * with '=' is replaced when find_kv knows its key.
   */
  method DecideLine(line: seq<char>, kvs: seq<seq<char>>, kvsSizes: seq<nat>, validate: bool)
    returns (kind: LineKind)
    requires |kvs| % 2 == 0 && SizesFit(kvs, kvsSizes)
    ensures kind == Classify(line, Sized(kvs, kvsSizes), validate)
  {
    var shape := ScanLine(line);
    match shape {
      case Blank =>
        kind := Verbatim;
      case BareComment =>
        kind := Verbatim;
      case NoEquals(commented) =>
        kind := if commented || !validate then Verbatim else NoValue;
      case Setting(keyBegin, keyEnd) =>
        var i := FindKv(kvs, kvsSizes, line, keyBegin, keyEnd);
        kind := if i.Some? then Replace(i.value) else Verbatim;
    }
  }

  /**
   * The loop body for one line: appends to `out` what the line turns into
   * (nothing when validation rejects it) and returns the decision.
   */
  method RewriteLine(out: StringBuf, line: seq<char>, kvs: seq<seq<char>>, kvsSizes: seq<nat>, validate: bool)
    returns (kind: LineKind)
    requires out.Valid()
    requires |kvs| % 2 == 0 && SizesFit(kvs, kvsSizes)
    modifies out, out.data
    ensures out.Valid()
    ensures out.data == old(out.data) || fresh(out.data)
    ensures kind == Classify(line, Sized(kvs, kvsSizes), validate)
    ensures out.Contents == old(out.Contents)
              + (if kind.NoValue? then [] else OutputLine(line, kind, Sized(kvs, kvsSizes)) + ['\n'])
  {
    kind := DecideLine(line, kvs, kvsSizes, validate);
    if kind.Replace? {
      ghost var pairs := Sized(kvs, kvsSizes);
      var key := kvs[kind.slot][..kvsSizes[kind.slot]];
      var value := kvs[kind.slot + 1][..kvsSizes[kind.slot + 1]];
      assert key == pairs[kind.slot] && value == pairs[kind.slot + 1];
      WriteKv(out, key, value);
      assert old(out.Contents) + key + ['='] + value + ['\n']
          == old(out.Contents) + (KvText(pairs, kind.slot) + ['\n']);
    } else if kind.Verbatim? {
      out.AppendLine(line);
    }
  }

  /** The end of a scan that met no rejected line: the spec's successful rewrite. */
  lemma ScanSucceeds(body: seq<char>, kinds: seq<LineKind>, pairs: seq<seq<char>>, validate: bool)
    requires ValidPairs(pairs)
    requires kinds == Kinds(Lines(body), pairs, validate)
    requires forall k :: 0 <= k < |kinds| ==> !kinds[k].NoValue?
    ensures RewriteBody(body, pairs, validate)
         == Success(ScannedText(Lines(body), kinds, pairs) + AppendedText(pairs, Written(kinds), |pairs| / 2))
  {
    var lines := Lines(body);
    var ws := Written(kinds);
    WrittenFit(kinds, pairs);
    var slots := AppendedSlots(ws, |pairs| / 2);
    assert FirstMissing(kinds) == None;
    calc {
      Join(OutputLines(lines, pairs, validate));
      Join(Rendered(lines, kinds, pairs) + KvTexts(pairs, slots));
      == { JoinAppend(Rendered(lines, kinds, pairs), KvTexts(pairs, slots)); }
      Join(Rendered(lines, kinds, pairs)) + Join(KvTexts(pairs, slots));
      == { ScannedTextIs(lines, kinds, pairs); AppendedTextIs(pairs, ws, |pairs| / 2); }
      ScannedText(lines, kinds, pairs) + AppendedText(pairs, ws, |pairs| / 2);
    }
  }

  /** The end of a scan whose last line was rejected, with no rejection before it. */
  lemma ScanFails(body: seq<char>, done: seq<seq<char>>, kinds: seq<LineKind>, pairs: seq<seq<char>>, validate: bool)
    requires ValidPairs(pairs)
    requires done <= Lines(body)
    requires kinds == Kinds(done, pairs, validate) && |kinds| > 0
    requires kinds[|kinds| - 1].NoValue?
    requires forall k :: 0 <= k < |kinds| - 1 ==> !kinds[k].NoValue?
    ensures RewriteBody(body, pairs, validate) == Failure(MissingValue(|done|, done[|done| - 1]))
  {
    var all := Kinds(Lines(body), pairs, validate);
    KindsAt(Lines(body), pairs, validate);
    KindsAt(done, pairs, validate);
    assert forall k :: 0 <= k < |kinds| ==> all[k] == kinds[k];
  }

  /**
   * What the scan loop knows once the line ending at `lineEnd` is done (-1
   * before the first line): `done` are the lines so far, the rest of the
   * lines start after `lineEnd`, `kinds` are their decisions, none rejected.
   */
  ghost predicate ScannedTo(body: seq<char>, lineEnd: int, done: seq<seq<char>>, kinds: seq<LineKind>,
                            pairs: seq<seq<char>>, validate: bool)
    requires ValidPairs(pairs)
  {
    && -1 <= lineEnd <= |body|
    && (lineEnd < |body| ==> Lines(body) == done + LinesAt(body, lineEnd + 1))
    && (lineEnd == |body| ==> Lines(body) == done)
    && kinds == Kinds(done, pairs, validate)
    && (forall k :: 0 <= k < |kinds| ==> !kinds[k].NoValue?)
  }

  /** A memchr that starts at the end of the body finds no further line. */
  lemma ScanStops(body: seq<char>, lineBegin: nat, done: seq<seq<char>>, kinds: seq<LineKind>,
                  pairs: seq<seq<char>>, validate: bool)
    requires ValidPairs(pairs)
    requires lineBegin == |body| && ScannedTo(body, lineBegin - 1, done, kinds, pairs, validate)
    ensures Lines(body) == done
  {
    assert done + [] == done;
  }

  /** An accepted line extends the scan: its decision, its output line and its pair, if any. */
  lemma ScanAdvance(body: seq<char>, lineBegin: nat, done: seq<seq<char>>, kinds: seq<LineKind>,
                    kind: LineKind, pairs: seq<seq<char>>, validate: bool)
    requires ValidPairs(pairs)
    requires lineBegin < |body| && ScannedTo(body, lineBegin - 1, done, kinds, pairs, validate)
    requires kind == Classify(body[lineBegin..MemChr(body, lineBegin, |body|, '\n')], pairs, validate)
    requires !kind.NoValue?
    ensures var lineEnd := MemChr(body, lineBegin, |body|, '\n');
      var line := body[lineBegin..lineEnd];
      && ScannedTo(body, lineEnd, done + [line], kinds + [kind], pairs, validate)
      && ScannedText(done + [line], kinds + [kind], pairs)
         == ScannedText(done, kinds, pairs) + (OutputLine(line, kind, pairs) + ['\n'])
      && Written(kinds + [kind]) == Written(kinds) + (if kind.Replace? then {kind.slot / 2} else {})
  {
    var lineEnd := MemChr(body, lineBegin, |body|, '\n');
    var line := body[lineBegin..lineEnd];
    LinesAtStep(body, Lines(body), done, lineBegin);
    KindsSnoc(done, line, pairs, validate);
    ScannedSnoc(done, kinds, line, kind, pairs);
    WrittenSnoc(kinds, kind);
  }

  /** A rejected line ends the rewrite with its 1-based number and its text. */
  lemma ScanRejects(body: seq<char>, lineBegin: nat, done: seq<seq<char>>, kinds: seq<LineKind>,
                    kind: LineKind, pairs: seq<seq<char>>, validate: bool)
    requires ValidPairs(pairs)
    requires lineBegin < |body| && ScannedTo(body, lineBegin - 1, done, kinds, pairs, validate)
    requires kind == Classify(body[lineBegin..MemChr(body, lineBegin, |body|, '\n')], pairs, validate)
    requires kind.NoValue?
    ensures RewriteBody(body, pairs, validate)
         == Failure(MissingValue(|done| + 1, body[lineBegin..MemChr(body, lineBegin, |body|, '\n')]))
  {
    var lineEnd := MemChr(body, lineBegin, |body|, '\n');
    var line := body[lineBegin..lineEnd];
    LinesAtStep(body, Lines(body), done, lineBegin);
    KindsSnoc(done, line, pairs, validate);
    assert done + [line] <= Lines(body);
    ScanFails(body, done + [line], kinds + [kind], pairs, validate);
  }

  /**
   * A proof device: the text the final pass appends for the pairs below `n`,
   * built one pair at a time as the loop builds it. The definition is
   * Join(KvTexts(.., AppendedSlots(..))); AppendedTextIs shows the two agree.
   */
  function AppendedText(pairs: seq<seq<char>>, ws: set<nat>, n: nat): seq<char>
    requires 2 * n <= |pairs|
  {
    if n == 0 then []
    else AppendedText(pairs, ws, n - 1) + (if n - 1 in ws then [] else KvText(pairs, 2 * (n - 1)) + ['\n'])
  }

  /** Built pair by pair, it is the joined `key=value` lines of the unwritten pairs. */
  lemma {:induction false} AppendedTextIs(pairs: seq<seq<char>>, ws: set<nat>, n: nat)
    requires 2 * n <= |pairs|
    ensures AppendedText(pairs, ws, n) == Join(KvTexts(pairs, AppendedSlots(ws, n)))
  {
    if n == 0 {
      assert AppendedSlots(ws, 0) == [];
      assert KvTexts(pairs, []) == [];
    } else {
      AppendedTextIs(pairs, ws, n - 1);
      if n - 1 in ws {
        AppendedTextSkips(pairs, ws, n - 1);
      } else {
        AppendedTextAdds(pairs, ws, n - 1);
      }
    }
  }

  /** The step of AppendedTextIs past a written pair. */
  lemma AppendedTextSkips(pairs: seq<seq<char>>, ws: set<nat>, p: nat)
    requires 2 * p + 2 <= |pairs| && p in ws
    requires AppendedText(pairs, ws, p) == Join(KvTexts(pairs, AppendedSlots(ws, p)))
    ensures AppendedText(pairs, ws, p + 1) == Join(KvTexts(pairs, AppendedSlots(ws, p + 1)))
  {
    calc {
      Join(KvTexts(pairs, AppendedSlots(ws, p + 1)));
      == { SkipStep(ws, p); }
      Join(KvTexts(pairs, AppendedSlots(ws, p)));
      AppendedText(pairs, ws, p);
      == { assert AppendedText(pairs, ws, p) + [] == AppendedText(pairs, ws, p); }
      AppendedText(pairs, ws, p + 1);
    }
  }

  /** The step of AppendedTextIs past an unwritten pair. */
  lemma AppendedTextAdds(pairs: seq<seq<char>>, ws: set<nat>, p: nat)
    requires 2 * p + 2 <= |pairs| && p !in ws
    requires AppendedText(pairs, ws, p) == Join(KvTexts(pairs, AppendedSlots(ws, p)))
    ensures AppendedText(pairs, ws, p + 1) == Join(KvTexts(pairs, AppendedSlots(ws, p + 1)))
  {
    calc {
      Join(KvTexts(pairs, AppendedSlots(ws, p + 1)));
      == { AddStep(pairs, ws, p); }
      Join(KvTexts(pairs, AppendedSlots(ws, p))) + KvText(pairs, 2 * p) + ['\n'];
      AppendedText(pairs, ws, p) + KvText(pairs, 2 * p) + ['\n'];
      AppendedText(pairs, ws, p) + (KvText(pairs, 2 * p) + ['\n']);
      AppendedText(pairs, ws, p + 1);
    }
  }

  /** A pair that was written adds nothing. */
  lemma SkipStep(ws: set<nat>, p: nat)
    requires p in ws
    ensures AppendedSlots(ws, p + 1) == AppendedSlots(ws, p)
  {
    assert AppendedSlots(ws, p) + [] == AppendedSlots(ws, p);
  }

  /** A pair that was not written adds its `key=value` line. */
  lemma AddStep(pairs: seq<seq<char>>, ws: set<nat>, p: nat)
    requires 2 * p + 1 < |pairs| && p !in ws
    ensures Join(KvTexts(pairs, AppendedSlots(ws, p + 1)))
         == Join(KvTexts(pairs, AppendedSlots(ws, p))) + KvText(pairs, 2 * p) + ['\n']
  {
    var before := AppendedSlots(ws, p);
    var slots := before + [p];
    assert AppendedSlots(ws, p + 1) == slots;
    assert slots[..|slots| - 1] == before;
    var texts := KvTexts(pairs, before) + [KvText(pairs, 2 * p)];
    assert texts[..|texts| - 1] == KvTexts(pairs, before);
    assert KvTexts(pairs, slots) == texts;
  }

  /** What write_kv appends after `c + done` is the pair's line after `done`. */
  lemma Regroup(c: seq<char>, done: seq<char>, key: seq<char>, value: seq<char>)
    ensures c + done + key + ['='] + value + ['\n'] == c + (done + (key + ['='] + value + ['\n']))
  {
  }

  /**
   * The final pass of mini_settings_set_sized: one `key=value` line for each
   * pair whose `written` flag is clear, in request order.
   */
  method AppendUnwritten(out: StringBuf, written: array<bool>, kvs: seq<seq<char>>, kvsSizes: seq<nat>,
                         ghost ws: set<nat>)
    requires out.Valid()
    requires |kvs| % 2 == 0 && SizesFit(kvs, kvsSizes)
    requires written.Length == |kvs| / 2
    requires forall p :: 0 <= p < written.Length ==> (written[p] <==> p in ws)
    modifies out, out.data
    ensures out.Valid()
    ensures out.data == old(out.data) || fresh(out.data)
    ensures out.Contents == old(out.Contents) + AppendedText(Sized(kvs, kvsSizes), ws, |kvs| / 2)
  {
    ghost var pairs := Sized(kvs, kvsSizes);
    ghost var c := old(out.Contents);
    var i := 0;
    ghost var p := 0;
    while i < |kvs|
      invariant 0 <= i <= |kvs| && i == 2 * p
      invariant out.Valid()
      invariant out.data == old(out.data) || fresh(out.data)
      invariant out.Contents == c + AppendedText(pairs, ws, p)
    {
      assert i / 2 == p && (written[p] <==> p in ws);
      if !written[i / 2] {
        assert kvs[i][..kvsSizes[i]] == pairs[i] && kvs[i + 1][..kvsSizes[i + 1]] == pairs[i + 1];
        Regroup(c, AppendedText(pairs, ws, p), pairs[i], pairs[i + 1]);
        WriteKv(out, kvs[i][..kvsSizes[i]], kvs[i + 1][..kvsSizes[i + 1]]);
      } else {
        assert AppendedText(pairs, ws, p + 1) == AppendedText(pairs, ws, p) + [];
      }
      i := i + 2;
      p := p + 1;
    }
  }

  /**
   * One pass of the line loop of mini_settings_set_sized, for the line that
   * starts at `lineBegin` (the scan so far being `done` with decisions
   * `kinds`) and ends where memchr stops: the line's output is appended and
   * a replaced pair's `written` flag is set, or, when validation rejects
   * the line, the rewrite fails there.
   */
  method ScanStep(out: StringBuf, written: array<bool>, body: seq<char>, lineBegin: nat,
                  kvs: seq<seq<char>>, kvsSizes: seq<nat>, validate: bool,
                  lineEnd: nat, ghost done: seq<seq<char>>, ghost kinds: seq<LineKind>)
    returns (kind: LineKind)
    requires |kvs| % 2 == 0 && SizesFit(kvs, kvsSizes)
    requires lineBegin < |body| && ScannedTo(body, lineBegin - 1, done, kinds, Sized(kvs, kvsSizes), validate)
    requires lineEnd == MemChr(body, lineBegin, |body|, '\n')
    requires out.Valid() && out.Contents == ScannedText(done, kinds, Sized(kvs, kvsSizes))
    requires written.Length == |kvs| / 2
    requires forall p :: 0 <= p < written.Length ==> (written[p] <==> p in Written(kinds))
    modifies out, out.data, written
    ensures out.Valid()
    ensures out.data == old(out.data) || fresh(out.data)
    ensures var line := body[lineBegin..lineEnd];
      && kind == Classify(line, Sized(kvs, kvsSizes), validate)
      && (kind.NoValue? ==>
            RewriteBody(body, Sized(kvs, kvsSizes), validate) == Failure(MissingValue(|done| + 1, line)))
      && (!kind.NoValue? ==>
            && ScannedTo(body, lineEnd, done + [line], kinds + [kind], Sized(kvs, kvsSizes), validate)
            && out.Contents == ScannedText(done + [line], kinds + [kind], Sized(kvs, kvsSizes))
            && forall p :: 0 <= p < written.Length ==> (written[p] <==> p in Written(kinds + [kind])))
  {
    ghost var pairs := Sized(kvs, kvsSizes);
    kind := RewriteLine(out, body[lineBegin..lineEnd], kvs, kvsSizes, validate);
    if kind.NoValue? {
      ScanRejects(body, lineBegin, done, kinds, kind, pairs, validate);
      return;
    }
    ScanAdvance(body, lineBegin, done, kinds, kind, pairs, validate);
    ghost var ws := Written(kinds + [kind]);
    if kind.Replace? {
      HalfBound(kind.slot, |kvs|);
      written[kind.slot / 2] := true;
      forall p | 0 <= p < written.Length
        ensures written[p] <==> p in ws
      {
        if p != kind.slot / 2 {
          assert written[p] == old(written[p]);
        }
      }
    }
  }

  /**
   * The line loop of mini_settings_set_sized over the BOM-free `body`. It
   * stops with the error at the first rejected line; otherwise `out` holds
   * the output of every line and the flags of the replaced pairs are set.
   */
  method ScanLines(out: StringBuf, written: array<bool>, body: seq<char>,
                   kvs: seq<seq<char>>, kvsSizes: seq<nat>, validate: bool)
    returns (rejected: Option<SetError>, ghost done: seq<seq<char>>, ghost kinds: seq<LineKind>)
    requires out.Valid() && out.Contents == []
    requires |kvs| % 2 == 0 && SizesFit(kvs, kvsSizes)
    requires written.Length == |kvs| / 2
    requires forall p :: 0 <= p < written.Length ==> !written[p]
    modifies out, out.data, written
    ensures out.Valid()
    ensures out.data == old(out.data) || fresh(out.data)
    ensures rejected.Some? ==> RewriteBody(body, Sized(kvs, kvsSizes), validate) == Failure(rejected.value)
    ensures rejected.None? ==>
              && ScannedTo(body, |body|, done, kinds, Sized(kvs, kvsSizes), validate)
              && out.Contents == ScannedText(done, kinds, Sized(kvs, kvsSizes))
              && (forall p :: 0 <= p < written.Length ==> (written[p] <==> p in Written(kinds)))
  {
    ghost var pairs := Sized(kvs, kvsSizes);
    var eof := |body|;
    var lineEnd: int := -1;
    var lineNum: nat := 0;
    done := [];
    kinds := [];
    while lineEnd < eof
      invariant ScannedTo(body, lineEnd, done, kinds, pairs, validate)
      invariant lineNum == |done|
      invariant out.Valid()
      invariant out.data == old(out.data) || fresh(out.data)
      invariant out.Contents == ScannedText(done, kinds, pairs)
      invariant forall p :: 0 <= p < written.Length ==> (written[p] <==> p in Written(kinds))
      decreases eof - lineEnd
    {
      lineNum := lineNum + 1;
      var lineBegin: nat := lineEnd + 1;
      lineEnd := MemChr(body, lineBegin, eof, '\n');
      if lineEnd == eof && lineBegin == eof {
        ScanStops(body, lineBegin, done, kinds, pairs, validate);
        break;
      }
      var kind := ScanStep(out, written, body, lineBegin, kvs, kvsSizes, validate, lineEnd, done, kinds);
      if kind.NoValue? {
        return Some(MissingValue(lineNum, body[lineBegin..lineEnd])), done, kinds;
      }
      done := done + [body[lineBegin..lineEnd]];
      kinds := kinds + [kind];
    }
    rejected := None;
  }

  /** mini_settings_set_sized: rewrites `contents`, or rejects it on the first setting line without '='. */
  method SetSized(contents: seq<char>, kvs: seq<seq<char>>, kvsSizes: seq<nat>, validate: bool)
    returns (result: SetResult)
    requires |kvs| % 2 == 0
    requires SizesFit(kvs, kvsSizes)
    ensures result == Rewrite(contents, Sized(kvs, kvsSizes), validate)
  {
    ghost var pairs := Sized(kvs, kvsSizes);
    var written := new bool[|kvs| / 2](_ => false);
    var out := new StringBuf(|contents|);
    var body := contents[SkipUtf8Bom(contents)..];
    var rejected;
    ghost var done, kinds;
    rejected, done, kinds := ScanLines(out, written, body, kvs, kvsSizes, validate);
    if rejected.Some? {
      return Failure(rejected.value);
    }
    ScanSucceeds(body, kinds, pairs, validate);
    AppendUnwritten(out, written, kvs, kvsSizes, Written(kinds));
    result := Success(out.data[..out.size]);
  }

  /** mini_settings_set: each key and value is measured by its length, then rewritten as above. */
  method Set(contents: seq<char>, kvs: seq<seq<char>>, validate: bool) returns (result: SetResult)
    requires |kvs| % 2 == 0
    ensures result == Rewrite(contents, kvs, validate)
  {
    var kvsSizes := new nat[|kvs|];
    for i := 0 to |kvs|
      invariant forall j :: 0 <= j < i ==> kvsSizes[j] == |kvs[j]|
    {
      kvsSizes[i] := |kvs[i]|;
    }
    assert forall i :: 0 <= i < |kvs| ==> kvs[i][..kvsSizes[..][i]] == kvs[i];
    assert Sized(kvs, kvsSizes[..]) == kvs;
    result := SetSized(contents, kvs, kvsSizes[..], validate);
  }
}
