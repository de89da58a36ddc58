# mini_settings: the configuration rewriter, in Dafny

`mini_settings_set` takes the bytes of a `key=value` configuration file, a flat list of
requested strings (keys at even indices, each followed by its value) and a `validate`
flag, and returns either new file contents or an error. It works like this:

- It drops a leading UTF-8 byte-order mark.
- It cuts the rest into lines at `\n`. A final `\n` opens no extra line, and an
  unterminated last line is still processed.
- It treats each line on its own:
  - Blank lines and bare `#` comments are kept.
  - A line without `=` is kept, unless validation is on and the line is not a comment.
    In that case the whole call fails, naming the line's 1-based number and its bytes.
  - A line with `=` has its whitespace-trimmed key looked up among the requested keys,
    even behind a `#`. On a match the line becomes `key=value` and its pair is marked
    written; otherwise the line is kept.
- Every emitted line ends in exactly one `\n`.
- Every requested pair that no line matched is appended at the end, in request order.

The output goes into a growable byte buffer (`mini_settings_stringbuf`). The buffer keeps
a `data`/`size`/`capacity` triple and grows to max(2·capacity + 1, needed).

The project has six modules:

- `StringBuffer` (`stringbuf.dfy`): the buffer as a class. It has an `array<char>`, the
  `size` and `capacity` fields, and a ghost `Contents` sequence tied to `data[..size]`.
- `Ascii` (`ascii.dfy`): the byte scanners the rewriter calls (`memchr`, the whitespace
  skips, the BOM skip).
- `SettingsSpec` (`settings_spec.dfy`): the rewrite as functions over byte sequences:
  lines, the per-line decision `Classify`, the `written` set, the appended pairs, and
  the result `Rewrite`.
- `SettingsSet` (`settings_set.dfy`): the C code as imperative Dafny. `SetSized` walks
  the contents with memchr, appends to a `StringBuf`, sets the `written` flags in a
  `bool` array, and is proved to return `Rewrite` of its inputs.
- `SettingsLemmas` (`settings_lemmas.dfy`): what the rewrite promises, proved about
  `Rewrite`. This covers newline normalisation, pass-through, replacement (commented or
  not), the error condition and its first line, the BOM, empty input, the appended
  pairs and duplicate requests.
- `SettingsRoundTrip` (`settings_roundtrip.dfy`): rewriting a rewrite's output again
  with the same pairs, when that gives the same bytes and when it does not.

Two conventions hold throughout:

- A byte is a `char` whose code is the byte's value.
- A C buffer `[begin, end)` is a `seq<char>` with a pair of indices.

**Assumed definitions.** The byte-order-mark and whitespace helpers come from
`mini_settings_ascii.h`, which is not part of this model. `Ascii.IsSpace` is assumed to
be the six bytes `isspace` accepts in the "C" locale. `Ascii.Utf8Bom` is assumed to be
EF BB BF. Nothing here is verified against that header.

**Repeated keys and the round trip.**

- Every requested pair is in the output at least once (`EveryPairOutput`).
- The lookup (mini_settings_set.c:94-101) never consults `written`. So a key on several
  input lines is replaced on each of them, and appears several times (`LineOutput`).
- A key requested twice is matched only through its first slot, so its later request is
  always appended at the end (`DuplicateRequestAppended`).
- Rewriting a successful rewrite's output again with the same pairs gives the same bytes
  (`RewriteStable`) when:
  - the keys are pairwise different;
  - each key is non-empty, holds no `=`, has no whitespace at either end and does not
    start with `#`, so that the `key=value` line scans back to the same key;
  - keys and values hold no `\n`;
  - the output does not itself start with a byte-order mark.
- A key requested twice breaks the round trip (`DuplicateKeyGrows`). Suppose every key
  and value meets the conditions above other than being pairwise different, and the
  first output does not start with a byte-order mark. Then rewriting that output once
  more succeeds but yields strictly more lines. Without those conditions the second
  rewrite can fail outright: a value holding a '\n' puts its second half on a line of
  its own, which validation rejects when that half holds no '='. For example, with
  `a=1` and `a=2` requested, empty contents give `a=1`, `a=2` (`EmptyBody`); rewriting
  that gives, worked out by hand, `a=1`, `a=1`, `a=2`.
- The error carries the whole line from `line_begin` (mini_settings_set.c:87), leading
  whitespace included. A commented line is never rejected (mini_settings_set.c:77), so
  the reported line never starts with a comment marker.

## Model

| member | source | states |
|---|---|---|
| StringBuffer.GrownCapacity | mini_settings_stringbuf.c:16-18 | the new capacity covers both the old capacity and the requested one; it is unchanged when the request already fits, and otherwise exceeds twice the old capacity, being exactly 2·old+1 or exactly the request |
| StringBuffer.MemCpy | mini_settings_stringbuf.c:31 | the copied bytes land at the offset and every byte before and after the copied range is kept |
| StringBuffer.StringBuf.constructor | mini_settings_stringbuf.c:7-12 | a valid buffer with empty contents, size 0 and exactly the requested capacity (0 allowed) |
| StringBuffer.StringBuf.EnsureCapacity | mini_settings_stringbuf.c:14-26 | contents and size are unchanged and capacity ≥ needed; nothing changes when needed already fits; otherwise the capacity becomes max(2·old+1, needed) and the new array starts with the whole old array |
| StringBuffer.StringBuf.Append | mini_settings_stringbuf.c:28-33 | contents become old contents + str, size grows by exactly \|str\|, size ≤ capacity is kept, capacity follows GrownCapacity |
| StringBuffer.StringBuf.AppendLine | mini_settings_stringbuf.c:35-41 | contents become old contents + str + '\n', size grows by \|str\|+1, size ≤ capacity is kept |
| StringBuffer.StringBuf.AppendChar | mini_settings_stringbuf.c:43-47 | contents become old contents + [c], size grows by 1, size ≤ capacity is kept |
| Ascii.SkipUtf8Bom | mini_settings_set.c:44 | scanning starts after exactly the three mark bytes when the contents start with them, and at the first byte otherwise |
| Ascii.IsSpace | mini_settings_set.c:57 | assumed definition of the whitespace the skips pass over: space, tab, newline, vertical tab, form feed and carriage return, as `isspace` in the "C" locale |
| Ascii.Utf8Bom | mini_settings_set.c:44 | assumed definition of the mark skipped before scanning: the three bytes EF BB BF |
| Ascii.SkipLeadingWhitespace | mini_settings_set.c:57 | the skip stays within the line and stops only at a non-whitespace byte or at the line end |
| Ascii.LeadingSkipped | mini_settings_set.c:67 | every byte the leading skip passes over is whitespace |
| Ascii.SkipLeadingIs | mini_settings_set.c:57 | the leading skip is determined by its stopping point: a position preceded only by whitespace and standing on a non-whitespace byte (or the end) is where it stops |
| Ascii.SkipTrailingWhitespace | mini_settings_set.c:92 | the trimmed end stays within the key region, and the key's last byte, if any, is not whitespace |
| Ascii.TrailingSkipped | mini_settings_set.c:92 | every byte trimmed from the key's end is whitespace |
| Ascii.SkipTrailingIs | mini_settings_set.c:92 | the trailing trim is determined by its stopping point: only whitespace after it, a non-whitespace byte before it |
| Ascii.MemChr | mini_settings_set.c:51 | the result lies in the searched range and, when it is not the end (NULL), holds the searched byte |
| Ascii.MemChrSkipped | mini_settings_set.c:75 | no byte before the result is the searched byte, so memchr finds the first one |
| Ascii.MemChrIs | mini_settings_set.c:75 | a position with no earlier occurrence that holds the byte (or is the end) is memchr's result |
| SettingsSpec.FindKeyFrom | mini_settings_set.c:16-21 | the search from an even start finds an even slot holding the key, and no even slot from the start before it holds the key |
| SettingsSpec.FindKey | mini_settings_set.c:12-23 | the smallest even index whose key equals the target byte for byte; None exactly when no even index holds it |
| SettingsSpec.LinesAt | mini_settings_set.c:46-55 | the lines from a position: none exactly when the position is the end of the contents |
| SettingsSpec.LinesAtInner | mini_settings_set.c:50-51 | a line ended by '\n' runs up to that '\n', and the remaining lines start just after it |
| SettingsSpec.LinesAtLast | mini_settings_set.c:52-55 | an unterminated last line is still a line, running to the end of the contents |
| SettingsSpec.Lines | mini_settings_set.c:46-55 | the contents have no lines exactly when they are empty |
| SettingsSpec.Join | mini_settings_set.c:59-60 | joined output is empty only for no lines and otherwise ends in '\n' |
| SettingsSpec.JoinAppend | mini_settings_set.c:104-111 | the output of the scanned lines followed by the appended lines is the concatenation of the two texts |
| SettingsSpec.Classify | mini_settings_set.c:94-101 | a replacement always names an even slot that has a value after it |
| SettingsSpec.Shape | mini_settings_set.c:57-92 | the scan of one line: blank, bare comment, no '=' (commented or not), or a setting whose trimmed key bounds lie within the line |
| SettingsSpec.Kinds | mini_settings_set.c:48-102 | one decision per line, each replacement naming an existing pair |
| SettingsSpec.KindsAt | mini_settings_set.c:48-102 | each line's decision depends on that line alone |
| SettingsSpec.Rendered | mini_settings_set.c:59-100 | output line k is input line k's replacement or the line itself |
| SettingsSpec.OutputLine | mini_settings_set.c:59-100 | what one accepted line becomes: the `key=value` text of the pair that replaces it, or the line itself |
| SettingsSpec.Written | mini_settings_set.c:38-101 | the pair numbers (slot / 2) whose `written` flag the scan sets: calloc clears every flag and line 101 sets the flag of each replaced line's pair |
| SettingsSpec.KvText | mini_settings_set.c:25-30 | the text write_kv emits before its '\n': key, '=', value |
| SettingsSpec.WrittenIff | mini_settings_set.c:101 | pair p is flagged written exactly when some line was replaced by slot 2p |
| SettingsSpec.WrittenFit | mini_settings_set.c:101 | every written flag names a pair whose value exists |
| SettingsSpec.FirstMissing | mini_settings_set.c:76-91 | the first rejected line: it is rejected, and no line before it is |
| SettingsSpec.AppendedSlots | mini_settings_set.c:104-108 | every appended pair number is below the number of pairs |
| SettingsSpec.AppendedSlotsIff | mini_settings_set.c:104-108 | a pair is appended exactly when it is requested and not written |
| SettingsSpec.AppendedSlotsIncreasing | mini_settings_set.c:104-108 | appended pairs come in strictly increasing request order, so each at most once |
| SettingsSpec.KvTexts | mini_settings_set.c:104-108 | the k-th appended line is the `key=value` text of the k-th appended pair |
| SettingsSpec.OutputLines | mini_settings_set.c:59-108 | the output lines of an accepted scan: each input line's output in order, then the `key=value` lines of the pairs not written |
| SettingsSpec.RewriteBody | mini_settings_set.c:46-111 | the rewrite of BOM-free contents: on success the output is empty or ends in '\n'; a failure only happens when validating and names a line by its 1-based number and its bytes |
| SettingsSpec.Rewrite | mini_settings_set.c:32-114 | mini_settings_set_sized as a function: the output is empty or ends in '\n', and a failure only happens when validating, with a line number of at least 1 |
| SettingsSpec.DigitChar | mini_settings_set.c:86 | a digit value renders as a byte between '0' and '9' |
| SettingsSpec.Decimal | mini_settings_set.c:86 | the `%zu` rendering is a non-empty run of decimal digits with no leading zero except for 0 itself |
| SettingsSpec.Message | mini_settings_set.c:82-87 | the error text for a line without a NUL byte: the fixed prefix, the line's bytes, the fixed infix and the decimal line number |
| SettingsSet.Sized | mini_settings_set.c:32-34 | the i-th requested string is read as the first kvs_sizes[i] bytes of kvs[i] |
| SettingsSet.FindKv | mini_settings_set.c:12-23 | the loop returns FindKey of the sized pairs: the smallest even slot whose key equals the line's key, None for NOT_FOUND |
| SettingsSet.WriteKv | mini_settings_set.c:25-30 | the buffer gains key, '=', value and '\n', in that order |
| SettingsSet.LinesAtStep | mini_settings_set.c:50-55 | one memchr step moves the line from `line_begin` to the scanned lines; the remaining lines start after it, or none remain |
| SettingsSet.ScanLine | mini_settings_set.c:57-92 | the scan of one line computes its shape: blank, bare comment, no '=', or the trimmed key's bounds |
| SettingsSet.DecideLine | mini_settings_set.c:57-99 | the branch taken for one line is the line's decision Classify |
| SettingsSet.RewriteLine | mini_settings_set.c:57-101 | the buffer gains the line's output line and '\n' (its `key=value` when replaced, itself when kept) and nothing when the line is rejected |
| SettingsSet.ScannedTextIs | mini_settings_set.c:59-100 | the text appended line by line equals the joined output lines |
| SettingsSet.ScanAdvance | mini_settings_set.c:48-101 | an accepted line extends the scanned lines, their decisions, the output text and the written set by exactly that line |
| SettingsSet.ScanRejects | mini_settings_set.c:76-91 | a rejected line, with no rejection before it, makes the rewrite fail with that line's 1-based number and bytes |
| SettingsSet.ScanStops | mini_settings_set.c:52-53 | a memchr starting at the end of the contents means every line has been scanned |
| SettingsSet.ScanSucceeds | mini_settings_set.c:104-111 | a scan with no rejection yields the rewrite's output: the scanned text followed by the appended pairs |
| SettingsSet.ScanStep | mini_settings_set.c:48-101 | one loop pass either fails with the line's error or appends the line's output and sets exactly its pair's written flag |
| SettingsSet.ScanLines | mini_settings_set.c:46-102 | the line loop returns the rewrite's error at the first rejected line; otherwise the buffer holds every line's output and the flags are exactly the written pairs |
| SettingsSet.AppendedTextIs | mini_settings_set.c:104-108 | the text appended pair by pair is the joined `key=value` lines of the unwritten pairs |
| SettingsSet.AppendUnwritten | mini_settings_set.c:104-108 | the buffer gains one `key=value` line per pair whose flag is clear, in request order |
| SettingsSet.SetSized | mini_settings_set.c:32-114 | the result is the rewrite of the contents with the sized pairs |
| SettingsSet.Set | mini_settings_set.c:116-130 | measuring each string by its full length, the result is the rewrite with exactly the given pairs |
| SettingsLemmas.LinesAtNoNewline | mini_settings_set.c:51 | no line from a given start holds a '\n' |
| SettingsLemmas.LinesNoNewline | mini_settings_set.c:51 | no line of the contents holds a '\n' |
| SettingsLemmas.JoinLinesAt | mini_settings_set.c:46-60 | the lines from a position, each with its '\n', give back the rest of the contents, plus a '\n' if the last line lacked one |
| SettingsLemmas.JoinLines | mini_settings_set.c:46-60 | the joined lines are the contents themselves when empty or '\n'-terminated, and the contents plus one '\n' otherwise |
| SettingsLemmas.FirstNonSpace | mini_settings_set.c:57-64 | the first skip ends the line exactly for whitespace-only lines, and stops on '#' exactly for comment lines |
| SettingsLemmas.ClassifyWithoutEquals | mini_settings_set.c:75-81 | a line without '=' is rejected exactly when validating and it is neither blank nor a comment, and is kept verbatim otherwise |
| SettingsLemmas.ClassifyWithEquals | mini_settings_set.c:75-92 | a line holding '=' always has a key and is never rejected |
| SettingsLemmas.Rejected | mini_settings_set.c:76-81 | the bytes of a line that validation rejects: not only whitespace, not a comment (first non-whitespace byte '#'), and no '=' anywhere |
| SettingsLemmas.ClassifyRejects | mini_settings_set.c:76-91 | a line is rejected if and only if validation is on and the line is not blank, not a comment and has no '=' |
| SettingsLemmas.SettingShape | mini_settings_set.c:57-92 | a line of whitespace, optional '#', whitespace, key, whitespace, '=' is scanned with exactly that key |
| SettingsLemmas.SettingReplaced | mini_settings_set.c:92-101 | `key = value` with whitespace around the key is replaced by the first requested pair with that key, and kept when the key is not requested |
| SettingsLemmas.CommentedSettingReplaced | mini_settings_set.c:64-101 | the same setting behind '#' is replaced as well, losing its '#', and kept when the key is not requested |
| SettingsLemmas.EmptyKeyReplaced | mini_settings_set.c:57-101 | a line whose first non-whitespace byte is '=' has the empty key: it is replaced by the first requested pair with the empty key, and kept when there is none |
| SettingsLemmas.CommentedEmptyKeyReplaced | mini_settings_set.c:64-101 | `# = value`, with whitespace allowed around the '#', has the empty key too and is replaced or kept the same way |
| SettingsLemmas.ReplaceIsFirstSlot | mini_settings_set.c:16-19 | a replacement never names a slot whose key occurs at an earlier even slot |
| SettingsLemmas.BomDropped | mini_settings_set.c:44 | contents starting with the byte-order mark rewrite exactly as the contents after it |
| SettingsLemmas.NoBomKept | mini_settings_set.c:44 | contents without the mark are rewritten from their first byte |
| SettingsLemmas.FailureIff | mini_settings_set.c:75-91 | the rewrite fails if and only if validation is on and some line is rejected; the error carries the first such line's 1-based number and its bytes |
| SettingsLemmas.NothingRequested | mini_settings_set.c:94-98 | with no requested pairs and no validation every line is kept |
| SettingsLemmas.PassThrough | mini_settings_set.c:46-111 | with no pairs and no validation the output is the mark-stripped contents, plus one '\n' when they are non-empty and do not end in '\n' |
| SettingsLemmas.AllAppended | mini_settings_set.c:104-108 | with nothing written every pair is appended, in request order |
| SettingsLemmas.EmptyBody | mini_settings_set.c:46-108 | empty contents yield exactly the requested pairs as `key=value` lines, in request order |
| SettingsLemmas.EveryPairOutput | mini_settings_set.c:94-108 | every requested pair's `key=value` line is in the output, as a replaced line or appended |
| SettingsLemmas.NeverLaterDuplicate | mini_settings_set.c:16-19 | no line is replaced through the later request of a key requested twice |
| SettingsLemmas.DuplicateRequestAppended | mini_settings_set.c:94-108 | the later request of a key requested twice is always appended at the end |
| SettingsLemmas.LineOutput | mini_settings_set.c:92-101 | output line k is the `key=value` of the pair whose key is line k's trimmed key when replaced, and line k itself otherwise, so every matching line is replaced |
| SettingsLemmas.DecimalRoundTrip | mini_settings_set.c:86 | the printed line number reads back as the line number |
| SettingsLemmas.DecimalWidth | mini_settings_set.c:86 | a number below 10^w prints in at most w digits |
| SettingsLemmas.MessageFits | mini_settings_set.c:82-87 | for any line number a 64-bit size_t holds, the message plus its NUL fits the 128 + line-length bytes allocated, so snprintf never truncates |
| SettingsRoundTrip.JoinFrontJoined | mini_settings_set.c:50-51 | after any prefix, joined '\n'-free lines are found one by one by memchr, each ending at its own '\n' |
| SettingsRoundTrip.LinesAtJoined | mini_settings_set.c:46-55 | the line scan from a position where such lines are found gives exactly those lines |
| SettingsRoundTrip.LinesOfJoin | mini_settings_set.c:46-55 | splitting joined '\n'-free lines gives back exactly those lines |
| SettingsRoundTrip.KvTextReplaced | mini_settings_set.c:92-101 | a `key=value` line of plain, pairwise different keys is replaced by its own pair on a second rewrite, and holds no '\n' |
| SettingsRoundTrip.ScannedLineStable | mini_settings_set.c:57-101 | each output line of a successful rewrite's input lines is accepted and output unchanged by a second rewrite |
| SettingsRoundTrip.AppendedLineStable | mini_settings_set.c:104-108 | each appended `key=value` line is accepted and output unchanged by a second rewrite |
| SettingsRoundTrip.RenderedStable | mini_settings_set.c:48-102 | lines that a rewrite each accepts and outputs unchanged produce no error and come out unchanged |
| SettingsRoundTrip.AllWritten | mini_settings_set.c:101-108 | on a second rewrite every pair's written flag ends up set, whether the first rewrite replaced it or appended it |
| SettingsRoundTrip.NoneAppended | mini_settings_set.c:104-108 | with every flag set, the final pass appends nothing |
| SettingsRoundTrip.StableOutput | mini_settings_set.c:46-111 | lines that are each unchanged by a rewrite and that set every flag rewrite to exactly their joined text |
| SettingsRoundTrip.RewriteStable | mini_settings_set.c:32-114 | with plain, pairwise different keys, rewriting a successful rewrite's output again with the same pairs gives the same bytes, unless that output starts with a byte-order mark |
| SettingsRoundTrip.OutputNoNewline | mini_settings_set.c:59-108 | with keys and values free of '\n', no output line holds a '\n' |
| SettingsRoundTrip.NoRejectionAgain | mini_settings_set.c:75-91 | rewriting a successful rewrite's lines again rejects none of them |
| SettingsRoundTrip.DuplicateKeyGrows | mini_settings_set.c:94-108 | with a key requested twice, rewriting a successful rewrite's output again succeeds but yields strictly more lines |

## Left out

- Allocation: `malloc`, `calloc`, `realloc` and `free` always succeed here. The
  `perror` and `exit(1)` path on a failed `realloc` (mini_settings_stringbuf.c:20-23) is
  not modelled. `realloc` is a fresh array holding a copy of the old one.
- Integer width: `size_t` sums (`2 * capacity + 1`, `size + n`, `128 + length`, the line
  counter) are unbounded integers. Overflow needs inputs beyond addressable memory.
- StringBuffer.StringBuf.EnsureCapacity: does not state the contents of the new array
  past the old capacity. They are unspecified, as realloc leaves them.
- The error text is an error value carrying the line number and the line's bytes.
  `MessageFits` shows the 128-byte margin always suffices. The result's `error_size`
  (snprintf's return value, which is the message length) and the `(int)` cast of the
  line length in `%.*s` are not modelled.
- SettingsSpec.Message: is the C text only for a line without a NUL byte. `%.*s`
  (mini_settings_set.c:86-87) stops at the first NUL, so for such a line the C text is
  shorter. `MessageFits` holds for it all the same.
- SettingsSet.SetSized: requires an even number of strings and sizes that fit the
  strings. The C code reads `kvs[i + 1]` and `kvs_sizes[i]` bytes unchecked, so other
  inputs are out of its contract.
- SettingsSet.Set: `strlen` (mini_settings_set.c:121-122) is the length of a sequence.
  NUL termination is not modelled: a key or value here may hold a NUL byte, where the
  C code would stop at it.
- `mini_settings_ascii.h` is not part of this model. `IsSpace` and the byte-order mark
  are assumed definitions.
- File reading and writing, the command-line tool and the callers of
  `mini_settings_set`: they are I/O and are not among the modelled files.
