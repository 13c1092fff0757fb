# htmlToCsv: a verified model of the chat-log message extractor

`htmlToCsv.py` reads the lines of a chat-log HTML export and collects the
messages in it. It does not parse HTML. It recognises fixed marker strings:

- a blank line (`"\n"`) is skipped;
- a line holding `chatlog__attachment"` stands for an image and yields `$IMAGE$`;
- any other line that lacks `">\n` is glued to the following physical lines,
  each join dropping the last character and inserting `". "`, until the glued
  text holds `">\n`;
- if the glued (logical) line mentions `markdown` and is not an embedded-link
  title (`chatlog__embed-`), `getMessage` extracts the first
  `markdown">…</div` span: `$LINK$` when that span is a link, otherwise the
  text between the markers. The message is kept only if it is longer than one
  character, but the line is counted either way;
- after 95 counted lines the scan stops. The messages are then written one per
  line.

The model is in five modules:

- `Wrappers` (wrappers.dfy): `Option` and `Result`.
- `Strings` (strings.dfy): substring occurrence (`StartsAt`, `Contains`, Python's
  `in`) and `DropLast` (Python's `s[:len(s)-1]`).
- `Extract` (extract.dfy): `getMessage`. The pattern `markdown">.*?</div` is
  modelled as the search the regular-expression engine performs for it. The match
  starts at the leftmost index where `markdown">` is followed by `</div` with no
  newline in between. From that start, the match ends at the nearest such `</div`.
  `IsFirstMatch` states this as a predicate, and `FirstMatch` is proved to find it.
- `Scanner` (scanner.dfy): one turn of the loop on line `i`. This covers the blank
  and attachment checks, the gluing (`Reassemble`, and the method
  `ReassembleLine` with the inner `while` loop), and message handling. The result
  is a per-line `Effect`: the messages the line appends and whether it counts
  toward `cap`.
- `Driver` (driver.dfy): the `for` loop. `ScanFrom`/`Run` follow the loop turn by
  turn over the per-line effects. `Prefix` sums the effects of a prefix of the
  document. The lemmas show that the loop's output equals the prefix sum up to the
  95th counted line, or up to the end of the document. The method `ScanLines` runs
  the loop with `msgs` and `cap` as local state and is proved to compute `Scan`.
- `Output` (output.dfy): the text written to the output file (`Render`) and its
  reading back line by line (`SplitLines`).

The scan loop can fail at run time in two ways. Both are IndexErrors, and both are
modelled as `ScanError` values:

- `Unterminated(i)`: gluing runs past the last line (`lines[j]` at line 61).
- `NoMessageSpan(i)`: `getMessage` finds no span (`[0]` on an empty list at
  line 30).

On either error the script stops before it opens the output file, so the model
returns the error and no messages.

Strings are `seq<char>` with Dafny's default Unicode characters, so lengths
count code points as Python's `len` does.

This model follows the code of `htmlToCsv.py` as written:

- a fixed cap of 95;
- no author or timestamp state (`AUTHOR_INDIC` and `TIME_INDIC` are declared but
  never used);
- no cleaning;
- the gluing loop does not make the outer loop skip the lines it consumed.

## Model

| member | source | states |
|---|---|---|
| Extract.FindClose | htmlToCsv.py:18 | the lazy `.*?</div` from an index: the result is the nearest `</div` at or after it, with no newline before it; when there is none, every later `</div` has a newline before it |
| Extract.FindMatch | htmlToCsv.py:18 | the result is a match of the pattern whose start is at or after the given index; it has the least start, and for that start the least end; when there is none, no match starts at or after the index |
| Extract.FirstMatch | htmlToCsv.py:30 | the first element of `re.findall(RE_MESSAGE, line)`, located: the result is the first match (leftmost start, then nearest `</div`); when there is none, the pattern matches nowhere in the line |
| Extract.GetMessage | htmlToCsv.py:29-34 | getMessage fails (IndexError on the empty match list) exactly when the pattern matches nowhere in the line; a returned message never holds a newline |
| Extract.FirstMatchUnique | htmlToCsv.py:30 | any span that satisfies the first-match property is the one FirstMatch returns |
| Extract.GetMessageOfFirstMatch | htmlToCsv.py:30-34 | for the first match `line[p..q+5]`: the result is `$LINK$` if that span holds `markdown"><a href=`; otherwise the result is exactly the text `line[p+10..q]` strictly between `markdown">` and `</div`, 15 characters shorter than the span, and holds neither `</div` nor a newline |
| Extract.LazyBodyHasNoClose | htmlToCsv.py:18 | the lazy `.*?` of the first match stops at the first `</div`: the text between the markers holds no `</div` |
| Scanner.JoinedPieces | htmlToCsv.py:59-62 | a logical line glued from physical lines `i..j` is lines `i..j-1` each without its last character and followed by `". "`, then line `j` (when the glued-over lines are not empty) |
| Scanner.ReassembleAt | htmlToCsv.py:59-62 | gluing from line `i` stops at the first `j` whose glued text holds `">\n`, and yields that text |
| Scanner.ReassembleFails | htmlToCsv.py:59-62 | when no glued text up to the last line holds `">\n`, gluing runs past the end: `Unterminated(i)` |
| Scanner.ReassembleLine | htmlToCsv.py:59-62 | the inner `while` loop computes exactly the reassembly specification, including the error when it runs past the last line |
| Scanner.GluedLineRescanned | htmlToCsv.py:48-62 | a line without `">\n` followed by a terminated line is glued to it (last character dropped, `". "` inserted), and the following line, which the outer loop visits next, is scanned again on its own |
| Scanner.LastLineUnterminated | htmlToCsv.py:51-62 | when the last line is neither blank nor an attachment and lacks `">\n`, its effect is `Unterminated` on that line: gluing runs past the end of the document |
| Scanner.MessageEffect | htmlToCsv.py:63-69 | a logical line counts toward `cap` exactly when it mentions `markdown`, is not an embed title and getMessage succeeds; it fails exactly when getMessage fails on such a line; a counted line appends getMessage's result when that is longer than one character and nothing otherwise; a line that does not count appends nothing; every appended message is longer than one character and without a newline |
| Scanner.LineEffect | htmlToCsv.py:51-69 | a blank line appends nothing and leaves `cap` alone; an attachment line appends exactly `$IMAGE$`, leaves `cap` alone and is never glued; any line appends at most one message, longer than one character and without a newline |
| Scanner.GluedLineEffect | htmlToCsv.py:52-65 | a line that is neither blank nor an attachment is glued up to the first line that holds `">\n`; when the glued text is no message line the line appends nothing and does not count, and when it is one but the pattern matches nowhere the line fails with `NoMessageSpan` |
| Scanner.GluedLineMessage | htmlToCsv.py:29-69 | for such a line whose glued text is a message line with first match `p..q`: it appends `$LINK$` when the span is a link, otherwise the text between `markdown">` and `</div` when that is longer than one character and nothing when not; it counts toward `cap` either way |
| Driver.EffectsTidy | htmlToCsv.py:55-68 | every line's effect appends at most one message, and every appended message is longer than one character and free of newlines |
| Driver.ScanReaches | htmlToCsv.py:48-51 | below the cut-off, the loop reaches every line `k` (continuation lines included) with the messages and count of lines `0..k-1` |
| Driver.RunToEnd | htmlToCsv.py:48-71 | when every line scans without error and fewer than 95 lines are counted, the output is the messages of all lines in document order |
| Driver.RunStopsAtCap | htmlToCsv.py:69-71 | when line `n-1` is the 95th counted line, the output is the messages of lines `0..n-1`, whatever follows |
| Driver.RunFailsAt | htmlToCsv.py:48-71 | an error on a line the loop reaches is the result of the whole scan |
| Driver.ScanFailsAtLastLine | htmlToCsv.py:48-62 | when the loop reaches a last line that is neither blank nor an attachment and lacks `">\n`, the whole scan fails with `Unterminated` on that line |
| Driver.PrefixCountBound | htmlToCsv.py:63-69 | after `n` lines, `cap` is at most `n` and at most `n` messages have been collected |
| Driver.ScanFromClean | htmlToCsv.py:48-71 | from any point of the loop, messages appended to newline-free messages longer than one character keep that property |
| Driver.ScanClean | htmlToCsv.py:48-71 | every collected message is longer than one character and holds no newline |
| Driver.ScanLine | htmlToCsv.py:50-69 | one turn of the loop body (blank and attachment checks, gluing, getMessage, the length filter) computes exactly the per-line effect |
| Driver.ScanLines | htmlToCsv.py:41-71 | the loop with `msgs`, `cap` and the `break` at 95 computes exactly the scan specification |
| Output.RenderLength | htmlToCsv.py:75-77 | the output text is the total length of the messages plus one newline per message |
| Output.RenderAppend | htmlToCsv.py:75-77 | writing two runs of messages in turn writes their texts in turn |
| Output.SplitRender | htmlToCsv.py:75-77 | reading newline-free messages back line by line from their output gives the same messages in order |
| Output.OutputReadsBack | htmlToCsv.py:75-77 | the file written for a document that scans without error reads back, line by line, as exactly the collected messages |

## Left out

- Command-line parsing with argparse (htmlToCsv.py:86-89): the input path only
  chooses what the lines are.
- Opening, reading, writing and closing files (lines 37, 46, 72, 74, 77-78): the
  input is a sequence of lines as `readlines` returns them, and the output is the
  text `Render` produces.
- The debug printing of the last messages (lines 81-82). It prints `msgs[len(msgs)-5]`
  through the last message, and raises an IndexError when fewer than three messages
  were collected (`msgs[-5]` on an empty list, `msgs[-3]` on two messages). That
  failure is not modelled: it comes after the output file has been written and
  closed (line 78), so the file is complete and only the console output and the
  exit status differ.
- The unused constants `AUTHOR_INDIC` and `TIME_INDIC` (lines 12-13), and the
  unused variables `lastUser` and `lastTimes`: nothing reads them.
- General regular-expression semantics: only the one fixed pattern is modelled,
  as the search it denotes.
- Both IndexErrors are modelled as `ScanError` values that carry the index of the
  line being scanned. The Python traceback and exit status are not modelled.
- `Scan` takes the effect of every line (`Effects`), where the script stops
  looking at lines after the cut-off. The per-line effects are total functions,
  so nothing changes: `RunStopsAtCap` shows that lines after the cut-off do not
  affect the result.
