# RFC 5322 addr-spec parser, modelled in Dafny

This project models the partial RFC 5322 `addr-spec` parser of `rfc5322.c` and
`rfc5322.h`. The parser works in place on a NUL-terminated C `char` array through
a cursor `char **ptr_s`. It has four layers:

- **Byte classifiers** (`Chars`): `is_atext`, `is_obs_NO_WS_CTL`, `is_ctext`,
  `is_qtext` and `is_dtext`, plus the `WSP` and `VCHAR` macros.
- **Skippers** (`Skippers`): `skip_FWS`, `skip_quoted_pair`, `skip_comment`,
  `skip_ccontent` and `skip_CFWS`. They move the cursor and never write.
- **Extractors** (`Extractors`): `get_dot_atom`, `get_quoted_string`,
  `get_domain_literal`, `get_domain` and `get_local_part`. They return 0/1, an
  output pointer and a new cursor. `get_quoted_string` and `get_domain_literal`
  each write one NUL.
- **Assembler and trimmer** (`Assembler`): `get_addr_spec` writes '@' after the
  local part and copies the domain after it. `remove_trailing_CFWS` cuts the
  string with a NUL.

How the C code is represented:

- The array is a `seq<Byte>` (bytes 0..255) whose last cell is the NUL
  (`Terminated`). The cursor and the output pointer are indices.
- Each C routine is specified by a function that returns a `Run`:
  - `Halts(v)` with the 0/1 flag, the new cursor and, for the extractors, the
    output pointer and the buffer after the writes;
  - `Stuck` when the C loop would repeat the same round forever;
  - `OverRead` when the C code would read a cell beyond the array.
- The C routines themselves are methods over an `array<Byte>`, with the same
  loops and the same writes, except that the do-while of get_domain_literal is
  one skip_FWS (see "## Left out"). Each method's `ensures` proves it equal to
  its function on every input on which that function halts.
- The lemmas state what the functions do.

The code differs from the RFC 5322 grammar in several places. The model follows
the code in each:

- `skip_CFWS` takes at most one comment, so it is not idempotent on "(a)(b)".
- `skip_FWS` accepts a CR LF that no WSP follows.
- `skip_quoted_pair` runs its obsolete branch after its standard one.
- `skip_ccontent` leaves the cursor on '(', so a nested comment never finishes.
- After '[', `get_domain_literal` needs FWS or a NUL, so "[1.2.3.4]" never
  finishes. It accepts no quoted-pair inside the brackets.
- `get_addr_spec` rejects every quoted local part.
- `get_addr_spec` copies a domain-literal without its '['.
- The `get_addr_spec` copy is longer than the domain (see "## Findings").

## Model

| member | source | states |
|---|---|---|
| Chars.AtextExactly | rfc5322.c:3-34 | the predicate `IsAtext` (is_atext) holds exactly for A-Z, a-z, 0-9 and the 19 specials of RFC 5322 section 3.2.3 |
| Chars.TextClassesExactly | rfc5322.c:68-91 | `IsCtext`, `IsQtext` (rfc5322.c:171-179) and `IsDtext` (rfc5322.c:246-255) are `IsVchar` minus its delimiters, plus `IsObsNoWsCtl` = 1-8, 11, 12, 14-31, 127 |
| Chars.ClassesExcludeSeparators | rfc5322.c:68-91 | no classifier holds for NUL, HTAB, LF, CR, SP or any byte of 128 or more |
| Chars.AtextIsNoDelimiter | rfc5322.c:3-34 | an atext byte is no WSP, CR, LF, NUL, '(', ')', '"', '[', ']', '.', '@' or '\\' |
| Skippers.WspRun | rfc5322.c:49-52 | the first loop of skip_FWS stops inside the array, at or after the cursor |
| Skippers.FoldRun | rfc5322.c:53-63 | the second loop of skip_FWS stops inside the array, at or after where the first one stopped |
| Skippers.FwsIsMaximalRun | rfc5322.c:38-66 | skip_FWS ends at the end of the unique maximal run of SP, HTAB and CR LF; a lone CR stops it |
| Skippers.Fws | rfc5322.c:38-66 | skip_FWS returns 1 exactly when it moved the cursor, and never moves it back |
| Skippers.FwsIdempotent | rfc5322.c:38-66 | a second skip_FWS at the result returns 0 and does not move |
| Skippers.FwsConsumesBareCrlf | rfc5322.c:53-59 | a CR LF is consumed even when no WSP follows it |
| Skippers.QuotedPair | rfc5322.c:96-115 | a skip_quoted_pair that stays in the array never moves the cursor back or out of the array |
| Skippers.QuotedPairCases | rfc5322.c:96-115 | skip_quoted_pair moves only on '\' followed by a byte either branch accepts, by 2 or 4 bytes; it returns 1 exactly when it moves; it never loops; it reads past the array exactly when a standard pair ends right before the final NUL |
| Skippers.BackslashBeforeNulStays | rfc5322.c:106-108 | a backslash before NUL is never consumed |
| Skippers.CommentBody | rfc5322.c:128-135 | the comment loop, where it finishes, stops at or after its start inside the array |
| Skippers.Ccontent | rfc5322.c:140-156 | skip_ccontent never moves the cursor back |
| Skippers.Comment | rfc5322.c:117-138 | skip_comment never moves the cursor back |
| Skippers.CcontentOnParen | rfc5322.c:151-153 | skip_ccontent on '(' reports 1 but leaves the cursor on the '(' |
| Skippers.CommentCases | rfc5322.c:117-138 | skip_comment returns 1 exactly on '(' and then moves; otherwise it stays |
| Skippers.CcontentIsCommentUnit | rfc5322.c:140-156 | the bytes one skip_ccontent moves over are a single comment unit: a ctext byte or a 2- or 4-byte quoted-pair |
| Skippers.CommentBodyUnits | rfc5322.c:128-135 | where the comment loop finishes, it has moved only over comment units (WSP, CR LF, ctext, quoted-pairs), either up to the NUL that stops it or up to the ')' it stops just past |
| Skippers.CommentEnd | rfc5322.c:117-138 | a finished comment stops on the NUL, also when unterminated, or just past a ')', and between the '(' and that point stand only comment units (WSP, CR LF, ctext, which excludes ')', and quoted-pairs) |
| Skippers.CommentBodyStuckOnParen | rfc5322.c:128-135 | a comment round that meets '(' after its FWS never finishes |
| Skippers.CommentBodyStuckOnByte | rfc5322.c:128-135 | a comment round on a byte that is not FWS, ctext, NUL, ')' or a consumable quoted-pair never finishes |
| Skippers.NestedCommentNeverFinishes | rfc5322.c:151-153 | a comment that opens a nested comment never finishes |
| Skippers.Cfws | rfc5322.c:158-169 | skip_CFWS never moves the cursor back |
| Skippers.CfwsMovedIffAdvanced | rfc5322.c:158-169 | skip_CFWS returns 1 exactly when it moved |
| Skippers.CfwsIdempotentUnlessParen | rfc5322.c:158-169 | a second skip_CFWS moves nothing unless the first one stopped on another '(' |
| Skippers.CfwsStaysPut | rfc5322.c:158-169 | on a byte that begins neither FWS nor a comment, skip_CFWS returns 0 and stays |
| Skippers.SkipFws | rfc5322.c:38-66 | the two C loops compute exactly Fws |
| Skippers.SkipQuotedPair | rfc5322.c:96-115 | the C code computes exactly QuotedPair |
| Skippers.SkipComment | rfc5322.c:117-138 | the C loop computes exactly Comment where it finishes |
| Skippers.SkipCcontent | rfc5322.c:140-156 | the C code computes exactly Ccontent |
| Skippers.SkipCfws | rfc5322.c:158-169 | the C code computes exactly Cfws |
| Extractors.AtomAt | rfc5322.c:228-243 | after CFWS, a dot-atom is found exactly on an atext byte; the output is that byte and the buffer is not written |
| Extractors.DotAtom | rfc5322.c:218-244 | get_dot_atom halts exactly when its skip_CFWS does; on failure the cursor and buffer are unchanged |
| Extractors.DotAtomSpan | rfc5322.c:218-244 | a match is the maximal run of atext and '.' (".." and a final '.' included) that starts at the output |
| Extractors.AtomRun | rfc5322.c:233-240 | the loop of get_dot_atom stops inside the array, at or after its start |
| Extractors.AtomRunSpan | rfc5322.c:233-240 | the run covers only atext and '.' and stops on neither |
| Extractors.QtextRun | rfc5322.c:205-207 | the qtext loop stops inside the array, at or after its start |
| Extractors.QuotedBody | rfc5322.c:203-209 | the quoted-string loop, where it finishes, stops at or after its start inside the array |
| Extractors.QuotedBodyEnd | rfc5322.c:203-209 | the quoted-string loop stops only on NUL or '"' |
| Extractors.QuotedBodyStuckOnByte | rfc5322.c:203-209 | the loop never finishes on a byte that is not FWS, qtext, NUL, '"' or a consumable quoted-pair |
| Extractors.QuotedAtContents | rfc5322.c:203-209 | between the quotes stand only WSP, CR LF, qtext and the 2- or 4-byte quoted-pairs skip_quoted_pair takes |
| Extractors.QuotedAt | rfc5322.c:198-215 | after CFWS, get_quoted_string never moves the cursor back and keeps the buffer's length and NUL; on failure the cursor and buffer are unchanged |
| Extractors.QuotedString | rfc5322.c:181-216 | get_quoted_string never moves the cursor back; on failure the cursor and buffer are unchanged |
| Extractors.QuotedStringMatch | rfc5322.c:181-216 | on success the output is the opening quote, exactly the byte after the closing quote becomes NUL and the cursor is left on it |
| Extractors.DtextBody | rfc5322.c:272-280 | the dtext loop, where it finishes, stops at or after its start inside the array |
| Extractors.DtextBodyEnd | rfc5322.c:272-280 | the dtext loop stops only on NUL or ']' |
| Extractors.DtextBodyStuckOnByte | rfc5322.c:272-280 | the dtext loop never finishes on a byte that is not FWS, dtext, NUL or ']' |
| Extractors.DomainLiteralContents | rfc5322.c:272-280 | inside the brackets stand only WSP, CR LF and dtext: no quoted-pair |
| Extractors.LiteralAt | rfc5322.c:262-287 | after CFWS, get_domain_literal never moves the cursor back and keeps the buffer's length and NUL; on failure the cursor and buffer are unchanged |
| Extractors.DomainLiteral | rfc5322.c:257-288 | get_domain_literal never moves the cursor back and keeps the buffer's length and NUL; on failure the cursor and buffer are unchanged |
| Extractors.DomainLiteralMatch | rfc5322.c:257-288 | on success '[' follows the CFWS, FWS follows the '[', the output is after that FWS, ']' becomes NUL and the cursor is left on it |
| Extractors.DomainLiteralStuckWithoutFws | rfc5322.c:267-269 | the do-while never ends when neither FWS nor NUL follows '[' |
| Extractors.DomainLiteralStart | rfc5322.c:265-271 | the output of a literal starts on dtext or on the written NUL, never on '[' |
| Extractors.Domain | rfc5322.c:290-310 | get_domain never moves the cursor back; on failure the cursor and buffer are unchanged |
| Extractors.DomainAlternatives | rfc5322.c:290-310 | get_domain is the literal, with its cursor one past the NUL, or else the dot-atom from the original cursor |
| Extractors.DomainOfDotAtom | rfc5322.c:290-310 | on an atext byte get_domain finds the dot-atom there and writes nothing |
| Extractors.DomainWithoutBracket | rfc5322.c:300-308 | with no '[' ahead, get_domain is get_dot_atom |
| Extractors.DomainKeepsStart | rfc5322.c:290-310 | get_domain writes nothing at or before its cursor |
| Extractors.LocalPart | rfc5322.c:312-328 | get_local_part never moves the cursor back; on failure the cursor and buffer are unchanged |
| Extractors.LocalPartAlternatives | rfc5322.c:312-328 | get_local_part is the quoted-string, or else the dot-atom on the untouched buffer |
| Extractors.GetDotAtom | rfc5322.c:218-244 | the C loop computes exactly DotAtom |
| Extractors.ScanQuotedBody | rfc5322.c:203-209 | the C loop computes exactly QuotedBody |
| Extractors.FindQuoted | rfc5322.c:198-214 | the C code after skip_CFWS computes QuotedAt, up to its write |
| Extractors.GetQuotedString | rfc5322.c:181-216 | the C code computes exactly QuotedString, including its one write |
| Extractors.ScanDtextBody | rfc5322.c:272-280 | the C loop computes exactly DtextBody |
| Extractors.FindLiteral | rfc5322.c:262-283 | the C code after skip_CFWS computes LiteralAt, up to its write |
| Extractors.GetDomainLiteral | rfc5322.c:257-288 | the C code computes exactly DomainLiteral, including its one write |
| Extractors.GetDomain | rfc5322.c:290-310 | the C code computes exactly Domain |
| Extractors.GetLocalPart | rfc5322.c:312-328 | the C code computes exactly LocalPart |
| Assembler.Moved | rfc5322.c:352-354 | the forward copy keeps the buffer's length and its final NUL |
| Assembler.MovedWindow | rfc5322.c:352-354 | the forward copy leaves source bytes in the window and the rest unchanged: no byte is read after it is written |
| Assembler.CopyCount | rfc5322.c:352-354 | as written the copy moves de - e - 1 bytes, at least the domain; clamped, it stays inside the array |
| Assembler.Splice | rfc5322.c:348-357 | a halting splice is found, keeps the output, keeps the buffer's length and NUL, and leaves the cursor after '@' |
| Assembler.AfterAt | rfc5322.c:342-359 | get_addr_spec after '@' never moves the cursor back, leaves it at the start when nothing is found, and keeps the buffer's length and NUL |
| Assembler.AfterLocal | rfc5322.c:337-359 | get_addr_spec after the local part never moves the cursor back, leaves it at the start when nothing is found, and keeps the buffer's length and NUL |
| Assembler.AddrSpecWith | rfc5322.c:330-360 | get_addr_spec never moves the cursor back; the buffer keeps its length and NUL; on failure the cursor is unchanged |
| Assembler.AddrSpec | rfc5322.c:330-360 | get_addr_spec as written |
| Assembler.AddrSpecClamped | rfc5322.c:330-360 | get_addr_spec with the copy stopped at the end of the array |
| Assembler.SpliceLayout | rfc5322.c:349-354 | the copy keeps the bytes before e, puts '@' at e and the domain with its stop byte from e + 1 |
| Assembler.SpliceOfDotAtom | rfc5322.c:349-357 | for a dot-atom domain the re-scan finds the copy after '@' and stops where it ends |
| Assembler.SpliceOfAdjacentDotAtom | rfc5322.c:349-357 | with neither CFWS before '@' nor CFWS after it and a dot-atom domain, the copy writes every byte onto itself and the buffer is unchanged |
| Assembler.SpliceKeepsPrefix | rfc5322.c:349-357 | any result keeps the text before e, has '@' at e and the domain's first byte after it |
| Assembler.LiteralDomainLosesBracket | rfc5322.c:353-356 | with a literal domain, the byte right after the written '@' is not '[' |
| Assembler.QuotedLocalPartRejected | rfc5322.c:334-341 | get_addr_spec fails on every quoted local part, and its NUL stays in the buffer |
| Assembler.CleanAccepted | rfc5322.c:330-360 | an address in clean form is accepted from its first byte, unchanged |
| Assembler.SpliceContents | rfc5322.c:348-357 | for a dot-atom domain the result keeps the local part, has '@' after it and the domain's bytes up to the cursor |
| Assembler.ResultIsInputParts | rfc5322.c:330-360 | with no '[' ahead, the output is the input's dot-atom local part, '@' and the bytes of the dot-atom domain get_domain found after the input's '@', and the cursor is right after them |
| Assembler.ResultIsClean | rfc5322.c:330-360 | with no '[' ahead, a successful get_addr_spec leaves local@domain in clean form from the output to the cursor |
| Assembler.AddrSpecRoundTrip | rfc5322.c:330-360 | with no '[' ahead, get_addr_spec on its own result accepts it unchanged: same cursor, same buffer |
| Assembler.AddrSpecAgrees | rfc5322.c:352-354 | where the copy as written stays in the array, clamping changes nothing |
| Assembler.SpliceClampedInBounds | rfc5322.c:352-354 | the clamped copy never leaves the array |
| Assembler.TrimTrailing | rfc5322.c:362-371 | remove_trailing_CFWS halts exactly when skip_CFWS does and keeps the buffer's length and NUL |
| Assembler.CString | tests.c:10-15 | the C string that assert_str compares runs to the first NUL and holds none |
| Assembler.TrimCutsString | rfc5322.c:362-371 | it writes NUL at the cursor exactly when CFWS follows, cutting the string there, changes no other byte, and otherwise writes nothing |
| Assembler.TrimIdempotent | rfc5322.c:362-371 | a second remove_trailing_CFWS at the same cursor removes nothing |
| Assembler.CopyForward | rfc5322.c:352-354 | the C loop computes exactly Moved |
| Assembler.SpliceIn | rfc5322.c:348-357 | the C code computes exactly Splice as written |
| Assembler.AddrSpecAfterAt | rfc5322.c:342-357 | the C code after '@' computes exactly AfterAt |
| Assembler.GetAddrSpec | rfc5322.c:330-360 | the C code computes exactly AddrSpec wherever it halts |
| Assembler.RemoveTrailingCfws | rfc5322.c:362-371 | the C code computes exactly TrimTrailing |
| Scenarios.CopyPastTheEnd | rfc5322.c:352-354 | "a  @b" makes the copy read past a 6-byte array |
| Scenarios.TwoComments | rfc5322.c:163-166 | skip_CFWS on "(a)(b)" stops after the first comment and a second call moves again |
| Scenarios.CommentStopsAtFirstClose | rfc5322.c:128-135 | on "(a)b)" skip_comment stops just past the first ')' |
| Scenarios.LiteralWithoutSpace | rfc5322.c:267-269 | get_domain on "[1.2.3.4]" never finishes |
| Scenarios.NestedComment | rfc5322.c:151-153 | skip_CFWS on "(a(b))" never finishes |
| Scenarios.Test9LocalPart | tests.c:86-89 | get_local_part on test #9's text finds "pete" and leaves the cursor after it |
| Scenarios.Test9Cfws | tests.c:90-96 | skip_CFWS after "pete" consumes " ( his account)" and stops on '@' |
| Scenarios.Test9AsWritten | tests.c:116-118 | with test #9's 41-byte array, get_addr_spec as written reads past the array |
| Scenarios.Test9ClampedSplice | tests.c:116-118 | with the clamped copy, test #9 succeeds with the output at 0 and the cursor at 15 |
| Scenarios.Test9Strings | tests.c:119-120 | the output reads "pete@silly.test(his host)" and the remainder "(his host)" |
| Scenarios.Test9Trim | tests.c:130-134 | remove_trailing_CFWS at the remainder removes it, and the output reads "pete@silly.test" |

## Left out

- tests.c as a harness (stdio, `exit`, `strcpy`, `strcmp`): its number 9 is stated as lemmas in `Scenarios`, and number 7 through `Test9LocalPart` and `Test9Cfws`; the other tests are not restated, as they only exercise the proved properties on fixed texts.
- C `char` signedness: bytes are 0..255; every classifier is false on 128..255 under either signedness.
- obs-local-part and obs-domain: the source does not implement them.
- The output pointer after a 0 result: rfc5322.h leaves it unspecified, and the methods promise nothing about it.
- Extractors.QuotedString: the contents between the quotes are stated at the level of `QuotedAt`, after the CFWS, by `QuotedAtContents`.
- The methods require their specification function to halt: on `Stuck` the C loop runs forever and on `OverRead` it reads outside the array, neither of which a Dafny method can perform.
- Assembler.GetAddrSpec: it runs the copy as written, so it is proved only where `AddrSpec` halts; the clamped copy is stated on values only.
- Assembler.AddrSpecRoundTrip: stated only for inputs with no '[' after the cursor, because a literal domain's copied text loses its bracket and can stop inside the domain.
- Assembler.ResultIsClean: stated only for inputs with no '[' after the cursor, for the same reason.
- Assembler.ResultIsInputParts: stated only for inputs with no '[' after the cursor, for the same reason.
- Extractors.FindLiteral: the do-while at rfc5322.c:267-269 is one skip_FWS call, not a loop; a second round would start where the first did and repeat it forever, which the method's requires (`LiteralAt` halts) excludes.
- The 0/1 results are `bool`s; rfc5322.h promises nothing else.

## Findings

| source | as written | input that shows it | evidently intended | confidence | as-written member | corrected member |
|---|---|---|---|---|---|---|
| rfc5322.c:352-354 | the copy runs while the destination is below the domain's end, so it moves de - e - 1 bytes, which is more than the domain by the length of the skipped text | test #9's text in its 41-byte array (tests.c:87-88, 118): the copy reads cells 41 to 44; also "a  @b" in a 6-byte array | the copy stops within the array (enough to supply the domain and the bytes the re-scan reads) | not executed | Scenarios.Test9AsWritten | Assembler.AddrSpecClamped |
