# libgit2 commit parsing, modelled in Dafny

This project models the three parsers that libgit2's commit test tables
(`tests-clar/commit/parse.c`) pin down, and proves properties about them:

- **Header lines** (`git_oid__parse`): a literal header, exactly 40
  hexadecimal digits of either case, then a newline. The cursor moves to just
  past the newline.
- **Signature lines** (`git_signature__parse`): `<header><name> <<email>>
  <time> <±HHMM><ender>`. The name runs from the header to the first `<`, and
  the email from there to the first `>`; both are trimmed. The time fields
  come from the last words of the line. A missing or malformed time or zone is
  tolerated: both fields are then 0 and the parse still succeeds. A wrong
  header, a missing `<` or `>` or a missing terminator makes the parse fail.
- **Commit buffers** (`git_commit__parse_buffer`), in this order:
  - a `tree` line;
  - any number of `parent` lines;
  - an `author` line and a `committer` line;
  - then either the end of the buffer, or a blank line and the message.
- The **parent accessor** `git_commit_parent`: index `i` succeeds exactly when
  `i` is below the parent count.

Every parser works on the text from the cursor onwards. It returns a
`Result` holding the parsed value and the number of characters consumed.
Success and failure map to the C return code through `Results.ReturnCode`:
a code of 0 or more means success, a negative code means failure, as the
test macros expect.

The files:

- `results.dfy` — `Option`, `Result`, error kinds, `Parsed`, `ReturnCode`.
- `text.dfy` — character classes, trimming, word scanning and decimal values.
- `oid.dfy` — object ids, hexadecimal decoding and encoding, header lines.
- `signature.dfy` — time, zone and signature parsing, signature formatting.
- `commit.dfy` — parent lines, the author and committer pair, whole buffers,
  serialisation and the parent accessor.
- `cases.dfy` — every row of the test tables, stated as a lemma about the
  model. Each row's text is written as a concatenation of short literal
  pieces. Each piece is either the table's own text or a named constant
  spelled from it.

For signature lines, the email is taken between the first `<` after the
header and the first `>` after that `<`. Two rows of the signature table
settle this. At `parse.c:120` a second `<…>` pair follows the email and is
ignored. At `parse.c:123` the name itself contains a `>`. The model follows
that reading throughout.

## Model

| member | source | states |
|---|---|---|
| Results.ReturnCode | tests-clar/clar.h:20-21 | the code is at least 0 exactly when the parse succeeded, and negative exactly when it failed |
| Oid.ParseOidLine | tests-clar/commit/parse.c:24-47 | on success the id is 20 bytes; the line is the header, 40 characters and a newline, and the cursor lands just past that newline; every failure is a malformed header |
| Oid.OidLineAccepts | tests-clar/commit/parse.c:24-34 | a header, any 40 hexadecimal digits of either case and a newline parse to the id those digits spell, with the cursor after the newline, whatever follows |
| Oid.OidLineExactly | tests-clar/commit/parse.c:36-47 | the parse succeeds if and only if the text starts with the header, 40 hexadecimal digits and a newline, and then yields that id |
| Oid.SameIdIgnoringCase | tests-clar/commit/parse.c:29-32 | two hexadecimal spellings give the same id exactly when they agree once lower-cased |
| Oid.DecodeEncode | tests-clar/commit/parse.c:25-32 | decoding the lower-case spelling of any bytes gives those bytes back |
| Oid.EncodeDecode | tests-clar/commit/parse.c:25-32 | spelling decoded digits again gives their lower-case form |
| Oid.OidLineRoundTrip | tests-clar/commit/parse.c:54-61 | an id written as a header line reads back as that id, with the cursor at the end of the line |
| Oid.OidLineTruncated | tests-clar/commit/parse.c:37-40 | cutting an accepted line anywhere before its newline makes it fail |
| Oid.OidLineCut | tests-clar/commit/parse.c:63-69 | cutting a rejected text still leaves it rejected |
| Oid.OidLineLocal | tests-clar/commit/parse.c:54-61 | the parse depends only on the line itself, not on what follows it |
| Signatures.ParseSeconds | tests-clar/commit/parse.c:116-118 | a timestamp is a non-empty run of digits no larger than the 64-bit maximum |
| Signatures.SecondsRoundTrip | tests-clar/commit/parse.c:84-91 | the decimal numeral of any timestamp in range reads back as that timestamp |
| Signatures.ParseZone | tests-clar/commit/parse.c:86-91 | a zone is accepted exactly when it is a sign and four digits with at most 14 hours and at most 59 minutes; the offset is then in range, a negative offset comes from a '-' and a positive one from a '+' |
| Signatures.ZoneRoundTrip | tests-clar/commit/parse.c:86-91 | every valid offset, written as `±HHMM`, reads back as itself, so `+1020` is 620 and `-0100` is -60 |
| Signatures.ZoneCanonical | tests-clar/commit/parse.c:86-91 | an accepted zone is the canonical spelling of its offset, or `-0000` for a zero offset, so parsing and formatting are inverse in both directions |
| Signatures.ParseWhen | tests-clar/commit/parse.c:113-123 | the time fields are always in range, whatever follows the email |
| Signatures.WhenOfBlank | tests-clar/commit/parse.c:119 | nothing but spaces after the email gives time 0 and offset 0 |
| Signatures.WhenOfSecondsOnly | tests-clar/commit/parse.c:116-117 | when the last word has no sign it is the timestamp, after any free text, with offset 0; if it is not a number both fields are 0 |
| Signatures.WhenOfSecondsAndZone | tests-clar/commit/parse.c:118-121 | when the last word has a sign it is the zone and the word before it the timestamp; both must be valid or both fields are 0 |
| Signatures.ParseSignature | tests-clar/commit/parse.c:143-168 | on success the cursor lands just past a terminator that comes after the header; every failure is a malformed signature |
| Signatures.SignatureLine | tests-clar/commit/parse.c:143-168 | a parsed line starts with the header, and the terminator it stops at is the first one in the text |
| Signatures.SignatureAcceptsExactly | tests-clar/commit/parse.c:132-141 | the parse succeeds if and only if the text starts with the header and, before the first terminator, has a '<' followed by a '>' |
| Signatures.SignatureAt | tests-clar/commit/parse.c:84-123 | the name is the trimmed text before the first '<' after the header, the email the trimmed text up to the first '>' after it, and the time comes from the rest of the line |
| Signatures.SignatureAccepts | tests-clar/commit/parse.c:84-123 | a header, a name without '<', '<', an email without '>', '>', a tail and the terminator parse to the trimmed name, the trimmed email and the tail's time, whatever follows |
| Signatures.ParsedSignatureWellFormed | tests-clar/commit/parse.c:150-157 | whatever is parsed is trimmed, free of its delimiters and of the terminator, and has its time fields in range |
| Signatures.SignatureRoundTrip | tests-clar/commit/parse.c:84-91 | a well-formed signature written as a line reads back as itself, with the cursor at the end of the line |
| Signatures.SignatureTruncated | tests-clar/commit/parse.c:139 | cutting an accepted line anywhere before its terminator makes it fail |
| Signatures.SignatureLocal | tests-clar/commit/parse.c:146-151 | the parse depends only on the text up to the terminator |
| Signatures.SignaturePrefix | tests-clar/commit/parse.c:146-151 | dropping text after the terminator does not change the parse |
| Signatures.SignatureExtended | tests-clar/commit/parse.c:146-151 | appending text after an accepted line does not change the parse |
| Text.TrimPadded | tests-clar/commit/parse.c:93-111 | spaces around a name or email are dropped and nothing else is |
| Text.TrimIdempotent | tests-clar/commit/parse.c:93-111 | trimming an already trimmed field changes nothing |
| Commits.ParseParents | tests-clar/commit/parse.c:233-238 | parent lines are read for as long as there are any; the ids are valid and what follows is not a parent line |
| Commits.ParentsStep | tests-clar/commit/parse.c:233-238 | after one parent line come the parents of the text that follows it |
| Commits.ParentLines | tests-clar/commit/parse.c:233-238 | the i-th parent read is the id on the i-th 48-character parent line |
| Commits.ParentsRoundTrip | tests-clar/commit/parse.c:233-238 | parent lines written from ids read back as those ids and consume exactly those lines |
| Commits.ParentsPrefix | tests-clar/commit/parse.c:233-238 | dropping text after the parent lines does not change them |
| Commits.ParentsCut | tests-clar/commit/parse.c:200-210 | a cut inside the parent lines keeps only the parent lines that are still whole |
| Commits.ParsePeople | tests-clar/commit/parse.c:216-238 | on success the text starts with "author ", and both signatures are well formed |
| Commits.PeopleStep | tests-clar/commit/parse.c:216-238 | the pair is the author line's signature followed by the committer line's signature |
| Commits.PeopleRoundTrip | tests-clar/commit/parse.c:216-238 | an author line and a committer line written from signatures read back as those signatures |
| Commits.PeopleTruncated | tests-clar/commit/parse.c:200-210 | cutting the author and committer lines anywhere before their end makes them fail |
| Commits.PeoplePrefix | tests-clar/commit/parse.c:216-238 | dropping text after the committer line does not change the pair |
| Commits.NoAuthorLine | tests-clar/commit/parse.c:200-210 | empty text, or text starting with 'p', has no author line |
| Commits.ParseHeaders | tests-clar/commit/parse.c:216-238 | accepted headers make a valid commit with no message and consume part of the buffer |
| Commits.HeadersRoundTrip | tests-clar/commit/parse.c:216-238 | the header lines of a commit read back as that commit without its message, whatever follows them |
| Commits.HeadersTruncated | tests-clar/commit/parse.c:200-210 | cutting accepted headers anywhere before their end makes both the headers and the buffer fail |
| Commits.HeadersPrefix | tests-clar/commit/parse.c:221-231 | dropping the message does not change the headers |
| Commits.HeadersNeedTree | tests-clar/commit/parse.c:175-198 | without a tree line first there are no headers |
| Commits.HeadersNeedPeople | tests-clar/commit/parse.c:200-210 | without author and committer lines after the parent lines there are no headers |
| Commits.BufferNeedsHeaders | tests-clar/commit/parse.c:241-260 | a buffer without headers is rejected |
| Commits.ParseMessage | tests-clar/commit/parse.c:216-231 | after the headers there must be either nothing or a blank line; the message is the rest, with or without a final newline |
| Commits.ParseBuffer | tests-clar/commit/parse.c:241-289 | an accepted buffer is a valid commit; every failure is a malformed commit |
| Commits.CommitRoundTrip | tests-clar/commit/parse.c:216-238 | a commit written as a buffer reads back as itself |
| Commits.HeadersOnly | tests-clar/commit/parse.c:216-219 | a buffer that stops right after the committer line reads as the commit with an empty message |
| Commits.TreeLineFirst | tests-clar/commit/parse.c:175-198 | an accepted buffer starts with "tree " and has a newline right after the 40 digits |
| Commits.AuthorAfterParents | tests-clar/commit/parse.c:200-210 | in an accepted buffer, the parent lines are followed by "author " |
| Commits.Parent | tests-clar/commit/parse.c:334-346 | parent `i` succeeds exactly when `i` is below the parent count, returns the i-th parent, and otherwise fails as out of range |
| Commits.ParsedParent | tests-clar/commit/parse.c:334-346 | parent `i` of a parsed commit is the id on the i-th parent line after the tree line |
| Cases.HeaderAccepted | tests-clar/commit/parse.c:54-61 | a header, 40 hexadecimal digits and a newline pass, with the cursor at the end of the text |
| Cases.PassingHeader0 | tests-clar/commit/parse.c:25 | a "parent " line passes and the cursor reaches the end |
| Cases.PassingHeader1 | tests-clar/commit/parse.c:26 | a "tree " line passes and the cursor reaches the end |
| Cases.PassingHeader2 | tests-clar/commit/parse.c:27 | an arbitrary header passes |
| Cases.PassingHeader3 | tests-clar/commit/parse.c:28 | a header with no trailing space passes: no separator is implied |
| Cases.PassingHeader4 | tests-clar/commit/parse.c:29 | upper-case digits pass |
| Cases.PassingHeader5 | tests-clar/commit/parse.c:30 | upper-case digits pass |
| Cases.PassingHeader6 | tests-clar/commit/parse.c:31 | upper-case digits pass |
| Cases.PassingHeader7 | tests-clar/commit/parse.c:32 | upper-case digits pass |
| Cases.FailingHeaders | tests-clar/commit/parse.c:36-47 | each failing row fails: no newline, no header, no space, a short id, a doubled space, a non-hexadecimal digit, and the empty line |
| Cases.SignatureRow | tests-clar/commit/parse.c:146-157 | a row built from pieces passes with the trimmed name, the trimmed email and the tail's time |
| Cases.PassingSignature0 | tests-clar/commit/parse.c:84 | name, email, timestamp 12345 and offset 0 |
| Cases.PassingSignature1 | tests-clar/commit/parse.c:85 | an empty email |
| Cases.PassingSignature2 | tests-clar/commit/parse.c:86 | zone +1020 gives offset 620 |
| Cases.PassingSignature3 | tests-clar/commit/parse.c:87 | a long name |
| Cases.PassingSignature4 | tests-clar/commit/parse.c:88 | a long email |
| Cases.PassingSignature5 | tests-clar/commit/parse.c:89 | zone +0000 gives offset 0 |
| Cases.PassingSignature6 | tests-clar/commit/parse.c:90 | zone +0100 gives offset 60 |
| Cases.PassingSignature7 | tests-clar/commit/parse.c:91 | zone -0100 gives offset -60 |
| Cases.PassingSignature8 | tests-clar/commit/parse.c:93 | an empty name |
| Cases.PassingSignature9 | tests-clar/commit/parse.c:95 | an empty name after one space |
| Cases.PassingSignature10 | tests-clar/commit/parse.c:97 | an empty name after two spaces |
| Cases.PassingSignature11 | tests-clar/commit/parse.c:99 | an empty email |
| Cases.PassingSignature12 | tests-clar/commit/parse.c:101 | an email of one space trims to empty |
| Cases.PassingSignature13 | tests-clar/commit/parse.c:103 | empty name and email |
| Cases.PassingSignature14 | tests-clar/commit/parse.c:105 | empty name and email, a space before '<' |
| Cases.PassingSignature15 | tests-clar/commit/parse.c:107 | empty name and email with spaces |
| Cases.PassingSignature16 | tests-clar/commit/parse.c:109 | no space before the '<' |
| Cases.PassingSignature17 | tests-clar/commit/parse.c:111 | leading spaces in the name and no space after '>' |
| Cases.PassingSignature18 | tests-clar/commit/parse.c:113 | nothing after the email gives time 0 and offset 0 |
| Cases.PassingSignature19 | tests-clar/commit/parse.c:114 | zone -1500 is out of range: both fields are 0 |
| Cases.PassingSignature20 | tests-clar/commit/parse.c:115 | zone +0163 is out of range: both fields are 0 |
| Cases.PassingSignature21 | tests-clar/commit/parse.c:116 | a timestamp that is not a number gives 0 and 0 |
| Cases.PassingSignature22 | tests-clar/commit/parse.c:117 | a zone that is not a zone gives 0 and 0 |
| Cases.PassingSignature23 | tests-clar/commit/parse.c:118 | a bad timestamp before a valid zone gives 0 and 0 |
| Cases.PassingSignature24 | tests-clar/commit/parse.c:119 | a line ending at the '>' gives 0 and 0 |
| Cases.PassingSignature25 | tests-clar/commit/parse.c:120 | with a second bracket pair the first is the email, and the time comes from the last two words |
| Cases.PassingSignature26 | tests-clar/commit/parse.c:121 | free text before the time is skipped |
| Cases.PassingSignature27 | tests-clar/commit/parse.c:122 | free text before a lone timestamp is skipped, offset 0 |
| Cases.PassingSignature28 | tests-clar/commit/parse.c:123 | a '>' in the name stays in the name |
| Cases.OpensTooLate | tests-clar/commit/parse.c:133 | a line whose only '<' characters sit among its last two characters fails |
| Cases.ClosesNever | tests-clar/commit/parse.c:137 | a line without a '>' before its last character fails |
| Cases.EndsNever | tests-clar/commit/parse.c:139 | a line without a terminator fails |
| Cases.HeaderMismatch | tests-clar/commit/parse.c:134-135 | a line that differs from the header at some position fails |
| Cases.FailingSignature0 | tests-clar/commit/parse.c:133 | no '<' fails |
| Cases.FailingSignature1 | tests-clar/commit/parse.c:134 | a header with a doubled space fails |
| Cases.FailingSignature2 | tests-clar/commit/parse.c:135 | the wrong header fails |
| Cases.FailingSignature3 | tests-clar/commit/parse.c:136 | no email fails |
| Cases.FailingSignature4 | tests-clar/commit/parse.c:137 | an unclosed email fails |
| Cases.FailingSignature5 | tests-clar/commit/parse.c:138 | '>' before '<' fails |
| Cases.FailingSignature6 | tests-clar/commit/parse.c:139 | a header with no terminator fails |
| Cases.NoTreeLine | tests-clar/commit/parse.c:175-198 | a buffer that does not open with a 46-character line starting with 't' and ending in a newline fails |
| Cases.TreeLineRunsOn | tests-clar/commit/parse.c:179-191 | a tree id followed by anything but a newline fails |
| Cases.TreeThenCutParent | tests-clar/commit/parse.c:200-210 | a tree line followed by less than a whole parent line fails |
| Cases.FailingCommit0 | tests-clar/commit/parse.c:175 | the empty buffer fails |
| Cases.FailingCommit1 | tests-clar/commit/parse.c:177 | random text fails |
| Cases.FailingCommit2 | tests-clar/commit/parse.c:179-184 | CRLF line ends fail |
| Cases.FailingCommit3 | tests-clar/commit/parse.c:186-191 | a buffer with no newlines fails |
| Cases.FailingCommit4 | tests-clar/commit/parse.c:193-198 | a leading newline fails |
| Cases.FailingCommit5 | tests-clar/commit/parse.c:200-201 | a parent line cut inside its id fails |
| Cases.FailingCommit6 | tests-clar/commit/parse.c:203-207 | a parent line cut after its header fails; the table lists this buffer twice |
| Cases.FailingCommit7 | tests-clar/commit/parse.c:209-210 | a parent line cut inside its header fails |
| Cases.CommitOfLines | tests-clar/commit/parse.c:262-275 | a tree line, whole parent lines, author and committer lines, and an empty body or one starting with a blank line pass |
| Cases.PassingCommit0 | tests-clar/commit/parse.c:216-219 | no parent and an empty message pass |
| Cases.PassingCommit1 | tests-clar/commit/parse.c:221-225 | no parent and a one-line message pass |
| Cases.PassingCommit2 | tests-clar/commit/parse.c:227-231 | a message without a final newline passes |
| Cases.PassingCommit3 | tests-clar/commit/parse.c:233-238 | one parent and a message pass |

## Left out

- tests-clar/online/clone.c is not part of this model. It covers network clones, credential and progress callbacks, and the working directory, all of which are I/O.
- The test harness in tests-clar/clar.h is left out apart from its sign convention, which `Results.ReturnCode` carries.
- Repository and object-database access is left out:
  - the sandbox fixture;
  - `git_commit_lookup`;
  - loading the parent commit behind an id;
  - the fixture-specific facts of `test_commit_parse__details0` (author "Scott Chacon", at most two parents, a positive commit time).

  Only the index bound of the parent accessor is modelled.
- `git_commit_time` and the message accessor are not modelled. The commit's fields are available directly.
- Memory management is left out: allocation and freeing, and the second parse after a free (parse.c:277-287). Parsing is a pure function, so a repeated parse gives the same result.
- Extra commit headers (for example `encoding`) are not modelled. No row exercises them. After the committer line, the model accepts only the end of the buffer or a blank line.
- Commits.HeadersOnly: a buffer that ends right after the committer line is accepted with an empty message. This is the library's allowance; no row in the tables shows it.
- Signatures.ParseSeconds: the library reads the timestamp with `strtol`-style leniency (a sign, leading spaces). The model accepts only a run of digits up to the 64-bit maximum. The rows agree with both.
- Signatures.ParseWhen: how the words after the email are read is a choice that agrees with every row at `parse.c:113-123`. The library's signature parser is not part of this model. The model reads a last word without a sign as the timestamp, whatever comes before it. So ` 123456 7` gives time 7 and offset 0. A reader that takes the word after a valid timestamp as a malformed zone would give 0 and 0. A word that is not a plain run of digits, such as `123abc`, also gives 0 and 0, where `strtol` would read 123.
- Signatures.ParseZone: the tables fix only two out-of-range zones (`-1500`, `+0163`). The bound of 14 hours and 59 minutes is one rule that agrees with every row.
- Byte strings are modelled as `seq<char>`. The rows are ASCII, and no encoding is modelled.
