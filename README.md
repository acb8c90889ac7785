# crab-bot enrollment core, modelled in Dafny

crab-bot is a chat bot for a student server. Its enrollment flow goes like
this:

- A user invokes the `/enrollment` slash command with four answers: name,
  email, interests and whether to join the email distribution list.
- The bot replies with a confirmation message whose first line is
  `Enrolling new student:`, followed by one `Label: "answer"` line per answer.
- The message handler sees that reply, because it was posted by a bot in the
  enrollment channel. It is meant to split the text back into answers,
  change the user's roles and nickname, and store an enrollment record in a
  JSON file keyed by user id. As written it panics on that reply before any
  of this (see "## Findings").

The same handler replies `world!` to `!hello` and relays links posted in a
reading channel to a destination channel.

This project models that core:

- `text.dfy` (`Text`): the Rust `str` operations the text protocol uses.
  These are `split` with a string pattern (leftmost, non-overlapping), its
  inverse `Join`, `starts_with`, and `trim_matches` with one character.
- `debug.dfy` (`Debug`): the `{:?}` rendering that `format!` applies to
  each answer. It adds quotes and escapes `"`, `\`, NUL, tab, CR, LF and the
  other ASCII control characters.
- `enrollment.dfy` (`EnrollmentCommand`): `unwrap_data_option`, and `run` as
  a function that returns the confirmation or the position it panics on.
  It also defines the corrected six-line confirmation (see Findings).
- `main.dfy` (`Bot`):
  - `interaction_create` and the three routing predicates;
  - the relay text;
  - the re-parser (line `n`, split on `": "`, segment 1, quotes trimmed);
  - role selection, the nickname edit and the record built for the store;
  - the handler `message` as a method. It appends the platform calls it makes
    (as `Effect` values), reports where it panics, and saves through the
    record file.
- `database_storage.dfy` (`DatabaseStorage`): `save_to_json` as a method on
  a `RecordFile` object. The object's `contents` is the state of
  `enrollments.json`: absent, unreadable, unparseable or a map of records.
- `roundtrip.dfy` (`ConfirmationRoundTrip`): what happens when the handler
  parses the confirmation that `run` posts.
- `wrappers.dfy`: `Option` and `Result`.

Panics (`unwrap`, `expect`, indexing past the end of a `Vec`) are modelled
as error values: `RunError` for `run`, `Panicked(..)` for the handler.

## Model

| member | source | states |
|---|---|---|
| EnrollmentCommand.UnwrapDataOption | src/commands/enrollment.rs:10-26 | a text value is returned as it is; a boolean becomes `Yes` exactly when true and `No` otherwise; every other kind has no text form |
| EnrollmentCommand.ReadOption | src/commands/enrollment.rs:33-38 | reading one option succeeds exactly when it is present, resolved and text or boolean, and then yields its text form; otherwise it panics at that position: missing option when the index is past the end, missing value when it is unresolved, unsupported value for any other kind |
| EnrollmentCommand.ReadAnswers | src/commands/enrollment.rs:33-59 | reading the first `count` options succeeds exactly when each is answered, and yields their texts in order; otherwise it fails at the first unanswered position, and all earlier positions are answered |
| EnrollmentCommand.Run | src/commands/enrollment.rs:30-67 | `run` succeeds exactly when options 0 to 3 are answered; its text then starts with the enrollment header; otherwise it panics at the first unanswered position below 4 |
| EnrollmentCommand.Form | src/commands/enrollment.rs:62-65 | every confirmation starts with the `Enrolling new student:` header |
| EnrollmentCommand.FormLines | src/commands/enrollment.rs:62-65 | splitting a form on line feeds gives back exactly the header and one labelled line per answer, whatever the answers contain |
| EnrollmentCommand.ConfirmationLines | src/commands/enrollment.rs:63 | the confirmation of `run` has exactly five lines (header, Name, Email, Interests, Add to email distro) and no University line |
| EnrollmentCommand.RunLines | src/commands/enrollment.rs:30-67 | a successful `run` posts the five lines of the first four answers, in that order |
| EnrollmentCommand.RunWithUniversity | src/commands/enrollment.rs:30-67 | corrected `run`: succeeds exactly when options 0 to 4 are answered, starts with the header, otherwise panics at the first unanswered position |
| Debug.EscapeChar | src/commands/enrollment.rs:63 | `{:?}` writes a printable ASCII character other than `"` and `\` as itself, backslash-escapes `"` and `\`, and never emits a line feed |
| Debug.Escape | src/commands/enrollment.rs:63 | escaping never shortens the text, never emits a line feed, and leaves plain text unchanged |
| Debug.Quote | src/commands/enrollment.rs:63 | `{:?}` of a string is enclosed in double quotes and has no line feed; for plain text it is the text between two quotes |
| Text.FindFrom | src/main.rs:156-158 | the result is the leftmost occurrence of the separator at or after the start position; none means there is no occurrence there |
| Text.Split | src/main.rs:156-158 | `split` yields at least one piece, no piece contains the separator, and joining the pieces with the separator gives back the input |
| Text.SplitCount | src/main.rs:157-159 | there are at least two pieces exactly when the separator occurs in the text |
| Text.SplitOfJoin | src/main.rs:156 | splitting on `c` undoes joining pieces that hold no `c` |
| Text.SplitAfter | src/main.rs:158 | when the first occurrence of the separator follows a prefix `p`, the first piece is `p` and the rest is split on |
| Text.TrimStart | src/main.rs:160 | `trim_start_matches` removes only leading copies of `c`, and leaves text that does not start with `c` |
| Text.TrimEnd | src/main.rs:160 | `trim_end_matches` removes only trailing copies of `c`, and leaves text that does not end with `c` |
| Text.TrimMatches | src/main.rs:160 | the trimmed text neither starts nor ends with the trimmed character |
| Text.TrimMatchesOfPadded | src/main.rs:160 | trimming `c` from a core padded with `c` on both sides gives back the core, when the core neither starts nor ends with `c` |
| Bot.InteractionReply | src/main.rs:24-47 | only slash commands get a reply; `enrollment` replies with `run`'s text; every other command replies exactly `not implemented :(`; a successful reply starts with the enrollment header exactly when the command is `enrollment` |
| Bot.IsHello | src/main.rs:98 | the hello branch is taken exactly when the text is `!hello` |
| Bot.HttpMatch | src/main.rs:105 | the relay pattern as a test: the text starts with `https`, `http` or `^^` |
| Bot.IsRelay | src/main.rs:110-111 | the relay branch is taken exactly for a message in the reading channel that matches the pattern and whose author is not a bot |
| Bot.IsFinalise | src/main.rs:106-127 | the finalisation branch is taken exactly for a message in the enrollment channel that starts with `Enrolling new student:` and whose author is a bot |
| Bot.HelloEffects | src/main.rs:97-102 | the hello branch's calls: `world!` sent to the message's channel, or nothing |
| Bot.RelayEffects | src/main.rs:108-120 | the relay branch's calls: the relayed text sent to the destination channel, or nothing |
| Bot.HttpMatchIsPrefix | src/main.rs:105 | the relay pattern matches exactly the texts starting with `http` or `^^` |
| Bot.BranchesExclusive | src/main.rs:98-127 | no message takes two of the hello, relay and finalisation branches |
| Bot.RelayText | src/main.rs:114 | the relayed text ends with the original message, unchanged |
| Bot.Attribution | src/main.rs:114 | the attribution line is a single line when the author's name is |
| Bot.RelayLines | src/main.rs:114 | the relayed text is a `.` line and the attribution line, followed by the original lines |
| Bot.ExtractField | src/main.rs:155-161 | reading line `n` succeeds exactly when the line exists and contains `": "`; otherwise the error says which of the two is missing; a value never starts or ends with `"` |
| Bot.FieldOfLabelledLine | src/main.rs:155-161 | from any line `tag: answer[: more]` where neither tag nor answer holds `": "`, that is, from every line holding `": "`, the value read is the answer without its surrounding quotes |
| Bot.ParseConfirmation | src/main.rs:155-185 | the five reads succeed exactly when lines 1 to 5 each can be read, and then each field is the value read from its line; a failure names a line from 1 to 5 and that line's own error, and every earlier line was read, so it is the first line that fails |
| Bot.RoleChanges | src/main.rs:187-203 | roles change exactly when the university is `uni_one` or `uni_two`; the change is always the entry role removed, then the matching university role added |
| Bot.FinalisedRecord | src/main.rs:125-225 | a record reaches the store only from a bot-posted confirmation in the enrollment channel whose five lines were all read. It carries the id and name of the user who invoked the command, not of the message's author, and each field is the value read from its line (name 1, email 2, interests 3, university 4, distro 5) |
| Bot.Enroll | src/main.rs:187-229 | the steps after parsing: a known university with no member found panics; otherwise the role changes, then the nickname edit when the member exists, and the record of the invoking user (properties in Bot.EnrollEffects) |
| Bot.Finalise | src/main.rs:125-232 | a message outside the finalisation branch does nothing; a panic makes no call and stores nothing; a record is stored exactly when the branch is taken and completes |
| Bot.EnrollEffects | src/main.rs:187-229 | enrolling completes unless a role change meets a missing member; it then stores the invoking user's record; a role is added exactly when the member exists and the university is known; the nickname is edited exactly when the member exists |
| Bot.EnrollMember | src/main.rs:187-229 | the role calls, the nickname edit and the save, in source order. The method's calls are the function's effects, and the file is saved with the record exactly when enrolling completes |
| Bot.FinaliseEnrollment | src/main.rs:125-232 | finalising panics without an invoking user, without a guild, or on a malformed confirmation, and changes nothing; otherwise it enrolls |
| Bot.HandleMessage | src/main.rs:75-234 | the handler's calls are the hello reply, then the relay, then the finalisation calls. The file changes only by the save of the finalised record |
| DatabaseStorage.Load | src/backend/database_storage.rs:22-27 | loading fails exactly on unparseable text; a missing or unreadable file loads as the empty map |
| DatabaseStorage.Saved | src/backend/database_storage.rs:21-37 | the file after a save: unchanged when its text does not parse, otherwise the loaded map with the record under its user id (properties in the Save lemmas below) |
| DatabaseStorage.RecordFile.SaveToJson | src/backend/database_storage.rs:21-37 | saving reports an error exactly when the stored text does not parse; the new contents are the loaded map with the record inserted under its user id |
| DatabaseStorage.SaveStoresRecord | src/backend/database_storage.rs:30 | after a save the record's user id maps to exactly that record |
| DatabaseStorage.SaveKeepsOthers | src/backend/database_storage.rs:30 | a save adds only the record's key and leaves every other entry unchanged |
| DatabaseStorage.SaveIdempotent | src/backend/database_storage.rs:21-37 | saving the same record twice is the same as saving it once |
| DatabaseStorage.SaveKeyCount | src/backend/database_storage.rs:30 | the key count grows by one for a new user and is unchanged for a known one (last write wins) |
| DatabaseStorage.SaveFromNothing | src/backend/database_storage.rs:22-30 | a missing or unreadable file is replaced by a map holding the new record only |
| DatabaseStorage.SaveOnCorruptFile | src/backend/database_storage.rs:26 | unparseable text is reported as an error and the file is left as it is |
| DatabaseStorage.SaveKeepsKeying | src/backend/database_storage.rs:30 | if every key is the user id of its record, that stays true after a save |
| DatabaseStorage.SequentialSavesKeepBoth | src/backend/database_storage.rs:21-37 | two saves in sequence for different users keep both records |
| ConfirmationRoundTrip.AnswerLineHasDelimiter | src/commands/enrollment.rs:63 | every answer line contains `": "` |
| ConfirmationRoundTrip.QuotedHasNoDelimiter | src/commands/enrollment.rs:63 | quoting a plain answer without `": "` adds no `": "` |
| ConfirmationRoundTrip.UnquotePlain | src/main.rs:160 | `trim_matches('"')` removes the quotes `{:?}` put around a plain answer |
| ConfirmationRoundTrip.FieldOfAnswerLine | src/main.rs:155-161 | the value read from an answer line is the answer, when the answer is plain and holds no `": "` |
| ConfirmationRoundTrip.FirstFourLinesRead | src/main.rs:155-179 | lines 1 to 4 of a message laid out as `run`'s confirmation can all be read |
| ConfirmationRoundTrip.ConfirmationNeverParses | src/main.rs:180-185 | whatever the answers, parsing `run`'s confirmation fails with line 5 missing |
| ConfirmationRoundTrip.UniversityReadFromDistroLine | src/main.rs:174-179 | the value the handler takes as the university is the distro answer |
| ConfirmationRoundTrip.EnrollmentReplyNeverFinalises | src/main.rs:125-185 | the bot's own reply to `/enrollment` always enters finalisation and then panics before any role change, nickname edit or save |
| ConfirmationRoundTrip.CorrectedRoundTrip | src/main.rs:155-185 | parsing the six-line confirmation gives back each plain answer in its field |
| ConfirmationRoundTrip.ParseFiveLineForm | src/main.rs:155-185 | any form of five plain answers without `": "` under colon-free tags parses back answer for answer |
| ConfirmationRoundTrip.ReadBackLines | src/main.rs:155-185 | a message whose lines 1 to 5 are answer lines, with tags and plain answers free of `": "`, parses back answer for answer |
| ConfirmationRoundTrip.CorrectedReplyParses | src/main.rs:155-185 | the corrected reply of `run` parses back as the submitted answers |
| ConfirmationRoundTrip.CorrectedEnrollmentFinalises | src/main.rs:125-229 | with the corrected reply, finalisation completes and stores the invoking user's record with the submitted answers; a role is added exactly when the university is known |

## Left out

- Network and gateway: the chat platform's HTTP and gateway calls are not modelled. Sending, role changes and nickname edits are recorded as `Effect` values. A failed call is only logged in the source, so it changes nothing here.
- `register` (src/commands/enrollment.rs:71-114): not modelled. It only builds the command description. Its required flags are not assumed; `run` handles every missing or mistyped option as the panic it is.
- `ready` and `main` (src/main.rs:51-71, 241-260): not modelled. They do start-up and command registration and hold no logic.
- Environment lookups: the `.env` values (channel and role ids) are the fields of a `Config` parameter. A missing or non-numeric variable, which panics in the source, is not modelled.
- Regular expressions: the two anchored patterns are modelled as prefix tests (`StartsWith`).
- Logging and `println!` output: not modelled. This includes the `Error: Member not found` line logged after a successful nickname edit (src/main.rs:209-211).
- Member lookup: the lookup results are one boolean `memberFound` for the whole handler. In the source each of the up to three lookups could differ.
- Bot.HandleMessage: async and concurrency are not modelled; each handler call runs to completion. Two concurrent saves can lose one of the updates, and that race is not modelled.
- DatabaseStorage.RecordFile.SaveToJson: JSON encoding and the file's text are not modelled. The file is one of four states (absent, unreadable, unparseable, a map), and serialising and writing back are assumed to succeed.
- Debug.EscapeChar: only ASCII escaping is modelled. Characters outside ASCII pass through unchanged; Rust's `{:?}` would escape non-printable Unicode and grapheme extenders.
- Integer widths: `u64` ids are `nat` without the 64-bit bound. Number options are `real`.
- Confirmation format: the handler reads lines 1 to 5 and takes line 4 as the university (src/main.rs:155-185), while `run` posts five lines with no University line (src/commands/enrollment.rs:63). The model follows the code (`Run`, used by `Bot.InteractionReply`) and adds the six-line layout as the correction under Findings.

## Findings

| source | as written | input that shows it | evidently intended | confidence | as-written member | corrected member |
|---|---|---|---|---|---|---|
| src/commands/enrollment.rs:63, src/main.rs:174-185 | `run` posts five lines (header, Name, Email, Interests, Add to email distro). The handler reads lines 1 to 5 and takes line 4 as the university. | any four answers, e.g. `/enrollment name:"Ann B" email:"a@u.edu" interests:"rust" add_to_email_distro:true`: line 4 is `Add to email distro: "Yes"`, and line 5 does not exist, so the handler panics | the confirmation carries a `University: {:?}` line between Interests and Add to email distro, so that each of lines 1 to 5 holds the answer the handler reads from it | high, not executed | ConfirmationRoundTrip.ConfirmationNeverParses, ConfirmationRoundTrip.EnrollmentReplyNeverFinalises | EnrollmentCommand.RunWithUniversity, ConfirmationRoundTrip.CorrectedRoundTrip, ConfirmationRoundTrip.CorrectedEnrollmentFinalises |
