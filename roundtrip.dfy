/** What happens when the handler of src/main.rs reads back the
    confirmation that src/commands/enrollment.rs posts: the five-line
    message never parses, and the six-line layout the handler expects
    round-trips every plain answer. */
module ConfirmationRoundTrip {
  import opened Wrappers
  import opened Text
  import opened Debug
  import opened EnrollmentCommand
  import opened DatabaseStorage
  import opened Bot

  /** An answer that survives the round trip: printable ASCII that `{:?}`
      leaves alone and that holds no `": "`. */
  ghost predicate Reparsable(answer: string) {
    Plain(answer) && !Contains(answer, Delimiter)
  }

  lemma AnswerLineHasDelimiter(tag: string, answer: string)
    ensures Contains(AnswerLine(tag, answer), Delimiter)
  {
    var text := AnswerLine(tag, answer);
    assert text[|tag|..|tag| + 2] == Delimiter;
    assert OccursAt(text, Delimiter, |tag|);
  }

  /** Quoting a reparsable answer adds no `": "`. */
  lemma QuotedHasNoDelimiter(answer: string)
    requires Reparsable(answer)
    ensures !Contains(Quote(answer), Delimiter)
  {
    var q := Quote(answer);
    assert q == "\"" + answer + "\"";
    forall j: nat | j + 2 <= |q|
      ensures !OccursAt(q, Delimiter, j)
    {
      if j == 0 {
        assert q[j..j + 2][0] == '"';
      } else if j + 1 <= |answer| {
        assert !OccursAt(answer, Delimiter, j - 1);
        assert q[j..j + 2] == answer[j - 1..j + 1];
      } else {
        assert q[j + 1] == '"';
        assert q[j..j + 2][1] == '"';
      }
    }
  }

  /** `trim_matches('"')` undoes the quotes of a plain answer. */
  lemma UnquotePlain(answer: string)
    requires Plain(answer)
    ensures TrimMatches(Quote(answer), '"') == answer
  {
    assert answer == [] || (PlainChar(answer[0]) && PlainChar(answer[|answer| - 1]));
    TrimMatchesOfPadded("\"", answer, "\"", '"');
  }

  /** The field read from an answer line of a reparsable answer is the answer. */
  lemma FieldOfAnswerLine(content: string, line: nat, tag: string, answer: string)
    requires line < |Lines(content)| && Lines(content)[line] == AnswerLine(tag, answer)
    requires !Contains(tag, Delimiter) && Reparsable(answer)
    ensures ExtractField(content, line) == Success(answer)
  {
    QuotedHasNoDelimiter(answer);
    assert AnswerLine(tag, answer) == tag + Delimiter + Quote(answer) + "";
    FieldOfLabelledLine(content, line, tag, Quote(answer), None);
    UnquotePlain(answer);
  }

  // ---------------------------------------------------------------------
  // As written: the five-line confirmation

  /** Reading back the confirmation of `run` always fails at line 5, the
      line that does not exist; lines 1 to 4 are read without error. */
  lemma {:induction false} ConfirmationNeverParses(name: string, email: string, interests: string, distro: string)
    ensures ParseConfirmation(Confirmation(name, email, interests, distro)) == Failure(LineMissing(5))
  {
    var content := Confirmation(name, email, interests, distro);
    ConfirmationLines(name, email, interests, distro);
    FirstFourLinesRead(content, name, email, interests, distro);
    assert ExtractField(content, 5) == Failure(LineMissing(5));
  }

  /** Lines 1 to 4 of a message laid out as the confirmation can be read. */
  lemma FirstFourLinesRead(content: string, name: string, email: string, interests: string, distro: string)
    requires Lines(content)
          == [Header, AnswerLine("Name", name), AnswerLine("Email", email),
              AnswerLine("Interests", interests), AnswerLine("Add to email distro", distro)]
    ensures forall l :: 1 <= l <= 4 ==> ExtractField(content, l).Success?
  {
    AnswerLineHasDelimiter("Name", name);
    AnswerLineHasDelimiter("Email", email);
    AnswerLineHasDelimiter("Interests", interests);
    AnswerLineHasDelimiter("Add to email distro", distro);
  }

  /** The field the handler takes for the university (line 4) is the
      distro answer. */
  lemma UniversityReadFromDistroLine(name: string, email: string, interests: string, distro: string)
    requires Reparsable(distro)
    ensures ExtractField(Confirmation(name, email, interests, distro), 4) == Success(distro)
  {
    ConfirmationLines(name, email, interests, distro);
    ConfirmationTagsSingleLine();
    assert ':' !in ConfirmationTags[3];
    ColonFreeLabel(ConfirmationTags[3]);
    FieldOfAnswerLine(Confirmation(name, email, interests, distro), 4, "Add to email distro", distro);
  }

  /** The closed loop as written: whatever the options, when the reply to
      `/enrollment` comes back as a bot message in the enrollment channel,
      finalisation starts and then panics before any role change, nickname
      edit or save. */
  lemma EnrollmentReplyNeverFinalises(options: seq<DataOption>, msg: ChatMessage, cfg: Config, memberFound: bool)
    requires InteractionReply(ApplicationCommand("enrollment", options)) == Some(Success(msg.content))
    requires msg.channelId == cfg.enrollChannel && msg.author.bot
    requires msg.interactionUser.Some? && msg.guildId.Some?
    ensures IsFinalise(msg, cfg)
    ensures Finalise(msg, cfg, memberFound)
         == Finalisation([], Panicked(MalformedConfirmation(LineMissing(5))), None)
  {
    var answers := ReadAnswers(options, 4).value;
    assert msg.content == Confirmation(answers[0], answers[1], answers[2], answers[3]);
    ConfirmationNeverParses(answers[0], answers[1], answers[2], answers[3]);
  }

  // ---------------------------------------------------------------------
  // Corrected: the six-line confirmation

  /** Every reparsable answer of the six-line confirmation is read back in
      its place. */
  lemma {:induction false} CorrectedRoundTrip(name: string, email: string, interests: string,
                                               university: string, distro: string)
    requires Reparsable(name) && Reparsable(email) && Reparsable(interests)
    requires Reparsable(university) && Reparsable(distro)
    ensures ParseConfirmation(ConfirmationWithUniversity(name, email, interests, university, distro))
         == Success(Fields(name, email, interests, university, distro))
  {
    var answers := [name, email, interests, university, distro];
    assert forall i :: 0 <= i < 5 ==> '\n' !in UniversityTags[i] && ':' !in UniversityTags[i];
    ParseFiveLineForm(UniversityTags, answers);
  }

  /** Any form of five reparsable answers under colon-free tags is read back
      answer for answer. */
  lemma ParseFiveLineForm(tags: seq<string>, answers: seq<string>)
    requires |tags| == 5 && |answers| == 5
    requires forall i :: 0 <= i < 5 ==> '\n' !in tags[i] && ':' !in tags[i] && Reparsable(answers[i])
    ensures ParseConfirmation(Form(tags, answers))
         == Success(Fields(answers[0], answers[1], answers[2], answers[3], answers[4]))
  {
    FormLines(tags, answers);
    forall i | 0 <= i < 5 ensures !Contains(tags[i], Delimiter) {
      ColonFreeLabel(tags[i]);
    }
    ReadBackLines(Form(tags, answers), tags, answers);
  }

  /** A message whose lines 1 to 5 are answer lines is read back answer for
      answer. */
  lemma ReadBackLines(content: string, tags: seq<string>, answers: seq<string>)
    requires |tags| == 5 && |answers| == 5 && |Lines(content)| == 6
    requires forall i :: 0 <= i < 5 ==> Lines(content)[i + 1] == AnswerLine(tags[i], answers[i])
    requires forall i :: 0 <= i < 5 ==> !Contains(tags[i], Delimiter) && Reparsable(answers[i])
    ensures ParseConfirmation(content)
         == Success(Fields(answers[0], answers[1], answers[2], answers[3], answers[4]))
  {
    FieldOfAnswerLine(content, 1, tags[0], answers[0]);
    FieldOfAnswerLine(content, 2, tags[1], answers[1]);
    FieldOfAnswerLine(content, 3, tags[2], answers[2]);
    FieldOfAnswerLine(content, 4, tags[3], answers[3]);
    FieldOfAnswerLine(content, 5, tags[4], answers[4]);
    ParseOfFields(content, Fields(answers[0], answers[1], answers[2], answers[3], answers[4]));
  }

  lemma ParseOfFields(content: string, fields: Fields)
    requires ExtractField(content, 1) == Success(fields.nickname)
    requires ExtractField(content, 2) == Success(fields.email)
    requires ExtractField(content, 3) == Success(fields.interests)
    requires ExtractField(content, 4) == Success(fields.university)
    requires ExtractField(content, 5) == Success(fields.distro)
    ensures ParseConfirmation(content) == Success(fields)
  {
  }

  /** The six-line reply of `run` reads back as the answers submitted. */
  lemma CorrectedReplyParses(options: seq<DataOption>, content: string)
    requires RunWithUniversity(options) == Success(content)
    requires forall i :: 0 <= i < 5 ==> Reparsable(Answer(options, i))
    ensures ParseConfirmation(content)
         == Success(Fields(Answer(options, 0), Answer(options, 1), Answer(options, 2),
                           Answer(options, 3), Answer(options, 4)))
  {
    var answers := ReadAnswers(options, 5).value;
    assert content == ConfirmationWithUniversity(answers[0], answers[1], answers[2], answers[3], answers[4]);
    CorrectedRoundTrip(answers[0], answers[1], answers[2], answers[3], answers[4]);
  }

  /** The closed loop with the six-line confirmation: the record saved is
      the invoking user's, with the answers as submitted, and the roles
      change exactly when the university is one of the two known ones. */
  lemma CorrectedEnrollmentFinalises(options: seq<DataOption>, msg: ChatMessage, cfg: Config, memberFound: bool)
    requires RunWithUniversity(options) == Success(msg.content)
    requires msg.channelId == cfg.enrollChannel && msg.author.bot
    requires msg.interactionUser.Some? && msg.guildId.Some?
    requires forall i :: 0 <= i < 5 ==> Answered(options, i) && Reparsable(Answer(options, i))
    requires memberFound || !IsKnownUniversity(Answer(options, 3))
    ensures Finalise(msg, cfg, memberFound).outcome == Completed
    ensures Finalise(msg, cfg, memberFound).record
         == Some(Enrollment(msg.interactionUser.value.id, msg.interactionUser.value.name,
                            Answer(options, 0), Answer(options, 3), Answer(options, 1),
                            Answer(options, 2), Answer(options, 4)))
    ensures (exists k :: 0 <= k < |Finalise(msg, cfg, memberFound).effects|
                         && Finalise(msg, cfg, memberFound).effects[k].AddRole?)
        <==> IsKnownUniversity(Answer(options, 3))
  {
    CorrectedReplyParses(options, msg.content);
    EnrollEffects(msg.guildId.value, msg.interactionUser.value,
                  Fields(Answer(options, 0), Answer(options, 1), Answer(options, 2),
                         Answer(options, 3), Answer(options, 4)), cfg, memberFound);
  }
}
