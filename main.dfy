/** The event handler of src/main.rs: answering slash commands, routing
    chat messages, and finalising an enrollment from the bot's own
    confirmation message. Calls to the chat platform are recorded as
    effects; channel and role ids come from a configuration value. */
module Bot {
  import opened Wrappers
  import opened Text
  import opened Debug
  import opened EnrollmentCommand
  import opened DatabaseStorage

  /** The ids the handler reads from the environment. */
  datatype Config = Config(
    destinChannel: nat,
    readingChannel: nat,
    enrollChannel: nat,
    uniOneRole: nat,
    uniTwoRole: nat,
    removeRole: nat)

  datatype Account = Account(id: nat, name: string, bot: bool)

  /** A chat message: where it was posted, its text, its author, and, for a
      reply to a slash command, the user who invoked the command. */
  datatype ChatMessage = ChatMessage(
    channelId: nat,
    content: string,
    author: Account,
    interactionUser: Option<Account>,
    guildId: Option<nat>)

  /** A call into the chat platform. Each one is attempted; a failure is
      logged and does not stop the handler. */
  datatype Effect =
    | Say(channel: nat, text: string)
    | RemoveRole(guild: nat, user: nat, role: nat)
    | AddRole(guild: nat, user: nat, role: nat)
    | EditNickname(guild: nat, user: nat, nickname: string)

  /** Why the confirmation text cannot be read back: line `line` does not
      exist, or holds no `": "`. */
  datatype ParseError = LineMissing(line: nat) | NoDelimiter(line: nat)

  /** Where the message handler panics. */
  datatype Panic =
    | NoInteraction
    | NoGuild
    | MalformedConfirmation(error: ParseError)
    | MemberNotFound

  datatype Outcome = Completed | Panicked(panic: Panic)

  datatype Interaction =
    | ApplicationCommand(commandName: string, options: seq<DataOption>)
    | OtherInteraction

  const HelloTrigger := "!hello"
  const HelloReply := "world!"
  const NotImplemented := "not implemented :("
  const Delimiter := ": "
  const UniOne := "uni_one"
  const UniTwo := "uni_two"

  // ---------------------------------------------------------------------
  // Slash commands

  /** `interaction_create`: the text of the reply to a slash command, or the
      panic of `run`; no reply to any other kind of interaction. Only the
      enrollment reply carries the marker that finalisation looks for. */
  function InteractionReply(interaction: Interaction): (r: Option<Result<string, RunError>>)
    ensures r.None? <==> interaction.OtherInteraction?
    ensures r.Some? && interaction.commandName == "enrollment" ==> r.value == Run(interaction.options)
    ensures r.Some? && interaction.commandName != "enrollment" ==> r.value == Success(NotImplemented)
    ensures r.Some? && r.value.Success? ==>
              (StartsWith(r.value.value, Header) <==> interaction.commandName == "enrollment")
  {
    match interaction
    case OtherInteraction => None
    case ApplicationCommand(name, options) =>
      if name == "enrollment" then Some(Run(options))
      else Some(Success(NotImplemented))
  }

  // ---------------------------------------------------------------------
  // Routing

  predicate IsHello(msg: ChatMessage) {
    msg.content == HelloTrigger
  }

  /** `^(https|http|\^\^).*`: the anchored pattern is a prefix test. */
  predicate HttpMatch(content: string) {
    StartsWith(content, "https") || StartsWith(content, "http") || StartsWith(content, "^^")
  }

  predicate IsRelay(msg: ChatMessage, cfg: Config) {
    msg.channelId == cfg.readingChannel && HttpMatch(msg.content) && !msg.author.bot
  }

  predicate IsFinalise(msg: ChatMessage, cfg: Config) {
    msg.channelId == cfg.enrollChannel && StartsWith(msg.content, Header) && msg.author.bot
  }

  /** The `https` alternative adds nothing: the pattern matches exactly the
      texts that start with `http` or `^^`. */
  lemma HttpMatchIsPrefix(content: string)
    ensures HttpMatch(content) <==> StartsWith(content, "http") || StartsWith(content, "^^")
  {
    if StartsWith(content, "https") {
      assert content[..4] == content[..5][..4];
    }
  }

  /** No message takes more than one of the three branches. */
  lemma BranchesExclusive(msg: ChatMessage, cfg: Config)
    ensures !(IsHello(msg) && IsRelay(msg, cfg))
    ensures !(IsHello(msg) && IsFinalise(msg, cfg))
    ensures !(IsRelay(msg, cfg) && IsFinalise(msg, cfg))
  {
    if IsHello(msg) {
      assert msg.content[0] == '!';
      assert msg.content[..4] != "http" && msg.content[..5] != "https" && msg.content[..2] != "^^";
    }
  }

  /** The relayed copy: a `.` line, an attribution line naming the author,
      then the original text. */
  function RelayText(authorName: string, content: string): (r: string)
    ensures |r| >= |content| && r[|r| - |content|..] == content
  {
    ".\n" + Attribution(authorName) + "\n" + content
  }

  function Attribution(authorName: string): (r: string)
    ensures '\n' !in authorName ==> '\n' !in r
  {
    "*This was originally posted by `" + authorName + "`:*"
  }

  /** The relayed copy is two lines of attribution followed by the lines of
      the original text, unchanged. */
  lemma RelayLines(authorName: string, content: string)
    requires '\n' !in authorName
    ensures Split(RelayText(authorName, content), "\n")
         == [".", Attribution(authorName)] + Split(content, "\n")
  {
    var attribution := Attribution(authorName);
    var tail := attribution + "\n" + content;
    assert RelayText(authorName, content) == "." + "\n" + tail;
    SplitAfterLine(".", '\n', tail);
    SplitAfterLine(attribution, '\n', content);
  }

  function HelloEffects(msg: ChatMessage): seq<Effect> {
    if IsHello(msg) then [Say(msg.channelId, HelloReply)] else []
  }

  function RelayEffects(msg: ChatMessage, cfg: Config): seq<Effect> {
    if IsRelay(msg, cfg) then [Say(cfg.destinChannel, RelayText(msg.author.name, msg.content))] else []
  }

  // ---------------------------------------------------------------------
  // Reading the confirmation back

  function Lines(content: string): seq<string> {
    Split(content, "\n")
  }

  /** Field `line` of the confirmation: segment 1 of that line split on
      `": "`, with every leading and trailing `"` removed. */
  function ExtractField(content: string, line: nat): (r: Result<string, ParseError>)
    ensures r.Success? <==> line < |Lines(content)| && Contains(Lines(content)[line], Delimiter)
    ensures r.Failure? && line < |Lines(content)| ==> r.error == NoDelimiter(line)
    ensures r.Failure? && line >= |Lines(content)| ==> r.error == LineMissing(line)
    ensures r.Success? ==> r.value == [] || (r.value[0] != '"' && r.value[|r.value| - 1] != '"')
  {
    var lines := Lines(content);
    if line >= |lines| then Failure(LineMissing(line))
    else
      var segments := Split(lines[line], Delimiter);
      SplitCount(lines[line], Delimiter);
      if |segments| < 2 then Failure(NoDelimiter(line))
      else Success(TrimMatches(segments[1], '"'))
  }

  /** The five answers, in the order the handler reads them. */
  datatype Fields = Fields(nickname: string, email: string, interests: string,
                           university: string, distro: string)

  /** The five extractions of the handler: lines 1 to 5 in turn, stopping at
      the first that fails. */
  function ParseConfirmation(content: string): (r: Result<Fields, ParseError>)
    ensures r.Success? <==> ExtractField(content, 1).Success? && ExtractField(content, 2).Success?
                            && ExtractField(content, 3).Success? && ExtractField(content, 4).Success?
                            && ExtractField(content, 5).Success?
    ensures r.Failure? ==> 1 <= r.error.line <= 5 && ExtractField(content, r.error.line) == Failure(r.error)
    ensures r.Failure? && r.error.line > 1 ==> ExtractField(content, 1).Success?
    ensures r.Failure? && r.error.line > 2 ==> ExtractField(content, 2).Success?
    ensures r.Failure? && r.error.line > 3 ==> ExtractField(content, 3).Success?
    ensures r.Failure? && r.error.line > 4 ==> ExtractField(content, 4).Success?
    ensures r.Success? ==> ExtractField(content, 1) == Success(r.value.nickname)
                           && ExtractField(content, 2) == Success(r.value.email)
                           && ExtractField(content, 3) == Success(r.value.interests)
                           && ExtractField(content, 4) == Success(r.value.university)
                           && ExtractField(content, 5) == Success(r.value.distro)
  {
    var nickname :- ExtractField(content, 1);
    var email :- ExtractField(content, 2);
    var interests :- ExtractField(content, 3);
    var university :- ExtractField(content, 4);
    var distro :- ExtractField(content, 5);
    Success(Fields(nickname, email, interests, university, distro))
  }

  /** A tag without `": "` is the first segment of `tag: rest`. */
  lemma SplitAfterTag(tag: string, rest: string)
    requires !Contains(tag, Delimiter)
    ensures Split(tag + Delimiter + rest, Delimiter) == [tag] + Split(rest, Delimiter)
  {
    NoEarlyColonSpace(tag, rest);
    SplitAfter(tag, Delimiter, rest);
  }

  /** An answer without `": "` is the first segment of `answer[: tail]`. */
  lemma AnswerIsFirstSegment(answer: string, tail: Option<string>)
    requires !Contains(answer, Delimiter)
    ensures Split(answer + (if tail.Some? then Delimiter + tail.value else ""), Delimiter)[0] == answer
  {
    if tail.Some? {
      assert answer + (Delimiter + tail.value) == answer + Delimiter + tail.value;
      NoEarlyColonSpace(answer, tail.value);
      SplitAfter(answer, Delimiter, tail.value);
    } else {
      assert answer + "" == answer;
      SplitWithout(answer, Delimiter);
    }
  }

  /** Splitting `tag: answer[: tail]` on `": "` puts the answer in segment 1. */
  lemma SecondSegment(tag: string, answer: string, tail: Option<string>)
    requires !Contains(tag, Delimiter) && !Contains(answer, Delimiter)
    ensures var text := tag + Delimiter + answer + (if tail.Some? then Delimiter + tail.value else "");
            |Split(text, Delimiter)| >= 2 && Split(text, Delimiter)[1] == answer
  {
    var rest := answer + (if tail.Some? then Delimiter + tail.value else "");
    assert tag + Delimiter + answer + (if tail.Some? then Delimiter + tail.value else "")
        == tag + Delimiter + rest;
    SplitAfterTag(tag, rest);
    AnswerIsFirstSegment(answer, tail);
  }

  /** A labelled line yields the text between the first and the second
      `": "` (all of the rest when there is no second one), without its
      surrounding quotes. */
  lemma FieldOfLabelledLine(content: string, line: nat, tag: string, answer: string, tail: Option<string>)
    requires line < |Lines(content)|
    requires !Contains(tag, Delimiter) && !Contains(answer, Delimiter)
    requires Lines(content)[line]
          == tag + Delimiter + answer + (if tail.Some? then Delimiter + tail.value else "")
    ensures ExtractField(content, line) == Success(TrimMatches(answer, '"'))
  {
    SecondSegment(tag, answer, tail);
  }

  // ---------------------------------------------------------------------
  // Finalising an enrollment

  predicate IsKnownUniversity(university: string) {
    university == UniOne || university == UniTwo
  }

  /** The role changes for a parsed university: the entry role removed and
      the university's role added, or nothing for any other value. */
  function RoleChanges(guild: nat, user: nat, university: string, cfg: Config): (r: seq<Effect>)
    ensures r != [] <==> IsKnownUniversity(university)
    ensures r != [] ==> r == [RemoveRole(guild, user, cfg.removeRole),
                              AddRole(guild, user, if university == UniOne then cfg.uniOneRole else cfg.uniTwoRole)]
  {
    if university == UniOne then
      [RemoveRole(guild, user, cfg.removeRole), AddRole(guild, user, cfg.uniOneRole)]
    else if university == UniTwo then
      [RemoveRole(guild, user, cfg.removeRole), AddRole(guild, user, cfg.uniTwoRole)]
    else []
  }

  /** The stored record: identity from the user who invoked the command (not
      the bot that posted the message), answers as parsed. */
  function Record(user: Account, fields: Fields): (e: Enrollment)
    ensures e.userId == user.id && e.userName == user.name
    ensures e.name == fields.nickname && e.university == fields.university
    ensures e.email == fields.email && e.interests == fields.interests && e.emailDistro == fields.distro
  {
    Enrollment(user.id, user.name, fields.nickname, fields.university,
               fields.email, fields.interests, fields.distro)
  }

  /** What the finalisation branch does: the platform calls it makes, where
      it stops, and the record it hands to the store. */
  datatype Finalisation = Finalisation(effects: seq<Effect>, outcome: Outcome, record: Option<Enrollment>)

  /** The steps after the answers were read: the role changes, the nickname
      edit and the record. `memberFound` is the answer of the platform to
      the member lookups: the role calls unwrap it, the nickname edit is
      skipped without it. */
  function Enroll(guild: nat, user: Account, fields: Fields, cfg: Config, memberFound: bool): Finalisation {
    if IsKnownUniversity(fields.university) && !memberFound then
      Finalisation([], Panicked(MemberNotFound), None)
    else
      Finalisation(RoleChanges(guild, user.id, fields.university, cfg)
                   + (if memberFound then [EditNickname(guild, user.id, fields.nickname)] else []),
                   Completed, Some(Record(user, fields)))
  }

  /** Enrolling either stops at the member lookup or completes with the
      record of the invoking user; a role is added exactly when the
      university is a known one, the nickname is edited exactly when the
      member was found. */
  lemma EnrollEffects(guild: nat, user: Account, fields: Fields, cfg: Config, memberFound: bool)
    ensures Enroll(guild, user, fields, cfg, memberFound).outcome == Completed
        <==> memberFound || !IsKnownUniversity(fields.university)
    ensures Enroll(guild, user, fields, cfg, memberFound).outcome == Completed
        ==> Enroll(guild, user, fields, cfg, memberFound).record == Some(Record(user, fields))
    ensures (exists k :: 0 <= k < |Enroll(guild, user, fields, cfg, memberFound).effects|
                         && Enroll(guild, user, fields, cfg, memberFound).effects[k].AddRole?)
        <==> memberFound && IsKnownUniversity(fields.university)
    ensures (exists k :: 0 <= k < |Enroll(guild, user, fields, cfg, memberFound).effects|
                         && Enroll(guild, user, fields, cfg, memberFound).effects[k].EditNickname?)
        <==> memberFound
  {
    var effects := Enroll(guild, user, fields, cfg, memberFound).effects;
    var roles := RoleChanges(guild, user.id, fields.university, cfg);
    if memberFound {
      assert effects == roles + [EditNickname(guild, user.id, fields.nickname)];
      assert effects[|roles|].EditNickname?;
      if IsKnownUniversity(fields.university) {
        assert effects[1].AddRole?;
      }
    } else if !IsKnownUniversity(fields.university) {
      assert effects == [];
    }
  }

  /** The finalisation branch of `message`. */
  function Finalise(msg: ChatMessage, cfg: Config, memberFound: bool): (r: Finalisation)
    ensures !IsFinalise(msg, cfg) ==> r == Finalisation([], Completed, None)
    ensures r.outcome.Panicked? ==> r.effects == [] && r.record.None?
    ensures r.record.Some? <==> IsFinalise(msg, cfg) && r.outcome == Completed
  {
    if !IsFinalise(msg, cfg) then Finalisation([], Completed, None)
    else if msg.interactionUser.None? then Finalisation([], Panicked(NoInteraction), None)
    else if msg.guildId.None? then Finalisation([], Panicked(NoGuild), None)
    else
      match ParseConfirmation(msg.content)
      case Failure(e) => Finalisation([], Panicked(MalformedConfirmation(e)), None)
      case Success(fields) => Enroll(msg.guildId.value, msg.interactionUser.value, fields, cfg, memberFound)
  }

  /** A record reaches the store only from a bot-posted confirmation in the
      enrollment channel whose five fields were all read. It carries the
      identity of the user who invoked the command, not of the bot that
      posted the message, and each field read from its line. */
  lemma FinalisedRecord(msg: ChatMessage, cfg: Config, memberFound: bool)
    requires Finalise(msg, cfg, memberFound).record.Some?
    ensures IsFinalise(msg, cfg) && msg.interactionUser.Some? && msg.guildId.Some?
    ensures ParseConfirmation(msg.content).Success?
    ensures memberFound || !IsKnownUniversity(ParseConfirmation(msg.content).value.university)
    ensures var e := Finalise(msg, cfg, memberFound).record.value;
            e.userId == msg.interactionUser.value.id && e.userName == msg.interactionUser.value.name
    ensures var e := Finalise(msg, cfg, memberFound).record.value;
            && ExtractField(msg.content, 1) == Success(e.name)
            && ExtractField(msg.content, 2) == Success(e.email)
            && ExtractField(msg.content, 3) == Success(e.interests)
            && ExtractField(msg.content, 4) == Success(e.university)
            && ExtractField(msg.content, 5) == Success(e.emailDistro)
  {
  }

  /** Role changes, nickname edit and save, in the order of the source. */
  method EnrollMember(guild: nat, user: Account, fields: Fields, cfg: Config, memberFound: bool, file: RecordFile)
    returns (effects: seq<Effect>, outcome: Outcome)
    modifies file
    ensures effects == Enroll(guild, user, fields, cfg, memberFound).effects
    ensures outcome == Enroll(guild, user, fields, cfg, memberFound).outcome
    ensures Enroll(guild, user, fields, cfg, memberFound).record.None? ==> file.contents == old(file.contents)
    ensures Enroll(guild, user, fields, cfg, memberFound).record.Some? ==>
              file.contents == Saved(old(file.contents), Record(user, fields))
  {
    effects := [];
    outcome := Completed;
    if fields.university == UniOne || fields.university == UniTwo {
      if !memberFound {
        outcome := Panicked(MemberNotFound);
        return;
      }
      effects := effects + [RemoveRole(guild, user.id, cfg.removeRole)];
      if fields.university == UniOne {
        effects := effects + [AddRole(guild, user.id, cfg.uniOneRole)];
      } else if fields.university == UniTwo {
        effects := effects + [AddRole(guild, user.id, cfg.uniTwoRole)];
      }
    }

    if memberFound {
      effects := effects + [EditNickname(guild, user.id, fields.nickname)];
    }

    var record := Record(user, fields);
    var saved := file.SaveToJson(record);
  }

  /** The finalisation branch of `message`, step by step: read the
      invoking user and the guild, read the answers back, then enroll. */
  method FinaliseEnrollment(msg: ChatMessage, cfg: Config, memberFound: bool, file: RecordFile)
    returns (effects: seq<Effect>, outcome: Outcome)
    requires IsFinalise(msg, cfg)
    modifies file
    ensures effects == Finalise(msg, cfg, memberFound).effects
    ensures outcome == Finalise(msg, cfg, memberFound).outcome
    ensures Finalise(msg, cfg, memberFound).record.None? ==> file.contents == old(file.contents)
    ensures Finalise(msg, cfg, memberFound).record.Some? ==>
              file.contents == Saved(old(file.contents), Finalise(msg, cfg, memberFound).record.value)
  {
    effects := [];
    outcome := Completed;
    if msg.interactionUser.None? {
      outcome := Panicked(NoInteraction);
      return;
    }
    var user := msg.interactionUser.value;
    if msg.guildId.None? {
      outcome := Panicked(NoGuild);
      return;
    }
    var guild := msg.guildId.value;

    var parsed := ParseConfirmation(msg.content);
    if parsed.Failure? {
      outcome := Panicked(MalformedConfirmation(parsed.error));
      return;
    }
    effects, outcome := EnrollMember(guild, user, parsed.value, cfg, memberFound, file);
  }

  /** `message`: the hello reply, the link relay and the finalisation, in
      that order, each calling the platform as it goes. */
  method HandleMessage(msg: ChatMessage, cfg: Config, memberFound: bool, file: RecordFile)
    returns (effects: seq<Effect>, outcome: Outcome)
    modifies file
    ensures effects == HelloEffects(msg) + RelayEffects(msg, cfg) + Finalise(msg, cfg, memberFound).effects
    ensures outcome == Finalise(msg, cfg, memberFound).outcome
    ensures Finalise(msg, cfg, memberFound).record.None? ==> file.contents == old(file.contents)
    ensures Finalise(msg, cfg, memberFound).record.Some? ==>
              file.contents == Saved(old(file.contents), Finalise(msg, cfg, memberFound).record.value)
  {
    effects := [];
    outcome := Completed;

    if msg.content == HelloTrigger {
      effects := effects + [Say(msg.channelId, HelloReply)];
    }

    if msg.channelId == cfg.readingChannel {
      if HttpMatch(msg.content) && !msg.author.bot {
        effects := effects + [Say(cfg.destinChannel, RelayText(msg.author.name, msg.content))];
      }
    }

    if msg.channelId == cfg.enrollChannel {
      if StartsWith(msg.content, Header) && msg.author.bot {
        var finalised;
        finalised, outcome := FinaliseEnrollment(msg, cfg, memberFound, file);
        effects := effects + finalised;
      }
    }
  }
}
