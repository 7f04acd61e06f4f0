/**
 * The interactive chat (src/chat.py): read a question, leave on an exit
 * word or an interrupt, re-prompt on an empty line, otherwise ask
 * `ask_question` and show its answer or its error. The terminal is a
 * sequence of events; each line carries what `ask_question` does when
 * that line is asked, since the model's answers come from outside.
 */
module Chat {
  import opened Text
  import Config

  /** `['sair', 'exit', 'quit', 'q']`. */
  const ExitWords: seq<string> := ["sair", "exit", "quit", "q"]

  /** `pergunta.lower() in [...]`, for the line `pergunta` once stripped. */
  predicate IsExitWord(question: string) {
    Lower(question) in ExitWords
  }

  /** The typed line asks to leave the chat. */
  predicate IsExitCommand(line: string) {
    IsExitWord(Strip(line))
  }

  /** What `ask_question` does when a line is asked: it returns an answer,
      raises an exception with a message, or is cut short by Ctrl-C. */
  datatype Reply = Answer(text: string) | Failure(message: string) | Cancelled

  /** What `input()` does: return a line, or raise KeyboardInterrupt, or
      raise EOFError once standard input is closed. */
  datatype Event = Line(text: string, reply: Reply) | Interrupt | EndOfInput

  /** What a turn makes of an event, once the line is stripped and
      checked: leave, re-prompt, ask, stop on Ctrl-C, or a closed input. */
  datatype Command = Leave | Blank | Ask(question: string, reply: Reply) | Break | Closed

  /** The checks of one turn: strip the line, test it against the exit
      words, then for emptiness; what is left is a question. */
  function Classify(e: Event): Command {
    match e
    case Interrupt => Break
    case EndOfInput => Closed
    case Line(text, reply) =>
      var question := Strip(text);
      if IsExitWord(question) then Leave
      else if question == [] then Blank
      else Ask(question, reply)
  }

  /** The commands a sequence of events amounts to. */
  function Commands(events: seq<Event>): (cs: seq<Command>)
    ensures |cs| == |events|
  {
    seq(|events|, i requires 0 <= i < |events| => Classify(events[i]))
  }

  /** A question is a stripped, non-empty line that is not an exit word. */
  predicate Acceptable(question: string) {
    question != [] && Strip(question) == question && !IsExitCommand(question)
  }

  /** Only acceptable questions come out of a typed line, and a line is
      asked exactly when it is neither an exit word nor blank. */
  lemma ClassifyAsks(e: Event)
    ensures Classify(e).Ask? <==> e.Line? && !IsExitCommand(e.text) && Strip(e.text) != []
    ensures Classify(e).Ask? ==> Acceptable(Classify(e).question) && Classify(e).question == Strip(e.text)
    ensures Classify(e).Leave? <==> e.Line? && IsExitCommand(e.text)
  {
    if e.Line? {
      StripIdempotent(e.text);
    }
  }

  /** What the loop prints, message by message. */
  datatype Output =
    | Farewell                   // "Encerrando chat. Até logo!"
    | Reprompt                   // "Por favor, digite uma pergunta válida."
    | Processing                 // "Processando sua pergunta..."
    | ShowAnswer(answer: string) // "RESPOSTA: ..." and the rule below it
    | ShowError(message: string) // "✗ Erro ao processar pergunta: ..."

  datatype Status = Running | ExitRequested | Interrupted | InputClosed

  /** The loop's state: whether it still runs, the questions handed to
      `ask_question` so far and everything printed so far. */
  datatype State = State(status: Status, asked: seq<string>, shown: seq<Output>)

  const Start: State := State(Running, [], [])

  /** The text of the EOFError that `input()` raises on a closed input. */
  const EofMessage: string := "EOF when reading a line"

  /** What a turn does with EOFError. As written, EOFError is an Exception
      like any other: it is reported and the loop goes on. The corrected
      loop says goodbye instead, as it does on Ctrl-C. */
  datatype OnEof = ReportAndGoOn | SayGoodbye

  /** The command ends the loop. */
  predicate Stops(onEof: OnEof, c: Command) {
    c.Leave? || c.Break? || (c.Ask? && c.reply.Cancelled?) || (c.Closed? && onEof == SayGoodbye)
  }

  /** One turn of `while True`. */
  function Step(onEof: OnEof, st: State, c: Command): State
    requires st.status == Running
  {
    match c
    case Leave => State(ExitRequested, st.asked, st.shown + [Farewell])
    case Blank => State(Running, st.asked, st.shown + [Reprompt])
    case Break => State(Interrupted, st.asked, st.shown + [Farewell])
    case Closed =>
      if onEof == SayGoodbye then State(InputClosed, st.asked, st.shown + [Farewell])
      else State(Running, st.asked, st.shown + [ShowError(EofMessage)])
    case Ask(question, reply) =>
      match reply
      case Answer(a) => State(Running, st.asked + [question], st.shown + [Processing, ShowAnswer(a)])
      case Failure(m) => State(Running, st.asked + [question], st.shown + [Processing, ShowError(m)])
      case Cancelled => State(Interrupted, st.asked + [question], st.shown + [Processing, Farewell])
  }

  /** A turn asks exactly the question of an asking command, stops exactly
      on a stopping command, and only adds to what was printed, ending with
      the farewell when it stops. */
  lemma StepFacts(onEof: OnEof, st: State, c: Command)
    requires st.status == Running
    ensures var r := Step(onEof, st, c);
            && r.asked == st.asked + (if c.Ask? then [c.question] else [])
            && (r.status == Running <==> !Stops(onEof, c))
            && |r.shown| > |st.shown| && r.shown[..|st.shown|] == st.shown
            && (r.status != Running ==> r.shown[|r.shown| - 1] == Farewell)
  {
  }

  /** The loop from state `st`, over the commands still to come. */
  function Session(onEof: OnEof, st: State, cs: seq<Command>): State
    decreases |cs|
  {
    if st.status != Running || cs == [] then st
    else Session(onEof, Step(onEof, st, cs[0]), cs[1..])
  }

  /** How many commands the loop reads: up to and including the first that
      stops it, or all of them. */
  function Consumed(onEof: OnEof, cs: seq<Command>): (n: nat)
    ensures n <= |cs|
    ensures n < |cs| ==> n > 0 && Stops(onEof, cs[n - 1])
    ensures forall j | 0 <= j < n - 1 :: !Stops(onEof, cs[j])
  {
    if cs == [] then 0
    else if Stops(onEof, cs[0]) then 1
    else 1 + Consumed(onEof, cs[1..])
  }

  /** One turn of a running session, and the commands it reads. */
  lemma Unroll(onEof: OnEof, st: State, cs: seq<Command>)
    requires st.status == Running && cs != []
    ensures Session(onEof, st, cs) == Session(onEof, Step(onEof, st, cs[0]), cs[1..])
    ensures Step(onEof, st, cs[0]).status != Running ==> Session(onEof, st, cs) == Step(onEof, st, cs[0])
    ensures Consumed(onEof, cs) == 1 + (if Stops(onEof, cs[0]) then 0 else Consumed(onEof, cs[1..]))
    ensures Step(onEof, st, cs[0]).status == Running <==> !Stops(onEof, cs[0])
  {
    StepFacts(onEof, st, cs[0]);
  }

  /** `main()`: the loop, event by event, until it breaks or the events run
      out. A closed input is reported and the loop goes on, as written. */
  method Run(events: seq<Event>) returns (final: State, consumed: nat)
    ensures final == Session(ReportAndGoOn, Start, Commands(events))
    ensures consumed == Consumed(ReportAndGoOn, Commands(events))
  {
    ghost var cs := Commands(events);
    var status := Running;
    var asked: seq<string> := [];
    var shown: seq<Output> := [];
    var i := 0;
    while i < |events|
      invariant 0 <= i <= |events|
      invariant status == Running
      invariant Session(ReportAndGoOn, Start, cs) == Session(ReportAndGoOn, State(Running, asked, shown), cs[i..])
      invariant Consumed(ReportAndGoOn, cs) == i + Consumed(ReportAndGoOn, cs[i..])
    {
      Unroll(ReportAndGoOn, State(Running, asked, shown), cs[i..]);
      assert cs[i..][1..] == cs[i + 1..];
      status, asked, shown := Turn(asked, shown, events[i]);
      i := i + 1;
      if status != Running {
        break;
      }
    }
    final, consumed := State(status, asked, shown), i;
  }

  /** The body of `while True`: one `input()` and what follows it. */
  method Turn(asked: seq<string>, shown: seq<Output>, e: Event)
    returns (status: Status, asked': seq<string>, shown': seq<Output>)
    ensures State(status, asked', shown') == Step(ReportAndGoOn, State(Running, asked, shown), Classify(e))
  {
    match e {
      case Interrupt =>
        status, asked', shown' := Interrupted, asked, shown + [Farewell];
      case EndOfInput =>
        status, asked', shown' := Running, asked, shown + [ShowError(EofMessage)];
      case Line(text, reply) =>
        status, asked', shown' := LineTurn(asked, shown, text, reply);
    }
  }

  /** A typed line: leave on an exit word, re-prompt on a blank line,
      otherwise ask. */
  method LineTurn(asked: seq<string>, shown: seq<Output>, text: string, reply: Reply)
    returns (status: Status, asked': seq<string>, shown': seq<Output>)
    ensures State(status, asked', shown') == Step(ReportAndGoOn, State(Running, asked, shown), Classify(Line(text, reply)))
  {
    var question := Strip(text);
    if IsExitWord(question) {
      assert Classify(Line(text, reply)) == Leave;
      status, asked', shown' := ExitRequested, asked, shown + [Farewell];
    } else if question == [] {
      assert Classify(Line(text, reply)) == Blank;
      status, asked', shown' := Running, asked, shown + [Reprompt];
    } else {
      assert Classify(Line(text, reply)) == Ask(question, reply);
      status, asked', shown' := AskTurn(asked, shown, question, reply);
    }
  }

  /** A line that is a question: `ask_question` and the printing of its
      answer or error. */
  method AskTurn(asked: seq<string>, shown: seq<Output>, question: string, reply: Reply)
    returns (status: Status, asked': seq<string>, shown': seq<Output>)
    ensures State(status, asked', shown') == Step(ReportAndGoOn, State(Running, asked, shown), Ask(question, reply))
  {
    shown' := shown + [Processing];
    asked' := asked + [question];
    match reply {
      case Cancelled =>
        shown' := shown' + [Farewell];
        status := Interrupted;
      case Failure(m) =>
        shown' := shown' + [ShowError(m)];
        status := Running;
      case Answer(a) =>
        shown' := shown' + [ShowAnswer(a)];
        status := Running;
    }
  }

  /** The questions the commands would hand to `ask_question`, in order. */
  function Questions(cs: seq<Command>): (r: seq<string>)
    ensures |r| <= |cs|
  {
    if cs == [] then []
    else (if cs[0].Ask? then [cs[0].question] else []) + Questions(cs[1..])
  }

  /** The questions asked in a session are those of the commands read, in
      the order they were typed, and nothing else. */
  lemma {:induction false} SessionAsked(onEof: OnEof, st: State, cs: seq<Command>)
    requires st.status == Running
    ensures Session(onEof, st, cs).asked == st.asked + Questions(cs[..Consumed(onEof, cs)])
    decreases |cs|
  {
    if cs != [] {
      Unroll(onEof, st, cs);
      StepFacts(onEof, st, cs[0]);
      var n := Consumed(onEof, cs);
      var head := if cs[0].Ask? then [cs[0].question] else [];
      assert cs[..n][1..] == cs[1..][..n - 1];
      if Stops(onEof, cs[0]) {
        assert cs[..n][1..] == [];
        assert Questions(cs[..n]) == head + Questions([]);
      } else {
        SessionAsked(onEof, Step(onEof, st, cs[0]), cs[1..]);
        assert Questions(cs[..n]) == head + Questions(cs[1..][..n - 1]);
      }
    }
  }

  /** A session ends before the commands run out exactly when one of them
      stops it. */
  lemma {:induction false} SessionStopsIff(onEof: OnEof, st: State, cs: seq<Command>)
    requires st.status == Running
    ensures Session(onEof, st, cs).status != Running <==> exists i | 0 <= i < |cs| :: Stops(onEof, cs[i])
    decreases |cs|
  {
    if cs != [] {
      Unroll(onEof, st, cs);
      if !Stops(onEof, cs[0]) {
        var rest := cs[1..];
        SessionStopsIff(onEof, Step(onEof, st, cs[0]), rest);
        if exists i | 0 <= i < |cs| :: Stops(onEof, cs[i]) {
          var i :| 0 <= i < |cs| && Stops(onEof, cs[i]);
          assert rest[i - 1] == cs[i];
        }
        if exists j | 0 <= j < |rest| :: Stops(onEof, rest[j]) {
          var j :| 0 <= j < |rest| && Stops(onEof, rest[j]);
          assert cs[j + 1] == rest[j];
        }
      }
    }
  }

  /** If every question among the commands is acceptable, so is every
      question a session hands to `ask_question`. */
  lemma {:induction false} OnlyAcceptableAsked(onEof: OnEof, st: State, cs: seq<Command>)
    requires st.status == Running
    requires forall q | q in st.asked :: Acceptable(q)
    requires forall i | 0 <= i < |cs| :: cs[i].Ask? ==> Acceptable(cs[i].question)
    ensures forall q | q in Session(onEof, st, cs).asked :: Acceptable(q)
    decreases |cs|
  {
    if cs != [] {
      Unroll(onEof, st, cs);
      StepFacts(onEof, st, cs[0]);
      var next := Step(onEof, st, cs[0]);
      if next.status == Running {
        OnlyAcceptableAsked(onEof, next, cs[1..]);
      }
    }
  }

  /** Only stripped, non-empty lines that are no exit word ever reach
      `ask_question`. */
  lemma ChatAsksOnlyAcceptable(onEof: OnEof, events: seq<Event>)
    ensures forall q | q in Session(onEof, Start, Commands(events)).asked :: Acceptable(q)
  {
    var cs := Commands(events);
    forall i | 0 <= i < |cs| ensures cs[i].Ask? ==> Acceptable(cs[i].question) {
      ClassifyAsks(events[i]);
    }
    OnlyAcceptableAsked(onEof, Start, cs);
  }

  /** Whenever the chat ends, the last thing printed is the farewell. */
  lemma {:induction false} EndsWithFarewell(onEof: OnEof, st: State, cs: seq<Command>)
    requires st.status == Running
    ensures var final := Session(onEof, st, cs);
            final.status != Running ==> final.shown != [] && final.shown[|final.shown| - 1] == Farewell
    decreases |cs|
  {
    if cs != [] {
      Unroll(onEof, st, cs);
      StepFacts(onEof, st, cs[0]);
      var next := Step(onEof, st, cs[0]);
      if next.status == Running {
        EndsWithFarewell(onEof, next, cs[1..]);
      }
    }
  }

  /** Spaces around an exit word do not matter. */
  lemma ExitIgnoresSurroundingSpace(line: string)
    ensures IsExitCommand(Strip(line)) <==> IsExitCommand(line)
  {
    StripIdempotent(line);
  }

  /** Neither does letter case. */
  lemma ExitIgnoresCase(line: string)
    ensures IsExitCommand(Lower(line)) <==> IsExitCommand(line)
  {
    LowerStripCommute(line);
    LowerStripCommute(Lower(line));
    LowerIdempotent(Strip(line));
    LowerIdempotent(line);
  }

  /** A padded, upper-case exit word leaves. */
  lemma PaddedExitWordLeaves(reply: Reply)
    ensures Classify(Line("  SAIR ", reply)) == Leave
  {
    PaddedSairStrips();
    SairIsExitWord();
  }

  lemma PaddedSairStrips()
    ensures Strip("  SAIR ") == "SAIR"
  {
    var line := "  SAIR ";
    StripIsStrippedSlice(line, 2, 6);
    assert line[2..6] == "SAIR";
  }

  lemma SairIsExitWord()
    ensures IsExitWord("SAIR")
  {
    assert "SAIR"[1..] == "AIR" && "AIR"[1..] == "IR" && "IR"[1..] == "R" && "R"[1..] == [];
    assert Lower("SAIR") == "sair";
    assert ExitWords[0] == "sair";
  }

  /** No exit word is longer than four characters. */
  lemma LongIsNoExitWord(w: string)
    requires |w| > 4
    ensures !IsExitWord(w)
  {
    assert forall x | x in ExitWords :: |x| <= 4;
  }

  /** A sentence that starts with an exit word is a question. */
  lemma SentenceIsAsked(reply: Reply)
    ensures Classify(Line("sair agora", reply)) == Ask("sair agora", reply)
  {
    SentenceIsStripped();
    LongIsNoExitWord("sair agora");
  }

  lemma SentenceIsStripped()
    ensures Strip("sair agora") == "sair agora"
  {
    var line := "sair agora";
    StripIsStrippedSlice(line, 0, 10);
    assert line[0..10] == line;
  }

  // ---------------------------------------------------------------------
  // A closed input

  /** As written, one EOF is reported as an error and the loop reads on:
      on a terminal, Ctrl-D does not end the chat. */
  lemma EofGoesOnAsWritten(st: State, rest: seq<Command>)
    requires st.status == Running
    ensures Session(ReportAndGoOn, st, [Closed] + rest)
            == Session(ReportAndGoOn, State(Running, st.asked, st.shown + [ShowError(EofMessage)]), rest)
  {
    assert ([Closed] + rest)[0] == Closed && ([Closed] + rest)[1..] == rest;
  }

  /** As written, once standard input is closed every `input()` raises
      EOFError, which is reported as an error and the loop goes on: no
      number of turns ends the chat. */
  lemma {:induction false} EofLoopsForeverAsWritten(st: State, n: nat)
    requires st.status == Running
    ensures Session(ReportAndGoOn, st, seq(n, _ => Closed))
            == State(Running, st.asked, st.shown + seq(n, _ => ShowError(EofMessage)))
    decreases n
  {
    if n > 0 {
      var next := Step(ReportAndGoOn, st, Closed);
      assert seq(n, _ => Closed)[1..] == seq(n - 1, _ => Closed);
      EofLoopsForeverAsWritten(next, n - 1);
      assert [ShowError(EofMessage)] + seq(n - 1, _ => ShowError(EofMessage)) == seq(n, _ => ShowError(EofMessage));
    }
  }

  /** With a closed input ending the chat, the first EOF says goodbye and
      nothing after it is read. */
  lemma EofEndsSession(st: State, rest: seq<Command>)
    requires st.status == Running
    ensures Session(SayGoodbye, st, [Closed] + rest) == State(InputClosed, st.asked, st.shown + [Farewell])
  {
    assert ([Closed] + rest)[0] == Closed;
  }

  /** Until input is closed, the corrected loop does what the source does. */
  lemma {:induction false} SessionsAgreeWithoutEof(st: State, cs: seq<Command>)
    requires forall i | 0 <= i < |cs| :: !cs[i].Closed?
    ensures Session(SayGoodbye, st, cs) == Session(ReportAndGoOn, st, cs)
    decreases |cs|
  {
    if st.status == Running && cs != [] {
      assert !cs[0].Closed?;
      SessionsAgreeWithoutEof(Step(SayGoodbye, st, cs[0]), cs[1..]);
    }
  }

  // ---------------------------------------------------------------------
  // The script

  /** How a run of the script ends. */
  datatype Launched = MissingConfig(error: Config.ConfigError) | Chatted(final: State)

  /** Running the script: the configuration check at import, then `main()`. */
  method Launch(env: Config.Env, events: seq<Event>) returns (r: Launched)
    ensures r.MissingConfig? <==> !Config.AllSet(env, Config.RequiredVars)
    ensures r.MissingConfig? ==> exists i | 0 <= i < |Config.RequiredVars| ::
              && r.error.name == Config.RequiredVars[i]
              && !Config.IsSet(env, Config.RequiredVars[i])
              && Config.AllSet(env, Config.RequiredVars[..i])
    ensures r.Chatted? ==> r.final == Session(ReportAndGoOn, Start, Commands(events))
  {
    var check := Config.CheckRequired(env, Config.RequiredVars);
    if check.Fail? {
      return MissingConfig(check.error);
    }
    var final, _ := Run(events);
    r := Chatted(final);
  }
}
