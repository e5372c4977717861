/** The per-session quiz state and the three user actions that change it:
    generating a quiz set, retrying only the wrongly answered questions, and
    checking one answer. */
module Session {
  import opened Text
  import opened QuizParser
  import opened QuizFormat
  import opened Grading

  /** n copies of x, as Python's [x] * n. */
  function Repeat<T>(x: T, n: nat): (r: seq<T>)
    ensures |r| == n
    ensures forall k :: 0 <= k < n ==> r[k] == x
  {
    if n == 0 then [] else Repeat(x, n - 1) + [x]
  }

  /** Whether input.strip() is empty: every character is whitespace. */
  method IsBlank(input: string) returns (blank: bool)
    ensures blank <==> AllSpace(input)
  {
    var i := 0;
    while i < |input| && IsSpace(input[i])
      invariant 0 <= i <= |input|
      invariant AllSpace(input[..i])
    {
      i := i + 1;
    }
    blank := i == |input|;
    if blank {
      assert input[..i] == input;
    }
  }

  class Session {
    /** The active quiz list. */
    var quizzes: seq<Item>
    /** The last submission per quiz, "" before any. */
    var userAnswers: seq<string>
    /** Whether each quiz has been checked. */
    var checked: seq<bool>
    /** The wrong-answer notes, oldest first. */
    var wrongNotes: seq<Note>
    /** Whether the active list is the retry of the wrong notes. */
    var wrongOnlyMode: bool

    /** The per-quiz lists run in step with the quiz list, notes are never
        repeated, and in retry mode the quiz list is the note list itself
        (the two names share one list object). */
    ghost predicate Valid()
      reads this
    {
      && |userAnswers| == |quizzes|
      && |checked| == |quizzes|
      && NoDuplicates(wrongNotes)
      && (wrongOnlyMode ==> quizzes == AsRetried(wrongNotes))
    }

    /** A new session: no quizzes, no notes, not in retry mode. */
    constructor ()
      ensures Valid()
      ensures quizzes == [] && userAnswers == [] && checked == []
      ensures wrongNotes == [] && !wrongOnlyMode
    {
      quizzes := [];
      userAnswers := [];
      checked := [];
      wrongNotes := [];
      wrongOnlyMode := false;
    }

    /** The generate button. input is the source text; reply is what the
        language model call returned, None when it raised. With input that
        is not all whitespace and a reply, the reply is parsed and replaces
        the quiz set, fresh answers and flags, and clears the notes;
        otherwise nothing changes. */
    method Generate(input: string, reply: Option<string>) returns (loaded: bool)
      requires Valid()
      modifies this
      ensures Valid()
      ensures loaded <==> !AllSpace(input) && reply.Some?
      ensures loaded ==> quizzes == AsGenerated(Parsed(reply.value))
      ensures loaded ==> userAnswers == Repeat("", |quizzes|) && checked == Repeat(false, |quizzes|)
      ensures loaded ==> wrongNotes == [] && !wrongOnlyMode
      ensures !loaded ==> unchanged(this)
    {
      var blank := IsBlank(input);
      loaded := !blank && reply.Some?;
      if loaded {
        var parsed := ParseQuiz(reply.value);
        Load(parsed);
      }
    }

    /** The state change of a successful generation: the parsed records
        become the quiz set. */
    method Load(parsed: seq<Quiz>)
      modifies this
      ensures Valid()
      ensures quizzes == AsGenerated(parsed)
      ensures userAnswers == Repeat("", |quizzes|) && checked == Repeat(false, |quizzes|)
      ensures wrongNotes == [] && !wrongOnlyMode
    {
      quizzes := AsGenerated(parsed);
      userAnswers := Repeat("", |parsed|);
      checked := Repeat(false, |parsed|);
      wrongNotes := [];
      wrongOnlyMode := false;
    }

    /** The retry-wrong-only button, offered while there are notes and the
        session is not already in retry mode: the notes become the quiz
        list with fresh answers and flags; the notes stay. */
    method RetryWrongOnly() returns (started: bool)
      requires Valid()
      modifies this
      ensures Valid()
      ensures started <==> old(wrongNotes) != [] && !old(wrongOnlyMode)
      ensures started ==> quizzes == AsRetried(old(wrongNotes)) && wrongOnlyMode
      ensures started ==> userAnswers == Repeat("", |quizzes|) && checked == Repeat(false, |quizzes|)
      ensures wrongNotes == old(wrongNotes)
      ensures !started ==> unchanged(this)
    {
      started := false;
      if wrongNotes != [] && !wrongOnlyMode {
        quizzes := AsRetried(wrongNotes);
        userAnswers := Repeat("", |wrongNotes|);
        checked := Repeat(false, |wrongNotes|);
        wrongOnlyMode := true;
        started := true;
      }
    }

    /** The check button of card idx with submission user: the card is
        marked checked and keeps the submission; a wrong submission records
        the card's note unless an equal note is already kept. */
    method CheckAnswer(idx: nat, user: string) returns (correct: bool)
      requires Valid() && idx < |quizzes|
      modifies this
      ensures Valid()
      ensures correct <==> IsCorrect(user, old(quizzes[idx]).Answer())
      ensures quizzes == old(quizzes) && wrongOnlyMode == old(wrongOnlyMode)
      ensures checked == old(checked)[idx := true]
      ensures userAnswers == old(userAnswers)[idx := user]
      ensures correct ==> wrongNotes == old(wrongNotes)
      ensures !correct ==> wrongNotes == Record(old(wrongNotes), NoteOf(old(quizzes[idx])))
      ensures old(wrongOnlyMode) ==> wrongNotes == old(wrongNotes)
    {
      checked := checked[idx := true];
      userAnswers := userAnswers[idx := user];
      var item := quizzes[idx];
      correct := IsCorrect(user, item.Answer());
      if !correct {
        if wrongOnlyMode {
          RetriedNoteKnown(wrongNotes, idx);
        }
        AddNote(NoteOf(item));
      }
    }

    /** The note list after a wrong answer: the note is appended unless an
        equal note is already kept. */
    method AddNote(note: Note)
      requires NoDuplicates(wrongNotes)
      modifies this
      ensures wrongNotes == Record(old(wrongNotes), note)
      ensures quizzes == old(quizzes) && userAnswers == old(userAnswers)
      ensures checked == old(checked) && wrongOnlyMode == old(wrongOnlyMode)
    {
      if note !in wrongNotes {
        wrongNotes := wrongNotes + [note];
      }
    }

    /** The answer widget of every card, with a retried note's missing type
        read as empty. */
    function Widgets(): (ws: seq<Widget>)
      reads this
      ensures |ws| == |quizzes|
      ensures forall k :: 0 <= k < |ws| ==> ws[k] == CardWidget(quizzes[k])
      ensures Valid() && wrongOnlyMode ==> forall k :: 0 <= k < |ws| ==> ws[k] == TextBox
    {
      Map(CardWidget, quizzes)
    }
  }

  /** The worked example: the one-question example reply is generated, the
      submission "3" is checked against answer "2", and the retry then offers
      that one question again. */
  method Walkthrough() returns (correct: bool, notes: seq<Note>, retry: seq<Item>)
    ensures !correct
    ensures notes == [Note("1+1=?", "2", "기본 연산")]
    ensures retry == [Retried(Note("1+1=?", "2", "기본 연산"))]
  {
    var s := SampleSession();
    StrippedGrade("3", "2");
    correct := s.CheckAnswer(0, "3");
    notes := s.wrongNotes;
    var started := s.RetryWrongOnly();
    retry := s.quizzes;
  }

  /** The first step of the worked example: a new session generates from the
      one-question example reply and holds that one quiz. */
  method SampleSession() returns (s: Session)
    ensures fresh(s) && s.Valid()
    ensures s.quizzes == [Generated(SampleQuiz)]
    ensures s.wrongNotes == [] && !s.wrongOnlyMode
  {
    s := new Session();
    SampleReply();
    assert !AllSpace("1+1") by {
      assert !IsSpace("1+1"[0]);
    }
    var loaded := s.Generate("1+1", Some(SampleReplyText));
  }
}
