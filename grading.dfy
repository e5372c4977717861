/** Grading an answer and keeping the wrong-answer notes: the item a quiz card
    shows, the trimmed comparison that decides correctness, and the
    duplicate-free, order-keeping note list. */
module Grading {
  import opened Text
  import opened QuizParser

  /** A wrong-answer note: the question, its answer and its explanation. */
  datatype Note = Note(question: string, answer: string, explanation: string)

  /** An entry of the active quiz list: a parsed record after generation, or
      a note put back into the list by the wrong-only retry (a note has no
      type and no choices). */
  datatype Item = Generated(quiz: Quiz) | Retried(note: Note)
  {
    function Question(): string {
      match this
      case Generated(q) => q.question
      case Retried(n) => n.question
    }

    function Answer(): string {
      match this
      case Generated(q) => q.answer
      case Retried(n) => n.answer
    }

    function Explanation(): string {
      match this
      case Generated(q) => q.explanation
      case Retried(n) => n.explanation
    }
  }

  /** The note written for an item answered wrongly. */
  function NoteOf(item: Item): Note {
    Note(item.Question(), item.Answer(), item.Explanation())
  }

  /** The freshly generated quiz list. */
  function AsGenerated(qs: seq<Quiz>): (items: seq<Item>)
    ensures |items| == |qs|
    ensures forall k :: 0 <= k < |qs| ==> items[k] == Generated(qs[k])
  {
    Map(q => Generated(q), qs)
  }

  /** The quiz list of the wrong-only retry: the notes themselves. */
  function AsRetried(notes: seq<Note>): (items: seq<Item>)
    ensures |items| == |notes|
    ensures forall k :: 0 <= k < |notes| ==> items[k] == Retried(notes[k])
  {
    Map(n => Retried(n), notes)
  }

  /** A submission is correct when it equals the answer once both are
      stripped of surrounding whitespace. */
  predicate IsCorrect(user: string, answer: string) {
    Strip(user) == Strip(answer)
  }

  /** core padded on both sides with whitespace only. */
  ghost predicate Padded(user: string, core: string) {
    exists a, b :: AllSpace(a) && AllSpace(b) && user == a + core + b
  }

  /** Correctness, stated without Strip on the submission: the submission is
      the stripped answer with any whitespace around it. */
  lemma CorrectIffPadded(user: string, answer: string)
    ensures IsCorrect(user, answer) <==> Padded(user, Strip(answer))
  {
    var a, m, b := StripSplits(user);
    if Padded(user, Strip(answer)) {
      var a', b' :| AllSpace(a') && AllSpace(b') && user == a' + Strip(answer) + b';
      StripCore(a', Strip(answer), b');
    }
  }

  /** Whitespace typed before or after a submission never changes its grade. */
  lemma GradeIgnoresOuterSpace(user: string, answer: string, w: string)
    requires AllSpace(w)
    ensures IsCorrect(user + w, answer) <==> IsCorrect(user, answer)
    ensures IsCorrect(w + user, answer) <==> IsCorrect(user, answer)
  {
    StripIgnoresOuterSpace(user, w);
  }

  /** Between texts already stripped, grading is plain equality. */
  lemma StrippedGrade(user: string, answer: string)
    requires IsStripped(user) && IsStripped(answer)
    ensures IsCorrect(user, answer) <==> user == answer
  {
    StripStripped(user);
    StripStripped(answer);
  }

  /** A visible character typed after the answer makes the submission wrong. */
  lemma ExtraCharIsWrong(answer: string, c: char)
    requires !IsSpace(c)
    ensures !IsCorrect(answer + [c], answer)
  {
    StripKeepsTrailingChar(answer, c);
  }

  predicate NoDuplicates<T(==)>(s: seq<T>) {
    forall i, j :: 0 <= i < j < |s| ==> s[i] != s[j]
  }

  /** Records a wrong answer's note: appended unless an equal note is already
      there. */
  function Record(notes: seq<Note>, n: Note): (r: seq<Note>)
    ensures n in r
    ensures |notes| <= |r| <= |notes| + 1 && r[..|notes|] == notes
    ensures r == notes <==> n in notes
    ensures forall m :: m in r <==> m in notes || m == n
    ensures NoDuplicates(notes) ==> NoDuplicates(r)
  {
    if n in notes then notes else notes + [n]
  }

  /** In a list without duplicates every element occurs exactly once. */
  lemma {:induction false} CountUnique<T>(s: seq<T>, x: T)
    requires NoDuplicates(s)
    ensures multiset(s)[x] == if x in s then 1 else 0
  {
    if s != [] {
      var t := s[1..];
      assert s == [s[0]] + t;
      assert NoDuplicates(t);
      CountUnique(t, x);
      if x == s[0] {
        assert x !in t by {
          forall j | 0 <= j < |t| ensures t[j] != x {
            assert t[j] == s[j + 1];
          }
        }
      }
    }
  }

  /** After recording, the note is in the list exactly once. */
  lemma RecordedOnce(notes: seq<Note>, n: Note)
    requires NoDuplicates(notes)
    ensures multiset(Record(notes, n))[n] == 1
  {
    CountUnique(Record(notes, n), n);
  }

  /** Recording the same note twice is recording it once. */
  lemma RecordIdempotent(notes: seq<Note>, n: Note)
    ensures Record(Record(notes, n), n) == Record(notes, n)
  {
  }

  /** An item put back by the retry yields the very note it came from, so
      answering it wrongly adds nothing. */
  lemma RetriedNoteKnown(notes: seq<Note>, k: nat)
    requires k < |notes|
    ensures NoteOf(AsRetried(notes)[k]) == notes[k]
    ensures Record(notes, NoteOf(AsRetried(notes)[k])) == notes
  {
    assert notes[k] in notes;
  }

  /** The answer widget a quiz card offers. */
  datatype Widget = ChoiceRadio(options: seq<string>) | TextBox

  /** The widget as the card code picks it: it reads the item's type, which
      a retried note does not have; None stands for that lookup failing. */
  function CardWidgetAsWritten(item: Item): (w: Option<Widget>)
    ensures w == None <==> item.Retried?
  {
    match item
    case Retried(_) => None
    case Generated(q) => Some(if q.kind == "객관식" && q.choices != [] then ChoiceRadio(q.choices) else TextBox)
  }

  /** Every card of the wrong-only retry fails to pick its widget. */
  lemma RetriedCardsFail(notes: seq<Note>, k: nat)
    requires k < |notes|
    ensures CardWidgetAsWritten(AsRetried(notes)[k]) == None
  {
  }

  /** The widget with a missing type read as empty: a retried note is
      answered in a text box, a multiple-choice record with choices by
      picking one of them. */
  function CardWidget(item: Item): (w: Widget)
    ensures item.Retried? ==> w == TextBox
    ensures w.ChoiceRadio? <==> item.Generated? && item.quiz.kind == "객관식" && item.quiz.choices != []
    ensures w.ChoiceRadio? ==> w.options == item.quiz.choices
    ensures item.Generated? ==> CardWidgetAsWritten(item) == Some(w)
  {
    match item
    case Retried(_) => TextBox
    case Generated(q) => if q.kind == "객관식" && q.choices != [] then ChoiceRadio(q.choices) else TextBox
  }
}
