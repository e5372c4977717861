/** The quiz parser: the language model's free-text reply is cut into blocks
    at blank lines, each block into lines, and each line is matched against
    five field prefixes; blocks without a question are dropped. */
module QuizParser {
  import opened Text

  /** One parsed record. `kind` is the record's `type` field: the raw text of
      the type marker (for instance "객관식"), not an enumeration. */
  datatype Quiz = Quiz(kind: string, question: string, choices: seq<string>, answer: string, explanation: string)

  /** The record every block starts from. */
  const Blank: Quiz := Quiz("", "", [], "", "")

  const TypePrefix: string := "[문제유형:"
  const QuestionPrefix: string := "문제:"
  const ChoicesPrefix: string := "선택지:"
  const AnswerPrefix: string := "정답:"
  const ExplanationPrefix: string := "해설:"
  const BlockSeparator: string := "\n\n"
  const LineSeparator: string := "\n"
  const ChoiceSeparator: string := ";"

  datatype Field = KindField | QuestionField | ChoicesField | AnswerField | ExplanationField

  /** Which field a line sets: the prefixes are tried in this order and
      only at the very start of the line (leading whitespace defeats them). */
  function Classify(line: string): Option<Field> {
    if StartsWith(line, TypePrefix) then Some(KindField)
    else if StartsWith(line, QuestionPrefix) then Some(QuestionField)
    else if StartsWith(line, ChoicesPrefix) then Some(ChoicesField)
    else if StartsWith(line, AnswerPrefix) then Some(AnswerField)
    else if StartsWith(line, ExplanationPrefix) then Some(ExplanationField)
    else None
  }

  /** a and b hold the same value in field f. */
  predicate Agree(a: Quiz, b: Quiz, f: Field) {
    match f
    case KindField => a.kind == b.kind
    case QuestionField => a.question == b.question
    case ChoicesField => a.choices == b.choices
    case AnswerField => a.answer == b.answer
    case ExplanationField => a.explanation == b.explanation
  }

  /** The stripped, non-blank entries of a split choice line, in order. */
  function NonBlankStripped(parts: seq<string>): (cs: seq<string>)
    ensures forall c :: c in cs ==> c != "" && IsStripped(c)
    ensures |cs| <= |parts|
  {
    if parts == [] then []
    else
      var c := Strip(parts[0]);
      (if c != "" then [c] else []) + NonBlankStripped(parts[1..])
  }

  /** The choices read from what follows the choice prefix: none is blank
      and none carries surrounding whitespace. */
  function ChoiceList(rest: string): (cs: seq<string>)
    ensures forall c :: c in cs ==> c != "" && IsStripped(c)
  {
    NonBlankStripped(Split(rest, ChoiceSeparator))
  }

  /** The value of the type marker: every occurrence of the prefix and
      every ']' removed, then stripped; so no ']' is left in it. */
  function KindValue(line: string): (k: string)
    ensures IsStripped(k) && ']' !in k
  {
    var t := RemoveAll(RemoveAll(line, TypePrefix), "]");
    RemoveAllDropsChar(RemoveAll(line, TypePrefix), ']');
    StripExcludes(t, ']');
    Strip(t)
  }

  /** The value of a text field: every occurrence of the prefix removed
      (not only the leading one), then stripped. */
  function TextValue(line: string, prefix: string): (v: string)
    requires prefix != []
    ensures IsStripped(v) && |v| <= |line|
  {
    RemoveAllShorter(line, prefix);
    Strip(RemoveAll(line, prefix))
  }

  /** One line of a block applied to the record built so far. */
  function ApplyLine(q: Quiz, line: string): (r: Quiz)
    ensures Classify(line) == None ==> r == q
  {
    match Classify(line)
    case None => q
    case Some(KindField) => q.(kind := KindValue(line))
    case Some(QuestionField) => q.(question := TextValue(line, QuestionPrefix))
    case Some(ChoicesField) => q.(choices := ChoiceList(RemoveAll(line, ChoicesPrefix)))
    case Some(AnswerField) => q.(answer := TextValue(line, AnswerPrefix))
    case Some(ExplanationField) => q.(explanation := TextValue(line, ExplanationPrefix))
  }

  /** The lines applied in order, first to last. */
  function ApplyLines(q: Quiz, lines: seq<string>): Quiz {
    if lines == [] then q
    else ApplyLine(ApplyLines(q, lines[..|lines| - 1]), lines[|lines| - 1])
  }

  function Lines(block: string): seq<string> {
    Split(Strip(block), LineSeparator)
  }

  /** The record one block yields (kept only if its question is non-empty). */
  function BlockQuiz(block: string): Quiz {
    ApplyLines(Blank, Lines(block))
  }

  function Blocks(raw: string): seq<string> {
    Split(Strip(raw), BlockSeparator)
  }

  /** f applied to every element, in order. */
  function Map<A, B>(f: A -> B, xs: seq<A>): (ys: seq<B>)
    ensures |ys| == |xs|
    ensures forall k :: 0 <= k < |xs| ==> ys[k] == f(xs[k])
  {
    if xs == [] then [] else Map(f, xs[..|xs| - 1]) + [f(xs[|xs| - 1])]
  }

  /** The records that have a non-empty question, in their original order. */
  function KeepQuestions(rs: seq<Quiz>): (qs: seq<Quiz>)
    ensures forall q :: q in qs ==> q.question != ""
    ensures |qs| <= |rs|
  {
    if rs == [] then []
    else
      var q := rs[|rs| - 1];
      KeepQuestions(rs[..|rs| - 1]) + (if q.question != "" then [q] else [])
  }

  /** What parse_quiz returns for a reply. */
  function Parsed(raw: string): seq<Quiz> {
    KeepQuestions(Map(BlockQuiz, Blocks(raw)))
  }

  /** The body of parse_quiz's outer loop: a fresh record whose fields are
      overwritten by the block's lines, first to last (the if/elif chain on
      each line is ApplyLine). */
  method ParseBlock(block: string) returns (quiz: Quiz)
    ensures quiz == BlockQuiz(block)
  {
    var lines := Split(Strip(block), LineSeparator);
    quiz := Blank;
    var j := 0;
    assert lines[..0] == [];
    while j < |lines|
      invariant 0 <= j <= |lines|
      invariant quiz == ApplyLines(Blank, lines[..j])
    {
      quiz := ApplyLine(quiz, lines[j]);
      ApplyLinesSnoc(Blank, lines, j);
      j := j + 1;
    }
    assert lines[..j] == lines;
  }

  /** parse_quiz: blocks in order, each parsed and appended when it has a
      question. */
  method ParseQuiz(raw: string) returns (quizzes: seq<Quiz>)
    ensures quizzes == Parsed(raw)
  {
    quizzes := [];
    var blocks := Split(Strip(raw), BlockSeparator);
    var i := 0;
    assert blocks[..0] == [];
    while i < |blocks|
      invariant 0 <= i <= |blocks|
      invariant quizzes == KeepQuestions(Map(BlockQuiz, blocks[..i]))
    {
      var quiz := ParseBlock(blocks[i]);
      ParsedSnoc(blocks, i);
      if quiz.question != "" {
        quizzes := quizzes + [quiz];
      }
      i := i + 1;
    }
    assert blocks[..i] == blocks;
  }

  lemma ApplyLinesSnoc(q: Quiz, lines: seq<string>, j: nat)
    requires j < |lines|
    ensures ApplyLines(q, lines[..j + 1]) == ApplyLine(ApplyLines(q, lines[..j]), lines[j])
  {
    assert lines[..j + 1][..j] == lines[..j];
  }

  /** Mapping g after f gives back the input when g undoes f on it. */
  lemma MapInverse<A, B>(f: A -> B, g: B -> A, xs: seq<A>)
    requires forall k :: 0 <= k < |xs| ==> g(f(xs[k])) == xs[k]
    ensures Map(g, Map(f, xs)) == xs
  {
    var ys := Map(g, Map(f, xs));
    assert |ys| == |xs|;
    forall k | 0 <= k < |xs| ensures ys[k] == xs[k] {
      assert Map(f, xs)[k] == f(xs[k]);
    }
  }

  lemma MapSnoc<A, B>(f: A -> B, xs: seq<A>, i: nat)
    requires i < |xs|
    ensures Map(f, xs[..i + 1]) == Map(f, xs[..i]) + [f(xs[i])]
  {
    assert xs[..i + 1][..i] == xs[..i];
  }

  /** One more block adds its record when that record has a question. */
  lemma ParsedSnoc(blocks: seq<string>, i: nat)
    requires i < |blocks|
    ensures var q := BlockQuiz(blocks[i]);
      KeepQuestions(Map(BlockQuiz, blocks[..i + 1]))
      == KeepQuestions(Map(BlockQuiz, blocks[..i])) + (if q.question != "" then [q] else [])
  {
    MapSnoc(BlockQuiz, blocks, i);
    KeepSnoc(Map(BlockQuiz, blocks[..i]), BlockQuiz(blocks[i]));
  }

  lemma KeepSnoc(rs: seq<Quiz>, q: Quiz)
    ensures KeepQuestions(rs + [q]) == KeepQuestions(rs) + (if q.question != "" then [q] else [])
  {
    assert (rs + [q])[..|rs|] == rs;
  }

  lemma AgreeTrans(a: Quiz, b: Quiz, c: Quiz, f: Field)
    requires Agree(a, b, f) && Agree(b, c, f)
    ensures Agree(a, c, f)
  {}

  /** A line changes no field but the one it names; a line that names no
      field changes nothing. */
  lemma ApplyLineFrame(q: Quiz, line: string, f: Field)
    requires Classify(line) != Some(f)
    ensures Agree(ApplyLine(q, line), q, f)
  {}

  /** The field a line sets gets a value that depends on the line alone. */
  lemma ApplyLineSets(x: Quiz, y: Quiz, line: string, f: Field)
    requires Classify(line) == Some(f)
    ensures Agree(ApplyLine(x, line), ApplyLine(y, line), f)
  {}

  /** A field that no line of the block names keeps its value (the default
      '' or [] when starting from Blank). */
  lemma {:induction false} FieldDefault(q: Quiz, lines: seq<string>, f: Field)
    requires forall k :: 0 <= k < |lines| ==> Classify(lines[k]) != Some(f)
    ensures Agree(ApplyLines(q, lines), q, f)
    decreases |lines|
  {
    if lines != [] {
      var init := lines[..|lines| - 1];
      FieldDefault(q, init, f);
      ApplyLineFrame(ApplyLines(q, init), lines[|lines| - 1], f);
      AgreeTrans(ApplyLines(q, lines), ApplyLines(q, init), q, f);
    }
  }

  /** When several lines name the same field, the last one wins: the field
      holds what that line alone gives. */
  lemma {:induction false} LastLineWins(q: Quiz, lines: seq<string>, f: Field, k: nat)
    requires k < |lines| && Classify(lines[k]) == Some(f)
    requires forall j :: k < j < |lines| ==> Classify(lines[j]) != Some(f)
    ensures Agree(ApplyLines(q, lines), ApplyLine(Blank, lines[k]), f)
    decreases |lines|
  {
    var init := lines[..|lines| - 1];
    if k == |lines| - 1 {
      ApplyLineSets(ApplyLines(q, init), Blank, lines[k], f);
    } else {
      LastLineWins(q, init, f, k);
      ApplyLineFrame(ApplyLines(q, init), lines[|lines| - 1], f);
      AgreeTrans(ApplyLines(q, lines), ApplyLines(q, init), ApplyLine(Blank, lines[k]), f);
    }
  }

  /** The choice list is empty exactly when every ';'-separated entry is
      blank (in particular for an empty remainder). */
  lemma {:induction false} NoChoicesIffAllBlank(parts: seq<string>)
    ensures NonBlankStripped(parts) == [] <==> forall p :: p in parts ==> Strip(p) == ""
  {
    if parts != [] {
      NoChoicesIffAllBlank(parts[1..]);
      assert forall p :: p in parts <==> p == parts[0] || p in parts[1..];
    }
  }

  /** Keeping records distributes over concatenation: the output follows
      the input order, record by record. */
  lemma {:induction false} KeepConcat(a: seq<Quiz>, b: seq<Quiz>)
    ensures KeepQuestions(a + b) == KeepQuestions(a) + KeepQuestions(b)
    decreases |b|
  {
    if b == [] {
      assert a + b == a;
    } else {
      var b' := b[..|b| - 1];
      assert (a + b)[..|a + b| - 1] == a + b';
      assert (a + b)[|a + b| - 1] == b[|b| - 1];
      KeepConcat(a, b');
    }
  }

  /** A single record is kept exactly when it has a question. */
  lemma KeepSingle(q: Quiz)
    ensures KeepQuestions([q]) == if q.question != "" then [q] else []
  {
    assert [q][..0] == [];
  }

  /** Every kept record is one of the input records. */
  lemma {:induction false} KeepFromInput(rs: seq<Quiz>)
    ensures forall q :: q in KeepQuestions(rs) ==> q in rs
    decreases |rs|
  {
    if rs != [] {
      KeepFromInput(rs[..|rs| - 1]);
      assert forall q :: q in rs[..|rs| - 1] ==> q in rs;
    }
  }

  /** With no record holding a question the result is empty. */
  lemma {:induction false} KeepNone(rs: seq<Quiz>)
    requires forall k :: 0 <= k < |rs| ==> rs[k].question == ""
    ensures KeepQuestions(rs) == []
    decreases |rs|
  {
    if rs != [] {
      KeepNone(rs[..|rs| - 1]);
    }
  }

  /** Records that all have questions are all kept. */
  lemma {:induction false} KeepAll(rs: seq<Quiz>)
    requires forall k :: 0 <= k < |rs| ==> rs[k].question != ""
    ensures KeepQuestions(rs) == rs
    decreases |rs|
  {
    if rs != [] {
      KeepAll(rs[..|rs| - 1]);
      assert rs == rs[..|rs| - 1] + [rs[|rs| - 1]];
    }
  }

  /** Every choice of the record is non-empty and has no surrounding
      whitespace. */
  predicate CleanChoices(q: Quiz) {
    forall c :: c in q.choices ==> c != "" && IsStripped(c)
  }

  /** Applying lines never brings in a blank or padded choice. */
  lemma {:induction false} ApplyLinesClean(q: Quiz, lines: seq<string>)
    requires CleanChoices(q)
    ensures CleanChoices(ApplyLines(q, lines))
    decreases |lines|
  {
    if lines != [] {
      ApplyLinesClean(q, lines[..|lines| - 1]);
    }
  }

  /** Every choice of every parsed record is non-empty and stripped, and
      every parsed record has a question. */
  lemma ParsedClean(raw: string)
    ensures forall q :: q in Parsed(raw) ==> q.question != "" && CleanChoices(q)
  {
    var rs := Map(BlockQuiz, Blocks(raw));
    KeepFromInput(rs);
    forall k | 0 <= k < |rs| ensures CleanChoices(rs[k]) {
      ApplyLinesClean(Blank, Lines(Blocks(raw)[k]));
    }
  }

  /** The choice label the generation prompt shows, "선택지(객관식만):", is
      not the prefix parse_quiz tests for: such a line names no field and
      is dropped with everything on it. */
  lemma PromptChoiceLabelIgnored(q: Quiz, rest: string)
    ensures Classify("선택지(객관식만):" + rest) == None
    ensures ApplyLine(q, "선택지(객관식만):" + rest) == q
  {
    var line := "선택지(객관식만):" + rest;
    assert line[0] == '선' && line[3] == '(';
  }
}
