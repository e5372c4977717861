/** The reply format parse_quiz reads, as a renderer from records to text,
    and the round trip: a reply written in that format parses back to the
    records it was written from. (The generation prompt labels the choice
    line differently; see QuizParser.PromptChoiceLabelIgnored.) */
module QuizFormat {
  import opened Text
  import opened QuizParser

  /** A field line: the prefix, one space and the value (just the prefix
      when the value is empty). */
  function FieldLine(prefix: string, v: string): string {
    if v == "" then prefix else prefix + " " + v
  }

  /** The type marker line, "[문제유형: <kind>]". */
  function KindLine(k: string): string {
    TypePrefix + " " + k + "]"
  }

  function BlockLines(q: Quiz): seq<string> {
    [ KindLine(q.kind),
      FieldLine(QuestionPrefix, q.question),
      FieldLine(ChoicesPrefix, Join(q.choices, ChoiceSeparator)),
      FieldLine(AnswerPrefix, q.answer),
      FieldLine(ExplanationPrefix, q.explanation) ]
  }

  /** One block: the five field lines, one per line. */
  function BlockText(q: Quiz): string {
    Join(BlockLines(q), LineSeparator)
  }

  /** A whole reply: the blocks separated by blank lines. */
  function ReplyText(qs: seq<Quiz>): string {
    Join(Map(BlockText, qs), BlockSeparator)
  }

  /** A field value that fits on one line and is already stripped. */
  predicate OneLine(s: string) {
    IsStripped(s) && '\n' !in s
  }

  /** The records the format can carry unchanged: every value sits on one
      line without surrounding whitespace, choices are non-empty and free of
      ';', the type text has no brackets, and no value contains its own
      field's prefix (which replace would remove). */
  predicate Renderable(q: Quiz) {
    && OneLine(q.kind) && '[' !in q.kind && ']' !in q.kind
    && OneLine(q.question) && NoMatch(q.question, QuestionPrefix)
    && (forall c :: c in q.choices ==> c != "" && OneLine(c) && ';' !in c)
    && NoMatch(Join(q.choices, ChoiceSeparator), ChoicesPrefix)
    && OneLine(q.answer) && NoMatch(q.answer, AnswerPrefix)
    && OneLine(q.explanation) && NoMatch(q.explanation, ExplanationPrefix)
  }

  lemma PrefixStarts(p: string, x: string)
    ensures StartsWith(p + x, p)
  {
    assert (p + x)[..|p|] == p;
  }

  lemma FieldLineStarts(prefix: string, v: string)
    ensures StartsWith(FieldLine(prefix, v), prefix)
  {
    if v == "" {
      assert prefix[..|prefix|] == prefix;
    } else {
      assert prefix + " " + v == prefix + (" " + v);
      PrefixStarts(prefix, " " + v);
    }
  }

  lemma SpaceNoMatch(p: string, v: string)
    requires p != [] && p[0] != ' ' && NoMatch(v, p)
    ensures NoMatch(" " + v, p)
  {
    forall i | 0 <= i < |" " + v| ensures !StartsWith((" " + v)[i..], p) {
      if i == 0 {
        assert (" " + v)[0..][0] == ' ';
      } else {
        assert (" " + v)[i..] == v[i - 1..];
      }
    }
  }

  lemma StripSpaceBefore(v: string)
    requires IsStripped(v)
    ensures Strip(" " + v) == v
  {
    assert " " + v == " " + v + [];
    StripCore(" ", v, []);
  }

  /** replace(prefix, '') on a field line leaves the separating space and
      the value. */
  lemma FieldLineRest(prefix: string, v: string)
    requires prefix != [] && prefix[0] != ' ' && NoMatch(v, prefix)
    ensures RemoveAll(FieldLine(prefix, v), prefix) == if v == "" then "" else " " + v
  {
    if v == "" {
      assert prefix + "" == prefix;
      RemoveAllLeading(prefix, "");
    } else {
      SpaceNoMatch(prefix, v);
      assert prefix + " " + v == prefix + (" " + v);
      RemoveAllLeading(prefix, " " + v);
    }
  }

  /** A text field written by the renderer reads back as itself. */
  lemma TextFieldRoundTrip(prefix: string, v: string)
    requires prefix != [] && prefix[0] != ' ' && NoMatch(v, prefix) && IsStripped(v)
    ensures TextValue(FieldLine(prefix, v), prefix) == v
  {
    FieldLineRest(prefix, v);
    if v != "" {
      StripSpaceBefore(v);
    }
  }

  /** The type marker reads back as the kind it was written with. */
  lemma KindRoundTrip(k: string)
    requires IsStripped(k) && '[' !in k && ']' !in k
    ensures KindValue(KindLine(k)) == k
  {
    var inner := " " + k;
    var rest := inner + "]";
    assert KindLine(k) == TypePrefix + rest;
    FirstCharAbsent(rest, TypePrefix);
    RemoveAllLeading(TypePrefix, rest);
    FirstCharAbsent(inner, "]");
    RemoveAllTrailing(inner, "]");
    StripSpaceBefore(k);
  }

  lemma HeadTail<T>(s: seq<T>)
    requires s != []
    ensures s == [s[0]] + s[1..]
  {
  }

  /** Non-blank stripped entries pass through the choice filter unchanged. */
  lemma {:induction false} NonBlankStrippedKeeps(cs: seq<string>)
    requires forall c :: c in cs ==> c != "" && IsStripped(c)
    ensures NonBlankStripped(cs) == cs
  {
    if cs != [] {
      HeadTail(cs);
      assert cs[0] in cs;
      StripStripped(cs[0]);
      assert NonBlankStripped(cs) == [cs[0]] + NonBlankStripped(cs[1..]);
      assert forall c :: c in cs[1..] ==> c in cs;
      NonBlankStrippedKeeps(cs[1..]);
    }
  }

  /** The choice line reads back as the choices it was written with. */
  lemma ChoicesRoundTrip(cs: seq<string>)
    requires forall c :: c in cs ==> c != "" && IsStripped(c) && ';' !in c
    requires NoMatch(Join(cs, ChoiceSeparator), ChoicesPrefix)
    ensures ChoiceList(RemoveAll(FieldLine(ChoicesPrefix, Join(cs, ChoiceSeparator)), ChoicesPrefix)) == cs
  {
    var j := Join(cs, ChoiceSeparator);
    FieldLineRest(ChoicesPrefix, j);
    if cs == [] {
      assert Split("", ChoiceSeparator) == [""];
      assert Strip("") == "";
    } else {
      JoinStartsWith(cs, ChoiceSeparator);
      assert cs[0] in cs;
      assert j != "";
      forall k | 0 <= k < |cs| ensures SeparableBy(cs[k], ChoiceSeparator) {
        assert cs[k] in cs;
        FirstCharAbsent(cs[k], ChoiceSeparator);
      }
      SplitJoin(cs, ChoiceSeparator);
      var s := " " + j;
      assert s[1..] == j;
      assert !StartsWith(s, ChoiceSeparator) by {
        assert s[..1][0] == ' ';
      }
      assert Split(s, ChoiceSeparator) == [" " + cs[0]] + cs[1..];
      StripSpaceBefore(cs[0]);
      NonBlankStrippedKeeps(cs[1..]);
      assert cs == [cs[0]] + cs[1..];
    }
  }

  /** Newlines in s are single and never last. */
  predicate NewlinesSingle(s: string) {
    forall i :: 0 <= i < |s| && s[i] == '\n' ==> i + 1 < |s| && s[i + 1] != '\n'
  }

  lemma {:induction false} JoinLinesSingle(lines: seq<string>)
    requires lines != []
    requires forall k :: 0 <= k < |lines| ==> lines[k] != [] && '\n' !in lines[k]
    ensures NewlinesSingle(Join(lines, LineSeparator))
    decreases |lines|
  {
    if |lines| == 1 {
      assert Join(lines, LineSeparator) == lines[0];
    } else {
      var l := lines[0];
      var rest := Join(lines[1..], LineSeparator);
      JoinLinesSingle(lines[1..]);
      JoinStartsWith(lines[1..], LineSeparator);
      assert rest[0] == lines[1][0];
      var s := Join(lines, LineSeparator);
      assert s == l + "\n" + rest;
      forall i | 0 <= i < |s| ensures s[i] == '\n' ==> i + 1 < |s| && s[i + 1] != '\n' {
        if i < |l| {
          assert s[i] == l[i];
        } else if i > |l| {
          assert s[i] == rest[i - |l| - 1];
        }
      }
    }
  }

  lemma SingleNewlinesSeparable(s: string)
    requires NewlinesSingle(s)
    ensures SeparableBy(s, BlockSeparator)
  {
    forall i | 0 <= i < |s| ensures !StartsWith((s + BlockSeparator)[i..], BlockSeparator) {
      var x := (s + BlockSeparator)[i..];
      assert x[0] == s[i];
      if s[i] == '\n' {
        assert x[1] == s[i + 1];
      }
    }
  }

  lemma ChoicesOneLine(q: Quiz)
    requires Renderable(q)
    ensures '\n' !in Join(q.choices, ChoiceSeparator)
  {
    forall k | 0 <= k < |q.choices| ensures '\n' !in q.choices[k] {
      assert q.choices[k] in q.choices;
    }
    JoinExcludes(q.choices, ChoiceSeparator, '\n');
  }

  /** A rendered block is one text with no blank line and no trailing newline. */
  lemma BlockSeparable(q: Quiz)
    requires Renderable(q)
    ensures SeparableBy(BlockText(q), BlockSeparator)
  {
    var lines := BlockLines(q);
    ChoicesOneLine(q);
    forall k | 0 <= k < |lines| ensures lines[k] != [] && '\n' !in lines[k] {
    }
    JoinLinesSingle(lines);
    SingleNewlinesSeparable(BlockText(q));
  }

  /** The last character of a rendered block is not whitespace. */
  lemma BlockStripped(q: Quiz)
    requires Renderable(q)
    ensures IsStripped(BlockText(q)) && BlockText(q)[0] == '['
  {
    var lines := BlockLines(q);
    var b := BlockText(q);
    JoinStartsWith(lines, LineSeparator);
    JoinEndsWith(lines, LineSeparator);
    var last := lines[4];
    assert b[|b| - |last|..] == last;
    assert b[|b| - 1] == last[|last| - 1];
    var e := q.explanation;
    if e == "" {
      assert last[|last| - 1] == ':';
    } else {
      assert last[|last| - 1] == e[|e| - 1];
    }
    assert b[0] == lines[0][0];
  }

  lemma ApplyFive(q: Quiz, l: seq<string>)
    requires |l| == 5
    ensures ApplyLines(q, l) ==
      ApplyLine(ApplyLine(ApplyLine(ApplyLine(ApplyLine(q, l[0]), l[1]), l[2]), l[3]), l[4])
  {
    assert l[..5] == l;
    assert l[..0] == [];
    ApplyLinesSnoc(q, l, 0);
    ApplyLinesSnoc(q, l, 1);
    ApplyLinesSnoc(q, l, 2);
    ApplyLinesSnoc(q, l, 3);
    ApplyLinesSnoc(q, l, 4);
  }

  /** A line that starts with one prefix does not start with another whose
      first character differs. */
  lemma OtherPrefix(s: string, own: string, p: string)
    requires StartsWith(s, own) && own != [] && p != [] && own[0] != p[0]
    ensures !StartsWith(s, p)
  {
    assert s[0] == s[..|own|][0];
    if |p| <= |s| {
      assert s[..|p|][0] == s[0];
    }
  }

  lemma ApplyKind(r: Quiz, k: string)
    requires IsStripped(k) && '[' !in k && ']' !in k
    ensures ApplyLine(r, KindLine(k)) == r.(kind := k)
  {
    PrefixStarts(TypePrefix, " " + k + "]");
    assert TypePrefix + (" " + k + "]") == KindLine(k);
    KindRoundTrip(k);
  }

  lemma ApplyQuestion(r: Quiz, v: string)
    requires IsStripped(v) && NoMatch(v, QuestionPrefix)
    ensures ApplyLine(r, FieldLine(QuestionPrefix, v)) == r.(question := v)
  {
    var line := FieldLine(QuestionPrefix, v);
    FieldLineStarts(QuestionPrefix, v);
    OtherPrefix(line, QuestionPrefix, TypePrefix);
    assert Classify(line) == Some(QuestionField);
    TextFieldRoundTrip(QuestionPrefix, v);
  }

  lemma ApplyChoices(r: Quiz, cs: seq<string>)
    requires forall c :: c in cs ==> c != "" && IsStripped(c) && ';' !in c
    requires NoMatch(Join(cs, ChoiceSeparator), ChoicesPrefix)
    ensures ApplyLine(r, FieldLine(ChoicesPrefix, Join(cs, ChoiceSeparator))) == r.(choices := cs)
  {
    var line := FieldLine(ChoicesPrefix, Join(cs, ChoiceSeparator));
    FieldLineStarts(ChoicesPrefix, Join(cs, ChoiceSeparator));
    OtherPrefix(line, ChoicesPrefix, TypePrefix);
    OtherPrefix(line, ChoicesPrefix, QuestionPrefix);
    assert Classify(line) == Some(ChoicesField);
    ChoicesRoundTrip(cs);
  }

  lemma ApplyAnswer(r: Quiz, v: string)
    requires IsStripped(v) && NoMatch(v, AnswerPrefix)
    ensures ApplyLine(r, FieldLine(AnswerPrefix, v)) == r.(answer := v)
  {
    var line := FieldLine(AnswerPrefix, v);
    FieldLineStarts(AnswerPrefix, v);
    OtherPrefix(line, AnswerPrefix, TypePrefix);
    OtherPrefix(line, AnswerPrefix, QuestionPrefix);
    OtherPrefix(line, AnswerPrefix, ChoicesPrefix);
    assert Classify(line) == Some(AnswerField);
    TextFieldRoundTrip(AnswerPrefix, v);
  }

  lemma ApplyExplanation(r: Quiz, v: string)
    requires IsStripped(v) && NoMatch(v, ExplanationPrefix)
    ensures ApplyLine(r, FieldLine(ExplanationPrefix, v)) == r.(explanation := v)
  {
    var line := FieldLine(ExplanationPrefix, v);
    FieldLineStarts(ExplanationPrefix, v);
    OtherPrefix(line, ExplanationPrefix, TypePrefix);
    OtherPrefix(line, ExplanationPrefix, QuestionPrefix);
    OtherPrefix(line, ExplanationPrefix, ChoicesPrefix);
    OtherPrefix(line, ExplanationPrefix, AnswerPrefix);
    assert Classify(line) == Some(ExplanationField);
    TextFieldRoundTrip(ExplanationPrefix, v);
  }

  /** A block is split back into its five lines. */
  lemma BlockLinesBack(q: Quiz)
    requires Renderable(q)
    ensures Lines(BlockText(q)) == BlockLines(q)
  {
    BlockStripped(q);
    StripStripped(BlockText(q));
    LinesSeparable(q);
    SplitJoin(BlockLines(q), LineSeparator);
  }

  lemma LinesSeparable(q: Quiz)
    requires Renderable(q)
    ensures forall k :: 0 <= k < 5 ==> SeparableBy(BlockLines(q)[k], LineSeparator)
  {
    var lines := BlockLines(q);
    ChoicesOneLine(q);
    forall k | 0 <= k < 5 ensures SeparableBy(lines[k], LineSeparator) {
      FirstCharAbsent(lines[k], LineSeparator);
    }
  }

  /** A block written by the renderer parses back to the record. */
  lemma BlockRoundTrip(q: Quiz)
    requires Renderable(q)
    ensures BlockQuiz(BlockText(q)) == q
  {
    var lines := BlockLines(q);
    BlockLinesBack(q);
    ApplyFive(Blank, lines);
    var r1 := ApplyLine(Blank, lines[0]);
    ApplyKind(Blank, q.kind);
    var r2 := ApplyLine(r1, lines[1]);
    ApplyQuestion(r1, q.question);
    var r3 := ApplyLine(r2, lines[2]);
    ApplyChoices(r2, q.choices);
    var r4 := ApplyLine(r3, lines[3]);
    ApplyAnswer(r3, q.answer);
    ApplyExplanation(r4, q.explanation);
  }

  lemma EmptyReply()
    ensures Parsed(ReplyText([])) == []
  {
    assert ReplyText([]) == "";
    assert Strip("") == "";
    assert Blocks("") == [""];
    assert Lines("") == [""];
    assert Classify("") == None;
    assert BlockQuiz("") == Blank;
    assert Map(BlockQuiz, [""]) == [Blank];
    KeepNone([Blank]);
  }

  /** A non-empty reply starts with its first block's first character and
      ends with its last block's last character, so it is stripped. */
  lemma ReplyStripped(qs: seq<Quiz>)
    requires qs != [] && forall q :: q in qs ==> Renderable(q)
    ensures IsStripped(ReplyText(qs))
  {
    var blocks := Map(BlockText, qs);
    var raw := ReplyText(qs);
    JoinStartsWith(blocks, BlockSeparator);
    JoinEndsWith(blocks, BlockSeparator);
    assert qs[0] in qs && qs[|qs| - 1] in qs;
    BlockStripped(qs[0]);
    BlockStripped(qs[|qs| - 1]);
    var first, last := blocks[0], blocks[|blocks| - 1];
    assert raw[0] == first[0];
    assert raw[|raw| - |last|..] == last;
    assert raw[|raw| - 1] == last[|last| - 1];
  }

  /** A non-empty reply splits back into its blocks. */
  lemma ReplyBlocks(qs: seq<Quiz>)
    requires qs != [] && forall q :: q in qs ==> Renderable(q)
    ensures Blocks(ReplyText(qs)) == Map(BlockText, qs)
  {
    var blocks := Map(BlockText, qs);
    forall k | 0 <= k < |blocks| ensures SeparableBy(blocks[k], BlockSeparator) {
      assert qs[k] in qs;
      BlockSeparable(qs[k]);
    }
    ReplyStripped(qs);
    StripStripped(ReplyText(qs));
    SplitJoin(blocks, BlockSeparator);
  }

  /** Parsing each rendered block gives back each record. */
  lemma BlocksRoundTrip(qs: seq<Quiz>)
    requires forall q :: q in qs ==> Renderable(q)
    ensures Map(BlockQuiz, Map(BlockText, qs)) == qs
  {
    forall k | 0 <= k < |qs| ensures BlockQuiz(BlockText(qs[k])) == qs[k] {
      assert qs[k] in qs;
      BlockRoundTrip(qs[k]);
    }
    MapInverse(BlockText, BlockQuiz, qs);
  }

  /** parse_quiz inverts the renderer: a reply written in the format it reads
      parses back to exactly the records it was written from, in order. */
  lemma ReplyRoundTrip(qs: seq<Quiz>)
    requires forall q :: q in qs ==> Renderable(q) && q.question != ""
    ensures Parsed(ReplyText(qs)) == qs
  {
    if qs == [] {
      EmptyReply();
    } else {
      ReplyBlocks(qs);
      BlocksRoundTrip(qs);
      KeepAll(qs);
    }
  }

  const SampleQuiz := Quiz("객관식", "1+1=?", ["1", "2", "3"], "2", "기본 연산")

  /** A one-question reply in the format parse_quiz reads, line by line. */
  const SampleReplyText := "[문제유형: 객관식]" + "\n" + "문제: 1+1=?" + "\n" + "선택지: 1;2;3"
    + "\n" + "정답: 2" + "\n" + "해설: 기본 연산"

  lemma SampleChoices()
    ensures Join(SampleQuiz.choices, ChoiceSeparator) == "1;2;3"
  {
    assert Join(["3"], ChoiceSeparator) == "3";
    assert Join(["2", "3"], ChoiceSeparator) == "2;3";
  }

  lemma SampleFieldsOneLine()
    ensures OneLine(SampleQuiz.kind) && OneLine(SampleQuiz.question)
    ensures OneLine(SampleQuiz.answer) && OneLine(SampleQuiz.explanation)
    ensures forall c :: c in SampleQuiz.choices ==> c != "" && OneLine(c) && ';' !in c
  {
  }

  lemma SampleRenderable()
    ensures Renderable(SampleQuiz)
  {
    var q := SampleQuiz;
    SampleFieldsOneLine();
    SampleChoices();
    FirstCharAbsent(q.question, QuestionPrefix);
    FirstCharAbsent("1;2;3", ChoicesPrefix);
    FirstCharAbsent(q.answer, AnswerPrefix);
    FirstCharAbsent(q.explanation, ExplanationPrefix);
  }

  lemma JoinFive(l: seq<string>)
    requires |l| == 5
    ensures Join(l, LineSeparator) == l[0] + "\n" + l[1] + "\n" + l[2] + "\n" + l[3] + "\n" + l[4]
  {
    assert l[4..] == [l[4]];
    assert Join(l[3..], LineSeparator) == l[3] + "\n" + l[4] by {
      assert l[3..][1..] == l[4..];
    }
    assert Join(l[2..], LineSeparator) == l[2] + "\n" + Join(l[3..], LineSeparator) by {
      assert l[2..][1..] == l[3..];
    }
    assert Join(l[1..], LineSeparator) == l[1] + "\n" + Join(l[2..], LineSeparator) by {
      assert l[1..][1..] == l[2..];
    }
  }

  lemma SampleLines()
    ensures BlockLines(SampleQuiz)
      == ["[문제유형: 객관식]", "문제: 1+1=?", "선택지: 1;2;3", "정답: 2", "해설: 기본 연산"]
  {
    SampleChoices();
    assert KindLine("객관식") == "[문제유형: 객관식]";
    assert FieldLine(QuestionPrefix, "1+1=?") == "문제: 1+1=?";
    assert FieldLine(ChoicesPrefix, "1;2;3") == "선택지: 1;2;3";
    assert FieldLine(AnswerPrefix, "2") == "정답: 2";
    assert FieldLine(ExplanationPrefix, "기본 연산") == "해설: 기본 연산";
  }

  lemma SampleBlock()
    ensures BlockText(SampleQuiz) == SampleReplyText
  {
    SampleLines();
    JoinFive(BlockLines(SampleQuiz));
  }

  lemma SampleText()
    ensures ReplyText([SampleQuiz]) == SampleReplyText
  {
    SampleBlock();
    assert Map(BlockText, [SampleQuiz]) == [BlockText(SampleQuiz)];
  }

  /** The one-question example reply parses to its one record. */
  lemma SampleReply()
    ensures Parsed(SampleReplyText)
      == [Quiz("객관식", "1+1=?", ["1", "2", "3"], "2", "기본 연산")]
  {
    SampleRenderable();
    SampleText();
    ReplyRoundTrip([SampleQuiz]);
  }
}
