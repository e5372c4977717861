# Quiz generator core in Dafny

The program is a single-page quiz generator, `f.py`. A user pastes study text.
A language model is asked for two multiple-choice and two short-answer
questions in a fixed five-line block format. The reply is parsed into quiz
records. The user answers each quiz card, and wrong answers are collected into
a note list that can be retried on its own.

This project models the logic behind that page:

- **`Text`** (`text.dfy`): the Python string built-ins the code relies on,
  each with the properties the rest of the model needs.
  - `str.strip()` removes Python's full `str.isspace()` set at both ends.
  - `str.startswith(p)` tests the first `len(p)` characters.
  - `str.split(sep)` finds the separators left to right, without overlap.
  - `str.replace(pat, '')` removes every occurrence, not only the first.
- **`QuizParser`** (`quiz_parser.dfy`): `parse_quiz`. There is a functional
  specification (`Parsed`, built from `BlockQuiz`, `ApplyLine` and
  `KeepQuestions`) and the nested loop itself (`ParseQuiz`, `ParseBlock`),
  proved equal to that specification. The lemmas give the defaults, the
  last-line-wins rule, choice cleaning and the order of the output.
- **`QuizFormat`** (`quiz_format.dfy`): the block format `parse_quiz` reads,
  written as a renderer from records to reply text. The round-trip theorem
  states that a reply written in that format parses back to exactly the
  records it was written from. A one-question example reply is worked
  through.
  - This is not quite the format the generation prompt shows. The prompt
    labels the choice line `선택지(객관식만):` (f.py:80), and `parse_quiz`
    does not recognise that label (f.py:107), so a reply that copies it
    loses its choices (`QuizParser.PromptChoiceLabelIgnored`).
- **`Grading`** (`grading.dfy`): the stripped comparison that grades an answer,
  the wrong-answer note and the duplicate-free note list. It also holds the
  card's choice of answer widget, which fails for retried items (see
  Findings).
- **`Session`** (`session.dfy`): the per-session state (`quizzes`,
  `user_answers`, `checked`, `wrong_notes`, `wrong_only_mode`) as a class. Its
  methods are the three user actions: generate, retry wrong only, and check
  one answer.
  - `Valid()` keeps the per-quiz lists in step with the quiz list and the notes
    free of duplicates.
  - In retry mode, `Valid()` also keeps the quiz list equal to the notes. In the
    program the two names share one list object.

The language model call is a parameter, `reply: Option<string>`. `None` stands
for the call raising, or for a reply with no content, which makes
`raw.strip()` raise. Either way nothing is assigned. The page widgets are
parameters as well: the submission `user` and the card index `idx` of the
check button.

Two points where the program could be read otherwise; the model follows the
code:

- The type marker could be read as an enumeration (multiple choice or short
  answer). The code keeps the marker's raw text, and so does `Quiz.kind`.
- Retried items could be expected to come back as short-answer items. The
  code puts the note dictionaries themselves into the quiz list. They have no
  `type` key, so the card code raises `KeyError`; see Findings.

## Model

| member | source | states |
|---|---|---|
| Text.IsSpace | f.py:98 | the characters Python's `str.isspace()` accepts, which `strip()` removes (a definition, without a contract) |
| Text.StartsWith | f.py:103 | `line.startswith(p)`: the first `len(p)` characters are `p` (a definition, without a contract) |
| Text.Join | f.py:104 | `sep.join(parts)` (a definition, without a contract; `JoinSplit` and `SplitJoin` relate it to `Split`) |
| Text.RemoveAll | f.py:104-112 | `s.replace(pat, '')`: the pieces of `s.split(pat)` joined with nothing (a definition, without a contract; see the `RemoveAll*` lemmas) |
| Text.RemoveAllDropsChar | f.py:104 | `replace(']', '')` leaves no `]` at all |
| Text.RemoveAllShorter | f.py:104-112 | `replace(pat, '')` never makes a line longer |
| Text.StripExcludes | f.py:104 | `strip()` introduces no character that was not there |
| Text.Strip | f.py:98 | the result of `strip()` starts and ends with a non-whitespace character (or is empty) and is no longer than the input |
| Text.StripCore | f.py:98 | `strip()` of whitespace + stripped core + whitespace is exactly that core, which determines `strip()` completely |
| Text.StripSplits | f.py:98 | every string is its `strip()` with whitespace-only text on either side |
| Text.StripIgnoresOuterSpace | f.py:158 | whitespace added at either end never changes `strip()` |
| Text.StripEmptyIffAllSpace | f.py:119 | `s.strip()` is empty exactly when every character of `s` is whitespace |
| Text.StripStripped | f.py:100 | `strip()` leaves already-stripped text unchanged |
| Text.Split | f.py:98 | `split(sep)` always yields at least one piece |
| Text.JoinSplit | f.py:98 | joining the pieces of `split(sep)` with `sep` gives back the string |
| Text.SplitJoin | f.py:98 | splitting a join of pieces that contain no early separator gives back the pieces |
| Text.SplitNoMatch | f.py:100 | a string without the separator splits into itself alone |
| Text.RemoveAllLeading | f.py:106 | `replace(prefix, '')` on prefix + value gives the value when the value does not contain the prefix |
| Text.RemoveAllInterior | f.py:104 | a second occurrence of the pattern is removed as well, not only the leading one |
| Text.RemoveAllTrailing | f.py:104 | removing `]` from value + `]` gives the value |
| QuizParser.Classify | f.py:103-111 | the field named by the first of the five prefixes, tried in source order, that starts the line; none when no prefix does (a definition, without a contract) |
| QuizParser.KindValue | f.py:104 | the type text is stripped and contains no `]` |
| QuizParser.TextValue | f.py:106 | a text field's value is stripped and no longer than its line |
| QuizParser.ChoiceList | f.py:108 | every choice read from a choice line is non-empty and stripped |
| QuizParser.PromptChoiceLabelIgnored | f.py:80 | a line that starts with the prompt's label `선택지(객관식만):` names no field and leaves the record unchanged |
| QuizParser.NonBlankStripped | f.py:108 | each kept choice is non-empty and stripped; never more choices than pieces |
| QuizParser.NoChoicesIffAllBlank | f.py:108 | the choice list is empty exactly when every `;`-separated entry strips to empty |
| QuizParser.ApplyLine | f.py:102-112 | a line that starts with none of the five prefixes leaves the record unchanged |
| QuizParser.ApplyLineFrame | f.py:102-112 | a line changes no field other than the one its prefix names |
| QuizParser.ApplyLineSets | f.py:102-112 | the value a line gives its field depends on the line alone |
| QuizParser.FieldDefault | f.py:101-112 | a field that no line of the block names keeps its starting value (`''` or `[]`) |
| QuizParser.LastLineWins | f.py:102-112 | when several lines name a field, the field holds what the last of them gives |
| QuizParser.KeepQuestions | f.py:113-114 | no kept record has an empty question; never more records than blocks |
| QuizParser.KeepConcat | f.py:99-114 | keeping distributes over concatenation, so the output follows block order |
| QuizParser.KeepSingle | f.py:113-114 | one record is kept exactly when its question is non-empty |
| QuizParser.KeepFromInput | f.py:113-114 | every kept record is one of the block records |
| QuizParser.KeepNone | f.py:113-114 | with no question anywhere the result is empty |
| QuizParser.KeepAll | f.py:113-114 | records that all have a question are all kept |
| QuizParser.ApplyLinesClean | f.py:101-112 | applying lines never introduces a blank or padded choice |
| QuizParser.ParsedClean | f.py:96-115 | every parsed record has a question, and every one of its choices is non-empty and stripped |
| QuizParser.ParseBlock | f.py:100-112 | the inner loop over a block's lines computes the block's record `BlockQuiz` |
| QuizParser.ParseQuiz | f.py:96-115 | the outer loop returns `Parsed(raw)`, the records of the blocks with a question, in order |
| QuizParser.Map | f.py:99 | one result per block, each the function applied to that block |
| QuizFormat.TextFieldRoundTrip | f.py:105-112 | a field line `prefix value` reads back as the value |
| QuizFormat.KindRoundTrip | f.py:103-104 | the marker `[문제유형: kind]` reads back as `kind` |
| QuizFormat.ChoicesRoundTrip | f.py:107-108 | a choice line `선택지: a;b;c` reads back as `[a, b, c]` |
| QuizFormat.BlockLinesBack | f.py:100 | a rendered block is cut back into its five lines |
| QuizFormat.BlockRoundTrip | f.py:100-112 | parsing a rendered block gives back the record |
| QuizFormat.ReplyStripped | f.py:98 | a rendered reply has no surrounding whitespace |
| QuizFormat.ReplyBlocks | f.py:98 | a rendered reply is cut back into its blocks |
| QuizFormat.EmptyReply | f.py:96-115 | an empty reply parses to no records |
| QuizFormat.ReplyRoundTrip | f.py:96-115 | any list of records the format can carry parses back from its rendered reply unchanged |
| QuizFormat.SampleReply | f.py:96-115 | the one-question example reply parses to the single record (객관식, "1+1=?", [1, 2, 3], "2", "기본 연산") |
| Grading.AsGenerated | f.py:124 | the generated quiz list has one item per parsed record, in order |
| Grading.AsRetried | f.py:135 | the retried quiz list has one item per note, in order |
| Grading.IsCorrect | f.py:158 | `user.strip() == answer.strip()` (a definition, without a contract; the next four lemmas state what it means) |
| Grading.NoteOf | f.py:163-167 | the note built from an item: its question, answer and explanation (a definition, without a contract) |
| Grading.CorrectIffPadded | f.py:158 | a submission is correct exactly when it is the stripped answer with whitespace around it |
| Grading.GradeIgnoresOuterSpace | f.py:158 | whitespace typed around a submission never changes its grade |
| Grading.ExtraCharIsWrong | f.py:158 | the answer followed by a visible character is graded wrong |
| Grading.StrippedGrade | f.py:158 | between stripped texts, grading is plain equality |
| Grading.Record | f.py:163-169 | after recording, the note is in the list; the old list is a prefix; the list grows by at most one; it is unchanged exactly when the note was already there; no other note appears; no duplicates are introduced |
| Grading.RecordedOnce | f.py:168-169 | after recording, the note occurs exactly once |
| Grading.RecordIdempotent | f.py:168-169 | recording the same note twice equals recording it once |
| Grading.RetriedNoteKnown | f.py:163-168 | a retried item yields the very note it came from, so a wrong answer in retry mode adds nothing |
| Grading.CardWidgetAsWritten | f.py:149-152 | picking the widget fails exactly for a retried item (the missing `type` key) |
| Grading.RetriedCardsFail | f.py:135-149 | every card of the wrong-only retry fails to pick its widget |
| Grading.CardWidget | f.py:149-152 | choice buttons exactly for a multiple-choice record with choices, otherwise a text box; agrees with the code on generated records |
| Session.Repeat | f.py:125-126 | n copies of the value |
| Session.IsBlank | f.py:119 | the loop reports blank input exactly when every character is whitespace |
| Session.Session.constructor | f.py:62-71 | the session starts with empty lists and retry mode off, and is valid |
| Session.Session.Generate | f.py:119-130 | loads exactly when the input is not blank and the reply arrived; then the quizzes are the parsed records, answers `''`, flags false, notes empty, mode off; otherwise nothing changes |
| Session.Session.Load | f.py:124-128 | the five fields are replaced together, and the state is valid |
| Session.Session.RetryWrongOnly | f.py:133-138 | starts exactly when there are notes and retry mode is off; then the quizzes are the notes with fresh answers and flags, and the mode is on; the notes never change; otherwise nothing changes |
| Session.Session.CheckAnswer | f.py:154-169 | only slot `idx` of the flags (to true) and the answers (to the submission) change; the grade is `IsCorrect`; a correct answer keeps the notes; a wrong one records the item's note; in retry mode the notes never change; validity is kept |
| Session.Session.AddNote | f.py:163-169 | the notes become `Record(notes, note)`, nothing else changes |
| Session.Session.Widgets | f.py:144-152 | one widget per card, chosen by `CardWidget`; in retry mode every card gets a text box |
| Session.SampleSession | f.py:119-130 | a new session that generates from the one-question example reply holds exactly that quiz, no notes, and retry mode off |
| Session.Walkthrough | f.py:119-169 | generating from the one-question example reply, answering "3" to "1+1=?" is wrong, records the one note, and the retry offers that question again |

## Left out

- The page layout, CSS and display calls (f.py:7-39, 51-59, 118, 134, 139, 142-148, 153, 170-173, 185-192) are not modelled; the submission and the card index enter as parameters. The choice of answer widget at f.py:149-152 is modelled, by `Grading.CardWidgetAsWritten`, `Grading.CardWidget` and `Session.Session.Widgets`.
- `generate_quiz` (f.py:74-93) is not modelled: it is a network call to a hosted language model. Its reply, or its failure, is the `reply: Option<string>` parameter of `Generate`.
- Loading the API key and `.env` (f.py:41-49) is environment configuration.
- `save_pdf` and the download button (f.py:176-192) call a PDF library that is not part of this model.
- The image upload (f.py:56-59) is display only; nothing reads it.
- `st.experimental_rerun()` (f.py:139) only redraws the page. The model's state after `RetryWrongOnly` is the state the redraw shows.
- Session.Session.CheckAnswer: in retry mode the program never reaches the check button, because drawing the card already raises `KeyError` (see Findings). The model describes the check with the corrected widget, where it is reachable.
- Session.Session.RetryWrongOnly: the program makes `quizzes` the same list object as `wrong_notes`. The model keeps two fields tied by `Valid()` and proves that no later action appends to the notes while retry mode is on, which is the only case in which the aliasing would show.
- Session.Session.Generate: a reply that raises during parsing is not modelled separately. `parse_quiz` on a string cannot raise, so `None` covers every failure path.

## Findings

| source | as written | input that shows it | evidently intended | confidence | as-written member | corrected member |
|---|---|---|---|---|---|---|
| f.py:135-149 | the retry puts the note dictionaries into the quiz list, and the card code reads `quiz['type']`, a key notes do not have | one wrong answer, then "retry wrong only": every card raises `KeyError` while drawing | a retried note is answered in a text box | not executed | Grading.RetriedCardsFail | Session.Session.Widgets |
