/**
 * The two import endpoints, without the upload and file handling: a PDF's
 * page texts are cut into paragraphs, long paragraphs are sent to the model
 * for question extraction and the reply is turned into question records; an
 * Anki deck's notes are turned into vocabulary records.
 */
module ImportRoutes {
  import opened Wrappers
  import opened Seqs
  import opened Text
  import opened JsonValue
  import Gemini

  datatype ImportError =
    | NotPdf                      // the upload's name does not end in ".pdf"
    | NotAnkiPackage              // the upload's name does not end in ".apkg"
    | InvalidPackage              // the archive holds no `collection.anki2`
    | DuplicateWord(word: string) // two new notes share a word: the commit breaks the unique constraint
    | UnstorableField             // a question's text column holds a JSON list or object: the commit cannot bind it

  /* ---------- PDF ---------- */

  /** The paragraph separator used for chunking. */
  const Paragraph: string := "\n\n"

  /** Paragraphs whose stripped text is shorter than this are not sent to the model. */
  const MinChunkLength: nat := 50

  /** A question record as the PDF import creates it; its fields hold whatever the reply held, stored or not. */
  datatype Question = Question(
    questionText: Json,
    choices: Json,
    answer: Json,
    explanation: Json,
    source: string,
    difficulty: Json,
    tags: seq<Json>)

  datatype PdfReport = PdfReport(questions: seq<Question>, chunksProcessed: nat)

  /** The paragraphs of one page; a page without text (`None` or empty) gives none. */
  function PageChunks(page: Option<string>): (r: seq<string>)
    ensures page.None? || page.value == "" ==> r == []
    ensures page.Some? && page.value != "" ==> |r| >= 1 && Join(r, Paragraph) == page.value
    ensures forall c :: c in r ==> !Contains(c, Paragraph)
  {
    if page.Some? && page.value != "" then
      JoinSplit(page.value, Paragraph);
      Split(page.value, Paragraph)
    else []
  }

  /** The paragraphs of all pages, in page order. */
  function TextChunks(pages: seq<Option<string>>): (r: seq<string>)
    ensures forall c :: c in r ==> !Contains(c, Paragraph)
    ensures |r| >= |pages| - EmptyPages(pages)
    decreases |pages|
  {
    if |pages| == 0 then []
    else PageChunks(pages[0]) + TextChunks(pages[1..])
  }

  /** The number of pages without text. */
  function EmptyPages(pages: seq<Option<string>>): nat
    decreases |pages|
  {
    if |pages| == 0 then 0
    else (if pages[0].None? || pages[0].value == "" then 1 else 0) + EmptyPages(pages[1..])
  }

  /** Chunking is page by page: the chunks of two runs of pages are the two runs' chunks in order. */
  lemma {:induction false} TextChunksAppend(a: seq<Option<string>>, b: seq<Option<string>>)
    ensures TextChunks(a + b) == TextChunks(a) + TextChunks(b)
    decreases |a|
  {
    if |a| == 0 {
      assert a + b == b;
    } else {
      assert (a + b)[0] == a[0];
      assert (a + b)[1..] == a[1..] + b;
      TextChunksAppend(a[1..], b);
    }
  }

  /**
   * The reply normalised to a list: a list stays as it is, any other truthy
   * value becomes a one-element list, a falsy one an empty list.
   */
  function Normalize(j: Json): (r: seq<Json>)
    ensures j.Arr? ==> r == j.items
    ensures !j.Arr? ==> |r| <= 1 && (|r| == 1 <==> Truthy(j))
    ensures !j.Arr? && |r| == 1 ==> r[0] == j
  {
    if j.Arr? then j.items
    else if Truthy(j) then [j]
    else []
  }

  /**
   * The question an entry with a truthy `question_text` becomes: each field is
   * the entry's value when the key is present (even `null`), else its default.
   */
  function QuestionOf(entry: Json, filename: string): (q: Question)
    requires entry.Obj?
    ensures "question_text" in entry.fields ==> q.questionText == entry.fields["question_text"]
    ensures "question_text" !in entry.fields ==> q.questionText == Str("")
    ensures "choices" in entry.fields ==> q.choices == entry.fields["choices"]
    ensures "choices" !in entry.fields ==> q.choices == Null
    ensures "answer" in entry.fields ==> q.answer == entry.fields["answer"]
    ensures "answer" !in entry.fields ==> q.answer == Str("")
    ensures "explanation" in entry.fields ==> q.explanation == entry.fields["explanation"]
    ensures "explanation" !in entry.fields ==> q.explanation == Null
    ensures "difficulty" in entry.fields ==> q.difficulty == entry.fields["difficulty"]
    ensures "difficulty" !in entry.fields ==> q.difficulty == Str("unknown")
    ensures q.source == "PDF: " + filename
    ensures |q.tags| == 2 && q.tags[0] == Str("pdf_import")
    ensures "detected_type" in entry.fields ==> q.tags[1] == entry.fields["detected_type"]
    ensures "detected_type" !in entry.fields ==> q.tags[1] == Str("unknown")
  {
    Question(
      Get(entry, "question_text", Str("")),
      Get(entry, "choices", Null),
      Get(entry, "answer", Str("")),
      Get(entry, "explanation", Null),
      "PDF: " + filename,
      Get(entry, "difficulty", Str("unknown")),
      [Str("pdf_import"), Get(entry, "detected_type", Str("unknown"))])
  }

  predicate HasQuestionText(entry: Json)
  {
    entry.Obj? && Truthy(Get(entry, "question_text", Null))
  }

  /** What every question the PDF import creates looks like. */
  predicate WellShaped(q: Question, filename: string)
  {
    && Truthy(q.questionText)
    && |q.tags| == 2 && q.tags[0] == Str("pdf_import")
    && q.source == "PDF: " + filename
  }

  /**
   * The questions of one reply's entries: entries without a truthy
   * `question_text` are passed over; the first entry that is not an object
   * raises (it has no `.get`), which ends the chunk but keeps the questions
   * already made.
   */
  function EntryQuestions(entries: seq<Json>, filename: string): (r: seq<Question>)
    ensures |r| <= |entries|
    ensures forall q :: q in r ==> WellShaped(q, filename)
    decreases |entries|
  {
    if |entries| == 0 || !entries[0].Obj? then []
    else
      var rest := EntryQuestions(entries[1..], filename);
      if HasQuestionText(entries[0]) then [QuestionOf(entries[0], filename)] + rest else rest
  }

  /** Nothing after an entry that is not an object contributes. */
  lemma {:induction false} EntryQuestionsStopAtNonObject(a: seq<Json>, x: Json, b: seq<Json>, filename: string)
    requires !x.Obj?
    ensures EntryQuestions(a + [x] + b, filename) == EntryQuestions(a, filename)
    decreases |a|
  {
    if |a| == 0 {
      assert (a + [x] + b)[0] == x;
    } else {
      assert (a + [x] + b)[0] == a[0];
      assert (a + [x] + b)[1..] == a[1..] + [x] + b;
      EntryQuestionsStopAtNonObject(a[1..], x, b, filename);
    }
  }

  /** The number of entries with a truthy `question_text`. */
  function WithText(entries: seq<Json>): nat
    decreases |entries|
  {
    if |entries| == 0 then 0
    else (if HasQuestionText(entries[0]) then 1 else 0) + WithText(entries[1..])
  }

  /** When every entry is an object, exactly the entries with a truthy `question_text` become questions, in order. */
  lemma {:induction false} EntryQuestionsOfObjects(entries: seq<Json>, filename: string)
    requires forall i :: 0 <= i < |entries| ==> entries[i].Obj?
    ensures |EntryQuestions(entries, filename)| == WithText(entries)
    ensures forall i :: 0 <= i < |entries| && HasQuestionText(entries[i]) ==>
      QuestionOf(entries[i], filename) in EntryQuestions(entries, filename)
    decreases |entries|
  {
    if |entries| > 0 {
      EntryQuestionsOfObjects(entries[1..], filename);
      forall i | 0 <= i < |entries| && HasQuestionText(entries[i])
        ensures QuestionOf(entries[i], filename) in EntryQuestions(entries, filename)
      {
        if i > 0 {
          assert entries[i] == entries[1..][i - 1];
        }
      }
    }
  }

  /** The questions of entries that are all objects, one per entry, in order. */
  function QuestionsOf(entries: seq<Json>, filename: string): (r: seq<Question>)
    requires forall i :: 0 <= i < |entries| ==> entries[i].Obj?
    ensures |r| == |entries|
    ensures forall i :: 0 <= i < |r| ==> r[i] == QuestionOf(entries[i], filename)
  {
    seq(|entries|, i requires 0 <= i < |entries| => QuestionOf(entries[i], filename))
  }

  /**
   * When every entry is an object, the questions are exactly those of the
   * entries with a truthy `question_text`, in entry order.
   */
  lemma {:induction false} EntryQuestionsInOrder(entries: seq<Json>, filename: string)
    requires forall i :: 0 <= i < |entries| ==> entries[i].Obj?
    ensures var texted := Filter(HasQuestionText, entries);
      && (forall i :: 0 <= i < |texted| ==> texted[i].Obj?)
      && EntryQuestions(entries, filename) == QuestionsOf(texted, filename)
    decreases |entries|
  {
    TextedAreObjects(entries);
    if |entries| > 0 {
      EntryQuestionsInOrder(entries[1..], filename);
      var rest := Filter(HasQuestionText, entries[1..]);
      if HasQuestionText(entries[0]) {
        QuestionsOfCons(entries[0], rest, filename);
      }
    }
  }

  lemma TextedAreObjects(entries: seq<Json>)
    ensures var texted := Filter(HasQuestionText, entries);
      forall i :: 0 <= i < |texted| ==> texted[i].Obj?
  {
    var texted := Filter(HasQuestionText, entries);
    forall i | 0 <= i < |texted| ensures texted[i].Obj? {
      assert texted[i] in texted;
    }
  }

  lemma QuestionsOfCons(entry: Json, rest: seq<Json>, filename: string)
    requires entry.Obj?
    requires forall i :: 0 <= i < |rest| ==> rest[i].Obj?
    ensures forall i :: 0 <= i < |[entry] + rest| ==> ([entry] + rest)[i].Obj?
    ensures QuestionsOf([entry] + rest, filename) == [QuestionOf(entry, filename)] + QuestionsOf(rest, filename)
  {
    var l := QuestionsOf([entry] + rest, filename);
    var r := [QuestionOf(entry, filename)] + QuestionsOf(rest, filename);
    assert |l| == |r|;
    forall i | 0 <= i < |l| ensures l[i] == r[i] {
      if i > 0 {
        assert ([entry] + rest)[i] == rest[i - 1];
      }
    }
  }

  /** Entries that are all objects contribute their questions and let the following entries contribute theirs. */
  lemma {:induction false} EntryQuestionsAppend(a: seq<Json>, b: seq<Json>, filename: string)
    requires forall i :: 0 <= i < |a| ==> a[i].Obj?
    ensures EntryQuestions(a + b, filename) == EntryQuestions(a, filename) + EntryQuestions(b, filename)
    decreases |a|
  {
    if |a| == 0 {
      assert a + b == b;
    } else {
      assert (a + b)[0] == a[0];
      assert (a + b)[1..] == a[1..] + b;
      EntryQuestionsAppend(a[1..], b, filename);
    }
  }

  /** An entry whose `detected_type` is present but null keeps the null as its second tag. */
  lemma NullTypeIsKept(entry: Json, filename: string)
    requires entry.Obj? && "detected_type" in entry.fields && entry.fields["detected_type"] == Null
    ensures QuestionOf(entry, filename).tags == [Str("pdf_import"), Null]
  {
  }

  /**
   * One chunk: a chunk whose stripped length is under the minimum is skipped
   * without consulting the model; a failed extraction (a reply that does not
   * decode, or any other error) skips the chunk; otherwise the normalised
   * reply's entries become questions.
   */
  function ChunkQuestions(chunk: string, extract: string -> Result<Json, Gemini.ReplyError>, filename: string): (r: seq<Question>)
    ensures |Strip(chunk)| < MinChunkLength ==> r == []
    ensures extract(chunk).Failure? ==> r == []
    ensures |Strip(chunk)| >= MinChunkLength && extract(chunk).Success? ==>
      r == EntryQuestions(Normalize(extract(chunk).value), filename)
    ensures forall q :: q in r ==> WellShaped(q, filename)
  {
    if |Strip(chunk)| < MinChunkLength then []
    else
      match extract(chunk)
      case Failure(_) => []
      case Success(reply) => EntryQuestions(Normalize(reply), filename)
  }

  /** The questions of all chunks, in chunk order. */
  function AllQuestions(chunks: seq<string>, extract: string -> Result<Json, Gemini.ReplyError>, filename: string): (r: seq<Question>)
    ensures forall q :: q in r ==> WellShaped(q, filename)
    decreases |chunks|
  {
    if |chunks| == 0 then []
    else ChunkQuestions(chunks[0], extract, filename) + AllQuestions(chunks[1..], extract, filename)
  }

  /** The questions of two runs of chunks are the two runs' questions in order. */
  lemma {:induction false} AllQuestionsAppend(a: seq<string>, b: seq<string>, extract: string -> Result<Json, Gemini.ReplyError>, filename: string)
    ensures AllQuestions(a + b, extract, filename) == AllQuestions(a, extract, filename) + AllQuestions(b, extract, filename)
    decreases |a|
  {
    if |a| == 0 {
      assert a + b == b;
    } else {
      var x, rest := a[0], a[1..];
      ConsAppend(x, rest, b);
      assert a == [x] + rest;
      var c := ChunkQuestions(x, extract, filename);
      calc {
        AllQuestions(a + b, extract, filename);
        { AllQuestionsCons(x, rest + b, extract, filename); }
        c + AllQuestions(rest + b, extract, filename);
        { AllQuestionsAppend(rest, b, extract, filename); }
        c + (AllQuestions(rest, extract, filename) + AllQuestions(b, extract, filename));
        { AppendAssociates(c, AllQuestions(rest, extract, filename), AllQuestions(b, extract, filename)); }
        (c + AllQuestions(rest, extract, filename)) + AllQuestions(b, extract, filename);
        { AllQuestionsCons(x, rest, extract, filename); }
        AllQuestions(a, extract, filename) + AllQuestions(b, extract, filename);
      }
    }
  }

  /** The questions of a chunk followed by more chunks. */
  lemma AllQuestionsCons(x: string, rest: seq<string>, extract: string -> Result<Json, Gemini.ReplyError>, filename: string)
    ensures AllQuestions([x] + rest, extract, filename) == ChunkQuestions(x, extract, filename) + AllQuestions(rest, extract, filename)
  {
    assert ([x] + rest)[0] == x && ([x] + rest)[1..] == rest;
  }

  /** The questions of every chunk sit between those of the chunks before and after it. */
  lemma ChunkQuestionsInAll(chunks: seq<string>, extract: string -> Result<Json, Gemini.ReplyError>, filename: string, i: nat)
    requires i < |chunks|
    ensures AllQuestions(chunks, extract, filename) ==
      AllQuestions(chunks[..i], extract, filename) + ChunkQuestions(chunks[i], extract, filename) + AllQuestions(chunks[i + 1..], extract, filename)
  {
    var before, after := chunks[..i], chunks[i + 1..];
    assert chunks == before + ([chunks[i]] + after);
    AllQuestionsAppend(before, [chunks[i]] + after, extract, filename);
    AllQuestionsCons(chunks[i], after, extract, filename);
    AppendAssociates(AllQuestions(before, extract, filename), ChunkQuestions(chunks[i], extract, filename), AllQuestions(after, extract, filename));
  }

  /**
   * End to end: an object entry with a truthy `question_text`, in the reply to
   * a long chunk, preceded in that reply by objects only, becomes a question of
   * the import.
   */
  lemma ExtractedQuestionIsImported(chunks: seq<string>, extract: string -> Result<Json, Gemini.ReplyError>, filename: string, i: nat, k: nat)
    requires i < |chunks| && |Strip(chunks[i])| >= MinChunkLength && extract(chunks[i]).Success?
    requires var entries := Normalize(extract(chunks[i]).value);
      k < |entries| && (forall j :: 0 <= j <= k ==> entries[j].Obj?) && HasQuestionText(entries[k])
    ensures QuestionOf(Normalize(extract(chunks[i]).value)[k], filename) in AllQuestions(chunks, extract, filename)
  {
    var entries := Normalize(extract(chunks[i]).value);
    TextedEntryIsQuestion(entries, k, filename);
    assert QuestionOf(entries[k], filename) in ChunkQuestions(chunks[i], extract, filename);
    ChunkQuestionsInAll(chunks, extract, filename, i);
  }

  /** A texted object entry preceded only by objects gives its question. */
  lemma TextedEntryIsQuestion(entries: seq<Json>, k: nat, filename: string)
    requires k < |entries| && (forall j :: 0 <= j <= k ==> entries[j].Obj?) && HasQuestionText(entries[k])
    ensures QuestionOf(entries[k], filename) in EntryQuestions(entries, filename)
  {
    var a := entries[..k + 1];
    assert entries == a + entries[k + 1..];
    EntryQuestionsAppend(a, entries[k + 1..], filename);
    EntryQuestionsOfObjects(a, filename);
    assert a[k] == entries[k];
  }

  /** The model is consulted only on long chunks: extractors that agree there give the same questions. */
  lemma {:induction false} OnlyLongChunksAreSent(chunks: seq<string>, e1: string -> Result<Json, Gemini.ReplyError>, e2: string -> Result<Json, Gemini.ReplyError>, filename: string)
    requires forall i :: 0 <= i < |chunks| && |Strip(chunks[i])| >= MinChunkLength ==> e1(chunks[i]) == e2(chunks[i])
    ensures AllQuestions(chunks, e1, filename) == AllQuestions(chunks, e2, filename)
    decreases |chunks|
  {
    if |chunks| > 0 {
      OnlyLongChunksAreSent(chunks[1..], e1, e2, filename);
    }
  }

  /** Chunks that are all short give no questions, whatever the model would say. */
  lemma {:induction false} ShortChunksGiveNothing(chunks: seq<string>, extract: string -> Result<Json, Gemini.ReplyError>, filename: string)
    requires forall i :: 0 <= i < |chunks| ==> |Strip(chunks[i])| < MinChunkLength
    ensures AllQuestions(chunks, extract, filename) == []
    decreases |chunks|
  {
    if |chunks| > 0 {
      ShortChunksGiveNothing(chunks[1..], extract, filename);
    }
  }

  /**
   * `import_pdf` over the pages' extracted texts and an extractor standing in
   * for the model call: the name is checked first; every chunk is counted as
   * processed, skipped or not; all questions are committed at once, so one
   * question with a list or object in a `String` column fails the whole import.
   */
  function ImportPdf(filename: string, pages: seq<Option<string>>, extract: string -> Result<Json, Gemini.ReplyError>): (r: Result<PdfReport, ImportError>)
    ensures !HasSuffix(filename, ".pdf") ==> r == Failure(NotPdf)
    ensures HasSuffix(filename, ".pdf") ==>
      (r.Failure? <==> exists q :: q in AllQuestions(TextChunks(pages), extract, filename) && !Storable(q))
    ensures HasSuffix(filename, ".pdf") && r.Failure? ==> r.error == UnstorableField
    ensures r.Success? ==> r.value.chunksProcessed == |TextChunks(pages)|
    ensures r.Success? ==> r.value.questions == AllQuestions(TextChunks(pages), extract, filename)
    ensures r.Success? ==> forall q :: q in r.value.questions ==> WellShaped(q, filename) && Storable(q)
  {
    if !HasSuffix(filename, ".pdf") then Failure(NotPdf)
    else
      var chunks := TextChunks(pages);
      var questions := AllQuestions(chunks, extract, filename);
      if exists q :: q in questions && !Storable(q) then Failure(UnstorableField)
      else Success(PdfReport(questions, |chunks|))
  }

  /**
   * A reply entry whose `answer` is a list (two answers of a sentence-equivalence
   * item, say) fails the import of a chunk that yields it.
   */
  lemma ListAnswerFailsImport(filename: string, pages: seq<Option<string>>, extract: string -> Result<Json, Gemini.ReplyError>, i: nat, k: nat)
    requires HasSuffix(filename, ".pdf")
    requires var chunks := TextChunks(pages);
      i < |chunks| && |Strip(chunks[i])| >= MinChunkLength && extract(chunks[i]).Success?
    requires var entries := Normalize(extract(TextChunks(pages)[i]).value);
      && k < |entries| && (forall j :: 0 <= j <= k ==> entries[j].Obj?) && HasQuestionText(entries[k])
      && "answer" in entries[k].fields && entries[k].fields["answer"].Arr?
    ensures ImportPdf(filename, pages, extract) == Failure(UnstorableField)
  {
    var chunks := TextChunks(pages);
    var entry := Normalize(extract(chunks[i]).value)[k];
    ExtractedQuestionIsImported(chunks, extract, filename, i, k);
    assert !Storable(QuestionOf(entry, filename));
  }

  /** A value the driver can bind to a `String` column: anything but a JSON list or object. */
  predicate Bindable(j: Json)
  {
    !j.Arr? && !j.Obj?
  }

  /**
   * A question whose `String` columns (text, answer, explanation, difficulty)
   * all hold bindable values; choices and tags are JSON columns and take anything.
   */
  predicate Storable(q: Question)
  {
    Bindable(q.questionText) && Bindable(q.answer) && Bindable(q.explanation) && Bindable(q.difficulty)
  }

  /* ---------- Anki ---------- */

  /** Anki's field separator. */
  const FieldSeparator: string := "\U{1f}"

  /** The longest a short definition gets. */
  const PithyLength: nat := 100

  /** A row of the deck's `notes` table: the joined fields and the space-separated tags. */
  datatype Note = Note(fields: string, tags: string)

  /** A vocabulary record as the Anki import creates it. */
  datatype AnkiWord = AnkiWord(word: string, greDefinition: string, pithyDefinition: string, tags: seq<string>, source: string)

  /** The short definition: the definition cut to its first 100 characters. */
  function Pithy(definition: string): (p: string)
    ensures |p| <= PithyLength && |p| <= |definition|
    ensures p == definition[..|p|]
    ensures |definition| <= PithyLength <==> p == definition
    ensures |definition| > PithyLength ==> |p| == PithyLength
  {
    if |definition| > PithyLength then definition[..PithyLength] else definition
  }

  /** The record a note becomes, or nothing when it has fewer than two fields. */
  function WordOfNote(note: Note, filename: string): (r: Option<AnkiWord>)
    ensures r.None? <==> !Contains(note.fields, FieldSeparator)
    ensures r.Some? ==> r.value.tags == ["anki_import"] + SplitWhitespace(note.tags)
    ensures r.Some? ==> r.value.source == "Anki: " + filename
    ensures r.Some? ==> r.value.pithyDefinition == Pithy(r.value.greDefinition)
  {
    var fields := Split(note.fields, FieldSeparator);
    if |fields| >= 2 then
      var definition := Strip(fields[1]);
      Some(AnkiWord(Strip(fields[0]), definition, Pithy(definition), ["anki_import"] + SplitWhitespace(note.tags), "Anki: " + filename))
    else None
  }

  /**
   * The word and definition are the stripped first two fields: the word is the
   * text before the first separator, the definition the text after it up to
   * the next one.
   */
  lemma WordOfNoteFields(note: Note, filename: string)
    requires Contains(note.fields, FieldSeparator)
    ensures var i := IndexOf(note.fields, FieldSeparator).value;
      var w := WordOfNote(note, filename).value;
      && w.word == Strip(note.fields[..i])
      && w.greDefinition == Strip(Split(note.fields[i + 1..], FieldSeparator)[0])
      && !Contains(w.word, FieldSeparator) && !Contains(w.greDefinition, FieldSeparator)
  {
    var fields := Split(note.fields, FieldSeparator);
    var i := IndexOf(note.fields, FieldSeparator).value;
    SplitHead(note.fields, FieldSeparator);
    SplitSecond(note.fields, FieldSeparator);
    assert fields[0] == note.fields[..i];
    assert fields[1] == Split(note.fields[i + 1..], FieldSeparator)[0];
    var w := WordOfNote(note, filename).value;
    assert w.word == Strip(fields[0]) && w.greDefinition == Strip(fields[1]);
    StripKeepsAbsence(fields[0], FieldSeparator);
    StripKeepsAbsence(fields[1], FieldSeparator);
  }

  /** The tags keep every non-space character of the note's tag string, in order. */
  lemma WordOfNoteTags(note: Note, filename: string)
    requires Contains(note.fields, FieldSeparator)
    ensures var w := WordOfNote(note, filename).value;
      w.tags[0] == "anki_import" && Concat(w.tags[1..]) == RemoveSpaces(note.tags)
  {
    var w := WordOfNote(note, filename).value;
    assert w.tags[1..] == SplitWhitespace(note.tags);
    SplitWhitespaceKeepsText(note.tags);
  }

  /** The records made from the notes, in order, skipping short notes and words already stored. */
  function NewWords(notes: seq<Note>, existing: set<string>, filename: string): (r: seq<AnkiWord>)
    ensures |r| <= |notes|
    ensures forall w :: w in r ==> w.word !in existing && w.source == "Anki: " + filename
    decreases |notes|
  {
    if |notes| == 0 then []
    else
      var rest := NewWords(notes[1..], existing, filename);
      match WordOfNote(notes[0], filename)
      case None => rest
      case Some(w) => if w.word in existing then rest else [w] + rest
  }

  /** Every note with two fields whose word is not stored yet is imported. */
  lemma {:induction false} NewWordsComplete(notes: seq<Note>, existing: set<string>, filename: string, i: nat)
    requires i < |notes| && WordOfNote(notes[i], filename).Some?
    requires WordOfNote(notes[i], filename).value.word !in existing
    ensures WordOfNote(notes[i], filename).value in NewWords(notes, existing, filename)
    decreases |notes|
  {
    NewWordsStep(notes, existing, filename);
    if i > 0 {
      assert notes[i] == notes[1..][i - 1];
      NewWordsComplete(notes[1..], existing, filename, i - 1);
    }
  }

  /** One step of the import loop: the first note's record, if new, followed by the rest's records. */
  lemma NewWordsStep(notes: seq<Note>, existing: set<string>, filename: string)
    requires |notes| > 0
    ensures var w := WordOfNote(notes[0], filename);
      NewWords(notes, existing, filename) ==
        (if w.Some? && w.value.word !in existing then [w.value] else []) + NewWords(notes[1..], existing, filename)
  {
  }

  /** Every imported record comes from one of the notes. */
  lemma {:induction false} NewWordsSound(notes: seq<Note>, existing: set<string>, filename: string)
    ensures forall w :: w in NewWords(notes, existing, filename) ==>
      exists i :: 0 <= i < |notes| && WordOfNote(notes[i], filename) == Some(w)
    decreases |notes|
  {
    if |notes| > 0 {
      NewWordsSound(notes[1..], existing, filename);
      NewWordsStep(notes, existing, filename);
      var first := WordOfNote(notes[0], filename);
      var rest := NewWords(notes[1..], existing, filename);
      forall w | w in NewWords(notes, existing, filename)
        ensures exists i :: 0 <= i < |notes| && WordOfNote(notes[i], filename) == Some(w)
      {
        if w in rest {
          var i :| 0 <= i < |notes[1..]| && WordOfNote(notes[1..][i], filename) == Some(w);
          assert notes[i + 1] == notes[1..][i];
        } else {
          assert first == Some(w);
        }
      }
    }
  }

  /** Two records with the same word. */
  predicate HasDuplicateWord(ws: seq<AnkiWord>)
  {
    exists i, j :: 0 <= i < j < |ws| && ws[i].word == ws[j].word
  }

  /** The first word that occurs twice, if any. */
  function FirstDuplicate(ws: seq<AnkiWord>): (r: Option<string>)
    ensures r.Some? <==> HasDuplicateWord(ws)
    decreases |ws|
  {
    if |ws| == 0 then None
    else if exists j :: 1 <= j < |ws| && ws[j].word == ws[0].word then Some(ws[0].word)
    else
      var r := FirstDuplicate(ws[1..]);
      DuplicateInTail(ws);
      r
  }

  lemma DuplicateInTail(ws: seq<AnkiWord>)
    requires |ws| > 0 && !(exists j :: 1 <= j < |ws| && ws[j].word == ws[0].word)
    ensures HasDuplicateWord(ws) <==> HasDuplicateWord(ws[1..])
  {
    if HasDuplicateWord(ws) {
      var i, j :| 0 <= i < j < |ws| && ws[i].word == ws[j].word;
      assert ws[1..][i - 1] == ws[i] && ws[1..][j - 1] == ws[j];
    }
    if HasDuplicateWord(ws[1..]) {
      var i, j :| 0 <= i < j < |ws[1..]| && ws[1..][i].word == ws[1..][j].word;
      assert ws[i + 1] == ws[1..][i] && ws[j + 1] == ws[1..][j];
    }
  }

  /**
   * `import_anki` over the archive's notes and the words already stored: the
   * name is checked first, then the archive; the stored-word check does not see
   * words added earlier in the same deck, so a deck that repeats a new word
   * fails as a whole when its records are committed.
   */
  function ImportAnki(filename: string, hasCollection: bool, notes: seq<Note>, existing: set<string>): (r: Result<seq<AnkiWord>, ImportError>)
    ensures !HasSuffix(filename, ".apkg") ==> r == Failure(NotAnkiPackage)
    ensures HasSuffix(filename, ".apkg") && !hasCollection ==> r == Failure(InvalidPackage)
    ensures r.Success? ==> !HasDuplicateWord(r.value)
    ensures r.Success? ==> forall w :: w in r.value ==> w.word !in existing && |w.pithyDefinition| <= PithyLength
    ensures HasSuffix(filename, ".apkg") && hasCollection ==>
      (r.Success? <==> !HasDuplicateWord(NewWords(notes, existing, filename)))
    ensures HasSuffix(filename, ".apkg") && hasCollection && r.Success? ==> r.value == NewWords(notes, existing, filename)
  {
    if !HasSuffix(filename, ".apkg") then Failure(NotAnkiPackage)
    else if !hasCollection then Failure(InvalidPackage)
    else
      var ws := NewWords(notes, existing, filename);
      match FirstDuplicate(ws)
      case Some(w) => Failure(DuplicateWord(w))
      case None =>
        assert forall w :: w in ws ==> |w.pithyDefinition| <= PithyLength by {
          NewWordsSound(notes, existing, filename);
        }
        Success(ws)
  }
}
