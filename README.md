# kindle-notes-to-md in Dafny

A model of `kindle_notes_to_md.py`, which turns the HTML notebook that an
Amazon Kindle exports into a Markdown outline. The model has two parts.

**The annotation builder** is the loop of `Kindle_notes.parse_file`. It walks
the class-tagged blocks of the document in order:

- `bookTitle` and `authors` blocks set the book's title and author.
- Each `sectionHeading` block opens a new chapter.
- Each `noteHeading` block ("Highlight (yellow) - Location 180",
  "Note - Location 180") opens a note at a location of the last chapter.
- Each `noteText` block fills in the pending note: its highlighted text, or
  the reader's comment.

**The outline renderer** is the string building in `write_to_file`. The
`--location` flag decides whether each note's source line appears.

## Modules

- `Wrappers` holds `Option`.
- `PyStr` holds the Python string operations the loop relies on:
  - `str.strip` and `str.isspace`;
  - `replace(' \xa0', '')`;
  - `split('\n')[0]`;
  - `split()` and `' '.join`;
  - `int()` on a word.
- `Notes` holds the value entities:
  - `Note`;
  - `ChapterNotes`, a chapter whose `OrderedDict` is an association list in
    insertion order with unique keys, updated by `Put`;
  - `GetLastNote`, which is `get_last_note`;
  - `Book`.
- `Builder` specifies one block step (`Step`) and the whole loop (`Run`) as
  functions over a `State`. The state holds:
  - the book;
  - the pending note `wip_note`, a pointer (chapter index, entry index) into
    the book, so that writes through it change the stored note;
  - `last_note_type`.
- `BuilderLemmas` proves the builder's properties about `Step` and `Run`.
- `Outline` specifies the rendered document as a sequence of bullet lines
  and proves what the document lists.
- `KindleNotes` holds the class `KindleNotes`, with the fields `bookTitle`,
  `author` and `chapterNotes`:
  - `ParseFile` is the block loop, updating the fields in place. It is proved
    equal to `Run`.
  - `WriteToFile` builds the Markdown with the source's nested loops. It is
    proved equal to `Render`.

## Behaviour of the code worth knowing

The model follows the code as written. Some of what it does is easy to miss
when reading the program's comments and its sample output:

- Line 73 deletes every space followed by U+00A0, rather than collapsing the
  pair to a single space.
- Every `bookTitle` or `authors` block overwrites the field, so the last one
  wins.
- A heading whose first word is neither "Highlight" nor "Note" (for example
  "Bookmark") takes the `else` branch at line 125. It inserts a fresh note
  like a highlight, but a following `noteText` is routed nowhere.
- The pending note is not reset by a `sectionHeading`. A `noteText` that
  follows a new chapter before any heading writes into the previous chapter
  (`BuilderLemmas.TextAfterSectionWritesPreviousChapter`). So earlier chapters
  never gain or lose keys, but their notes can still change.
- A second "Highlight" heading at a location the chapter already holds
  replaces the stored note with a fresh one (lines 125-137). The old note's
  text and comment are lost, and the entry keeps its place in the chapter
  (`BuilderLemmas.HeadingPutsFreshNote`).
- A "Note" heading attaches to the entry inserted last in the last chapter,
  whatever its location. After a second "Highlight" at an earlier, existing
  location, that entry is not the one just re-highlighted.

## Model

| member | source | states |
|---|---|---|
| PyStr.Strip | kindle_notes_to_md.py:73 | the result is a slice of the input with only whitespace cut from either side, and neither end of the result is whitespace |
| PyStr.DeleteSpaceNbsp | kindle_notes_to_md.py:73 | the result is never longer than the input and uses only its characters; input without a space+U+00A0 pair is returned unchanged |
| PyStr.DeletePairAfter | kindle_notes_to_md.py:73 | a space+U+00A0 pair is deleted outright and the text before it is kept as is |
| PyStr.FirstLine | kindle_notes_to_md.py:146 | the result is a prefix of the input with no newline, and it ends exactly at the first newline or at the end of the input |
| PyStr.FirstLineOfLines | kindle_notes_to_md.py:146 | for any text without a newline followed by a newline and anything else, exactly that text is kept |
| PyStr.Normalize | kindle_notes_to_md.py:73 | the result is no longer than the input, neither starts nor ends with whitespace, and stripped text without a space+U+00A0 pair is kept unchanged |
| PyStr.Split | kindle_notes_to_md.py:107 | every word of the result is non-empty and free of whitespace |
| PyStr.SplitSkipsSpace | kindle_notes_to_md.py:107 | a leading whitespace character of any kind does not change the words |
| PyStr.SplitWordFirst | kindle_notes_to_md.py:107 | a maximal run of non-whitespace at the start is the first word, and splitting continues after it |
| PyStr.SplitSpaced | kindle_notes_to_md.py:106-107 | words separated by runs of whitespace of any kind and length, with optional whitespace around them (such as "Note -  Location 180"), split into exactly those words |
| PyStr.SplitJoin | kindle_notes_to_md.py:106-107 | splitting the space-joined words of a heading gives back exactly those words |
| PyStr.ParseInt | kindle_notes_to_md.py:107 | a word is read only if it is digits and underscores with an optional leading sign, so "Location" or "(yellow)" gives no number; a "-" sign gives a value of at most 0, otherwise the value is at least 0 |
| PyStr.ParseShowInt | kindle_notes_to_md.py:107 | `int()` reads back every integer from its decimal spelling, negative ones included |
| Notes.Put | kindle_notes_to_md.py:137 | OrderedDict assignment: keys stay unique; an existing key has its value replaced in place; a new key is appended at the end; no other entry changes |
| Notes.GetLastNote | kindle_notes_to_md.py:33-35 | a chapter has a last note exactly when it has entries, and that note is the most recently inserted one |
| Notes.LastNoteAfterPut | kindle_notes_to_md.py:33-35 | after inserting a new key, its note is the last note; after replacing an existing key, the last note is unchanged |
| Builder.ClassOf | kindle_notes_to_md.py:71-143 | the loop tells an element's class apart by its first class name; each of bookTitle, authors, sectionHeading, noteHeading and noteText is selected by exactly that name |
| Builder.Step | kindle_notes_to_md.py:68-153 | one block keeps the invariant: every note is stored under its own location, keys are unique, and the pending note points into the book once a heading has been parsed |
| Builder.OnNoteHeading | kindle_notes_to_md.py:103-140 | the noteHeading branch keeps the invariant |
| Builder.OpenNote | kindle_notes_to_md.py:111-137 | opening a note for a parsed heading keeps the invariant |
| Builder.OnNoteText | kindle_notes_to_md.py:143-153 | the noteText branch keeps the invariant |
| Builder.WriteThrough | kindle_notes_to_md.py:149-153 | writing through the pending note keeps the invariant |
| Builder.Run | kindle_notes_to_md.py:68-153 | the loop over all blocks keeps the invariant |
| BuilderLemmas.StepKeepsOtherMeta | kindle_notes_to_md.py:80-83 | a block of any other class leaves the title (or author) unchanged |
| BuilderLemmas.MetaKeptWithoutBlock | kindle_notes_to_md.py:80-83 | with no bookTitle (or authors) block, the title (or author) stays as it was |
| BuilderLemmas.LastMetaBlockWins | kindle_notes_to_md.py:80-83 | the title (or author) after the loop is the normalised text of the last bookTitle (or authors) block |
| BuilderLemmas.SectionHeadingAppendsChapter | kindle_notes_to_md.py:86-88 | a sectionHeading appends exactly one empty chapter titled with its normalised text and changes no earlier chapter |
| BuilderLemmas.StepTitles | kindle_notes_to_md.py:86-88 | a sectionHeading adds one chapter title at the end; any other block leaves the list of chapter titles as it was |
| BuilderLemmas.ChaptersFollowSections | kindle_notes_to_md.py:86-88 | after the loop, the chapter titles are the old ones followed by the sectionHeading texts in order, and the chapter count grows by the number of sectionHeading blocks |
| BuilderLemmas.ParseBookSummary | kindle_notes_to_md.py:37-88 | a fresh object after parsing has one chapter per sectionHeading element, titled in document order, and an empty title when no element is a bookTitle |
| BuilderLemmas.StepExtends | kindle_notes_to_md.py:119-137 | one block never removes a chapter or a key, and only the last chapter gains keys |
| BuilderLemmas.ChaptersOnlyGrow | kindle_notes_to_md.py:86-137 | over any further blocks, chapters keep their titles and keys; every chapter except the last one at the start gets no new key |
| BuilderLemmas.HeadingPutsFreshNote | kindle_notes_to_md.py:125-137 | a Highlight (or other non-Note) heading at L, or a Note in an empty chapter: the last chapter maps L to a fresh note with location L and the heading as source; other keys are unchanged; an existing key keeps its position; the pending note is that fresh note; nothing else changes |
| BuilderLemmas.HeadingAppendsFreshNote | kindle_notes_to_md.py:125-137 | for a new location, the whole next state: the fresh note appended to the last chapter, pending, with the heading's kind remembered |
| BuilderLemmas.NoteHeadingPointsAtLastNote | kindle_notes_to_md.py:117-122 | a Note heading after a chapter's entries adds no key and makes the last inserted entry pending, whatever its location |
| BuilderLemmas.HeadingWithoutChapterStoresNothing | kindle_notes_to_md.py:129-140 | with no chapter, a parsed heading stores nothing but remembers its kind; the fresh note stays unattached |
| BuilderLemmas.UnparsableHeadingChangesNothing | kindle_notes_to_md.py:104-111 | a heading with no words or a non-integer last word changes nothing, neither the pending note nor the kind |
| BuilderLemmas.OnNoteTextRouting | kindle_notes_to_md.py:149-153 | a noteText changes only the pending note: its text after Highlight, its comment after Note, nothing for any other kind |
| BuilderLemmas.NoteTextRouting | kindle_notes_to_md.py:143-153 | the same for a whole noteText block, whose first normalised line is what gets stored |
| BuilderLemmas.NoteTextWrites | kindle_notes_to_md.py:146-153 | the exact next state after a noteText when a note is pending |
| BuilderLemmas.HighlightWithText | kindle_notes_to_md.py:103-153 | a new Highlight and its text append one note holding that text |
| BuilderLemmas.NoteWithText | kindle_notes_to_md.py:117-153 | a Note heading and its text set the comment of the last note of the last chapter and change nothing else |
| BuilderLemmas.NoteTextOnLastNote | kindle_notes_to_md.py:149-153 | after a Note heading, a noteText sets the comment of the chapter's last note and nothing else |
| BuilderLemmas.HighlightThenNoteMerge | kindle_notes_to_md.py:103-153 | Highlight, text, Note (at any location), text: one note holding both texts is appended to the last chapter, and nothing else changes |
| BuilderLemmas.TextAfterSectionWritesPreviousChapter | kindle_notes_to_md.py:86-153 | the pending note outlives a sectionHeading: a following noteText fills the previous chapter's note, and the new chapter stays empty |
| BuilderLemmas.HighlightThenSection | kindle_notes_to_md.py:86-137 | after a new Highlight and a sectionHeading, the fresh note is still pending in the previous chapter and the new chapter is empty |
| Outline.Render | kindle_notes_to_md.py:161-187 | the written text opens with the Meta, title, author and tags lines and the "Raw Highlights & Notes" bullet, verbatim, followed by the chapters' text |
| Outline.Document | kindle_notes_to_md.py:161-187 | the outline starts with the five metadata lines, and every later line is nested at least one level under them and is never a fixed line |
| Outline.HeaderText | kindle_notes_to_md.py:161-167 | the five metadata lines as text, verbatim |
| Outline.NoteLinesSelect | kindle_notes_to_md.py:179-187 | a note renders its text line, a bold comment line exactly when the comment is non-empty, and a source line exactly when the flag is on |
| Outline.EntriesSelect | kindle_notes_to_md.py:175-187 | a chapter's notes render texts, comments and sources in insertion order, with no chapter heading |
| Outline.ChaptersSelect | kindle_notes_to_md.py:170-187 | the chapters render one "## title" line each in list order, then their notes |
| Outline.DocumentContents | kindle_notes_to_md.py:161-187 | the document lists the chapter headings in order, every note's text, every non-empty comment in bold, and the sources exactly when the flag is on |
| Outline.LocationFlagOnlyAddsSources | kindle_notes_to_md.py:185-187 | turning the location flag off removes exactly the source lines and nothing else |
| KindleNotes.KindleNotes.constructor | kindle_notes_to_md.py:40-45 | a new object has empty title, empty author and no chapters |
| KindleNotes.KindleNotes.ParseFile | kindle_notes_to_md.py:68-153 | the fields after the loop are the builder's result over all elements, classified by their first class name, starting from the current fields with no pending note |
| KindleNotes.KindleNotes.ReadBlock | kindle_notes_to_md.py:70-153 | one iteration of the loop body updates the fields, the pending note and the kind as the step function says |
| KindleNotes.KindleNotes.ReadNoteHeading | kindle_notes_to_md.py:103-140 | the noteHeading branch, in place, agrees with the step function |
| KindleNotes.KindleNotes.ReadNoteText | kindle_notes_to_md.py:143-153 | the noteText branch, in place, agrees with the step function |
| KindleNotes.KindleNotes.WriteToFile | kindle_notes_to_md.py:161-187 | the string built line by line is the rendered document for the current fields and flag |
| KindleNotes.TextAddNote | kindle_notes_to_md.py:178-187 | appending one note's lines appends its text line, then its comment line if any, then its source line if shown |
| KindleNotes.ChapterTitleLine | kindle_notes_to_md.py:172 | a chapter heading line reads "  - ## " followed by the title |

## Left out

- HTML parsing is left out: BeautifulSoup, `soup.select('[class]')`,
  `get_text()` and `stripped_strings`. The elements are taken as given
  (first class name, text) pairs. For a `noteHeading`, the text is its stripped strings
  joined by single spaces.
- The `AttributeError` fallback that sets a block's text to `None` is left
  out. Every block has text.
- Reading the input file and writing the output file are left out, and so
  are the INFO and WARN logging calls. A caught exception becomes "no
  change" wherever the source only warns.
- Command-line parsing, output-path defaulting and the `__main__` handler
  are not part of this model.
- `PyStr.ParseInt` reads ASCII digits only. Python's `int()` also accepts
  other Unicode decimal digits.
- Identity of the `Note` objects is not modelled. The aliased `wip_note` is
  a (chapter, entry) pointer, which is exact because entries are never
  removed or reordered.
- `Note` and `Chapter_notes` are values held by the `KindleNotes` class, not
  objects of their own. An orphan note, created when there is no chapter,
  is not stored anywhere; its later writes are lost, as they are in the
  source.
- `Builder.Step`, `Builder.Run`, `Builder.OnNoteHeading`, `Builder.OpenNote`,
  `Builder.OnNoteText` and `Builder.WriteThrough` state only the invariant
  in their own contracts. What they compute is stated by the
  `BuilderLemmas` lemmas and by the `KindleNotes` methods proved equal to
  them.
