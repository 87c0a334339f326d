/**
 * The block loop of `Kindle_notes.parse_file` as a state machine: one step
 * per class-tagged block, over the book and the loop's rolling state
 * (`wip_note` and `last_note_type`).
 */
module Builder {
  import opened Wrappers
  import opened PyStr
  import opened Notes

  /**
   * The first CSS class of a div, as far as the loop tells classes apart:
   * `bookTitle`, `authors`, `sectionHeading`, `noteHeading`, `noteText`, or
   * any other class, which the loop ignores.
   */
  datatype Class = BookTitle | Authors | SectionHeading | NoteHeading | NoteText | OtherClass

  /** The CSS class name to the class the loop sees: each handled class has exactly one name. */
  function ClassOf(name: string): (r: Class)
    ensures r == BookTitle <==> name == "bookTitle"
    ensures r == Authors <==> name == "authors"
    ensures r == SectionHeading <==> name == "sectionHeading"
    ensures r == NoteHeading <==> name == "noteHeading"
    ensures r == NoteText <==> name == "noteText"
  {
    if name == "bookTitle" then BookTitle
    else if name == "authors" then Authors
    else if name == "sectionHeading" then SectionHeading
    else if name == "noteHeading" then NoteHeading
    else if name == "noteText" then NoteText
    else OtherClass
  }

  /**
   * One element of `soup.select('[class]')`: its first CSS class name and
   * its text. For a `noteHeading` the text is `' '.join(div.stripped_strings)`;
   * for every other class it is `div.get_text()`.
   */
  datatype Div = Div(className: string, text: string)

  /** An element with its class name resolved to the class the loop sees. */
  datatype Block = Block(cls: Class, text: string)

  /** The blocks of the elements, in document order. */
  function Classify(divs: seq<Div>): seq<Block> {
    seq(|divs|, i requires 0 <= i < |divs| => Block(ClassOf(divs[i].className), divs[i].text))
  }

  /**
   * What `wip_note` refers to: nothing yet, a note that was never stored in
   * a chapter, or the note at position `index` of chapter `chapter`.
   */
  datatype Pending = NoNote | Detached | At(chapter: nat, index: nat)

  datatype State = State(book: Book, wip: Pending, lastNoteType: string)

  /** The state when the loop starts: `wip_note = None`, `last_note_type = ''`. */
  function Start(b: Book): State {
    State(b, NoNote, "")
  }

  /**
   * Every chapter dictionary is well formed; `wip_note` is None exactly
   * while no heading has been parsed; a stored pending note exists.
   */
  ghost predicate Inv(s: State) {
    ChaptersValid(s.book.chapters)
    && (s.wip.NoNote? <==> s.lastNoteType == "")
    && (s.wip.At? ==> s.wip.chapter < |s.book.chapters|
                      && s.wip.index < |s.book.chapters[s.wip.chapter].entries|)
  }

  /** One iteration of the block loop. */
  function Step(s: State, b: Block): (r: State)
    requires Inv(s)
    ensures Inv(r)
  {
    match b.cls
    case BookTitle => s.(book := s.book.(title := Normalize(b.text)))
    case Authors => s.(book := s.book.(author := Normalize(b.text)))
    case SectionHeading =>
      s.(book := s.book.(chapters := s.book.chapters + [ChapterNotes(Normalize(b.text), [])]))
    case NoteHeading => OnNoteHeading(s, b.text)
    case NoteText => OnNoteText(s, FirstLine(Normalize(b.text)))
    case OtherClass => s
  }

  /** A `noteHeading`: parse the location from the last word, the kind from the first. */
  function OnNoteHeading(s: State, source: string): (r: State)
    requires Inv(s)
    ensures Inv(r)
  {
    var words := Split(source);
    if words == [] then s
    else match ParseInt(words[|words| - 1])
      case None => s
      case Some(location) => OpenNote(s, words[0], source, location)
  }

  /**
   * A parsed heading of kind `kind`: a "Note" points at the last note of the
   * last chapter; any other kind, or a "Note" in an empty chapter, puts a
   * fresh note at `location` of the last chapter. With no chapter at all the
   * source raises IndexError after making the fresh note, which stays
   * unattached.
   */
  function OpenNote(s: State, kind: string, source: string, location: int): (r: State)
    requires Inv(s) && kind != ""
    ensures Inv(r)
  {
    var chs := s.book.chapters;
    if chs == [] then s.(wip := Detached, lastNoteType := kind)
    else
      var c := |chs| - 1;
      match (if kind == "Note" then GetLastNote(chs[c]) else None)
      case Some(i) => s.(wip := At(c, i), lastNoteType := kind)
      case None =>
        var es := chs[c].entries;
        var es' := Put(es, location, NewNote(source, location));
        var chs' := chs[c := chs[c].(entries := es')];
        assert ChaptersValid(chs') by {
          assert ChapterValid(chs'[c]);
        }
        s.(book := s.book.(chapters := chs'), wip := At(c, Slot(es, location)), lastNoteType := kind)
  }

  /** A `noteText`: route its first line by the kind of the last parsed heading. */
  function OnNoteText(s: State, text: string): (r: State)
    requires Inv(s)
    ensures Inv(r)
  {
    if s.lastNoteType == "Highlight" then WriteThrough(s, text, false)
    else if s.lastNoteType == "Note" then WriteThrough(s, text, true)
    else s
  }

  /**
   * `wip_note.text = text` (or `.note` when `toNote`), which changes the
   * stored note `wip_note` refers to. Once a heading has been parsed
   * `wip_note` is never None, so the source's AttributeError cannot occur.
   */
  function WriteThrough(s: State, text: string, toNote: bool): (r: State)
    requires Inv(s) && s.lastNoteType != ""
    ensures Inv(r)
  {
    match s.wip
    case Detached => s
    case At(c, i) =>
      var ch := s.book.chapters[c];
      var e := ch.entries[i];
      var n := if toNote then e.note.(note := text) else e.note.(text := text);
      var chs' := s.book.chapters[c := ch.(entries := ch.entries[i := e.(note := n)])];
      assert ChapterValid(chs'[c]);
      s.(book := s.book.(chapters := chs'))
  }

  /** The loop over `bs`, from state `s`. */
  function Run(s: State, bs: seq<Block>): (r: State)
    requires Inv(s)
    ensures Inv(r)
  {
    if bs == [] then s else Step(Run(s, bs[..|bs| - 1]), bs[|bs| - 1])
  }

  /** A fresh `Kindle_notes()` followed by `parse_file` over the elements. */
  function ParseBook(divs: seq<Div>): Book {
    Run(Start(Book("", "", [])), Classify(divs)).book
  }
}
