/**
 * The `Kindle_notes` object: the book's title, author and chapters, which
 * `parse_file` fills in place block by block and `write_to_file` renders
 * as a Markdown outline.
 */
module KindleNotes {
  import opened Wrappers
  import opened PyStr
  import opened Notes
  import opened Builder
  import opened Outline

  class KindleNotes {
    var bookTitle: string
    var author: string
    var chapterNotes: seq<ChapterNotes>

    /** The object's fields as a value. */
    function Contents(): Book
      reads this
    {
      Book(bookTitle, author, chapterNotes)
    }

    /** Every chapter keys its notes by their own location, each key once. */
    ghost predicate Valid()
      reads this
    {
      ChaptersValid(chapterNotes)
    }

    constructor ()
      ensures Valid()
      ensures Contents() == Book("", "", [])
    {
      bookTitle := "";
      author := "";
      chapterNotes := [];
    }

    /**
     * Processes the class-tagged elements of the document in order, telling
     * them apart by their first class name. The pending note and the kind
     * of the last heading are local to one call; the fields are updated in
     * place, and the result is the specification's loop `Run` from the
     * object's current contents.
     */
    method ParseFile(divs: seq<Div>)
      requires Valid()
      modifies this
      ensures Valid()
      ensures Contents() == Run(Start(old(Contents())), Classify(divs)).book
    {
      ghost var s0 := Start(Contents());
      ghost var blocks := Classify(divs);
      var wip: Pending := NoNote;
      var lastNoteType := "";
      var i := 0;
      while i < |divs|
        invariant 0 <= i <= |divs|
        invariant Inv(State(Contents(), wip, lastNoteType))
        invariant State(Contents(), wip, lastNoteType) == Run(s0, blocks[..i])
      {
        var c := ClassOf(divs[i].className);
        wip, lastNoteType := ReadBlock(Block(c, divs[i].text), wip, lastNoteType);
        assert blocks[i] == Block(c, divs[i].text);
        assert blocks[..i + 1][..i] == blocks[..i];
        i := i + 1;
      }
      assert blocks[..|divs|] == blocks;
    }

    /** One block of the loop in `parse_file`, dispatched on its class. */
    method ReadBlock(b: Block, wip: Pending, lastNoteType: string)
      returns (wip': Pending, lastNoteType': string)
      requires Inv(State(Contents(), wip, lastNoteType))
      modifies this
      ensures State(Contents(), wip', lastNoteType') == Step(State(old(Contents()), wip, lastNoteType), b)
    {
      wip', lastNoteType' := wip, lastNoteType;
      match b.cls {
        case BookTitle =>
          bookTitle := Normalize(b.text);
        case Authors =>
          author := Normalize(b.text);
        case SectionHeading =>
          chapterNotes := chapterNotes + [ChapterNotes(Normalize(b.text), [])];
        case NoteHeading =>
          wip', lastNoteType' := ReadNoteHeading(b.text, wip, lastNoteType);
        case NoteText =>
          ReadNoteText(FirstLine(Normalize(b.text)), wip, lastNoteType);
        case OtherClass =>
      }
    }

    /**
     * A `noteHeading` block: on a parsable heading, remember its kind and
     * point at the note it opens, creating and inserting a fresh one unless
     * it is a "Note" following an earlier note of the last chapter.
     */
    method ReadNoteHeading(source: string, wip: Pending, lastNoteType: string)
      returns (wip': Pending, lastNoteType': string)
      requires Inv(State(Contents(), wip, lastNoteType))
      modifies this
      ensures State(Contents(), wip', lastNoteType')
              == OnNoteHeading(State(old(Contents()), wip, lastNoteType), source)
    {
      wip', lastNoteType' := wip, lastNoteType;
      var words := Split(source);
      if words == [] {
        return;
      }
      var parsed := ParseInt(words[|words| - 1]);
      if parsed.None? {
        return;
      }
      var location := parsed.value;
      lastNoteType' := words[0];
      var last: Option<nat> := None;
      if lastNoteType' == "Note" && chapterNotes != [] {
        last := GetLastNote(chapterNotes[|chapterNotes| - 1]);
      }
      if last.Some? {
        wip' := At(|chapterNotes| - 1, last.value);
      } else if chapterNotes == [] {
        wip' := Detached;
      } else {
        var c := |chapterNotes| - 1;
        var es := chapterNotes[c].entries;
        chapterNotes := chapterNotes[c := chapterNotes[c].(entries := Put(es, location, NewNote(source, location)))];
        wip' := At(c, Slot(es, location));
      }
    }

    /**
     * A `noteText` block: its first line becomes the text of the pending
     * note after a "Highlight" heading, its comment after a "Note" heading.
     */
    method ReadNoteText(text: string, wip: Pending, lastNoteType: string)
      requires Inv(State(Contents(), wip, lastNoteType))
      modifies this
      ensures State(Contents(), wip, lastNoteType)
              == OnNoteText(State(old(Contents()), wip, lastNoteType), text)
    {
      if (lastNoteType == "Highlight" || lastNoteType == "Note") && wip.At? {
        var c, i := wip.chapter, wip.index;
        var e := chapterNotes[c].entries[i];
        var n := if lastNoteType == "Note" then e.note.(note := text) else e.note.(text := text);
        chapterNotes := chapterNotes[c := chapterNotes[c].(entries := chapterNotes[c].entries[i := e.(note := n)])];
      }
    }

    /**
     * Builds the Markdown document line by line; `showLocation` is the
     * `--location` flag. Writing it to the output file is left out.
     */
    method WriteToFile(showLocation: bool) returns (md: string)
      ensures md == Render(Contents(), showLocation)
    {
      ghost var header := Header(Contents());
      md := "- Meta:\n";
      md := md + ("  - title: " + bookTitle + "\n");
      md := md + ("  - author: " + author + "\n");
      md := md + "  - tags: #Books\n";
      md := md + "- # Raw Highlights & Notes:\n";
      HeaderText(Contents());
      assert chapterNotes[..0] == [];
      assert header + ChaptersLines(chapterNotes[..0], showLocation) == header;
      var i := 0;
      while i < |chapterNotes|
        invariant 0 <= i <= |chapterNotes|
        invariant md == Text(header + ChaptersLines(chapterNotes[..i], showLocation))
      {
        var chapter := chapterNotes[i];
        ghost var done := header + ChaptersLines(chapterNotes[..i], showLocation);
        ghost var titled := done + [Line(1, "## " + chapter.title, ChapterTitle)];
        ChapterTitleLine(done, chapter.title);
        md := md + ("  - ## " + chapter.title + "\n");
        assert chapter.entries[..0] == [];
        assert titled + EntriesLines(chapter.entries[..0], showLocation) == titled;
        var j := 0;
        while j < |chapter.entries|
          invariant 0 <= j <= |chapter.entries|
          invariant md == Text(titled + EntriesLines(chapter.entries[..j], showLocation))
        {
          var note := chapter.entries[j].note;
          TextAddNote(titled + EntriesLines(chapter.entries[..j], showLocation), note, showLocation);
          md := md + ("    - " + note.text + "\n");
          if note.note != "" {
            md := md + ("      - **" + note.note + "**\n");
          }
          if showLocation {
            md := md + ("      - " + note.source + "\n");
          }
          EntriesStep(titled, chapter.entries, j, showLocation);
          j := j + 1;
        }
        ChaptersStep(header, chapterNotes, i, showLocation);
        assert chapter.entries[..|chapter.entries|] == chapter.entries;
        i := i + 1;
      }
      assert chapterNotes[..|chapterNotes|] == chapterNotes;
      assert Document(Contents(), showLocation) == header + ChaptersLines(chapterNotes, showLocation);
    }
  }

  // ---------------------------------------------------------------------
  // The string steps of `WriteToFile`, each as one appended line

  lemma TextSnoc(ls: seq<Line>, l: Line)
    ensures Text(ls + [l]) == Text(ls) + Format(l)
  {
    assert (ls + [l])[..|ls|] == ls;
  }

  lemma ChapterTitleLine(done: seq<Line>, title: string)
    ensures Text(done + [Line(1, "## " + title, ChapterTitle)]) == Text(done) + ("  - ## " + title + "\n")
  {
    TextSnoc(done, Line(1, "## " + title, ChapterTitle));
    assert Indent(1) == "  ";
    assert "  " + "- " + ("## " + title) == "  - ## " + title;
  }

  lemma TextLine(depth: nat, body: string, k: LineKind)
    requires depth == 2 || depth == 3
    ensures depth == 2 ==> Format(Line(depth, body, k)) == "    - " + body + "\n"
    ensures depth == 3 ==> Format(Line(depth, body, k)) == "      - " + body + "\n"
  {
    assert Indent(2) == "    ";
    assert Indent(3) == "      ";
  }

  lemma CommentLine(note: string)
    ensures Format(Line(3, "**" + note + "**", Comment)) == "      - **" + note + "**\n"
  {
    TextLine(3, "**" + note + "**", Comment);
    assert "      - " + ("**" + note + "**") == "      - **" + note + "**";
  }

  /** Appending a note's lines appends its text, then its comment if any, then its source if shown. */
  lemma TextAddNote(ls: seq<Line>, n: Note, show: bool)
    ensures var t1 := Text(ls) + ("    - " + n.text + "\n");
            var t2 := if n.note != "" then t1 + ("      - **" + n.note + "**\n") else t1;
            Text(ls + NoteLines(n, show)) == (if show then t2 + ("      - " + n.source + "\n") else t2)
  {
    var l1 := Line(2, n.text, Highlighted);
    var l2 := Line(3, "**" + n.note + "**", Comment);
    var l3 := Line(3, n.source, Source);
    var c := if n.note != "" then [l2] else [];
    var s := if show then [l3] else [];
    assert ls + NoteLines(n, show) == ls + [l1] + c + s;
    TextSnoc(ls, l1);
    TextLine(2, n.text, Highlighted);
    if n.note != "" {
      TextSnoc(ls + [l1], l2);
      CommentLine(n.note);
    } else {
      assert ls + [l1] + c == ls + [l1];
    }
    if show {
      TextSnoc(ls + [l1] + c, l3);
      TextLine(3, n.source, Source);
    } else {
      assert ls + [l1] + c + s == ls + [l1] + c;
    }
  }

  lemma EntriesStep(prefix: seq<Line>, es: seq<Entry>, j: nat, show: bool)
    requires j < |es|
    ensures prefix + EntriesLines(es[..j + 1], show)
            == prefix + EntriesLines(es[..j], show) + NoteLines(es[j].note, show)
  {
    assert es[..j + 1][..j] == es[..j];
  }

  lemma ChaptersStep(h: seq<Line>, chs: seq<ChapterNotes>, i: nat, show: bool)
    requires i < |chs|
    ensures h + ChaptersLines(chs[..i + 1], show)
            == h + ChaptersLines(chs[..i], show) + [Line(1, "## " + chs[i].title, ChapterTitle)]
               + EntriesLines(chs[i].entries, show)
  {
    assert chs[..i + 1][..i] == chs[..i];
  }
}
