/**
 * The Markdown outline `write_to_file` produces: a bullet list whose first
 * five lines carry the book's metadata, then one level-1 bullet per chapter
 * and, under it, one level-2 bullet per note (its highlighted text) with the
 * note's own comment in bold and, when asked for, its source line as
 * level-3 bullets.
 */
module Outline {
  import opened Notes

  /** What a line of the outline shows. */
  datatype LineKind = Fixed | ChapterTitle | Highlighted | Comment | Source

  /** One bullet: its nesting depth, its text after "- ", and what it shows. */
  datatype Line = Line(depth: nat, body: string, kind: LineKind)

  /** Two spaces per level of nesting. */
  function Indent(depth: nat): (r: string)
    ensures |r| == 2 * depth
    ensures forall i :: 0 <= i < |r| ==> r[i] == ' '
  {
    if depth == 0 then "" else "  " + Indent(depth - 1)
  }

  /** The text of one bullet line, newline included. */
  function Format(l: Line): string {
    Indent(l.depth) + "- " + l.body + "\n"
  }

  /** The lines one after another. */
  function Text(ls: seq<Line>): string {
    if ls == [] then "" else Text(ls[..|ls| - 1]) + Format(ls[|ls| - 1])
  }

  /** The metadata block that opens every document. */
  function Header(b: Book): seq<Line> {
    [ Line(0, "Meta:", Fixed),
      Line(1, "title: " + b.title, Fixed),
      Line(1, "author: " + b.author, Fixed),
      Line(1, "tags: #Books", Fixed),
      Line(0, "# Raw Highlights & Notes:", Fixed) ]
  }

  /** The lines of one note: its text, its comment if it has one, its source if `show`. */
  function NoteLines(n: Note, show: bool): seq<Line> {
    [Line(2, n.text, Highlighted)]
    + (if n.note != "" then [Line(3, "**" + n.note + "**", Comment)] else [])
    + (if show then [Line(3, n.source, Source)] else [])
  }

  /** The lines of a chapter's notes, in insertion order. */
  function EntriesLines(es: seq<Entry>, show: bool): seq<Line> {
    if es == [] then []
    else EntriesLines(es[..|es| - 1], show) + NoteLines(es[|es| - 1].note, show)
  }

  /** A chapter: its title as a level-1 heading bullet, then its notes. */
  function ChapterLines(c: ChapterNotes, show: bool): seq<Line> {
    [Line(1, "## " + c.title, ChapterTitle)] + EntriesLines(c.entries, show)
  }

  function ChaptersLines(chs: seq<ChapterNotes>, show: bool): seq<Line> {
    if chs == [] then []
    else ChaptersLines(chs[..|chs| - 1], show) + ChapterLines(chs[|chs| - 1], show)
  }

  /**
   * The whole outline; `show` is the `--location` flag. The five metadata
   * lines are the only top-level and only fixed lines: everything after
   * them is nested under "# Raw Highlights & Notes:".
   */
  function Document(b: Book, show: bool): (d: seq<Line>)
    ensures |d| >= 5 && d[..5] == Header(b)
    ensures forall i :: 5 <= i < |d| ==> d[i].depth >= 1 && d[i].kind != Fixed
  {
    var body := ChaptersLines(b.chapters, show);
    ChaptersLinesNested(b.chapters, show);
    var d := Header(b) + body;
    assert forall i :: 5 <= i < |d| ==> d[i] == body[i - 5];
    d
  }

  /**
   * The Markdown text written to the output file: the metadata bullets
   * verbatim, then the chapters' text.
   */
  function Render(b: Book, show: bool): (r: string)
    ensures r == "- Meta:\n" + ("  - title: " + b.title + "\n") + ("  - author: " + b.author + "\n")
                 + "  - tags: #Books\n" + "- # Raw Highlights & Notes:\n"
                 + Text(ChaptersLines(b.chapters, show))
  {
    TextAppend(Header(b), ChaptersLines(b.chapters, show));
    HeaderText(b);
    Text(Document(b, show))
  }

  /** Every line is nested at least one level and is not a fixed line. */
  predicate Nested(ls: seq<Line>) {
    forall i :: 0 <= i < |ls| ==> ls[i].depth >= 1 && ls[i].kind != Fixed
  }

  lemma NestedAppend(xs: seq<Line>, ys: seq<Line>)
    requires Nested(xs) && Nested(ys)
    ensures Nested(xs + ys)
  {
    assert forall i :: |xs| <= i < |xs + ys| ==> (xs + ys)[i] == ys[i - |xs|];
  }

  lemma {:induction false} EntriesLinesNested(es: seq<Entry>, show: bool)
    ensures Nested(EntriesLines(es, show))
  {
    if es != [] {
      EntriesLinesNested(es[..|es| - 1], show);
      NestedAppend(EntriesLines(es[..|es| - 1], show), NoteLines(es[|es| - 1].note, show));
    }
  }

  lemma {:induction false} ChaptersLinesNested(chs: seq<ChapterNotes>, show: bool)
    ensures Nested(ChaptersLines(chs, show))
  {
    if chs != [] {
      var c := chs[|chs| - 1];
      EntriesLinesNested(c.entries, show);
      NestedAppend([Line(1, "## " + c.title, ChapterTitle)], EntriesLines(c.entries, show));
      ChaptersLinesNested(chs[..|chs| - 1], show);
      NestedAppend(ChaptersLines(chs[..|chs| - 1], show), ChapterLines(c, show));
    }
  }

  // ---------------------------------------------------------------------
  // Reference views of the outline

  /** The lines with the source bullets removed. */
  function DropSources(ls: seq<Line>): (r: seq<Line>)
    ensures |r| <= |ls|
  {
    if ls == [] then []
    else DropSources(ls[..|ls| - 1]) + (if ls[|ls| - 1].kind == Source then [] else [ls[|ls| - 1]])
  }

  /** The bodies of the lines of kind `k`, in order. */
  function Select(ls: seq<Line>, k: LineKind): seq<string> {
    if ls == [] then []
    else Select(ls[..|ls| - 1], k) + (if ls[|ls| - 1].kind == k then [ls[|ls| - 1].body] else [])
  }

  /** The chapter titles as they appear in the document. */
  function TitleBodies(chs: seq<ChapterNotes>): (r: seq<string>)
    ensures |r| == |chs|
  {
    if chs == [] then [] else TitleBodies(chs[..|chs| - 1]) + ["## " + chs[|chs| - 1].title]
  }

  /** A field of every note of every chapter, chapter by chapter, in insertion order. */
  function NoteTexts(es: seq<Entry>): seq<string> {
    if es == [] then [] else NoteTexts(es[..|es| - 1]) + [es[|es| - 1].note.text]
  }

  function AllTexts(chs: seq<ChapterNotes>): seq<string> {
    if chs == [] then [] else AllTexts(chs[..|chs| - 1]) + NoteTexts(chs[|chs| - 1].entries)
  }

  function NoteSources(es: seq<Entry>): seq<string> {
    if es == [] then [] else NoteSources(es[..|es| - 1]) + [es[|es| - 1].note.source]
  }

  function AllSources(chs: seq<ChapterNotes>): seq<string> {
    if chs == [] then [] else AllSources(chs[..|chs| - 1]) + NoteSources(chs[|chs| - 1].entries)
  }

  /** The comments that are not empty, in bold. */
  function NoteComments(es: seq<Entry>): seq<string> {
    if es == [] then []
    else
      var n := es[|es| - 1].note;
      NoteComments(es[..|es| - 1]) + (if n.note != "" then ["**" + n.note + "**"] else [])
  }

  function AllComments(chs: seq<ChapterNotes>): seq<string> {
    if chs == [] then [] else AllComments(chs[..|chs| - 1]) + NoteComments(chs[|chs| - 1].entries)
  }

  // ---------------------------------------------------------------------
  // Lemmas

  lemma {:induction false} TextAppend(xs: seq<Line>, ys: seq<Line>)
    ensures Text(xs + ys) == Text(xs) + Text(ys)
    decreases |ys|
  {
    if ys == [] {
      assert xs + ys == xs;
    } else {
      var zs := ys[..|ys| - 1];
      var y := ys[|ys| - 1];
      assert ys == zs + [y];
      assert xs + ys == (xs + zs) + [y];
      assert (xs + ys)[..|xs + ys| - 1] == xs + zs;
      TextAppend(xs, zs);
    }
  }

  lemma TextOne(l: Line)
    ensures Text([l]) == Format(l)
  {
    assert [l][..0] == [];
  }

  lemma {:induction false} DropSourcesAppend(xs: seq<Line>, ys: seq<Line>)
    ensures DropSources(xs + ys) == DropSources(xs) + DropSources(ys)
    decreases |ys|
  {
    if ys == [] {
      assert xs + ys == xs;
    } else {
      var zs := ys[..|ys| - 1];
      assert ys == zs + [ys[|ys| - 1]];
      assert (xs + ys)[..|xs + ys| - 1] == xs + zs;
      DropSourcesAppend(xs, zs);
    }
  }

  lemma {:induction false} SelectAppend(xs: seq<Line>, ys: seq<Line>, k: LineKind)
    ensures Select(xs + ys, k) == Select(xs, k) + Select(ys, k)
    decreases |ys|
  {
    if ys == [] {
      assert xs + ys == xs;
    } else {
      var zs := ys[..|ys| - 1];
      assert ys == zs + [ys[|ys| - 1]];
      assert (xs + ys)[..|xs + ys| - 1] == xs + zs;
      SelectAppend(xs, zs, k);
    }
  }

  lemma SelectOne(l: Line, k: LineKind)
    ensures Select([l], k) == if l.kind == k then [l.body] else []
  {
    assert [l][..0] == [];
  }

  /** Selecting from zero or one line. */
  lemma SelectOptional(ls: seq<Line>, k: LineKind)
    requires |ls| <= 1
    ensures Select(ls, k) == if ls != [] && ls[0].kind == k then [ls[0].body] else []
  {
    if ls != [] {
      assert ls == [ls[0]];
      SelectOne(ls[0], k);
    }
  }

  /** Lines of kind `Fixed` survive dropping the sources. */
  lemma {:induction false} FixedLinesKept(ls: seq<Line>)
    requires forall i :: 0 <= i < |ls| ==> ls[i].kind == Fixed
    ensures DropSources(ls) == ls
    decreases |ls|
  {
    if ls != [] {
      FixedLinesKept(ls[..|ls| - 1]);
      assert ls[..|ls| - 1] + [ls[|ls| - 1]] == ls;
    }
  }

  /** Lines of kind `Fixed` hold no line of another kind. */
  lemma {:induction false} FixedLinesSelect(ls: seq<Line>, k: LineKind)
    requires forall i :: 0 <= i < |ls| ==> ls[i].kind == Fixed
    requires k != Fixed
    ensures Select(ls, k) == []
    decreases |ls|
  {
    if ls != [] {
      FixedLinesSelect(ls[..|ls| - 1], k);
    }
  }

  /** The rendered document opens with the metadata block, verbatim. */
  lemma TextFive(l0: Line, l1: Line, l2: Line, l3: Line, l4: Line)
    ensures Text([l0, l1, l2, l3, l4]) == Format(l0) + Format(l1) + Format(l2) + Format(l3) + Format(l4)
  {
    assert [l0, l1, l2, l3, l4] == [l0] + [l1] + [l2] + [l3] + [l4];
    TextAppend([l0] + [l1] + [l2] + [l3], [l4]);
    TextAppend([l0] + [l1] + [l2], [l3]);
    TextAppend([l0] + [l1], [l2]);
    TextAppend([l0], [l1]);
    TextOne(l0); TextOne(l1); TextOne(l2); TextOne(l3); TextOne(l4);
  }

  lemma TitleLine(t: string)
    ensures Format(Line(1, "title: " + t, Fixed)) == "  - title: " + t + "\n"
  {
    assert Indent(1) == "  ";
    assert "  " + "- " + ("title: " + t) == "  - title: " + t;
  }

  lemma AuthorLine(a: string)
    ensures Format(Line(1, "author: " + a, Fixed)) == "  - author: " + a + "\n"
  {
    assert Indent(1) == "  ";
    assert "  " + "- " + ("author: " + a) == "  - author: " + a;
  }

  lemma MetaLine()
    ensures Format(Line(0, "Meta:", Fixed)) == "- Meta:\n"
  {
  }

  lemma TagsLine()
    ensures Format(Line(1, "tags: #Books", Fixed)) == "  - tags: #Books\n"
  {
    assert Indent(1) == "  ";
  }

  lemma HighlightsLine()
    ensures Format(Line(0, "# Raw Highlights & Notes:", Fixed)) == "- # Raw Highlights & Notes:\n"
  {
  }

  lemma HeaderText(b: Book)
    ensures Text(Header(b)) == "- Meta:\n" + ("  - title: " + b.title + "\n") + ("  - author: " + b.author + "\n")
                               + "  - tags: #Books\n" + "- # Raw Highlights & Notes:\n"
  {
    TextFive(Line(0, "Meta:", Fixed), Line(1, "title: " + b.title, Fixed), Line(1, "author: " + b.author, Fixed),
             Line(1, "tags: #Books", Fixed), Line(0, "# Raw Highlights & Notes:", Fixed));
    TitleLine(b.title);
    AuthorLine(b.author);
    MetaLine();
    TagsLine();
    HighlightsLine();
  }

  /** Per note: turning the location flag off removes exactly the source bullet. */
  lemma NoteLinesDropSources(n: Note)
    ensures NoteLines(n, false) == DropSources(NoteLines(n, true))
  {
    var t := [Line(2, n.text, Highlighted)];
    var c := if n.note != "" then [Line(3, "**" + n.note + "**", Comment)] else [];
    var s := [Line(3, n.source, Source)];
    DropSourcesAppend(t + c, s);
    DropSourcesAppend(t, c);
    assert DropSources(t) == t by { assert t[..0] == []; }
    assert DropSources(s) == [] by { assert s[..0] == []; }
    if c != [] {
      assert DropSources(c) == c by { assert c[..0] == []; }
    }
    assert NoteLines(n, false) == t + c + [];
  }

  lemma {:induction false} EntriesLinesDropSources(es: seq<Entry>)
    ensures EntriesLines(es, false) == DropSources(EntriesLines(es, true))
    decreases |es|
  {
    if es != [] {
      EntriesLinesDropSources(es[..|es| - 1]);
      NoteLinesDropSources(es[|es| - 1].note);
      DropSourcesAppend(EntriesLines(es[..|es| - 1], true), NoteLines(es[|es| - 1].note, true));
    }
  }

  lemma {:induction false} ChaptersLinesDropSources(chs: seq<ChapterNotes>)
    ensures ChaptersLines(chs, false) == DropSources(ChaptersLines(chs, true))
    decreases |chs|
  {
    if chs != [] {
      var c := chs[|chs| - 1];
      var head := [Line(1, "## " + c.title, ChapterTitle)];
      ChaptersLinesDropSources(chs[..|chs| - 1]);
      EntriesLinesDropSources(c.entries);
      DropSourcesAppend(head, EntriesLines(c.entries, true));
      assert DropSources(head) == head by { assert head[..0] == []; }
      DropSourcesAppend(ChaptersLines(chs[..|chs| - 1], true), ChapterLines(c, true));
    }
  }

  /**
   * The `--location` flag only adds the source bullets: the document without
   * it is the document with it, minus every source line.
   */
  lemma LocationFlagOnlyAddsSources(b: Book)
    ensures Document(b, false) == DropSources(Document(b, true))
    ensures Render(b, false) == Text(DropSources(Document(b, true)))
  {
    var h := Header(b);
    ChaptersLinesDropSources(b.chapters);
    DropSourcesAppend(h, ChaptersLines(b.chapters, true));
    FixedLinesKept(h);
  }

  /** Per note: what each kind of line of its bullets holds. */
  lemma NoteLinesSelect(n: Note, show: bool, k: LineKind)
    ensures Select(NoteLines(n, show), k)
            == (if k == Highlighted then [n.text] else [])
               + (if k == Comment && n.note != "" then ["**" + n.note + "**"] else [])
               + (if k == Source && show then [n.source] else [])
  {
    var t := [Line(2, n.text, Highlighted)];
    var c := if n.note != "" then [Line(3, "**" + n.note + "**", Comment)] else [];
    var src := if show then [Line(3, n.source, Source)] else [];
    SelectAppend(t + c, src, k);
    SelectAppend(t, c, k);
    SelectOne(t[0], k);
    assert t == [t[0]];
    SelectOptional(c, k);
    SelectOptional(src, k);
  }

  /** The bodies a chapter's notes contribute to lines of kind `k`. */
  function EntriesView(es: seq<Entry>, show: bool, k: LineKind): seq<string> {
    match k
    case Highlighted => NoteTexts(es)
    case Comment => NoteComments(es)
    case Source => if show then NoteSources(es) else []
    case _ => []
  }

  /** The bodies the chapters contribute to lines of kind `k`. */
  function ChaptersView(chs: seq<ChapterNotes>, show: bool, k: LineKind): seq<string> {
    match k
    case ChapterTitle => TitleBodies(chs)
    case Highlighted => AllTexts(chs)
    case Comment => AllComments(chs)
    case Source => if show then AllSources(chs) else []
    case Fixed => []
  }

  lemma {:induction false} EntriesSelect(es: seq<Entry>, show: bool, k: LineKind)
    ensures Select(EntriesLines(es, show), k) == EntriesView(es, show, k)
    decreases |es|
  {
    if es != [] {
      var init := es[..|es| - 1];
      var n := es[|es| - 1].note;
      EntriesSelect(init, show, k);
      SelectAppend(EntriesLines(init, show), NoteLines(n, show), k);
      NoteLinesSelect(n, show, k);
    }
  }

  /** What one chapter contributes to the lines of kind `k`. */
  function ChapterView(c: ChapterNotes, show: bool, k: LineKind): seq<string> {
    (if k == ChapterTitle then ["## " + c.title] else []) + EntriesView(c.entries, show, k)
  }

  lemma ChapterLinesSelect(c: ChapterNotes, show: bool, k: LineKind)
    ensures Select(ChapterLines(c, show), k) == ChapterView(c, show, k)
  {
    var head := [Line(1, "## " + c.title, ChapterTitle)];
    SelectAppend(head, EntriesLines(c.entries, show), k);
    SelectOne(head[0], k);
    assert head == [head[0]];
    EntriesSelect(c.entries, show, k);
  }

  lemma ChaptersViewSnoc(chs: seq<ChapterNotes>, show: bool, k: LineKind)
    requires chs != []
    ensures ChaptersView(chs, show, k)
            == ChaptersView(chs[..|chs| - 1], show, k) + ChapterView(chs[|chs| - 1], show, k)
  {
    var c := chs[|chs| - 1];
    match k
    case ChapterTitle =>
      assert EntriesView(c.entries, show, k) == [];
    case Highlighted =>
    case Comment =>
    case Source =>
    case Fixed =>
  }

  lemma {:induction false} ChaptersSelect(chs: seq<ChapterNotes>, show: bool, k: LineKind)
    ensures Select(ChaptersLines(chs, show), k) == ChaptersView(chs, show, k)
    decreases |chs|
  {
    if chs != [] {
      var init := chs[..|chs| - 1];
      var c := chs[|chs| - 1];
      ChaptersSelect(init, show, k);
      SelectAppend(ChaptersLines(init, show), ChapterLines(c, show), k);
      ChapterLinesSelect(c, show, k);
      ChaptersViewSnoc(chs, show, k);
    }
  }

  /**
   * What the document lists: the chapter headings in chapter order, every
   * note's highlighted text, the bold comment of every note that has one,
   * and the sources exactly when the location flag is on.
   */
  lemma DocumentContents(b: Book, show: bool)
    ensures Select(Document(b, show), ChapterTitle) == TitleBodies(b.chapters)
    ensures Select(Document(b, show), Highlighted) == AllTexts(b.chapters)
    ensures Select(Document(b, show), Comment) == AllComments(b.chapters)
    ensures Select(Document(b, show), Source) == (if show then AllSources(b.chapters) else [])
  {
    var h := Header(b);
    ChaptersSelect(b.chapters, show, ChapterTitle);
    ChaptersSelect(b.chapters, show, Highlighted);
    ChaptersSelect(b.chapters, show, Comment);
    ChaptersSelect(b.chapters, show, Source);
    FixedLinesSelect(h, ChapterTitle);
    FixedLinesSelect(h, Highlighted);
    FixedLinesSelect(h, Comment);
    FixedLinesSelect(h, Source);
    SelectAppend(h, ChaptersLines(b.chapters, show), ChapterTitle);
    SelectAppend(h, ChaptersLines(b.chapters, show), Highlighted);
    SelectAppend(h, ChaptersLines(b.chapters, show), Comment);
    SelectAppend(h, ChaptersLines(b.chapters, show), Source);
  }
}
