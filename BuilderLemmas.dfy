/** What the block loop of `parse_file` guarantees, step by step and over whole inputs. */
module BuilderLemmas {
  import opened Wrappers
  import opened PyStr
  import opened Notes
  import opened Builder

  /** The loop over `xs + [b]` is the loop over `xs` followed by one step. */
  lemma RunSnoc(s: State, xs: seq<Block>, b: Block)
    requires Inv(s)
    ensures Run(s, xs + [b]) == Step(Run(s, xs), b)
  {
    assert (xs + [b])[..|xs|] == xs;
  }

  /** The book field a `bookTitle` or `authors` block sets. */
  function MetaField(b: Book, cls: Class): string {
    if cls == BookTitle then b.title else b.author
  }

  lemma StepKeepsOtherMeta(s: State, b: Block, cls: Class)
    requires Inv(s) && (cls == BookTitle || cls == Authors) && b.cls != cls
    ensures MetaField(Step(s, b).book, cls) == MetaField(s.book, cls)
  {
    match b.cls
    case NoteHeading => NoteHeadingKeepsShape(s, b);
    case NoteText => NoteTextKeepsShape(s, b);
    case SectionHeading => SectionHeadingAppendsChapter(s, b);
    case _ =>
  }

  /** Blocks of other classes leave the title (or author) alone. */
  lemma {:induction false} MetaKeptWithoutBlock(s: State, bs: seq<Block>, cls: Class)
    requires Inv(s) && (cls == BookTitle || cls == Authors)
    requires forall j :: 0 <= j < |bs| ==> bs[j].cls != cls
    ensures MetaField(Run(s, bs).book, cls) == MetaField(s.book, cls)
  {
    if bs != [] {
      MetaKeptWithoutBlock(s, bs[..|bs| - 1], cls);
      StepKeepsOtherMeta(Run(s, bs[..|bs| - 1]), bs[|bs| - 1], cls);
    }
  }

  /** The last `bookTitle` (or `authors`) block decides the title (or author). */
  lemma {:induction false} LastMetaBlockWins(s: State, bs: seq<Block>, cls: Class, i: int)
    requires Inv(s) && (cls == BookTitle || cls == Authors)
    requires 0 <= i < |bs| && bs[i].cls == cls
    requires forall j :: i < j < |bs| ==> bs[j].cls != cls
    ensures MetaField(Run(s, bs).book, cls) == Normalize(bs[i].text)
  {
    if i < |bs| - 1 {
      LastMetaBlockWins(s, bs[..|bs| - 1], cls, i);
      StepKeepsOtherMeta(Run(s, bs[..|bs| - 1]), bs[|bs| - 1], cls);
    }
  }

  /** The chapter titles, in order. */
  function Titles(chs: seq<ChapterNotes>): (ts: seq<string>)
    ensures |ts| == |chs|
  {
    if chs == [] then [] else Titles(chs[..|chs| - 1]) + [chs[|chs| - 1].title]
  }

  lemma {:induction false} SameTitles(a: seq<ChapterNotes>, b: seq<ChapterNotes>)
    requires |a| == |b|
    requires forall c :: 0 <= c < |a| ==> a[c].title == b[c].title
    ensures Titles(a) == Titles(b)
  {
    if a != [] {
      SameTitles(a[..|a| - 1], b[..|b| - 1]);
    }
  }

  /** The normalised texts of the `sectionHeading` blocks, in order. */
  function SectionTitles(bs: seq<Block>): seq<string> {
    if bs == [] then []
    else SectionTitles(bs[..|bs| - 1])
         + (if bs[|bs| - 1].cls == SectionHeading then [Normalize(bs[|bs| - 1].text)] else [])
  }

  /** The number of blocks of class `cls`. */
  function CountClass(bs: seq<Block>, cls: Class): nat {
    if bs == [] then 0
    else CountClass(bs[..|bs| - 1], cls) + (if bs[|bs| - 1].cls == cls then 1 else 0)
  }

  /** A step that changes neither the title, the author nor the number of chapters, and only grows keys. */
  ghost predicate KeepsShape(s: State, r: State) {
    r.book.title == s.book.title && r.book.author == s.book.author
    && |r.book.chapters| == |s.book.chapters|
    && Extends(s.book.chapters, r.book.chapters)
  }

  lemma OnNoteHeadingKeepsShape(s: State, source: string)
    requires Inv(s)
    ensures KeepsShape(s, OnNoteHeading(s, source))
  {
    var words := Split(source);
    if words != [] && ParseInt(words[|words| - 1]).Some? {
      var location := ParseInt(words[|words| - 1]).value;
      assert OnNoteHeading(s, source) == OpenNote(s, words[0], source, location);
      OpenNoteKeepsShape(s, words[0], source, location);
    } else {
      assert OnNoteHeading(s, source) == s;
      KeysOfSameKeysReflexive(s.book.chapters);
    }
  }

  lemma OpenNoteKeepsShape(s: State, kind: string, source: string, location: int)
    requires Inv(s) && kind != ""
    ensures KeepsShape(s, OpenNote(s, kind, source, location))
  {
    var chs := s.book.chapters;
    var r := OpenNote(s, kind, source, location);
    if r.book == s.book {
      KeysOfSameKeysReflexive(chs);
    } else {
      var c := |chs| - 1;
      var es := chs[c].entries;
      assert r.book.chapters == chs[c := chs[c].(entries := Put(es, location, NewNote(source, location)))];
      PutKeepsShape(chs, c, location, NewNote(source, location));
    }
  }

  lemma PutKeepsShape(chs: seq<ChapterNotes>, c: nat, k: int, n: Note)
    requires c + 1 == |chs| && UniqueKeys(chs[c].entries)
    ensures Extends(chs, chs[c := chs[c].(entries := Put(chs[c].entries, k, n))])
  {
    var chs' := chs[c := chs[c].(entries := Put(chs[c].entries, k, n))];
    forall j | 0 <= j < |chs|
      ensures chs'[j].title == chs[j].title
      ensures Keys(chs[j].entries) <= Keys(chs'[j].entries)
      ensures j < c ==> Keys(chs'[j].entries) == Keys(chs[j].entries)
    {
      KeysOfSameKeys(chs[j].entries, chs'[j].entries);
    }
  }

  lemma OnNoteTextKeepsShape(s: State, text: string)
    requires Inv(s)
    ensures KeepsShape(s, OnNoteText(s, text))
  {
    var r := OnNoteText(s, text);
    var chs := s.book.chapters;
    if r != s {
      assert s.wip.At?;
      forall k | 0 <= k < |chs|
        ensures r.book.chapters[k].title == chs[k].title
        ensures Keys(chs[k].entries) == Keys(r.book.chapters[k].entries)
      {
        KeysOfSameKeys(chs[k].entries, r.book.chapters[k].entries);
      }
    }
  }

  lemma SectionHeadingAppendsChapter(s: State, b: Block)
    requires Inv(s) && b.cls == SectionHeading
    ensures Step(s, b).book.chapters == s.book.chapters + [ChapterNotes(Normalize(b.text), [])]
    ensures Titles(Step(s, b).book.chapters) == Titles(s.book.chapters) + [Normalize(b.text)]
    ensures Extends(s.book.chapters, Step(s, b).book.chapters)
  {
    var chs, chs' := s.book.chapters, Step(s, b).book.chapters;
    assert chs'[..|chs'| - 1] == chs;
    forall c | 0 <= c < |chs| ensures Keys(chs[c].entries) == Keys(chs'[c].entries) {
      assert chs'[c] == chs[c];
    }
  }

  lemma SectionHeadingKeepsPending(s: State, b: Block)
    requires Inv(s) && b.cls == SectionHeading
    ensures Step(s, b) == s.(book := s.book.(chapters := s.book.chapters + [ChapterNotes(Normalize(b.text), [])]))
  {
  }

  lemma NoteHeadingKeepsShape(s: State, b: Block)
    requires Inv(s) && b.cls == NoteHeading
    ensures KeepsShape(s, Step(s, b))
  {
    OnNoteHeadingKeepsShape(s, b.text);
  }

  lemma NoteTextKeepsShape(s: State, b: Block)
    requires Inv(s) && b.cls == NoteText
    ensures KeepsShape(s, Step(s, b))
  {
    OnNoteTextKeepsShape(s, FirstLine(Normalize(b.text)));
  }

  lemma OtherBlockKeepsShape(s: State, b: Block)
    requires Inv(s) && b.cls != SectionHeading && b.cls != NoteHeading && b.cls != NoteText
    ensures KeepsShape(s, Step(s, b)) || b.cls == BookTitle || b.cls == Authors
    ensures Step(s, b).book.chapters == s.book.chapters
  {
    KeysOfSameKeysReflexive(s.book.chapters);
  }

  lemma StepTitles(s: State, b: Block)
    requires Inv(s)
    ensures Titles(Step(s, b).book.chapters)
            == Titles(s.book.chapters) + (if b.cls == SectionHeading then [Normalize(b.text)] else [])
  {
    var chs, chs' := s.book.chapters, Step(s, b).book.chapters;
    if b.cls == SectionHeading {
      SectionHeadingAppendsChapter(s, b);
    } else if b.cls == NoteHeading {
      NoteHeadingKeepsShape(s, b);
      SameTitles(chs, chs');
    } else if b.cls == NoteText {
      NoteTextKeepsShape(s, b);
      SameTitles(chs, chs');
    } else {
      OtherBlockKeepsShape(s, b);
    }
  }

  /**
   * Each `sectionHeading` appends one chapter with its text as title, and
   * nothing else adds or renames a chapter.
   */
  lemma {:induction false} ChaptersFollowSections(s: State, bs: seq<Block>)
    requires Inv(s)
    ensures Titles(Run(s, bs).book.chapters) == Titles(s.book.chapters) + SectionTitles(bs)
    ensures |Run(s, bs).book.chapters| == |s.book.chapters| + CountClass(bs, SectionHeading)
  {
    if bs != [] {
      ChaptersFollowSections(s, bs[..|bs| - 1]);
      StepTitles(Run(s, bs[..|bs| - 1]), bs[|bs| - 1]);
    }
  }

  /**
   * A freshly parsed book has one chapter per `sectionHeading` element,
   * titled with the elements' texts in document order, and keeps the empty
   * title when no element is a `bookTitle`.
   */
  lemma ParseBookSummary(divs: seq<Div>)
    ensures |ParseBook(divs).chapters| == CountClass(Classify(divs), SectionHeading)
    ensures Titles(ParseBook(divs).chapters) == SectionTitles(Classify(divs))
    ensures (forall j :: 0 <= j < |divs| ==> divs[j].className != "bookTitle") ==> ParseBook(divs).title == ""
  {
    var s := Start(Book("", "", []));
    var bs := Classify(divs);
    assert Inv(s);
    assert ParseBook(divs) == Run(s, bs).book;
    ChaptersFollowSections(s, bs);
    assert Titles(s.book.chapters) + SectionTitles(bs) == SectionTitles(bs);
    if forall j :: 0 <= j < |divs| ==> divs[j].className != "bookTitle" {
      forall j | 0 <= j < |bs| ensures bs[j].cls != BookTitle {
        assert bs[j].cls == ClassOf(divs[j].className);
      }
      MetaKeptWithoutBlock(s, bs, BookTitle);
    }
  }

  /**
   * `after` grows from `before`: no chapter is lost or renamed, every chapter's
   * keys keep their order with new keys only at the end, and only the last
   * chapter may receive new keys at all.
   */
  ghost predicate Extends(before: seq<ChapterNotes>, after: seq<ChapterNotes>) {
    |before| <= |after|
    && (forall c :: 0 <= c < |before| ==>
          after[c].title == before[c].title && Keys(before[c].entries) <= Keys(after[c].entries))
    && (forall c :: 0 <= c < |before| - 1 ==> Keys(after[c].entries) == Keys(before[c].entries))
  }

  lemma ExtendsTransitive(a: seq<ChapterNotes>, b: seq<ChapterNotes>, c: seq<ChapterNotes>)
    requires Extends(a, b) && Extends(b, c)
    ensures Extends(a, c)
  {
    forall k | 0 <= k < |a| ensures Keys(a[k].entries) <= Keys(c[k].entries) {
      PrefixTransitive(Keys(a[k].entries), Keys(b[k].entries), Keys(c[k].entries));
    }
  }

  lemma PrefixTransitive(x: seq<int>, y: seq<int>, z: seq<int>)
    requires x <= y && y <= z
    ensures x <= z
  {
    assert x == y[..|x|];
    assert y == z[..|y|];
    assert z[..|y|][..|x|] == z[..|x|];
  }

  lemma KeysOfSameKeys(es: seq<Entry>, es': seq<Entry>)
    requires |es| <= |es'|
    requires forall i :: 0 <= i < |es| ==> es'[i].key == es[i].key
    ensures Keys(es) <= Keys(es')
    ensures |es| == |es'| ==> Keys(es) == Keys(es')
  {
    assert Keys(es) == Keys(es')[..|es|];
  }

  lemma StepExtends(s: State, b: Block)
    requires Inv(s)
    ensures Extends(s.book.chapters, Step(s, b).book.chapters)
  {
    if b.cls == SectionHeading {
      SectionHeadingAppendsChapter(s, b);
    } else if b.cls == NoteHeading {
      NoteHeadingKeepsShape(s, b);
    } else if b.cls == NoteText {
      NoteTextKeepsShape(s, b);
    } else {
      OtherBlockKeepsShape(s, b);
      KeysOfSameKeysReflexive(s.book.chapters);
    }
  }

  /**
   * Whatever follows, the chapters built so far keep their titles and the
   * order of their keys; only the then-last chapter can still gain keys.
   */
  lemma {:induction false} ChaptersOnlyGrow(s: State, xs: seq<Block>, ys: seq<Block>)
    requires Inv(s)
    ensures Extends(Run(s, xs).book.chapters, Run(s, xs + ys).book.chapters)
  {
    if ys == [] {
      assert xs + ys == xs;
      KeysOfSameKeysReflexive(Run(s, xs).book.chapters);
    } else {
      var ys', y := ys[..|ys| - 1], ys[|ys| - 1];
      assert xs + ys == (xs + ys') + [y];
      ChaptersOnlyGrow(s, xs, ys');
      RunSnoc(s, xs + ys', y);
      StepExtends(Run(s, xs + ys'), y);
      ExtendsTransitive(Run(s, xs).book.chapters, Run(s, xs + ys').book.chapters,
                        Run(s, xs + ys).book.chapters);
    }
  }

  lemma KeysOfSameKeysReflexive(chs: seq<ChapterNotes>)
    ensures Extends(chs, chs)
  {
  }

  /** The first and the last word of a heading, when the last one is an integer. */
  predicate ParsedHeading(source: string, kind: string, location: int) {
    var words := Split(source);
    words != [] && words[0] == kind && ParseInt(words[|words| - 1]) == Some(location)
  }

  /** The note of kind `kind` that a heading creates at `location`. */
  function Fresh(source: string, location: int): Entry {
    Entry(location, NewNote(source, location))
  }

  /**
   * `es'` is `es` after putting `e` at key `e.key`: each entry at that key is
   * replaced in place, every other one stays, and a new key is appended.
   */
  ghost predicate PutAt(es: seq<Entry>, es': seq<Entry>, e: Entry) {
    |es| <= |es'|
    && (forall i :: 0 <= i < |es| ==> es'[i] == if es[i].key == e.key then e else es[i])
    && ((exists i :: 0 <= i < |es| && es[i].key == e.key) ==> |es'| == |es|)
    && ((forall i :: 0 <= i < |es| ==> es[i].key != e.key) ==> es' == es + [e])
  }

  /**
   * A heading of any kind but "Note" (or a "Note" whose chapter is still
   * empty) puts a fresh note at its location in the last chapter: an
   * existing key keeps its position and gets the fresh note, a new key goes
   * last, every other entry and every other chapter stays as it was, and
   * the pending note is the fresh one.
   */
  lemma HeadingPutsFreshNote(s: State, b: Block, kind: string, L: int)
    requires Inv(s) && b.cls == NoteHeading && ParsedHeading(b.text, kind, L)
    requires s.book.chapters != []
    requires kind != "Note" || s.book.chapters[|s.book.chapters| - 1].entries == []
    ensures var r, chs := Step(s, b), s.book.chapters;
      r.lastNoteType == kind && r.book.title == s.book.title && r.book.author == s.book.author
      && |r.book.chapters| == |chs| && r.book.chapters[..|chs| - 1] == chs[..|chs| - 1]
      && r.book.chapters[|chs| - 1].title == chs[|chs| - 1].title
      && PutAt(chs[|chs| - 1].entries, r.book.chapters[|chs| - 1].entries, Fresh(b.text, L))
      && r.wip.At? && r.wip.chapter == |chs| - 1 && r.wip.index < |r.book.chapters[|chs| - 1].entries|
      && r.book.chapters[|chs| - 1].entries[r.wip.index] == Fresh(b.text, L)
  {
    var chs := s.book.chapters;
    var es := chs[|chs| - 1].entries;
    var es' := Put(es, L, NewNote(b.text, L));
    assert Step(s, b) == OpenNote(s, kind, b.text, L);
    if forall i :: 0 <= i < |es| ==> es[i].key != L {
      assert es' == es + [Fresh(b.text, L)];
    }
  }


  /**
   * A "Note" heading in a chapter that already has notes adds nothing: the
   * pending note becomes the chapter's last note, whatever its location.
   */
  lemma NoteHeadingPointsAtLastNote(s: State, b: Block, L: int)
    requires Inv(s) && b.cls == NoteHeading && ParsedHeading(b.text, "Note", L)
    requires s.book.chapters != [] && s.book.chapters[|s.book.chapters| - 1].entries != []
    ensures var chs := s.book.chapters;
      Step(s, b) == s.(wip := At(|chs| - 1, |chs[|chs| - 1].entries| - 1), lastNoteType := "Note")
  {
    assert Step(s, b) == OpenNote(s, "Note", b.text, L);
  }

  /**
   * Before the first `sectionHeading` a parsed heading stores nothing: the
   * source's IndexError leaves the fresh note unattached.
   */
  lemma HeadingWithoutChapterStoresNothing(s: State, b: Block, kind: string, L: int)
    requires Inv(s) && b.cls == NoteHeading && ParsedHeading(b.text, kind, L)
    requires s.book.chapters == []
    ensures Step(s, b) == s.(wip := Detached, lastNoteType := kind)
  {
    assert Step(s, b) == OpenNote(s, kind, b.text, L);
  }

  /**
   * A heading with no words or whose last word is not an integer only warns:
   * nothing changes, not even the pending note or the last heading kind.
   */
  lemma UnparsableHeadingChangesNothing(s: State, b: Block)
    requires Inv(s) && b.cls == NoteHeading
    requires var words := Split(b.text); words == [] || ParseInt(words[|words| - 1]).None?
    ensures Step(s, b) == s
  {
  }

  /** Where a text line goes for each kind of the last heading. */
  function Routed(kind: string, n: Note, text: string): Note {
    if kind == "Highlight" then n.(text := text)
    else if kind == "Note" then n.(note := text)
    else n
  }

  lemma OnNoteTextRouting(s: State, t: string)
    requires Inv(s)
    ensures var r, chs := OnNoteText(s, t), s.book.chapters;
      r.wip == s.wip && r.lastNoteType == s.lastNoteType
      && r.book.title == s.book.title && r.book.author == s.book.author
      && |r.book.chapters| == |chs|
      && (forall c :: 0 <= c < |chs| ==>
            r.book.chapters[c].title == chs[c].title
            && |r.book.chapters[c].entries| == |chs[c].entries|)
    ensures var r, chs := OnNoteText(s, t), s.book.chapters;
      forall c, i :: 0 <= c < |chs| && 0 <= i < |chs[c].entries| ==>
        r.book.chapters[c].entries[i]
        == if s.wip == At(c, i)
           then chs[c].entries[i].(note := Routed(s.lastNoteType, chs[c].entries[i].note, t))
           else chs[c].entries[i]
    ensures s.lastNoteType != "Highlight" && s.lastNoteType != "Note" ==> OnNoteText(s, t) == s
  {
    var kind := s.lastNoteType;
    if (kind == "Highlight" || kind == "Note") && s.wip.At? {
      var r := WriteThrough(s, t, kind == "Note");
      assert OnNoteText(s, t) == r;
    }
  }

  /**
   * A `noteText` keeps its first line and stores it in the pending note, as
   * its text after a "Highlight" and as its note after a "Note"; no other
   * note, key, chapter or field changes.
   */
  lemma NoteTextRouting(s: State, b: Block)
    requires Inv(s) && b.cls == NoteText
    ensures var r, chs := Step(s, b), s.book.chapters;
      r.wip == s.wip && r.lastNoteType == s.lastNoteType
      && r.book.title == s.book.title && r.book.author == s.book.author
      && |r.book.chapters| == |chs|
      && (forall c :: 0 <= c < |chs| ==>
            r.book.chapters[c].title == chs[c].title
            && |r.book.chapters[c].entries| == |chs[c].entries|)
    ensures var r, chs, t := Step(s, b), s.book.chapters, FirstLine(Normalize(b.text));
      forall c, i :: 0 <= c < |chs| && 0 <= i < |chs[c].entries| ==>
        r.book.chapters[c].entries[i]
        == if s.wip == At(c, i)
           then chs[c].entries[i].(note := Routed(s.lastNoteType, chs[c].entries[i].note, t))
           else chs[c].entries[i]
    ensures s.lastNoteType != "Highlight" && s.lastNoteType != "Note" ==> Step(s, b) == s
  {
    assert Step(s, b) == OnNoteText(s, FirstLine(Normalize(b.text)));
    OnNoteTextRouting(s, FirstLine(Normalize(b.text)));
  }

  /** The chapters with entry `i` of chapter `c` replaced by `e`. */
  function SetEntry(chs: seq<ChapterNotes>, c: nat, i: nat, e: Entry): seq<ChapterNotes>
    requires c < |chs| && i < |chs[c].entries|
  {
    chs[c := chs[c].(entries := chs[c].entries[i := e])]
  }

  lemma ReplaceLast(es: seq<Entry>, x: Entry, y: Entry)
    ensures (es + [x])[|es| := y] == es + [y]
  {
    assert (es + [x])[|es| := y][|es|] == (es + [y])[|es|];
  }

  lemma SetLastEntry(chs: seq<ChapterNotes>, n: nat, es: seq<Entry>, x: Entry, y: Entry)
    requires n < |chs|
    ensures SetEntry(chs[n := chs[n].(entries := es + [x])], n, |es|, y)
            == chs[n := chs[n].(entries := es + [y])]
  {
    assert (es + [x])[|es| := y] == es + [y];
  }

  lemma SetLastOf(chs: seq<ChapterNotes>, n: nat, y: Entry)
    requires n < |chs| && chs[n].entries != []
    ensures var es := chs[n].entries;
      SetEntry(chs, n, |es| - 1, y) == chs[n := chs[n].(entries := es[..|es| - 1] + [y])]
  {
    var es := chs[n].entries;
    assert es[|es| - 1 := y] == es[..|es| - 1] + [y];
  }

  lemma ReplaceEntries(chs: seq<ChapterNotes>, n: nat, es1: seq<Entry>, es2: seq<Entry>)
    requires n < |chs|
    ensures var chs1 := chs[n := chs[n].(entries := es1)];
      chs1[n := chs1[n].(entries := es2)] == chs[n := chs[n].(entries := es2)]
  {
  }

  lemma HeadingAppendsFreshNote(s: State, b: Block, kind: string, L: int)
    requires Inv(s) && b.cls == NoteHeading && ParsedHeading(b.text, kind, L)
    requires s.book.chapters != []
    requires kind != "Note" || s.book.chapters[|s.book.chapters| - 1].entries == []
    requires var es := s.book.chapters[|s.book.chapters| - 1].entries;
      forall i :: 0 <= i < |es| ==> es[i].key != L
    ensures var chs := s.book.chapters; var n := |chs| - 1;
      Step(s, b) == s.(book := s.book.(chapters := chs[n := chs[n].(entries := chs[n].entries + [Fresh(b.text, L)])]),
                       wip := At(n, |chs[n].entries|), lastNoteType := kind)
  {
    var chs := s.book.chapters;
    var es := chs[|chs| - 1].entries;
    assert IndexOf(es, L).None?;
    assert Step(s, b) == OpenNote(s, kind, b.text, L);
  }

  lemma NoteTextWrites(s: State, b: Block, c: nat, i: nat)
    requires Inv(s) && b.cls == NoteText && s.wip == At(c, i)
    requires s.lastNoteType == "Highlight" || s.lastNoteType == "Note"
    ensures var chs, t := s.book.chapters, FirstLine(Normalize(b.text));
      c < |chs| && i < |chs[c].entries|
      && Step(s, b) == s.(book := s.book.(chapters := SetEntry(chs, c, i,
           chs[c].entries[i].(note := Routed(s.lastNoteType, chs[c].entries[i].note, t)))))
  {
    var t := FirstLine(Normalize(b.text));
    assert Step(s, b) == OnNoteText(s, t);
    assert OnNoteText(s, t) == WriteThrough(s, t, s.lastNoteType == "Note");
  }

  /** A new "Highlight" heading and its text: one note appended, holding the text, pending. */
  lemma HighlightWithText(s: State, h: Block, t: Block, L: int)
    requires Inv(s) && s.book.chapters != []
    requires h.cls == NoteHeading && ParsedHeading(h.text, "Highlight", L) && t.cls == NoteText
    requires var es := s.book.chapters[|s.book.chapters| - 1].entries;
      forall i :: 0 <= i < |es| ==> es[i].key != L
    ensures var chs := s.book.chapters; var n := |chs| - 1; var r := Step(Step(s, h), t);
      r.book == s.book.(chapters := chs[n := chs[n].(entries := chs[n].entries
                          + [Entry(L, Note(FirstLine(Normalize(t.text)), "", h.text, L))])])
      && r.wip == At(n, |chs[n].entries|)
  {
    var chs := s.book.chapters;
    var n := |chs| - 1;
    var es := chs[n].entries;
    var s1 := Step(s, h);
    HeadingAppendsFreshNote(s, h, "Highlight", L);
    NoteTextWrites(s1, t, n, |es|);
    SetLastEntry(chs, n, es, Fresh(h.text, L), Entry(L, Note(FirstLine(Normalize(t.text)), "", h.text, L)));
  }

  /** A `noteText` after a "Note" heading that points at a chapter's last note sets that note's comment. */
  lemma NoteTextOnLastNote(s: State, t: Block, e: Entry)
    requires Inv(s) && s.book.chapters != [] && t.cls == NoteText && s.lastNoteType == "Note"
    requires var chs := s.book.chapters; var n := |chs| - 1;
      chs[n].entries != [] && chs[n].entries[|chs[n].entries| - 1] == e
      && s.wip == At(n, |chs[n].entries| - 1)
    ensures var chs := s.book.chapters; var n := |chs| - 1; var es := chs[n].entries;
      Step(s, t).book
      == s.book.(chapters := chs[n := chs[n].(entries := es[..|es| - 1]
                   + [e.(note := e.note.(note := FirstLine(Normalize(t.text))))])])
  {
    var chs := s.book.chapters;
    var n := |chs| - 1;
    var es := chs[n].entries;
    NoteTextWrites(s, t, n, |es| - 1);
    assert Routed("Note", e.note, FirstLine(Normalize(t.text))) == e.note.(note := FirstLine(Normalize(t.text)));
    SetLastOf(chs, n, e.(note := e.note.(note := FirstLine(Normalize(t.text)))));
  }

  /** A "Note" heading and its text after a chapter's last note: that note gets the text as its note. */
  lemma NoteWithText(s: State, h: Block, t: Block, L: int, e: Entry)
    requires Inv(s) && s.book.chapters != []
    requires h.cls == NoteHeading && ParsedHeading(h.text, "Note", L) && t.cls == NoteText
    requires var chs := s.book.chapters; var n := |chs| - 1;
      chs[n].entries != [] && chs[n].entries[|chs[n].entries| - 1] == e
    ensures var chs := s.book.chapters; var n := |chs| - 1; var es := chs[n].entries;
      Step(Step(s, h), t).book
      == s.book.(chapters := chs[n := chs[n].(entries := es[..|es| - 1]
                   + [e.(note := e.note.(note := FirstLine(Normalize(t.text))))])])
  {
    NoteHeadingPointsAtLastNote(s, h, L);
    NoteTextOnLastNote(Step(s, h), t, e);
  }

  /**
   * A "Highlight" heading and its text followed by a "Note" heading (at the
   * same or a drifted location) and its text give one note holding both
   * texts, appended to the last chapter; nothing else changes.
   */
  lemma HighlightThenNoteMerge(s: State, h1: Block, t1: Block, h2: Block, t2: Block, L: int, L2: int)
    requires Inv(s) && s.book.chapters != []
    requires h1.cls == NoteHeading && ParsedHeading(h1.text, "Highlight", L)
    requires h2.cls == NoteHeading && ParsedHeading(h2.text, "Note", L2)
    requires t1.cls == NoteText && t2.cls == NoteText
    requires var es := s.book.chapters[|s.book.chapters| - 1].entries;
      forall i :: 0 <= i < |es| ==> es[i].key != L
    ensures var chs := s.book.chapters; var n := |chs| - 1;
      var merged := Note(FirstLine(Normalize(t1.text)), FirstLine(Normalize(t2.text)), h1.text, L);
      Run(s, [h1, t1, h2, t2]).book
      == s.book.(chapters := chs[n := chs[n].(entries := chs[n].entries + [Entry(L, merged)])])
  {
    var chs := s.book.chapters;
    var n := |chs| - 1;
    var es := chs[n].entries;
    var withText := Entry(L, Note(FirstLine(Normalize(t1.text)), "", h1.text, L));
    var merged := Entry(L, Note(FirstLine(Normalize(t1.text)), FirstLine(Normalize(t2.text)), h1.text, L));
    var s2 := Step(Step(s, h1), t1);
    HighlightWithText(s, h1, t1, L);
    var chs2 := chs[n := chs[n].(entries := es + [withText])];
    assert s2.book.chapters == chs2;
    NoteWithText(s2, h2, t2, L2, withText);
    assert (es + [withText])[..|es|] == es;
    ReplaceEntries(chs, n, es + [withText], es + [merged]);
    RunFour(s, h1, t1, h2, t2);
  }

  /**
   * The pending note survives a `sectionHeading`: a `noteText` that follows
   * a new chapter before any heading of its own still writes into the note
   * of the previous chapter, and the new chapter stays empty.
   */
  lemma TextAfterSectionWritesPreviousChapter(s: State, h: Block, sec: Block, t: Block, L: int)
    requires Inv(s) && s.book.chapters != []
    requires h.cls == NoteHeading && ParsedHeading(h.text, "Highlight", L)
    requires sec.cls == SectionHeading && t.cls == NoteText
    requires var es := s.book.chapters[|s.book.chapters| - 1].entries;
      forall i :: 0 <= i < |es| ==> es[i].key != L
    ensures var n := |s.book.chapters| - 1; var es := s.book.chapters[n].entries;
      var chs := Step(Step(Step(s, h), sec), t).book.chapters;
      |chs| == n + 2 && chs[n + 1] == ChapterNotes(Normalize(sec.text), [])
      && chs[n].entries == es + [Entry(L, Note(FirstLine(Normalize(t.text)), "", h.text, L))]
  {
    var n := |s.book.chapters| - 1;
    var es := s.book.chapters[n].entries;
    HighlightThenSection(s, h, sec, L);
    TextIntoEarlierChapter(Step(Step(s, h), sec), t, n, es, Fresh(h.text, L));
  }

  /** After a new Highlight and a `sectionHeading`, the fresh note is still pending. */
  lemma HighlightThenSection(s: State, h: Block, sec: Block, L: int)
    requires Inv(s) && s.book.chapters != []
    requires h.cls == NoteHeading && ParsedHeading(h.text, "Highlight", L) && sec.cls == SectionHeading
    requires var es := s.book.chapters[|s.book.chapters| - 1].entries;
      forall i :: 0 <= i < |es| ==> es[i].key != L
    ensures var n := |s.book.chapters| - 1; var es := s.book.chapters[n].entries;
      var r := Step(Step(s, h), sec);
      |r.book.chapters| == n + 2 && r.book.chapters[n + 1] == ChapterNotes(Normalize(sec.text), [])
      && r.book.chapters[n].entries == es + [Fresh(h.text, L)]
      && r.wip == At(n, |es|) && r.lastNoteType == "Highlight"
  {
    HeadingAppendsFreshNote(s, h, "Highlight", L);
    SectionHeadingKeepsPending(Step(s, h), sec);
  }

  /** A Highlight's `noteText` fills the pending last note of chapter `n`, wherever the book has grown since. */
  lemma TextIntoEarlierChapter(s: State, t: Block, n: nat, es: seq<Entry>, e: Entry)
    requires Inv(s) && t.cls == NoteText && s.lastNoteType == "Highlight"
    requires n + 2 == |s.book.chapters| && s.book.chapters[n].entries == es + [e] && s.wip == At(n, |es|)
    requires e.note.text == ""
    ensures var chs := Step(s, t).book.chapters;
      |chs| == n + 2 && chs[n + 1] == s.book.chapters[n + 1]
      && chs[n].entries == es + [e.(note := e.note.(text := FirstLine(Normalize(t.text))))]
  {
    var x := FirstLine(Normalize(t.text));
    var e' := e.(note := e.note.(text := x));
    var chs := s.book.chapters;
    NoteTextWrites(s, t, n, |es|);
    assert Routed("Highlight", e.note, x) == e'.note;
    assert Step(s, t).book.chapters == chs[n := chs[n].(entries := (es + [e])[|es| := e'])];
    ReplaceLast(es, e, e');
  }


  lemma RunOne(s: State, a: Block)
    requires Inv(s)
    ensures Run(s, [a]) == Step(s, a)
  {
    assert [a][..0] == [];
  }

  lemma RunTwo(s: State, a: Block, b: Block)
    requires Inv(s)
    ensures Run(s, [a, b]) == Step(Step(s, a), b)
  {
    RunOne(s, a);
    RunSnoc(s, [a], b);
    assert [a] + [b] == [a, b];
  }

  lemma RunThree(s: State, a: Block, b: Block, c: Block)
    requires Inv(s)
    ensures Run(s, [a, b, c]) == Step(Step(Step(s, a), b), c)
  {
    RunTwo(s, a, b);
    RunSnoc(s, [a, b], c);
    assert [a, b] + [c] == [a, b, c];
  }

  lemma RunFour(s: State, a: Block, b: Block, c: Block, d: Block)
    requires Inv(s)
    ensures Run(s, [a, b, c, d]) == Step(Step(Step(Step(s, a), b), c), d)
  {
    RunThree(s, a, b, c);
    RunSnoc(s, [a, b, c], d);
    assert [a, b, c] + [d] == [a, b, c, d];
  }

}
