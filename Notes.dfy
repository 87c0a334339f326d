/**
 * The annotation data: `Note`, `Chapter_notes` with its insertion-ordered
 * dictionary from Kindle location to note, and the book.
 */
module Notes {
  import opened Wrappers

  /** One highlight, possibly with the note its reader added. */
  datatype Note = Note(text: string, note: string, source: string, location: int)

  /** The note a heading creates: empty text and note, its heading and location. */
  function NewNote(source: string, location: int): Note {
    Note("", "", source, location)
  }

  /** One key/value pair of a chapter's `OrderedDict`. */
  datatype Entry = Entry(key: int, note: Note)

  /**
   * A chapter: its title and its `OrderedDict` location -> Note, kept as the
   * sequence of its entries in insertion order.
   */
  datatype ChapterNotes = ChapterNotes(title: string, entries: seq<Entry>)

  /** The root aggregate built by the parser. */
  datatype Book = Book(title: string, author: string, chapters: seq<ChapterNotes>)

  predicate UniqueKeys(es: seq<Entry>) {
    forall i, j :: 0 <= i < j < |es| ==> es[i].key != es[j].key
  }

  /** What every chapter dictionary satisfies: unique keys, each note stored under its own location. */
  predicate ChapterValid(c: ChapterNotes) {
    UniqueKeys(c.entries)
    && forall i :: 0 <= i < |c.entries| ==> c.entries[i].note.location == c.entries[i].key
  }

  predicate ChaptersValid(chs: seq<ChapterNotes>) {
    forall c :: 0 <= c < |chs| ==> ChapterValid(chs[c])
  }

  function Keys(es: seq<Entry>): (ks: seq<int>)
    ensures |ks| == |es| && forall i :: 0 <= i < |es| ==> ks[i] == es[i].key
  {
    if es == [] then [] else Keys(es[..|es| - 1]) + [es[|es| - 1].key]
  }

  /** The position of key `k`, if the dictionary holds it. */
  function IndexOf(es: seq<Entry>, k: int): (r: Option<nat>)
    ensures r.Some? ==> r.value < |es| && es[r.value].key == k
    ensures r.None? ==> forall i :: 0 <= i < |es| ==> es[i].key != k
  {
    if es == [] then None
    else if es[0].key == k then Some(0)
    else match IndexOf(es[1..], k)
      case None => None
      case Some(i) => Some(i + 1)
  }

  /** Where key `k` sits once it has been put: its old position, or the end. */
  function Slot(es: seq<Entry>, k: int): (i: nat)
    ensures i <= |es|
  {
    match IndexOf(es, k)
    case Some(i) => i
    case None => |es|
  }

  /**
   * `d[k] = n` on an `OrderedDict`: an existing key keeps its position and
   * gets the new value; a new key goes at the end.
   */
  function Put(es: seq<Entry>, k: int, n: Note): (r: seq<Entry>)
    requires UniqueKeys(es)
    ensures UniqueKeys(r) && |es| <= |r|
    ensures forall i :: 0 <= i < |es| ==> r[i] == (if es[i].key == k then Entry(k, n) else es[i])
    ensures (exists i :: 0 <= i < |es| && es[i].key == k) ==> |r| == |es|
    ensures (forall i :: 0 <= i < |es| ==> es[i].key != k) ==> |r| == |es| + 1 && r[|es|] == Entry(k, n)
    ensures Slot(es, k) < |r| && r[Slot(es, k)] == Entry(k, n)
  {
    match IndexOf(es, k)
    case Some(i) => es[i := Entry(k, n)]
    case None => es + [Entry(k, n)]
  }

  /**
   * `Chapter_notes.get_last_note`: the position of the most recently added
   * note; `None` where the source raises StopIteration on an empty dictionary.
   */
  function GetLastNote(c: ChapterNotes): (r: Option<nat>)
    ensures r.Some? <==> c.entries != []
    ensures r.Some? ==> r.value < |c.entries|
    ensures r.Some? ==> r.value + 1 == |c.entries|
  {
    if c.entries == [] then None else Some(|c.entries| - 1)
  }

  /** A new key becomes the last note; replacing an existing key leaves the last note where it was. */
  lemma LastNoteAfterPut(c: ChapterNotes, k: int, n: Note)
    requires UniqueKeys(c.entries)
    ensures var c' := c.(entries := Put(c.entries, k, n));
      match IndexOf(c.entries, k)
      case None => GetLastNote(c') == Some(|c.entries|) && c'.entries[|c.entries|] == Entry(k, n)
      case Some(_) => GetLastNote(c') == GetLastNote(c)
  {
  }
}
