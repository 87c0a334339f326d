/**
 * The Python string operations the converter relies on: `str.isspace`,
 * `str.strip()`, `str.replace(' \xa0', '')`, `str.split('\n')[0]`,
 * `str.split()` and `int(str)`.
 */
module PyStr {
  import opened Wrappers

  /** The non-breaking space U+00A0 that Kindle exports put after spaces. */
  const NBSP: char := '\U{A0}'

  /** Python's `str.isspace()` for a single character. */
  predicate IsSpace(c: char) {
    c == ' ' || ('\t' <= c <= '\r') || ('\U{1C}' <= c <= '\U{1F}')
    || c == '\U{85}' || c == NBSP || c == '\U{1680}'
    || ('\U{2000}' <= c <= '\U{200A}') || c == '\U{2028}' || c == '\U{2029}'
    || c == '\U{202F}' || c == '\U{205F}' || c == '\U{3000}'
  }

  predicate NoSpace(w: string) {
    forall i :: 0 <= i < |w| ==> !IsSpace(w[i])
  }

  /** `s.lstrip()`: the suffix of `s` left after its leading whitespace. */
  function TrimStart(s: string): (r: string)
    ensures |r| <= |s| && r == s[|s| - |r|..]
    ensures forall i :: 0 <= i < |s| - |r| ==> IsSpace(s[i])
    ensures r != [] ==> !IsSpace(r[0])
  {
    if s != [] && IsSpace(s[0]) then TrimStart(s[1..]) else s
  }

  /** `s.rstrip()`: the prefix of `s` left before its trailing whitespace. */
  function TrimEnd(s: string): (r: string)
    ensures |r| <= |s| && r == s[..|r|]
    ensures forall i :: |r| <= i < |s| ==> IsSpace(s[i])
    ensures r != [] ==> !IsSpace(r[|r| - 1])
  {
    if s != [] && IsSpace(s[|s| - 1]) then TrimEnd(s[..|s| - 1]) else s
  }

  /** `r` is `s[a..]` cut before `|r|` characters, with only whitespace cut away. */
  predicate InfixAfterSpaces(s: string, a: int, r: string) {
    0 <= a <= a + |r| <= |s| && r == s[a..a + |r|]
    && (forall i :: 0 <= i < a ==> IsSpace(s[i]))
    && (forall i :: a + |r| <= i < |s| ==> IsSpace(s[i]))
  }

  /** `s.strip()`: `s` without its leading and trailing whitespace. */
  function Strip(s: string): (r: string)
    ensures exists a :: InfixAfterSpaces(s, a, r)
    ensures r != [] ==> !IsSpace(r[0]) && !IsSpace(r[|r| - 1])
  {
    var t := TrimStart(s);
    var r := TrimEnd(t);
    assert InfixAfterSpaces(s, |s| - |t|, r);
    r
  }

  predicate HasSpaceNbspAt(s: string, i: int) {
    0 <= i && i + 1 < |s| && s[i] == ' ' && s[i + 1] == NBSP
  }

  /**
   * `s.replace(' \xa0', '')`: one left-to-right pass that deletes every
   * space followed by a non-breaking space.
   */
  function DeleteSpaceNbsp(s: string): (r: string)
    ensures |r| <= |s|
    ensures multiset(r) <= multiset(s)
    ensures (forall i :: 0 <= i < |s| ==> !HasSpaceNbspAt(s, i)) ==> r == s
  {
    if |s| < 2 then s
    else if s[0] == ' ' && s[1] == NBSP then
      PairAtStart(s);
      DeleteSpaceNbsp(s[2..])
    else
      FirstAndTail(s);
      [s[0]] + DeleteSpaceNbsp(s[1..])
  }

  lemma PairAtStart(s: string)
    requires |s| >= 2 && s[0] == ' ' && s[1] == NBSP
    ensures HasSpaceNbspAt(s, 0)
    ensures multiset(s) == multiset(s[2..]) + multiset{' ', NBSP}
  {
    assert s == [s[0], s[1]] + s[2..];
  }

  lemma FirstAndTail(s: string)
    requires s != []
    ensures s == [s[0]] + s[1..]
    ensures multiset(s) == multiset{s[0]} + multiset(s[1..])
    ensures forall i :: 0 <= i < |s[1..]| ==> (HasSpaceNbspAt(s[1..], i) == HasSpaceNbspAt(s, i + 1))
  {
    assert s == [s[0]] + s[1..];
  }

  /**
   * The text normalisation applied to every block: strip, then delete
   * " \xa0". The result never starts or ends with whitespace, and text that
   * is already stripped and holds no such pair is left as it is.
   */
  function Normalize(s: string): (r: string)
    ensures |r| <= |s|
    ensures r != [] ==> !IsSpace(r[0]) && !IsSpace(r[|r| - 1])
    ensures Strip(s) == s && (forall i :: 0 <= i < |s| ==> !HasSpaceNbspAt(s, i)) ==> r == s
  {
    var t := Strip(s);
    StripShorter(s);
    DeleteKeepsEnds(t);
    DeleteSpaceNbsp(t)
  }

  lemma StripShorter(s: string)
    ensures |Strip(s)| <= |s|
  {
    var a :| InfixAfterSpaces(s, a, Strip(s));
  }

  /** Deleting pairs from text that neither starts nor ends with whitespace keeps both ends. */
  lemma DeleteKeepsEnds(t: string)
    requires t != [] ==> !IsSpace(t[0]) && !IsSpace(t[|t| - 1])
    ensures var r := DeleteSpaceNbsp(t);
            r != [] ==> !IsSpace(r[0]) && !IsSpace(r[|r| - 1])
  {
    if t != [] {
      DeleteKeepsLast(t);
    }
  }

  /** A last character that is not U+00A0 is never deleted. */
  lemma {:induction false} DeleteKeepsLast(s: string)
    requires s != [] && s[|s| - 1] != NBSP
    ensures var r := DeleteSpaceNbsp(s);
            r != [] && r[|r| - 1] == s[|s| - 1] && (s[0] != ' ' ==> r[0] == s[0])
  {
    if |s| >= 2 {
      if s[0] == ' ' && s[1] == NBSP {
        DeleteKeepsLast(s[2..]);
      } else {
        DeleteKeepsLast(s[1..]);
      }
    }
  }

  /** `s.split('\n')[0]`: the text before the first newline. */
  function FirstLine(s: string): (r: string)
    ensures |r| <= |s| && r == s[..|r|]
    ensures '\n' !in r
    ensures |r| < |s| ==> s[|r|] == '\n'
  {
    if s == [] || s[0] == '\n' then [] else [s[0]] + FirstLine(s[1..])
  }

  /** The longest prefix of `s` without whitespace. */
  function TakeWord(s: string): (w: string)
    ensures |w| <= |s| && w == s[..|w|] && NoSpace(w)
    ensures |w| < |s| ==> IsSpace(s[|w|])
  {
    if s == [] || IsSpace(s[0]) then [] else [s[0]] + TakeWord(s[1..])
  }

  /** `s.split()`: the maximal runs of non-whitespace characters, in order. */
  function Split(s: string): (ws: seq<string>)
    ensures AreWords(ws)
    decreases |s|
  {
    var t := TrimStart(s);
    if t == [] then []
    else
      var w := TakeWord(t);
      assert w != [] by {
        assert !IsSpace(t[0]);
      }
      var rest := Split(t[|w|..]);
      WordsCons(w, rest);
      [w] + rest
  }

  lemma WordsCons(w: string, ws: seq<string>)
    requires w != [] && NoSpace(w) && AreWords(ws)
    ensures AreWords([w] + ws)
  {
    assert forall i :: 1 <= i < |ws| + 1 ==> ([w] + ws)[i] == ws[i - 1];
  }

  /** Non-empty words without whitespace: what `str.split()` produces. */
  predicate AreWords(ws: seq<string>) {
    forall i :: 0 <= i < |ws| ==> ws[i] != [] && NoSpace(ws[i])
  }

  /** `' '.join(ws)`. */
  function Join(ws: seq<string>): string {
    if ws == [] then ""
    else if |ws| == 1 then ws[0]
    else ws[0] + " " + Join(ws[1..])
  }

  lemma {:induction false} TakeWordOfJoin(w: string, t: string)
    requires NoSpace(w)
    requires t == [] || IsSpace(t[0])
    ensures TakeWord(w + t) == w
  {
    if w != [] {
      assert (w + t)[1..] == w[1..] + t;
      TakeWordOfJoin(w[1..], t);
    } else {
      assert w + t == t;
    }
  }

  lemma SplitWordFirst(w: string, t: string)
    requires w != [] && NoSpace(w)
    requires t == [] || IsSpace(t[0])
    ensures Split(w + t) == [w] + Split(t)
  {
    var s := w + t;
    assert TrimStart(s) == s;
    TakeWordOfJoin(w, t);
    assert s[|w|..] == t;
  }

  /** Leading whitespace of any kind is skipped. */
  lemma SplitSkipsSpace(c: char, x: string)
    requires IsSpace(c)
    ensures Split([c] + x) == Split(x)
  {
    assert ([c] + x)[1..] == x;
    assert TrimStart([c] + x) == TrimStart(x);
  }

  predicate AllSpace(sp: string) {
    forall i :: 0 <= i < |sp| ==> IsSpace(sp[i])
  }

  lemma {:induction false} SplitSkipsSpaces(sp: string, x: string)
    requires AllSpace(sp)
    ensures Split(sp + x) == Split(x)
  {
    if sp != [] {
      var tail := sp[1..];
      assert AllSpace(tail) by {
        forall i | 0 <= i < |tail| ensures IsSpace(tail[i]) {
          assert tail[i] == sp[i + 1];
        }
      }
      var y := tail + x;
      assert sp + x == [sp[0]] + y;
      SplitSkipsSpace(sp[0], y);
      SplitSkipsSpaces(tail, x);
    } else {
      assert sp + x == x;
    }
  }

  /** Each word followed by its own run of whitespace. */
  function Spaced(ws: seq<string>, gaps: seq<string>): string
    requires |gaps| == |ws|
  {
    if ws == [] then "" else ws[0] + gaps[0] + Spaced(ws[1..], gaps[1..])
  }

  /** Whitespace runs after the words: all non-empty except possibly the last. */
  predicate Gaps(ws: seq<string>, gaps: seq<string>) {
    |gaps| == |ws|
    && forall i :: 0 <= i < |gaps| ==> AllSpace(gaps[i]) && (i < |gaps| - 1 ==> gaps[i] != [])
  }

  /**
   * `split()` gives back exactly the words of any text made of words
   * separated by runs of whitespace of any kind and length, with optional
   * whitespace before and after.
   */
  lemma SplitSpaced(lead: string, ws: seq<string>, gaps: seq<string>)
    requires AllSpace(lead) && AreWords(ws) && Gaps(ws, gaps)
    ensures Split(lead + Spaced(ws, gaps)) == ws
  {
    SplitSkipsSpaces(lead, Spaced(ws, gaps));
    SplitOfSpaced(ws, gaps);
  }

  lemma {:induction false} SplitOfSpaced(ws: seq<string>, gaps: seq<string>)
    requires AreWords(ws) && Gaps(ws, gaps)
    ensures Split(Spaced(ws, gaps)) == ws
  {
    if ws != [] {
      var rest := Spaced(ws[1..], gaps[1..]);
      SpacedCons(ws, gaps);
      SplitWordFirst(ws[0], gaps[0] + rest);
      SplitSkipsSpaces(gaps[0], rest);
      SplitOfSpaced(ws[1..], gaps[1..]);
    }
  }

  /** The first word of a spaced text, and what follows it. */
  lemma SpacedCons(ws: seq<string>, gaps: seq<string>)
    requires AreWords(ws) && Gaps(ws, gaps) && ws != []
    ensures ws[0] != [] && NoSpace(ws[0]) && AllSpace(gaps[0])
    ensures var t := gaps[0] + Spaced(ws[1..], gaps[1..]);
            Spaced(ws, gaps) == ws[0] + t && (t == [] || IsSpace(t[0]))
    ensures AreWords(ws[1..]) && Gaps(ws[1..], gaps[1..])
    ensures [ws[0]] + ws[1..] == ws
  {
    var rest := Spaced(ws[1..], gaps[1..]);
    if gaps[0] == [] {
      assert |ws| == 1 && rest == [];
    } else {
      assert (gaps[0] + rest)[0] == gaps[0][0];
    }
    forall i | 0 <= i < |ws[1..]| ensures ws[1..][i] != [] && NoSpace(ws[1..][i]) {
      assert ws[1..][i] == ws[i + 1];
    }
    forall i | 0 <= i < |gaps[1..]|
      ensures AllSpace(gaps[1..][i]) && (i < |gaps[1..]| - 1 ==> gaps[1..][i] != [])
    {
      assert gaps[1..][i] == gaps[i + 1];
    }
  }

  /** Splitting words joined by single spaces gives the words back. */
  lemma {:induction false} SplitJoin(ws: seq<string>)
    requires AreWords(ws)
    ensures Split(Join(ws)) == ws
  {
    if ws == [] {
    } else if |ws| == 1 {
      SplitWordFirst(ws[0], []);
      assert ws[0] + [] == ws[0];
    } else {
      var w, rest := ws[0], Join(ws[1..]);
      WordsTail(ws);
      SplitJoin(ws[1..]);
      JoinCons(ws);
      SplitWordFirst(w, [' '] + rest);
      SplitSkipsSpace(' ', rest);
    }
  }

  lemma WordsTail(ws: seq<string>)
    requires AreWords(ws) && ws != []
    ensures ws[0] != [] && NoSpace(ws[0]) && AreWords(ws[1..])
    ensures [ws[0]] + ws[1..] == ws
  {
    forall i | 0 <= i < |ws[1..]| ensures ws[1..][i] != [] && NoSpace(ws[1..][i]) {
      assert ws[1..][i] == ws[i + 1];
    }
  }

  lemma JoinCons(ws: seq<string>)
    requires |ws| >= 2
    ensures Join(ws) == ws[0] + ([' '] + Join(ws[1..]))
  {
  }

  predicate IsDigit(c: char) {
    '0' <= c <= '9'
  }

  /**
   * The body of a Python decimal integer literal: ASCII digits, with single
   * underscores allowed between two digits.
   */
  predicate IsDecimal(w: string) {
    |w| > 0
    && DigitsOrUnderscores(w)
    && forall i :: 0 <= i < |w| ==>
         IsDigit(w[i]) || (w[i] == '_' && 0 < i && i + 1 < |w| && IsDigit(w[i + 1]))
  }

  predicate DigitsOrUnderscores(w: string) {
    forall i :: 0 <= i < |w| ==> IsDigit(w[i]) || w[i] == '_'
  }

  function DigitValue(c: char): nat
    requires IsDigit(c)
  {
    (c as int) - ('0' as int)
  }

  /** The value of a digit string, underscores skipped. */
  function DecimalValue(w: string): nat
    requires DigitsOrUnderscores(w)
  {
    if w == [] then 0
    else if w[|w| - 1] == '_' then DecimalValue(w[..|w| - 1])
    else 10 * DecimalValue(w[..|w| - 1]) + DigitValue(w[|w| - 1])
  }

  /**
   * `int(w)` for a token without whitespace; `None` where Python raises
   * ValueError. Only a word of digits and underscores, with an optional
   * leading sign, is read; its sign decides the sign of the value.
   */
  function ParseInt(w: string): (r: Option<int>)
    ensures r.Some? ==> w != [] && forall i :: 0 <= i < |w| ==>
              IsDigit(w[i]) || w[i] == '_' || (i == 0 && (w[0] == '-' || w[0] == '+'))
    ensures r.Some? && w[0] == '-' ==> r.value <= 0
    ensures r.Some? && w[0] != '-' ==> r.value >= 0
  {
    if |w| > 0 && (w[0] == '-' || w[0] == '+') then
      if IsDecimal(w[1..]) then
        var v: int := DecimalValue(w[1..]);
        Some(if w[0] == '-' then -v else v)
      else None
    else if IsDecimal(w) then Some(DecimalValue(w))
    else None
  }

  function DigitChar(d: nat): (c: char)
    requires d < 10
    ensures IsDigit(c) && DigitValue(c) == d
  {
    ('0' as int + d) as char
  }

  /** `str(n)` for a natural number. */
  function ShowNat(n: nat): (s: string)
    ensures |s| > 0
  {
    if n < 10 then [DigitChar(n)] else ShowNat(n / 10) + [DigitChar(n % 10)]
  }

  /** `str(i)` for an integer. */
  function ShowInt(i: int): string {
    if i < 0 then "-" + ShowNat(-i) else ShowNat(i)
  }

  lemma {:induction false} ShowNatIsDecimal(n: nat)
    ensures IsDecimal(ShowNat(n)) && IsDigit(ShowNat(n)[0])
    ensures DecimalValue(ShowNat(n)) == n
  {
    var s := ShowNat(n);
    if n >= 10 {
      ShowNatIsDecimal(n / 10);
      assert s[..|s| - 1] == ShowNat(n / 10);
    }
  }

  /** `int(str(i)) == i`. */
  lemma ParseShowInt(i: int)
    ensures ParseInt(ShowInt(i)) == Some(i)
  {
    if i < 0 {
      ShowNatIsDecimal(-i);
      assert ShowInt(i)[1..] == ShowNat(-i);
    } else {
      ShowNatIsDecimal(i);
    }
  }

  /** Everything from the first newline on is dropped. */
  lemma {:induction false} FirstLineOfLines(a: string, b: string)
    requires '\n' !in a
    ensures FirstLine(a + "\n" + b) == a
    decreases |a|
  {
    if a == [] {
      assert (a + "\n" + b)[0] == '\n';
    } else {
      assert (a + "\n" + b)[1..] == a[1..] + "\n" + b;
      FirstLineOfLines(a[1..], b);
      assert [a[0]] + a[1..] == a;
    }
  }

  lemma DeletePairAtStart(b: string)
    ensures DeleteSpaceNbsp([' ', NBSP] + b) == DeleteSpaceNbsp(b)
  {
    assert ([' ', NBSP] + b)[2..] == b;
  }

  lemma DeleteKeepsFirst(s: string)
    requires |s| >= 2 && !HasSpaceNbspAt(s, 0)
    ensures DeleteSpaceNbsp(s) == [s[0]] + DeleteSpaceNbsp(s[1..])
  {
  }

  lemma NoPairInTail(a: string)
    requires a != [] && forall i :: 0 <= i < |a| ==> !HasSpaceNbspAt(a, i)
    ensures forall i :: 0 <= i < |a[1..]| ==> !HasSpaceNbspAt(a[1..], i)
  {
    forall i | 0 <= i < |a[1..]| ensures !HasSpaceNbspAt(a[1..], i) {
      assert !HasSpaceNbspAt(a, i + 1);
    }
  }

  lemma ConsAppend(a: string, b: string)
    requires a != []
    ensures [a[0]] + (a[1..] + b) == a + b
  {
    assert [a[0]] + a[1..] == a;
  }

  /** A space and no-break space pair is deleted, the text before it kept as is. */
  lemma {:induction false} DeletePairAfter(a: string, b: string)
    requires forall i :: 0 <= i < |a| ==> !HasSpaceNbspAt(a, i)
    ensures DeleteSpaceNbsp(a + [' ', NBSP] + b) == a + DeleteSpaceNbsp(b)
    decreases |a|
  {
    if a == [] {
      DeletePairAtStart(b);
      assert a + [' ', NBSP] + b == [' ', NBSP] + b;
    } else {
      var s := a + [' ', NBSP] + b;
      var rest := a[1..] + [' ', NBSP] + b;
      assert s == [a[0]] + rest;
      assert !HasSpaceNbspAt(s, 0) by {
        assert |a| > 1 ==> !HasSpaceNbspAt(a, 0);
      }
      DeleteKeepsFirst(s);
      assert s[1..] == rest;
      NoPairInTail(a);
      DeletePairAfter(a[1..], b);
      ConsAppend(a, DeleteSpaceNbsp(b));
    }
  }


}
