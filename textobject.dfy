/**
 * Words and text objects (`textobject.rs`). A line splits into words at
 * every change of grapheme category; a word records the columns of its
 * first and last graphemes and the byte range it spans.
 */
module TextObjects {
  import opened Base
  import opened Text
  import Keys

  /**
   * A word: graphemes `first..last` (inclusive) of its line, the columns at
   * which its first and last graphemes start, and its byte range. The
   * source keeps the word's text as a slice of the line; here it is
   * identified by its grapheme indices.
   */
  datatype Word = Word(first: nat, last: nat, start: nat, end: nat, startByte: nat, endByte: nat)

  /** The word made of graphemes `s..i` of the line. */
  function WordOf(l: Line, s: nat, i: nat): (w: Word)
    requires s <= i < |l|
    ensures w.first == s && w.last == i
  {
    Word.Word(s, i, ColumnOf(l, s), ColumnOf(l, i), OffsetOf(l, s), OffsetOf(l, i + 1))
  }

  /** The words from grapheme `i` on, the current word having started at grapheme `s`. */
  function WordsFrom(l: Line, s: nat, i: nat): seq<Word>
    requires s <= i <= |l|
    decreases |l| - i
  {
    if i == |l| then []
    else if i + 1 == |l| then [WordOf(l, s, i)]
    else if l[i].category != l[i + 1].category then [WordOf(l, s, i)] + WordsFrom(l, i + 1, i + 1)
    else WordsFrom(l, s, i + 1)
  }

  /** The words of a line, blank ones included. */
  function Words(l: Line): seq<Word>
  {
    WordsFrom(l, 0, 0)
  }

  /** `is_blank`: a word of whitespace graphemes. */
  predicate Blank(l: Line, w: Word)
  {
    w.first < |l| && l[w.first].category == Whitespace
  }

  function NonBlank(l: Line, words: seq<Word>): (r: seq<Word>)
    ensures |r| <= |words|
    ensures forall k :: 0 <= k < |r| ==> r[k] in words && !Blank(l, r[k])
    ensures forall w :: w in words && !Blank(l, w) ==> w in r
    decreases |words|
  {
    if words == [] then []
    else if Blank(l, words[0]) then NonBlank(l, words[1..])
    else [words[0]] + NonBlank(l, words[1..])
  }

  /** The graphemes `s..i` share one category. */
  predicate SameCategory(l: Line, s: nat, i: nat)
    requires s <= i < |l|
  {
    forall j :: s <= j <= i ==> l[j].category == l[s].category
  }

  /** A word sits in the line: its indices are in range, its fields agree with them, and its graphemes share one category. */
  predicate WellPlaced(l: Line, w: Word)
  {
    w.first <= w.last < |l| && w == WordOf(l, w.first, w.last) && SameCategory(l, w.first, w.last)
  }

  /** Word `b` starts right after word `a`, at a change of category. */
  predicate Follows(l: Line, a: Word, b: Word)
  {
    b.first == a.last + 1 && b.first < |l| && l[a.last].category != l[b.first].category
  }

  /**
   * The words tile graphemes `s..|l|-1` in order: each word is one category,
   * and neighbouring words differ in category.
   */
  predicate Tiles(l: Line, words: seq<Word>, s: nat)
  {
    && (|words| == 0 <==> s == |l|)
    && (|words| > 0 ==> words[0].first == s && words[|words| - 1].last + 1 == |l|)
    && (forall k :: 0 <= k < |words| ==> WellPlaced(l, words[k]))
    && (forall k :: 0 < k < |words| ==> Follows(l, words[k - 1], words[k]))
  }

  lemma {:induction false} TilesCons(l: Line, w: Word, rest: seq<Word>)
    requires WellPlaced(l, w) && Tiles(l, rest, w.last + 1)
    requires rest != [] ==> Follows(l, w, rest[0])
    ensures Tiles(l, [w] + rest, w.first)
  {
    var ws := [w] + rest;
    assert forall k :: 0 < k < |ws| ==> ws[k] == rest[k - 1];
  }

  lemma {:induction false} WordsFromTile(l: Line, s: nat, i: nat)
    requires s <= i < |l| && SameCategory(l, s, i)
    ensures Tiles(l, WordsFrom(l, s, i), s)
    decreases |l| - i
  {
    var w := WordOf(l, s, i);
    assert WellPlaced(l, w);
    if i + 1 == |l| {
      assert WordsFrom(l, s, i) == [w] + [];
      TilesCons(l, w, []);
    } else if l[i].category != l[i + 1].category {
      var rest := WordsFrom(l, i + 1, i + 1);
      WordsFromTile(l, i + 1, i + 1);
      TilesCons(l, w, rest);
    } else {
      SameCategoryGrows(l, s, i);
      WordsFromTile(l, s, i + 1);
    }
  }

  /** A run of one category extends over a next grapheme of that category. */
  lemma {:induction false} SameCategoryGrows(l: Line, s: nat, i: nat)
    requires s <= i && i + 1 < |l| && SameCategory(l, s, i) && l[i].category == l[i + 1].category
    ensures SameCategory(l, s, i + 1)
  {
  }

  /**
   * `words_of_line` splits the line exactly where neighbouring graphemes
   * differ in category: the words cover every grapheme in order, each word is
   * one category and neighbouring words differ. An empty line has no words.
   */
  lemma {:induction false} WordsTile(l: Line)
    ensures Tiles(l, Words(l), 0)
  {
    if l != [] {
      WordsFromTile(l, 0, 0);
    }
  }

  /**
   * Words are contiguous in bytes: the first starts at byte 0, each starts
   * where the previous one ends and the last ends with the line.
   */
  lemma {:induction false} WordsContiguous(l: Line)
    requires l != []
    ensures var ws := Words(l);
      && |ws| >= 1 && ws[0].startByte == 0
      && (forall k :: 0 < k < |ws| ==> ws[k].startByte == ws[k - 1].endByte)
      && ws[|ws| - 1].endByte == |LineBytes(l)|
  {
    WordsTile(l);
    assert l[..0] == [];
    assert l[..|l|] == l;
  }

  /** `words_of_line`: scans the line once, pushing a word at each category change and at the end. */
  method WordsOfLine(l: Line, excludeBlankWords: bool) returns (words: seq<Word>)
    ensures words == if excludeBlankWords then NonBlank(l, Words(l)) else Words(l)
  {
    var offset := 0;
    var startByte := 0;
    var col := 0;
    var start := 0;
    var s := 0;
    words := [];
    var i := 0;
    assert l[..0] == [];
    while i < |l|
      invariant s <= i <= |l|
      invariant words + WordsFrom(l, s, i) == Words(l)
      invariant col == ColumnOf(l, i) && offset == OffsetOf(l, i)
      invariant start == ColumnOf(l, s) && startByte == OffsetOf(l, s)
    {
      var width := l[i].width;
      var size := |l[i].bytes|;
      ColumnOffsetStep(l, i);
      if i + 1 < |l| {
        if l[i].category != l[i + 1].category {
          var w := Word.Word(s, i, start, col, startByte, offset + size);
          assert w == WordOf(l, s, i);
          words := words + [w];
          start := col + width;
          startByte := offset + size;
          s := i + 1;
        }
      } else {
        var w := Word.Word(s, i, start, col, startByte, offset + size);
        assert w == WordOf(l, s, i);
        words := words + [w];
        assert words == Words(l);
        i := i + 1;
        break;
      }
      col := col + width;
      offset := offset + size;
      i := i + 1;
    }
    assert words + [] == words;
    if excludeBlankWords {
      words := FilterBlank(l, words);
    }
  }

  /** The filter of `words_of_line`: drops the blank words. */
  method FilterBlank(l: Line, words: seq<Word>) returns (kept: seq<Word>)
    ensures kept == NonBlank(l, words)
  {
    kept := [];
    var i := |words|;
    while i > 0
      invariant 0 <= i <= |words|
      invariant kept == NonBlank(l, words[i..])
    {
      i := i - 1;
      assert words[i..][1..] == words[i + 1..];
      if !(words[i].first < |l| && l[words[i].first].category == Whitespace) {
        kept := [words[i]] + kept;
      }
    }
  }

  /** `Word::contains`: the column lies between the word's first and last grapheme starts, both included. */
  predicate Contains(w: Word, col: nat)
  {
    w.start <= col <= w.end
  }

  datatype TextObject = WordObject | LongWord

  /** `TextObject::try_from`: `w` is a word, `W` a long word, and every other key is an error. */
  function TryFrom(code: Keys.KeyCode): (r: Option<TextObject>)
    ensures r == Some(WordObject) <==> code == Keys.Char('w')
    ensures r == Some(LongWord) <==> code == Keys.Char('W')
    ensures r.None? <==> code != Keys.Char('w') && code != Keys.Char('W')
  {
    match code
    case Char(c) => if c == 'w' then Some(WordObject) else if c == 'W' then Some(LongWord) else None
    case _ => None
  }

  /** `TextObject::word`: the first word containing the column; None where the source's unwrap would panic. */
  function WordAt(l: Line, x: nat): (r: Option<Word>)
    ensures r.Some? ==> r.value in Words(l) && Contains(r.value, x)
    ensures r.None? <==> forall k :: 0 <= k < |Words(l)| ==> !Contains(Words(l)[k], x)
  {
    FirstContaining(Words(l), x)
  }

  function FirstContaining(words: seq<Word>, x: nat): (r: Option<Word>)
    ensures r.Some? ==> r.value in words && Contains(r.value, x)
    ensures r.None? <==> forall k :: 0 <= k < |words| ==> !Contains(words[k], x)
    decreases |words|
  {
    if words == [] then None
    else if Contains(words[0], x) then Some(words[0])
    else
      var r := FirstContaining(words[1..], x);
      assert forall k :: 1 <= k < |words| ==> words[k] == words[1..][k - 1];
      r
  }

  /** On an empty line no word contains the cursor, so the text object lookup finds nothing. */
  lemma {:induction false} EmptyLineHasNoWord(x: nat)
    ensures WordAt([], x).None?
  {
  }
}
