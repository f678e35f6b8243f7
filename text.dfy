/**
 * The text a document holds, as the editor's components see it.
 *
 * A line is a sequence of grapheme clusters. Segmentation, display width and
 * grapheme category come from Unicode engines outside the editor, so each
 * grapheme carries them as data: the model never recomputes them.
 * A document is a non-empty sequence of lines, each followed by a line feed.
 */
module Text {
  import opened Base

  /** The editor modes (src/editor.rs). */
  datatype Mode = Normal | Insert | Replace | Select

  /** The category of a grapheme, decided by its first character. */
  datatype Category = Whitespace | Word | Punctuation | Other

  /** A grapheme cluster: its UTF-8 bytes, its display width and its category. */
  datatype Grapheme = Grapheme(bytes: seq<Byte>, width: nat, category: Category)

  type Line = seq<Grapheme>

  /** The bytes of a line, without its line ending. */
  function LineBytes(l: Line): seq<Byte>
  {
    if l == [] then [] else l[0].bytes + LineBytes(l[1..])
  }

  /** The display width of a line: the sum of its graphemes' widths. */
  function Width(l: Line): nat
  {
    if l == [] then 0 else l[0].width + Width(l[1..])
  }

  /** The column at which grapheme `i` of a line starts. */
  function ColumnOf(l: Line, i: nat): nat
    requires i <= |l|
  {
    Width(l[..i])
  }

  /** The byte offset, within its line, at which grapheme `i` starts. */
  function OffsetOf(l: Line, i: nat): nat
    requires i <= |l|
  {
    |LineBytes(l[..i])|
  }

  /** The bytes of a document whose every line ends with a line feed. */
  function DocBytes(doc: seq<Line>): seq<Byte>
  {
    if doc == [] then [] else LineBytes(doc[0]) + [NEWLINE] + DocBytes(doc[1..])
  }

  /** `byte_of_line`: the offset of the first byte of line `y`. */
  function ByteOfLine(doc: seq<Line>, y: nat): nat
    requires y <= |doc|
  {
    |DocBytes(doc[..y])|
  }

  lemma {:induction false} LineBytesAppend(a: Line, b: Line)
    ensures LineBytes(a + b) == LineBytes(a) + LineBytes(b)
  {
    if a == [] {
      assert a + b == b;
    } else {
      assert (a + b)[1..] == a[1..] + b;
      LineBytesAppend(a[1..], b);
    }
  }

  lemma {:induction false} WidthAppend(a: Line, b: Line)
    ensures Width(a + b) == Width(a) + Width(b)
  {
    if a == [] {
      assert a + b == b;
    } else {
      assert (a + b)[1..] == a[1..] + b;
      WidthAppend(a[1..], b);
    }
  }

  lemma {:induction false} DocBytesAppend(a: seq<Line>, b: seq<Line>)
    ensures DocBytes(a + b) == DocBytes(a) + DocBytes(b)
  {
    if a == [] {
      assert a + b == b;
    } else {
      assert (a + b)[1..] == a[1..] + b;
      DocBytesAppend(a[1..], b);
    }
  }

  /** Stepping over grapheme `i` advances the column by its width and the offset by its size. */
  lemma {:induction false} ColumnOffsetStep(l: Line, i: nat)
    requires i < |l|
    ensures ColumnOf(l, i + 1) == ColumnOf(l, i) + l[i].width
    ensures OffsetOf(l, i + 1) == OffsetOf(l, i) + |l[i].bytes|
    ensures LineBytes(l[..i + 1]) == LineBytes(l[..i]) + l[i].bytes
  {
    assert l[..i + 1] == l[..i] + [l[i]];
    WidthAppend(l[..i], [l[i]]);
    LineBytesAppend(l[..i], [l[i]]);
  }

  /** Line `y` sits in the document bytes right after `ByteOfLine(doc, y)`. */
  lemma {:induction false} LineInDoc(doc: seq<Line>, y: nat)
    requires y < |doc|
    ensures ByteOfLine(doc, y + 1) == ByteOfLine(doc, y) + |LineBytes(doc[y])| + 1
    ensures ByteOfLine(doc, y + 1) <= |DocBytes(doc)|
    ensures DocBytes(doc)[ByteOfLine(doc, y)..ByteOfLine(doc, y) + |LineBytes(doc[y])|] == LineBytes(doc[y])
    ensures DocBytes(doc)[ByteOfLine(doc, y + 1) - 1] == NEWLINE
  {
    assert doc[..y + 1] == doc[..y] + [doc[y]];
    DocBytesAppend(doc[..y], [doc[y]]);
    assert DocBytes([doc[y]]) == LineBytes(doc[y]) + [NEWLINE] + DocBytes([]);
    assert doc == doc[..y + 1] + doc[y + 1..];
    DocBytesAppend(doc[..y + 1], doc[y + 1..]);
  }

  /** Every grapheme of the line takes at least one column. */
  predicate PositiveWidths(l: Line)
  {
    forall i :: 0 <= i < |l| ==> l[i].width > 0
  }

  /** Columns grow along the line, and the column after the last grapheme is the width. */
  lemma {:induction false} ColumnMono(l: Line, i: nat, j: nat)
    requires i <= j <= |l|
    ensures ColumnOf(l, i) <= ColumnOf(l, j) <= Width(l)
    decreases |l| - i
  {
    assert l[..|l|] == l;
    if i < j {
      ColumnOffsetStep(l, i);
      ColumnMono(l, i + 1, j);
    } else if j < |l| {
      ColumnOffsetStep(l, j);
      ColumnMono(l, j + 1, |l|);
    }
  }

  /** Offsets grow along the line, and the offset after the last grapheme is the line's size. */
  lemma {:induction false} OffsetMono(l: Line, i: nat, j: nat)
    requires i <= j <= |l|
    ensures OffsetOf(l, i) <= OffsetOf(l, j) <= |LineBytes(l)|
    decreases |l| - i
  {
    assert l[..|l|] == l;
    if i < j {
      ColumnOffsetStep(l, i);
      OffsetMono(l, i + 1, j);
    } else if j < |l| {
      ColumnOffsetStep(l, j);
      OffsetMono(l, j + 1, |l|);
    }
  }

  /** `char::encode_utf8`: one to four bytes, a single byte exactly for ASCII. */
  function Utf8(c: char): (r: seq<Byte>)
    ensures 1 <= |r| <= 4
    ensures |r| == 1 <==> (c as int) < 0x80
    ensures r == [NEWLINE] <==> c == '\n'
  {
    var n := c as int;
    if n < 0x80 then [n]
    else if n < 0x800 then [0xC0 + n / 0x40, 0x80 + n % 0x40]
    else if n < 0x1_0000 then [0xE0 + n / 0x1000, 0x80 + n / 0x40 % 0x40, 0x80 + n % 0x40]
    else [0xF0 + n / 0x4_0000, 0x80 + n / 0x1000 % 0x40, 0x80 + n / 0x40 % 0x40, 0x80 + n % 0x40]
  }
}
