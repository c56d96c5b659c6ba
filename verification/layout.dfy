/** `TryFrom<String> for Minesweeper`: builds a board from a text picture in which
    every `'B'` is a mine. */
module Layout {
  import opened RustStr
  import opened Board

  datatype Result<T, E> = Ok(value: T) | Err(error: E)

  const RowLengthError: string := "all rows must have the same length"

  /** `map(|l| l.trim())` over a sequence of lines. */
  function TrimAll(ls: seq<string>): (ts: seq<string>)
    ensures |ts| == |ls|
    ensures forall k :: 0 <= k < |ls| ==> ts[k] == Trim(ls[k])
  {
    if ls == [] then [] else [Trim(ls[0])] + TrimAll(ls[1..])
  }

  /** `filter(|&l| l != "")`: the non-empty lines, in order. */
  function NonEmpty(ts: seq<string>): (rows: seq<string>)
    ensures |rows| <= |ts|
    ensures forall i :: 0 <= i < |rows| ==> rows[i] != []
    ensures rows == [] <==> forall k :: 0 <= k < |ts| ==> ts[k] == []
    ensures forall l :: l in rows <==> l in ts && l != []
  {
    if ts == [] then []
    else
      var rest := NonEmpty(ts[1..]);
      assert (forall k :: 0 <= k < |ts| ==> ts[k] == [])
         <==> ts[0] == [] && forall k :: 0 <= k < |ts[1..]| ==> ts[1..][k] == [] by {
        if ts[0] == [] && forall k :: 0 <= k < |ts[1..]| ==> ts[1..][k] == [] {
          forall k | 1 <= k < |ts| ensures ts[k] == [] { assert ts[k] == ts[1..][k - 1]; }
        }
      }
      if ts[0] == [] then rest
      else
        assert forall i :: 0 <= i < |[ts[0]] + rest| ==> ([ts[0]] + rest)[i] != [] by {
          forall i | 0 <= i < |[ts[0]] + rest| ensures ([ts[0]] + rest)[i] != [] {
            if i > 0 { assert ([ts[0]] + rest)[i] == rest[i - 1]; }
          }
        }
        [ts[0]] + rest
  }

  /** `map(|l| l.trim()).filter(|&l| l != "")`: every surviving row is non-empty, and no
      row survives exactly when every line trims to nothing. */
  function NonBlankTrimmed(ls: seq<string>): (rows: seq<string>)
    ensures |rows| <= |ls|
    ensures forall i :: 0 <= i < |rows| ==> rows[i] != []
    ensures rows == [] <==> forall k :: 0 <= k < |ls| ==> Trim(ls[k]) == []
  {
    NonEmpty(TrimAll(ls))
  }

  /** The rows the parser reads: the layout's lines, trimmed, blank ones dropped
      wherever they stand. */
  function Rows(layout: string): seq<string> {
    NonBlankTrimmed(Lines(layout))
  }

  /** Every surviving row has the byte length of the first one. */
  predicate SameLength(rows: seq<string>) {
    forall i :: 0 <= i < |rows| ==> ByteLen(rows[i]) == ByteLen(rows[0])
  }

  /** Width of a parsed board: byte length of the first row, or 0 without rows. */
  function FirstWidth(rows: seq<string>): nat {
    if rows == [] then 0 else ByteLen(rows[0])
  }

  /** The mine at (i, j) for each `'B'` that is character j of row i. */
  function MineCells(rows: seq<string>): set<Position> {
    set i, j | 0 <= i < |rows| && 0 <= j < |rows[i]| && rows[i][j] == 'B' :: (i, j)
  }

  /** Mines of the rows before row n. */
  function MineCellsBefore(rows: seq<string>, n: nat): (m: set<Position>)
    requires n <= |rows|
  {
    set i, j | 0 <= i < n && 0 <= j < |rows[i]| && rows[i][j] == 'B' :: (i, j)
  }

  /** The inner loop `for (j, c) in l.chars().enumerate()` from character j on:
      inserts (i, j) for every `'B'`. */
  function RowMines(i: nat, l: string, j: nat): (m: set<Position>)
    requires j <= |l|
    ensures forall p :: p in m <==> p.0 == i && j <= p.1 < |l| && l[p.1] == 'B'
    decreases |l| - j
  {
    if j == |l| then {}
    else (if l[j] == 'B' then {(i, j)} else {}) + RowMines(i, l, j + 1)
  }

  /** The outer loop from surviving row `i` on, with the loop's variables `width`,
      `height` and `mines` as they stand when row `i` is reached. */
  function ParseFrom(rows: seq<string>, i: nat, width: nat, height: nat, mines: set<Position>)
    : (r: Result<Minesweeper, string>)
    requires i <= |rows|
    requires forall k :: 0 <= k < |rows| ==> rows[k] != []
    requires height == i
    requires i == 0 ==> width == 0
    requires i > 0 ==> width == ByteLen(rows[0]) && forall k :: 0 <= k < i ==> ByteLen(rows[k]) == width
    requires mines == MineCellsBefore(rows, i)
    ensures r.Err? <==> !SameLength(rows)
    ensures r.Err? ==> r.error == RowLengthError
    ensures r.Ok? ==> r.value == Minesweeper(FirstWidth(rows), |rows|, {}, MineCells(rows), {})
    decreases |rows| - i
  {
    if i == |rows| then
      assert MineCellsBefore(rows, i) == MineCells(rows);
      Ok(Minesweeper(width, height, {}, mines, {}))
    else
      var l := rows[i];
      var height' := height + 1;
      var mines' := mines + RowMines(i, l, 0);
      assert mines' == MineCellsBefore(rows, i + 1);
      if width == 0 then
        ParseFrom(rows, i + 1, ByteLen(l), height', mines')
      else if ByteLen(l) != width then
        Err(RowLengthError)
      else
        ParseFrom(rows, i + 1, width, height', mines')
  }

  /** `Minesweeper::try_from(layout)`. */
  function TryFrom(layout: string): (r: Result<Minesweeper, string>)
    ensures r.Err? <==> !SameLength(Rows(layout))
    ensures r.Err? ==> r.error == RowLengthError
    ensures r.Ok? ==> r.value == Minesweeper(FirstWidth(Rows(layout)), |Rows(layout)|, {}, MineCells(Rows(layout)), {})
  {
    ParseFrom(Rows(layout), 0, 0, 0, {})
  }

  /** A layout with nothing but whitespace parses to the empty 0 x 0 board. */
  lemma BlankLayoutIsEmptyBoard(layout: string)
    requires AllWhitespace(layout)
    ensures TryFrom(layout) == Ok(Minesweeper(0, 0, {}, {}, {}))
  {
    var ls := Lines(layout);
    LinesOfWhitespace(layout);
    forall k | 0 <= k < |ls| ensures Trim(ls[k]) == [] { TrimBlank(ls[k]); }
    assert Rows(layout) == [];
    assert MineCells([]) == {};
  }

  /** Every mine of a parsed board lies on it: row below `height`, column below
      `width`, since a row's character count never exceeds its byte length. */
  lemma ParsedMinesOnBoard(layout: string)
    ensures TryFrom(layout).Ok? ==> forall p :: p in TryFrom(layout).value.mines ==>
      p.0 < TryFrom(layout).value.height && p.1 < TryFrom(layout).value.width
  {
    var rows := Rows(layout);
    if SameLength(rows) {
      forall p | p in MineCells(rows) ensures p.0 < |rows| && p.1 < FirstWidth(rows) {
        assert ByteLen(rows[p.0]) == ByteLen(rows[0]);
      }
    }
  }

  /** `open` on a parsed board answers `Mine` exactly at the `'B'` characters. */
  lemma OpenParsedBoard(layout: string, pos: Position)
    ensures var rows := Rows(layout);
      TryFrom(layout).Ok? ==>
        (Open(TryFrom(layout).value, pos) == Mine
         <==> pos.0 < |rows| && pos.1 < |rows[pos.0]| && rows[pos.0][pos.1] == 'B')
  {
    var rows := Rows(layout);
    if SameLength(rows) {
      assert TryFrom(layout).value.mines == MineCells(rows);
    }
  }

  /** Indentation as the source's tests use it: whitespace within one line. */
  predicate Indent(pad: string) {
    AllWhitespace(pad) && '\n' !in pad
  }

  /** A row as a picture writes it: one line that starts and ends with a non-space. */
  predicate Word(l: string) {
    l != [] && '\n' !in l && !IsWhitespace(l[0]) && !IsWhitespace(l[|l| - 1])
  }

  /** Each row with `pad` in front. */
  function Indented(pad: string, rows: seq<string>): (ls: seq<string>)
    ensures |ls| == |rows|
    ensures forall i :: 0 <= i < |rows| ==> ls[i] == pad + rows[i]
  {
    if rows == [] then [] else [pad + rows[0]] + Indented(pad, rows[1..])
  }

  /** A layout as the source's tests write one: a line feed, then each row indented by
      `pad` and ended by a line feed, then `pad` once more. */
  function Picture(pad: string, rows: seq<string>): string {
    "\n" + Unlines(Indented(pad, rows)) + pad
  }

  lemma IndentedLine(pad: string, l: string)
    requires Indent(pad) && Word(l)
    ensures PlainLine(pad + l)
    ensures Trim(pad + l) == l
  {
    var s := pad + l;
    assert '\n' !in s by {
      forall k | 0 <= k < |s| ensures s[k] != '\n' {
        if k < |pad| { assert s[k] == pad[k]; } else { assert s[k] == l[k - |pad|]; }
      }
    }
    assert s[|s| - 1] == l[|l| - 1];
    assert s + [] == s;
    TrimPadded(pad, l, []);
  }

  lemma {:induction false} NonEmptyAppend(ts: seq<string>, more: seq<string>)
    ensures NonEmpty(ts + more) == NonEmpty(ts) + NonEmpty(more)
  {
    if ts == [] {
      assert ts + more == more;
    } else {
      assert (ts + more)[0] == ts[0];
      assert (ts + more)[1..] == ts[1..] + more;
      NonEmptyAppend(ts[1..], more);
    }
  }

  /** Filtering keeps a sequence of non-empty lines as it is. */
  lemma {:induction false} NonEmptyKeepsAll(ts: seq<string>)
    requires forall i :: 0 <= i < |ts| ==> ts[i] != []
    ensures NonEmpty(ts) == ts
  {
    if ts != [] {
      var tail := ts[1..];
      assert forall i :: 0 <= i < |tail| ==> tail[i] != [] by {
        forall i | 0 <= i < |tail| ensures tail[i] != [] { assert tail[i] == ts[i + 1]; }
      }
      NonEmptyKeepsAll(tail);
      assert ts == [ts[0]] + tail;
    }
  }

  /** Trimming and dropping blank lines works line by line. */
  lemma NonBlankTrimmedAppend(ls: seq<string>, more: seq<string>)
    ensures NonBlankTrimmed(ls + more) == NonBlankTrimmed(ls) + NonBlankTrimmed(more)
  {
    TrimAllAppend(ls, more);
    NonEmptyAppend(TrimAll(ls), TrimAll(more));
  }

  lemma {:induction false} TrimAllAppend(ls: seq<string>, more: seq<string>)
    ensures TrimAll(ls + more) == TrimAll(ls) + TrimAll(more)
  {
    if ls == [] {
      assert ls + more == more;
    } else {
      assert (ls + more)[0] == ls[0];
      assert (ls + more)[1..] == ls[1..] + more;
      TrimAllAppend(ls[1..], more);
    }
  }

  lemma NonBlankIndented(pad: string, rows: seq<string>)
    requires Indent(pad)
    requires forall i :: 0 <= i < |rows| ==> Word(rows[i])
    ensures NonBlankTrimmed(Indented(pad, rows)) == rows
  {
    var ls := Indented(pad, rows);
    forall i | 0 <= i < |rows| ensures TrimAll(ls)[i] == rows[i] {
      IndentedLine(pad, rows[i]);
    }
    assert TrimAll(ls) == rows;
    NonEmptyKeepsAll(rows);
  }

  /** Every indented row is a line of its own: no line feed, no carriage return at its end. */
  lemma IndentedLines(pad: string, rows: seq<string>)
    requires Indent(pad)
    requires forall i :: 0 <= i < |rows| ==> Word(rows[i])
    ensures forall i :: 0 <= i < |rows| ==> PlainLine(Indented(pad, rows)[i])
  {
    forall i | 0 <= i < |rows| ensures PlainLine(Indented(pad, rows)[i]) {
      IndentedLine(pad, rows[i]);
    }
  }

  /** The parser gives back exactly the rows of a picture, whatever its indentation. */
  lemma PictureRows(pad: string, rows: seq<string>)
    requires Indent(pad)
    requires forall i :: 0 <= i < |rows| ==> Word(rows[i])
    ensures Rows(Picture(pad, rows)) == rows
  {
    var ind := Indented(pad, rows);
    var ls := [""] + ind;
    assert Unlines(ls) == "" + "\n" + Unlines(ind) by { assert ls[1..] == ind; }
    assert Picture(pad, rows) == Unlines(ls) + pad;
    IndentedLines(pad, rows);
    assert forall i :: 0 <= i < |ls| ==> PlainLine(ls[i]) by {
      forall i | 0 <= i < |ls| ensures PlainLine(ls[i]) {
        if i > 0 { assert ls[i] == ind[i - 1]; }
      }
    }
    UnlinesRoundTrip(ls, pad);
    var last := Lines(pad);
    assert last == [] || last == [pad];
    assert NonBlankTrimmed(last) == [] by {
      TrimBlank(pad);
      if last != [] { assert last[1..] == []; }
    }
    assert NonBlankTrimmed([""]) == [] by { assert Trim("") == []; }
    NonBlankTrimmedAppend([""] + ind, last);
    NonBlankTrimmedAppend([""], ind);
    NonBlankIndented(pad, rows);
  }

  /** The rows of the source's tests have no blanks inside them. */
  lemma TestRowsAreWords(rows: seq<string>)
    requires forall i :: 0 <= i < |rows| ==> rows[i] != [] && forall c :: c in rows[i] ==> c == '#' || c == 'B'
    ensures forall i :: 0 <= i < |rows| ==> Word(rows[i])
  {
    forall i | 0 <= i < |rows| ensures Word(rows[i]) {
      assert rows[i][0] in rows[i];
      assert rows[i][|rows[i]| - 1] in rows[i];
    }
  }

  /** The source's first test, for any indentation: a 5-wide, 3-high picture framed
      by blank lines, with four mines. */
  lemma TryFromPicture(pad: string)
    requires Indent(pad)
    ensures TryFrom(Picture(pad, ["##BB#", "B####", "####B"]))
         == Ok(Minesweeper(5, 3, {}, {(0, 2), (0, 3), (1, 0), (2, 4)}, {}))
  {
    var rows := ["##BB#", "B####", "####B"];
    TestRowsAreWords(rows);
    PictureRows(pad, rows);
    PictureBoard(rows);
  }

  lemma PictureBoard(rows: seq<string>)
    requires rows == ["##BB#", "B####", "####B"]
    ensures SameLength(rows) && FirstWidth(rows) == 5 && |rows| == 3
    ensures MineCells(rows) == {(0, 2), (0, 3), (1, 0), (2, 4)}
  {
    PictureWidths(rows);
    PictureMines(rows);
  }

  lemma PictureWidths(rows: seq<string>)
    requires rows == ["##BB#", "B####", "####B"]
    ensures ByteLen(rows[0]) == 5 && ByteLen(rows[1]) == 5 && ByteLen(rows[2]) == 5
  {
    AsciiByteLen(rows[0]);
    AsciiByteLen(rows[1]);
    AsciiByteLen(rows[2]);
  }

  lemma AsciiByteLen(l: string)
    requires forall c :: c in l ==> c == '#' || c == 'B'
    ensures ByteLen(l) == |l|
  {
    forall k | 0 <= k < |l| ensures l[k] as int < 0x80 { assert l[k] in l; }
  }

  lemma PictureMines(rows: seq<string>)
    requires rows == ["##BB#", "B####", "####B"]
    ensures MineCells(rows) == {(0, 2), (0, 3), (1, 0), (2, 4)}
  {
    forall p | p in MineCells(rows) ensures p in {(0, 2), (0, 3), (1, 0), (2, 4)} {
      var (i, j) := p;
      assert rows[i][j] == 'B';
    }
  }

  /** The source's second test, for any indentation: rows 6 and 4 bytes long are refused. */
  lemma TryFromUnevenRows(pad: string)
    requires Indent(pad)
    ensures TryFrom(Picture(pad, ["##BB##", "####"])) == Err(RowLengthError)
  {
    var rows := ["##BB##", "####"];
    TestRowsAreWords(rows);
    PictureRows(pad, rows);
    UnevenLengths(rows);
  }

  lemma UnevenLengths(rows: seq<string>)
    requires rows == ["##BB##", "####"]
    ensures !SameLength(rows)
  {
    assert ByteLen(rows[1]) == 4;
    assert ByteLen(rows[0]) == 6;
  }
}
