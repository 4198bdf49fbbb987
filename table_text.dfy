/**
 * The two text exports of the generic record table: the clipboard copy (one
 * line per record, `label: value` pieces joined by " | ") and the WhatsApp
 * message (a title line, then one numbered block per record with one
 * bulleted line per column). A record is a string-keyed object rendered
 * through a template literal, so a record is a map from column key to its
 * rendered text and a key it lacks renders as "undefined".
 */
module TableText {
  import opened Records
  import opened Seqs
  import opened Strings

  /** A column of the table: the record key it shows and its header text. */
  datatype Column = Column(key: string, header: string)

  /** A record, by column key, with each value already rendered as text. */
  type Row = map<string, string>

  /** `${row[key]}`: the value's text, or "undefined" when the record lacks the key. */
  function Cell(row: Row, key: string): (r: string)
    ensures key in row ==> r == row[key]
    ensures key !in row ==> r == "undefined"
  {
    if key in row then row[key] else "undefined"
  }

  /** One `label: value` piece of a copied line. */
  function Piece(col: Column, row: Row): string
  {
    col.header + ": " + Cell(row, col.key)
  }

  /** One copied line: the record's pieces, column by column, joined by " | ". */
  function RowLine(cols: seq<Column>, row: Row): string
  {
    Join(seq(|cols|, j requires 0 <= j < |cols| => Piece(cols[j], row)), " | ")
  }

  /** The copied lines, one per record in table order. */
  function RowLines(cols: seq<Column>, data: seq<Row>): (r: seq<string>)
    ensures |r| == |data|
    ensures forall i :: 0 <= i < |data| ==> r[i] == RowLine(cols, data[i])
  {
    seq(|data|, i requires 0 <= i < |data| => RowLine(cols, data[i]))
  }

  /** `handleCopyToClipboard`'s text: the copied lines joined by newlines. */
  function CopyText(cols: seq<Column>, data: seq<Row>): string
  {
    Join(RowLines(cols, data), "\n")
  }

  /** No label and no rendered value holds a line break. */
  predicate SingleLine(cols: seq<Column>, data: seq<Row>)
  {
    && (forall j :: 0 <= j < |cols| ==> '\n' !in cols[j].header && '\n' !in cols[j].key)
    && (forall i, k :: 0 <= i < |data| && k in data[i] ==> '\n' !in data[i][k])
  }

  lemma PieceSingleLine(cols: seq<Column>, data: seq<Row>, i: nat, j: nat)
    requires SingleLine(cols, data) && i < |data| && j < |cols|
    ensures '\n' !in Piece(cols[j], data[i])
  {
    assert '\n' !in ": " && '\n' !in "undefined";
  }

  lemma {:induction false} RowLineSingleLine(cols: seq<Column>, data: seq<Row>, i: nat)
    requires SingleLine(cols, data) && i < |data|
    ensures '\n' !in RowLine(cols, data[i])
  {
    var pieces := seq(|cols|, j requires 0 <= j < |cols| => Piece(cols[j], data[i]));
    forall j | 0 <= j < |pieces| ensures '\n' !in pieces[j] {
      PieceSingleLine(cols, data, i, j);
    }
    JoinAvoids(pieces, " | ", '\n');
  }

  /** The copied text splits back into one line per record, each that record's pieces. */
  lemma CopyTextLines(cols: seq<Column>, data: seq<Row>)
    requires SingleLine(cols, data) && data != []
    ensures Split(CopyText(cols, data), '\n') == RowLines(cols, data)
  {
    forall i | 0 <= i < |data| ensures '\n' !in RowLines(cols, data)[i] {
      RowLineSingleLine(cols, data, i);
    }
    SplitJoin(RowLines(cols, data), '\n');
  }

  /** With no records the copied text is empty. */
  lemma CopyTextEmpty(cols: seq<Column>)
    ensures CopyText(cols, []) == ""
  {
  }

  /** The records the message reports: the one passed, else the whole table. */
  function Targets(data: seq<Row>, item: Option<Row>): (r: seq<Row>)
    ensures item.Some? ==> r == [item.value]
    ensures item.None? ==> r == data
  {
    if item.Some? then [item.value] else data
  }

  /** The message's title line. */
  function TitleLine(title: string): string
  {
    "*\U{1F4CB} تقرير: " + title + "*"
  }

  /** The heading line of the `n`-th block. */
  function BlockHeading(n: nat): string
  {
    "\U{1F539} *بند " + NatToString(n) + ":*"
  }

  /** The bulleted line of one column of a record. */
  function ItemLine(col: Column, row: Row): string
  {
    "\U{25AA}\U{FE0F} " + col.header + ": " + Cell(row, col.key)
  }

  /** A record's bulleted lines, column by column. */
  function ItemLines(cols: seq<Column>, row: Row): (r: seq<string>)
    ensures |r| == |cols|
    ensures forall j :: 0 <= j < |cols| ==> r[j] == ItemLine(cols[j], row)
  {
    seq(|cols|, j requires 0 <= j < |cols| => ItemLine(cols[j], row))
  }

  /** The block of the `n`-th record: its heading, its column lines and a blank line. */
  function Block(n: nat, cols: seq<Column>, row: Row): seq<string>
  {
    [BlockHeading(n)] + ItemLines(cols, row) + [""]
  }

  /** The blocks of the records, numbered from 1. */
  function Blocks(rows: seq<Row>, cols: seq<Column>): seq<string>
  {
    if rows == [] then [] else Blocks(Front(rows), cols) + Block(|rows|, cols, Last(rows))
  }

  /** The message, line by line: the title, a blank line, then the blocks. */
  function ShareLines(title: string, cols: seq<Column>, rows: seq<Row>): seq<string>
  {
    [TitleLine(title), ""] + Blocks(rows, cols)
  }

  /** Lines each followed by a line break, as the message text is built. */
  function Unlines(ls: seq<string>): string
  {
    if ls == [] then "" else ls[0] + "\n" + Unlines(ls[1..])
  }

  lemma {:induction false} UnlinesConcat(a: seq<string>, b: seq<string>)
    ensures Unlines(a + b) == Unlines(a) + Unlines(b)
  {
    if a != [] {
      UnlinesConcat(a[1..], b);
      assert (a + b)[1..] == a[1..] + b;
    } else {
      assert a + b == b;
    }
  }

  /** Appending one line adds it and a line break to the text. */
  lemma UnlinesSnoc(a: seq<string>, l: string)
    ensures Unlines(a + [l]) == Unlines(a) + l + "\n"
  {
    UnlinesConcat(a, [l]);
  }

  /** Each block has a heading, one line per column and a blank line. */
  lemma {:induction false} BlocksLength(rows: seq<Row>, cols: seq<Column>)
    ensures |Blocks(rows, cols)| == |rows| * (|cols| + 2)
  {
    if rows != [] {
      BlocksLength(Front(rows), cols);
      var k, c := |Front(rows)|, |cols| + 2;
      assert |Block(|rows|, cols, Last(rows))| == c;
      assert (k + 1) * c == k * c + c;
    }
  }

  /** The message has the title, a blank line and `|cols| + 2` lines per reported record. */
  lemma ShareLinesCount(title: string, cols: seq<Column>, rows: seq<Row>)
    ensures |ShareLines(title, cols, rows)| == 2 + |rows| * (|cols| + 2)
  {
    BlocksLength(rows, cols);
  }

  /** The `i`-th block of the message, counted from 0, is the block of the `i`-th record, numbered `i + 1`. */
  lemma {:induction false} BlockAt(rows: seq<Row>, cols: seq<Column>, i: nat)
    requires i < |rows|
    ensures var c := |cols| + 2;
      (i + 1) * c <= |Blocks(rows, cols)| && Blocks(rows, cols)[i * c..(i + 1) * c] == Block(i + 1, cols, rows[i])
  {
    var c := |cols| + 2;
    var front := Front(rows);
    BlocksLength(front, cols);
    BlocksLength(rows, cols);
    var whole := Blocks(rows, cols);
    assert whole == Blocks(front, cols) + Block(|rows|, cols, Last(rows));
    if i == |rows| - 1 {
      assert |Blocks(front, cols)| == i * c;
      assert (i + 1) * c == i * c + c;
    } else {
      BlockAt(front, cols, i);
      assert (i + 1) * c <= |front| * c by {
        assert i + 1 <= |front|;
      }
      assert whole[i * c..(i + 1) * c] == Blocks(front, cols)[i * c..(i + 1) * c];
    }
  }

  /** Sharing a single record gives one block, numbered 1, after the title. */
  lemma ShareOneItem(title: string, cols: seq<Column>, data: seq<Row>, item: Row)
    ensures ShareLines(title, cols, Targets(data, Some(item))) == [TitleLine(title), ""] + Block(1, cols, item)
  {
    assert Front([item]) == [] && Last([item]) == item;
    assert Blocks([item], cols) == Block(1, cols, item);
  }

  /** Sharing an empty table gives only the title and the blank line. */
  lemma ShareEmptyTable(title: string, cols: seq<Column>)
    ensures ShareLines(title, cols, Targets([], None)) == [TitleLine(title), ""]
  {
  }

  /** Unlines is a join on line breaks with an empty last piece. */
  lemma {:induction false} UnlinesJoin(ls: seq<string>)
    ensures Unlines(ls) == Join(ls + [""], "\n")
  {
    if ls != [] {
      UnlinesJoin(ls[1..]);
      assert (ls + [""])[1..] == ls[1..] + [""];
    }
  }

  /** When no line holds a line break, the text splits back into its lines and a final empty piece. */
  lemma UnlinesSplit(ls: seq<string>)
    requires forall i :: 0 <= i < |ls| ==> '\n' !in ls[i]
    ensures Split(Unlines(ls), '\n') == ls + [""]
  {
    UnlinesJoin(ls);
    SplitJoin(ls + [""], '\n');
  }

  lemma ItemLineSingleLine(cols: seq<Column>, rows: seq<Row>, i: nat, j: nat)
    requires SingleLine(cols, rows) && i < |rows| && j < |cols|
    ensures '\n' !in ItemLine(cols[j], rows[i])
  {
    assert '\n' !in "\U{25AA}\U{FE0F} " && '\n' !in ": " && '\n' !in "undefined";
  }

  lemma {:induction false} BlocksSingleLine(cols: seq<Column>, rows: seq<Row>)
    requires SingleLine(cols, rows)
    ensures forall l :: l in Blocks(rows, cols) ==> '\n' !in l
  {
    if rows != [] {
      var front := Front(rows);
      assert SingleLine(cols, front) by {
        forall i, k | 0 <= i < |front| && k in front[i] ensures '\n' !in front[i][k] {
          assert front[i] == rows[i];
        }
      }
      BlocksSingleLine(cols, front);
      var n := |rows|;
      forall l | l in Block(n, cols, Last(rows)) ensures '\n' !in l {
        if l == BlockHeading(n) {
          assert '\n' !in "\U{1F539} *بند " && '\n' !in ":*";
          assert '\n' !in NatToString(n);
        } else if l != "" {
          var j :| 0 <= j < |cols| && l == ItemLine(cols[j], Last(rows));
          ItemLineSingleLine(cols, rows, n - 1, j);
        }
      }
    }
  }

  /** When the title, labels and values hold no line break, the message splits back into exactly its lines. */
  lemma ShareTextLines(title: string, cols: seq<Column>, rows: seq<Row>)
    requires '\n' !in title && SingleLine(cols, rows)
    ensures Split(Unlines(ShareLines(title, cols, rows)), '\n') == ShareLines(title, cols, rows) + [""]
  {
    BlocksSingleLine(cols, rows);
    assert '\n' !in "*\U{1F4CB} تقرير: " && '\n' !in "*";
    var ls := ShareLines(title, cols, rows);
    forall i | 0 <= i < |ls| ensures '\n' !in ls[i] {
      if i >= 2 {
        assert ls[i] in Blocks(rows, cols);
      }
    }
    UnlinesSplit(ls);
  }

  /**
   * `handleShareWhatsApp`'s text: the title line, then for each reported
   * record its numbered heading, one line per column and a blank line.
   */
  method ShareText(title: string, cols: seq<Column>, data: seq<Row>, item: Option<Row>) returns (text: string)
    ensures text == Unlines(ShareLines(title, cols, Targets(data, item)))
  {
    var rows := Targets(data, item);
    text := TitleLine(title) + "\n" + "\n";
    UnlinesPair(TitleLine(title), "");
    assert ShareLines(title, cols, rows[..0]) == [TitleLine(title), ""];
    for idx := 0 to |rows|
      invariant text == Unlines(ShareLines(title, cols, rows[..idx]))
    {
      var row := rows[idx];
      ghost var lines := ShareLines(title, cols, rows[..idx]) + [BlockHeading(idx + 1)];
      UnlinesSnoc(ShareLines(title, cols, rows[..idx]), BlockHeading(idx + 1));
      text := text + BlockHeading(idx + 1) + "\n";
      for j := 0 to |cols|
        invariant text == Unlines(lines)
        invariant lines == ShareLines(title, cols, rows[..idx]) + [BlockHeading(idx + 1)] + ItemLines(cols[..j], row)
      {
        UnlinesSnoc(lines, ItemLine(cols[j], row));
        ItemLinesStep(cols, row, j);
        lines := lines + [ItemLine(cols[j], row)];
        text := text + ItemLine(cols[j], row) + "\n";
      }
      UnlinesSnoc(lines, "");
      text := text + "\n";
      BlocksStep(title, rows, cols, idx);
      assert cols[..|cols|] == cols;
    }
    assert rows[..|rows|] == rows;
  }

  /** The title and the blank line that follows it. */
  lemma UnlinesPair(a: string, b: string)
    ensures Unlines([a, b]) == a + "\n" + b + "\n"
  {
    assert [a, b][1..] == [b];
    assert [b][1..] == [];
    assert Unlines([b]) == b + "\n" + Unlines([]);
  }

  lemma ItemLinesStep(cols: seq<Column>, row: Row, j: nat)
    requires j < |cols|
    ensures ItemLines(cols[..j + 1], row) == ItemLines(cols[..j], row) + [ItemLine(cols[j], row)]
  {
  }

  /** One more record adds its block to the message. */
  lemma BlocksStep(title: string, rows: seq<Row>, cols: seq<Column>, idx: nat)
    requires idx < |rows|
    ensures ShareLines(title, cols, rows[..idx + 1])
      == ShareLines(title, cols, rows[..idx]) + [BlockHeading(idx + 1)] + ItemLines(cols, rows[idx]) + [""]
  {
    assert Front(rows[..idx + 1]) == rows[..idx] && Last(rows[..idx + 1]) == rows[idx];
  }
}
