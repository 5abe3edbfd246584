/**
 * `parseLicenseTable` of webkit/index.tsx: turns the rows of Steam's
 * licence table into licence entries.
 */
module Licenses {
  import opened Wrappers
  import opened JsString

  /** A cell found in a row; `text` is its `textContent`. */
  datatype Cell = Cell(text: Option<string>)

  /**
   * A table row, reduced to what the parser looks up: the first descendant
   * with class `license_date_col`, the second child element, and the first
   * descendant with class `license_acquisition_col`; each may be missing.
   */
  datatype Row = Row(dateCell: Option<Cell>, itemCell: Option<Cell>, acquisitionCell: Option<Cell>)

  /** One licence entry, as sent to the backend. */
  datatype License = License(date: string, item: string, acquisition: string)

  /** The lines of an item text that survive cleaning. */
  predicate KeptLine(line: string)
  {
    line != "" && line != "Remove"
  }

  /** `lines.map(line => line.trim())`. */
  function TrimLines(lines: seq<string>): (r: seq<string>)
    ensures |r| == |lines|
    ensures forall k :: 0 <= k < |r| ==> r[k] == Trim(lines[k])
    decreases |lines|
  {
    if |lines| == 0 then [] else [Trim(lines[0])] + TrimLines(lines[1..])
  }

  /** `lines.filter(line => line && line !== 'Remove')`. */
  function KeepLines(lines: seq<string>): (r: seq<string>)
    ensures |r| <= |lines|
    decreases |lines|
  {
    if |lines| == 0 then []
    else (if KeptLine(lines[0]) then [lines[0]] else []) + KeepLines(lines[1..])
  }

  /** The filter keeps exactly the kept lines. */
  lemma {:induction false} KeepLinesMembers(lines: seq<string>)
    ensures forall l :: l in KeepLines(lines) <==> l in lines && KeptLine(l)
    decreases |lines|
  {
    if |lines| > 0 {
      KeepLinesMembers(lines[1..]);
      assert lines == [lines[0]] + lines[1..];
    }
  }

  /** The cleaned item text: split on newlines, trim each line, drop blank and "Remove" lines, join with spaces. */
  function CleanItem(text: string): string
  {
    Join(KeepLines(TrimLines(Split(text, '\n'))), " ")
  }

  /** A line as `CleanItem` keeps it: non-empty, trimmed, not "Remove", free of newlines. */
  predicate CleanLine(l: string)
  {
    KeptLine(l) && Trimmed(l) && '\n' !in l
  }

  /** Filtering trimmed lines free of newlines leaves only clean lines. */
  lemma {:induction false} KeepLinesClean(lines: seq<string>)
    requires forall k :: 0 <= k < |lines| ==> Trimmed(lines[k]) && '\n' !in lines[k]
    ensures forall k :: 0 <= k < |KeepLines(lines)| ==> CleanLine(KeepLines(lines)[k])
    decreases |lines|
  {
    if |lines| > 0 {
      var rest := lines[1..];
      assert forall k :: 0 <= k < |rest| ==> rest[k] == lines[k + 1];
      KeepLinesClean(rest);
      var head := if KeptLine(lines[0]) then [lines[0]] else [];
      assert KeepLines(lines) == head + KeepLines(rest);
      forall k | 0 <= k < |KeepLines(lines)| ensures CleanLine(KeepLines(lines)[k]) {
        if k < |head| {
          assert KeepLines(lines)[k] == lines[0];
        } else {
          assert KeepLines(lines)[k] == KeepLines(rest)[k - |head|];
        }
      }
    }
  }

  /** Trimming and filtering lines free of newlines leaves only clean lines. */
  lemma KeptLinesClean(pieces: seq<string>)
    requires forall k :: 0 <= k < |pieces| ==> '\n' !in pieces[k]
    ensures forall k :: 0 <= k < |KeepLines(TrimLines(pieces))| ==> CleanLine(KeepLines(TrimLines(pieces))[k])
  {
    var trimmed := TrimLines(pieces);
    forall k | 0 <= k < |trimmed| ensures Trimmed(trimmed[k]) && '\n' !in trimmed[k] {
      assert trimmed[k] == Trim(pieces[k]);
    }
    KeepLinesClean(trimmed);
  }

  /** A single clean line, or the empty string, is its own cleaning. */
  lemma {:induction false} CleanItemOfCleanLine(c: string)
    requires '\n' !in c
    requires c == "" || (KeptLine(c) && Trimmed(c))
    ensures CleanItem(c) == c
  {
    SplitWithoutSeparator(c, '\n');
    assert TrimLines([c]) == [c] by {
      assert TrimLines([c])[0] == Trim(c);
    }
    if c == "" {
      assert KeepLines([c]) == [];
    } else {
      assert KeepLines([c]) == [c];
    }
  }

  /**
   * Joining clean lines with spaces gives the empty string or a single
   * clean line: a join of two or more contains a space, so it is not "Remove".
   */
  lemma {:induction false} JoinOfCleanLines(lines: seq<string>)
    requires forall k :: 0 <= k < |lines| ==> CleanLine(lines[k])
    ensures var c := Join(lines, " "); '\n' !in c && (c == "" || (KeptLine(c) && Trimmed(c)))
  {
    var c := Join(lines, " ");
    assert '\n' !in c by {
      JoinAvoids(lines, " ", '\n');
    }
    if |lines| == 1 {
      assert c == lines[0];
      assert CleanLine(lines[0]);
    } else if |lines| >= 2 {
      var first, last := lines[0], lines[|lines| - 1];
      assert CleanLine(first) && CleanLine(last);
      assert c != "" && c[0] == first[0] && c[|c| - 1] == last[|last| - 1] by {
        JoinEnds(lines, " ");
      }
      assert Trimmed(c);
      assert c != "Remove" by {
        JoinHasSeparator(lines, ' ');
        assert ' ' !in "Remove";
      }
    }
  }

  /** A cleaned item never contains a newline. */
  lemma CleanItemHasNoNewline(text: string)
    ensures '\n' !in CleanItem(text)
  {
    KeptLinesClean(Split(text, '\n'));
    JoinOfCleanLines(KeepLines(TrimLines(Split(text, '\n'))));
  }

  /** Cleaning an already cleaned item changes nothing. */
  lemma CleanItemIdempotent(text: string)
    ensures CleanItem(CleanItem(text)) == CleanItem(text)
  {
    KeptLinesClean(Split(text, '\n'));
    JoinOfCleanLines(KeepLines(TrimLines(Split(text, '\n'))));
    CleanItemOfCleanLine(CleanItem(text));
  }

  /** What makes an entry well formed: date and acquisition trimmed, item clean. */
  predicate WellFormed(l: License)
  {
    Trimmed(l.date) && Trimmed(l.acquisition) && '\n' !in l.item && CleanItem(l.item) == l.item
  }

  /** `cell.textContent?.trim() || ''`. */
  function CellText(c: Cell): (r: string)
    ensures Trimmed(r)
    ensures r == "" <==> c.text.None? || AllSpace(c.text.value)
  {
    match c.text
    case None => ""
    case Some(t) => Trim(t)
  }

  /** `cell.textContent?.split('\n')…join(' ') || ''`. */
  function ItemText(c: Cell): (r: string)
    ensures '\n' !in r
  {
    match c.text
    case None => ""
    case Some(t) =>
      CleanItemHasNoNewline(t);
      CleanItem(t)
  }

  /** The item text is already clean: cleaning it again changes nothing. */
  lemma ItemTextClean(c: Cell)
    ensures CleanItem(ItemText(c)) == ItemText(c)
  {
    match c.text
    case None => CleanItemOfCleanLine("");
    case Some(t) => CleanItemIdempotent(t);
  }

  /** The entry a row contributes: none unless all three cells exist. */
  function EntryOf(row: Row): (r: Option<License>)
    ensures r.Some? <==> row.dateCell.Some? && row.itemCell.Some? && row.acquisitionCell.Some?
  {
    if row.dateCell.Some? && row.itemCell.Some? && row.acquisitionCell.Some? then
      Some(License(CellText(row.dateCell.value), ItemText(row.itemCell.value), CellText(row.acquisitionCell.value)))
    else None
  }

  /** Every entry a row contributes is well formed. */
  lemma EntryOfWellFormed(row: Row)
    ensures EntryOf(row).Some? ==> WellFormed(EntryOf(row).value)
  {
    if EntryOf(row).Some? {
      ItemTextClean(row.itemCell.value);
    }
  }

  /** The values `f` gives for the elements of `xs`, in order, skipping those it gives none for. */
  function Collect<A, B>(f: A -> Option<B>, xs: seq<A>): (r: seq<B>)
    ensures |r| <= |xs|
    decreases |xs|
  {
    if |xs| == 0 then []
    else
      Collect(f, xs[..|xs| - 1]) +
      match f(xs[|xs| - 1])
      case None => []
      case Some(y) => [y]
  }

  /** The positions of the elements of `xs` that `f` gives a value for, in increasing order. */
  function Picked<A, B>(f: A -> Option<B>, xs: seq<A>): (r: seq<nat>)
    ensures forall k :: 0 <= k < |r| ==> r[k] < |xs|
    ensures forall k, m :: 0 <= k < m < |r| ==> r[k] < r[m]
    decreases |xs|
  {
    if |xs| == 0 then []
    else Picked(f, xs[..|xs| - 1]) + if f(xs[|xs| - 1]).Some? then [|xs| - 1] else []
  }

  /** The collected values are exactly the values at the picked positions. */
  lemma {:induction false} PickedYieldCollected<A, B>(f: A -> Option<B>, xs: seq<A>)
    ensures |Picked(f, xs)| == |Collect(f, xs)|
    ensures forall k :: 0 <= k < |Picked(f, xs)| ==> f(xs[Picked(f, xs)[k]]) == Some(Collect(f, xs)[k])
    decreases |xs|
  {
    if |xs| > 0 {
      var front := xs[..|xs| - 1];
      PickedYieldCollected(f, front);
      var p0, c0 := Picked(f, front), Collect(f, front);
      forall k | 0 <= k < |p0| ensures f(xs[p0[k]]) == Some(c0[k]) {
        assert xs[p0[k]] == front[p0[k]];
      }
      match f(xs[|xs| - 1]) {
        case None =>
          assert Picked(f, xs) == p0 && Collect(f, xs) == c0;
        case Some(y) =>
          assert Picked(f, xs) == p0 + [|xs| - 1] && Collect(f, xs) == c0 + [y];
      }
    }
  }

  /** Every element `f` gives a value for is picked. */
  lemma {:induction false} PickedComplete<A, B>(f: A -> Option<B>, xs: seq<A>, i: nat)
    requires i < |xs| && f(xs[i]).Some?
    ensures i in Picked(f, xs)
    decreases |xs|
  {
    var front := xs[..|xs| - 1];
    if i < |xs| - 1 {
      assert xs[i] == front[i];
      PickedComplete(f, front, i);
    }
  }

  /**
   * Every collected value comes from one element, in the elements' order,
   * and every element `f` gives a value for contributes it.
   */
  lemma CollectProvenance<A, B>(f: A -> Option<B>, xs: seq<A>) returns (idx: seq<nat>)
    ensures |idx| == |Collect(f, xs)|
    ensures forall k :: 0 <= k < |idx| ==> idx[k] < |xs| && f(xs[idx[k]]) == Some(Collect(f, xs)[k])
    ensures forall k, m :: 0 <= k < m < |idx| ==> idx[k] < idx[m]
    ensures forall i :: 0 <= i < |xs| && f(xs[i]).Some? ==> i in idx
  {
    idx := Picked(f, xs);
    PickedYieldCollected(f, xs);
    forall i | 0 <= i < |xs| && f(xs[i]).Some? ensures i in idx {
      PickedComplete(f, xs, i);
    }
  }

  /** Collecting one more element adds its value, if it has one, at the end. */
  lemma CollectSnoc<A, B>(f: A -> Option<B>, xs: seq<A>, x: A)
    ensures Collect(f, xs + [x]) == Collect(f, xs) + match f(x) case None => [] case Some(y) => [y]
  {
    assert (xs + [x])[..|xs|] == xs;
  }

  /** What `parseLicenseTable` returns: the entries of every row but the header. */
  function ParsedTable(rows: seq<Row>): (r: seq<License>)
    ensures rows == [] ==> r == []
    ensures rows != [] ==> |r| <= |rows| - 1
  {
    if |rows| == 0 then [] else Collect(EntryOf, rows[1..])
  }

  /** The body of the `forEach` callback for a row after the header: the entry it pushes, if any. */
  method ParseRow(row: Row) returns (entry: Option<License>)
    ensures entry == EntryOf(row)
  {
    if row.dateCell.Some? && row.itemCell.Some? && row.acquisitionCell.Some? {
      var date := CellText(row.dateCell.value);
      var item := ItemText(row.itemCell.value);
      var acquisition := CellText(row.acquisitionCell.value);
      entry := Some(License(date, item, acquisition));
    } else {
      entry := None;
    }
  }

  /** `parseLicenseTable(table)`, given the table's rows in document order. */
  method ParseLicenseTable(rows: seq<Row>) returns (licenses: seq<License>)
    ensures licenses == ParsedTable(rows)
  {
    licenses := [];
    var index := 0;
    while index < |rows|
      invariant 0 <= index <= |rows|
      invariant licenses == if index == 0 then [] else Collect(EntryOf, rows[1..index])
    {
      if index != 0 {
        var row := rows[index];
        assert rows[1..index + 1] == rows[1..index] + [row];
        CollectSnoc(EntryOf, rows[1..index], row);
        var entry := ParseRow(row);
        if entry.Some? {
          licenses := licenses + [entry.value];
        }
      }
      index := index + 1;
    }
    assert index > 0 ==> rows[1..index] == rows[1..];
  }

  /** Every position moved one place on. */
  function Shifted(idx: seq<nat>): (r: seq<nat>)
    ensures |r| == |idx| && forall k :: 0 <= k < |r| ==> r[k] == idx[k] + 1
    decreases |idx|
  {
    if |idx| == 0 then [] else [idx[0] + 1] + Shifted(idx[1..])
  }

  /** `CollectProvenance` for every element but the first, with positions in `xs`. */
  lemma CollectTailProvenance<A, B>(f: A -> Option<B>, xs: seq<A>) returns (idx: seq<nat>)
    requires |xs| > 0
    ensures |idx| == |Collect(f, xs[1..])|
    ensures forall k :: 0 <= k < |idx| ==> 1 <= idx[k] < |xs| && f(xs[idx[k]]) == Some(Collect(f, xs[1..])[k])
    ensures forall k, m :: 0 <= k < m < |idx| ==> idx[k] < idx[m]
    ensures forall i :: 1 <= i < |xs| && f(xs[i]).Some? ==> i in idx
  {
    var tail := xs[1..];
    var idx0 := CollectProvenance(f, tail);
    idx := Shifted(idx0);
    forall k | 0 <= k < |idx| ensures 1 <= idx[k] < |xs| && f(xs[idx[k]]) == Some(Collect(f, tail)[k]) {
      assert xs[idx[k]] == tail[idx0[k]];
    }
    forall i | 1 <= i < |xs| && f(xs[i]).Some? ensures i in idx {
      assert xs[i] == tail[i - 1];
      assert i - 1 in idx0;
      var k :| 0 <= k < |idx0| && idx0[k] == i - 1;
      assert idx[k] == i;
    }
  }

  /**
   * The header row never contributes; every entry comes from a later row
   * holding all three cells, in row order; and every such row contributes.
   */
  lemma ParsedTableProvenance(rows: seq<Row>) returns (idx: seq<nat>)
    ensures |idx| == |ParsedTable(rows)|
    ensures forall k :: 0 <= k < |idx| ==> 1 <= idx[k] < |rows| && EntryOf(rows[idx[k]]) == Some(ParsedTable(rows)[k])
    ensures forall k, m :: 0 <= k < m < |idx| ==> idx[k] < idx[m]
    ensures forall i :: 1 <= i < |rows| && EntryOf(rows[i]).Some? ==> i in idx
  {
    if |rows| == 0 {
      idx := [];
    } else {
      idx := CollectTailProvenance(EntryOf, rows);
    }
  }

  /** Every parsed entry is well formed: trimmed date and acquisition, a cleaned item. */
  lemma ParsedTableWellFormed(rows: seq<Row>)
    ensures forall k :: 0 <= k < |ParsedTable(rows)| ==> WellFormed(ParsedTable(rows)[k])
  {
    var idx := ParsedTableProvenance(rows);
    forall k | 0 <= k < |ParsedTable(rows)| ensures WellFormed(ParsedTable(rows)[k]) {
      EntryOfWellFormed(rows[idx[k]]);
    }
  }

  /** The header row's content never matters. */
  lemma HeaderIgnored(header1: Row, header2: Row, body: seq<Row>)
    ensures ParsedTable([header1] + body) == ParsedTable([header2] + body)
  {
    assert ([header1] + body)[1..] == body;
    assert ([header2] + body)[1..] == body;
  }
}
