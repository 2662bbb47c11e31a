/** A value that may be missing. */
module Optional {
  datatype Option<+T> = None | Some(value: T)
}

/** The row-to-record logic of the two CSV loaders, over the lines of a file once it has
    been read. The first line is a header and is never looked at; an empty line is
    skipped; a row with too few cells is skipped. */
module Loaders {
  import opened Optional
  import opened Text
  import opened CsvRow
  import opened Choices

  /** One benchmark question. `answer` is missing when the answer cell is blank. */
  datatype Item = Item(id: string, question: string, choices: seq<string>, answer: Option<char>)

  /** The first character of the trimmed text, in capitals, if there is one. */
  function Letter(cell: string): (l: Option<char>)
    ensures l.None? <==> AllSpace(cell)
    ensures l.Some? ==> !IsLowerAscii(l.value)
    ensures l.Some? ==> TrimStart(cell) < |cell| && l.value == ToUpper(cell[TrimStart(cell)])
  {
    var t := Trim(cell);
    TrimIsSlice(cell);
    if t == [] then None else Some(ToUpper(t[0]))
  }

  /** The item a data row describes: columns 0, 2, 3 and 4 are the id, the question, the
      choices list and the answer; column 1 (the subdomain) and any later column are ignored. */
  function ItemOfRow(line: string): (it: Option<Item>)
    ensures it.Some? <==> line != [] && |ParseCsvRow(line)| >= 5
    ensures it.Some? ==>
              var cells := ParseCsvRow(line);
              && it.value.id == Trim(cells[0])
              && it.value.question == Trim(cells[2])
              && it.value.choices == ParseChoicesArray(cells[3])
              && (it.value.answer.None? <==> AllSpace(cells[4]))
              && it.value.answer == Letter(cells[4])
  {
    if line == [] then None
    else
      var cells := ParseCsvRow(line);
      if |cells| < 5 then None
      else Some(Item(Trim(cells[0]), Trim(cells[2]), ParseChoicesArray(cells[3]), Letter(cells[4])))
  }

  /** The values present in a sequence of outcomes, in order. */
  function Present(os: seq<Option<Item>>): (items: seq<Item>)
    ensures |items| <= |os|
  {
    if os == [] then []
    else Present(os[..|os| - 1]) + (if os[|os| - 1].Some? then [os[|os| - 1].value] else [])
  }

  lemma {:induction false} PresentAppend(a: seq<Option<Item>>, b: seq<Option<Item>>)
    ensures Present(a + b) == Present(a) + Present(b)
    decreases |b|
  {
    if b == [] {
      assert a + b == a;
    } else {
      var b' := b[..|b| - 1];
      assert (a + b)[..|a + b| - 1] == a + b';
      assert (a + b)[|a + b| - 1] == b[|b| - 1];
      PresentAppend(a, b');
    }
  }

  lemma {:induction false} PresentMembers(os: seq<Option<Item>>, it: Item)
    ensures it in Present(os) <==> exists k :: 0 <= k < |os| && os[k] == Some(it)
    decreases |os|
  {
    if os != [] {
      var init := os[..|os| - 1];
      PresentMembers(init, it);
      assert forall k :: 0 <= k < |init| ==> init[k] == os[k];
    }
  }

  /** `f` applied to each element, in order. */
  function Each<A, B>(f: A -> B, xs: seq<A>): (ys: seq<B>)
    ensures |ys| == |xs|
  {
    seq(|xs|, k requires 0 <= k < |xs| => f(xs[k]))
  }

  lemma EachAppend<A, B>(f: A -> B, a: seq<A>, b: seq<A>)
    ensures Each(f, a + b) == Each(f, a) + Each(f, b)
  {
  }

  /** What each row describes, in the order of the rows. */
  function Outcomes(rows: seq<string>): (os: seq<Option<Item>>)
    ensures |os| == |rows|
  {
    Each(ItemOfRow, rows)
  }

  /** The items of the data rows, in the order of the rows. */
  function ItemsOf(rows: seq<string>): (items: seq<Item>)
    ensures |items| <= |rows|
  {
    Present(Outcomes(rows))
  }

  /** `loadGpqaCsv` once the file has been split into lines: the header line is dropped. */
  function LoadItems(lines: seq<string>): (items: seq<Item>)
    ensures |lines| <= 1 ==> items == []
    ensures |items| < |lines| || lines == []
  {
    if lines == [] then [] else ItemsOf(lines[1..])
  }

  /** Reading rows one block after another gives the items of the first block, then those of
      the second: the items keep the order of their rows. */
  lemma ItemsOfAppend(a: seq<string>, b: seq<string>)
    ensures ItemsOf(a + b) == ItemsOf(a) + ItemsOf(b)
  {
    EachAppend(ItemOfRow, a, b);
    PresentAppend(Outcomes(a), Outcomes(b));
  }

  /** An item is loaded exactly when some row describes it. */
  lemma ItemsOfMembers(rows: seq<string>, it: Item)
    ensures it in ItemsOf(rows) <==> exists k :: 0 <= k < |rows| && ItemOfRow(rows[k]) == Some(it)
  {
    PresentMembers(Outcomes(rows), it);
    assert forall k :: 0 <= k < |rows| ==> Outcomes(rows)[k] == ItemOfRow(rows[k]);
  }

  /** Whatever the header line holds, it never becomes an item. */
  lemma HeaderIgnored(header: string, rows: seq<string>)
    ensures LoadItems([header] + rows) == ItemsOf(rows)
  {
    assert ([header] + rows)[1..] == rows;
  }

  /** One more row appends its item, if it describes one, to the items before it. */
  lemma ItemsOfSnoc(rows: seq<string>, line: string)
    ensures ItemsOf(rows + [line])
         == ItemsOf(rows) + (if ItemOfRow(line).Some? then [ItemOfRow(line).value] else [])
  {
    EachAppend(ItemOfRow, rows, [line]);
    assert Each(ItemOfRow, [line]) == [ItemOfRow(line)];
    PresentAppend(Outcomes(rows), [ItemOfRow(line)]);
    assert [ItemOfRow(line)][..0] == [];
  }

  /** The loader's loop: one line read at a time, each kept row's item appended. */
  method LoadItemsScan(lines: seq<string>) returns (items: seq<Item>)
    ensures items == LoadItems(lines)
  {
    items := [];
    if lines == [] {
      return;
    }
    var i := 1;
    while i < |lines|
      invariant 1 <= i <= |lines|
      invariant items == ItemsOf(lines[1..i])
    {
      assert lines[1..i + 1] == lines[1..i] + [lines[i]];
      ItemsOfSnoc(lines[1..i], lines[i]);
      var o := ItemOfRow(lines[i]);
      if o.Some? {
        items := items + [o.value];
      }
      i := i + 1;
    }
    assert lines[1..i] == lines[1..];
  }

  /** The prediction a row of the predictions file makes: column 0 is the id and column 1
      the chosen letter; later columns are ignored. */
  function PredictionOfRow(line: string): (p: Option<(string, char)>)
    ensures p.Some? <==>
              && line != []
              && |ParseCsvRow(line)| >= 2
              && Trim(ParseCsvRow(line)[0]) != []
              && Trim(ParseCsvRow(line)[1]) != []
    ensures p.Some? ==>
              var cells := ParseCsvRow(line);
              && p.value.0 == Trim(cells[0])
              && !IsLowerAscii(p.value.1)
              && Letter(cells[1]) == Some(p.value.1)
  {
    if line == [] then None
    else
      var cells := ParseCsvRow(line);
      if |cells| < 2 then None
      else
        var id := Trim(cells[0]);
        var ch := Trim(cells[1]);
        if id != [] && ch != [] then Some((id, ToUpper(ch[0]))) else None
  }

  /** The map after one more row: a row that predicts writes its letter over any earlier one. */
  function Record(pred: map<string, char>, p: Option<(string, char)>): (r: map<string, char>)
    ensures p.None? ==> r == pred
    ensures p.Some? ==> r.Keys == pred.Keys + {p.value.0} && r[p.value.0] == p.value.1
    ensures forall id :: id in pred && (p.None? || id != p.value.0) ==> r[id] == pred[id]
  {
    if p.Some? then pred[p.value.0 := p.value.1] else pred
  }

  /** The map a sequence of row outcomes builds, each written over the ones before it. */
  function Build(ps: seq<Option<(string, char)>>): map<string, char> {
    if ps == [] then map[] else Record(Build(ps[..|ps| - 1]), ps[|ps| - 1])
  }

  /** True when outcome `k` is a prediction for `id`; for the outcomes of rows,
      `For(Predictions(rows), k, id)` says that row `k` predicts a letter for `id`. */
  predicate For(ps: seq<Option<(string, char)>>, k: int, id: string)
    requires 0 <= k < |ps|
  {
    ps[k].Some? && ps[k].value.0 == id
  }

  lemma {:induction false} BuildDomain(ps: seq<Option<(string, char)>>, id: string)
    ensures id in Build(ps) <==> exists k :: 0 <= k < |ps| && For(ps, k, id)
    decreases |ps|
  {
    if ps != [] {
      var init := ps[..|ps| - 1];
      assert Build(ps) == Record(Build(init), ps[|ps| - 1]);
      BuildDomain(init, id);
      assert forall k :: 0 <= k < |init| ==> (For(init, k, id) <==> For(ps, k, id));
      if id in Build(ps) && id !in Build(init) {
        assert For(ps, |ps| - 1, id);
      }
      if k :| 0 <= k < |ps| && For(ps, k, id) {
        if k < |ps| - 1 {
          assert For(init, k, id);
          assert id in Build(init);
        }
      }
    }
  }

  lemma {:induction false} BuildLastWins(ps: seq<Option<(string, char)>>, k: int, id: string)
    requires 0 <= k < |ps| && For(ps, k, id)
    requires forall j :: k < j < |ps| ==> !For(ps, j, id)
    ensures id in Build(ps) && Build(ps)[id] == ps[k].value.1
    decreases |ps|
  {
    var init := ps[..|ps| - 1];
    if k < |ps| - 1 {
      assert !For(ps, |ps| - 1, id);
      assert For(init, k, id);
      forall j | k < j < |init| ensures !For(init, j, id) {
        assert !For(ps, j, id);
      }
      BuildLastWins(init, k, id);
    }
  }

  /** What each row predicts, in the order of the rows. */
  function Predictions(rows: seq<string>): (ps: seq<Option<(string, char)>>)
    ensures |ps| == |rows|
  {
    Each(PredictionOfRow, rows)
  }

  /** The prediction map the rows build, each row written over the ones before it. */
  function PredictionsOf(rows: seq<string>): map<string, char> {
    Build(Predictions(rows))
  }

  /** One more row updates the map built from the rows before it. */
  lemma PredictionsOfSnoc(rows: seq<string>, line: string)
    ensures PredictionsOf(rows + [line]) == Record(PredictionsOf(rows), PredictionOfRow(line))
  {
    var ps := Predictions(rows + [line]);
    assert ps[..|rows|] == Predictions(rows);
    assert ps[|rows|] == PredictionOfRow(line);
  }

  /** `loadPredictionsCsv` once the file has been split into lines: the header line is dropped. */
  function LoadPredictions(lines: seq<string>): (pred: map<string, char>)
    ensures |lines| <= 1 ==> pred == map[]
  {
    if lines == [] then map[] else PredictionsOf(lines[1..])
  }

  /** An id has a prediction exactly when some row predicts a letter for it. */
  lemma PredictionsDomain(rows: seq<string>, id: string)
    ensures id in PredictionsOf(rows) <==> exists k :: 0 <= k < |rows| && For(Predictions(rows), k, id)
  {
    BuildDomain(Predictions(rows), id);
  }

  /** The letter stored for an id is the one of the last row that predicts for that id. */
  lemma LastRowWins(rows: seq<string>, k: int, id: string)
    requires 0 <= k < |rows| && For(Predictions(rows), k, id)
    requires forall j :: k < j < |rows| ==> !For(Predictions(rows), j, id)
    ensures id in PredictionsOf(rows)
    ensures PredictionsOf(rows)[id] == PredictionOfRow(rows[k]).value.1
  {
    BuildLastWins(Predictions(rows), k, id);
  }

  /** Whatever the header line holds, it never becomes a prediction. */
  lemma PredictionsHeaderIgnored(header: string, rows: seq<string>)
    ensures LoadPredictions([header] + rows) == PredictionsOf(rows)
  {
    assert ([header] + rows)[1..] == rows;
  }

  /** An id is in the loaded map exactly when some line after the first predicts a letter
      for it; what the first line says never matters. */
  lemma LoadedIds(lines: seq<string>, id: string)
    ensures id in LoadPredictions(lines) <==> exists k :: 1 <= k < |lines| && For(Predictions(lines), k, id)
  {
    if lines != [] {
      var ps, rest := Predictions(lines), Predictions(lines[1..]);
      PredictionsDomain(lines[1..], id);
      assert forall k :: 1 <= k < |lines| ==> rest[k - 1] == ps[k];
      if k :| 1 <= k < |lines| && For(ps, k, id) {
        assert For(rest, k - 1, id);
      }
      if id in LoadPredictions(lines) {
        var j :| 0 <= j < |rest| && For(rest, j, id);
        assert For(ps, j + 1, id);
      }
    }
  }

  /** The loader's loop: one line read at a time, each kept row written into the map. */
  method LoadPredictionsScan(lines: seq<string>) returns (pred: map<string, char>)
    ensures pred == LoadPredictions(lines)
  {
    pred := map[];
    if lines == [] {
      return;
    }
    var i := 1;
    while i < |lines|
      invariant 1 <= i <= |lines|
      invariant pred == PredictionsOf(lines[1..i])
    {
      assert lines[1..i + 1] == lines[1..i] + [lines[i]];
      PredictionsOfSnoc(lines[1..i], lines[i]);
      var p := PredictionOfRow(lines[i]);
      if p.Some? {
        pred := pred[p.value.0 := p.value.1];
      }
      i := i + 1;
    }
    assert lines[1..i] == lines[1..];
  }
}
