/** `download_shopping_cart`: the rows of the cart query are folded into an
    insertion-ordered dictionary keyed by `name(unit)`, and the dictionary is
    rendered one `key - amount` line per entry. */
module ShoppingList {
  import opened Base
  import Text

  /** One row of the cart query: ingredient name, measurement unit and the
      summed amount. */
  datatype CartRow = CartRow(name: string, unit: string, amount: nat)

  /** One dictionary entry. A Python dict keeps insertion order, and
      assigning to an existing key keeps its position. */
  datatype Entry = Entry(key: string, amount: nat)

  type Dict = seq<Entry>

  /** The dictionary key of a row: `f"{name}({unit})"`. */
  function Key(row: CartRow): string
  {
    row.name + "(" + row.unit + ")"
  }

  /** The keys of the dictionary. */
  function KeySet(d: Dict): set<string>
    decreases |d|
  {
    if |d| == 0 then {} else {d[0].key} + KeySet(d[1..])
  }

  lemma {:induction false} KeySetIndex(d: Dict, k: string)
    ensures k in KeySet(d) <==> exists i :: 0 <= i < |d| && d[i].key == k
    decreases |d|
  {
    if |d| > 0 {
      KeySetIndex(d[1..], k);
      if k in KeySet(d[1..]) {
        var i :| 0 <= i < |d[1..]| && d[1..][i].key == k;
        assert d[i + 1].key == k;
      }
      if exists i :: 0 <= i < |d| && d[i].key == k {
        var i :| 0 <= i < |d| && d[i].key == k;
        if i > 0 {
          assert d[1..][i - 1].key == k;
        }
      }
    }
  }

  ghost predicate KeysDistinct(d: Dict)
  {
    forall i, j :: 0 <= i < j < |d| ==> d[i].key != d[j].key
  }

  /** `d.get(k)`: the amount stored under `k`, if any. */
  function Lookup(d: Dict, k: string): (r: Option<nat>)
    ensures r.None? <==> k !in KeySet(d)
    decreases |d|
  {
    if |d| == 0 then None
    else if d[0].key == k then Some(d[0].amount)
    else Lookup(d[1..], k)
  }

  /** `d[k] = v`: overwrites in place when `k` is a key, appends otherwise. */
  function Assign(d: Dict, k: string, v: nat): (r: Dict)
    ensures KeySet(r) == KeySet(d) + {k}
    ensures k in KeySet(d) ==> |r| == |d| && forall i :: 0 <= i < |d| ==> r[i].key == d[i].key
    ensures k !in KeySet(d) ==> r == d + [Entry(k, v)]
    decreases |d|
  {
    if |d| == 0 then [Entry(k, v)]
    else if d[0].key == k then
      var r := [Entry(k, v)] + d[1..];
      assert r[1..] == d[1..];
      r
    else
      var rest := Assign(d[1..], k, v);
      var r := [d[0]] + rest;
      assert r[1..] == rest;
      assert k !in KeySet(d) ==> r == d + [Entry(k, v)] by {
        if k !in KeySet(d) {
          assert d == [d[0]] + d[1..];
        }
      }
      r
  }

  /** After `d[key] = v`, `key` maps to `v` and every other key keeps its
      amount. */
  lemma {:induction false} LookupAfterAssign(d: Dict, key: string, v: nat, k: string)
    ensures Lookup(Assign(d, key, v), k) == if k == key then Some(v) else Lookup(d, k)
    decreases |d|
  {
    if |d| > 0 && d[0].key != key {
      LookupAfterAssign(d[1..], key, v, k);
      assert Assign(d, key, v)[1..] == Assign(d[1..], key, v);
    } else if |d| > 0 {
      assert Assign(d, key, v)[1..] == d[1..];
    }
  }

  /** `d[k] += v`: a `KeyError` when `k` is not a key. */
  function AddTo(d: Dict, k: string, v: nat): (r: Result<Dict>)
    ensures r.Ok? <==> k in KeySet(d)
    ensures r.Err? ==> r.error == MissingKey
    ensures r.Ok? ==> KeySet(r.value) == KeySet(d)
    ensures r.Ok? ==> |r.value| == |d| && forall i :: 0 <= i < |d| ==> r.value[i].key == d[i].key
    ensures r.Ok? ==> Lookup(r.value, k) == Some(Lookup(d, k).value + v)
  {
    match Lookup(d, k)
    case None => Err(MissingKey)
    case Some(a) =>
      LookupAfterAssign(d, k, a + v, k);
      Ok(Assign(d, k, a + v))
  }

  /** The keys the rows produce. */
  function RowKeys(rows: seq<CartRow>): set<string>
  {
    set i | 0 <= i < |rows| :: Key(rows[i])
  }

  lemma RowKeysOfPrefix(rows: seq<CartRow>)
    requires |rows| > 0
    ensures RowKeys(rows) == RowKeys(rows[..|rows| - 1]) + {Key(rows[|rows| - 1])}
  {
    var front := rows[..|rows| - 1];
    forall k | k in RowKeys(rows)
      ensures k in RowKeys(front) + {Key(rows[|rows| - 1])}
    {
      var i :| 0 <= i < |rows| && Key(rows[i]) == k;
      if i < |rows| - 1 {
        assert Key(front[i]) == k;
      }
    }
    forall k | k in RowKeys(front)
      ensures k in RowKeys(rows)
    {
      var i :| 0 <= i < |front| && Key(front[i]) == k;
      assert Key(rows[i]) == k;
    }
  }

  /** Distinct keys stay distinct after `Assign`. */
  lemma AssignKeepsDistinct(d: Dict, k: string, v: nat)
    requires KeysDistinct(d)
    ensures KeysDistinct(Assign(d, k, v))
  {
    var r := Assign(d, k, v);
    if k !in KeySet(d) {
      KeySetIndex(d, k);
    }
  }

  // ---------------------------------------------------------------------
  // The loop as written

  /** One iteration of the loop: the membership test looks at the bare
      ingredient name, while both branches write under `name(unit)`. */
  function Step(d: Dict, row: CartRow): Result<Dict>
  {
    if Lookup(d, row.name).Some? then AddTo(d, Key(row), row.amount)
    else Ok(Assign(d, Key(row), row.amount))
  }

  /** The loop over the query rows, in row order. A run that does not stop
      on a `KeyError` yields distinct keys, exactly those of the rows. */
  function Aggregate(rows: seq<CartRow>): (r: Result<Dict>)
    ensures r.Ok? ==> KeysDistinct(r.value)
    ensures r.Ok? ==> KeySet(r.value) == RowKeys(rows)
    ensures r.Err? ==> r.error == MissingKey
    decreases |rows|
  {
    if |rows| == 0 then Ok([])
    else
      var d :- Aggregate(rows[..|rows| - 1]);
      var row := rows[|rows| - 1];
      RowKeysOfPrefix(rows);
      AssignKeepsDistinct(d, Key(row), row.amount);
      Step(d, row)
  }

  /** No row's name equals the key of an earlier row: the condition under
      which the membership test never fires. */
  ghost predicate NoNameHit(rows: seq<CartRow>)
  {
    forall i, j :: 0 <= i < j < |rows| ==> rows[j].name != Key(rows[i])
  }

  /** The amount of the last row with key `k`. */
  function LastAmount(rows: seq<CartRow>, k: string): Option<nat>
    decreases |rows|
  {
    if |rows| == 0 then None
    else if Key(rows[|rows| - 1]) == k then Some(rows[|rows| - 1].amount)
    else LastAmount(rows[..|rows| - 1], k)
  }

  /** Row `j` stops the loop: its bare name is the key of an earlier row,
      while its own key is not. */
  ghost predicate FailsAt(rows: seq<CartRow>, j: int)
  {
    && 0 <= j < |rows|
    && rows[j].name in RowKeys(rows[..j])
    && Key(rows[j]) !in RowKeys(rows[..j])
  }

  /** The loop as written raises `KeyError` exactly when some row's name is
      an earlier key while that row's own key is new. */
  lemma {:induction false} AggregateFailsIff(rows: seq<CartRow>)
    ensures Aggregate(rows).Err? <==> exists j :: FailsAt(rows, j)
    ensures DownloadShoppingCart(rows).Err? <==> exists j :: FailsAt(rows, j)
    decreases |rows|
  {
    if |rows| > 0 {
      var front := rows[..|rows| - 1];
      AggregateFailsIff(front);
      FailsAtPrefix(rows, front);
      if Aggregate(front).Ok? {
        LastStepFails(rows);
      }
    }
  }

  /** Whether a row stops the loop depends only on the rows before it. */
  lemma FailsAtPrefix(rows: seq<CartRow>, front: seq<CartRow>)
    requires |rows| > 0 && front == rows[..|rows| - 1]
    ensures (exists j :: FailsAt(rows, j)) <==>
              (exists j :: FailsAt(front, j)) || FailsAt(rows, |rows| - 1)
  {
    if j :| FailsAt(rows, j) {
      if j < |front| {
        assert front[..j] == rows[..j];
        assert FailsAt(front, j);
      }
    }
    if j :| FailsAt(front, j) {
      assert front[..j] == rows[..j];
      assert FailsAt(rows, j);
    }
  }

  /** Once the earlier rows went through, the last one fails exactly when it
      stops the loop. */
  lemma LastStepFails(rows: seq<CartRow>)
    requires |rows| > 0 && Aggregate(rows[..|rows| - 1]).Ok?
    ensures Aggregate(rows).Err? <==> FailsAt(rows, |rows| - 1)
  {
    var front := rows[..|rows| - 1];
    var row := rows[|rows| - 1];
    var d := Aggregate(front).value;
    assert KeySet(d) == RowKeys(front);
    assert Aggregate(rows) == Step(d, row);
    assert rows[..|rows| - 1] == front;
  }

  /** The cart query groups by ingredient name and unit, so no two of its
      rows share both. */
  ghost predicate Grouped(rows: seq<CartRow>)
  {
    forall i, j :: 0 <= i < j < |rows| ==>
      rows[i].name != rows[j].name || rows[i].unit != rows[j].unit
  }

  /** When no name is an earlier key the loop never fails; it appends or
      overwrites the row's key at every step. */
  lemma {:induction false} AggregateNoHitSteps(rows: seq<CartRow>)
    requires NoNameHit(rows)
    ensures Aggregate(rows).Ok?
    ensures |rows| > 0 ==>
              var front := rows[..|rows| - 1];
              var row := rows[|rows| - 1];
              Aggregate(front).Ok? &&
              Aggregate(rows).value == Assign(Aggregate(front).value, Key(row), row.amount)
    decreases |rows|
  {
    if |rows| > 0 {
      var front := rows[..|rows| - 1];
      var row := rows[|rows| - 1];
      DistinctPrefix(rows);
      AggregateNoHitSteps(front);
      var d := Aggregate(front).value;
      FreshKey(rows, row.name);
      assert Lookup(d, row.name).None?;
    }
  }

  /** When no name is an earlier key the loop never fails, and every key holds
      the amount of its last row: rows that share a key overwrite each other
      instead of adding up. */
  lemma {:induction false} AggregateLastWins(rows: seq<CartRow>, k: string)
    requires NoNameHit(rows)
    ensures Aggregate(rows).Ok?
    ensures Lookup(Aggregate(rows).value, k) == LastAmount(rows, k)
    decreases |rows|
  {
    AggregateNoHitSteps(rows);
    if |rows| > 0 {
      var front := rows[..|rows| - 1];
      var row := rows[|rows| - 1];
      DistinctPrefix(rows);
      AggregateLastWins(front, k);
      LookupAfterAssign(Aggregate(front).value, Key(row), row.amount, k);
    }
  }

  /** The rows in order, one entry per row. */
  function Entries(rows: seq<CartRow>): (d: Dict)
    ensures |d| == |rows|
    ensures forall i :: 0 <= i < |rows| ==> d[i] == Entry(Key(rows[i]), rows[i].amount)
  {
    seq(|rows|, i requires 0 <= i < |rows| => Entry(Key(rows[i]), rows[i].amount))
  }

  /** Every row has its own key. */
  ghost predicate RowKeysDistinct(rows: seq<CartRow>)
  {
    forall i, j :: 0 <= i < j < |rows| ==> Key(rows[i]) != Key(rows[j])
  }

  /** A key no earlier row produces is not a key of the earlier rows. */
  lemma FreshKey(rows: seq<CartRow>, x: string)
    requires |rows| > 0
    requires forall i :: 0 <= i < |rows| - 1 ==> Key(rows[i]) != x
    ensures x !in RowKeys(rows[..|rows| - 1])
  {
    var front := rows[..|rows| - 1];
    forall i | 0 <= i < |front|
      ensures Key(front[i]) != x
    {
      assert front[i] == rows[i];
    }
  }

  lemma EntriesOfPrefix(rows: seq<CartRow>)
    requires |rows| > 0
    ensures Entries(rows) == Entries(rows[..|rows| - 1]) + [Entry(Key(rows[|rows| - 1]), rows[|rows| - 1].amount)]
  {
  }

  lemma DistinctPrefix(rows: seq<CartRow>)
    requires |rows| > 0
    ensures NoNameHit(rows) ==> NoNameHit(rows[..|rows| - 1])
    ensures RowKeysDistinct(rows) ==> RowKeysDistinct(rows[..|rows| - 1])
  {
    var front := rows[..|rows| - 1];
    assert forall i :: 0 <= i < |front| ==> front[i] == rows[i];
  }

  /** With distinct keys and no name hit, the dictionary is the rows
      themselves, in order. */
  lemma {:induction false} AggregateInOrder(rows: seq<CartRow>)
    requires NoNameHit(rows) && RowKeysDistinct(rows)
    ensures Aggregate(rows) == Ok(Entries(rows))
    decreases |rows|
  {
    if |rows| > 0 {
      var front := rows[..|rows| - 1];
      var row := rows[|rows| - 1];
      DistinctPrefix(rows);
      AggregateInOrder(front);
      var d := Entries(front);
      assert KeySet(d) == RowKeys(front);
      FreshKey(rows, Key(row));
      FreshKey(rows, row.name);
      assert Step(d, row) == Ok(d + [Entry(Key(row), row.amount)]);
      EntriesOfPrefix(rows);
    }
  }

  /** The keys of the rows in order, each kept at its first occurrence: the
      order in which a Python dict first receives them. */
  function FirstKeys(rows: seq<CartRow>): (ks: seq<string>)
    ensures forall i, j :: 0 <= i < j < |ks| ==> ks[i] != ks[j]
    decreases |rows|, 0
  {
    if |rows| == 0 then []
    else
      var front := rows[..|rows| - 1];
      var k := Key(rows[|rows| - 1]);
      if k in RowKeys(front) then FirstKeys(front)
      else
        FirstKeysCover(front, k);
        FirstKeys(front) + [k]
  }

  /** `FirstKeys` holds exactly the keys the rows produce. */
  lemma {:induction false} FirstKeysCover(rows: seq<CartRow>, k: string)
    ensures k in FirstKeys(rows) <==> k in RowKeys(rows)
    decreases |rows|, 1
  {
    if |rows| > 0 {
      var front := rows[..|rows| - 1];
      var last := Key(rows[|rows| - 1]);
      RowKeysOfPrefix(rows);
      FirstKeysCover(front, k);
      if last in RowKeys(front) {
        assert FirstKeys(rows) == FirstKeys(front);
      } else {
        assert FirstKeys(rows) == FirstKeys(front) + [last];
      }
    }
  }

  /** In a dictionary with distinct keys, each entry is what its key looks
      up. */
  lemma {:induction false} LookupAt(d: Dict, i: int)
    requires KeysDistinct(d) && 0 <= i < |d|
    ensures Lookup(d, d[i].key) == Some(d[i].amount)
    decreases |d|
  {
    if i > 0 {
      assert d[0].key != d[i].key;
      assert d[1..][i - 1] == d[i];
      LookupAt(d[1..], i - 1);
    }
  }

  /** Assigning a key the rows already produced leaves the dictionary's key
      order alone; a new key goes last. */
  lemma AssignFollowsFirstKeys(rows: seq<CartRow>, d: Dict, v: nat)
    requires |rows| > 0
    requires |d| == |FirstKeys(rows[..|rows| - 1])|
    requires forall i :: 0 <= i < |d| ==> d[i].key == FirstKeys(rows[..|rows| - 1])[i]
    ensures var r := Assign(d, Key(rows[|rows| - 1]), v);
            |r| == |FirstKeys(rows)| && forall i :: 0 <= i < |r| ==> r[i].key == FirstKeys(rows)[i]
  {
    var front := rows[..|rows| - 1];
    var k := Key(rows[|rows| - 1]);
    KeySetIndex(d, k);
    FirstKeysCover(front, k);
    if k in RowKeys(front) {
      var j :| 0 <= j < |FirstKeys(front)| && FirstKeys(front)[j] == k;
      assert d[j].key == k;
    } else {
      assert k !in KeySet(d);
    }
  }

  /** When no name is an earlier key, the dictionary has one entry per
      distinct key, in first-insertion order, each holding the amount of
      the last row with that key: a later row overwrites its key in place. */
  lemma {:induction false} AggregateFirstOrder(rows: seq<CartRow>)
    requires NoNameHit(rows)
    ensures Aggregate(rows).Ok?
    ensures |Aggregate(rows).value| == |FirstKeys(rows)|
    ensures forall i :: 0 <= i < |FirstKeys(rows)| ==> Aggregate(rows).value[i].key == FirstKeys(rows)[i]
    ensures forall i :: 0 <= i < |Aggregate(rows).value| ==>
              LastAmount(rows, Aggregate(rows).value[i].key) == Some(Aggregate(rows).value[i].amount)
    decreases |rows|
  {
    AggregateNoHitSteps(rows);
    var d := Aggregate(rows).value;
    if |rows| > 0 {
      var front := rows[..|rows| - 1];
      var row := rows[|rows| - 1];
      DistinctPrefix(rows);
      AggregateFirstOrder(front);
      AssignFollowsFirstKeys(rows, Aggregate(front).value, row.amount);
    }
    forall i | 0 <= i < |d|
      ensures LastAmount(rows, d[i].key) == Some(d[i].amount)
    {
      LookupAt(d, i);
      AggregateLastWins(rows, d[i].key);
    }
  }

  // ---------------------------------------------------------------------
  // Rendering

  /** `f'{ingredient} - {amount}\n'`. */
  function Line(e: Entry): string
  {
    e.key + " - " + Text.Decimal(e.amount) + "\n"
  }

  /** The file content: the entries' lines in dictionary order. */
  function Render(d: Dict): (content: string)
    ensures |d| == 0 <==> content == ""
    decreases |d|
  {
    if |d| == 0 then "" else Render(d[..|d| - 1]) + Line(d[|d| - 1])
  }

  /** Rendering distributes over concatenation of dictionaries. */
  lemma {:induction false} RenderAppend(a: Dict, b: Dict)
    ensures Render(a + b) == Render(a) + Render(b)
    decreases |b|
  {
    if |b| > 0 {
      assert (a + b)[..|a + b| - 1] == a + b[..|b| - 1];
      RenderAppend(a, b[..|b| - 1]);
    } else {
      assert a + b == a;
    }
  }

  /** The whole action as written: a `KeyError` aborts it, otherwise the
      rendered dictionary is the file content. */
  function DownloadShoppingCart(rows: seq<CartRow>): (r: Result<string>)
    ensures r.Err? <==> Aggregate(rows).Err?
    ensures r.Err? ==> r.error == MissingKey
    ensures rows == [] ==> r == Ok("")
    ensures r.Ok? && rows != [] ==> r.value != ""
  {
    var d :- Aggregate(rows);
    assert |rows| > 0 ==> Key(rows[0]) in KeySet(d);
    Ok(Render(d))
  }

  /** In the ordinary case, one line per row in row order. */
  lemma DownloadListsEachRow(rows: seq<CartRow>)
    requires NoNameHit(rows) && RowKeysDistinct(rows)
    ensures DownloadShoppingCart(rows) == Ok(Render(Entries(rows)))
  {
    AggregateInOrder(rows);
  }

  lemma AggregateOne(row: CartRow)
    ensures Aggregate([row]) == Ok([Entry(Key(row), row.amount)])
  {
    assert [row][..0] == [];
  }

  /** The case the membership test gets wrong: an ingredient named like the
      key of an earlier row sends the loop into `+=` on a key that was never
      written. */
  lemma AsWrittenKeyError()
    ensures Grouped([CartRow("a", "b", 1), CartRow("a(b)", "c", 2)])
    ensures Aggregate([CartRow("a", "b", 1), CartRow("a(b)", "c", 2)]) == Err(MissingKey)
  {
    var rows := [CartRow("a", "b", 1), CartRow("a(b)", "c", 2)];
    assert rows[..1] == [rows[0]];
    AggregateOne(rows[0]);
    var d := [Entry("a(b)", 1)];
    assert Key(rows[0]) == "a(b)";
    assert Key(rows[1]) == "a(b)(c)";
    assert Lookup(d, "a(b)") == Some(1);
    assert Lookup(d, "a(b)(c)").None?;
  }

  /** Rows whose keys coincide overwrite each other as written. */
  lemma AsWrittenOverwrites()
    ensures Grouped([CartRow("a", "b)(c", 1), CartRow("a(b)", "c", 2)])
    ensures Aggregate([CartRow("a", "b)(c", 1), CartRow("a(b)", "c", 2)]) == Ok([Entry("a(b)(c)", 2)])
  {
    var rows := [CartRow("a", "b)(c", 1), CartRow("a(b)", "c", 2)];
    assert rows[..1] == [rows[0]];
    AggregateOne(rows[0]);
    assert Key(rows[0]) == "a(b)(c)" && Key(rows[1]) == "a(b)(c)";
    var d := [Entry("a(b)(c)", 1)];
    assert Lookup(d, "a(b)").None?;
    assert Assign(d, "a(b)(c)", 2) == [Entry("a(b)(c)", 2)];
  }

  // ---------------------------------------------------------------------
  // The loop as intended: test the key that is written

  /** The total amount of the rows with key `k`. */
  function SumFor(rows: seq<CartRow>, k: string): nat
    decreases |rows|
  {
    if |rows| == 0 then 0
    else SumFor(rows[..|rows| - 1], k) + (if Key(rows[|rows| - 1]) == k then rows[|rows| - 1].amount else 0)
  }

  function StepFixed(d: Dict, row: CartRow): Dict
  {
    match Lookup(d, Key(row))
    case Some(a) => Assign(d, Key(row), a + row.amount)
    case None => Assign(d, Key(row), row.amount)
  }

  /** The intended aggregation never fails, and every key holds the total of
      its rows. */
  function AggregateFixed(rows: seq<CartRow>): (d: Dict)
    ensures KeysDistinct(d)
    ensures KeySet(d) == RowKeys(rows)
    decreases |rows|
  {
    if |rows| == 0 then []
    else
      var front := rows[..|rows| - 1];
      var row := rows[|rows| - 1];
      var d := AggregateFixed(front);
      RowKeysOfPrefix(rows);
      StepFixedKeepsDistinct(d, row);
      StepFixed(d, row)
  }

  lemma StepFixedKeepsDistinct(d: Dict, row: CartRow)
    requires KeysDistinct(d)
    ensures KeysDistinct(StepFixed(d, row))
    ensures KeySet(StepFixed(d, row)) == KeySet(d) + {Key(row)}
  {
    match Lookup(d, Key(row))
    case Some(a) => AssignKeepsDistinct(d, Key(row), a + row.amount);
    case None => AssignKeepsDistinct(d, Key(row), row.amount);
  }

  lemma SumForLast(rows: seq<CartRow>, k: string)
    requires |rows| > 0
    ensures SumFor(rows, k) ==
              SumFor(rows[..|rows| - 1], k) + (if Key(rows[|rows| - 1]) == k then rows[|rows| - 1].amount else 0)
  {
  }

  /** A key no row produces totals zero. */
  lemma {:induction false} SumForAbsent(rows: seq<CartRow>, k: string)
    requires k !in RowKeys(rows)
    ensures SumFor(rows, k) == 0
    decreases |rows|
  {
    if |rows| > 0 {
      RowKeysOfPrefix(rows);
      SumForAbsent(rows[..|rows| - 1], k);
    }
  }

  lemma LookupAfterStepFixed(d: Dict, row: CartRow, k: string)
    ensures Lookup(StepFixed(d, row), k) ==
              if k == Key(row) then Some((if Lookup(d, k).Some? then Lookup(d, k).value else 0) + row.amount)
              else Lookup(d, k)
  {
    match Lookup(d, Key(row))
    case Some(a) => LookupAfterAssign(d, Key(row), a + row.amount, k);
    case None => LookupAfterAssign(d, Key(row), row.amount, k);
  }


  /** Every key of the intended dictionary holds the total of its rows. */
  lemma {:induction false} AggregateFixedSums(rows: seq<CartRow>, k: string)
    ensures Lookup(AggregateFixed(rows), k) == if k in RowKeys(rows) then Some(SumFor(rows, k)) else None
    decreases |rows|
  {
    if |rows| > 0 {
      var front := rows[..|rows| - 1];
      AggregateFixedSums(front, k);
      assert AggregateFixed(rows) == StepFixed(AggregateFixed(front), rows[|rows| - 1]);
      SumsAfterStepFixed(rows, AggregateFixed(front), k);
    }
  }

  /** One corrected step keeps every key's total. */
  lemma SumsAfterStepFixed(rows: seq<CartRow>, d: Dict, k: string)
    requires |rows| > 0
    requires Lookup(d, k) == if k in RowKeys(rows[..|rows| - 1]) then Some(SumFor(rows[..|rows| - 1], k)) else None
    ensures Lookup(StepFixed(d, rows[|rows| - 1]), k) == if k in RowKeys(rows) then Some(SumFor(rows, k)) else None
  {
    var front := rows[..|rows| - 1];
    var row := rows[|rows| - 1];
    RowKeysOfPrefix(rows);
    LookupAfterStepFixed(d, row, k);
    SumForLast(rows, k);
    if k == Key(row) && k !in RowKeys(front) {
      SumForAbsent(front, k);
    }
  }

  /** The intended download. */
  function DownloadFixed(rows: seq<CartRow>): (content: string)
    ensures rows == [] <==> content == ""
  {
    var d := AggregateFixed(rows);
    assert |rows| > 0 ==> Key(rows[0]) in KeySet(d);
    Render(d)
  }

  /** Where the code as written does not stumble, the intended download
      produces the same file. */
  lemma {:induction false} FixedAgreesInOrdinaryCase(rows: seq<CartRow>)
    requires NoNameHit(rows) && RowKeysDistinct(rows)
    ensures DownloadShoppingCart(rows) == Ok(DownloadFixed(rows))
    decreases |rows|
  {
    AggregateInOrder(rows);
    FixedInOrder(rows);
  }

  lemma {:induction false} FixedInOrder(rows: seq<CartRow>)
    requires RowKeysDistinct(rows)
    ensures AggregateFixed(rows) == Entries(rows)
    decreases |rows|
  {
    if |rows| > 0 {
      var front := rows[..|rows| - 1];
      var row := rows[|rows| - 1];
      DistinctPrefix(rows);
      FixedInOrder(front);
      var d := Entries(front);
      assert KeySet(d) == RowKeys(front);
      FreshKey(rows, Key(row));
      assert StepFixed(d, row) == d + [Entry(Key(row), row.amount)];
      EntriesOfPrefix(rows);
    }
  }

  /** The intended dictionary has one entry per distinct key, in
      first-insertion order, each holding the total of its rows. */
  lemma {:induction false} FixedFirstOrder(rows: seq<CartRow>)
    ensures var d := AggregateFixed(rows);
            |d| == |FirstKeys(rows)| &&
            forall i :: 0 <= i < |d| ==> d[i].key == FirstKeys(rows)[i] && d[i].amount == SumFor(rows, d[i].key)
    decreases |rows|
  {
    var d := AggregateFixed(rows);
    if |rows| > 0 {
      var front := rows[..|rows| - 1];
      var row := rows[|rows| - 1];
      var e := AggregateFixed(front);
      FixedFirstOrder(front);
      assert d == StepFixed(e, row);
      match Lookup(e, Key(row))
      case Some(a) => AssignFollowsFirstKeys(rows, e, a + row.amount);
      case None => AssignFollowsFirstKeys(rows, e, row.amount);
    }
    forall i | 0 <= i < |d|
      ensures d[i].amount == SumFor(rows, d[i].key)
    {
      LookupAt(d, i);
      AggregateFixedSums(rows, d[i].key);
    }
  }

  /** On the collision input the intended loop adds the amounts up. */
  lemma FixedSumsCollision()
    ensures AggregateFixed([CartRow("a", "b)(c", 1), CartRow("a(b)", "c", 2)]) == [Entry("a(b)(c)", 3)]
    ensures AggregateFixed([CartRow("a", "b", 1), CartRow("a(b)", "c", 2)])
            == [Entry("a(b)", 1), Entry("a(b)(c)", 2)]
  {
    var rows := [CartRow("a", "b)(c", 1), CartRow("a(b)", "c", 2)];
    assert Key(rows[0]) == "a(b)(c)" && Key(rows[1]) == "a(b)(c)";
    FixedTwo(rows);
    var d := [Entry("a(b)(c)", 1)];
    assert Lookup(d, "a(b)(c)") == Some(1);
    assert Assign(d, "a(b)(c)", 3) == [Entry("a(b)(c)", 3)];
    var rows2 := [CartRow("a", "b", 1), CartRow("a(b)", "c", 2)];
    assert Key(rows2[0]) == "a(b)" && Key(rows2[1]) == "a(b)(c)";
    FixedTwo(rows2);
    var d2 := [Entry("a(b)", 1)];
    assert Lookup(d2, "a(b)(c)").None?;
  }

  /** Two rows: the first row's entry, then the second step. */
  lemma FixedTwo(rows: seq<CartRow>)
    requires |rows| == 2
    ensures AggregateFixed(rows) == StepFixed([Entry(Key(rows[0]), rows[0].amount)], rows[1])
  {
    assert rows[..1] == [rows[0]] && [rows[0]][..0] == [];
  }
}
