/**
 * src/scripts/import-roles.ts, replaceSource and main: the RoleTitle table, unique by language and
 * normalized label, which each source's import deletes from and then fills without overwriting.
 *
 * What a source's import collects is a parameter: titles(source).
 */
module RoleTable {
  import opened Results
  import opened RoleTitles
  import opened Sequences

  type Table = map<Key, RoleTitle>

  const BATCH: nat := 5000

  // The command line's --source argument.
  datatype Run = All | Only(source: Source)

  function SourcesOf(run: Run): seq<Source> {
    match run
    case All => [ESCO, CBO, ONET, CURATED]
    case Only(source) => [source]
  }

  // ---------- The database operations ----------

  function Without(t: Table, source: Source): Table {
    map k | k in t && t[k].parsed.source != source :: t[k]
  }

  // createMany with skipDuplicates: rows whose key is taken are skipped.
  function Inserted(t: Table, rows: seq<RoleTitle>): (r: Table)
    ensures forall k :: k in t ==> k in r && r[k] == t[k]
  {
    if rows == [] then t else
      var n := |rows| - 1;
      var m := Inserted(t, rows[..n]);
      if KeyOf(rows[n]) in m then m else m[KeyOf(rows[n]) := rows[n]]
  }

  function Replaced(t: Table, source: Source, rows: seq<RoleTitle>): Table {
    Inserted(Without(t, source), rows)
  }

  ghost predicate HasTitle(rows: seq<RoleTitle>, k: Key) {
    exists i :: 0 <= i < |rows| && KeyOf(rows[i]) == k
  }

  // The first row with the key.
  ghost function FirstTitle(rows: seq<RoleTitle>, k: Key): (title: RoleTitle)
    requires HasTitle(rows, k)
    ensures title in rows && KeyOf(title) == k
    ensures exists i: nat :: i < |rows| && rows[i] == title && forall j :: 0 <= j < i ==> KeyOf(rows[j]) != k
  {
    if KeyOf(rows[0]) == k then rows[0] else
      var title := FirstTitle(rows[1..], k);
      var i: nat :| i < |rows[1..]| && rows[1..][i] == title && forall j :: 0 <= j < i ==> KeyOf(rows[1..][j]) != k;
      assert rows[i + 1] == title && forall j :: 0 < j < i + 1 ==> rows[j] == rows[1..][j - 1];
      title
  }

  lemma {:induction false} FirstTitleOfMore(rows: seq<RoleTitle>, row: RoleTitle, k: Key)
    ensures HasTitle(rows + [row], k) <==> HasTitle(rows, k) || KeyOf(row) == k
    ensures HasTitle(rows + [row], k) ==>
              FirstTitle(rows + [row], k) == if HasTitle(rows, k) then FirstTitle(rows, k) else row
    decreases |rows|
  {
    var more := rows + [row];
    assert more[|rows|] == row && forall i :: 0 <= i < |rows| ==> more[i] == rows[i];
    if rows != [] {
      assert more[1..] == rows[1..] + [row];
      FirstTitleOfMore(rows[1..], row, k);
      assert HasTitle(rows[1..], k) ==> HasTitle(rows, k);
    }
  }

  // What inserting does, key by key.
  lemma {:induction false} InsertedAt(t: Table, rows: seq<RoleTitle>, k: Key)
    ensures k in Inserted(t, rows) <==> k in t || HasTitle(rows, k)
    ensures k in Inserted(t, rows) ==> Inserted(t, rows)[k] == if k in t then t[k] else FirstTitle(rows, k)
    decreases |rows|
  {
    if rows != [] {
      var n := |rows| - 1;
      assert rows == rows[..n] + [rows[n]];
      InsertedAt(t, rows[..n], k);
      FirstTitleOfMore(rows[..n], rows[n], k);
    }
  }

  // What replacing a source does, key by key: another source's title stays, then the first new one counts.
  lemma ReplacedAt(t: Table, source: Source, rows: seq<RoleTitle>, k: Key)
    ensures var r := Replaced(t, source, rows);
            if k in t && t[k].parsed.source != source then k in r && r[k] == t[k]
            else if HasTitle(rows, k) then k in r && r[k] == FirstTitle(rows, k)
            else k !in r
  {
    InsertedAt(Without(t, source), rows, k);
  }

  // Every title stands under its language and folded label.
  ghost predicate Keyed(t: Table) {
    forall k :: k in t ==> t[k].parsed.lang == k.0 && t[k].normalizedLabel == k.1
  }

  // A title is left out only if one of the same language and folded label is there: titles that share
  // a label but not the language both stay.
  lemma {:induction false} SameLabelOtherLanguage(t: Table, rows: seq<RoleTitle>)
    requires Keyed(t)
    ensures Keyed(Inserted(t, rows))
    ensures forall i :: 0 <= i < |rows| ==> (rows[i].parsed.lang, rows[i].normalizedLabel) in Inserted(t, rows)
    ensures forall k :: k in Inserted(t, rows) && k !in t ==> Inserted(t, rows)[k] in rows
    decreases |rows|
  {
    if rows != [] {
      var n := |rows| - 1;
      assert rows == rows[..n] + [rows[n]];
      SameLabelOtherLanguage(t, rows[..n]);
    }
  }

  // Inserting batch by batch is inserting everything.
  lemma {:induction false} InsertedInBatches(t: Table, a: seq<RoleTitle>, b: seq<RoleTitle>)
    ensures Inserted(Inserted(t, a), b) == Inserted(t, a + b)
    decreases |b|
  {
    if b == [] {
      assert a + b == a;
    } else {
      var n := |b| - 1;
      InsertedInBatches(t, a, b[..n]);
      assert (a + b)[..|a + b| - 1] == a + b[..n];
    }
  }

  lemma InsertedNothing(t: Table)
    ensures Inserted(t, []) == t
  {
  }

  // The slice from i to i + BATCH is what the first i rows lack of the first i + BATCH.
  lemma NextBatch(t: Table, rows: seq<RoleTitle>, i: nat)
    requires i < |rows|
    ensures var end := Clip(i + BATCH, |rows|);
            Inserted(Inserted(t, rows[..i]), rows[i..end]) == Inserted(t, rows[..end])
  {
    var end := Clip(i + BATCH, |rows|);
    InsertedInBatches(t, rows[..i], rows[i..end]);
    assert rows[..i] + rows[i..end] == rows[..end];
  }

  // ---------- The import script ----------

  class RoleTitleTable {
    var rows: Table

    constructor ()
      ensures rows == map[]
    {
      rows := map[];
    }

    method DeleteMany(source: Source)
      modifies this
      ensures rows == Without(old(rows), source)
    {
      rows := Without(rows, source);
    }

    // Returns how many rows were new.
    method CreateMany(data: seq<RoleTitle>) returns (count: nat)
      modifies this
      ensures rows == Inserted(old(rows), data)
      ensures count == |rows| - |old(rows)|
    {
      count := 0;
      ghost var before := rows;
      for i := 0 to |data|
        invariant rows == Inserted(before, data[..i])
        invariant count == |rows| - |before|
      {
        assert data[..i + 1][..i] == data[..i];
        if KeyOf(data[i]) !in rows {
          rows := rows[KeyOf(data[i]) := data[i]];
          count := count + 1;
        }
      }
      assert data[..|data|] == data;
    }

    method ReplaceSource(source: Source, titles: seq<RoleTitle>) returns (inserted: nat)
      modifies this
      ensures rows == Replaced(old(rows), source, titles)
      ensures inserted == |rows| - |Without(old(rows), source)|
    {
      hide Inserted, Without;
      DeleteMany(source);
      ghost var kept := rows;
      InsertedNothing(kept);
      inserted := 0;
      var i := 0;
      while i < |titles|
        invariant 0 <= i
        invariant rows == Inserted(kept, titles[..Clip(i, |titles|)])
        invariant inserted == |rows| - |kept|
        decreases |titles| - i
      {
        NextBatch(kept, titles, i);
        var batch := titles[i..Clip(i + BATCH, |titles|)];
        var count := CreateMany(batch);
        inserted := inserted + count;
        i := i + BATCH;
      }
      assert titles[..|titles|] == titles;
    }

    method Import(run: Run, titles: Source -> seq<RoleTitle>)
      modifies this
      ensures rows == AfterAll(old(rows), SourcesOf(run), titles)
    {
      ghost var t := rows;
      AfterSteps(t, titles);
      match run {
        case All =>
          var _ := ReplaceSource(ESCO, titles(ESCO));
          var _ := ReplaceSource(CBO, titles(CBO));
          var _ := ReplaceSource(ONET, titles(ONET));
          var _ := ReplaceSource(CURATED, titles(CURATED));
        case Only(source) =>
          var _ := ReplaceSource(source, titles(source));
      }
    }
  }

  // The table after the sources have been imported one after the other.
  function AfterAll(t: Table, sources: seq<Source>, titles: Source -> seq<RoleTitle>): Table {
    if sources == [] then t else
      var n := |sources| - 1;
      Replaced(AfterAll(t, sources[..n], titles), sources[n], titles(sources[n]))
  }

  lemma AfterOneMore(t: Table, sources: seq<Source>, source: Source, titles: Source -> seq<RoleTitle>)
    ensures AfterAll(t, sources + [source], titles) == Replaced(AfterAll(t, sources, titles), source, titles(source))
  {
    assert (sources + [source])[..|sources|] == sources;
  }

  lemma {:induction false} AfterAppend(t: Table, a: seq<Source>, b: seq<Source>, titles: Source -> seq<RoleTitle>)
    ensures AfterAll(t, a + b, titles) == AfterAll(AfterAll(t, a, titles), b, titles)
    decreases |b|
  {
    if b == [] {
      assert a + b == a;
    } else {
      var n := |b| - 1;
      assert (a + b)[..|a + b| - 1] == a + b[..n];
      AfterAppend(t, a, b[..n], titles);
    }
  }

  // Starting from an empty table, no two titles ever share language and folded label.
  lemma {:induction false} TableIsKeyed(sources: seq<Source>, titles: Source -> seq<RoleTitle>)
    ensures Keyed(AfterAll(map[], sources, titles))
    decreases |sources|
  {
    if sources != [] {
      var n := |sources| - 1;
      TableIsKeyed(sources[..n], titles);
      SameLabelOtherLanguage(Without(AfterAll(map[], sources[..n], titles), sources[n]), titles(sources[n]));
    }
  }

  lemma AfterSteps(t: Table, titles: Source -> seq<RoleTitle>)
    ensures forall s :: AfterAll(t, [s], titles) == Replaced(t, s, titles(s))
    ensures AfterAll(t, [ESCO, CBO, ONET, CURATED], titles) ==
            var esco := Replaced(t, ESCO, titles(ESCO));
            Replaced(Replaced(Replaced(esco, CBO, titles(CBO)), ONET, titles(ONET)), CURATED, titles(CURATED))
  {
    forall s ensures AfterAll(t, [s], titles) == Replaced(t, s, titles(s)) {
      assert [] + [s] == [s];
      AfterOneMore(t, [], s, titles);
    }
    AfterOneMore(t, [ESCO], CBO, titles);
    AfterOneMore(t, [ESCO, CBO], ONET, titles);
    AfterOneMore(t, [ESCO, CBO, ONET], CURATED, titles);
    assert [ESCO] + [CBO] == [ESCO, CBO] && [ESCO, CBO] + [ONET] == [ESCO, CBO, ONET];
    assert [ESCO, CBO, ONET] + [CURATED] == [ESCO, CBO, ONET, CURATED];
  }

  // ---------- Ownership ----------

  // Every source's rows carry that source, as its import builds them.
  ghost predicate OwnTitles(titles: Source -> seq<RoleTitle>) {
    forall s, title :: title in titles(s) ==> title.parsed.source == s
  }

  // Source i is the first one in the list that has the key.
  ghost predicate IsFirstOwner(sources: seq<Source>, titles: Source -> seq<RoleTitle>, k: Key, i: nat) {
    && i < |sources| && HasTitle(titles(sources[i]), k)
    && (forall j :: 0 <= j < i ==> !HasTitle(titles(sources[j]), k))
  }

  // The first source in the list that has the key.
  ghost function Owner(sources: seq<Source>, titles: Source -> seq<RoleTitle>, k: Key): (r: Option<Source>)
    ensures r.None? ==> forall j :: 0 <= j < |sources| ==> !HasTitle(titles(sources[j]), k)
    ensures r.Some? ==> exists i: nat :: IsFirstOwner(sources, titles, k, i) && sources[i] == r.value
  {
    if sources == [] then None
    else if HasTitle(titles(sources[0]), k) then
      assert IsFirstOwner(sources, titles, k, 0);
      Some(sources[0])
    else
      var r := Owner(sources[1..], titles, k);
      assert r.Some? ==> exists i: nat :: IsFirstOwner(sources, titles, k, i) && sources[i] == r.value by {
        if r.Some? {
          var i: nat :| IsFirstOwner(sources[1..], titles, k, i) && sources[1..][i] == r.value;
          assert IsFirstOwner(sources, titles, k, i + 1);
        }
      }
      assert r.None? ==> forall j :: 0 < j < |sources| ==> sources[j] == sources[1..][j - 1];
      r
  }

  // The table holds the owner's first title for the key, or nothing if no source has it.
  ghost predicate HoldsOwners(t: Table, sources: seq<Source>, titles: Source -> seq<RoleTitle>, k: Key) {
    match Owner(sources, titles, k)
    case None => k !in t
    case Some(s) => HasTitle(titles(s), k) && k in t && t[k] == FirstTitle(titles(s), k)
  }

  lemma {:induction false} OwnerOfMore(sources: seq<Source>, more: seq<Source>,
                                       titles: Source -> seq<RoleTitle>, k: Key)
    ensures Owner(sources + more, titles, k) ==
            if Owner(sources, titles, k).Some? then Owner(sources, titles, k) else Owner(more, titles, k)
    decreases |sources|
  {
    if sources == [] {
      assert sources + more == more;
    } else {
      assert (sources + more)[1..] == sources[1..] + more;
      OwnerOfMore(sources[1..], more, titles, k);
    }
  }

  // Whatever the order of imports into an empty table, and however often sources are repeated, a
  // key belongs to the first source imported that has it.
  lemma {:induction false} EmptyTableFillsUp(sources: seq<Source>, titles: Source -> seq<RoleTitle>, k: Key)
    requires OwnTitles(titles)
    ensures HoldsOwners(AfterAll(map[], sources, titles), sources, titles, k)
    decreases |sources|
  {
    if sources != [] {
      var n := |sources| - 1;
      var t := AfterAll(map[], sources[..n], titles);
      var last := sources[n];
      EmptyTableFillsUp(sources[..n], titles, k);
      ReplacedAt(t, last, titles(last), k);
      assert sources == sources[..n] + [last];
      OwnerOfMore(sources[..n], [last], titles, k);
      assert Owner([last], titles, k) == if HasTitle(titles(last), k) then Some(last) else None by {
        assert [last][1..] == [];
      }
      if Owner(sources[..n], titles, k).Some? {
        var s := Owner(sources[..n], titles, k).value;
        assert t[k] in titles(s);
      }
    }
  }

  // Importing sources again, in any order and any number of times, leaves the table as it is.
  lemma ReimportChangesNothing(sources: seq<Source>, again: seq<Source>, titles: Source -> seq<RoleTitle>)
    requires OwnTitles(titles) && forall s :: s in again ==> s in sources
    ensures AfterAll(map[], sources + again, titles) == AfterAll(map[], sources, titles)
  {
    var t, u := AfterAll(map[], sources, titles), AfterAll(map[], sources + again, titles);
    forall k ensures (k in t <==> k in u) && (k in t ==> t[k] == u[k]) {
      EmptyTableFillsUp(sources, titles, k);
      EmptyTableFillsUp(sources + again, titles, k);
      OwnerOfMore(sources, again, titles, k);
      if Owner(sources, titles, k).None? {
        forall j | 0 <= j < |again| ensures !HasTitle(titles(again[j]), k) {
          assert again[j] in sources;
        }
      }
    }
  }

  function SourcesOfRuns(runs: seq<Run>): seq<Source> {
    if runs == [] then [] else SourcesOf(runs[0]) + SourcesOfRuns(runs[1..])
  }

  // From an empty table, --source=all gives each key to the first of ESCO, CBO, O*NET and the
  // curated catalog that has it, and no later runs on the same input change the table.
  lemma AllThenAnyRuns(runs: seq<Run>, titles: Source -> seq<RoleTitle>)
    requires OwnTitles(titles)
    ensures forall k :: HoldsOwners(AfterAll(map[], SourcesOf(All), titles), [ESCO, CBO, ONET, CURATED], titles, k)
    ensures AfterAll(map[], SourcesOf(All) + SourcesOfRuns(runs), titles) == AfterAll(map[], SourcesOf(All), titles)
  {
    forall k ensures HoldsOwners(AfterAll(map[], SourcesOf(All), titles), SourcesOf(All), titles, k) {
      EmptyTableFillsUp(SourcesOf(All), titles, k);
    }
    forall s: Source ensures s in SourcesOf(All) {
      match s
      case ESCO => assert SourcesOf(All)[0] == s;
      case CBO => assert SourcesOf(All)[1] == s;
      case ONET => assert SourcesOf(All)[2] == s;
      case CURATED => assert SourcesOf(All)[3] == s;
    }
    ReimportChangesNothing(SourcesOf(All), SourcesOfRuns(runs), titles);
  }

  // Key k is free, or some ESCO import owns it.
  ghost predicate FreeOrEsco(t: Table, k: Key) {
    k in t ==> t[k].parsed.source == ESCO
  }

  lemma OtherSourceKeepsEsco(t: Table, source: Source, rows: seq<RoleTitle>, k: Key)
    requires source != ESCO && forall title :: title in rows ==> title.parsed.source == source
    ensures var r := Replaced(t, source, rows);
            (k in r && r[k].parsed.source == ESCO) <==> (k in t && t[k].parsed.source == ESCO)
  {
    ReplacedAt(t, source, rows, k);
    if HasTitle(rows, k) {
      assert FirstTitle(rows, k) in rows;
    }
  }

  // A title another source owned stays out of ESCO's hands while sources other than ESCO are imported.
  lemma {:induction false} EscoKeeps(t: Table, sources: seq<Source>, titles: Source -> seq<RoleTitle>, k: Key)
    requires OwnTitles(titles) && forall s :: s in sources ==> s != ESCO
    ensures var r := AfterAll(t, sources, titles);
            (k in r && r[k].parsed.source == ESCO) <==> (k in t && t[k].parsed.source == ESCO)
    decreases |sources|
  {
    if sources != [] {
      var n := |sources| - 1;
      var last := sources[n];
      assert last in sources;
      assert forall s :: s in sources[..n] ==> s in sources;
      EscoKeeps(t, sources[..n], titles, k);
      OtherSourceKeepsEsco(AfterAll(t, sources[..n], titles), last, titles(last), k);
    }
  }

  lemma EscoTakesFree(t: Table, titles: Source -> seq<RoleTitle>, k: Key)
    requires OwnTitles(titles) && HasTitle(titles(ESCO), k)
    ensures var r := Replaced(t, ESCO, titles(ESCO));
            (k in r && r[k].parsed.source == ESCO) <==> FreeOrEsco(t, k)
  {
    ReplacedAt(t, ESCO, titles(ESCO), k);
    assert FirstTitle(titles(ESCO), k) in titles(ESCO);
  }

  // The header says that in the `all` order ESCO wins overlapping titles. On a table that is not
  // empty it does so exactly for the keys no other source holds beforehand.
  lemma EscoWinsIffFree(t: Table, titles: Source -> seq<RoleTitle>, k: Key)
    requires OwnTitles(titles) && HasTitle(titles(ESCO), k)
    ensures var r := AfterAll(t, SourcesOf(All), titles);
            (k in r && r[k].parsed.source == ESCO) <==> FreeOrEsco(t, k)
  {
    var u := Replaced(t, ESCO, titles(ESCO));
    EscoTakesFree(t, titles, k);
    hide Replaced, HasTitle, OwnTitles;
    assert AfterAll(t, [ESCO], titles) == u by {
      AfterSteps(t, titles);
    }
    AfterAppend(t, [ESCO], [CBO, ONET, CURATED], titles);
    EscoKeeps(u, [CBO, ONET, CURATED], titles, k);
    assert SourcesOf(All) == [ESCO] + [CBO, ONET, CURATED];
  }
}
