/**
 * src/scripts/import-roles.ts, importEsco: the paginated sweep over the ESCO API, which asks for a
 * page up to three times and splits a failing window down to single rows, so that only rows that
 * cannot be had in any way are skipped.
 *
 * The API is a parameter: answers(limit, page, attempt) tells which requests succeed. No page is
 * asked for in two places of the sweep, so this covers failures that pass as well as those that stay.
 */
module EscoSweep {
  import opened Results
  import opened Sequences

  type Occupation(!new)

  const ESCO_PAGE: nat := 50
  const ESCO_RETRIES: nat := 3

  datatype Server = Server(records: seq<Occupation>, answers: (nat, nat, nat) -> bool)

  // The records with indexes from lo to below hi, as far as there are any.
  function Window(api: Server, lo: nat, hi: nat): seq<Occupation>
    requires lo <= hi
  {
    var n := |api.records|;
    api.records[Clip(lo, n)..Clip(hi, n)]
  }

  // All attempts at the page fail.
  predicate Fails(api: Server, limit: nat, page: nat) {
    forall attempt: nat :: 1 <= attempt <= ESCO_RETRIES ==> !api.answers(limit, page, attempt)
  }

  // The row cannot be had: neither its page of fifty nor its page of ten nor the row alone is delivered.
  predicate Lost(api: Server, i: nat) {
    Fails(api, ESCO_PAGE, i / ESCO_PAGE) && Fails(api, 10, i / 10) && Fails(api, 1, i)
  }

  // ---------- What the sweep should bring home ----------

  // One of the three attempts at the page succeeds.
  predicate Answered(api: Server, limit: nat, page: nat) {
    api.answers(limit, page, 1) || api.answers(limit, page, 2) || api.answers(limit, page, 3)
  }

  // The row can be had with its page of fifty rows, with its page of ten, or alone.
  predicate CanBeHad(api: Server, i: nat) {
    Answered(api, 50, i / 50) || Answered(api, 10, i / 10) || Answered(api, 1, i)
  }

  // The rows are the records that can be had: `at` gives their indexes, in growing order.
  ghost predicate BringsHome(api: Server, rows: seq<Occupation>, at: seq<nat>) {
    && |at| == |rows|
    && (forall k :: 0 <= k < |at| ==> at[k] < |api.records| && rows[k] == api.records[at[k]])
    && (forall k, l :: 0 <= k < l < |at| ==> at[k] < at[l])
    && (forall i: nat :: i in at <==> i < |api.records| && CanBeHad(api, i))
  }

  lemma LostUnlessHad(api: Server, i: nat)
    ensures Lost(api, i) <==> !CanBeHad(api, i)
  {
  }

  // The records of the window that are not lost, in order.
  ghost function Good(api: Server, lo: nat, hi: nat): seq<Occupation> {
    if hi <= lo then []
    else Good(api, lo, hi - 1) + if hi - 1 < |api.records| && !Lost(api, hi - 1) then [api.records[hi - 1]] else []
  }

  ghost function LostIndexes(api: Server, lo: nat, hi: nat): set<nat> {
    set i: nat | lo <= i < hi && Lost(api, i)
  }

  ghost function LostCount(api: Server, lo: nat, hi: nat): nat {
    |LostIndexes(api, lo, hi)|
  }

  // Some request for rows of the window succeeds.
  ghost predicate SomeSuccess(api: Server, lo: nat, hi: nat) {
    exists i: nat :: lo <= i < hi && !Lost(api, i)
  }

  // Where the sweep stops asking: after the page of fifty with the last record, but not before the first.
  function SweepEnd(api: Server): (end: nat)
    ensures end % 50 == 0 && |api.records| <= end && 50 <= end
    ensures end == 50 || end < |api.records| + 50
  {
    if api.records == [] then ESCO_PAGE else (|api.records| + ESCO_PAGE - 1) / ESCO_PAGE * ESCO_PAGE
  }

  lemma FirstWindow(api: Server)
    ensures SomeSuccess(api, 0, ESCO_PAGE) <==> exists i: nat :: i < 50 && CanBeHad(api, i)
  {
    forall i: nat ensures Lost(api, i) <==> !CanBeHad(api, i) {
      LostUnlessHad(api, i);
    }
  }

  lemma SkippedRows(api: Server, hi: nat)
    ensures LostCount(api, 0, hi) == |set i: nat | i < hi && !CanBeHad(api, i)|
  {
    forall i: nat ensures Lost(api, i) <==> !CanBeHad(api, i) {
      LostUnlessHad(api, i);
    }
    assert LostIndexes(api, 0, hi) == set i: nat | i < hi && !CanBeHad(api, i);
  }

  // The records that Good lists are those that can be had.
  lemma GoodListsDelivered(api: Server, hi: nat) returns (at: seq<nat>)
    requires hi == |api.records|
    ensures BringsHome(api, Good(api, 0, hi), at)
  {
    at := GoodListsNotLost(api, hi);
    forall i: nat ensures i in at <==> i < hi && CanBeHad(api, i) {
      LostUnlessHad(api, i);
    }
  }

  // The indexes, in growing order, of the records that Good lists: all that are not lost.
  lemma {:induction false} GoodListsNotLost(api: Server, hi: nat) returns (indexes: seq<nat>)
    requires hi <= |api.records|
    ensures |indexes| == |Good(api, 0, hi)|
    ensures forall k :: 0 <= k < |indexes| ==> indexes[k] < hi && Good(api, 0, hi)[k] == api.records[indexes[k]]
    ensures forall a, b :: 0 <= a < b < |indexes| ==> indexes[a] < indexes[b]
    ensures forall i: nat :: i in indexes <==> i < hi && !Lost(api, i)
    decreases hi
  {
    if hi == 0 {
      indexes := [];
    } else {
      var before := GoodListsNotLost(api, hi - 1);
      assert forall k :: 0 <= k < |before| ==> before[k] in before;
      indexes := before + if Lost(api, hi - 1) then [] else [hi - 1];
    }
  }

  lemma {:induction false} GoodJoins(api: Server, lo: nat, mid: nat, hi: nat)
    requires lo <= mid <= hi
    ensures Good(api, lo, hi) == Good(api, lo, mid) + Good(api, mid, hi)
    decreases hi
  {
    if mid < hi {
      GoodJoins(api, lo, mid, hi - 1);
    }
  }

  lemma Split(api: Server, lo: nat, mid: nat, hi: nat)
    requires lo <= mid <= hi
    ensures Good(api, lo, hi) == Good(api, lo, mid) + Good(api, mid, hi)
    ensures LostCount(api, lo, hi) == LostCount(api, lo, mid) + LostCount(api, mid, hi)
    ensures SomeSuccess(api, lo, hi) <==> SomeSuccess(api, lo, mid) || SomeSuccess(api, mid, hi)
  {
    GoodJoins(api, lo, mid, hi);
    var a, b := LostIndexes(api, lo, mid), LostIndexes(api, mid, hi);
    assert LostIndexes(api, lo, hi) == a + b && a !! b;
  }

  lemma NoRows(api: Server, lo: nat)
    ensures Good(api, lo, lo) == [] && LostCount(api, lo, lo) == 0 && !SomeSuccess(api, lo, lo)
  {
    assert LostIndexes(api, lo, lo) == {};
  }

  lemma {:induction false} GoodIsWindow(api: Server, lo: nat, hi: nat)
    requires lo <= hi && forall i: nat :: lo <= i < hi ==> !Lost(api, i)
    ensures Good(api, lo, hi) == Window(api, lo, hi)
    decreases hi
  {
    if lo < hi {
      GoodIsWindow(api, lo, hi - 1);
      if hi - 1 < |api.records| {
        assert Window(api, lo, hi) == Window(api, lo, hi - 1) + [api.records[hi - 1]];
      }
    }
  }

  // The rows of a page.
  lemma PageOf(limit: nat, page: nat, i: nat)
    requires IsLimit(limit)
    ensures i / limit == page <==> limit * page <= i < limit * page + limit
  {
    if limit == ESCO_PAGE {
      assert i == 50 * (i / 50) + i % 50;
    } else if limit == 10 {
      assert i == 10 * (i / 10) + i % 10;
    }
  }

  // A page that is delivered brings all its rows.
  lemma PageDelivered(api: Server, limit: nat, page: nat)
    requires IsLimit(limit) && !Fails(api, limit, page)
    ensures var lo := limit * page;
            && Good(api, lo, lo + limit) == Window(api, lo, lo + limit)
            && LostCount(api, lo, lo + limit) == 0 && SomeSuccess(api, lo, lo + limit)
  {
    var lo := limit * page;
    forall i: nat | lo <= i < lo + limit ensures !Lost(api, i) {
      PageOf(limit, page, i);
    }
    GoodIsWindow(api, lo, lo + limit);
    assert LostIndexes(api, lo, lo + limit) == {};
    assert !Lost(api, lo);
  }

  // The larger pages with the rows of this window have failed already.
  ghost predicate Tried(api: Server, start: nat, span: nat, limit: nat) {
    forall i: nat :: start <= i < start + span ==>
      (limit < ESCO_PAGE ==> Fails(api, ESCO_PAGE, i / ESCO_PAGE)) && (limit < 10 ==> Fails(api, 10, i / 10))
  }

  lemma TriedPage(api: Server, start: nat, span: nat, limit: nat, page: nat)
    requires IsLimit(limit) && limit > 1 && Tried(api, start, span, limit) && Fails(api, limit, page)
    requires start <= limit * page && limit * page + limit <= start + span
    ensures Tried(api, limit * page, limit, if limit == ESCO_PAGE then 10 else 1)
  {
    forall i: nat | limit * page <= i < limit * page + limit ensures Fails(api, limit, i / limit) {
      PageOf(limit, page, i);
    }
  }

  // A single row that fails after its larger pages is lost.
  lemma RowFailed(api: Server, i: nat)
    requires Tried(api, i, 1, 1) && Fails(api, 1, i)
    ensures Good(api, i, i + 1) == [] && LostCount(api, i, i + 1) == 1 && !SomeSuccess(api, i, i + 1)
  {
    assert Lost(api, i);
    assert LostIndexes(api, i, i + 1) == {i};
    assert Good(api, i, i) == [];
  }

  // Nothing lies beyond the last record.
  lemma {:induction false} BeyondTheEnd(api: Server, hi: nat)
    requires hi >= |api.records|
    ensures Good(api, 0, hi) == Good(api, 0, |api.records|)
    decreases hi
  {
    if hi > |api.records| {
      BeyondTheEnd(api, hi - 1);
    }
  }

  // Every record is either brought home or counted as skipped.
  lemma {:induction false} EveryRecordAccounted(api: Server, hi: nat)
    requires hi <= |api.records|
    ensures |Good(api, 0, hi)| + LostCount(api, 0, hi) == hi
    decreases hi
  {
    if hi == 0 {
      NoRows(api, 0);
    } else {
      EveryRecordAccounted(api, hi - 1);
      var before := LostIndexes(api, 0, hi - 1);
      assert LostIndexes(api, 0, hi) == before + (if Lost(api, hi - 1) then {hi - 1} else {});
    }
  }

  // ---------- Page alignment ----------

  // The page sizes the sweep uses: whole pages, tens and single rows.
  predicate IsLimit(limit: nat) {
    limit == ESCO_PAGE || limit == 10 || limit == 1
  }

  predicate Multiple(s: nat, limit: nat) {
    limit > 0 && s % limit == 0
  }

  lemma SumAligned(s: nat, span: nat, limit: nat)
    requires IsLimit(limit) && Multiple(s, limit) && Multiple(span, limit)
    ensures Multiple(s + span, limit)
  {
    if limit == ESCO_PAGE {
      FiftyFold(s, span);
    } else if limit == 10 {
      TenFold(s, span);
    }
  }

  lemma FiftyFold(s: nat, t: nat)
    requires s % 50 == 0 && t % 50 == 0
    ensures (s + t) % 50 == 0
  {
    var a, b := s / 50, t / 50;
    assert s + t == 50 * (a + b);
  }

  lemma TenFold(s: nat, t: nat)
    requires s % 10 == 0 && t % 10 == 0
    ensures (s + t) % 10 == 0
  {
    var a, b := s / 10, t / 10;
    assert s + t == 10 * (a + b);
  }

  lemma TriedRow(api: Server, start: nat, span: nat, i: nat)
    requires Tried(api, start, span, 1) && start <= i < start + span
    ensures Tried(api, i, 1, 1)
  {
  }

  // Below an aligned end, s is the start of a whole page, whose number s / limit is exact; the
  // page can be split into pages of the next smaller size.
  lemma Aligned(s: nat, end: nat, limit: nat)
    requires IsLimit(limit) && Multiple(s, limit) && Multiple(end, limit) && s < end
    ensures limit * (s / limit) == s && s + limit <= end && Multiple(s + limit, limit)
    ensures limit == ESCO_PAGE ==> Multiple(s, 10) && Multiple(limit, 10)
    ensures Multiple(s, 1) && Multiple(limit, 1)
  {
    if limit == ESCO_PAGE {
      var k := s / 50;
      assert s == 50 * k && s == 10 * (5 * k);
    } else if limit == 10 {
      assert s == 10 * (s / 10);
    }
  }

  // ---------- Poisoned records ----------

  // The API fails for good on every page with a poisoned record, and delivers every other row when
  // asked for it alone. On other pages of more than one row it may fail or not.
  ghost predicate ServesAllBut(api: Server, poisoned: set<nat>) {
    && (forall limit: nat, page: nat, i ::
          IsLimit(limit) && i in poisoned && limit * page <= i < limit * page + limit ==> Fails(api, limit, page))
    && (forall i: nat :: i !in poisoned ==> !Fails(api, 1, i))
  }

  lemma LostIffPoisoned(api: Server, poisoned: set<nat>, i: nat)
    requires ServesAllBut(api, poisoned)
    ensures Lost(api, i) <==> i in poisoned
  {
    PageOf(ESCO_PAGE, i / ESCO_PAGE, i);
    PageOf(10, i / 10, i);
    PageOf(1, i, i);
  }

  // Then the sweep skips exactly the poisoned records, and fails exactly if it meets fifty of them first.
  lemma OnlyPoisonedSkipped(api: Server, poisoned: set<nat>)
    requires ServesAllBut(api, poisoned) && forall i :: i in poisoned ==> i < |api.records|
    ensures forall i: nat :: Lost(api, i) <==> i in poisoned
    ensures LostCount(api, 0, SweepEnd(api)) == |poisoned|
    ensures SomeSuccess(api, 0, ESCO_PAGE) <==> exists i: nat :: i < ESCO_PAGE && i !in poisoned
  {
    forall i: nat ensures Lost(api, i) <==> i in poisoned {
      LostIffPoisoned(api, poisoned, i);
    }
    assert |api.records| <= SweepEnd(api);
    assert LostIndexes(api, 0, SweepEnd(api)) == poisoned;
  }

  // ---------- The sweep ----------

  class Sweep {
    const api: Server
    // None until some page has succeeded.
    var total: Option<nat>
    var skipped: nat

    constructor (api: Server)
      ensures this.api == api && total == None && skipped == 0
    {
      this.api := api;
      total, skipped := None, 0;
    }

    // None when the API fails three times.
    method FetchPage(limit: nat, page: nat) returns (r: Option<seq<Occupation>>)
      modifies `total
      ensures r == if Fails(api, limit, page) then None else Some(Window(api, limit * page, limit * page + limit))
      ensures total == if r.Some? then Some(|api.records|) else old(total)
      ensures r.None? <==>
        !api.answers(limit, page, 1) && !api.answers(limit, page, 2) && !api.answers(limit, page, 3)
    {
      for attempt := 1 to ESCO_RETRIES + 1
        invariant forall a: nat :: 1 <= a < attempt ==> !api.answers(limit, page, a)
        invariant total == old(total)
      {
        if api.answers(limit, page, attempt) {
          total := Some(|api.records|);
          return Some(Window(api, limit * page, limit * page + limit));
        }
      }
      r := None;
    }

    // Fetches the rows from start to below start + span, in pages of `limit` rows.
    method FetchRows(start: nat, span: nat, limit: nat) returns (out: seq<Occupation>)
      requires IsLimit(limit) && Multiple(start, limit) && Multiple(span, limit) && Tried(api, start, span, limit)
      modifies this
      ensures out == Good(api, start, start + span)
      ensures skipped == old(skipped) + LostCount(api, start, start + span)
      ensures total == if SomeSuccess(api, start, start + span) then Some(|api.records|) else old(total)
      decreases limit
    {
      hide Good, LostCount, SomeSuccess, Fails, Window, Multiple, Tried;
      SumAligned(start, span, limit);
      out := [];
      var s := start;
      NoRows(api, start);
      while s < start + span
        invariant start <= s <= start + span && Multiple(s, limit)
        invariant out == Good(api, start, s)
        invariant skipped == old(skipped) + LostCount(api, start, s)
        invariant total == if SomeSuccess(api, start, s) then Some(|api.records|) else old(total)
        decreases start + span - s
      {
        Aligned(s, start + span, limit);
        Split(api, start, s, s + limit);
        var index := s / limit;
        var page := FetchPage(limit, index);
        if page.Some? {
          PageDelivered(api, limit, index);
          out := out + page.value;
        } else if limit == 1 {
          TriedRow(api, start, span, index);
          RowFailed(api, index);
          skipped := skipped + 1;
        } else {
          TriedPage(api, start, span, limit, index);
          var smaller := if limit == ESCO_PAGE then 10 else 1;
          var rows := FetchRows(s, limit, smaller);
          out := out + rows;
        }
        s := s + limit;
      }
    }

    // All occupations that can be had, or a failure if no request in the first window succeeds.
    method Run() returns (r: Result<seq<Occupation>, string>)
      requires total == None && skipped == 0
      modifies this
      ensures r.Failure? <==> forall i: nat :: i < 50 ==> !CanBeHad(api, i)
      ensures r.Success? ==> exists at :: BringsHome(api, r.value, at)
      ensures r.Success? ==> skipped == |set i: nat | i < SweepEnd(api) && !CanBeHad(api, i)|
    {
      hide Good, LostCount;
      var occupations := [];
      var start: nat := 0;
      NoRows(api, 0);
      while total.None? || start < total.value
        invariant start % ESCO_PAGE == 0
        invariant total == if start == 0 then None else Some(|api.records|)
        invariant start > 0 ==> SomeSuccess(api, 0, ESCO_PAGE)
        invariant start <= SweepEnd(api) && (start == SweepEnd(api) || start == 0 || start < |api.records|)
        invariant occupations == Good(api, 0, start) && skipped == LostCount(api, 0, start)
        decreases total.None?, |api.records| - start
      {
        Split(api, 0, start, start + ESCO_PAGE);
        assert Multiple(start, ESCO_PAGE) && Multiple(ESCO_PAGE, ESCO_PAGE) && Tried(api, start, ESCO_PAGE, ESCO_PAGE);
        var results := FetchRows(start, ESCO_PAGE, ESCO_PAGE);
        if total.None? {
          FirstWindow(api);
          return Failure("ESCO API unreachable (no page succeeded)");
        }
        occupations := occupations + results;
        start := start + ESCO_PAGE;
      }
      BeyondTheEnd(api, start);
      FirstWindow(api);
      ghost var at := GoodListsDelivered(api, |api.records|);
      SkippedRows(api, start);
      r := Success(occupations);
    }
  }
}
