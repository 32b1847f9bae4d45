/**
 * prisma/data-migrations/migrate-profile-links-to-sections.seed.ts: what the dedupe keys `kind|url`
 * of existing items say about the links of a user, when kinds and urls may contain the separator.
 */
module LinkKeys {
  import opened Results
  import opened Sequences
  import opened Whitespace
  import opened LinkMigration

  predicate IsColumnKind(kind: string) {
    kind == "LINKEDIN" || kind == "GITHUB" || kind == "WEBSITE" || kind == "PORTFOLIO"
  }

  function KindOf(item: Item): string
    requires HasLink(item)
  {
    item.content.value.kind.value
  }

  function UrlOf(item: Item): string
    requires HasLink(item)
  {
    Trim(item.content.value.url.value)
  }

  // One of the items is this link.
  ghost predicate Holds(items: seq<Item>, kind: string, url: string) {
    exists i :: 0 <= i < |items| && HasLink(items[i]) && KindOf(items[i]) == kind && UrlOf(items[i]) == url
  }

  ghost predicate HoldsColumn(items: seq<Item>, column: Column)
    requires HasUrl(column)
  {
    Holds(items, column.0, Trim(column.1.value))
  }

  // Whenever the key of a column is seen, the column's link is there.
  ghost predicate SeenMeansHeld(items: seq<Item>) {
    forall column: Column :: IsColumnKind(column.0) && HasUrl(column) && Seen(items, ColumnKey(column)) ==>
      HoldsColumn(items, column)
  }

  // Item i's kind is a column's kind, the separator and more, which could be the start of a url.
  ghost predicate Extended(items: seq<Item>, i: nat, kind: string, rest: string) {
    && i < |items| && HasLink(items[i]) && IsColumnKind(kind) && KindOf(items[i]) == kind + "|" + rest
    && (rest != "" ==> !IsSpace(rest[0]))
  }

  // Every item with such a kind stands beside the link it could be taken for.
  ghost predicate NothingHidden(items: seq<Item>) {
    forall i: nat, kind, rest :: Extended(items, i, kind, rest) ==> Holds(items, kind, rest + "|" + UrlOf(items[i]))
  }

  lemma NoSeparatorIn(kind: string)
    requires IsColumnKind(kind)
    ensures '|' !in kind
  {
  }

  // Two keys are equal if kind and url are, or if one kind continues into the other's url.
  lemma EqualKeys(k: string, u: string, kind: string, url: string) returns (rest: string)
    requires '|' !in kind && DedupeKey(k, u) == DedupeKey(kind, url)
    ensures (k == kind && u == url) || (k == kind + "|" + rest && url == rest + "|" + u)
  {
    var a, b := DedupeKey(k, u), DedupeKey(kind, url);
    assert a[|k|] == '|' && b[|kind|] == '|';
    rest := "";
    if |k| < |kind| {
      assert false;
    } else if |k| == |kind| {
      assert a[..|k|] == k && b[..|k|] == kind && a[|k| + 1..] == u && b[|k| + 1..] == url;
    } else {
      rest := k[|kind| + 1..];
      assert a[|kind|] == k[|kind|];
      assert k == a[..|k|] == b[..|k|];
      assert k[..|kind|] == kind;
      assert url == b[|kind| + 1..] == a[|kind| + 1..] == rest + "|" + u;
    }
  }

  // The link an item with an extended kind could be taken for is a possible column.
  lemma ExtendedLooksLikeColumn(items: seq<Item>, i: nat, kind: string, rest: string)
    requires Extended(items, i, kind, rest)
    ensures var column := (kind, Some(rest + "|" + UrlOf(items[i])));
            HasUrl(column) && Trim(column.1.value) == column.1.value && Seen(items, ColumnKey(column))
  {
    var url := rest + "|" + UrlOf(items[i]);
    TrimTwice(items[i].content.value.url.value);
    assert IsTrimmed(url) by {
      assert url[0] == if rest == "" then '|' else rest[0];
      assert url[|url| - 1] == if UrlOf(items[i]) == "" then '|' else UrlOf(items[i])[|UrlOf(items[i])| - 1];
    }
    TrimLeavesTrimmed(url);
    assert DedupeKey(kind + "|" + rest, UrlOf(items[i])) == DedupeKey(kind, url);
    assert ItemKey(items[i]) == DedupeKey(kind, url);
  }

  lemma SeenThrough(items: seq<Item>, column: Column)
    requires IsColumnKind(column.0) && HasUrl(column) && Seen(items, ColumnKey(column))
    ensures HoldsColumn(items, column) ||
            exists i: nat, rest ::
              Extended(items, i, column.0, rest) && Trim(column.1.value) == rest + "|" + UrlOf(items[i])
  {
    var url := Trim(column.1.value);
    var i :| 0 <= i < |items| && HasLink(items[i]) && ItemKey(items[i]) == ColumnKey(column);
    NoSeparatorIn(column.0);
    var rest := EqualKeys(KindOf(items[i]), UrlOf(items[i]), column.0, url);
    if !(KindOf(items[i]) == column.0 && UrlOf(items[i]) == url) {
      TrimTwice(column.1.value);
      assert rest != "" ==> rest[0] == url[0];
      assert Extended(items, i, column.0, rest);
    }
  }

  // A seen key always means the link is there exactly if nothing is hidden behind an extended kind.
  lemma SeenMeansHeldIff(items: seq<Item>)
    ensures SeenMeansHeld(items) <==> NothingHidden(items)
  {
    hide Seen, Holds, HasUrl;
    if SeenMeansHeld(items) {
      forall i: nat, kind, rest | Extended(items, i, kind, rest)
        ensures Holds(items, kind, rest + "|" + UrlOf(items[i]))
      {
        ExtendedLooksLikeColumn(items, i, kind, rest);
        var column := (kind, Some(rest + "|" + UrlOf(items[i])));
        assert HoldsColumn(items, column);
      }
    }
    if NothingHidden(items) {
      forall column: Column | IsColumnKind(column.0) && HasUrl(column) && Seen(items, ColumnKey(column))
        ensures HoldsColumn(items, column)
      {
        SeenThrough(items, column);
      }
    }
  }

  // After the migration the link of a column is there exactly if it was before or its key was not seen.
  lemma LinkArrivesIff(user: User, before: seq<Item>, after: seq<Item>, c: nat)
    requires Migrated(user, before, after) && c < 4 && HasUrl(Columns(user)[c])
    ensures HoldsColumn(after, Columns(user)[c]) <==>
            HoldsColumn(before, Columns(user)[c]) || !Seen(before, ColumnKey(Columns(user)[c]))
  {
    hide Columns, IsNewLink, InColumnOrder, HasLink, ItemKey, FromColumn, KindOf, UrlOf;
    var column := Columns(user)[c];
    assert forall i :: 0 <= i < |before| ==> after[i] == before[i];
    if !Seen(before, ColumnKey(column)) {
      var k :| 0 <= k < |after| && HasLink(after[k]) && ItemKey(after[k]) == ColumnKey(column);
      assert |before| <= k;
      NewItemIsLink(user, after, k, c);
    } else if k :| |before| <= k < |after| && HasLink(after[k]) && KindOf(after[k]) == column.0 &&
                   UrlOf(after[k]) == Trim(column.1.value) {
      NewItemIsUnseen(user, before, after, k, column);
    }
  }

  lemma NewItemIsUnseen(user: User, before: seq<Item>, after: seq<Item>, k: nat, column: Column)
    requires Migrated(user, before, after) && |before| <= k < |after| && HasUrl(column)
    requires HasLink(after[k]) && KindOf(after[k]) == column.0 && UrlOf(after[k]) == Trim(column.1.value)
    ensures !Seen(before, ColumnKey(column))
  {
    assert IsNewLink(Columns(user), after, k) && ItemKey(after[k]) == ColumnKey(column);
    assert before <= after[..k];
    if Seen(before, ColumnKey(column)) {
      SeenStays(before, after[..k], ColumnKey(column));
    }
  }

  // A new item with a column's key is that column's link.
  lemma NewItemIsLink(user: User, items: seq<Item>, k: nat, c: nat)
    requires k < |items| && IsNewLink(Columns(user), items, k) && c < 4 && HasUrl(Columns(user)[c])
    requires ItemKey(items[k]) == ColumnKey(Columns(user)[c])
    ensures KindOf(items[k]) == Columns(user)[c].0 && UrlOf(items[k]) == Trim(Columns(user)[c].1.value)
  {
    var column := Columns(user)[c];
    var item := items[k];
    var d: nat :| FromColumn(Columns(user), item, d);
    assert IsColumnKind(column.0) && IsColumnKind(Columns(user)[d].0);
    NoSeparatorIn(column.0);
    NoSeparatorIn(KindOf(item));
    var rest := EqualKeys(KindOf(item), UrlOf(item), column.0, Trim(column.1.value));
    assert KindOf(item) != column.0 + "|" + rest by {
      assert '|' in column.0 + "|" + rest;
    }
  }

  // Every link of the user is among the items.
  ghost predicate AllHeld(user: User, items: seq<Item>) {
    forall c :: 0 <= c < 4 && HasUrl(Columns(user)[c]) ==> HoldsColumn(items, Columns(user)[c])
  }

  // A user with one link only.
  ghost function UserWith(kind: string, url: Option<string>): User {
    User(None, if kind == "LINKEDIN" then url else None, if kind == "GITHUB" then url else None,
         if kind == "WEBSITE" then url else None, if kind == "PORTFOLIO" then url else None)
  }

  // Migrating onto these items brings every link of every user exactly if nothing is hidden.
  lemma AllLinksArriveIff(items: seq<Item>)
    ensures (forall user, after :: Migrated(user, items, after) ==> AllHeld(user, after)) <==> NothingHidden(items)
  {
    hide Migrated, HoldsColumn, Seen, HasUrl, NothingHidden;
    SeenMeansHeldIff(items);
    if NothingHidden(items) {
      forall user, after | Migrated(user, items, after) ensures AllHeld(user, after) {
        forall c | 0 <= c < 4 && HasUrl(Columns(user)[c]) ensures HoldsColumn(after, Columns(user)[c]) {
          LinkArrivesIff(user, items, after, c);
          assert IsColumnKind(Columns(user)[c].0);
        }
      }
    }
    if forall user, after :: Migrated(user, items, after) ==> AllHeld(user, after) {
      forall column: Column | IsColumnKind(column.0) && HasUrl(column) && Seen(items, ColumnKey(column))
        ensures HoldsColumn(items, column)
      {
        SeenColumnAddsNothing(items, column);
        assert AllHeld(UserWith(column.0, column.1), items);
      }
    }
  }

  // A user whose only link has a key that is seen gets no item.
  lemma SeenColumnAddsNothing(items: seq<Item>, column: Column)
    requires IsColumnKind(column.0) && HasUrl(column) && Seen(items, ColumnKey(column))
    ensures Migrated(UserWith(column.0, column.1), items, items)
    ensures exists c :: 0 <= c < 4 && Columns(UserWith(column.0, column.1))[c] == column
  {
    var user := UserWith(column.0, column.1);
    var c := if column.0 == "LINKEDIN" then 0
             else if column.0 == "GITHUB" then 1
             else if column.0 == "WEBSITE" then 2
             else 3;
    assert Columns(user)[c] == column;
    assert forall d :: 0 <= d < 4 && HasUrl(Columns(user)[d]) ==> d == c;
  }

  // An item of kind "WEBSITE|a" with url "b" hides the website "a|b": it is not there, and the
  // migration does not bring it.
  lemma SeparatorHidesLink(after: seq<Item>)
    requires Migrated(UserWith("WEBSITE", Some("a|b")), [Item(Some(Content(Some("WEBSITE|a"), Some("b"))), 0)], after)
    ensures HasUrl(Columns(UserWith("WEBSITE", Some("a|b")))[2]) && !Holds(after, "WEBSITE", "a|b")
  {
    var item := Item(Some(Content(Some("WEBSITE|a"), Some("b"))), 0);
    var user := UserWith("WEBSITE", Some("a|b"));
    TrimLeavesTrimmed("a|b");
    TrimLeavesTrimmed("b");
    assert Extended([item], 0, "WEBSITE", "a");
    ExtendedLooksLikeColumn([item], 0, "WEBSITE", "a");
    assert "a" + "|" + "b" == "a|b";
    LinkArrivesIff(user, [item], after, 2);
    assert |KindOf(item)| == 9 && |"WEBSITE"| == 7;
  }

  // ---------- What exactly is added ----------

  // The link is set and no existing item has its key.
  ghost predicate IsWanted(before: seq<Item>, link: Column) {
    && link.1.Some? && Trim(link.1.value) != ""
    && (forall i, kind, url ::
          0 <= i < |before| && before[i].content == Some(Content(Some(kind), Some(url))) && kind != "" && url != "" ==>
            kind + "|" + Trim(url) != link.0 + "|" + Trim(link.1.value))
  }

  // The user's links in the order in which they are moved, as far as they are wanted.
  ghost function Wanted(before: seq<Item>, user: User): seq<Column> {
    Filtered([("LINKEDIN", user.linkedin), ("GITHUB", user.github), ("WEBSITE", user.website),
              ("PORTFOLIO", user.portfolio)], link => IsWanted(before, link))
  }

  lemma WantedIffUnseen(before: seq<Item>, column: Column)
    ensures IsWanted(before, column) <==> HasUrl(column) && !Seen(before, ColumnKey(column))
  {
    if HasUrl(column) && Seen(before, ColumnKey(column)) {
      var i :| 0 <= i < |before| && HasLink(before[i]) && ItemKey(before[i]) == ColumnKey(column);
      var content := before[i].content.value;
      assert before[i].content == Some(Content(Some(content.kind.value), Some(content.url.value)));
    }
    if HasUrl(column) && !Seen(before, ColumnKey(column)) {
      forall i, kind, url | 0 <= i < |before| && before[i].content == Some(Content(Some(kind), Some(url))) &&
                            kind != "" && url != ""
        ensures kind + "|" + Trim(url) != column.0 + "|" + Trim(column.1.value)
      {
        assert HasLink(before[i]) && ItemKey(before[i]) == DedupeKey(kind, Trim(url));
      }
    }
  }

  // Which columns the new items come from, in order.
  lemma {:induction false} NewItemColumns(user: User, before: seq<Item>, after: seq<Item>, n: nat)
    returns (at: seq<nat>)
    requires InColumnOrder(Columns(user), 4, |before|, after) && |before| + n <= |after|
    ensures |at| == n && forall k :: 0 <= k < n ==> FromColumn(Columns(user), after[|before| + k], at[k])
    ensures forall k, l :: 0 <= k < l < n ==> at[k] < at[l]
    decreases n
  {
    at := [];
    if n > 0 {
      at := NewItemColumns(user, before, after, n - 1);
      var last := after[|before| + n - 1];
      assert FromFirst(Columns(user), 4, last);
      var c: nat :| c < 4 && FromColumn(Columns(user), last, c);
      forall k | 0 <= k < n - 1 ensures at[k] < c {
        assert FromEarlier(Columns(user), after[|before| + k], last);
        var a: nat, b: nat :| a < b && FromColumn(Columns(user), after[|before| + k], a) &&
                              FromColumn(Columns(user), last, b);
        OneColumnEach(user, after[|before| + k], a, at[k]);
        OneColumnEach(user, last, b, c);
      }
      at := at + [c];
    }
  }

  lemma OneColumnEach(user: User, item: Item, c: nat, d: nat)
    requires FromColumn(Columns(user), item, c) && FromColumn(Columns(user), item, d)
    ensures c == d
  {
    assert item.content.value.kind.value == Columns(user)[c].0 == Columns(user)[d].0;
  }

  // The new items come from the columns that are wanted.
  lemma NewColumnIsWanted(user: User, before: seq<Item>, after: seq<Item>, k: nat, c: nat)
    requires Migrated(user, before, after) && |before| <= k < |after| && FromColumn(Columns(user), after[k], c)
    ensures c < 4 && IsWanted(before, Columns(user)[c])
  {
    hide InColumnOrder, SeenUpTo, IsWanted;
    var column := Columns(user)[c];
    WantedIffUnseen(before, column);
    assert IsNewLink(Columns(user), after, k);
    ColumnItemKey(column, after[k].order);
    assert before <= after[..k];
    if Seen(before, ColumnKey(column)) {
      SeenStays(before, after[..k], ColumnKey(column));
    }
  }

  lemma WantedColumnIsNew(user: User, before: seq<Item>, after: seq<Item>, c: nat) returns (k: nat)
    requires Migrated(user, before, after) && c < 4 && IsWanted(before, Columns(user)[c])
    ensures |before| <= k < |after| && FromColumn(Columns(user), after[k], c)
  {
    hide InColumnOrder, IsWanted, HasLink, KindOf, UrlOf;
    var column := Columns(user)[c];
    WantedIffUnseen(before, column);
    assert Seen(after, ColumnKey(column));
    k :| 0 <= k < |after| && HasLink(after[k]) && ItemKey(after[k]) == ColumnKey(column);
    assert before == after[..|before|];
    assert IsNewLink(Columns(user), after, k);
    var d: nat :| FromColumn(Columns(user), after[k], d);
    NewItemIsLink(user, after, k, c);
    SameKindSameColumn(user, after[k], d, c);
  }

  lemma SameKindSameColumn(user: User, item: Item, d: nat, c: nat)
    requires FromColumn(Columns(user), item, d) && HasLink(item) && c < 4 && KindOf(item) == Columns(user)[c].0
    ensures d == c
  {
  }

  lemma NewColumnsAreWanted(user: User, before: seq<Item>, after: seq<Item>, at: seq<nat>, wanted: seq<nat>)
    requires Migrated(user, before, after) && Increasing(at) && Increasing(wanted) && |at| == |after| - |before|
    requires forall k :: 0 <= k < |at| ==> FromColumn(Columns(user), after[|before| + k], at[k])
    requires forall i: nat :: i in wanted <==> i < 4 && IsWanted(before, Columns(user)[i])
    ensures at == wanted
  {
    hide Migrated, IsWanted, FromColumn;
    forall i: nat ensures i in at <==> i in wanted {
      if i in at {
        var k :| 0 <= k < |at| && at[k] == i;
        NewColumnIsWanted(user, before, after, |before| + k, i);
      }
      if i in wanted {
        var k := WantedColumnIsNew(user, before, after, i);
        assert k == |before| + (k - |before|);
        OneColumnEach(user, after[k], i, at[k - |before|]);
        assert at[k - |before|] in at;
      }
    }
    SameIncreasing(at, wanted);
  }

  // Migrating a user adds exactly the wanted links: LinkedIn, GitHub, website and portfolio in this order,
  // with trimmed urls and consecutive orders from one above the largest.
  lemma MigratedAddsWanted(user: User, before: seq<Item>, after: seq<Item>)
    requires Migrated(user, before, after)
    ensures before <= after && |after| == |before| + |Wanted(before, user)|
    ensures forall k :: 0 <= k < |Wanted(before, user)| ==>
      var link := Wanted(before, user)[k];
      link.1.Some? && after[|before| + k]
                   == Item(Some(Content(Some(link.0), Some(Trim(link.1.value)))), NextOrder(before) + k)
  {
    var n := |after| - |before|;
    var at := NewItemColumns(user, before, after, n);
    var wanted := FilteredPositions(Columns(user), link => IsWanted(before, link));
    assert Wanted(before, user) == Filtered(Columns(user), link => IsWanted(before, link));
    hide IsWanted, Wanted, IsNewLink, InColumnOrder, SeenUpTo, HasUrl;
    NewColumnsAreWanted(user, before, after, at, wanted);
    forall k | 0 <= k < n
      ensures var link := Wanted(before, user)[k];
        link.1.Some? && after[|before| + k]
                     == Item(Some(Content(Some(link.0), Some(Trim(link.1.value)))), NextOrder(before) + k)
    {
      NewItemIs(user, after[|before| + k], at[k]);
    }
  }

  lemma NewItemIs(user: User, item: Item, c: nat)
    requires FromColumn(Columns(user), item, c)
    ensures var link := Columns(user)[c];
      link.1.Some? && item == Item(Some(Content(Some(link.0), Some(Trim(link.1.value)))), item.order)
  {
  }
}
