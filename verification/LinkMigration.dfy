/**
 * prisma/data-migrations/migrate-profile-links-to-sections.seed.ts: moving the link columns of users
 * into items of the links section of their master resumes, safe to run again.
 *
 * The logo domain of an item (extractDomain) is not part of this model.
 */
module LinkMigration {
  import opened Results
  import opened Whitespace

  type ResumeId = nat

  datatype Content = Content(kind: Option<string>, url: Option<string>)

  datatype Item = Item(content: Option<Content>, order: int)

  datatype User = User(primaryResumeId: Option<ResumeId>, linkedin: Option<string>, github: Option<string>,
                       website: Option<string>, portfolio: Option<string>)

  // A kind and the url of the column that becomes it.
  type Column = (string, Option<string>)

  // The items of each resume's links section, for the resumes that have one.
  type Sections = map<ResumeId, seq<Item>>

  // The four columns and the kinds they become.
  function Columns(user: User): (columns: seq<Column>)
    ensures |columns| == 4 && forall i :: 0 <= i < 4 ==> columns[i].0 != ""
  {
    [("LINKEDIN", user.linkedin), ("GITHUB", user.github), ("WEBSITE", user.website), ("PORTFOLIO", user.portfolio)]
  }

  function DedupeKey(kind: string, url: string): string {
    kind + "|" + url
  }

  predicate HasLink(item: Item) {
    match item.content
    case Some(Content(Some(kind), Some(url))) => kind != "" && url != ""
    case _ => false
  }

  function ItemKey(item: Item): string
    requires HasLink(item)
  {
    DedupeKey(item.content.value.kind.value, Trim(item.content.value.url.value))
  }

  ghost predicate Seen(items: seq<Item>, key: string) {
    exists i :: 0 <= i < |items| && HasLink(items[i]) && ItemKey(items[i]) == key
  }

  // One more than the largest order, or 0.
  function NextOrder(items: seq<Item>): (next: int)
    ensures next >= 0 && forall i :: 0 <= i < |items| ==> items[i].order < next
    ensures next == 0 || exists i :: 0 <= i < |items| && items[i].order == next - 1
  {
    if items == [] then 0 else
      var n := |items| - 1;
      var m := NextOrder(items[..n]);
      if items[n].order >= m then items[n].order + 1 else m
  }

  // The column is set to something other than blanks.
  predicate HasUrl(column: Column) {
    column.1.Some? && Trim(column.1.value) != ""
  }

  function ColumnKey(column: Column): string
    requires HasUrl(column)
  {
    DedupeKey(column.0, Trim(column.1.value))
  }

  // The item a column becomes.
  function ColumnItem(column: Column, order: int): Item
    requires HasUrl(column)
  {
    Item(Some(Content(Some(column.0), Some(Trim(column.1.value)))), order)
  }

  // An item made from a column is recognised by its key.
  lemma ColumnItemKey(column: Column, order: int)
    requires HasUrl(column) && column.0 != ""
    ensures HasLink(ColumnItem(column, order)) && ItemKey(ColumnItem(column, order)) == ColumnKey(column)
  {
    TrimTwice(column.1.value);
  }

  // ---------- One user ----------

  // New items follow the old ones, with consecutive orders above all old ones.
  ghost predicate Appends(before: seq<Item>, after: seq<Item>) {
    && before <= after
    && (forall k :: |before| <= k < |after| ==> after[k].order == NextOrder(before) + k - |before|)
  }

  // The item is what column c becomes.
  ghost predicate FromColumn(columns: seq<Column>, item: Item, c: nat) {
    c < |columns| && HasUrl(columns[c]) && item == ColumnItem(columns[c], item.order)
  }

  ghost predicate FromFirst(columns: seq<Column>, n: nat, item: Item) {
    exists c: nat :: c < n && FromColumn(columns, item, c)
  }

  ghost predicate FromEarlier(columns: seq<Column>, item: Item, other: Item) {
    exists c: nat, d: nat :: c < d && FromColumn(columns, item, c) && FromColumn(columns, other, d)
  }

  // The items from index `from` on stand in the order of their columns, all among the first n.
  ghost predicate InColumnOrder(columns: seq<Column>, n: nat, from: nat, items: seq<Item>) {
    && (forall k :: from <= k < |items| ==> FromFirst(columns, n, items[k]))
    && (forall k, l :: from <= k < l < |items| ==> FromEarlier(columns, items[k], items[l]))
  }

  // Item k comes from one of the columns and repeats no link in front of it.
  ghost predicate IsNewLink(columns: seq<Column>, items: seq<Item>, k: nat)
    requires k < |items|
  {
    && (exists c: nat :: FromColumn(columns, items[k], c))
    && HasLink(items[k]) && !Seen(items[..k], ItemKey(items[k]))
  }

  // The links of the first n columns are among the items.
  ghost predicate SeenUpTo(columns: seq<Column>, n: nat, items: seq<Item>)
    requires n <= |columns|
  {
    forall c :: 0 <= c < n && HasUrl(columns[c]) ==> Seen(items, ColumnKey(columns[c]))
  }

  ghost predicate AllSeen(columns: seq<Column>, items: seq<Item>) {
    SeenUpTo(columns, |columns|, items)
  }

  // What migrating one user does to the items of the section.
  ghost predicate Migrated(user: User, before: seq<Item>, after: seq<Item>) {
    && Appends(before, after)
    && (forall k :: |before| <= k < |after| ==> IsNewLink(Columns(user), after, k))
    && InColumnOrder(Columns(user), 4, |before|, after)
    && AllSeen(Columns(user), after)
  }

  lemma SeenStays(items: seq<Item>, more: seq<Item>, key: string)
    requires items <= more && Seen(items, key)
    ensures Seen(more, key)
  {
    var i :| 0 <= i < |items| && HasLink(items[i]) && ItemKey(items[i]) == key;
    assert more[i] == items[i];
  }

  // If every link is there already, nothing is added.
  lemma NothingToMigrate(user: User, before: seq<Item>, after: seq<Item>)
    requires Migrated(user, before, after) && AllSeen(Columns(user), before)
    ensures after == before
  {
    assert after[..|before|] == before;
    if |after| > |before| {
      var k := |before|;
      assert IsNewLink(Columns(user), after, k);
      var c: nat :| FromColumn(Columns(user), after[k], c);
      ColumnItemKey(Columns(user)[c], after[k].order);
    }
  }

  method NextFree(items: seq<Item>) returns (nextOrder: int)
    ensures nextOrder == NextOrder(items)
  {
    nextOrder := 0;
    for i := 0 to |items|
      invariant nextOrder == NextOrder(items[..i])
    {
      assert items[..i + 1][..i] == items[..i];
      if items[i].order >= nextOrder {
        nextOrder := items[i].order + 1;
      }
    }
    assert items[..|items|] == items;
  }

  method SeenKeys(items: seq<Item>) returns (seen: set<string>)
    ensures forall key :: key in seen <==> Seen(items, key)
  {
    seen := {};
    for i := 0 to |items|
      invariant forall key :: key in seen <==> exists j :: 0 <= j < i && HasLink(items[j]) && ItemKey(items[j]) == key
    {
      if HasLink(items[i]) {
        seen := seen + {ItemKey(items[i])};
      }
    }
  }

  lemma SeenOneMore(items: seq<Item>, item: Item, key: string)
    requires HasLink(item)
    ensures Seen(items + [item], key) <==> Seen(items, key) || ItemKey(item) == key
  {
    var more := items + [item];
    assert more[|items|] == item;
    if Seen(items, key) {
      SeenStays(items, more, key);
    }
  }

  // The state of the loop over the columns after c of them.
  ghost predicate Midway(user: User, before: seq<Item>, items: seq<Item>, c: nat)
    requires c <= |Columns(user)|
  {
    && Appends(before, items)
    && (forall k :: |before| <= k < |items| ==> IsNewLink(Columns(user), items, k))
    && InColumnOrder(Columns(user), c, |before|, items)
    && SeenUpTo(Columns(user), c, items)
  }

  lemma ColumnSkipped(user: User, before: seq<Item>, items: seq<Item>, c: nat)
    requires c < |Columns(user)| && Midway(user, before, items, c)
    requires HasUrl(Columns(user)[c]) ==> Seen(items, ColumnKey(Columns(user)[c]))
    ensures Midway(user, before, items, c + 1)
  {
    ColumnOrderLater(Columns(user), c, |before|, items);
  }

  lemma ColumnOrderLater(columns: seq<Column>, c: nat, from: nat, items: seq<Item>)
    requires InColumnOrder(columns, c, from, items)
    ensures InColumnOrder(columns, c + 1, from, items)
  {
    forall k | from <= k < |items| ensures FromFirst(columns, c + 1, items[k]) {
      assert FromFirst(columns, c, items[k]);
      var b: nat :| b < c && FromColumn(columns, items[k], b);
      assert b < c + 1;
    }
  }

  lemma ColumnAdded(user: User, before: seq<Item>, items: seq<Item>, c: nat, item: Item)
    requires c < |Columns(user)| && Midway(user, before, items, c) && HasUrl(Columns(user)[c])
    requires !Seen(items, ColumnKey(Columns(user)[c]))
    requires item == ColumnItem(Columns(user)[c], item.order) && item.order == NextOrder(before) + |items| - |before|
    ensures Midway(user, before, items + [item], c + 1)
  {
    hide InColumnOrder;
    hide Seen, SeenUpTo, Columns, HasUrl, IsNewLink, Appends, HasLink, ItemKey, ColumnItem, ColumnKey;
    var columns := Columns(user);
    ColumnItemKey(columns[c], item.order);
    AppendsOne(before, items, item);
    LastIsNewLink(columns, c, items, item);
    NewLinksStay(columns, |before|, items, item);
    ColumnOrderOneMore(columns, c, |before|, items, item);
    SeenOneColumnMore(columns, c, items, item);
  }

  lemma SeenOneColumnMore(columns: seq<Column>, c: nat, items: seq<Item>, item: Item)
    requires c < |columns| && SeenUpTo(columns, c, items) && HasUrl(columns[c])
    requires HasLink(item) && ItemKey(item) == ColumnKey(columns[c])
    ensures SeenUpTo(columns, c + 1, items + [item])
  {
    forall d | 0 <= d < c + 1 && HasUrl(columns[d]) ensures Seen(items + [item], ColumnKey(columns[d])) {
      SeenOneMore(items, item, ColumnKey(columns[d]));
    }
  }

  lemma ColumnOrderOneMore(columns: seq<Column>, c: nat, from: nat, items: seq<Item>, item: Item)
    requires InColumnOrder(columns, c, from, items) && FromColumn(columns, item, c) && from <= |items|
    ensures InColumnOrder(columns, c + 1, from, items + [item])
  {
    var more := items + [item];
    ColumnOrderLater(columns, c, from, items);
    assert forall k :: 0 <= k < |items| ==> more[k] == items[k];
    assert more[|items|] == item && FromFirst(columns, c + 1, item);
    forall k, l | from <= k < l < |more| ensures FromEarlier(columns, more[k], more[l]) {
      if l == |items| {
        assert FromFirst(columns, c, items[k]);
        var a: nat :| a < c && FromColumn(columns, items[k], a);
        assert a < c && FromColumn(columns, more[k], a) && FromColumn(columns, more[l], c);
      } else {
        assert FromEarlier(columns, items[k], items[l]);
      }
    }
  }

  lemma LastIsNewLink(columns: seq<Column>, c: nat, items: seq<Item>, item: Item)
    requires c < |columns| && HasUrl(columns[c]) && columns[c].0 != "" && !Seen(items, ColumnKey(columns[c]))
    requires item == ColumnItem(columns[c], item.order)
    ensures IsNewLink(columns, items + [item], |items|)
  {
    ColumnItemKey(columns[c], item.order);
    assert FromColumn(columns, item, c);
    assert (items + [item])[..|items|] == items && (items + [item])[|items|] == item;
  }

  lemma AppendsOne(before: seq<Item>, items: seq<Item>, item: Item)
    requires Appends(before, items) && item.order == NextOrder(before) + |items| - |before|
    ensures Appends(before, items + [item]) && |before| <= |items|
  {
  }

  lemma NewLinksStay(columns: seq<Column>, from: nat, items: seq<Item>, item: Item)
    requires forall k :: from <= k < |items| ==> IsNewLink(columns, items, k)
    ensures forall k :: from <= k < |items| ==> IsNewLink(columns, items + [item], k)
  {
    forall k | from <= k < |items| ensures IsNewLink(columns, items + [item], k) {
      assert IsNewLink(columns, items, k) && (items + [item])[..k] == items[..k];
    }
  }

  // The loop body of the script for one user, on the items of the section.
  method MigrateUser(user: User, existing: seq<Item>) returns (items: seq<Item>, itemsCreated: nat)
    ensures Migrated(user, existing, items) && itemsCreated == |items| - |existing|
  {
    hide Midway;
    var seen := SeenKeys(existing);
    var nextOrder := NextFree(existing);
    items := existing;
    itemsCreated := 0;
    var columns := Columns(user);
    MidwayEnds(user, existing, items);
    for c := 0 to |columns|
      invariant Midway(user, existing, items, c)
      invariant nextOrder == NextOrder(existing) + |items| - |existing| && itemsCreated == |items| - |existing|
      invariant forall key :: key in seen <==> Seen(items, key)
    {
      if !HasUrl(columns[c]) || ColumnKey(columns[c]) in seen {
        ColumnSkipped(user, existing, items, c);
        continue;
      }
      var item := ColumnItem(columns[c], nextOrder);
      ColumnAdded(user, existing, items, c, item);
      ColumnItemKey(columns[c], nextOrder);
      forall key ensures Seen(items + [item], key) <==> Seen(items, key) || ItemKey(item) == key {
        SeenOneMore(items, item, key);
      }
      seen := seen + {ColumnKey(columns[c])};
      items := items + [item];
      nextOrder := nextOrder + 1;
      itemsCreated := itemsCreated + 1;
    }
    MidwayEnds(user, existing, items);
  }

  lemma MidwayEnds(user: User, before: seq<Item>, items: seq<Item>)
    ensures items == before ==> Midway(user, before, items, 0)
    ensures Midway(user, before, items, |Columns(user)|) ==> Migrated(user, before, items)
  {
  }

  // ---------- All users ----------

  lemma {:induction false} NextOrderAfter(before: seq<Item>, after: seq<Item>)
    requires Appends(before, after)
    ensures NextOrder(after) == NextOrder(before) + |after| - |before|
    decreases |after|
  {
    if |after| == |before| {
      assert after == before;
    } else {
      var n := |after| - 1;
      assert Appends(before, after[..n]);
      NextOrderAfter(before, after[..n]);
    }
  }

  lemma AppendsTwice(a: seq<Item>, b: seq<Item>, c: seq<Item>)
    requires Appends(a, b) && Appends(b, c)
    ensures Appends(a, c)
  {
    NextOrderAfter(a, b);
    forall k | |a| <= k < |c| ensures c[k].order == NextOrder(a) + k - |a| {
      if k < |b| {
        assert c[k] == b[k];
      }
    }
  }

  function ItemsOf(sections: Sections, resume: ResumeId): seq<Item> {
    if resume in sections then sections[resume] else []
  }

  // The keys of every user's links are there.
  ghost predicate Done(users: seq<User>, sections: Sections) {
    forall u :: 0 <= u < |users| && users[u].primaryResumeId.Some? ==>
      users[u].primaryResumeId.value in sections &&
      AllSeen(Columns(users[u]), sections[users[u].primaryResumeId.value])
  }

  ghost predicate HasUserWith(users: seq<User>, r: ResumeId) {
    exists u :: 0 <= u < |users| && users[u].primaryResumeId == Some(r)
  }

  // Item k is a column of a user with that resume and repeats no link in front of it.
  ghost predicate NewForResume(users: seq<User>, r: ResumeId, items: seq<Item>, k: nat)
    requires k < |items|
  {
    exists u :: 0 <= u < |users| && users[u].primaryResumeId == Some(r) && IsNewLink(Columns(users[u]), items, k)
  }

  // The section of one resume: existing items stay as they are and where they are, new ones follow
  // with larger orders, and all of them come from users with that resume.
  ghost predicate SectionGrows(users: seq<User>, r: ResumeId, before: Sections, after: Sections) {
    && (r in after <==> r in before || HasUserWith(users, r))
    && Appends(ItemsOf(before, r), ItemsOf(after, r))
    && (forall k :: |ItemsOf(before, r)| <= k < |ItemsOf(after, r)| ==> NewForResume(users, r, ItemsOf(after, r), k))
  }

  ghost predicate Grows(users: seq<User>, before: Sections, after: Sections) {
    forall r :: SectionGrows(users, r, before, after)
  }

  // How many items there are in all sections.
  ghost function TotalItems(sections: Sections): nat
    decreases |sections|
  {
    if sections == map[] then 0 else
      var r :| r in sections;
      assert |sections - {r}| < |sections| by {
        assert (sections - {r}).Keys == sections.Keys - {r};
        assert |sections - {r}| == |(sections - {r}).Keys| && |sections| == |sections.Keys|;
      }
      |sections[r]| + TotalItems(sections - {r})
  }

  lemma {:induction false} TotalWithout(sections: Sections, r: ResumeId)
    requires r in sections
    ensures TotalItems(sections) == |sections[r]| + TotalItems(sections - {r})
    decreases |sections|
  {
    var s :| s in sections && TotalItems(sections) == |sections[s]| + TotalItems(sections - {s});
    if s != r {
      assert (sections - {s}).Keys == sections.Keys - {s} && (sections - {r}).Keys == sections.Keys - {r};
      assert |sections - {s}| == |(sections - {s}).Keys| && |sections| == |sections.Keys|;
      assert sections - {s} - {r} == sections - {r} - {s};
      TotalWithout(sections - {s}, r);
      TotalWithout(sections - {r}, s);
    }
  }

  lemma TotalUpdated(sections: Sections, r: ResumeId, items: seq<Item>)
    ensures TotalItems(sections[r := items]) == TotalItems(sections) - |ItemsOf(sections, r)| + |items|
  {
    var after := sections[r := items];
    TotalWithout(after, r);
    if r in sections {
      TotalWithout(sections, r);
      assert after - {r} == sections - {r};
    } else {
      assert after - {r} == sections;
    }
  }

  class LinkStore {
    var sections: Sections

    constructor (sections: Sections)
      ensures this.sections == sections
    {
      this.sections := sections;
    }

    // `users` is what the query for users with a primary resume and a link column returns.
    method Migrate(users: seq<User>) returns (itemsCreated: nat)
      modifies this
      ensures Grows(users, old(sections), sections) && Done(users, sections)
      ensures itemsCreated == TotalItems(sections) - TotalItems(old(sections))
      ensures Done(users, old(sections)) ==> sections == old(sections) && itemsCreated == 0
    {
      hide Grows, Done, Migrated, TotalItems;
      itemsCreated := 0;
      ghost var before := sections;
      MigrationStarts(before);
      for u := 0 to |users|
        invariant Grows(users[..u], before, sections) && Done(users[..u], sections)
        invariant itemsCreated == TotalItems(sections) - TotalItems(before)
        invariant Done(users, before) ==> sections == before && itemsCreated == 0
      {
        var user := users[u];
        assert users[..u + 1] == users[..u] + [user];
        if user.primaryResumeId.None? {
          NoResume(users[..u], user, before, sections);
          continue;
        }
        var resumeId := user.primaryResumeId.value;
        ghost var mid := sections;
        if resumeId !in sections {
          sections := sections[resumeId := []];
        }
        var items, created := MigrateUser(user, sections[resumeId]);
        UserDone(users[..u], user, before, mid, items);
        AlreadyDone(users, u, mid, items);
        TotalUpdated(mid, resumeId, items);
        assert sections[resumeId := items] == mid[resumeId := items];
        sections := sections[resumeId := items];
        itemsCreated := itemsCreated + created;
      }
      assert users[..|users|] == users;
    }
  }

  lemma MigrationStarts(sections: Sections)
    ensures Grows([], sections, sections) && Done([], sections)
  {
  }

  lemma NoResume(users: seq<User>, user: User, before: Sections, sections: Sections)
    requires user.primaryResumeId.None? && Grows(users, before, sections) && Done(users, sections)
    ensures Grows(users + [user], before, sections) && Done(users + [user], sections)
  {
    forall r ensures SectionGrows(users + [user], r, before, sections) {
      assert SectionGrows(users, r, before, sections);
      MoreUsers(users, user, r, ItemsOf(before, r), ItemsOf(sections, r));
    }
  }

  // A further user adds to who may have brought the new items.
  lemma MoreUsers(users: seq<User>, user: User, r: ResumeId, before: seq<Item>, items: seq<Item>)
    requires forall k :: |before| <= k < |items| ==> NewForResume(users, r, items, k)
    ensures forall k :: |before| <= k < |items| ==> NewForResume(users + [user], r, items, k)
    ensures HasUserWith(users + [user], r) <==> HasUserWith(users, r) || user.primaryResumeId == Some(r)
  {
    var more := users + [user];
    assert more[|users|] == user && forall u :: 0 <= u < |users| ==> more[u] == users[u];
    forall k | |before| <= k < |items| ensures NewForResume(more, r, items, k) {
      assert NewForResume(users, r, items, k);
      var u :| 0 <= u < |users| && users[u].primaryResumeId == Some(r) && IsNewLink(Columns(users[u]), items, k);
      assert more[u] == users[u];
    }
  }

  lemma UserDone(users: seq<User>, user: User, before: Sections, mid: Sections, items: seq<Item>)
    requires user.primaryResumeId.Some? && Grows(users, before, mid) && Done(users, mid)
    requires Migrated(user, ItemsOf(mid, user.primaryResumeId.value), items)
    ensures var after := mid[user.primaryResumeId.value := items];
            Grows(users + [user], before, after) && Done(users + [user], after)
  {
    var id := user.primaryResumeId.value;
    var after := mid[id := items];
    forall r ensures SectionGrows(users + [user], r, before, after) {
      assert SectionGrows(users, r, before, mid);
      MoreUsers(users, user, r, ItemsOf(before, r), ItemsOf(mid, r));
      if r == id {
        AppendsTwice(ItemsOf(before, r), ItemsOf(mid, r), items);
        NewItemsOfUser(users, user, ItemsOf(before, r), ItemsOf(mid, r), items);
      }
    }
    forall v | 0 <= v < |users| + 1 && (users + [user])[v].primaryResumeId.Some?
      ensures (users + [user])[v].primaryResumeId.value in after
      ensures AllSeen(Columns((users + [user])[v]), after[(users + [user])[v].primaryResumeId.value])
    {
      if v < |users| {
        assert (users + [user])[v] == users[v];
        AllSeenStays(Columns(users[v]), mid[users[v].primaryResumeId.value], after[users[v].primaryResumeId.value]);
      }
    }
  }

  lemma NewItemsOfUser(users: seq<User>, user: User, before: seq<Item>, mid: seq<Item>, items: seq<Item>)
    requires user.primaryResumeId.Some? && Migrated(user, mid, items) && before <= mid
    requires forall k :: |before| <= k < |mid| ==> NewForResume(users + [user], user.primaryResumeId.value, mid, k)
    ensures forall k :: |before| <= k < |items| ==> NewForResume(users + [user], user.primaryResumeId.value, items, k)
  {
    var more := users + [user];
    var r := user.primaryResumeId.value;
    forall k | |before| <= k < |items| ensures NewForResume(more, r, items, k) {
      if k < |mid| {
        assert NewForResume(more, r, mid, k);
        var u :| 0 <= u < |more| && more[u].primaryResumeId == Some(r) && IsNewLink(Columns(more[u]), mid, k);
        assert items[..k] == mid[..k] && items[k] == mid[k];
        assert IsNewLink(Columns(more[u]), items, k);
      } else {
        assert IsNewLink(Columns(more[|users|]), items, k);
      }
    }
  }

  // A user whose links are all there leaves everything as it is.
  lemma AlreadyDone(users: seq<User>, u: nat, mid: Sections, items: seq<Item>)
    requires u < |users| && users[u].primaryResumeId.Some?
    requires Migrated(users[u], ItemsOf(mid, users[u].primaryResumeId.value), items)
    ensures Done(users, mid) ==> ItemsOf(mid, users[u].primaryResumeId.value) == items
    ensures Done(users, mid) ==> mid[users[u].primaryResumeId.value := items] == mid
  {
    if Done(users, mid) {
      NothingToMigrate(users[u], mid[users[u].primaryResumeId.value], items);
    }
  }

  lemma AllSeenStays(columns: seq<Column>, items: seq<Item>, more: seq<Item>)
    requires AllSeen(columns, items) && items <= more
    ensures AllSeen(columns, more)
  {
    forall c | 0 <= c < |columns| && HasUrl(columns[c]) ensures Seen(more, ColumnKey(columns[c])) {
      SeenStays(items, more, ColumnKey(columns[c]));
    }
  }

  // Running the migration a second time on the same users creates nothing and changes nothing.
  method MigrateTwice(store: LinkStore, users: seq<User>) returns (second: nat)
    modifies store
    ensures second == 0 && Done(users, store.sections)
  {
    var _ := store.Migrate(users);
    second := store.Migrate(users);
  }
}
