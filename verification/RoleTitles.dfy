/**
 * src/scripts/import-roles.ts, collect: within one source, one title per language and folded
 * label; a preferred row wins over the others, otherwise the first one does.
 *
 * foldRoleText is not part of this model: `fold` stands for it and may be any function.
 */
module RoleTitles {
  import opened Results
  import opened Runs
  import opened Sequences
  import opened Whitespace

  datatype Lang = EN | PT

  datatype Source = ESCO | CBO | ONET | CURATED

  // A row as parsed from a taxonomy release.
  datatype Parsed = Parsed(labelText: string, lang: Lang, source: Source, sourceId: Option<string>, isPreferred: bool,
                           seniority: Option<string>, baseRoleKey: Option<string>)

  datatype RoleTitle = RoleTitle(parsed: Parsed, normalizedLabel: string)

  type Key = (Lang, string)

  // ---------- Whitespace ----------

  // Runs of whitespace become single blanks, and none are left at the ends.
  function Clean(text: string): string {
    Trim(Collapse(text, IsSpace, ' '))
  }

  // Single blanks only, none at the ends.
  ghost predicate IsClean(s: string) {
    SingleGaps(s, IsSpace, ' ') && IsTrimmed(s)
  }

  lemma {:induction false} TrimStartSingle(s: string)
    requires SingleGaps(s, IsSpace, ' ')
    ensures SingleGaps(TrimStart(s), IsSpace, ' ') && (TrimStart(s) != "" ==> !IsSpace(TrimStart(s)[0]))
  {
    if s != "" && IsSpace(s[0]) {
      TrimStartSingle(s[1..]);
    }
  }

  lemma {:induction false} TrimEndSingle(s: string)
    requires SingleGaps(s, IsSpace, ' ') && (s != "" ==> !IsSpace(s[0]))
    ensures IsClean(TrimEnd(s))
  {
    if s != "" && IsSpace(s[|s| - 1]) {
      TrimEndSingle(s[..|s| - 1]);
    }
  }

  // Cleaning yields a clean label and leaves clean labels alone.
  lemma CleanIdempotent(text: string)
    ensures IsClean(Clean(text)) && Clean(Clean(text)) == Clean(text)
  {
    CollapseSingle(text, IsSpace, ' ');
    TrimStartSingle(Collapse(text, IsSpace, ' '));
    TrimEndSingle(TrimStart(Collapse(text, IsSpace, ' ')));
    CollapseAlready(Clean(text), IsSpace, ' ');
    TrimDropsPadding("", Clean(text), "");
    assert "" + Clean(text) + "" == Clean(text);
  }

  // The words of a label come out as they are, joined by single blanks.
  lemma CleanJoinsWords(lead: string, first: string, words: seq<string>, gaps: seq<string>, last: string)
    requires |gaps| == |words| && IsBlank(lead) && IsBlank(last) && IsWord(first, IsSpace)
    requires forall i :: 0 <= i < |words| ==> IsWord(words[i], IsSpace) && gaps[i] != "" && IsBlank(gaps[i])
    ensures Clean(lead + first + (Spaced(words, gaps) + last)) == first + Joined(words, ' ')
  {
    CollapseWords(lead, first, words, gaps, last, IsSpace, ' ');
    JoinedEnds(first, words, IsSpace, ' ');
    TrimDropsPadding(if lead == "" then "" else " ", first + Joined(words, ' '), if last == "" then "" else " ");
  }

  // ---------- What collect computes ----------

  function Title(row: Parsed, fold: string -> string): RoleTitle {
    var cleaned := Clean(row.labelText);
    RoleTitle(row.(labelText := cleaned), fold(cleaned))
  }

  function KeyOf(title: RoleTitle): Key {
    (title.parsed.lang, title.normalizedLabel)
  }

  // The key of row i, unless its folded label is too short to count.
  predicate HasKey(rows: seq<Parsed>, fold: string -> string, i: nat, key: Key)
    requires i < |rows|
  {
    KeyOf(Title(rows[i], fold)) == key && |key.1| >= 2
  }

  ghost predicate Occurs(rows: seq<Parsed>, fold: string -> string, key: Key) {
    exists i :: 0 <= i < |rows| && HasKey(rows, fold, i, key)
  }

  // Row f is the first one with the key.
  ghost predicate IsFirst(rows: seq<Parsed>, fold: string -> string, key: Key, f: nat) {
    && f < |rows| && HasKey(rows, fold, f, key)
    && (forall i :: 0 <= i < f ==> !HasKey(rows, fold, i, key))
  }

  // Row w is the first preferred one with the key, or the first one if none is preferred.
  ghost predicate IsWinner(rows: seq<Parsed>, fold: string -> string, key: Key, w: nat) {
    && w < |rows| && HasKey(rows, fold, w, key)
    && (if rows[w].isPreferred then forall i :: 0 <= i < w && HasKey(rows, fold, i, key) ==> !rows[i].isPreferred
        else IsFirst(rows, fold, key, w) &&
             forall i :: 0 <= i < |rows| && HasKey(rows, fold, i, key) ==> !rows[i].isPreferred)
  }

  // The title is the winning row's for its key.
  ghost predicate Wins(rows: seq<Parsed>, fold: string -> string, title: RoleTitle) {
    exists w: nat :: IsWinner(rows, fold, KeyOf(title), w) && title == Title(rows[w], fold)
  }

  // a's key occurs before b's.
  ghost predicate Precedes(rows: seq<Parsed>, fold: string -> string, a: Key, b: Key) {
    exists i: nat, j: nat :: i < j && IsFirst(rows, fold, a, i) && IsFirst(rows, fold, b, j)
  }

  // One title per key that occurs, the winning one, in the order in which the keys first occur.
  ghost predicate IsCollection(rows: seq<Parsed>, fold: string -> string, titles: seq<RoleTitle>) {
    && (forall k :: 0 <= k < |titles| ==> Wins(rows, fold, titles[k]))
    && (forall key :: Occurs(rows, fold, key) ==> exists k :: 0 <= k < |titles| && KeyOf(titles[k]) == key)
    && (forall k, l :: 0 <= k < l < |titles| ==> Precedes(rows, fold, KeyOf(titles[k]), KeyOf(titles[l])))
  }

  // Row i has the language, and its cleaned label folds to the given one.
  ghost predicate Spells(rows: seq<Parsed>, fold: string -> string, i: nat, lang: Lang, folded: string)
    requires i < |rows|
  {
    rows[i].lang == lang && fold(Clean(rows[i].labelText)) == folded
  }

  // The title is row w with its label cleaned, w being the first preferred row of that language and
  // folded label, or the first row of all if none is preferred.
  ghost predicate ComesFrom(rows: seq<Parsed>, fold: string -> string, title: RoleTitle, w: nat) {
    && w < |rows| && title.parsed == rows[w].(labelText := Clean(rows[w].labelText))
    && title.normalizedLabel == fold(Clean(rows[w].labelText)) && |title.normalizedLabel| >= 2
    && (forall i: nat :: i < |rows| && Spells(rows, fold, i, rows[w].lang, title.normalizedLabel) ==>
          (rows[i].isPreferred ==> rows[w].isPreferred) && (rows[i].isPreferred == rows[w].isPreferred ==> w <= i))
  }

  ghost predicate HasRow(rows: seq<Parsed>, fold: string -> string, title: RoleTitle) {
    exists w: nat :: ComesFrom(rows, fold, title, w)
  }

  // One of a's rows stands before all of b's.
  ghost predicate MetBefore(rows: seq<Parsed>, fold: string -> string, a: RoleTitle, b: RoleTitle) {
    exists i: nat :: i < |rows| && Spells(rows, fold, i, a.parsed.lang, a.normalizedLabel) &&
                     forall j: nat :: j <= i ==> !Spells(rows, fold, j, b.parsed.lang, b.normalizedLabel)
  }

  ghost predicate HasItsTitle(rows: seq<Parsed>, fold: string -> string, i: nat, titles: seq<RoleTitle>)
    requires i < |rows|
  {
    exists k :: 0 <= k < |titles| && Spells(rows, fold, i, titles[k].parsed.lang, titles[k].normalizedLabel)
  }

  // Exactly one title for each language and folded label of two or more characters, from the right row
  // and in the right order.
  ghost predicate OneTitleEach(rows: seq<Parsed>, fold: string -> string, titles: seq<RoleTitle>) {
    && (forall i :: 0 <= i < |rows| && |fold(Clean(rows[i].labelText))| >= 2 ==> HasItsTitle(rows, fold, i, titles))
    && (forall k, l :: 0 <= k < l < |titles| && titles[k].parsed.lang == titles[l].parsed.lang ==>
          titles[k].normalizedLabel != titles[l].normalizedLabel)
    && (forall k :: 0 <= k < |titles| ==> HasRow(rows, fold, titles[k]))
    && (forall k, l :: 0 <= k < l < |titles| ==> MetBefore(rows, fold, titles[k], titles[l]))
  }

  lemma SpellsIffHasKey(rows: seq<Parsed>, fold: string -> string, i: nat, title: RoleTitle)
    requires i < |rows| && |title.normalizedLabel| >= 2
    ensures HasKey(rows, fold, i, KeyOf(title)) <==> Spells(rows, fold, i, title.parsed.lang, title.normalizedLabel)
  {
    hide Clean;
  }

  lemma CollectionMeans(rows: seq<Parsed>, fold: string -> string, titles: seq<RoleTitle>)
    requires IsCollection(rows, fold, titles)
    ensures OneTitleEach(rows, fold, titles)
  {
    hide Clean, IsWinner, IsFirst, HasRow, Wins, Precedes, MetBefore;
    forall i | 0 <= i < |rows| && |fold(Clean(rows[i].labelText))| >= 2
      ensures HasItsTitle(rows, fold, i, titles)
    {
      var key := KeyOf(Title(rows[i], fold));
      assert HasKey(rows, fold, i, key);
      assert Occurs(rows, fold, key);
      var k :| 0 <= k < |titles| && KeyOf(titles[k]) == key;
      SpellsIffHasKey(rows, fold, i, titles[k]);
    }
    DistinctKeys(rows, fold, titles);
    forall k, l | 0 <= k < l < |titles| && titles[k].parsed.lang == titles[l].parsed.lang
      ensures titles[k].normalizedLabel != titles[l].normalizedLabel
    {
      assert KeyOf(titles[k]) != KeyOf(titles[l]);
    }
    forall k | 0 <= k < |titles| ensures HasRow(rows, fold, titles[k]) {
      WinnerComesFrom(rows, fold, titles[k]);
    }
    forall k, l | 0 <= k < l < |titles| ensures MetBefore(rows, fold, titles[k], titles[l]) {
      WinnerComesFrom(rows, fold, titles[k]);
      WinnerComesFrom(rows, fold, titles[l]);
      PrecedesMetBefore(rows, fold, titles[k], titles[l]);
    }
  }

  lemma WinnerComesFrom(rows: seq<Parsed>, fold: string -> string, title: RoleTitle)
    requires Wins(rows, fold, title)
    ensures |title.normalizedLabel| >= 2 && HasRow(rows, fold, title)
  {
    hide Clean;
    var w: nat :| IsWinner(rows, fold, KeyOf(title), w) && title == Title(rows[w], fold);
    forall i: nat | i < |rows| && Spells(rows, fold, i, rows[w].lang, title.normalizedLabel)
      ensures (rows[i].isPreferred ==> rows[w].isPreferred) && (rows[i].isPreferred == rows[w].isPreferred ==> w <= i)
    {
      SpellsIffHasKey(rows, fold, i, title);
    }
    assert ComesFrom(rows, fold, title, w);
  }

  lemma PrecedesMetBefore(rows: seq<Parsed>, fold: string -> string, a: RoleTitle, b: RoleTitle)
    requires Precedes(rows, fold, KeyOf(a), KeyOf(b)) && |a.normalizedLabel| >= 2 && |b.normalizedLabel| >= 2
    ensures MetBefore(rows, fold, a, b)
  {
    hide Clean;
    var i: nat, j: nat :| i < j && IsFirst(rows, fold, KeyOf(a), i) && IsFirst(rows, fold, KeyOf(b), j);
    SpellsIffHasKey(rows, fold, i, a);
    forall m: nat | m <= i ensures !Spells(rows, fold, m, b.parsed.lang, b.normalizedLabel) {
      SpellsIffHasKey(rows, fold, m, b);
    }
  }

  // The loop's map: an insertion-ordered list of keys and the title each one stands for.
  ghost predicate Represents(rows: seq<Parsed>, fold: string -> string, order: seq<Key>, byKey: map<Key, RoleTitle>) {
    && (forall k :: 0 <= k < |order| ==> order[k] in byKey && KeyOf(byKey[order[k]]) == order[k])
    && (forall key :: key in byKey ==> key in order && Wins(rows, fold, byKey[key]))
    && (forall key :: Occurs(rows, fold, key) ==> key in byKey)
    && (forall k, l :: 0 <= k < l < |order| ==> Precedes(rows, fold, order[k], order[l]))
  }

  lemma FirstStays(rows: seq<Parsed>, row: Parsed, fold: string -> string, key: Key, f: nat)
    requires IsFirst(rows, fold, key, f)
    ensures IsFirst(rows + [row], fold, key, f)
  {
    assert forall i :: 0 <= i < |rows| ==> HasKey(rows + [row], fold, i, key) == HasKey(rows, fold, i, key);
  }

  lemma PrecedesStays(rows: seq<Parsed>, row: Parsed, fold: string -> string, a: Key, b: Key)
    requires Precedes(rows, fold, a, b)
    ensures Precedes(rows + [row], fold, a, b)
  {
    var i: nat, j: nat :| i < j && IsFirst(rows, fold, a, i) && IsFirst(rows, fold, b, j);
    FirstStays(rows, row, fold, a, i);
    FirstStays(rows, row, fold, b, j);
  }

  // Some first row exists for a key that occurs.
  lemma {:induction false} FirstExists(rows: seq<Parsed>, fold: string -> string, key: Key, i: nat) returns (f: nat)
    requires i < |rows| && HasKey(rows, fold, i, key)
    ensures f <= i && IsFirst(rows, fold, key, f)
  {
    if j: nat :| j < i && HasKey(rows, fold, j, key) {
      f := FirstExists(rows, fold, key, j);
    } else {
      f := i;
    }
  }

  // A new row leaves the winner alone unless it has the winner's key and is preferred over it.
  lemma WinnerStays(rows: seq<Parsed>, row: Parsed, fold: string -> string, title: RoleTitle)
    requires Wins(rows, fold, title)
    requires HasKey(rows + [row], fold, |rows|, KeyOf(title)) ==> !row.isPreferred || title.parsed.isPreferred
    ensures Wins(rows + [row], fold, title)
  {
    var more := rows + [row];
    var key := KeyOf(title);
    var w: nat :| IsWinner(rows, fold, key, w) && title == Title(rows[w], fold);
    assert forall i :: 0 <= i < |rows| ==>
      more[i] == rows[i] && HasKey(more, fold, i, key) == HasKey(rows, fold, i, key);
    assert IsWinner(more, fold, key, w);
  }

  lemma NewWinner(rows: seq<Parsed>, row: Parsed, fold: string -> string, key: Key)
    requires HasKey(rows + [row], fold, |rows|, key)
    requires !Occurs(rows, fold, key) ||
             (row.isPreferred && forall i :: 0 <= i < |rows| && HasKey(rows, fold, i, key) ==> !rows[i].isPreferred)
    ensures Wins(rows + [row], fold, Title(row, fold))
  {
    var more := rows + [row];
    assert forall i :: 0 <= i < |rows| ==>
      more[i] == rows[i] && HasKey(more, fold, i, key) == HasKey(rows, fold, i, key);
    assert more[|rows|] == row && IsWinner(more, fold, key, |rows|);
  }

  lemma OccursStays(rows: seq<Parsed>, row: Parsed, fold: string -> string, key: Key)
    ensures Occurs(rows + [row], fold, key) <==> Occurs(rows, fold, key) || HasKey(rows + [row], fold, |rows|, key)
  {
    var more := rows + [row];
    assert forall i :: 0 <= i < |rows| ==> HasKey(more, fold, i, key) == HasKey(rows, fold, i, key);
    if Occurs(rows, fold, key) {
      var i :| 0 <= i < |rows| && HasKey(rows, fold, i, key);
      assert HasKey(more, fold, i, key);
    }
  }

  // A key is in the map exactly if it occurs.
  lemma InMapIffOccurs(rows: seq<Parsed>, fold: string -> string, order: seq<Key>, byKey: map<Key, RoleTitle>, key: Key)
    requires Represents(rows, fold, order, byKey)
    ensures key in byKey <==> Occurs(rows, fold, key)
  {
    if key in byKey {
      var k :| 0 <= k < |order| && order[k] == key;
      var w: nat :| IsWinner(rows, fold, KeyOf(byKey[key]), w);
      assert HasKey(rows, fold, w, key);
    }
  }

  lemma NoPreferredYet(rows: seq<Parsed>, fold: string -> string, order: seq<Key>, byKey: map<Key, RoleTitle>, key: Key)
    requires Represents(rows, fold, order, byKey) && key in byKey && !byKey[key].parsed.isPreferred
    ensures forall i :: 0 <= i < |rows| && HasKey(rows, fold, i, key) ==> !rows[i].isPreferred
  {
    var k :| 0 <= k < |order| && order[k] == key;
    var w: nat :| IsWinner(rows, fold, KeyOf(byKey[key]), w) && byKey[key] == Title(rows[w], fold);
  }

  // One turn of the loop.
  lemma RowCollected(rows: seq<Parsed>, row: Parsed, fold: string -> string,
                     order: seq<Key>, byKey: map<Key, RoleTitle>, order': seq<Key>, byKey': map<Key, RoleTitle>)
    requires Represents(rows, fold, order, byKey)
    requires var title := Title(row, fold);
             var key := KeyOf(title);
             if |key.1| < 2 then order' == order && byKey' == byKey
             else if key !in byKey then order' == order + [key] && byKey' == byKey[key := title]
             else order' == order &&
                  byKey' == if row.isPreferred && !byKey[key].parsed.isPreferred then byKey[key := title] else byKey
    ensures Represents(rows + [row], fold, order', byKey')
  {
    hide Wins, Precedes, Clean;
    var more := rows + [row];
    var n := |rows|;
    var title := Title(row, fold);
    var key := KeyOf(title);
    assert more[n] == row;
    InMapIffOccurs(rows, fold, order, byKey, key);
    if key in byKey && !byKey[key].parsed.isPreferred {
      NoPreferredYet(rows, fold, order, byKey, key);
    }
    forall other | other in byKey' ensures other in order' && Wins(more, fold, byKey'[other]) {
      if other == key && byKey'[key] == title && |key.1| >= 2 && (key !in byKey || byKey[key] != title) {
        NewWinner(rows, row, fold, key);
      } else {
        assert other in order;
        WinnerStays(rows, row, fold, byKey[other]);
      }
    }
    forall other | Occurs(more, fold, other) ensures other in byKey' {
      OccursStays(rows, row, fold, other);
    }
    forall k, l | 0 <= k < l < |order'| ensures Precedes(more, fold, order'[k], order'[l]) {
      if l < |order| {
        PrecedesStays(rows, row, fold, order[k], order[l]);
      } else {
        NewKeyIsLast(rows, row, fold, order, byKey, order[k], key);
      }
    }
  }

  lemma NewKeyIsLast(rows: seq<Parsed>, row: Parsed, fold: string -> string,
                     order: seq<Key>, byKey: map<Key, RoleTitle>, older: Key, key: Key)
    requires Represents(rows, fold, order, byKey) && older in byKey && key !in byKey
    requires HasKey(rows + [row], fold, |rows|, key)
    ensures Precedes(rows + [row], fold, older, key)
  {
    InMapIffOccurs(rows, fold, order, byKey, older);
    var i :| 0 <= i < |rows| && HasKey(rows, fold, i, older);
    var f := FirstExists(rows, fold, older, i);
    FirstStays(rows, row, fold, older, f);
    assert forall j :: 0 <= j < |rows| && HasKey(rows + [row], fold, j, key) ==> HasKey(rows, fold, j, key);
    assert IsFirst(rows + [row], fold, key, |rows|);
  }

  method Collect(rows: seq<Parsed>, fold: string -> string) returns (titles: seq<RoleTitle>)
    ensures IsCollection(rows, fold, titles) && OneTitleEach(rows, fold, titles)
  {
    var order: seq<Key> := [];
    var byKey: map<Key, RoleTitle> := map[];
    assert rows[..0] == [];
    assert Represents([], fold, order, byKey);
    for i := 0 to |rows|
      invariant Represents(rows[..i], fold, order, byKey)
    {
      hide Represents;
      var row := rows[i];
      ghost var order0, byKey0 := order, byKey;
      var title := Title(row, fold);
      var key := KeyOf(title);
      if |key.1| >= 2 {
        if key !in byKey {
          order := order + [key];
          byKey := byKey[key := title];
        } else if row.isPreferred && !byKey[key].parsed.isPreferred {
          byKey := byKey[key := title];
        }
      }
      RowCollected(rows[..i], row, fold, order0, byKey0, order, byKey);
      assert rows[..i + 1] == rows[..i] + [row];
    }
    assert rows[..|rows|] == rows;
    titles := seq(|order|, k requires 0 <= k < |order| && order[k] in byKey => byKey[order[k]]);
    ValuesInOrder(rows, fold, order, byKey, titles);
    CollectionMeans(rows, fold, titles);
  }

  // The values of the map in insertion order are the collection.
  lemma ValuesInOrder(rows: seq<Parsed>, fold: string -> string, order: seq<Key>, byKey: map<Key, RoleTitle>,
                      titles: seq<RoleTitle>)
    requires Represents(rows, fold, order, byKey)
    requires |titles| == |order| && forall k :: 0 <= k < |order| ==> titles[k] == byKey[order[k]]
    ensures IsCollection(rows, fold, titles)
  {
    hide Wins, Precedes, Occurs;
    forall key | Occurs(rows, fold, key) ensures exists k :: 0 <= k < |titles| && KeyOf(titles[k]) == key {
      var k :| 0 <= k < |order| && order[k] == key;
      assert KeyOf(titles[k]) == key;
    }
  }

  // ---------- The rows determine the titles ----------

  lemma WinnerUnique(rows: seq<Parsed>, fold: string -> string, a: RoleTitle, b: RoleTitle)
    requires Wins(rows, fold, a) && Wins(rows, fold, b) && KeyOf(a) == KeyOf(b)
    ensures a == b
  {
    var v: nat :| IsWinner(rows, fold, KeyOf(a), v) && a == Title(rows[v], fold);
    var w: nat :| IsWinner(rows, fold, KeyOf(b), w) && b == Title(rows[w], fold);
    assert v == w;
  }

  lemma PrecedesAsymmetric(rows: seq<Parsed>, fold: string -> string, a: Key, b: Key)
    requires Precedes(rows, fold, a, b)
    ensures a != b && !Precedes(rows, fold, b, a)
  {
    var i: nat, j: nat :| i < j && IsFirst(rows, fold, a, i) && IsFirst(rows, fold, b, j);
    assert forall k: nat :: IsFirst(rows, fold, b, k) ==> k == j;
  }

  lemma WinnerOccurs(rows: seq<Parsed>, fold: string -> string, title: RoleTitle)
    requires Wins(rows, fold, title)
    ensures Occurs(rows, fold, KeyOf(title))
  {
    var w: nat :| IsWinner(rows, fold, KeyOf(title), w);
    assert HasKey(rows, fold, w, KeyOf(title));
  }

  // Where a has its k-th key, b has it no earlier, if the two agree up to there.
  lemma NoEarlier(rows: seq<Parsed>, fold: string -> string, a: seq<RoleTitle>, b: seq<RoleTitle>, k: nat)
    returns (m: nat)
    requires IsCollection(rows, fold, a) && IsCollection(rows, fold, b)
    requires k < |a| && k <= |b| && a[..k] == b[..k]
    ensures k <= m < |b| && KeyOf(b[m]) == KeyOf(a[k])
  {
    hide Wins, Precedes;
    WinnerOccurs(rows, fold, a[k]);
    m :| 0 <= m < |b| && KeyOf(b[m]) == KeyOf(a[k]);
    if m < k {
      assert a[m] == a[..k][m] == b[..k][m] == b[m];
      PrecedesAsymmetric(rows, fold, KeyOf(a[m]), KeyOf(a[k]));
    }
  }

  lemma {:induction false} SameUpTo(rows: seq<Parsed>, fold: string -> string,
                                    a: seq<RoleTitle>, b: seq<RoleTitle>, n: nat)
    requires IsCollection(rows, fold, a) && IsCollection(rows, fold, b) && n <= |a|
    ensures n <= |b| && a[..n] == b[..n]
    decreases n
  {
    hide Wins, Precedes;
    if n > 0 {
      var k := n - 1;
      SameUpTo(rows, fold, a, b, k);
      var m := NoEarlier(rows, fold, a, b, k);
      var l := NoEarlier(rows, fold, b, a, k);
      if k < m {
        PrecedesAsymmetric(rows, fold, KeyOf(b[k]), KeyOf(b[m]));
      }
      WinnerUnique(rows, fold, a[k], b[k]);
      assert a[..n] == a[..k] + [a[k]] && b[..n] == b[..k] + [b[k]];
    }
  }

  // The specification has one solution.
  lemma CollectionUnique(rows: seq<Parsed>, fold: string -> string, a: seq<RoleTitle>, b: seq<RoleTitle>)
    requires IsCollection(rows, fold, a) && IsCollection(rows, fold, b)
    ensures a == b
  {
    SameUpTo(rows, fold, a, b, |a|);
    SameUpTo(rows, fold, b, a, |b|);
    assert a[..|a|] == a && b[..|b|] == b;
  }

  function Again(titles: seq<RoleTitle>): (rows: seq<Parsed>) {
    seq(|titles|, k requires 0 <= k < |titles| => titles[k].parsed)
  }

  lemma CollectedTitle(rows: seq<Parsed>, fold: string -> string, title: RoleTitle)
    requires Wins(rows, fold, title)
    ensures Title(title.parsed, fold) == title && |KeyOf(title).1| >= 2
  {
    var w: nat :| IsWinner(rows, fold, KeyOf(title), w) && title == Title(rows[w], fold);
    CleanIdempotent(rows[w].labelText);
  }

  lemma DistinctKeys(rows: seq<Parsed>, fold: string -> string, titles: seq<RoleTitle>)
    requires IsCollection(rows, fold, titles)
    ensures forall k, l :: 0 <= k < l < |titles| ==> KeyOf(titles[k]) != KeyOf(titles[l])
  {
    forall k, l | 0 <= k < l < |titles| ensures KeyOf(titles[k]) != KeyOf(titles[l]) {
      PrecedesAsymmetric(rows, fold, KeyOf(titles[k]), KeyOf(titles[l]));
    }
  }

  lemma OnlyOneHasKey(again: seq<Parsed>, fold: string -> string, key: Key, k: nat)
    requires k < |again| && HasKey(again, fold, k, key)
    requires forall i :: 0 <= i < |again| && HasKey(again, fold, i, key) ==> i == k
    ensures IsFirst(again, fold, key, k) && IsWinner(again, fold, key, k)
  {
  }

  // Collecting what was collected changes nothing, whatever the folding function.
  lemma CollectTwice(rows: seq<Parsed>, fold: string -> string, once: seq<RoleTitle>, twice: seq<RoleTitle>)
    requires IsCollection(rows, fold, once) && IsCollection(Again(once), fold, twice)
    ensures twice == once
  {
    hide IsFirst, IsWinner;
    var again := Again(once);
    DistinctKeys(rows, fold, once);
    forall i, key | 0 <= i < |once| ensures HasKey(again, fold, i, key) <==> KeyOf(once[i]) == key {
      CollectedTitle(rows, fold, once[i]);
    }
    forall k | 0 <= k < |once| ensures IsFirst(again, fold, KeyOf(once[k]), k) && Wins(again, fold, once[k]) {
      CollectedTitle(rows, fold, once[k]);
      OnlyOneHasKey(again, fold, KeyOf(once[k]), k);
    }
    CollectionUnique(again, fold, once, twice);
  }

  // Each import passes rows of one source to collect; the titles have that source and distinct keys.
  lemma CollectedFromOneSource(rows: seq<Parsed>, fold: string -> string, titles: seq<RoleTitle>, source: Source)
    requires IsCollection(rows, fold, titles) && forall i :: 0 <= i < |rows| ==> rows[i].source == source
    ensures forall k :: 0 <= k < |titles| ==> titles[k].parsed.source == source
    ensures forall k, l :: 0 <= k < l < |titles| ==> KeyOf(titles[k]) != KeyOf(titles[l])
  {
    forall k | 0 <= k < |titles| ensures titles[k].parsed.source == source {
      assert Wins(rows, fold, titles[k]);
    }
    DistinctKeys(rows, fold, titles);
  }
}
