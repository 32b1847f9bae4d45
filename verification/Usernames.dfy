/**
 * prisma/seeds/dev/username.seed.ts: a username from an e-mail address, the search for one that is
 * free, and the seeding of all users without one.
 *
 * toLowerCase is a parameter, as its full definition is Unicode's.
 */
module Usernames {
  import opened Results
  import opened Runs
  import opened Sequences

  // ---------- generateUsernameFromEmail ----------

  function BeforeAt(email: string): string {
    if email == "" || email[0] == '@' then "" else [email[0]] + BeforeAt(email[1..])
  }

  predicate IsNameChar(c: char) {
    ('a' <= c <= 'z') || ('0' <= c <= '9') || c == '_'
  }

  // Dots, pluses and hyphens become underscores.
  function Underscored(s: string): string {
    if s == "" then ""
    else [if s[0] == '.' || s[0] == '+' || s[0] == '-' then '_' else s[0]] + Underscored(s[1..])
  }

  // Only the name characters are left.
  function OnlyNameChars(s: string): string {
    if s == "" then "" else (if IsNameChar(s[0]) then [s[0]] else "") + OnlyNameChars(s[1..])
  }

  predicate IsUnderscore(c: char) {
    c == '_'
  }

  // One underscore is left of every run of them.
  function SingleUnderscores(s: string): string {
    Collapse(s, IsUnderscore, '_')
  }

  // One underscore less at either end, if there is one.
  function WithoutOuter(s: string): string {
    var t := if s != "" && s[0] == '_' then s[1..] else s;
    if t != "" && t[|t| - 1] == '_' then t[..|t| - 1] else t
  }

  // Zeros make up for what a short name lacks.
  function Padded(s: string): string
    decreases 3 - |s|
  {
    if |s| < 3 then Padded(s + "0") else s
  }

  // The first n characters, or all of them.
  function Prefix(s: string, n: nat): (p: string)
    ensures |p| == if |s| < n then |s| else n
  {
    if |s| > n then s[..n] else s
  }

  // Separators become underscores and everything but name characters goes.
  function Replaced(s: string): string {
    OnlyNameChars(Underscored(s))
  }

  function Normalized(local: string): string {
    WithoutOuter(SingleUnderscores(Replaced(local)))
  }

  function GenerateUsername(email: string, lower: string -> string): string {
    Prefix(Padded(Normalized(lower(BeforeAt(email)))), 30)
  }

  // Only lower-case letters, digits and single underscores, none of them leading.
  ghost predicate WellSpelled(s: string) {
    && (forall i :: 0 <= i < |s| ==> ('a' <= s[i] <= 'z') || ('0' <= s[i] <= '9') || s[i] == '_')
    && (forall i, j :: 0 <= i && j == i + 1 && j < |s| ==> !(s[i] == '_' && s[j] == '_'))
    && (s != "" ==> s[0] != '_')
  }

  ghost predicate ValidName(s: string) {
    3 <= |s| <= 30 && WellSpelled(s)
  }

  lemma {:induction false} OnlyNameCharsAre(s: string)
    ensures forall i :: 0 <= i < |OnlyNameChars(s)| ==> IsNameChar(OnlyNameChars(s)[i])
  {
    if s != "" {
      OnlyNameCharsAre(s[1..]);
    }
  }

  lemma SingleUnderscoresAre(s: string)
    requires forall i :: 0 <= i < |s| ==> IsNameChar(s[i])
    ensures var r := SingleUnderscores(s);
            && (forall i :: 0 <= i < |r| ==> IsNameChar(r[i]))
            && (forall i, j :: 0 <= i && j == i + 1 && j < |r| ==> !(r[i] == '_' && r[j] == '_'))
  {
    CollapseSingle(s, IsUnderscore, '_');
  }

  lemma PaddedValid(s: string)
    requires WellSpelled(s)
    ensures WellSpelled(Padded(s)) && |Padded(s)| >= 3
    decreases 3 - |s|
  {
    if |s| < 3 {
      assert WellSpelled(s + "0");
      PaddedValid(s + "0");
    }
  }

  // Whatever the address and however it is lower-cased, the username is valid.
  lemma GeneratedIsValid(email: string, lower: string -> string)
    ensures ValidName(GenerateUsername(email, lower))
  {
    var s := OnlyNameChars(Underscored(lower(BeforeAt(email))));
    OnlyNameCharsAre(Underscored(lower(BeforeAt(email))));
    SingleUnderscoresAre(s);
    var u := WithoutOuter(SingleUnderscores(s));
    assert WellSpelled(u);
    PaddedValid(u);
  }

  lemma {:induction false} NothingToReplace(s: string)
    requires forall i :: 0 <= i < |s| ==> IsNameChar(s[i])
    ensures Underscored(s) == s && OnlyNameChars(s) == s
  {
    if s != "" {
      assert s == [s[0]] + s[1..] && IsNameChar(s[0]);
      NothingToReplace(s[1..]);
    }
  }

  // ---------- What a local part with separators and other characters becomes ----------

  predicate IsSeparator(c: char) {
    c == '.' || c == '+' || c == '-' || c == '_'
  }

  // Name characters other than the underscore.
  predicate IsNameWord(w: string) {
    w != "" && forall i :: 0 <= i < |w| ==> IsNameChar(w[i]) && w[i] != '_'
  }

  predicate IsGap(s: string) {
    s != "" && forall i :: 0 <= i < |s| ==> IsSeparator(s[i])
  }

  lemma {:induction false} UnderscoredJoins(a: string, b: string)
    ensures Underscored(a + b) == Underscored(a) + Underscored(b)
    decreases |a|
  {
    if a == "" {
      Sequences.Empty(b);
      Sequences.Empty(Underscored(b));
    } else {
      Sequences.Tail(a, b);
      UnderscoredJoins(a[1..], b);
      var c := [if a[0] == '.' || a[0] == '+' || a[0] == '-' then '_' else a[0]];
      Sequences.Assoc(c, Underscored(a[1..]), Underscored(b));
    }
  }

  lemma {:induction false} NameCharsJoin(a: string, b: string)
    ensures OnlyNameChars(a + b) == OnlyNameChars(a) + OnlyNameChars(b)
    decreases |a|
  {
    if a == "" {
      Sequences.Empty(b);
      Sequences.Empty(OnlyNameChars(b));
    } else {
      Sequences.Tail(a, b);
      NameCharsJoin(a[1..], b);
      Sequences.Assoc(if IsNameChar(a[0]) then [a[0]] else "", OnlyNameChars(a[1..]), OnlyNameChars(b));
    }
  }

  lemma ReplacementsJoin(a: string, b: string)
    ensures Replaced(a + b) == Replaced(a) + Replaced(b)
  {
    UnderscoredJoins(a, b);
    NameCharsJoin(Underscored(a), Underscored(b));
  }

  lemma OtherCharacterVanishes(c: char)
    requires !IsNameChar(c) && !IsSeparator(c)
    ensures Replaced([c]) == ""
  {
    var s := [c];
    assert s[1..] == "";
    assert Underscored(s) == s;
    assert OnlyNameChars(s) == "";
  }

  // Characters that are neither name characters nor separators leave no trace.
  lemma OtherCharactersVanish(a: string, c: char, b: string)
    requires !IsNameChar(c) && !IsSeparator(c)
    ensures Normalized(a + [c] + b) == Normalized(a + b)
  {
    OtherCharacterVanishes(c);
    ReplacementsJoin(a, [c]);
    ReplacementsJoin(a + [c], b);
    ReplacementsJoin(a, b);
    Sequences.Empty(Replaced(a));
  }

  lemma {:induction false} CleanGap(gap: string)
    requires forall i :: 0 <= i < |gap| ==> IsSeparator(gap[i])
    ensures Replaced(gap) == seq(|gap|, _ => '_')
  {
    if gap != "" {
      CleanGap(gap[1..]);
    }
  }

  // Every gap becomes a run of underscores, every word stays.
  ghost function UnderscoreGaps(gaps: seq<string>): (r: seq<string>)
    ensures |r| == |gaps|
  {
    seq(|gaps|, i requires 0 <= i < |gaps| => Replaced(gaps[i]))
  }

  lemma {:induction false} ReplacedSpaced(words: seq<string>, gaps: seq<string>)
    requires |gaps| == |words| && forall i :: 0 <= i < |words| ==> IsNameWord(words[i])
    ensures Replaced(Spaced(words, gaps)) == Spaced(words, UnderscoreGaps(gaps))
    decreases |words|
  {
    if words != [] {
      hide Replaced;
      assert Spaced(words, gaps) == gaps[0] + words[0] + Spaced(words[1..], gaps[1..]);
      ReplacementsJoin(gaps[0] + words[0], Spaced(words[1..], gaps[1..]));
      ReplacementsJoin(gaps[0], words[0]);
      WordStays(words[0]);
      ReplacedSpaced(words[1..], gaps[1..]);
      assert UnderscoreGaps(gaps)[1..] == UnderscoreGaps(gaps[1..]);
    }
  }

  lemma WordStays(w: string)
    requires IsNameWord(w)
    ensures Replaced(w) == w && IsWord(w, IsUnderscore)
  {
    NothingToReplace(w);
  }

  lemma GapBecomesUnderscores(gap: string)
    requires gap != "" ==> IsGap(gap)
    ensures |Replaced(gap)| == |gap| && AllGap(Replaced(gap), IsUnderscore)
  {
    CleanGap(gap);
  }

  // Words separated by any runs of dots, pluses, hyphens and underscores come out joined by single
  // underscores; runs in front and behind are dropped.
  lemma WordsAreJoined(lead: string, first: string, words: seq<string>, gaps: seq<string>, last: string)
    requires |gaps| == |words| && (last != "" ==> IsGap(last)) && (lead != "" ==> IsGap(lead))
    requires IsNameWord(first) && forall i :: 0 <= i < |words| ==> IsNameWord(words[i]) && IsGap(gaps[i])
    ensures Normalized(lead + first + (Spaced(words, gaps) + last)) == first + Joined(words, '_')
  {
    hide Replaced, Joined, Spaced, Collapse, IsNameWord;
    ReplacementsJoin(lead + first, Spaced(words, gaps) + last);
    ReplacementsJoin(lead, first);
    ReplacementsJoin(Spaced(words, gaps), last);
    ReplacedSpaced(words, gaps);
    WordStays(first);
    GapBecomesUnderscores(lead);
    GapBecomesUnderscores(last);
    forall i | 0 <= i < |words|
      ensures IsWord(words[i], IsUnderscore)
      ensures UnderscoreGaps(gaps)[i] != "" && AllGap(UnderscoreGaps(gaps)[i], IsUnderscore)
    {
      WordStays(words[i]);
      GapBecomesUnderscores(gaps[i]);
    }
    CollapseWords(Replaced(lead), first, words, UnderscoreGaps(gaps), Replaced(last), IsUnderscore, '_');
    JoinedEnds(first, words, IsUnderscore, '_');
    OuterDropped(lead != "", first + Joined(words, '_'), last != "");
  }

  lemma OuterDropped(before: bool, s: string, after: bool)
    requires s != "" && s[0] != '_' && s[|s| - 1] != '_'
    ensures WithoutOuter((if before then "_" else "") + s + if after then "_" else "") == s
  {
    var t := (if before then "_" else "") + s + if after then "_" else "";
    assert t[if before then 1 else 0..] == s + if after then "_" else "";
    assert (s + "_")[..|s|] == s && s + "" == s;
  }

  lemma {:induction false} BeforeAtOf(local: string, domain: string)
    requires forall i :: 0 <= i < |local| ==> local[i] != '@'
    ensures BeforeAt(local + "@" + domain) == local
    decreases |local|
  {
    var email := local + "@" + domain;
    if local == "" {
      assert email[0] == '@';
    } else {
      assert email[1..] == local[1..] + "@" + domain;
      BeforeAtOf(local[1..], domain);
    }
  }

  // An address whose local part is a valid name without a trailing underscore keeps it.
  lemma ValidNameIsKept(name: string, domain: string, lower: string -> string)
    requires ValidName(name) && name[|name| - 1] != '_' && lower(name) == name
    ensures GenerateUsername(name + "@" + domain, lower) == name
  {
    NormalizedAlready(name);
    assert forall i :: 0 <= i < |name| ==> IsNameChar(name[i]);
    hide ValidName, Normalized, IsNameChar;
    BeforeAtOf(name, domain);
  }

  lemma NormalizedAlready(name: string)
    requires ValidName(name) && name[|name| - 1] != '_'
    ensures Normalized(name) == name && Padded(name) == name && Prefix(name, 30) == name
  {
    hide Underscored, OnlyNameChars, Collapse;
    NothingToReplace(name);
    assert SingleGaps(name, IsUnderscore, '_');
    CollapseAlready(name, IsUnderscore, '_');
  }

  // ---------- findUniqueUsername ----------

  function Digit(d: nat): (c: char)
    requires d < 10
    ensures '0' <= c <= '9' && c as int == '0' as int + d
  {
    '0' + d as char
  }

  // The number in decimal.
  function Digits(n: nat): (s: string)
    ensures |s| > 0 && forall i :: 0 <= i < |s| ==> '0' <= s[i] <= '9'
  {
    if n < 10 then [Digit(n)] else Digits(n / 10) + [Digit(n % 10)]
  }

  lemma LastDigit(n: nat)
    ensures Digits(n)[|Digits(n)| - 1] == Digit(n % 10)
    ensures n < 10 <==> |Digits(n)| == 1
    ensures n >= 10 ==> Digits(n)[..|Digits(n)| - 1] == Digits(n / 10)
  {
  }

  lemma {:induction false} DigitsDiffer(m: nat, n: nat)
    requires Digits(m) == Digits(n)
    ensures m == n
  {
    LastDigit(m);
    LastDigit(n);
    hide Digits;
    assert m % 10 == n % 10;
    if m >= 10 {
      DigitsDiffer(m / 10, n / 10);
    }
  }

  lemma DigitsLength(n: nat)
    ensures n < 10 ==> |Digits(n)| == 1
    ensures 10 <= n < 100 ==> |Digits(n)| == 2
    ensures 100 <= n < 1000 ==> |Digits(n)| == 3
    ensures 1000 <= n < 10000 ==> |Digits(n)| == 4
  {
    if n >= 10 {
      assert |Digits(n)| == |Digits(n / 10)| + 1;
      if n >= 100 {
        assert n / 10 >= 10 && |Digits(n / 10)| == |Digits(n / 10 / 10)| + 1;
        if 1000 <= n < 10000 {
          assert 10 <= n / 10 / 10 < 100 && |Digits(n / 10 / 10)| == |Digits(n / 10 / 10 / 10)| + 1;
        }
      }
    }
  }

  const LIMIT: nat := 10000

  // The name tried first, and those with the numbers from 1 to 9999.
  function Candidate(base: string, c: nat): string
    requires c < LIMIT
  {
    DigitsLength(c);
    if c == 0 then base else Prefix(base, 30 - |Digits(c)|) + Digits(c)
  }

  // Candidate c was the first one free, as far as the names in use tell.
  ghost predicate FirstFree(base: string, c: nat, name: string, taken: set<string>) {
    c < LIMIT && name == Candidate(base, c) && forall d: nat :: d < c ==> Candidate(base, d) in taken
  }

  ghost predicate AllTaken(base: string, taken: set<string>) {
    forall c: nat :: c < LIMIT ==> Candidate(base, c) in taken
  }

  // The first candidate that is not taken, or a failure when all of them are.
  method FindUniqueUsername(taken: set<string>, base: string) returns (r: Result<string, string>)
    ensures match r
            case Success(name) =>
              name !in taken && exists c: nat :: FirstFree(base, c, name, taken)
            case Failure(_) => AllTaken(base, taken)
  {
    hide Digits, Prefix, Candidate;
    var username := base;
    var counter := 1;
    NextCandidate(base, 0);
    while true
      invariant 1 <= counter <= LIMIT && username == Candidate(base, counter - 1)
      invariant forall d: nat :: d < counter - 1 ==> Candidate(base, d) in taken
      decreases LIMIT - counter
    {
      if username !in taken {
        assert FirstFree(base, counter - 1, username, taken);
        return Success(username);
      }
      NextCandidate(base, counter);
      var suffix := Digits(counter);
      username := Prefix(base, 30 - |suffix|) + suffix;
      counter := counter + 1;
      if counter > LIMIT {
        return Failure("Could not find unique username for base: " + base);
      }
    }
  }

  lemma NextCandidate(base: string, n: nat)
    requires n <= LIMIT
    ensures |Digits(n)| <= 5
    ensures 0 < n < LIMIT ==> Candidate(base, n) == Prefix(base, 30 - |Digits(n)|) + Digits(n)
    ensures Candidate(base, 0) == base
  {
    DigitsLength(n);
    DigitsLength(n / 10);
  }

  lemma CandidateValid(base: string, c: nat)
    requires ValidName(base) && c < LIMIT
    ensures ValidName(Candidate(base, c))
  {
    DigitsLength(c);
  }

  // Names with four-digit numbers are all different.
  lemma FourDigitCandidatesDiffer(base: string, c: nat, d: nat)
    requires 1000 <= c < LIMIT && 1000 <= d < LIMIT && Candidate(base, c) == Candidate(base, d)
    ensures c == d
  {
    DigitsLength(c);
    DigitsLength(d);
    var p := Prefix(base, 26);
    assert Candidate(base, c)[|p|..] == Digits(c) && Candidate(base, d)[|p|..] == Digits(d);
    DigitsDiffer(c, d);
  }

  ghost function FourDigitCandidates(base: string, end: nat): set<string>
    requires end <= LIMIT
  {
    set c: nat | 1000 <= c < end :: Candidate(base, c)
  }

  lemma {:induction false} CountFourDigitCandidates(base: string, end: nat)
    requires 1000 <= end <= LIMIT
    ensures |FourDigitCandidates(base, end)| == end - 1000
    decreases end
  {
    hide Candidate;
    if end == 1000 {
      assert FourDigitCandidates(base, end) == {};
    } else {
      CountFourDigitCandidates(base, end - 1);
      var last := Candidate(base, end - 1);
      assert FourDigitCandidates(base, end) == FourDigitCandidates(base, end - 1) + {last};
      forall c: nat | 1000 <= c < end - 1 ensures Candidate(base, c) != last {
        if Candidate(base, c) == last {
          FourDigitCandidatesDiffer(base, c, end - 1);
        }
      }
    }
  }

  lemma SubsetIsSmaller<T>(a: set<T>, b: set<T>)
    requires a <= b
    ensures |a| <= |b|
  {
    assert b == a + (b - a);
  }

  // The search can only fail when at least 9000 names are taken.
  lemma FailureNeeds9000(taken: set<string>, base: string)
    requires AllTaken(base, taken)
    ensures |taken| >= 9000
  {
    CountFourDigitCandidates(base, LIMIT);
    SubsetIsSmaller(FourDigitCandidates(base, LIMIT), taken);
  }

  // ---------- seedUsernames ----------

  type Id = nat

  datatype User = User(email: Option<string>, username: Option<string>)

  type Users = map<Id, User>

  ghost function Taken(users: Users): set<string> {
    set id | id in users && users[id].username.Some? :: users[id].username.value
  }

  // No two users share a name.
  ghost predicate UniqueNames(users: Users) {
    forall a, b :: a in users && b in users && a != b && users[a].username.Some? ==>
      users[a].username != users[b].username
  }

  // Users with an e-mail address and no name, in some order.
  ghost predicate ListsPending(ids: seq<Id>, users: Users) {
    && (forall id :: id in ids <==> id in users && users[id].username.None? && users[id].email.Some?)
    && (forall i, j :: 0 <= i < j < |ids| ==> ids[i] != ids[j])
  }

  // What the loop leaves alone, having dealt with the users in `done`.
  ghost predicate Keeps(before: Users, after: Users, done: seq<Id>) {
    && after.Keys == before.Keys
    && (forall id :: id in before ==> after[id].email == before[id].email)
    && (forall id :: id in before && id !in done ==> after[id] == before[id])
  }

  // The names of the listed users.
  ghost function Given(users: Users, ids: seq<Id>): set<string> {
    set id | id in ids && id in users && users[id].username.Some? :: users[id].username.value
  }

  // Listed users with an address who have no name: for them the search failed.
  ghost function Failed(users: Users, ids: seq<Id>): set<Id> {
    set id | id in ids && id in users && users[id].email != Some("") && users[id].username.None?
  }

  // The names in use when it is user i's turn: those taken beforehand and those of the users listed earlier.
  ghost function TakenAt(before: Users, after: Users, ids: seq<Id>, i: nat): set<string>
    requires i <= |ids|
  {
    Taken(before) + Given(after, ids[..i])
  }

  // User i was given the first candidate for the address that was free by then, or left alone because
  // the address is empty or all candidates were taken.
  ghost predicate Dealt(before: Users, after: Users, ids: seq<Id>, i: nat, lower: string -> string)
    requires i < |ids| && ids[i] in before && ids[i] in after && before[ids[i]].email.Some?
  {
    var id := ids[i];
    var base := GenerateUsername(before[id].email.value, lower);
    var taken := TakenAt(before, after, ids, i);
    if before[id].email == Some("") then after[id] == before[id]
    else match after[id].username
      case Some(name) => name !in taken && exists c: nat :: FirstFree(base, c, name, taken)
      case None => after[id] == before[id] && AllTaken(base, taken)
  }

  ghost predicate AllDealt(before: Users, after: Users, ids: seq<Id>, lower: string -> string) {
    forall i :: 0 <= i < |ids| ==>
      && ids[i] in before && ids[i] in after && before[ids[i]].email.Some?
      && Dealt(before, after, ids, i, lower)
  }

  // What holds once the users in `done` have been dealt with.
  ghost predicate Progress(before: Users, after: Users, done: seq<Id>, lower: string -> string) {
    && UniqueNames(after) && Keeps(before, after, done) && Taken(after) == Taken(before) + Given(after, done)
    && AllDealt(before, after, done, lower)
  }

  lemma TakenGrows(users: Users, id: Id, name: string)
    requires id in users && users[id].username.None?
    ensures Taken(users[id := users[id].(username := Some(name))]) == Taken(users) + {name}
  {
    var after := users[id := users[id].(username := Some(name))];
    forall x | x in Taken(users) + {name} ensures x in Taken(after) {
      if x in Taken(users) {
        var a :| a in users && users[a].username == Some(x);
        assert a in after && after[a].username == Some(x);
      } else {
        assert after[id].username == Some(x);
      }
    }
    forall x | x in Taken(after) ensures x in Taken(users) + {name} {
      var a :| a in after && after[a].username == Some(x);
      assert a != id ==> users[a].username == Some(x);
    }
  }

  // What happens to a user further down the list does not concern the ones before.
  lemma DealtStays(before: Users, users: Users, after: Users, done: seq<Id>, id: Id, i: nat, lower: string -> string)
    requires i < |done| && done[i] in before && done[i] in users && before[done[i]].email.Some?
    requires id !in done && after.Keys == users.Keys && forall d :: d in users && d != id ==> after[d] == users[d]
    requires Dealt(before, users, done, i, lower)
    ensures Dealt(before, after, done + [id], i, lower)
  {
    assert (done + [id])[..i] == done[..i] && forall d :: d in done[..i] ==> d in done;
    assert Given(after, done[..i]) == Given(users, done[..i]);
  }

  lemma AllDealtOneMore(before: Users, users: Users, after: Users, done: seq<Id>, id: Id, lower: string -> string)
    requires AllDealt(before, users, done, lower)
    requires id !in done && after.Keys == users.Keys && forall d :: d in users && d != id ==> after[d] == users[d]
    requires id in before && id in after && before[id].email.Some? && Dealt(before, after, done + [id], |done|, lower)
    ensures AllDealt(before, after, done + [id], lower)
  {
    hide Dealt;
    forall i | 0 <= i < |done| ensures Dealt(before, after, done + [id], i, lower) {
      DealtStays(before, users, after, done, id, i, lower);
    }
  }

  lemma GivenOneMore(users: Users, done: seq<Id>, id: Id)
    requires id in users
    ensures Given(users, done + [id])
         == Given(users, done) + if users[id].username.Some? then {users[id].username.value} else {}
    ensures Failed(users, done + [id])
         == Failed(users, done) + if users[id].email != Some("") && users[id].username.None? then {id} else {}
  {
  }

  lemma NamesStayUnique(users: Users, id: Id, name: string)
    requires UniqueNames(users) && id in users && name !in Taken(users)
    ensures UniqueNames(users[id := users[id].(username := Some(name))])
  {
    var after := users[id := users[id].(username := Some(name))];
    forall a, b | a in after && b in after && a != b && after[a].username.Some?
      ensures after[a].username != after[b].username
    {
      if a == id {
        assert users[b].username.Some? ==> users[b].username.value in Taken(users);
      } else if b == id {
        assert users[a].username.value in Taken(users);
      }
    }
  }

  lemma SameNamesBefore(users: Users, after: Users, done: seq<Id>, id: Id)
    requires id !in done && after.Keys == users.Keys && forall d :: d in users && d != id ==> after[d] == users[d]
    ensures Given(after, done) == Given(users, done) && Failed(after, done) == Failed(users, done)
  {
  }

  // Naming one user with the first free candidate.
  lemma NamingProgress(before: Users, users: Users, done: seq<Id>, id: Id, c: nat, name: string,
                       lower: string -> string)
    requires Progress(before, users, done, lower) && id in before && id !in done
    requires before[id].username.None? && before[id].email.Some? && before[id].email != Some("")
    requires name !in Taken(users)
    requires FirstFree(GenerateUsername(before[id].email.value, lower), c, name, Taken(users))
    ensures var after := users[id := users[id].(username := Some(name))];
            && Progress(before, after, done + [id], lower) && |Taken(after)| == |Taken(users)| + 1
            && Failed(after, done + [id]) == Failed(users, done)
  {
    hide FirstFree, Taken, GenerateUsername, AllDealt, UniqueNames, Given, Failed;
    var after := users[id := users[id].(username := Some(name))];
    TakenGrows(users, id, name);
    NamesStayUnique(users, id, name);
    GivenOneMore(after, done, id);
    SameNamesBefore(users, after, done, id);
    assert (done + [id])[..|done|] == done;
    assert Dealt(before, after, done + [id], |done|, lower);
    AllDealtOneMore(before, users, after, done, id, lower);
  }

  lemma SkippingProgress(before: Users, users: Users, done: seq<Id>, id: Id, lower: string -> string)
    requires Progress(before, users, done, lower) && id in before && id !in done
    requires before[id].username.None? && before[id].email.Some?
    requires before[id].email == Some("") || AllTaken(GenerateUsername(before[id].email.value, lower), Taken(users))
    ensures Progress(before, users, done + [id], lower)
    ensures |Failed(users, done + [id])| == |Failed(users, done)| + if before[id].email == Some("") then 0 else 1
  {
    hide AllTaken, Taken, GenerateUsername, AllDealt, UniqueNames;
    GivenOneMore(users, done, id);
    assert (done + [id])[..|done|] == done;
    assert Dealt(before, users, done + [id], |done|, lower);
    AllDealtOneMore(before, users, users, done, id, lower);
  }

  class UserTable {
    var users: Users

    constructor (users: Users)
      ensures this.users == users
    {
      this.users := users;
    }

    // The names in use.
    method TakenNames() returns (taken: set<string>)
      ensures taken == Taken(users)
    {
      taken := set id | id in users && users[id].username.Some? :: users[id].username.value;
    }

    // ids is what the query for users with an e-mail address and no username returns.
    method SeedUsernames(ids: seq<Id>, lower: string -> string) returns (successCount: nat, errorCount: nat)
      requires UniqueNames(users) && ListsPending(ids, users)
      modifies this
      ensures UniqueNames(users) && Keeps(old(users), users, ids)
      ensures AllDealt(old(users), users, ids, lower)
      ensures successCount == |Taken(users)| - |Taken(old(users))| && errorCount == |Failed(users, ids)|
    {
      hide Progress, Taken, FirstFree, AllTaken, Failed;
      successCount, errorCount := 0, 0;
      ghost var before := users;
      ProgressAtStart(before, lower);
      for i := 0 to |ids|
        invariant Progress(before, users, ids[..i], lower)
        invariant successCount == |Taken(users)| - |Taken(before)| && errorCount == |Failed(users, ids[..i])|
      {
        var id := ids[i];
        assert ids[..i + 1] == ids[..i] + [id] && id in ids;
        assert id !in ids[..i];
        NotDealtYet(before, users, ids[..i], id, lower);
        if users[id].email == Some("") {
          SkippingProgress(before, users, ids[..i], id, lower);
          continue;
        }
        var base := GenerateUsername(users[id].email.value, lower);
        var taken := TakenNames();
        var unique := FindUniqueUsername(taken, base);
        match unique
        case Success(name) =>
          ghost var c: nat :| FirstFree(base, c, name, taken);
          NamingProgress(before, users, ids[..i], id, c, name, lower);
          users := users[id := users[id].(username := Some(name))];
          successCount := successCount + 1;
        case Failure(_) =>
          SkippingProgress(before, users, ids[..i], id, lower);
          errorCount := errorCount + 1;
      }
      assert ids[..|ids|] == ids;
      ProgressAtEnd(before, users, ids, lower);
    }
  }

  lemma ProgressAtStart(before: Users, lower: string -> string)
    requires UniqueNames(before)
    ensures Progress(before, before, [], lower) && Failed(before, []) == {}
  {
  }

  lemma NotDealtYet(before: Users, users: Users, done: seq<Id>, id: Id, lower: string -> string)
    requires Progress(before, users, done, lower) && id in before && id !in done
    ensures id in users && users[id] == before[id]
  {
  }

  lemma ProgressAtEnd(before: Users, users: Users, ids: seq<Id>, lower: string -> string)
    requires Progress(before, users, ids, lower)
    ensures UniqueNames(users) && Keeps(before, users, ids)
    ensures AllDealt(before, users, ids, lower)
  {
  }

  lemma {:induction false} FewNamesTaken(users: Users)
    ensures |Taken(users)| <= |users|
    ensures (exists id :: id in users && users[id].username.None?) ==> |Taken(users)| < |users|
    decreases |users|
  {
    if id :| id in users {
      var rest := users - {id};
      assert rest.Keys == users.Keys - {id} && |rest| == |rest.Keys|;
      FewNamesTaken(rest);
      var own := if users[id].username.Some? then {users[id].username.value} else {};
      forall x ensures x in Taken(users) <==> x in Taken(rest) + own {
        if x in Taken(users) {
          var a :| a in users && users[a].username == Some(x);
          assert a != id ==> a in rest && rest[a].username == Some(x);
        }
        if x in Taken(rest) {
          var a :| a in rest && rest[a].username == Some(x);
          assert a in users && users[a].username == Some(x);
        }
      }
      assert Taken(users) == Taken(rest) + own;
      if b :| b in users && users[b].username.None? {
        assert b != id ==> b in rest && rest[b].username.None?;
      }
    }
  }

  // With at most 9000 users, everyone with a non-empty address gets a valid name.
  lemma EveryoneIsNamed(before: Users, after: Users, ids: seq<Id>, i: nat, lower: string -> string)
    requires |before| <= 9000 && ListsPending(ids, before) && Keeps(before, after, ids)
    requires AllDealt(before, after, ids, lower) && i < |ids| && before[ids[i]].email != Some("")
    ensures after[ids[i]].username.Some? && ValidName(after[ids[i]].username.value)
  {
    var email := before[ids[i]].email.value;
    var taken := TakenAt(before, after, ids, i);
    GeneratedIsValid(email, lower);
    FewNamesTaken(after);
    assert |after| == |after.Keys| == |before.Keys| == |before|;
    if after[ids[i]].username.None? {
      FailureNeeds9000(taken, GenerateUsername(email, lower));
      NamesAreTakenNames(before, after, ids, i);
      SubsetIsSmaller(taken, Taken(after));
    } else {
      var c: nat :| FirstFree(GenerateUsername(email, lower), c, after[ids[i]].username.value, taken);
      CandidateValid(GenerateUsername(email, lower), c);
    }
  }

  lemma NamesAreTakenNames(before: Users, after: Users, ids: seq<Id>, i: nat)
    requires ListsPending(ids, before) && Keeps(before, after, ids) && i <= |ids|
    ensures TakenAt(before, after, ids, i) <= Taken(after)
  {
    forall x | x in TakenAt(before, after, ids, i) ensures x in Taken(after) {
      if x in Taken(before) {
        var a :| a in before && before[a].username == Some(x);
        assert after[a] == before[a];
      }
    }
  }
}
