/**
 * prisma/seeds/dev/username.seed.ts: the username for every address, told by the characters of its
 * lower-cased local part, and the shape of the numbered variants.
 */
module UsernameLaws {
  import opened Runs
  import opened Sequences
  import opened Usernames

  predicate IsLetterOrDigit(c: char) {
    ('a' <= c <= 'z') || ('0' <= c <= '9')
  }

  predicate Matters(c: char) {
    IsLetterOrDigit(c) || c in ".+-_"
  }

  ghost predicate AllSeparators(s: string) {
    forall i :: 0 <= i < |s| ==> s[i] in ".+-_"
  }

  ghost predicate IsPlainWord(w: string) {
    w != "" && forall i :: 0 <= i < |w| ==> IsLetterOrDigit(w[i])
  }

  // The part of the address in front of its first at sign, or all of it if there is none.
  ghost predicate HasLocalPart(email: string, local: string) {
    local <= email && '@' !in local && (|email| == |local| || email[|local|] == '@')
  }

  lemma {:induction false} LocalPart(email: string, local: string)
    requires HasLocalPart(email, local)
    ensures BeforeAt(email) == local
    decreases |local|
  {
    if local != "" {
      assert email[0] == local[0] && local[0] in local;
      LocalPart(email[1..], local[1..]);
      assert local == [local[0]] + local[1..];
    }
  }

  lemma {:induction false} OnlyWhatMatters(text: string)
    ensures Replaced(text) == Replaced(Filtered(text, Matters))
    decreases |text|
  {
    hide Replaced;
    if text != "" {
      var n := |text| - 1;
      var kept := Filtered(text[..n], Matters);
      OnlyWhatMatters(text[..n]);
      assert text == text[..n] + [text[n]];
      ReplacementsJoin(text[..n], [text[n]]);
      ReplacementsJoin(kept, [text[n]]);
      if !Matters(text[n]) {
        OtherCharacterVanishes(text[n]);
        Empty(kept);
        Empty(Replaced(kept));
      }
    }
  }

  // The name that a normalized local part yields.
  ghost function Fitted(name: string): string {
    if |name| == 0 then "000"
    else if |name| == 1 then name + "00"
    else if |name| == 2 then name + "0"
    else if |name| > 30 then name[..30]
    else name
  }

  lemma OnePadding(s: string)
    ensures Padded(s) == if |s| < 3 then Padded(s + "0") else s
  {
  }

  lemma FittedName(name: string)
    ensures Prefix(Padded(name), 30) == Fitted(name)
  {
    OnePadding(name);
    OnePadding(name + "0");
    OnePadding(name + "0" + "0");
    OnePadding(name + "0" + "0" + "0");
    assert name + "0" + "0" == name + "00" && name + "0" + "0" + "0" == name + "000";
    assert name == "" ==> name + "000" == "000";
    hide Padded;
  }

  // Lower-cased, stripped of all characters but letters, digits, dots, pluses, hyphens and underscores,
  // the local part's words come out joined by single underscores, filled up with zeros to three
  // characters or cut off after thirty.
  lemma NameOfWords(email: string, local: string, lower: string -> string,
                    lead: string, first: string, words: seq<string>, gaps: seq<string>, last: string)
    requires HasLocalPart(email, local) && |gaps| == |words|
    requires Filtered(lower(local), Matters) == lead + first + (Spaced(words, gaps) + last)
    requires AllSeparators(lead) && AllSeparators(last) && IsPlainWord(first)
    requires forall i :: 0 <= i < |words| ==> IsPlainWord(words[i]) && gaps[i] != "" && AllSeparators(gaps[i])
    ensures GenerateUsername(email, lower) == Fitted(first + Joined(words, '_'))
  {
    LocalPart(email, local);
    OnlyWhatMatters(lower(local));
    WordsAreJoined(lead, first, words, gaps, last);
    FittedName(first + Joined(words, '_'));
  }

  // A local part without letters and digits yields zeros.
  lemma NameOfNothing(email: string, local: string, lower: string -> string)
    requires HasLocalPart(email, local) && AllSeparators(Filtered(lower(local), Matters))
    ensures GenerateUsername(email, lower) == "000"
  {
    var gap := Filtered(lower(local), Matters);
    LocalPart(email, local);
    OnlyWhatMatters(lower(local));
    CleanGap(gap);
    CollapseBlank(Replaced(gap), IsUnderscore, '_');
    FittedName("");
  }

  // The name itself is tried first. A numbered variant ends with its number and starts like the name, of
  // which it keeps as much as thirty characters allow.
  lemma NumberedVariant(base: string, c: nat)
    requires 0 < c < 10000
    ensures Candidate(base, 0) == base
    ensures var name := Candidate(base, c);
            var n := |name| - |Digits(c)|;
            && n >= 0 && name[n..] == Digits(c) && n <= |base| && name[..n] == base[..n]
            && |name| <= 30 && (n < |base| ==> |name| == 30)
  {
    DigitsLength(c);
  }
}
