/** The whitespace that JavaScript's \s matches and trim removes. */
module Whitespace {
  predicate IsSpace(c: char) {
    || ('\t' <= c <= '\r') || c == ' ' || c == '\U{00A0}' || c == '\U{1680}' || ('\U{2000}' <= c <= '\U{200A}')
    || c == '\U{2028}' || c == '\U{2029}' || c == '\U{202F}' || c == '\U{205F}' || c == '\U{3000}' || c == '\U{FEFF}'
  }

  // Tab, line feed, vertical tab, form feed, carriage return, blank, and Unicode's other spaces.
  lemma TheSpaces(c: char)
    ensures IsSpace(c) <==>
      || c in "\t\n\U{000B}\U{000C}\r \U{00A0}\U{1680}\U{2028}\U{2029}\U{202F}\U{205F}\U{3000}\U{FEFF}"
      || c in "\U{2000}\U{2001}\U{2002}\U{2003}\U{2004}\U{2005}\U{2006}\U{2007}\U{2008}\U{2009}\U{200A}"
  {
  }

  function TrimStart(s: string): string {
    if s != "" && IsSpace(s[0]) then TrimStart(s[1..]) else s
  }

  function TrimEnd(s: string): string {
    if s != "" && IsSpace(s[|s| - 1]) then TrimEnd(s[..|s| - 1]) else s
  }

  function Trim(s: string): string {
    TrimEnd(TrimStart(s))
  }

  ghost predicate IsTrimmed(s: string) {
    s != "" ==> !IsSpace(s[0]) && !IsSpace(s[|s| - 1])
  }

  ghost predicate IsBlank(s: string) {
    forall i :: 0 <= i < |s| ==> IsSpace(s[i])
  }

  lemma {:induction false} TrimStartDropsBlank(pad: string, s: string)
    requires IsBlank(pad) && (s != "" ==> !IsSpace(s[0]))
    ensures TrimStart(pad + s) == s
    decreases |pad|
  {
    if pad == "" {
      assert pad + s == s;
    } else {
      assert (pad + s)[0] == pad[0] && (pad + s)[1..] == pad[1..] + s;
      TrimStartDropsBlank(pad[1..], s);
    }
  }

  lemma {:induction false} TrimEndDropsBlank(s: string, pad: string)
    requires IsBlank(pad) && (s != "" ==> !IsSpace(s[|s| - 1]))
    ensures TrimEnd(s + pad) == s
    decreases |pad|
  {
    if pad == "" {
      assert s + pad == s;
    } else {
      var n := |s + pad| - 1;
      assert (s + pad)[n] == pad[|pad| - 1] && (s + pad)[..n] == s + pad[..|pad| - 1];
      TrimEndDropsBlank(s, pad[..|pad| - 1]);
    }
  }

  // Trimming removes exactly the blanks around a text.
  lemma TrimDropsPadding(left: string, s: string, right: string)
    requires IsBlank(left) && IsBlank(right) && IsTrimmed(s)
    ensures Trim(left + s + right) == s
  {
    if s == "" {
      assert left + s + right == left + right + "";
      TrimStartDropsBlank(left + right, "");
    } else {
      assert left + s + right == left + (s + right);
      TrimStartDropsBlank(left, s + right);
      TrimEndDropsBlank(s, right);
    }
  }

  lemma {:induction false} TrimStartTrims(s: string)
    ensures TrimStart(s) != "" ==> !IsSpace(TrimStart(s)[0])
  {
    if s != "" && IsSpace(s[0]) {
      TrimStartTrims(s[1..]);
    }
  }

  lemma {:induction false} TrimEndTrims(s: string)
    requires s != "" ==> !IsSpace(s[0])
    ensures IsTrimmed(TrimEnd(s))
  {
    if s != "" && IsSpace(s[|s| - 1]) {
      TrimEndTrims(s[..|s| - 1]);
    }
  }

  lemma TrimLeavesTrimmed(s: string)
    requires IsTrimmed(s)
    ensures Trim(s) == s
  {
    assert "" + s + "" == s;
    TrimDropsPadding("", s, "");
  }

  lemma TrimTwice(s: string)
    ensures IsTrimmed(Trim(s)) && Trim(Trim(s)) == Trim(s)
  {
    TrimStartTrims(s);
    TrimEndTrims(TrimStart(s));
    TrimLeavesTrimmed(Trim(s));
  }
}
