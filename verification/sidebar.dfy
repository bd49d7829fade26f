/** The avatar initials the application sidebar shows for the signed-in user. */
module Sidebar {
  import opened Text
  import opened Collections

  /** `s.split(" ")`: the pieces between single spaces. Leading, trailing or
      repeated spaces give empty pieces, and there is always at least one. */
  function Split(s: string): (parts: seq<string>)
    ensures |parts| >= 1
    ensures forall i :: 0 <= i < |parts| ==> ' ' !in parts[i]
  {
    if s == [] then [""]
    else
      var rest := Split(s[1..]);
      if s[0] == ' ' then [""] + rest
      else [[s[0]] + rest[0]] + rest[1..]
  }

  /** `parts.join(" ")`. */
  function JoinSpaces(parts: seq<string>): string
    requires |parts| >= 1
  {
    if |parts| == 1 then parts[0] else parts[0] + " " + JoinSpaces(parts[1..])
  }

  /** Splitting on spaces loses nothing: joining the pieces back gives the name. */
  lemma {:induction false} SplitJoin(s: string)
    ensures JoinSpaces(Split(s)) == s
  {
    if s != [] {
      SplitJoin(s[1..]);
      var rest := Split(s[1..]);
      if s[0] == ' ' {
        assert Split(s) == [""] + rest;
        assert (Split(s))[1..] == rest;
        assert s == [' '] + s[1..];
      } else {
        var parts := Split(s);
        assert parts[0] == [s[0]] + rest[0];
        if |rest| == 1 {
          assert s == [s[0]] + rest[0];
        } else {
          assert parts[1..] == rest[1..];
          assert JoinSpaces(rest) == rest[0] + " " + JoinSpaces(rest[1..]);
          assert s == [s[0]] + s[1..];
        }
      }
    }
  }

  /** `part.charAt(0).toUpperCase()`: empty for an empty piece. */
  function Initial(part: string): string {
    if part == "" then "" else [UpperChar(part[0])]
  }

  /** `parts.map(Initial).join("")`. */
  function Initials(parts: seq<string>): string {
    if parts == [] then "" else Initial(parts[0]) + Initials(parts[1..])
  }

  /** `getInitials`. */
  function GetInitials(name: string): string {
    Initials(Split(name))
  }

  /** The pieces that are not empty, in order. */
  function NonEmpty(parts: seq<string>): (r: seq<string>)
    ensures forall i :: 0 <= i < |r| ==> r[i] != ""
  {
    var r := Filter(parts, (p: string) => p != "");
    assert forall i :: 0 <= i < |r| ==> r[i] in r;
    r
  }

  /** The initials are the upper-cased first characters of the non-empty
      pieces, in order: one character per non-empty piece, none for the
      empty pieces that runs of spaces produce. */
  lemma {:induction false} InitialsOfNonEmpty(parts: seq<string>)
    ensures |Initials(parts)| == |NonEmpty(parts)|
    ensures forall i :: 0 <= i < |NonEmpty(parts)| ==> Initials(parts)[i] == UpperChar(NonEmpty(parts)[i][0])
  {
    if parts != [] {
      InitialsOfNonEmpty(parts[1..]);
      if parts[0] != "" {
        assert NonEmpty(parts) == [parts[0]] + NonEmpty(parts[1..]);
      } else {
        assert NonEmpty(parts) == NonEmpty(parts[1..]);
      }
    }
  }

  /** The initials of a name are the upper-cased first characters of its
      space-separated words, one per non-empty word. */
  lemma GetInitialsSpec(name: string)
    ensures |GetInitials(name)| == |NonEmpty(Split(name))|
    ensures forall i :: 0 <= i < |GetInitials(name)| ==>
      GetInitials(name)[i] == UpperChar(NonEmpty(Split(name))[i][0])
  {
    InitialsOfNonEmpty(Split(name));
  }

  /** The initials never contain a space. */
  lemma {:induction false} InitialsHaveNoSpace(parts: seq<string>)
    requires forall i :: 0 <= i < |parts| ==> ' ' !in parts[i]
    ensures ' ' !in Initials(parts)
  {
    if parts != [] {
      InitialsHaveNoSpace(parts[1..]);
      if parts[0] != "" {
        assert parts[0][0] in parts[0];
        assert UpperChar(parts[0][0]) != ' ';
      }
    }
  }

  lemma GetInitialsHasNoSpace(name: string)
    ensures ' ' !in GetInitials(name)
  {
    InitialsHaveNoSpace(Split(name));
  }

  /** An empty name has empty initials. */
  lemma GetInitialsEmpty()
    ensures GetInitials("") == ""
  {
  }

  /** A single word without spaces has exactly one initial, its upper-cased first letter. */
  lemma {:induction false} GetInitialsOneWord(word: string)
    requires word != "" && ' ' !in word
    ensures GetInitials(word) == [UpperChar(word[0])]
  {
    SplitNoSpace(word);
    assert Initials([word]) == Initial(word) + Initials([]);
  }

  /** A string without spaces is a single piece. */
  lemma {:induction false} SplitNoSpace(s: string)
    requires ' ' !in s
    ensures Split(s) == [s]
  {
    if s != [] {
      assert s[0] != ' ' by { assert s[0] in s; }
      assert ' ' !in s[1..] by {
        forall i | 0 <= i < |s[1..]| ensures s[1..][i] != ' ' {
          assert s[1..][i] == s[i + 1];
        }
      }
      SplitNoSpace(s[1..]);
      assert [s[0]] + s[1..] == s;
    }
  }
}
