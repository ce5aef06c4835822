/** The genre column of a fetched anime: the names of its genres joined with
    ", " (Python's `str.join`), and the split by which the names can be read
    back out of that column. */
module Genres {
  import Seqs

  /** The text placed between two neighbouring genre names. */
  const Sep: string := ", "

  /** True when `s` contains the separator somewhere. */
  predicate HasSep(s: string) {
    exists i :: 0 <= i < |s| - 1 && s[i] == ',' && s[i + 1] == ' '
  }

  /** No name contains the separator, so the joined text has a unique reading. */
  predicate Separable(names: seq<string>) {
    forall i :: 0 <= i < |names| ==> !HasSep(names[i])
  }

  /** Number of characters in all names together. */
  function TotalLength(names: seq<string>): nat {
    if |names| == 0 then 0 else |names[0]| + TotalLength(names[1..])
  }

  /** `", ".join(names)`: the names in order with the separator between
      neighbours; the empty list gives the empty string. */
  function Join(names: seq<string>): (s: string)
    ensures |names| == 0 ==> s == ""
    ensures |names| > 0 ==> |s| == TotalLength(names) + 2 * (|names| - 1)  // |Sep| == 2
  {
    if |names| == 0 then ""
    else if |names| == 1 then names[0]
    else names[0] + Sep + Join(names[1..])
  }

  /** `s.split(", ")`: the pieces between the left-to-right occurrences of
      the separator. Always at least one piece; joining them gives `s` back. */
  function Split(s: string): (parts: seq<string>)
    ensures |parts| >= 1
    ensures Join(parts) == s
    decreases |s|
  {
    if |s| < 2 then [s]
    else if s[0] == ',' && s[1] == ' ' then
      var rest := Split(s[2..]);
      JoinCons("", rest);
      assert s == Sep + s[2..];
      [""] + rest
    else
      var rest := Split(s[1..]);
      JoinGlue(s[0], rest);
      assert s == [s[0]] + s[1..];
      [[s[0]] + rest[0]] + rest[1..]
  }

  /** Joining a name in front of a non-empty list. */
  lemma JoinCons(a: string, rest: seq<string>)
    requires |rest| >= 1
    ensures Join([a] + rest) == a + Sep + Join(rest)
  {
    assert ([a] + rest)[1..] == rest;
  }

  /** Prepending a character to the first name prepends it to the join. */
  lemma JoinGlue(c: char, rest: seq<string>)
    requires |rest| >= 1
    ensures Join([[c] + rest[0]] + rest[1..]) == [c] + Join(rest)
  {
    var x, t := [c] + rest[0], rest[1..];
    assert [rest[0]] + t == rest;
    if |t| == 0 {
      assert [x] + t == [x];
    } else {
      JoinCons(x, t);
      JoinCons(rest[0], t);
      Seqs.Reassociate([c], rest[0], Sep + Join(t));
      Seqs.Reassociate([c] + rest[0], Sep, Join(t));
      Seqs.Reassociate(rest[0], Sep, Join(t));
    }
  }

  /** A name without the separator splits to itself. */
  lemma {:induction false} SplitWhole(a: string)
    requires !HasSep(a)
    ensures Split(a) == [a]
    decreases |a|
  {
    if |a| >= 2 {
      assert !(a[0] == ',' && a[1] == ' ');
      assert !HasSep(a[1..]) by {
        forall i | 0 <= i < |a[1..]| - 1
          ensures !(a[1..][i] == ',' && a[1..][i + 1] == ' ')
        {
          assert a[1..][i] == a[i + 1] && a[1..][i + 1] == a[i + 2];
        }
      }
      SplitWhole(a[1..]);
      assert [a[0]] + a[1..] == a;
    }
  }

  /** Splitting at the first separator: a leading name without the
      separator comes off as one piece. */
  lemma {:induction false} SplitAtSep(a: string, t: string)
    requires !HasSep(a)
    ensures Split(a + Sep + t) == [a] + Split(t)
    decreases |a|
  {
    var s := a + Sep + t;
    if |a| == 0 {
      assert s[2..] == t;
    } else {
      assert s[0] == a[0];
      if |a| == 1 {
        assert s[1] == ',';
      } else {
        assert s[1] == a[1];
        assert !(a[0] == ',' && a[1] == ' ');
      }
      assert !HasSep(a[1..]) by {
        forall i | 0 <= i < |a[1..]| - 1
          ensures !(a[1..][i] == ',' && a[1..][i + 1] == ' ')
        {
          assert a[1..][i] == a[i + 1] && a[1..][i + 1] == a[i + 2];
        }
      }
      assert s[1..] == a[1..] + Sep + t;
      SplitAtSep(a[1..], t);
      assert [a[0]] + a[1..] == a;
    }
  }

  /** Round trip of the genre column: when no genre name contains ", ",
      splitting the joined column gives back exactly the names, in order
      (the empty list comes back as the one empty piece Python's split
      returns for ""). */
  lemma {:induction false} SplitJoin(names: seq<string>)
    requires Separable(names)
    ensures Split(Join(names)) == if names == [] then [""] else names
    decreases |names|
  {
    if |names| == 1 {
      assert !HasSep(names[0]);
      SplitWhole(names[0]);
    } else if |names| > 1 {
      assert Separable(names[1..]) by {
        forall i | 0 <= i < |names[1..]|
          ensures !HasSep(names[1..][i])
        {
          assert names[1..][i] == names[i + 1];
        }
      }
      SplitJoin(names[1..]);
      assert !HasSep(names[0]);
      SplitAtSep(names[0], Join(names[1..]));
      assert [names[0]] + names[1..] == names;
    }
  }
}
