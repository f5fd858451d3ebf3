/** The part of regular expressions that the wire schema uses, and what `fullmatch` means for it. */
module Regex {

  /** A character class is a list of ranges. */
  datatype Re =
    | Class(ranges: seq<(char, char)>)
    | Cat(first: Re, second: Re)
    | Opt(body: Re)
    | Rep(body: Re, lo: nat, hi: nat)

  predicate InClass(c: char, ranges: seq<(char, char)>) {
    exists i :: 0 <= i < |ranges| && ranges[i].0 <= c <= ranges[i].1
  }

  ghost predicate Matches(r: Re, s: string)
    decreases r, 0
  {
    match r
    case Class(ranges) => |s| == 1 && InClass(s[0], ranges)
    case Cat(a, b) => exists i :: 0 <= i <= |s| && Matches(a, s[..i]) && Matches(b, s[i..])
    case Opt(a) => s == "" || Matches(a, s)
    case Rep(a, lo, hi) => Repeats(a, lo, hi, s)
  }

  /** At least `lo` and at most `hi` matches of the body in a row. */
  ghost predicate Repeats(a: Re, lo: nat, hi: nat, s: string)
    decreases a, hi + 1
  {
    || (lo == 0 && s == "")
    || (hi > 0 && exists i ::
          0 <= i <= |s| && Matches(a, s[..i]) && Repeats(a, if lo > 0 then lo - 1 else 0, hi - 1, s[i..]))
  }

  predicate AllIn(s: string, ranges: seq<(char, char)>) {
    forall i :: 0 <= i < |s| ==> InClass(s[i], ranges)
  }

  /** A class is its first range or the others. */
  lemma InFirstOrRest(c: char, ranges: seq<(char, char)>)
    requires |ranges| > 0
    ensures InClass(c, ranges) <==> ranges[0].0 <= c <= ranges[0].1 || InClass(c, ranges[1..])
  {
    if i :| 0 < i < |ranges| && ranges[i].0 <= c <= ranges[i].1 {
      assert ranges[1..][i - 1] == ranges[i];
    }
  }

  /** A class followed by anything is decided by the first character. */
  lemma ClassThen(ranges: seq<(char, char)>, r: Re, s: string)
    ensures Matches(Cat(Class(ranges), r), s) <==> |s| > 0 && InClass(s[0], ranges) && Matches(r, s[1..])
  {
    if |s| > 0 && InClass(s[0], ranges) && Matches(r, s[1..]) {
      assert Matches(Class(ranges), s[..1]);
    }
  }

  /** Anything followed by a class is decided by the last character. */
  lemma {:induction false} ThenClass(r: Re, ranges: seq<(char, char)>, s: string)
    ensures Matches(Cat(r, Class(ranges)), s) <==>
            |s| > 0 && Matches(r, s[..|s| - 1]) && InClass(s[|s| - 1], ranges)
  {
    hide InClass;
    if |s| > 0 && Matches(r, s[..|s| - 1]) && InClass(s[|s| - 1], ranges) {
      assert Matches(Class(ranges), s[|s| - 1..]);
    }
    if Matches(Cat(r, Class(ranges)), s) {
      var i :| 0 <= i <= |s| && Matches(r, s[..i]) && Matches(Class(ranges), s[i..]);
      assert i == |s| - 1;
    }
  }

  /** A repeated class is a length and a character class. */
  lemma {:induction false} RepeatedClass(ranges: seq<(char, char)>, lo: nat, hi: nat, s: string)
    requires lo <= hi
    ensures Repeats(Class(ranges), lo, hi, s) <==> lo <= |s| <= hi && AllIn(s, ranges)
    decreases hi
  {
    if hi > 0 {
      var less: nat := if lo > 0 then lo - 1 else 0;
      if |s| > 0 {
        RepeatedClass(ranges, less, hi - 1, s[1..]);
        HeadAndTail(s, ranges);
      }
      if lo <= |s| <= hi && AllIn(s, ranges) && |s| > 0 {
        assert Matches(Class(ranges), s[..1]);
      }
      if Repeats(Class(ranges), lo, hi, s) && !(lo == 0 && s == "") {
        var i :| 0 <= i <= |s| && Matches(Class(ranges), s[..i]) && Repeats(Class(ranges), less, hi - 1, s[i..]);
        assert i == 1;
      }
    }
  }

  lemma HeadAndTail(s: string, ranges: seq<(char, char)>)
    requires |s| > 0
    ensures AllIn(s, ranges) <==> InClass(s[0], ranges) && AllIn(s[1..], ranges)
  {
    if InClass(s[0], ranges) && AllIn(s[1..], ranges) {
      forall i | 0 <= i < |s|
        ensures InClass(s[i], ranges)
      {
        if i > 0 {
          assert s[i] == s[1..][i - 1];
        }
      }
    }
  }
}
